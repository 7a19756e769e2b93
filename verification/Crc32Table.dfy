/**
 The 256-entry table of src/dfu_file.c, checked entry by entry against the
 bit-serial division it stands for.
 */
module Crc32Table {
  import opened Words

  // The entries, eight to a row.
  function Row(k: nat): (row: seq<u32>)
    requires k < 32
    ensures |row| == 8
  {
    match k
    case 0 => [0x00000000, 0x77073096, 0xee0e612c, 0x990951ba, 0x076dc419, 0x706af48f, 0xe963a535, 0x9e6495a3]
    case 1 => [0x0edb8832, 0x79dcb8a4, 0xe0d5e91e, 0x97d2d988, 0x09b64c2b, 0x7eb17cbd, 0xe7b82d07, 0x90bf1d91]
    case 2 => [0x1db71064, 0x6ab020f2, 0xf3b97148, 0x84be41de, 0x1adad47d, 0x6ddde4eb, 0xf4d4b551, 0x83d385c7]
    case 3 => [0x136c9856, 0x646ba8c0, 0xfd62f97a, 0x8a65c9ec, 0x14015c4f, 0x63066cd9, 0xfa0f3d63, 0x8d080df5]
    case 4 => [0x3b6e20c8, 0x4c69105e, 0xd56041e4, 0xa2677172, 0x3c03e4d1, 0x4b04d447, 0xd20d85fd, 0xa50ab56b]
    case 5 => [0x35b5a8fa, 0x42b2986c, 0xdbbbc9d6, 0xacbcf940, 0x32d86ce3, 0x45df5c75, 0xdcd60dcf, 0xabd13d59]
    case 6 => [0x26d930ac, 0x51de003a, 0xc8d75180, 0xbfd06116, 0x21b4f4b5, 0x56b3c423, 0xcfba9599, 0xb8bda50f]
    case 7 => [0x2802b89e, 0x5f058808, 0xc60cd9b2, 0xb10be924, 0x2f6f7c87, 0x58684c11, 0xc1611dab, 0xb6662d3d]
    case 8 => [0x76dc4190, 0x01db7106, 0x98d220bc, 0xefd5102a, 0x71b18589, 0x06b6b51f, 0x9fbfe4a5, 0xe8b8d433]
    case 9 => [0x7807c9a2, 0x0f00f934, 0x9609a88e, 0xe10e9818, 0x7f6a0dbb, 0x086d3d2d, 0x91646c97, 0xe6635c01]
    case 10 => [0x6b6b51f4, 0x1c6c6162, 0x856530d8, 0xf262004e, 0x6c0695ed, 0x1b01a57b, 0x8208f4c1, 0xf50fc457]
    case 11 => [0x65b0d9c6, 0x12b7e950, 0x8bbeb8ea, 0xfcb9887c, 0x62dd1ddf, 0x15da2d49, 0x8cd37cf3, 0xfbd44c65]
    case 12 => [0x4db26158, 0x3ab551ce, 0xa3bc0074, 0xd4bb30e2, 0x4adfa541, 0x3dd895d7, 0xa4d1c46d, 0xd3d6f4fb]
    case 13 => [0x4369e96a, 0x346ed9fc, 0xad678846, 0xda60b8d0, 0x44042d73, 0x33031de5, 0xaa0a4c5f, 0xdd0d7cc9]
    case 14 => [0x5005713c, 0x270241aa, 0xbe0b1010, 0xc90c2086, 0x5768b525, 0x206f85b3, 0xb966d409, 0xce61e49f]
    case 15 => [0x5edef90e, 0x29d9c998, 0xb0d09822, 0xc7d7a8b4, 0x59b33d17, 0x2eb40d81, 0xb7bd5c3b, 0xc0ba6cad]
    case 16 => [0xedb88320, 0x9abfb3b6, 0x03b6e20c, 0x74b1d29a, 0xead54739, 0x9dd277af, 0x04db2615, 0x73dc1683]
    case 17 => [0xe3630b12, 0x94643b84, 0x0d6d6a3e, 0x7a6a5aa8, 0xe40ecf0b, 0x9309ff9d, 0x0a00ae27, 0x7d079eb1]
    case 18 => [0xf00f9344, 0x8708a3d2, 0x1e01f268, 0x6906c2fe, 0xf762575d, 0x806567cb, 0x196c3671, 0x6e6b06e7]
    case 19 => [0xfed41b76, 0x89d32be0, 0x10da7a5a, 0x67dd4acc, 0xf9b9df6f, 0x8ebeeff9, 0x17b7be43, 0x60b08ed5]
    case 20 => [0xd6d6a3e8, 0xa1d1937e, 0x38d8c2c4, 0x4fdff252, 0xd1bb67f1, 0xa6bc5767, 0x3fb506dd, 0x48b2364b]
    case 21 => [0xd80d2bda, 0xaf0a1b4c, 0x36034af6, 0x41047a60, 0xdf60efc3, 0xa867df55, 0x316e8eef, 0x4669be79]
    case 22 => [0xcb61b38c, 0xbc66831a, 0x256fd2a0, 0x5268e236, 0xcc0c7795, 0xbb0b4703, 0x220216b9, 0x5505262f]
    case 23 => [0xc5ba3bbe, 0xb2bd0b28, 0x2bb45a92, 0x5cb36a04, 0xc2d7ffa7, 0xb5d0cf31, 0x2cd99e8b, 0x5bdeae1d]
    case 24 => [0x9b64c2b0, 0xec63f226, 0x756aa39c, 0x026d930a, 0x9c0906a9, 0xeb0e363f, 0x72076785, 0x05005713]
    case 25 => [0x95bf4a82, 0xe2b87a14, 0x7bb12bae, 0x0cb61b38, 0x92d28e9b, 0xe5d5be0d, 0x7cdcefb7, 0x0bdbdf21]
    case 26 => [0x86d3d2d4, 0xf1d4e242, 0x68ddb3f8, 0x1fda836e, 0x81be16cd, 0xf6b9265b, 0x6fb077e1, 0x18b74777]
    case 27 => [0x88085ae6, 0xff0f6a70, 0x66063bca, 0x11010b5c, 0x8f659eff, 0xf862ae69, 0x616bffd3, 0x166ccf45]
    case 28 => [0xa00ae278, 0xd70dd2ee, 0x4e048354, 0x3903b3c2, 0xa7672661, 0xd06016f7, 0x4969474d, 0x3e6e77db]
    case 29 => [0xaed16a4a, 0xd9d65adc, 0x40df0b66, 0x37d83bf0, 0xa9bcae53, 0xdebb9ec5, 0x47b2cf7f, 0x30b5ffe9]
    case 30 => [0xbdbdf21c, 0xcabac28a, 0x53b39330, 0x24b4a3a6, 0xbad03605, 0xcdd70693, 0x54de5729, 0x23d967bf]
    case _ => [0xb3667a2e, 0xc4614ab8, 0x5d681b02, 0x2a6f2b94, 0xb40bbe37, 0xc30c8ea1, 0x5a05df1b, 0x2d02ef8d]
  }

  // Adding the generator's lower part, 0xEDB88320, to a register, a hex digit of it at
  // a time: RestN is what the register holds below digit N, FlipN what flipping the
  // generator's bits in digit N adds.
  function Rest7(a: nat): nat {
    var a31 := if a >= 0x80000000 then a - 0x80000000 else a;
    var a30 := if a31 >= 0x40000000 then a31 - 0x40000000 else a31;
    var a29 := if a30 >= 0x20000000 then a30 - 0x20000000 else a30;
    if a29 >= 0x10000000 then a29 - 0x10000000 else a29
  }

  function Flip7(a: nat): int {
    var a31 := if a >= 0x80000000 then a - 0x80000000 else a;
    var a30 := if a31 >= 0x40000000 then a31 - 0x40000000 else a31;
    (if a >= 0x80000000 then -0x80000000 else 0x80000000) + (if a31 >= 0x40000000 then -0x40000000 else 0x40000000)
      + (if a30 >= 0x20000000 then -0x20000000 else 0x20000000)
  }

  function Rest6(a: nat): nat {
    var a27 := if a >= 0x8000000 then a - 0x8000000 else a;
    var a26 := if a27 >= 0x4000000 then a27 - 0x4000000 else a27;
    var a25 := if a26 >= 0x2000000 then a26 - 0x2000000 else a26;
    if a25 >= 0x1000000 then a25 - 0x1000000 else a25
  }

  function Flip6(a: nat): int {
    var a27 := if a >= 0x8000000 then a - 0x8000000 else a;
    var a26 := if a27 >= 0x4000000 then a27 - 0x4000000 else a27;
    var a25 := if a26 >= 0x2000000 then a26 - 0x2000000 else a26;
    (if a >= 0x8000000 then -0x8000000 else 0x8000000) + (if a27 >= 0x4000000 then -0x4000000 else 0x4000000)
      + (if a25 >= 0x1000000 then -0x1000000 else 0x1000000)
  }

  function Rest5(a: nat): nat {
    var a23 := if a >= 0x800000 then a - 0x800000 else a;
    var a22 := if a23 >= 0x400000 then a23 - 0x400000 else a23;
    var a21 := if a22 >= 0x200000 then a22 - 0x200000 else a22;
    if a21 >= 0x100000 then a21 - 0x100000 else a21
  }

  function Flip5(a: nat): int {
    var a23 := if a >= 0x800000 then a - 0x800000 else a;
    var a22 := if a23 >= 0x400000 then a23 - 0x400000 else a23;
    var a21 := if a22 >= 0x200000 then a22 - 0x200000 else a22;
    (if a >= 0x800000 then -0x800000 else 0x800000) + (if a22 >= 0x200000 then -0x200000 else 0x200000)
      + (if a21 >= 0x100000 then -0x100000 else 0x100000)
  }

  function Rest4(a: nat): nat {
    var a19 := if a >= 0x80000 then a - 0x80000 else a;
    var a18 := if a19 >= 0x40000 then a19 - 0x40000 else a19;
    var a17 := if a18 >= 0x20000 then a18 - 0x20000 else a18;
    if a17 >= 0x10000 then a17 - 0x10000 else a17
  }

  function Flip4(a: nat): int {
    (if a >= 0x80000 then -0x80000 else 0x80000)
  }

  function Rest3(a: nat): nat {
    var a15 := if a >= 0x8000 then a - 0x8000 else a;
    var a14 := if a15 >= 0x4000 then a15 - 0x4000 else a15;
    var a13 := if a14 >= 0x2000 then a14 - 0x2000 else a14;
    if a13 >= 0x1000 then a13 - 0x1000 else a13
  }

  function Flip3(a: nat): int {
    (if a >= 0x8000 then -0x8000 else 0x8000)
  }

  function Rest2(a: nat): nat {
    var a11 := if a >= 0x800 then a - 0x800 else a;
    var a10 := if a11 >= 0x400 then a11 - 0x400 else a11;
    var a9 := if a10 >= 0x200 then a10 - 0x200 else a10;
    if a9 >= 0x100 then a9 - 0x100 else a9
  }

  function Flip2(a: nat): int {
    var a11 := if a >= 0x800 then a - 0x800 else a;
    var a10 := if a11 >= 0x400 then a11 - 0x400 else a11;
    var a9 := if a10 >= 0x200 then a10 - 0x200 else a10;
    (if a10 >= 0x200 then -0x200 else 0x200) + (if a9 >= 0x100 then -0x100 else 0x100)
  }

  function Flip1(a: nat): int {
    var a7 := if a >= 0x80 then a - 0x80 else a;
    var a6 := if a7 >= 0x40 then a7 - 0x40 else a7;
    (if a6 >= 0x20 then -0x20 else 0x20)
  }

  function AddPoly(a: nat): int {
    var r7 := Rest7(a);
    var r6 := Rest6(r7);
    var r5 := Rest5(r6);
    var r4 := Rest4(r5);
    var r3 := Rest3(r4);
    var r2 := Rest2(r3);
    a + Flip7(a) + Flip6(r7) + Flip5(r6) + Flip4(r5) + Flip3(r4) + Flip2(r3) + Flip1(r2)
  }

  // One step of the reflected division: the bit leaving at the bottom adds the generator.
  function Half(a: nat): int {
    if a % 2 == 1 then AddPoly(a / 2) else a / 2
  }

  // Entry 128 + i is entry i plus the generator.
  lemma Added0()
    ensures
      && AddPoly(0x00000000) == 0xedb88320 && AddPoly(0x77073096) == 0x9abfb3b6
      && AddPoly(0xee0e612c) == 0x03b6e20c && AddPoly(0x990951ba) == 0x74b1d29a
      && AddPoly(0x076dc419) == 0xead54739 && AddPoly(0x706af48f) == 0x9dd277af
      && AddPoly(0xe963a535) == 0x04db2615 && AddPoly(0x9e6495a3) == 0x73dc1683
  {
  }

  lemma Added1()
    ensures
      && AddPoly(0x0edb8832) == 0xe3630b12 && AddPoly(0x79dcb8a4) == 0x94643b84
      && AddPoly(0xe0d5e91e) == 0x0d6d6a3e && AddPoly(0x97d2d988) == 0x7a6a5aa8
      && AddPoly(0x09b64c2b) == 0xe40ecf0b && AddPoly(0x7eb17cbd) == 0x9309ff9d
      && AddPoly(0xe7b82d07) == 0x0a00ae27 && AddPoly(0x90bf1d91) == 0x7d079eb1
  {
  }

  lemma Added2()
    ensures
      && AddPoly(0x1db71064) == 0xf00f9344 && AddPoly(0x6ab020f2) == 0x8708a3d2
      && AddPoly(0xf3b97148) == 0x1e01f268 && AddPoly(0x84be41de) == 0x6906c2fe
      && AddPoly(0x1adad47d) == 0xf762575d && AddPoly(0x6ddde4eb) == 0x806567cb
      && AddPoly(0xf4d4b551) == 0x196c3671 && AddPoly(0x83d385c7) == 0x6e6b06e7
  {
  }

  lemma Added3()
    ensures
      && AddPoly(0x136c9856) == 0xfed41b76 && AddPoly(0x646ba8c0) == 0x89d32be0
      && AddPoly(0xfd62f97a) == 0x10da7a5a && AddPoly(0x8a65c9ec) == 0x67dd4acc
      && AddPoly(0x14015c4f) == 0xf9b9df6f && AddPoly(0x63066cd9) == 0x8ebeeff9
      && AddPoly(0xfa0f3d63) == 0x17b7be43 && AddPoly(0x8d080df5) == 0x60b08ed5
  {
  }

  lemma Added4()
    ensures
      && AddPoly(0x3b6e20c8) == 0xd6d6a3e8 && AddPoly(0x4c69105e) == 0xa1d1937e
      && AddPoly(0xd56041e4) == 0x38d8c2c4 && AddPoly(0xa2677172) == 0x4fdff252
      && AddPoly(0x3c03e4d1) == 0xd1bb67f1 && AddPoly(0x4b04d447) == 0xa6bc5767
      && AddPoly(0xd20d85fd) == 0x3fb506dd && AddPoly(0xa50ab56b) == 0x48b2364b
  {
  }

  lemma Added5()
    ensures
      && AddPoly(0x35b5a8fa) == 0xd80d2bda && AddPoly(0x42b2986c) == 0xaf0a1b4c
      && AddPoly(0xdbbbc9d6) == 0x36034af6 && AddPoly(0xacbcf940) == 0x41047a60
      && AddPoly(0x32d86ce3) == 0xdf60efc3 && AddPoly(0x45df5c75) == 0xa867df55
      && AddPoly(0xdcd60dcf) == 0x316e8eef && AddPoly(0xabd13d59) == 0x4669be79
  {
  }

  lemma Added6()
    ensures
      && AddPoly(0x26d930ac) == 0xcb61b38c && AddPoly(0x51de003a) == 0xbc66831a
      && AddPoly(0xc8d75180) == 0x256fd2a0 && AddPoly(0xbfd06116) == 0x5268e236
      && AddPoly(0x21b4f4b5) == 0xcc0c7795 && AddPoly(0x56b3c423) == 0xbb0b4703
      && AddPoly(0xcfba9599) == 0x220216b9 && AddPoly(0xb8bda50f) == 0x5505262f
  {
  }

  lemma Added7()
    ensures
      && AddPoly(0x2802b89e) == 0xc5ba3bbe && AddPoly(0x5f058808) == 0xb2bd0b28
      && AddPoly(0xc60cd9b2) == 0x2bb45a92 && AddPoly(0xb10be924) == 0x5cb36a04
      && AddPoly(0x2f6f7c87) == 0xc2d7ffa7 && AddPoly(0x58684c11) == 0xb5d0cf31
      && AddPoly(0xc1611dab) == 0x2cd99e8b && AddPoly(0xb6662d3d) == 0x5bdeae1d
  {
  }

  lemma Added8()
    ensures
      && AddPoly(0x76dc4190) == 0x9b64c2b0 && AddPoly(0x01db7106) == 0xec63f226
      && AddPoly(0x98d220bc) == 0x756aa39c && AddPoly(0xefd5102a) == 0x026d930a
      && AddPoly(0x71b18589) == 0x9c0906a9 && AddPoly(0x06b6b51f) == 0xeb0e363f
      && AddPoly(0x9fbfe4a5) == 0x72076785 && AddPoly(0xe8b8d433) == 0x05005713
  {
  }

  lemma Added9()
    ensures
      && AddPoly(0x7807c9a2) == 0x95bf4a82 && AddPoly(0x0f00f934) == 0xe2b87a14
      && AddPoly(0x9609a88e) == 0x7bb12bae && AddPoly(0xe10e9818) == 0x0cb61b38
      && AddPoly(0x7f6a0dbb) == 0x92d28e9b && AddPoly(0x086d3d2d) == 0xe5d5be0d
      && AddPoly(0x91646c97) == 0x7cdcefb7 && AddPoly(0xe6635c01) == 0x0bdbdf21
  {
  }

  lemma Added10()
    ensures
      && AddPoly(0x6b6b51f4) == 0x86d3d2d4 && AddPoly(0x1c6c6162) == 0xf1d4e242
      && AddPoly(0x856530d8) == 0x68ddb3f8 && AddPoly(0xf262004e) == 0x1fda836e
      && AddPoly(0x6c0695ed) == 0x81be16cd && AddPoly(0x1b01a57b) == 0xf6b9265b
      && AddPoly(0x8208f4c1) == 0x6fb077e1 && AddPoly(0xf50fc457) == 0x18b74777
  {
  }

  lemma Added11()
    ensures
      && AddPoly(0x65b0d9c6) == 0x88085ae6 && AddPoly(0x12b7e950) == 0xff0f6a70
      && AddPoly(0x8bbeb8ea) == 0x66063bca && AddPoly(0xfcb9887c) == 0x11010b5c
      && AddPoly(0x62dd1ddf) == 0x8f659eff && AddPoly(0x15da2d49) == 0xf862ae69
      && AddPoly(0x8cd37cf3) == 0x616bffd3 && AddPoly(0xfbd44c65) == 0x166ccf45
  {
  }

  lemma Added12()
    ensures
      && AddPoly(0x4db26158) == 0xa00ae278 && AddPoly(0x3ab551ce) == 0xd70dd2ee
      && AddPoly(0xa3bc0074) == 0x4e048354 && AddPoly(0xd4bb30e2) == 0x3903b3c2
      && AddPoly(0x4adfa541) == 0xa7672661 && AddPoly(0x3dd895d7) == 0xd06016f7
      && AddPoly(0xa4d1c46d) == 0x4969474d && AddPoly(0xd3d6f4fb) == 0x3e6e77db
  {
  }

  lemma Added13()
    ensures
      && AddPoly(0x4369e96a) == 0xaed16a4a && AddPoly(0x346ed9fc) == 0xd9d65adc
      && AddPoly(0xad678846) == 0x40df0b66 && AddPoly(0xda60b8d0) == 0x37d83bf0
      && AddPoly(0x44042d73) == 0xa9bcae53 && AddPoly(0x33031de5) == 0xdebb9ec5
      && AddPoly(0xaa0a4c5f) == 0x47b2cf7f && AddPoly(0xdd0d7cc9) == 0x30b5ffe9
  {
  }

  lemma Added14()
    ensures
      && AddPoly(0x5005713c) == 0xbdbdf21c && AddPoly(0x270241aa) == 0xcabac28a
      && AddPoly(0xbe0b1010) == 0x53b39330 && AddPoly(0xc90c2086) == 0x24b4a3a6
      && AddPoly(0x5768b525) == 0xbad03605 && AddPoly(0x206f85b3) == 0xcdd70693
      && AddPoly(0xb966d409) == 0x54de5729 && AddPoly(0xce61e49f) == 0x23d967bf
  {
  }

  lemma Added15()
    ensures
      && AddPoly(0x5edef90e) == 0xb3667a2e && AddPoly(0x29d9c998) == 0xc4614ab8
      && AddPoly(0xb0d09822) == 0x5d681b02 && AddPoly(0xc7d7a8b4) == 0x2a6f2b94
      && AddPoly(0x59b33d17) == 0xb40bbe37 && AddPoly(0x2eb40d81) == 0xc30c8ea1
      && AddPoly(0xb7bd5c3b) == 0x5a05df1b && AddPoly(0xc0ba6cad) == 0x2d02ef8d
  {
  }

  // Entry i is entry 2i, one step on.
  lemma Halved0()
    ensures
      && Half(0x00000000) == 0x00000000 && Half(0xee0e612c) == 0x77073096
      && Half(0x076dc419) == 0xee0e612c && Half(0xe963a535) == 0x990951ba
      && Half(0x0edb8832) == 0x076dc419 && Half(0xe0d5e91e) == 0x706af48f
      && Half(0x09b64c2b) == 0xe963a535 && Half(0xe7b82d07) == 0x9e6495a3
  {
  }

  lemma Halved1()
    ensures
      && Half(0x1db71064) == 0x0edb8832 && Half(0xf3b97148) == 0x79dcb8a4
      && Half(0x1adad47d) == 0xe0d5e91e && Half(0xf4d4b551) == 0x97d2d988
      && Half(0x136c9856) == 0x09b64c2b && Half(0xfd62f97a) == 0x7eb17cbd
      && Half(0x14015c4f) == 0xe7b82d07 && Half(0xfa0f3d63) == 0x90bf1d91
  {
  }

  lemma Halved2()
    ensures
      && Half(0x3b6e20c8) == 0x1db71064 && Half(0xd56041e4) == 0x6ab020f2
      && Half(0x3c03e4d1) == 0xf3b97148 && Half(0xd20d85fd) == 0x84be41de
      && Half(0x35b5a8fa) == 0x1adad47d && Half(0xdbbbc9d6) == 0x6ddde4eb
      && Half(0x32d86ce3) == 0xf4d4b551 && Half(0xdcd60dcf) == 0x83d385c7
  {
  }

  lemma Halved3()
    ensures
      && Half(0x26d930ac) == 0x136c9856 && Half(0xc8d75180) == 0x646ba8c0
      && Half(0x21b4f4b5) == 0xfd62f97a && Half(0xcfba9599) == 0x8a65c9ec
      && Half(0x2802b89e) == 0x14015c4f && Half(0xc60cd9b2) == 0x63066cd9
      && Half(0x2f6f7c87) == 0xfa0f3d63 && Half(0xc1611dab) == 0x8d080df5
  {
  }

  lemma Halved4()
    ensures
      && Half(0x76dc4190) == 0x3b6e20c8 && Half(0x98d220bc) == 0x4c69105e
      && Half(0x71b18589) == 0xd56041e4 && Half(0x9fbfe4a5) == 0xa2677172
      && Half(0x7807c9a2) == 0x3c03e4d1 && Half(0x9609a88e) == 0x4b04d447
      && Half(0x7f6a0dbb) == 0xd20d85fd && Half(0x91646c97) == 0xa50ab56b
  {
  }

  lemma Halved5()
    ensures
      && Half(0x6b6b51f4) == 0x35b5a8fa && Half(0x856530d8) == 0x42b2986c
      && Half(0x6c0695ed) == 0xdbbbc9d6 && Half(0x8208f4c1) == 0xacbcf940
      && Half(0x65b0d9c6) == 0x32d86ce3 && Half(0x8bbeb8ea) == 0x45df5c75
      && Half(0x62dd1ddf) == 0xdcd60dcf && Half(0x8cd37cf3) == 0xabd13d59
  {
  }

  lemma Halved6()
    ensures
      && Half(0x4db26158) == 0x26d930ac && Half(0xa3bc0074) == 0x51de003a
      && Half(0x4adfa541) == 0xc8d75180 && Half(0xa4d1c46d) == 0xbfd06116
      && Half(0x4369e96a) == 0x21b4f4b5 && Half(0xad678846) == 0x56b3c423
      && Half(0x44042d73) == 0xcfba9599 && Half(0xaa0a4c5f) == 0xb8bda50f
  {
  }

  lemma Halved7()
    ensures
      && Half(0x5005713c) == 0x2802b89e && Half(0xbe0b1010) == 0x5f058808
      && Half(0x5768b525) == 0xc60cd9b2 && Half(0xb966d409) == 0xb10be924
      && Half(0x5edef90e) == 0x2f6f7c87 && Half(0xb0d09822) == 0x58684c11
      && Half(0x59b33d17) == 0xc1611dab && Half(0xb7bd5c3b) == 0xb6662d3d
  {
  }

  lemma Halved8()
    ensures
      && Half(0xedb88320) == 0x76dc4190 && Half(0x03b6e20c) == 0x01db7106
      && Half(0xead54739) == 0x98d220bc && Half(0x04db2615) == 0xefd5102a
      && Half(0xe3630b12) == 0x71b18589 && Half(0x0d6d6a3e) == 0x06b6b51f
      && Half(0xe40ecf0b) == 0x9fbfe4a5 && Half(0x0a00ae27) == 0xe8b8d433
  {
  }

  lemma Halved9()
    ensures
      && Half(0xf00f9344) == 0x7807c9a2 && Half(0x1e01f268) == 0x0f00f934
      && Half(0xf762575d) == 0x9609a88e && Half(0x196c3671) == 0xe10e9818
      && Half(0xfed41b76) == 0x7f6a0dbb && Half(0x10da7a5a) == 0x086d3d2d
      && Half(0xf9b9df6f) == 0x91646c97 && Half(0x17b7be43) == 0xe6635c01
  {
  }

  lemma Halved10()
    ensures
      && Half(0xd6d6a3e8) == 0x6b6b51f4 && Half(0x38d8c2c4) == 0x1c6c6162
      && Half(0xd1bb67f1) == 0x856530d8 && Half(0x3fb506dd) == 0xf262004e
      && Half(0xd80d2bda) == 0x6c0695ed && Half(0x36034af6) == 0x1b01a57b
      && Half(0xdf60efc3) == 0x8208f4c1 && Half(0x316e8eef) == 0xf50fc457
  {
  }

  lemma Halved11()
    ensures
      && Half(0xcb61b38c) == 0x65b0d9c6 && Half(0x256fd2a0) == 0x12b7e950
      && Half(0xcc0c7795) == 0x8bbeb8ea && Half(0x220216b9) == 0xfcb9887c
      && Half(0xc5ba3bbe) == 0x62dd1ddf && Half(0x2bb45a92) == 0x15da2d49
      && Half(0xc2d7ffa7) == 0x8cd37cf3 && Half(0x2cd99e8b) == 0xfbd44c65
  {
  }

  lemma Halved12()
    ensures
      && Half(0x9b64c2b0) == 0x4db26158 && Half(0x756aa39c) == 0x3ab551ce
      && Half(0x9c0906a9) == 0xa3bc0074 && Half(0x72076785) == 0xd4bb30e2
      && Half(0x95bf4a82) == 0x4adfa541 && Half(0x7bb12bae) == 0x3dd895d7
      && Half(0x92d28e9b) == 0xa4d1c46d && Half(0x7cdcefb7) == 0xd3d6f4fb
  {
  }

  lemma Halved13()
    ensures
      && Half(0x86d3d2d4) == 0x4369e96a && Half(0x68ddb3f8) == 0x346ed9fc
      && Half(0x81be16cd) == 0xad678846 && Half(0x6fb077e1) == 0xda60b8d0
      && Half(0x88085ae6) == 0x44042d73 && Half(0x66063bca) == 0x33031de5
      && Half(0x8f659eff) == 0xaa0a4c5f && Half(0x616bffd3) == 0xdd0d7cc9
  {
  }

  lemma Halved14()
    ensures
      && Half(0xa00ae278) == 0x5005713c && Half(0x4e048354) == 0x270241aa
      && Half(0xa7672661) == 0xbe0b1010 && Half(0x4969474d) == 0xc90c2086
      && Half(0xaed16a4a) == 0x5768b525 && Half(0x40df0b66) == 0x206f85b3
      && Half(0xa9bcae53) == 0xb966d409 && Half(0x47b2cf7f) == 0xce61e49f
  {
  }

  lemma Halved15()
    ensures
      && Half(0xbdbdf21c) == 0x5edef90e && Half(0x53b39330) == 0x29d9c998
      && Half(0xbad03605) == 0xb0d09822 && Half(0x54de5729) == 0xc7d7a8b4
      && Half(0xb3667a2e) == 0x59b33d17 && Half(0x5d681b02) == 0x2eb40d81
      && Half(0xb40bbe37) == 0xb7bd5c3b && Half(0x5a05df1b) == 0xc0ba6cad
  {
  }

  // Row k of the table is right if entry 128 + i is entry i plus the generator and
  // entry i is entry 2i, one step on.
  ghost predicate RowRight(k: nat)
    requires k < 16
  {
    var a, b, c, d := Row(k), Row(k + 16), Row(2 * k), Row(2 * k + 1);
    && AddPoly(a[0]) == b[0] && AddPoly(a[1]) == b[1] && AddPoly(a[2]) == b[2] && AddPoly(a[3]) == b[3]
    && AddPoly(a[4]) == b[4] && AddPoly(a[5]) == b[5] && AddPoly(a[6]) == b[6] && AddPoly(a[7]) == b[7]
    && Half(c[0]) == a[0] && Half(c[2]) == a[1] && Half(c[4]) == a[2] && Half(c[6]) == a[3]
    && Half(d[0]) == a[4] && Half(d[2]) == a[5] && Half(d[4]) == a[6] && Half(d[6]) == a[7]
  }

  lemma Row0Right()
    ensures RowRight(0)
  {
    hide AddPoly, Half;
    Added0();
    Halved0();
  }

  lemma Row1Right()
    ensures RowRight(1)
  {
    hide AddPoly, Half;
    Added1();
    Halved1();
  }

  lemma Row2Right()
    ensures RowRight(2)
  {
    hide AddPoly, Half;
    Added2();
    Halved2();
  }

  lemma Row3Right()
    ensures RowRight(3)
  {
    hide AddPoly, Half;
    Added3();
    Halved3();
  }

  lemma Row4Right()
    ensures RowRight(4)
  {
    hide AddPoly, Half;
    Added4();
    Halved4();
  }

  lemma Row5Right()
    ensures RowRight(5)
  {
    hide AddPoly, Half;
    Added5();
    Halved5();
  }

  lemma Row6Right()
    ensures RowRight(6)
  {
    hide AddPoly, Half;
    Added6();
    Halved6();
  }

  lemma Row7Right()
    ensures RowRight(7)
  {
    hide AddPoly, Half;
    Added7();
    Halved7();
  }

  lemma Row8Right()
    ensures RowRight(8)
  {
    hide AddPoly, Half;
    Added8();
    Halved8();
  }

  lemma Row9Right()
    ensures RowRight(9)
  {
    hide AddPoly, Half;
    Added9();
    Halved9();
  }

  lemma Row10Right()
    ensures RowRight(10)
  {
    hide AddPoly, Half;
    Added10();
    Halved10();
  }

  lemma Row11Right()
    ensures RowRight(11)
  {
    hide AddPoly, Half;
    Added11();
    Halved11();
  }

  lemma Row12Right()
    ensures RowRight(12)
  {
    hide AddPoly, Half;
    Added12();
    Halved12();
  }

  lemma Row13Right()
    ensures RowRight(13)
  {
    hide AddPoly, Half;
    Added13();
    Halved13();
  }

  lemma Row14Right()
    ensures RowRight(14)
  {
    hide AddPoly, Half;
    Added14();
    Halved14();
  }

  lemma Row15Right()
    ensures RowRight(15)
  {
    hide AddPoly, Half;
    Added15();
    Halved15();
  }

  lemma RowsRight(k: nat)
    requires k < 16
    ensures RowRight(k)
  {
    hide *;
    match k
    case 0 => Row0Right();
    case 1 => Row1Right();
    case 2 => Row2Right();
    case 3 => Row3Right();
    case 4 => Row4Right();
    case 5 => Row5Right();
    case 6 => Row6Right();
    case 7 => Row7Right();
    case 8 => Row8Right();
    case 9 => Row9Right();
    case 10 => Row10Right();
    case 11 => Row11Right();
    case 12 => Row12Right();
    case 13 => Row13Right();
    case 14 => Row14Right();
    case _ => Row15Right();
  }
}
