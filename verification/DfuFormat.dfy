/**
 The DFU file format of src/dfu_file.c: what is written, and what is read back.
 A suffix is the one of Appendix B of the USB DFU 1.1 specification.
 */
module DfuFormat {
  import opened Words
  import Crc32

  const SUFFIX_LENGTH := 16
  const LMDFU_PREFIX_LENGTH := 8
  const LPCDFU_PREFIX_LENGTH := 16

  datatype PrefixType = ZeroPrefix | LmdfuPrefix | LpcdfuUnencryptedPrefix
  datatype SuffixReq = NoSuffix | NeedsSuffix | MaybeSuffix
  datatype PrefixReq = NoPrefix | NeedsPrefix | MaybePrefix

  // struct dfu_file; its size.total is the length of firmware.
  datatype File = File(
    firmware: seq<byte>, prefix: nat, suffix: nat,
    lmdfuAddress: u32, prefixType: PrefixType,
    dwCRC: u32, bcdDFU: u16, idVendor: u16, idProduct: u16, bcdDevice: u16)
  {
    // What a store reads lies inside the loaded bytes.
    ghost predicate Storable() {
      prefix + suffix <= |firmware| < 0x8000_0000
    }

    function Payload(): seq<byte>
      requires Storable()
    {
      firmware[prefix..|firmware| - suffix]
    }
  }

  // The exits through err and errx.
  datatype Failure =
    | FileTooBig | SuffixNeeded | SuffixTooShort | SuffixTooLong | SuffixPresent | PrefixNeeded | PrefixPresent

  datatype Outcome = Loaded(file: File) | Exit(failure: Failure)

  // ----- writing -----

  function PrefixBytes(f: File): (b: seq<byte>)
    requires f.Storable()
  {
    match f.prefixType
    case ZeroPrefix => []
    case LmdfuPrefix =>
      [0x01, 0x00] + Le16(f.lmdfuAddress / 1024 % 0x1_0000) + Le32(|f.firmware| - f.prefix - f.suffix)
    case LpcdfuUnencryptedPrefix =>
      [0x1a, 0x3f] + Le16((|f.firmware| - f.suffix + 511) / 512 % 0x1_0000)
      + [0, 0, 0, 0, 0, 0, 0, 0, 0xff, 0xff, 0xff, 0xff]
  }

  // The suffix up to the CRC field.
  function SuffixHead(f: File): (b: seq<byte>)
    ensures |b| == 12
  {
    Le16(f.bcdDevice) + Le16(f.idProduct) + Le16(f.idVendor) + Le16(f.bcdDFU)
      + ['U' as int, 'F' as int, 'D' as int, SUFFIX_LENGTH]
  }

  function Unsuffixed(f: File, writePrefix: bool): seq<byte>
    requires f.Storable()
  {
    (if writePrefix then PrefixBytes(f) else []) + f.Payload()
  }

  /** The bytes dfu_store_file leaves in the file. */
  function Stored(f: File, writeSuffix: bool, writePrefix: bool): seq<byte>
    requires f.Storable()
  {
    var body := Unsuffixed(f, writePrefix);
    if writeSuffix then WithCrc(body + SuffixHead(f)) else body
  }

  function WithCrc(data: seq<byte>): seq<byte> {
    data + Le32(Crc32.Serial(0xffff_ffff, data))
  }

  // ----- reading -----

  datatype Suffix =
    | Missing(storedCrc: u32)   // storedCrc is dwCRC afterwards
    | Broken(failure: Failure)
    | Found(storedCrc: u32, length: nat, bcdDFU: u16, idVendor: u16, idProduct: u16, bcdDevice: u16)

  // The search for a suffix at the end of the loaded bytes; dwCRC is the field's value before.
  function ParseSuffix(b: seq<byte>, dwCRC: u32): Suffix {
    if |b| < SUFFIX_LENGTH then Missing(dwCRC)
    else
      var s := b[|b| - SUFFIX_LENGTH..];
      var stored := Word32(s[12..]);
      if s[10] != 'D' as int || s[9] != 'F' as int || s[8] != 'U' as int then Missing(dwCRC)
      else if stored != Crc32.Serial(0xffff_ffff, b[..|b| - 4]) then Missing(stored)
      else if s[11] < SUFFIX_LENGTH then Broken(SuffixTooShort)
      else if s[11] > |b| then Broken(SuffixTooLong)
      else Found(stored, s[11], Word16(s[6], s[7]), Word16(s[4], s[5]), Word16(s[2], s[3]), Word16(s[0], s[1]))
  }

  predicate LmSignature(b: seq<byte>) {
    |b| >= LMDFU_PREFIX_LENGTH && b[0] == 0x01 && b[1] == 0x00
  }

  predicate LpcSignature(b: seq<byte>) {
    |b| >= LMDFU_PREFIX_LENGTH && !LmSignature(b) && b[0] % 0x40 == 0x1a && b[1] % 0x40 == 0x3f
  }

  // probe_prefix: the fields it sets.
  function WithPrefix(f: File): File {
    var b := f.firmware;
    if LmSignature(b) then
      f.(prefixType := LmdfuPrefix, prefix := LMDFU_PREFIX_LENGTH, lmdfuAddress := 1024 * Word16(b[2], b[3]) as nat)
    else if LpcSignature(b) then
      f.(prefixType := LpcdfuUnencryptedPrefix, prefix := LPCDFU_PREFIX_LENGTH)
    else f
  }

  // probe_prefix: whether it returns 1.
  predicate ProbeFails(f: File) {
    |f.firmware| < LMDFU_PREFIX_LENGTH || WithPrefix(f).prefix + f.suffix > |f.firmware|
  }

  /** What dfu_load_file makes of the bytes b, from the struct's contents before. */
  function Load(before: File, b: seq<byte>, stdin: bool, suffixReq: SuffixReq, prefixReq: PrefixReq): Outcome {
    if !stdin && |b| >= 0x8000_0000 then Exit(FileTooBig)
    else
      var blank := before.(firmware := b, prefix := 0, suffix := 0, lmdfuAddress := 0,
                           bcdDFU := 0, idVendor := 0xffff, idProduct := 0xffff, bcdDevice := 0xffff);
      var required := if stdin then MaybeSuffix else suffixReq;
      match ParseSuffix(b, before.dwCRC)
      case Missing(crc) =>
        if required.NeedsSuffix? then Exit(SuffixNeeded) else CheckPrefix(blank.(dwCRC := crc), prefixReq)
      case Broken(failure) => Exit(failure)
      case Found(crc, length, bcdDFU, idVendor, idProduct, bcdDevice) =>
        if required.NoSuffix? then Exit(SuffixPresent)
        else CheckPrefix(blank.(dwCRC := crc, suffix := length, bcdDFU := bcdDFU, idVendor := idVendor,
                                idProduct := idProduct, bcdDevice := bcdDevice), prefixReq)
  }

  function CheckPrefix(f: File, prefixReq: PrefixReq): Outcome {
    var g := WithPrefix(f);
    if (ProbeFails(f) || g.prefix == 0) && prefixReq.NeedsPrefix? then Exit(PrefixNeeded)
    else if g.prefix != 0 && prefixReq.NoPrefix? then Exit(PrefixPresent)
    else Loaded(g)
  }

  // ----- round trips -----

  lemma CrcMatchesIffResidue(b: seq<byte>)
    requires |b| >= 4
    ensures Word32(b[|b| - 4..]) == Crc32.Serial(0xffff_ffff, b[..|b| - 4]) <==> Crc32.Serial(0xffff_ffff, b) == 0
  {
    hide Crc32.Serial, Word32, Le32;
    var n := |b| - 4;
    var crc := Crc32.Serial(0xffff_ffff, b[..n]);
    assert b == b[..n] + b[n..];
    Crc32.SerialAppend(0xffff_ffff, b[..n], b[n..]);
    Crc32.ResidueIffStored(crc, b[n..]);
    Word32OfLe32(b[n..], crc);
  }

  ghost predicate SuffixSignature(b: seq<byte>)
    requires |b| >= SUFFIX_LENGTH
  {
    b[|b| - 8] == 'U' as int && b[|b| - 7] == 'F' as int && b[|b| - 6] == 'D' as int
  }

  /** A suffix is missing unless the signature is there and the CRC over the whole file is 0. */
  lemma SuffixIffResidue(b: seq<byte>, dwCRC: u32)
    ensures !ParseSuffix(b, dwCRC).Missing? <==>
      |b| >= SUFFIX_LENGTH && SuffixSignature(b) && Crc32.Serial(0xffff_ffff, b) == 0
  {
    hide Crc32.Serial, Word32;
    if |b| >= SUFFIX_LENGTH {
      CrcMatchesIffResidue(b);
      assert b[|b| - SUFFIX_LENGTH..][12..] == b[|b| - 4..];
    }
  }

  /**
   Changing any four consecutive bytes of a file with a suffix, in the payload, in the
   suffix, in the CRC field or across their borders, makes the loader see no suffix.
   */
  lemma DamagedSuffixIsMissing(b: seq<byte>, damaged: seq<byte>, lo: nat, dwCRC: u32)
    requires !ParseSuffix(b, dwCRC).Missing?
    requires Crc32.SameAround(b, damaged, lo) && damaged != b
    ensures ParseSuffix(damaged, dwCRC).Missing?
  {
    hide ParseSuffix, Crc32.Serial;
    SuffixIffResidue(b, dwCRC);
    SuffixIffResidue(damaged, dwCRC);
    Crc32.WindowChangesCrc(0xffff_ffff, b, damaged, lo);
  }

  // ----- reading back what was written -----

  function HeadOf(f: File, writePrefix: bool): seq<byte>
    requires f.Storable()
  {
    if writePrefix then PrefixBytes(f) else []
  }

  // Where things are in a stored file.
  lemma StoredLayout(f: File, writePrefix: bool)
    requires f.Storable()
    ensures var b, h, p := Stored(f, true, writePrefix), HeadOf(f, writePrefix), f.Payload();
      && |b| == |h| + |p| + SUFFIX_LENGTH
      && b[..|h|] == h && b[|h|..|b| - SUFFIX_LENGTH] == p
      && b[|b| - SUFFIX_LENGTH..|b| - 4] == SuffixHead(f)
      && b == WithCrc(b[..|b| - 4])
  {
    hide PrefixBytes, SuffixHead, Crc32.Serial;
    var h, p := HeadOf(f, writePrefix), f.Payload();
    var data := h + p + SuffixHead(f);
    assert Unsuffixed(f, writePrefix) + SuffixHead(f) == data;
    var b := WithCrc(data);
    assert b[..|b| - 4] == data;
  }

  /** The suffix written is the suffix found. */
  lemma StoredSuffixIsFound(f: File, writePrefix: bool, dwCRC: u32)
    requires f.Storable()
    ensures var b := Stored(f, true, writePrefix);
      ParseSuffix(b, dwCRC)
        == Found(Word32(b[|b| - 4..]), SUFFIX_LENGTH, f.bcdDFU, f.idVendor, f.idProduct, f.bcdDevice)
  {
    hide PrefixBytes, Crc32.Serial, Word32, Le32, Stored;
    var b := Stored(f, true, writePrefix);
    StoredLayout(f, writePrefix);
    var s := b[|b| - SUFFIX_LENGTH..];
    assert s[..12] == SuffixHead(f);
    forall i | 0 <= i < 12 ensures s[i] == SuffixHead(f)[i] { assert s[i] == s[..12][i]; }
    var crc := Crc32.Serial(0xffff_ffff, b[..|b| - 4]);
    assert s[12..] == b[|b| - 4..] == Le32(crc);
    Word32OfLe32(s[12..], crc);
    Word16OfLe16(f.bcdDFU);
    Word16OfLe16(f.idVendor);
    Word16OfLe16(f.idProduct);
    Word16OfLe16(f.bcdDevice);
  }

  predicate HasSignature(b: seq<byte>) {
    LmSignature(b) || LpcSignature(b)
  }

  predicate WritesPrefix(f: File, writePrefix: bool) {
    writePrefix && !f.prefixType.ZeroPrefix?
  }

  // What loading a stored file must give back.
  ghost predicate Recovers(g: File, f: File, b: seq<byte>)
    requires f.Storable()
  {
    && g.firmware == b && g.suffix == SUFFIX_LENGTH && g.Storable() && g.Payload() == f.Payload()
    && g.bcdDFU == f.bcdDFU && g.idVendor == f.idVendor && g.idProduct == f.idProduct && g.bcdDevice == f.bcdDevice
  }

  // The struct as probe_prefix finds it when a stored file has been read.
  function Probed(before: File, f: File, b: seq<byte>): File
    requires |b| >= 4
  {
    before.(firmware := b, prefix := 0, suffix := SUFFIX_LENGTH, lmdfuAddress := 0, dwCRC := Word32(b[|b| - 4..]),
            bcdDFU := f.bcdDFU, idVendor := f.idVendor, idProduct := f.idProduct, bcdDevice := f.bcdDevice)
  }

  // A load that was asked to find no suffix exits at one; what comes from stdin is not asked.
  predicate Refuses(stdin: bool, suffixReq: SuffixReq) {
    !stdin && suffixReq.NoSuffix?
  }

  lemma LoadStored(f: File, writePrefix: bool, before: File, stdin: bool, suffixReq: SuffixReq, prefixReq: PrefixReq)
    requires f.Storable() && |Stored(f, true, writePrefix)| < 0x8000_0000
    ensures var b := Stored(f, true, writePrefix);
      |b| >= 4 && Load(before, b, stdin, suffixReq, prefixReq)
        == if Refuses(stdin, suffixReq) then Exit(SuffixPresent) else CheckPrefix(Probed(before, f, b), prefixReq)
  {
    hide Stored, ParseSuffix, CheckPrefix, Word32;
    StoredLayout(f, writePrefix);
    StoredSuffixIsFound(f, writePrefix, before.dwCRC);
  }

  /**
   Round trip with a prefix: payload, identifiers, prefix type and length come back,
   and a Stellaris address to the KiB, modulo 64 MiB; and who asked for no suffix or no
   prefix is refused, in that order.
   */
  lemma RoundTripWithPrefix(f: File, before: File, stdin: bool, suffixReq: SuffixReq, prefixReq: PrefixReq)
    returns (g: File)
    requires f.Storable() && !f.prefixType.ZeroPrefix? && |Stored(f, true, true)| < 0x8000_0000
    ensures Load(before, Stored(f, true, true), stdin, suffixReq, prefixReq)
      == if Refuses(stdin, suffixReq) then Exit(SuffixPresent)
         else if prefixReq.NoPrefix? then Exit(PrefixPresent) else Loaded(g)
    ensures Recovers(g, f, Stored(f, true, true))
    ensures g.prefixType == f.prefixType && g.prefix == |PrefixBytes(f)|
    ensures g.lmdfuAddress == if f.prefixType.LmdfuPrefix? then f.lmdfuAddress / 1024 % 0x1_0000 * 1024 else 0
  {
    hide Stored, Load, Word32, SuffixHead, WithCrc, Le32, PrefixBytes, WithPrefix;
    LoadStored(f, true, before, stdin, suffixReq, prefixReq);
    StoredLayout(f, true);
    var b := Stored(f, true, true);
    var h := PrefixBytes(f);
    var x := Probed(before, f, b);
    PrefixSize(f);
    forall i | 0 <= i < 4 ensures b[i] == h[i] { assert b[..|h|][i] == h[i]; }
    PrefixFound(f, x);
    g := WithPrefix(x);
    assert g.Payload() == b[|h|..|b| - SUFFIX_LENGTH];
  }

  lemma PrefixSize(f: File)
    requires f.Storable() && !f.prefixType.ZeroPrefix?
    ensures |PrefixBytes(f)| == if f.prefixType.LmdfuPrefix? then LMDFU_PREFIX_LENGTH else LPCDFU_PREFIX_LENGTH
  {
  }

  // A prefix is recognised by its first two bytes; the next two hold a Stellaris address in KiB.
  lemma PrefixFound(f: File, x: File)
    requires f.Storable() && !f.prefixType.ZeroPrefix? && |x.firmware| >= 8 && |PrefixBytes(f)| >= 4
    requires forall i :: 0 <= i < 4 ==> x.firmware[i] == PrefixBytes(f)[i]
    ensures WithPrefix(x) ==
      if f.prefixType.LmdfuPrefix? then
        x.(prefixType := LmdfuPrefix, prefix := LMDFU_PREFIX_LENGTH,
           lmdfuAddress := f.lmdfuAddress / 1024 % 0x1_0000 * 1024)
      else x.(prefixType := LpcdfuUnencryptedPrefix, prefix := LPCDFU_PREFIX_LENGTH)
  {
    hide Le32;
    var h := PrefixBytes(f);
    assert x.firmware[0] == h[0] && x.firmware[1] == h[1] && x.firmware[2] == h[2] && x.firmware[3] == h[3];
    if f.prefixType.LmdfuPrefix? {
      var a := f.lmdfuAddress / 1024 % 0x1_0000;
      assert h[2] == Le16(a)[0] && h[3] == Le16(a)[1];
      Word16OfLe16(a);
    }
  }

  /**
   Round trip without a prefix: everything comes back if and only if the stored bytes
   do not happen to begin with a prefix signature. Who needs a prefix is refused unless
   they do and the prefix claims no more than there is before the suffix; who wants none
   is refused if they do.
   */
  lemma RoundTripWithoutPrefix(
      f: File, writePrefix: bool, before: File, stdin: bool, suffixReq: SuffixReq, prefixReq: PrefixReq)
    returns (g: File)
    requires f.Storable() && !WritesPrefix(f, writePrefix) && |Stored(f, true, writePrefix)| < 0x8000_0000
    ensures var b := Stored(f, true, writePrefix);
      Load(before, b, stdin, suffixReq, prefixReq)
      == if Refuses(stdin, suffixReq) then Exit(SuffixPresent)
         else if prefixReq.NeedsPrefix? && !(HasSignature(b) && g.prefix <= |f.Payload()|) then Exit(PrefixNeeded)
         else if prefixReq.NoPrefix? && HasSignature(b) then Exit(PrefixPresent)
         else Loaded(g)
    ensures Recovers(g, f, Stored(f, true, writePrefix)) <==> !HasSignature(Stored(f, true, writePrefix))
    ensures g.prefix == 0 <==> !HasSignature(Stored(f, true, writePrefix))
    ensures g.prefix == 0 ==> g.prefixType == before.prefixType && g.lmdfuAddress == 0
  {
    hide Stored, Load, Word32, SuffixHead, WithCrc, Le32;
    LoadStored(f, writePrefix, before, stdin, suffixReq, prefixReq);
    StoredLayout(f, writePrefix);
    var b := Stored(f, true, writePrefix);
    g := WithPrefix(Probed(before, f, b));
    assert HeadOf(f, writePrefix) == [];
    if HasSignature(b) && g.Storable() {
      assert |g.Payload()| != |f.Payload()|;
    }
  }

  // ----- storing again what was stored -----

  // The length field of an LPC prefix.
  function LpcLength(f: File): u16
    requires f.Storable()
  {
    (|f.firmware| - f.suffix + 511) / 512 % 0x1_0000
  }

  lemma StoredAgain(f: File, writePrefix: bool, g: File)
    requires f.Storable() && Recovers(g, f, Stored(f, true, writePrefix))
    ensures Stored(g, true, writePrefix) == Stored(f, true, writePrefix)
      <==> HeadOf(g, writePrefix) == HeadOf(f, writePrefix)
  {
    hide Stored, PrefixBytes, WithCrc, SuffixHead;
    StoredLayout(f, writePrefix);
    StoredLayout(g, writePrefix);
    StoredIs(f, writePrefix);
    StoredIs(g, writePrefix);
    assert SuffixHead(f) == SuffixHead(g) by { SameIdentifiers(f, g); }
    var b, c := Stored(f, true, writePrefix), Stored(g, true, writePrefix);
    if b == c {
      assert |HeadOf(f, writePrefix)| == |HeadOf(g, writePrefix)|;
    }
  }

  lemma StoredIs(f: File, writePrefix: bool)
    requires f.Storable()
    ensures Stored(f, true, writePrefix) == WithCrc(HeadOf(f, writePrefix) + f.Payload() + SuffixHead(f))
  {
    hide PrefixBytes, WithCrc, SuffixHead;
  }

  lemma SameIdentifiers(f: File, g: File)
    requires g.bcdDFU == f.bcdDFU && g.idVendor == f.idVendor && g.idProduct == f.idProduct
      && g.bcdDevice == f.bcdDevice
    ensures SuffixHead(f) == SuffixHead(g)
  {
  }

  /** A stored Stellaris file is a fixed point of load and store. */
  lemma LmStoreIsFixedPoint(f: File, g: File, before: File, stdin: bool, suffixReq: SuffixReq)
    requires f.Storable() && f.prefixType.LmdfuPrefix? && (stdin || !suffixReq.NoSuffix?)
    requires |Stored(f, true, true)| < 0x8000_0000
    requires Load(before, Stored(f, true, true), stdin, suffixReq, MaybePrefix) == Loaded(g)
    ensures g.Storable() && Stored(g, true, true) == Stored(f, true, true)
  {
    hide Stored, Load, Le32;
    var g' := RoundTripWithPrefix(f, before, stdin, suffixReq, MaybePrefix);
    var a := f.lmdfuAddress / 1024 % 0x1_0000;
    assert a * 1024 / 1024 == a;
    assert |g.Payload()| == |f.Payload()|;
    StoredAgain(f, true, g);
  }

  /**
   A stored LPC file is one exactly if its length field already counted the prefix
   as the second store will.
   */
  lemma LpcStoreIsFixedPointIff(f: File, g: File, before: File, stdin: bool, suffixReq: SuffixReq)
    requires f.Storable() && f.prefixType.LpcdfuUnencryptedPrefix? && (stdin || !suffixReq.NoSuffix?)
    requires |Stored(f, true, true)| < 0x8000_0000
    requires Load(before, Stored(f, true, true), stdin, suffixReq, MaybePrefix) == Loaded(g)
    ensures g.Storable()
    ensures Stored(g, true, true) == Stored(f, true, true)
      <==> (|f.Payload()| + LPCDFU_PREFIX_LENGTH + 511) / 512 % 0x1_0000 == LpcLength(f)
  {
    hide Stored, Load, Le32;
    var g' := RoundTripWithPrefix(f, before, stdin, suffixReq, MaybePrefix);
    StoredAgain(f, true, g);
    StoredLayout(f, true);
    assert |PrefixBytes(f)| == LPCDFU_PREFIX_LENGTH;
    assert LpcLength(g) == (|f.Payload()| + LPCDFU_PREFIX_LENGTH + 511) / 512 % 0x1_0000;
    var h, k := PrefixBytes(f), PrefixBytes(g);
    if h == k {
      assert h[2] == k[2] && h[3] == k[3];
      Word16OfLe16(LpcLength(f));
      Word16OfLe16(LpcLength(g));
    }
  }

  /**
   In particular for an LPC file first stored from one without prefix: unless the length of
   its payload is a multiple of 512 or at most 15 below one.
   */
  lemma LpcFirstStoreIff(f: File, g: File, before: File, stdin: bool, suffixReq: SuffixReq)
    requires f.Storable() && f.prefixType.LpcdfuUnencryptedPrefix? && (stdin || !suffixReq.NoSuffix?)
    requires |Stored(f, true, true)| < 0x8000_0000
    requires Load(before, Stored(f, true, true), stdin, suffixReq, MaybePrefix) == Loaded(g)
    requires f.prefix == 0
    ensures g.Storable()
    ensures Stored(g, true, true) == Stored(f, true, true) <==> 1 <= |f.Payload()| % 512 <= 496
  {
    hide Stored, Load;
    LpcStoreIsFixedPointIff(f, g, before, stdin, suffixReq);
    LpcLengthsAgreeIff(|f.Payload()|);
  }

  lemma LpcLengthsAgreeIff(payload: nat)
    ensures (payload + LPCDFU_PREFIX_LENGTH + 511) / 512 % 0x1_0000 == (payload + 511) / 512 % 0x1_0000
      <==> 1 <= payload % 512 <= 496
  {
    var q, r := payload / 512, payload % 512;
    assert payload == 512 * q + r;
    assert (payload + 511) / 512 == q + (if r == 0 then 0 else 1);
    assert (payload + 527) / 512 == q + (if r <= 496 then 1 else 2);
  }

  /** And from the second store on it always holds. */
  lemma LpcSecondStoreIsFixedPoint(f: File, g: File, k: File, before: File, again: File, stdin: bool,
      suffixReq: SuffixReq)
    requires f.Storable() && f.prefixType.LpcdfuUnencryptedPrefix? && (stdin || !suffixReq.NoSuffix?)
    requires |Stored(f, true, true)| < 0x8000_0000
    requires Load(before, Stored(f, true, true), stdin, suffixReq, MaybePrefix) == Loaded(g)
    requires g.Storable() && |Stored(g, true, true)| < 0x8000_0000
    requires Load(again, Stored(g, true, true), stdin, suffixReq, MaybePrefix) == Loaded(k)
    ensures k.Storable() && Stored(k, true, true) == Stored(g, true, true)
  {
    hide Stored, Load, LpcLength;
    var g' := RoundTripWithPrefix(f, before, stdin, suffixReq, MaybePrefix);
    LpcStoreIsFixedPointIff(g, k, again, stdin, suffixReq);
    LoadedLpcLength(f, g);
  }

  lemma LoadedLpcLength(f: File, g: File)
    requires f.Storable() && Recovers(g, f, g.firmware) && g.prefix == LPCDFU_PREFIX_LENGTH
    ensures LpcLength(g) == (|g.Payload()| + LPCDFU_PREFIX_LENGTH + 511) / 512 % 0x1_0000
  {
  }

  /** Without a prefix it is one exactly if the stored bytes begin with no signature. */
  lemma PlainStoreIsFixedPointIff(f: File, g: File, before: File, stdin: bool, suffixReq: SuffixReq)
    requires f.Storable() && (stdin || !suffixReq.NoSuffix?)
    requires |Stored(f, true, false)| < 0x8000_0000
    requires Load(before, Stored(f, true, false), stdin, suffixReq, MaybePrefix) == Loaded(g)
    ensures g.Storable() && Stored(g, true, false) == Stored(f, true, false) <==> !HasSignature(Stored(f, true, false))
  {
    hide Stored, Load;
    var g' := RoundTripWithoutPrefix(f, false, before, stdin, suffixReq, MaybePrefix);
    StoredLayout(f, false);
    if !HasSignature(Stored(f, true, false)) {
      StoredAgain(f, false, g);
    } else if g.Storable() {
      StoredLayout(g, false);
      assert g.firmware == Stored(f, true, false) && g.suffix == SUFFIX_LENGTH
        by { LoadedSizes(f, g, before, stdin, suffixReq); }
      assert |g.Payload()| < |f.Payload()|;
    }
  }

  lemma LoadedSizes(f: File, g: File, before: File, stdin: bool, suffixReq: SuffixReq)
    requires f.Storable() && (stdin || !suffixReq.NoSuffix?)
    requires |Stored(f, true, false)| < 0x8000_0000
    requires Load(before, Stored(f, true, false), stdin, suffixReq, MaybePrefix) == Loaded(g)
    ensures g.firmware == Stored(f, true, false) && g.suffix == SUFFIX_LENGTH
  {
    hide Stored, Load;
    LoadStored(f, false, before, stdin, suffixReq, MaybePrefix);
  }

  // ----- every load, from the bytes of the file -----

  // How many bytes of prefix the first bytes of a file claim.
  function ClaimedPrefix(b: seq<byte>): nat {
    if |b| < 8 then 0
    else if b[0] == 1 && b[1] == 0 then 8
    else if b[0] % 64 == 26 && b[1] % 64 == 63 then 16
    else 0
  }

  // What the end of a load makes of a file's first bytes when its suffix takes so many of the last.
  ghost predicate LoadsTo(r: Outcome, b: seq<byte>, suffix: nat, prefixReq: PrefixReq, before: File) {
    var claimed := ClaimedPrefix(b);
    if prefixReq.NeedsPrefix? && (claimed == 0 || claimed + suffix > |b|) then r == Exit(PrefixNeeded)
    else if prefixReq.NoPrefix? && claimed > 0 then r == Exit(PrefixPresent)
    else
      && r.Loaded? && r.file.firmware == b && r.file.suffix == suffix && r.file.prefix == claimed
      && (claimed == 8 ==>
          r.file.prefixType == LmdfuPrefix && r.file.lmdfuAddress == 1024 * (b[2] as nat + 256 * b[3] as nat))
      && (claimed == 16 ==> r.file.prefixType == LpcdfuUnencryptedPrefix)
      && (claimed == 0 ==> r.file.prefixType == before.prefixType)
      && (claimed != 8 ==> r.file.lmdfuAddress == 0)
  }

  lemma CheckPrefixLoads(f: File, prefixReq: PrefixReq)
    requires f.prefix == 0 && f.lmdfuAddress == 0
    ensures LoadsTo(CheckPrefix(f, prefixReq), f.firmware, f.suffix, prefixReq, f)
    ensures var r := CheckPrefix(f, prefixReq);
      r.Loaded? ==>
        && r.file.bcdDFU == f.bcdDFU && r.file.idVendor == f.idVendor && r.file.idProduct == f.idProduct
        && r.file.bcdDevice == f.bcdDevice && r.file.dwCRC == f.dwCRC
  {
  }

  ghost predicate HasSuffix(b: seq<byte>) {
    |b| >= SUFFIX_LENGTH && SuffixSignature(b) && Crc32.Serial(0xffff_ffff, b) == 0
  }

  /**
   A file that is too short, lacks the signature or does not have the checksum 0: refused if
   a suffix is needed and it does not come from stdin, and else loaded whole, with the
   wildcards as identifiers, whatever was in the struct.
   */
  lemma LoadWithoutSuffix(before: File, b: seq<byte>, stdin: bool, suffixReq: SuffixReq, prefixReq: PrefixReq)
    requires !HasSuffix(b)
    ensures var r := Load(before, b, stdin, suffixReq, prefixReq);
      if !stdin && |b| >= 0x8000_0000 then r == Exit(FileTooBig)
      else if !stdin && suffixReq.NeedsSuffix? then r == Exit(SuffixNeeded)
      else
        && LoadsTo(r, b, 0, prefixReq, before)
        && (r.Loaded? ==>
            && r.file.bcdDFU == 0 && r.file.idVendor == r.file.idProduct == r.file.bcdDevice == 0xffff
            && r.file.dwCRC
               == if |b| >= SUFFIX_LENGTH && SuffixSignature(b) then Word32(b[|b| - 4..]) else before.dwCRC)
  {
    hide Crc32.Serial, Word32, CheckPrefix, LoadsTo;
    SuffixIffResidue(b, before.dwCRC);
    assert |b| >= SUFFIX_LENGTH ==> b[|b| - SUFFIX_LENGTH..][12..] == b[|b| - 4..];
    var blank := before.(firmware := b, prefix := 0, suffix := 0, lmdfuAddress := 0,
                         bcdDFU := 0, idVendor := 0xffff, idProduct := 0xffff, bcdDevice := 0xffff);
    var found := ParseSuffix(b, before.dwCRC);
    CheckPrefixLoads(blank.(dwCRC := found.storedCrc), prefixReq);
    TypeBefore(CheckPrefix(blank.(dwCRC := found.storedCrc), prefixReq), b, 0, prefixReq, blank, before);
  }

  // Of the struct before, only the prefix type shows.
  lemma TypeBefore(r: Outcome, b: seq<byte>, suffix: nat, prefixReq: PrefixReq, x: File, y: File)
    requires x.prefixType == y.prefixType
    ensures forall crc: u32 ::
      LoadsTo(r, b, suffix, prefixReq, x.(dwCRC := crc)) == LoadsTo(r, b, suffix, prefixReq, y)
  {
  }

  /**
   A file with a suffix: its length byte must lie between 16 and the file's length, or the
   load exits; and then the suffix's fields are its last bytes, low bytes first.
   */
  lemma LoadWithSuffix(before: File, b: seq<byte>, stdin: bool, suffixReq: SuffixReq, prefixReq: PrefixReq)
    requires HasSuffix(b) && (stdin || |b| < 0x8000_0000)
    ensures var r, n := Load(before, b, stdin, suffixReq, prefixReq), |b|;
      if b[n - 5] < 16 then r == Exit(SuffixTooShort)
      else if b[n - 5] > n then r == Exit(SuffixTooLong)
      else if !stdin && suffixReq.NoSuffix? then r == Exit(SuffixPresent)
      else
        && LoadsTo(r, b, b[n - 5], prefixReq, before)
        && (r.Loaded? ==>
            && r.file.bcdDevice as int == b[n - 16] as int + 256 * b[n - 15] as int
            && r.file.idProduct as int == b[n - 14] as int + 256 * b[n - 13] as int
            && r.file.idVendor as int == b[n - 12] as int + 256 * b[n - 11] as int
            && r.file.bcdDFU as int == b[n - 10] as int + 256 * b[n - 9] as int
            && r.file.dwCRC == Word32(b[n - 4..]))
  {
    hide Crc32.Serial, Word32, CheckPrefix, LoadsTo;
    SuffixIffResidue(b, before.dwCRC);
    var s := b[|b| - SUFFIX_LENGTH..];
    assert s[12..] == b[|b| - 4..];
    var found := ParseSuffix(b, before.dwCRC);
    if found.Found? {
      var x := before.(firmware := b, prefix := 0, suffix := found.length, lmdfuAddress := 0, bcdDFU := found.bcdDFU,
                       idVendor := found.idVendor, idProduct := found.idProduct, bcdDevice := found.bcdDevice);
      CheckPrefixLoads(x.(dwCRC := found.storedCrc), prefixReq);
      TypeBefore(CheckPrefix(x.(dwCRC := found.storedCrc), prefixReq), b, found.length, prefixReq, x, before);
    }
  }

  // ----- the bytes of a stored file -----

  // A prefix's bytes, for a payload of so many bytes and so many 512-byte blocks before the suffix.
  ghost predicate PrefixIs(h: seq<byte>, f: File, payload: nat, blocks: nat) {
    match f.prefixType
    case ZeroPrefix => h == []
    case LmdfuPrefix =>
      && |h| == 8 && h[0] == 1 && h[1] == 0 && Word16(h[2], h[3]) as int == f.lmdfuAddress / 1024 % 0x1_0000
      && Word32(h[4..]) == payload
    case LpcdfuUnencryptedPrefix =>
      && |h| == 16 && h[0] == 26 && h[1] == 63 && Word16(h[2], h[3]) as int == blocks % 0x1_0000
      && (forall i :: 4 <= i < 12 ==> h[i] == 0) && (forall i :: 12 <= i < 16 ==> h[i] == 0xff)
  }

  /**
   A stored file is its prefix, its payload and its suffix, each as asked for. An LM prefix
   gives the payload's length, an LPC prefix the length in blocks of 512 bytes, rounded up,
   of everything before the suffix as loaded; and the whole has the checksum 0.
   */
  lemma StoredBytes(f: File, writeSuffix: bool, writePrefix: bool) returns (h: seq<byte>, s: seq<byte>, blocks: nat)
    requires f.Storable()
    ensures Stored(f, writeSuffix, writePrefix) == h + f.Payload() + s
    ensures if writePrefix then PrefixIs(h, f, |f.Payload()|, blocks) else h == []
    ensures 512 * (blocks - 1) < |f.firmware| - f.suffix <= 512 * blocks
    ensures if !writeSuffix then s == []
      else
        && |s| == 16 && Word16(s[0], s[1]) == f.bcdDevice && Word16(s[2], s[3]) == f.idProduct
        && Word16(s[4], s[5]) == f.idVendor && Word16(s[6], s[7]) == f.bcdDFU
        && s[8] == 'U' as int && s[9] == 'F' as int && s[10] == 'D' as int && s[11] == 16
        && Crc32.Serial(0xffff_ffff, h + f.Payload() + s) == 0
  {
    hide Crc32.Serial, Le32, Word32, PrefixBytes, PrefixIs;
    h := HeadOf(f, writePrefix);
    s := [];
    blocks := (|f.firmware| - f.suffix + 511) / 512;
    if writePrefix {
      PrefixBytesAre(f);
    }
    var data := h + f.Payload();
    if writeSuffix {
      var stored := WithCrc(data + SuffixHead(f));
      s := SuffixHead(f) + Le32(Crc32.Serial(0xffff_ffff, data + SuffixHead(f)));
      assert stored == data + s;
      Word16OfLe16(f.bcdDevice);
      Word16OfLe16(f.idProduct);
      Word16OfLe16(f.idVendor);
      Word16OfLe16(f.bcdDFU);
      WithCrcIsZero(data + SuffixHead(f));
    } else {
      assert data + [] == data;
    }
  }

  lemma WithCrcIsZero(data: seq<byte>)
    ensures Crc32.Serial(0xffff_ffff, WithCrc(data)) == 0
  {
    hide Crc32.Serial, Le32;
    var b := WithCrc(data);
    assert b[..|b| - 4] == data && b[|b| - 4..] == Le32(Crc32.Serial(0xffff_ffff, data));
    Word32OfLe32(b[|b| - 4..], Crc32.Serial(0xffff_ffff, data));
    CrcMatchesIffResidue(b);
  }

  lemma PrefixBytesAre(f: File)
    requires f.Storable()
    ensures PrefixIs(PrefixBytes(f), f, |f.Payload()|, (|f.firmware| - f.suffix + 511) / 512)
  {
    hide Le32, Word32;
    var h := PrefixBytes(f);
    match f.prefixType {
      case ZeroPrefix =>
      case LmdfuPrefix =>
        Word16OfLe16(f.lmdfuAddress / 1024 % 0x1_0000);
        assert h[4..] == Le32(|f.Payload()|);
        Word32OfLe32(h[4..], |f.Payload()|);
      case LpcdfuUnencryptedPrefix =>
        Word16OfLe16((|f.firmware| - f.suffix + 511) / 512 % 0x1_0000);
    }
  }

  // ----- what a load leaves behind -----

  /**
   A loaded file can be stored again, except when a prefix signature claims more bytes
   than the file has left: probe_prefix then reports failure but has set the size.
   */
  lemma LoadedIsStorableIff(before: File, b: seq<byte>, stdin: bool, suffixReq: SuffixReq, prefixReq: PrefixReq,
      g: File)
    requires |b| < 0x8000_0000
    requires Load(before, b, stdin, suffixReq, prefixReq) == Loaded(g)
    ensures g.firmware == b && g.suffix <= |b| && (g.suffix == 0 || g.suffix >= SUFFIX_LENGTH)
    ensures g.Storable() <==>
      && !(LmSignature(b) && |b| < LMDFU_PREFIX_LENGTH + g.suffix)
      && !(LpcSignature(b) && |b| < LPCDFU_PREFIX_LENGTH + g.suffix)
  {
    hide Crc32.Serial, Word32;
  }

  // Eight bytes that do: an LPC signature promises sixteen.
  lemma PrefixLeftSet(before: File)
    ensures var b := [0x1a, 0x3f, 0, 0, 0, 0, 0, 0];
      exists g :: Load(before, b, false, MaybeSuffix, MaybePrefix) == Loaded(g) && g.prefix == 16 && !g.Storable()
  {
    hide Crc32.Serial, Word32;
    var b := [0x1a, 0x3f, 0, 0, 0, 0, 0, 0];
    var r := Load(before, b, false, MaybeSuffix, MaybePrefix);
    assert ParseSuffix(b, before.dwCRC) == Missing(before.dwCRC);
    assert r == Loaded(r.file) && r.file.prefix == 16;
  }
}
