/** The file operations of src/dfu_file.c on struct dfu_file, proved against DfuFormat. */
module DfuFiles {
  import opened Words
  import opened DfuFormat
  import Crc32

  // An open file being written: what has been written to it.
  class Output {
    var contents: seq<byte>

    constructor ()
      ensures contents == []
    {
      contents := [];
    }

    method Write(buf: seq<byte>)
      modifies this
      ensures contents == old(contents) + buf
    {
      contents := contents + buf;
    }
  }

  /** dfu_file_write_crc: appends the buffer and returns the checksum run on over it. */
  method WriteCrc(f: Output, crc: u32, buf: seq<byte>) returns (result: u32)
    modifies f
    ensures f.contents == old(f.contents) + buf
    ensures result == Crc32.Serial(crc, buf)
  {
    hide Crc32.Crc32Byte, Crc32.SerialByte;
    result := crc;
    var x := 0;
    while x != |buf|
      invariant 0 <= x <= |buf|
      invariant Crc32.Serial(result, buf[x..]) == Crc32.Serial(crc, buf)
      invariant f.contents == old(f.contents)
    {
      Crc32.Crc32ByteIsSerial(result, buf[x]);
      assert buf[x..][1..] == buf[x + 1..];
      result := Crc32.Crc32Byte(result, buf[x]);
      x := x + 1;
    }
    f.Write(buf);
  }

  class DfuFile {
    var firmware: seq<byte>
    var prefix: nat
    var suffix: nat
    var lmdfuAddress: u32
    var prefixType: PrefixType
    var dwCRC: u32
    var bcdDFU: u16
    var idVendor: u16
    var idProduct: u16
    var bcdDevice: u16

    // The struct's contents.
    function View(): File
      reads this
    {
      File(firmware, prefix, suffix, lmdfuAddress, prefixType, dwCRC, bcdDFU, idVendor, idProduct, bcdDevice)
    }

    method Store(f: Output, writeSuffix: bool, writePrefix: bool)
      requires View().Storable() && f.contents == []
      modifies f
      ensures f.contents == Stored(View(), writeSuffix, writePrefix)
    {
      hide Crc32.Serial, Le32, PrefixBytes, SuffixHead;
      ghost var v := View();
      ghost var head := HeadOf(v, writePrefix);
      ghost var body := head + v.Payload();
      var crc: u32 := 0xffff_ffff;
      EmptySerial(crc);
      if writePrefix {
        crc := WritePrefix(f, crc);
      }
      assert f.contents == head && crc == Crc32.Serial(0xffff_ffff, head);
      crc := WriteCrc(f, crc, firmware[prefix..|firmware| - suffix]);
      Crc32.SerialAppend(0xffff_ffff, head, v.Payload());
      assert f.contents == body && View() == v;
      if writeSuffix {
        WriteSuffix(f, crc);
        Crc32.SerialAppend(0xffff_ffff, body, SuffixHead(v));
        assert f.contents == WithCrc(body + SuffixHead(v));
      }
    }

    method WritePrefix(f: Output, crc: u32) returns (result: u32)
      requires View().Storable()
      modifies f
      ensures f.contents == old(f.contents) + PrefixBytes(View())
      ensures result == Crc32.Serial(crc, PrefixBytes(View()))
    {
      hide Crc32.Serial;
      hide PrefixBytes;
      result := crc;
      var total := |firmware|;
      if prefixType.ZeroPrefix? {
        EmptySerial(crc);
        ZeroPrefixBytes(View());
        assert f.contents == f.contents + [];
      }
      if prefixType.LmdfuPrefix? {
        var addr := lmdfuAddress / 1024;
        var len := total - prefix - suffix;
        var p := new byte[LMDFU_PREFIX_LENGTH];
        p[0], p[1] := 0x01, 0x00;
        p[2], p[3] := addr % 0x100, addr / 0x100 % 0x100;
        p[4], p[5], p[6], p[7] := len % 0x100, len / 0x100 % 0x100, len / 0x1_0000 % 0x100, len / 0x100_0000;
        LmPrefix(View(), p[..]);
        result := WriteCrc(f, result, p[..]);
      }
      if prefixType.LpcdfuUnencryptedPrefix? {
        var len := (total - suffix + 511) / 512;
        var p := new byte[LPCDFU_PREFIX_LENGTH](_ => 0);
        p[0], p[1] := 0x1a, 0x3f;
        p[2], p[3] := len % 0x100, len / 0x100 % 0x100;
        for i := 12 to LPCDFU_PREFIX_LENGTH
          invariant f.contents == old(f.contents)
          invariant p[0] == 0x1a && p[1] == 0x3f && p[2] == len % 0x100 && p[3] == len / 0x100 % 0x100
          invariant forall k :: 4 <= k < 16 ==> p[k] == if 12 <= k < i then 0xff else 0
        {
          p[i] := 0xff;
        }
        LpcPrefix(View(), p[..]);
        result := WriteCrc(f, result, p[..]);
      }
    }

    method WriteSuffix(f: Output, crc: u32)
      modifies f
      ensures f.contents
        == old(f.contents) + SuffixHead(View()) + Le32(Crc32.Serial(crc, SuffixHead(View())))
    {
      hide Crc32.Serial;
      var s := new byte[SUFFIX_LENGTH];
      s[0], s[1] := bcdDevice % 0x100, bcdDevice / 0x100;
      s[2], s[3] := idProduct % 0x100, idProduct / 0x100;
      s[4], s[5] := idVendor % 0x100, idVendor / 0x100;
      s[6], s[7] := bcdDFU % 0x100, bcdDFU / 0x100;
      s[8], s[9], s[10], s[11] := 'U' as int, 'F' as int, 'D' as int, SUFFIX_LENGTH;
      assert s[..12] == SuffixHead(View());
      var crc' := WriteCrc(f, crc, s[..12]);
      s[12], s[13], s[14], s[15] := crc' % 0x100, crc' / 0x100 % 0x100, crc' / 0x1_0000 % 0x100, crc' / 0x100_0000;
      StoredCrc(crc', s[12..]);
      var _ := WriteCrc(f, crc', s[12..]);
    }

    method Load(b: seq<byte>, stdin: bool, suffixReq: SuffixReq, prefixReq: PrefixReq) returns (exit: seq<Failure>)
      requires stdin ==> |b| < 0x8000_0000
      modifies this
      ensures DfuFormat.Load(old(View()), b, stdin, suffixReq, prefixReq)
        == if exit == [] then Loaded(View()) else Exit(exit[0])
    {
      hide ParseSuffix, CheckPrefix;
      prefix, suffix := 0, 0;
      bcdDFU := 0;
      idVendor, idProduct, bcdDevice := 0xffff, 0xffff, 0xffff;
      lmdfuAddress := 0;
      if !stdin && |b| >= 0x8000_0000 {
        return [FileTooBig];
      }
      var checkSuffix := if stdin then MaybeSuffix else suffixReq;
      firmware := b;
      var missing;
      missing, exit := ReadSuffix();
      if exit != [] {
        return;
      }
      if missing {
        if checkSuffix.NeedsSuffix? {
          return [SuffixNeeded];
        }
      } else if checkSuffix.NoSuffix? {
        return [SuffixPresent];
      }
      exit := ReadPrefix(prefixReq);
    }

    // The loader's last step.
    method ReadPrefix(prefixReq: PrefixReq) returns (exit: seq<Failure>)
      requires prefix == 0
      modifies this
      ensures CheckPrefix(old(View()), prefixReq) == if exit == [] then Loaded(View()) else Exit(exit[0])
    {
      hide WithPrefix, ProbeFails;
      var res := ProbePrefix();
      if (res || prefix == 0) && prefixReq.NeedsPrefix? {
        return [PrefixNeeded];
      }
      if prefix != 0 && prefixReq.NoPrefix? {
        return [PrefixPresent];
      }
      return [];
    }

    // The block of the loader that parses the suffix.
    method ReadSuffix() returns (missing: bool, exit: seq<Failure>)
      modifies this
      ensures match ParseSuffix(old(firmware), old(dwCRC))
        case Missing(crc) => exit == [] && missing && View() == old(View()).(dwCRC := crc)
        case Broken(failure) => exit == [failure]
        case Found(crc, length, dfu, vendor, product, device) =>
          && exit == [] && !missing
          && View() == old(View()).(dwCRC := crc, suffix := length, bcdDFU := dfu, idVendor := vendor,
                                    idProduct := product, bcdDevice := device)
    {
      hide Crc32.Serial, Word16, Word32;
      exit := [];
      var b, total := firmware, |firmware|;
      if total < SUFFIX_LENGTH {
        return true, [];
      }
      var s := b[total - SUFFIX_LENGTH..];
      var crc := CrcOf(b[..total - 4]);
      if s[10] != 'D' as int || s[9] != 'F' as int || s[8] != 'U' as int {
        return true, [];
      }
      dwCRC := Word32(s[12..]);
      if dwCRC != crc {
        return true, [];
      }
      bcdDFU := Word16(s[6], s[7]);
      suffix := s[11];
      if suffix < SUFFIX_LENGTH {
        return false, [SuffixTooShort];
      }
      if suffix > total {
        return false, [SuffixTooLong];
      }
      idVendor := Word16(s[4], s[5]);
      idProduct := Word16(s[2], s[3]);
      bcdDevice := Word16(s[0], s[1]);
      missing := false;
    }

    method ProbePrefix() returns (failed: bool)
      requires prefix == 0
      modifies this
      ensures View() == WithPrefix(old(View()))
      ensures failed <==> ProbeFails(old(View()))
    {
      var total := |firmware|;
      if total < LMDFU_PREFIX_LENGTH {
        return true;
      }
      if firmware[0] == 0x01 && firmware[1] == 0x00 {
        prefixType := LmdfuPrefix;
        prefix := LMDFU_PREFIX_LENGTH;
        lmdfuAddress := 1024 * Word16(firmware[2], firmware[3]) as nat;
      } else if firmware[0] % 0x40 == 0x1a && firmware[1] % 0x40 == 0x3f {
        prefixType := LpcdfuUnencryptedPrefix;
        prefix := LPCDFU_PREFIX_LENGTH;
      }
      return prefix + suffix > total;
    }
  }

  // The loader's own loop over the bytes.
  method CrcOf(b: seq<byte>) returns (crc: u32)
    ensures crc == Crc32.Serial(0xffff_ffff, b)
  {
    hide Crc32.Crc32Byte, Crc32.SerialByte;
    crc := 0xffff_ffff;
    var i := 0;
    while i < |b|
      invariant 0 <= i <= |b|
      invariant Crc32.Serial(crc, b[i..]) == Crc32.Serial(0xffff_ffff, b)
    {
      Crc32.Crc32ByteIsSerial(crc, b[i]);
      assert b[i..][1..] == b[i + 1..];
      crc := Crc32.Crc32Byte(crc, b[i]);
      i := i + 1;
    }
  }

  lemma EmptySerial(crc: u32)
    ensures Crc32.Serial(crc, []) == crc
  {
  }

  lemma ZeroPrefixBytes(f: File)
    requires f.Storable() && f.prefixType.ZeroPrefix?
    ensures PrefixBytes(f) == []
  {
  }

  // The arrays the store method fills are the prefixes of the format.
  lemma LmPrefix(f: File, p: seq<byte>)
    requires f.Storable() && f.prefixType.LmdfuPrefix? && |p| == 8
    requires var addr, len := f.lmdfuAddress / 1024, |f.firmware| - f.prefix - f.suffix;
      && p[0] == 0x01 && p[1] == 0x00 && p[2] == addr % 0x100 && p[3] == addr / 0x100 % 0x100
      && p[4] == len % 0x100 && p[5] == len / 0x100 % 0x100 && p[6] == len / 0x1_0000 % 0x100
      && p[7] == len / 0x100_0000
    ensures p == PrefixBytes(f)
  {
    var addr, len := f.lmdfuAddress / 1024, |f.firmware| - f.prefix - f.suffix;
    TwoBytes(addr, p[2..4]);
    StoredCrc(len, p[4..]);
    assert p == [p[0], p[1]] + p[2..4] + p[4..];
  }

  lemma LpcPrefix(f: File, p: seq<byte>)
    requires f.Storable() && f.prefixType.LpcdfuUnencryptedPrefix? && |p| == 16
    requires var len := (|f.firmware| - f.suffix + 511) / 512;
      p[0] == 0x1a && p[1] == 0x3f && p[2] == len % 0x100 && p[3] == len / 0x100 % 0x100
    requires forall k :: 4 <= k < 16 ==> p[k] == if k < 12 then 0 else 0xff
    ensures p == PrefixBytes(f)
  {
    var len := (|f.firmware| - f.suffix + 511) / 512;
    TwoBytes(len, p[2..4]);
    var rest := [0, 0, 0, 0, 0, 0, 0, 0, 0xff, 0xff, 0xff, 0xff];
    assert p[4..] == rest;
    assert p == [p[0], p[1]] + p[2..4] + p[4..];
  }

  lemma TwoBytes(x: nat, b: seq<byte>)
    requires |b| == 2 && b[0] == x % 0x100 && b[1] == x / 0x100 % 0x100
    ensures b == Le16(x % 0x1_0000)
  {
    assert x % 0x1_0000 % 0x100 == x % 0x100;
    assert x % 0x1_0000 / 0x100 == x / 0x100 % 0x100;
  }

  lemma StoredCrc(crc: u32, s: seq<byte>)
    requires |s| == 4
    requires s[0] == crc % 0x100 && s[1] == crc / 0x100 % 0x100 && s[2] == crc / 0x1_0000 % 0x100
      && s[3] == crc / 0x100_0000
    ensures s == Le32(crc)
  {
  }
}
