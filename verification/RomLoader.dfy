/** The boot ROM's loader: images from the UART or from memory, checked and put in place. */
module RomLoader {
  import opened Basics
  import opened Bytes
  import opened RomMap
  import opened Crc
  import opened BootBin
  import opened RomImage

  /** A byte off the line, and whether an overrun, parity or framing error was seen with it. */
  datatype Rx = Rx(b: byte, err: bool)

  function BytesOf(line: seq<Rx>): (s: seq<byte>)
    ensures |s| == |line| && forall i | 0 <= i < |s| :: s[i] == line[i].b
  {
    seq(|line|, i requires 0 <= i < |line| => line[i].b)
  }

  predicate AnyErr(line: seq<Rx>) { exists i | 0 <= i < |line| :: line[i].err }

  /** Bytes have been taken off the line, and their errors noted. */
  ghost predicate Heard(before: seq<Rx>, after: seq<Rx>, err0: bool, err1: bool) {
    var n := |before| - |after|;
    n >= 0 && after == before[n..] && err1 == (err0 || AnyErr(before[..n]))
  }

  /** Memory stays memory, and has no line errors. */
  ghost predicate SameSource(from: Option<nat>, to: Option<nat>, err0: bool, err1: bool) {
    to.Some? == from.Some? && (to.Some? ==> err1 == err0)
  }

  lemma HeardMore(a: seq<Rx>, b: seq<Rx>, c: seq<Rx>, e0: bool, e1: bool, e2: bool)
    requires Heard(a, b, e0, e1) && Heard(b, c, e1, e2)
    ensures Heard(a, c, e0, e2)
  {
    var m, n := |a| - |b|, |b| - |c|;
    assert a[..m + n] == a[..m] + b[..n];
    AnyErrConcat(a[..m], b[..n]);
  }

  lemma AnyErrConcat(a: seq<Rx>, b: seq<Rx>)
    ensures AnyErr(a + b) <==> AnyErr(a) || AnyErr(b)
  {
    if AnyErr(a) { var k :| 0 <= k < |a| && a[k].err; assert (a + b)[k].err; }
    if AnyErr(b) { var k :| 0 <= k < |b| && b[k].err; assert (a + b)[|a| + k].err; }
  }

  /** The magic stands at k. */
  predicate MagicAt(s: seq<byte>, k: nat) { k + 4 <= |s| && s[k..k + 4] == MAGIC_BYTES }

  const MAGIC_BYTES: seq<byte> := [0x52, 0x56, 0x42, 0x49]

  class Rom {
    const ram: array<byte>
    const hdr: array<byte>
    const seg: array<byte>
    const cmdline: array<byte>
    var line: seq<Rx>
    var msrc: Option<nat>
    var payloadEnd: word
    var lineErr: bool

    /** The statics are apart from each other and from the payload's RAM. */
    ghost predicate Valid()
      reads this
    {
      && ram.Length < 0x8000_0000 && hdr.Length == RVBI_HDR && seg.Length == RVBI_SEG * RVBI_MAX_SEGS && cmdline.Length == MAX_CMD + 1
      && ram != hdr && ram != seg && ram != cmdline && hdr != seg && hdr != cmdline && seg != cmdline
      && payloadEnd <= RAM_BASE + ram.Length
      && (msrc.Some? ==> msrc.value <= ram.Length && payloadEnd <= RAM_BASE + msrc.value)
    }

    /** The bytes still to come. */
    ghost function Pending(): (s: seq<byte>)
      reads this, ram
      requires Valid()
    {
      if msrc.None? then BytesOf(line) else ram[msrc.value..]
    }

    /** get_bytes: n bytes to dst, folded into the CRC on the way; false where there are no more. */
    method GetBytes(dst: array<byte>, at: nat, n: nat, crc: bv32) returns (whole: bool, c: bv32)
      requires Valid() && at + n <= dst.Length
      requires dst == ram && msrc.Some? ==> at + n <= msrc.value
      modifies this`line, this`msrc, this`lineErr, dst
      ensures Valid() && SameSource(old(msrc), msrc, old(lineErr), lineErr) && whole == (n <= |old(Pending())|)
      ensures forall k | 0 <= k < dst.Length && !(at <= k < at + n) :: dst[k] == old(dst[k])
      ensures whole ==> dst[..] == Spliced(old(dst[..]), at, old(Pending())[..n]) && Pending() == old(Pending())[n..]
      ensures whole ==> c == Fold(crc, old(Pending())[..n])
      ensures whole ==> Heard(old(line), line, old(lineErr), lineErr) && (msrc.None? ==> line == old(line)[n..])
      ensures msrc.Some? ==> lineErr == old(lineErr) && line == old(line)
      ensures msrc.Some? && whole ==> msrc.value == old(msrc).value + n
    {
      if msrc.None? { whole, c := RxBytes(dst, at, n, crc); } else { whole, c := CopyBytes(dst, at, n, crc); }
    }

    /** rx_bytes */
    method RxBytes(dst: array<byte>, at: nat, n: nat, crc: bv32) returns (whole: bool, c: bv32)
      requires Valid() && at + n <= dst.Length && msrc.None?
      modifies this`line, this`lineErr, dst
      ensures whole == (n <= |old(line)|)
      ensures forall k | 0 <= k < dst.Length && !(at <= k < at + n) :: dst[k] == old(dst[k])
      ensures whole ==> dst[..] == Spliced(old(dst[..]), at, BytesOf(old(line))[..n]) && line == old(line)[n..]
      ensures whole ==> BytesOf(line) == BytesOf(old(line))[n..]
      ensures whole ==> c == Fold(crc, BytesOf(old(line))[..n]) && lineErr == (old(lineErr) || AnyErr(old(line)[..n]))
    {
      hide Byte, Fold, Spliced;
      ghost var s := BytesOf(line);
      var i, err := 0, false;
      c := crc;
      FoldNone(crc, s);
      while i < n
        invariant 0 <= i <= n && i <= |s| && line == old(line)[i..] && lineErr == old(lineErr)
        invariant forall k | 0 <= k < dst.Length :: dst[k] == if at <= k < at + i then s[k - at] else old(dst[k])
        invariant c == Fold(crc, s[..i]) && err == AnyErr(old(line)[..i])
      {
        if line == [] { return false, c; }
        AnyErrLast(old(line), i);
        FoldLast(crc, s, i);
        err := err || line[0].err;
        var b := line[0].b;
        line := line[1..];
        dst[at + i] := b;
        c := CrcByte(c, b);
        i := i + 1;
      }
      SplicedIs(old(dst[..]), at, s[..n], dst[..]);
      lineErr := lineErr || err;
      whole := true;
    }

    /** The other half of get_bytes, which reads memory. */
    method CopyBytes(dst: array<byte>, at: nat, n: nat, crc: bv32) returns (whole: bool, c: bv32)
      requires Valid() && at + n <= dst.Length && msrc.Some? && (dst == ram ==> at + n <= msrc.value)
      modifies this`msrc, dst
      ensures Valid() && msrc.Some? && whole == (old(msrc).value + n <= ram.Length)
      ensures forall k | 0 <= k < dst.Length && !(at <= k < at + n) :: dst[k] == old(dst[k])
      ensures whole ==> dst[..] == Spliced(old(dst[..]), at, old(ram[msrc.value..])[..n])
      ensures whole ==> msrc.value == old(msrc).value + n && ram[msrc.value..] == old(ram[msrc.value..])[n..]
      ensures whole ==> c == Fold(crc, old(ram[msrc.value..])[..n])
    {
      hide Byte, Fold, Spliced;
      ghost var s := ram[msrc.value..];
      ghost var from := msrc.value;
      var i := 0;
      c := crc;
      FoldNone(crc, s);
      while i < n
        invariant 0 <= i <= n && i <= |s| && msrc == Some(from + i)
        invariant forall k | from + i <= k < ram.Length :: ram[k] == s[k - from]
        invariant forall k | 0 <= k < dst.Length :: dst[k] == if at <= k < at + i then s[k - at] else old(dst[k])
        invariant c == Fold(crc, s[..i])
      {
        if msrc.value == ram.Length { return false, c; }
        FoldLast(crc, s, i);
        var b := ram[msrc.value];
        msrc := Some(msrc.value + 1);
        dst[at + i] := b;
        c := CrcByte(c, b);
        i := i + 1;
      }
      SplicedIs(old(dst[..]), at, s[..n], dst[..]);
      whole := true;
    }

    /** The hunt of load_image: up to and with the first magic on the line. */
    method Hunt() returns (found: bool)
      requires Valid() && msrc.None?
      modifies this`line, this`lineErr
      ensures Valid() && Heard(old(line), line, old(lineErr), lineErr)
      ensures found ==> |line| + 4 <= |old(line)| && MagicAt(BytesOf(old(line)), |old(line)| - |line| - 4)
      ensures found ==> forall k: nat | k < |old(line)| - |line| - 4 :: !MagicAt(BytesOf(old(line)), k)
      ensures !found ==> forall k: nat :: !MagicAt(BytesOf(old(line)), k)
    {
      hide MagicAt, AnyErr;
      ghost var s := BytesOf(line);
      var w, i := 0, 0;
      assert !AnyErr(line[..0]) by { NoErrs(line); }
      WindowStart();
      while w != RVBI_MAGIC
        invariant 0 <= i <= |s| && line == old(line)[i..] && lineErr == (old(lineErr) || AnyErr(old(line)[..i]))
        invariant w == Window(s, i)
        invariant forall k: nat | k + 4 < i :: !MagicAt(s, k)
        decreases |s| - i
      {
        WindowIsMagic(s, i);
        if line == [] {
          forall k: nat ensures !MagicAt(s, k) { if k + 4 > i { PastTheEndOf(s, k); } }
          return false;
        }
        AnyErrLast(old(line), i);
        WindowMoves(s, i);
        lineErr := lineErr || line[0].err;
        w := w / 0x100 + line[0].b as int * 0x100_0000;
        line := line[1..];
        i := i + 1;
      }
      WindowIsMagic(s, i);
      found := true;
    }

    /** The header after its magic; the CRC so far covers it with its own CRC field as zero. */
    method GetHeader(ghost s: seq<byte>) returns (whole: bool, c: bv32)
      requires Valid() && s == hdr[..4] + Pending()
      modifies this`line, this`msrc, this`lineErr, hdr
      ensures Valid() && SameSource(old(msrc), msrc, old(lineErr), lineErr) && whole == (|s| >= RVBI_HDR)
      ensures whole ==> hdr[..] == s[..RVBI_HDR] && Pending() == s[RVBI_HDR..] && c == Fold(Inv(0), s[..28] + Zeros(4))
      ensures whole ==> Heard(old(line), line, old(lineErr), lineErr)
    {
      hide Fold, Spliced, Heard, Inv, Crc32, CrcWord, BytesOf;
      ghost var rest := Pending();
      assert s[..4] == hdr[..4] && rest == s[4..];
      c := CrcLoop(0, hdr[..4]);
      CrcUndone(hdr[..4]);
      c := Inv(c);
      whole, c := GetBytes(hdr, 4, 24, c);
      if !whole { return; }
      ghost var line1, err1 := line, lineErr;
      assert rest[..24] == s[4..28];
      FoldConcat(Inv(0), s[..4], s[4..28]);
      assert s[..4] + s[4..28] == s[..28];
      var unused: bv32;
      whole, unused := GetBytes(hdr, 28, 4, 0);
      if !whole { return; }
      HeardMore(old(line), line1, line, old(lineErr), err1, lineErr);
      SplicedTwice(old(hdr[..]), s, hdr[..]);
      c := FoldZeros(c);
      FoldConcat(Inv(0), s[..28], Zeros(4));
    }

    /** get_bytes to the start of a buffer, where s[o..] is still to come. */
    method GetFront(dst: array<byte>, n: nat, crc: bv32, ghost s: seq<byte>, ghost o: nat) returns (whole: bool, c: bv32)
      requires Valid() && n <= dst.Length && dst != ram && o <= |s| && Pending() == s[o..]
      modifies this`line, this`msrc, this`lineErr, dst
      ensures Valid() && SameSource(old(msrc), msrc, old(lineErr), lineErr) && whole == (o + n <= |s|)
      ensures whole ==> dst[..n] == s[o..o + n] && Pending() == s[o + n..] && c == Fold(crc, s[o..o + n])
      ensures whole ==> Heard(old(line), line, old(lineErr), lineErr)
    {
      hide Fold, Spliced, Heard, BytesOf;
      whole, c := GetBytes(dst, 0, n, crc);
      if whole {
        assert s[o..][..n] == s[o..o + n] && s[o..][n..] == s[o + n..];
        SplicedFront(old(dst[..]), s[o..o + n]);
        assert dst[..n] == dst[..][..n];
      }
    }

    /** The segment table and the command line, and the CRC of everything so far. */
    method GetTable(ghost s: seq<byte>, crc: bv32) returns (whole: bool, c: bv32)
      requires Valid() && |s| >= RVBI_HDR && HeaderOk(s) && hdr[..] == s[..RVBI_HDR] && Pending() == s[RVBI_HDR..]
      requires crc == Fold(Inv(0), s[..28] + Zeros(4))
      modifies this`line, this`msrc, this`lineErr, seg, cmdline
      ensures Valid() && SameSource(old(msrc), msrc, old(lineErr), lineErr) && whole == (|s| >= Meta(s))
      ensures whole ==> TableIs(s) && Pending() == s[Meta(s)..] && Heard(old(line), line, old(lineErr), lineErr)
      ensures whole ==> Inv(c) as int == HeaderCrc(s, Meta(s))
    {
      hide Fold, Heard, Inv, Crc32, BytesOf, Le16, Le32, HeaderCrc, HeaderOk, Pending;
      HeaderFields(s, hdr[..]);
      var n: int, clen: int := Le16(hdr[..], 6), Le16(hdr[..], 16);
      ghost var m: int := RVBI_HDR + RVBI_SEG * n;
      whole, c := GetFront(seg, RVBI_SEG * n, crc, s, RVBI_HDR);
      if !whole { return; }
      ghost var line1, err1 := line, lineErr;
      whole, c := GetFront(cmdline, clen, c, s, m);
      if !whole { return; }
      cmdline[clen] := 0;
      assert cmdline[..clen] == s[m..m + clen];
      HeardMore(old(line), line1, line, old(lineErr), err1, lineErr);
      TableCrc(s, m, m + clen);
    }

    /** The checks of load_image on the segment table; nothing has been written yet. */
    method CheckSegments(ghost ss: seq<Seg>) returns (r: Result)
      requires hdr.Length == RVBI_HDR && Le16(hdr[..], 6) as int == |ss| && RVBI_SEG * |ss| <= seg.Length
      requires forall i | 0 <= i < |ss| :: ss[i] == SegAt(seg[..], i)
      ensures r == SegVerdict(ss, Le32(hdr[..], 20), Le32(hdr[..], 8), payloadEnd)
    {
      hide Le32, Le16, InRange, Holds, End;
      var total: word, entryOk := 0, false;
      var entry := Le32(hdr[..], 8);
      var i: nat := 0;
      while i < Le16(hdr[..], 6)
        invariant 0 <= i <= |ss| && AllInRange(ss[..i], payloadEnd)
        invariant total == Total(ss[..i]) && entryOk == EntryOk(ss[..i], entry)
      {
        assert ss[..i + 1][..i] == ss[..i];
        var sg := SegAt(seg[..], i);
        var end := (sg.addr as int + sg.memsz as int) % WORD;
        RangeCheck(sg, end, payloadEnd);
        if sg.filesz > sg.memsz || end < sg.addr || sg.addr < PAYLOAD_BASE || end > payloadEnd {
          FirstBadHere(ss, i, payloadEnd);
          return Range(i);
        }
        EntryLast(ss, i, entry);
        EntryCheck(sg, payloadEnd, entry);
        if entry >= sg.addr && entry < (sg.addr as int + sg.filesz as int) % WORD { entryOk := true; }
        TotalLast(ss, i);
        total := (total as int + sg.filesz as int) % WORD;
        i := i + 1;
      }
      assert ss[..i] == ss;
      if total != Le32(hdr[..], 20) { return Sizes; }
      r := if entryOk then Ok else Entry;
    }

    /** One segment: its bytes from the source, then zeros. */
    method PutSegment(sg: Seg, crc: bv32, ghost s: seq<byte>, ghost o: nat) returns (whole: bool, c: bv32)
      requires Valid() && InRange(sg, payloadEnd) && o <= |s| && Pending() == s[o..]
      modifies this`line, this`msrc, this`lineErr, ram
      ensures Valid() && SameSource(old(msrc), msrc, old(lineErr), lineErr) && whole == (o + sg.filesz <= |s|) && InRam(sg, ram.Length)
      ensures whole ==> ram[..] == Put(old(ram[..]), sg, s[o..o + sg.filesz as int]) && Pending() == s[o + sg.filesz as int..]
      ensures whole ==> c == Fold(crc, s[o..o + sg.filesz as int]) && Heard(old(line), line, old(lineErr), lineErr)
      ensures KeptBut([sg], old(ram[..]), ram[..])
    {
      hide Fold, Spliced, Heard, BytesOf, InRange;
      SizeFits(sg, payloadEnd);
      InRangeParts(sg, payloadEnd);
      var at, n := sg.addr - RAM_BASE, sg.filesz as int;
      whole, c := GetBytes(ram, at, n, crc);
      KeptOne(sg, old(ram[..]), ram[..]);
      if !whole { return; }
      assert s[o..][..n] == s[o..o + n] && s[o..][n..] == s[o + n..];
      ghost var rest, src := Pending(), if msrc.Some? then msrc.value else 0;
      Memset(ram, at + n, sg.memsz - n);
      KeptOne(sg, old(ram[..]), ram[..]);
      PutIs(old(ram[..]), sg, s[o..o + n], ram[..]);
      assert msrc.Some? ==> ram[src..] == rest;
    }

    /** The data of all segments, straight into place. */
    method PutSegments(ghost s: seq<byte>, ghost o: nat, ghost ss: seq<Seg>) returns (whole: bool, c: bv32)
      requires Valid() && AllInRange(ss, payloadEnd) && o <= |s| && Pending() == s[o..]
      requires Le16(hdr[..], 6) as int == |ss| && RVBI_SEG * |ss| <= seg.Length && forall i | 0 <= i < |ss| :: ss[i] == SegAt(seg[..], i)
      modifies this`line, this`msrc, this`lineErr, ram
      ensures Valid() && SameSource(old(msrc), msrc, old(lineErr), lineErr) && whole == (o + FileSum(ss) <= |s|) && AllInRam(ss, ram.Length)
      ensures whole ==> ram[..] == Loaded(old(ram[..]), ss, s[o..o + FileSum(ss)]) && c == Fold(0xffff_ffff, s[o..o + FileSum(ss)])
      ensures whole ==> Heard(old(line), line, old(lineErr), lineErr)
      ensures KeptBut(ss, old(ram[..]), ram[..])
    {
      hide Fold, Heard, Pending, SegAt, Le16, InRange, InRam, Put, Loaded, FileSum, KeptBut, InPlace;
      RangeInside(ss, payloadEnd, ram.Length);
      c := 0xffff_ffff;
      HeardNothing(line, lineErr);
      InPlaceStart(ram[..], ss, s, o);
      KeptAll(ss, ram[..]);
      var i: nat := 0;
      while i < Le16(hdr[..], 6)
        invariant 0 <= i <= |ss| && Valid() && SameSource(old(msrc), msrc, old(lineErr), lineErr)
        invariant InPlace(old(ram[..]), ss, i, s, o, ram[..], c) && Heard(old(line), line, old(lineErr), lineErr)
        invariant o + FileSum(ss[..i]) <= |s| && Pending() == s[o + FileSum(ss[..i])..]
        invariant KeptBut(ss, old(ram[..]), ram[..])
      {
        ghost var line1, err1, ram1, c1 := line, lineErr, ram[..], c;
        var sg := SegAt(seg[..], i);
        assert InRange(sg, payloadEnd);
        SumLast(ss, i);
        whole, c := PutSegment(sg, c, s, o + FileSum(ss[..i]));
        KeptMore(ss, i, old(ram[..]), ram1, ram[..]);
        if !whole { SumGrows(ss, i + 1); return; }
        InPlaceStep(old(ram[..]), ss, i, s, o, ram1, c1);
        HeardMore(old(line), line1, line, old(lineErr), err1, lineErr);
        i := i + 1;
      }
      InPlaceEnd(old(ram[..]), ss, i, s, o, ram[..], c);
      whole := true;
    }

    /** Everything load_image checks before the first byte is written; s is the image from
        its magic on. */
    method CheckHead(ghost s: seq<byte>) returns (r: Result)
      requires Valid() && s == hdr[..4] + Pending()
      modifies this`line, this`msrc, this`lineErr, hdr, seg, cmdline
      ensures Valid() && SameSource(old(msrc), msrc, old(lineErr), lineErr) && r == Checked(s, payloadEnd)
      ensures r == Ok ==> TableIs(s) && Pending() == s[Meta(s)..] && Heard(old(line), line, old(lineErr), lineErr)
    {
      hide Fold, Heard, Pending, Le16, Le32, HeaderOk, HeaderCrc, SegsOf, SegVerdict, Inv;
      var whole, crc := GetHeader(s);
      if !whole { return Cut; }
      ghost var line1, err1 := line, lineErr;
      HeaderFields(s, hdr[..]);
      if !HeaderOk(hdr[..]) { return BadHdr; }
      whole, crc := GetTable(s, crc);
      if !whole { return Cut; }
      HeardMore(old(line), line1, line, old(lineErr), err1, lineErr);
      if Inv(crc) as int != Le32(hdr[..], 28) { return HdrCrc; }
      TableSegs(s, seg[..]);
      r := CheckSegments(SegsOf(s));
    }

    /** load_image once it has the magic. */
    method AfterMagic(ghost s: seq<byte>) returns (r: Result)
      requires Valid() && s == hdr[..4] + Pending()
      modifies this`line, this`msrc, this`lineErr, hdr, seg, cmdline, ram
      ensures Valid() && SameSource(old(msrc), msrc, old(lineErr), lineErr) && r == LoadResult(s, payloadEnd, lineErr)
      ensures Placed(s, payloadEnd, r, old(ram[..]), ram[..])
      ensures Checked(s, payloadEnd) == Ok && r != Cut ==> TableIs(s) && Heard(old(line), line, old(lineErr), lineErr)
      ensures KeptOutside(payloadEnd, old(ram[..]), ram[..])
    {
      hide Fold, Heard, Pending, Le16, Le32, SegsOf, Loaded, Inv, CrcWord, FileSum, AllInRange, AllInRam, Checked,
           KeptBut, KeptOutside;
      r := CheckHead(s);
      KeptNothing(payloadEnd, ram[..]);
      if r != Ok { return; }
      ghost var ss, line1, err1 := SegsOf(s), line, lineErr;
      TableSegs(s, seg[..]);
      HeaderFields(s, hdr[..]);
      ghost var ram1 := ram[..];
      var whole, crc := PutSegments(s, Meta(s), ss);
      KeptSegments(ss, payloadEnd, ram1, ram[..]);
      if !whole { return Cut; }
      HeardMore(old(line), line1, line, old(lineErr), err1, lineErr);
      DataCrcIs(s[Meta(s)..Meta(s) + FileSum(ss)]);
      if lineErr { return Line; }
      r := if Inv(crc) as int != Le32(hdr[..], 24) then DataCrc else Ok;
    }

    /** load_image */
    method LoadImage() returns (r: Result)
      requires Valid() && (msrc.Some? ==> msrc.value + 4 <= ram.Length)
      modifies this`line, this`msrc, this`lineErr, hdr, seg, cmdline, ram
      ensures Valid() && SameSource(old(msrc), msrc, false, lineErr)
      ensures r == LoadResult(Image(old(line), old(msrc), old(ram[..])), payloadEnd, lineErr)
      ensures Placed(Image(old(line), old(msrc), old(ram[..])), payloadEnd, r, old(ram[..]), ram[..])
      ensures Checked(Image(old(line), old(msrc), old(ram[..])), payloadEnd) == Ok && r != Cut ==>
                TableIs(Image(old(line), old(msrc), old(ram[..]))) && Heard(old(line), line, false, lineErr)
      ensures KeptOutside(payloadEnd, old(ram[..]), ram[..])
    {
      hide Heard, Le16, Le32, SegsOf, Loaded, FileSum, AllInRam, Checked, LoadResult, TableIs, Image, KeptOutside,
           Pending, Placed;
      lineErr := false;
      ghost var s := Image(line, msrc, ram[..]);
      var found := TakeMagic(s);
      KeptNothing(payloadEnd, ram[..]);
      if !found {
        NothingIsCut(s, payloadEnd, lineErr, ram[..]);
        return Cut;
      }
      ghost var line1, err1 := line, lineErr;
      r := AfterMagic(s);
      if Checked(s, payloadEnd) == Ok && r != Cut { HeardMore(old(line), line1, line, false, err1, lineErr); }
    }

    /** The first word of an image: the next one in memory, or the magic on the line. */
    method TakeMagic(ghost s: seq<byte>) returns (found: bool)
      requires Valid() && (msrc.Some? ==> msrc.value + 4 <= ram.Length) && s == Image(line, msrc, ram[..])
      modifies this`line, this`msrc, this`lineErr, hdr
      ensures Valid() && SameSource(old(msrc), msrc, old(lineErr), lineErr) && (!found ==> s == [])
      ensures found ==> s == hdr[..4] + Pending() && Heard(old(line), line, old(lineErr), lineErr)
    {
      hide Le32, BytesOf, MagicAt, AnyErr;
      var w := RVBI_MAGIC;
      HeardNothing(line, lineErr);
      if msrc.Some? {
        w := Le32(ram[..], msrc.value);
        BytesOfWord(ram[..], msrc.value);
        msrc := Some(msrc.value + 4);
        found := true;
      } else {
        ghost var all := BytesOf(line);
        found := Hunt();
        HuntedIs(old(line), line, found);
        if !found { return; }
      }
      PutWord(hdr, w);
      assert hdr[..4] == hdr[0..4];
    }

    /** The image that another processor has left in memory, unless a key was pressed. */
    method BootFromMemory(key: bool) returns (r: Option<Result>)
      requires Valid() && msrc.None? && payloadEnd as int == RAM_BASE + ram.Length - DTB_AREA
      modifies this`line, this`msrc, this`lineErr, this`payloadEnd, hdr, seg, cmdline, ram
      ensures Valid() && msrc.None? && payloadEnd == old(payloadEnd)
      ensures r.Some? <==> ImageInMemory(old(ram[..])) && !key
      ensures r.None? ==> ram[..] == old(ram[..])
      ensures r.Some? ==> r.value == LoadResult(old(ram[..])[BOOTMEM_ADDR - RAM_BASE..], BOOTMEM_ADDR, false)
      ensures r.Some? ==> Placed(old(ram[..])[BOOTMEM_ADDR - RAM_BASE..], BOOTMEM_ADDR, r.value, old(ram[..]), ram[..])
      ensures KeptOutside(BOOTMEM_ADDR, old(ram[..]), ram[..])
    {
      hide Le16, Le32, SegsOf, Loaded, FileSum, AllInRam, Checked, TableIs, HeaderOk, CrcWord, Placed, LoadResult,
           KeptOutside, Heard;
      var o := BOOTMEM_ADDR - RAM_BASE;
      KeptNothing(BOOTMEM_ADDR, ram[..]);
      if BOOTMEM_ADDR + RVBI_HDR > RAM_BASE + ram.Length - DTB_AREA { return None; }
      if Le32(ram[..], o) != RVBI_MAGIC || key { return None; }
      msrc, payloadEnd := Some(o), BOOTMEM_ADDR;
      var v := LoadImage();
      msrc, payloadEnd := None, RAM_BASE + ram.Length - DTB_AREA;
      r := Some(v);
    }

    /** What the statics hold once the table is in. */
    ghost predicate TableIs(s: seq<byte>)
      reads hdr, seg, cmdline
    {
      && hdr.Length == RVBI_HDR && seg.Length == RVBI_SEG * RVBI_MAX_SEGS && cmdline.Length == MAX_CMD + 1
      && |s| >= RVBI_HDR && |s| >= Meta(s) && Le16(s, 6) <= RVBI_MAX_SEGS && Le16(s, 16) <= MAX_CMD
      && hdr[..] == s[..RVBI_HDR]
      && seg[..RVBI_SEG * Le16(s, 6)] == s[RVBI_HDR..RVBI_HDR + RVBI_SEG * Le16(s, 6)]
      && cmdline[..Le16(s, 16)] == s[RVBI_HDR + RVBI_SEG * Le16(s, 6)..Meta(s)] && cmdline[Le16(s, 16)] == 0
    }
  }

  method Memset(dst: array<byte>, at: nat, n: nat)
    requires at + n <= dst.Length
    modifies dst
    ensures forall k | 0 <= k < dst.Length :: dst[k] == if at <= k < at + n then 0 else old(dst[k])
  {
    var i := 0;
    while i < n
      invariant 0 <= i <= n
      invariant forall k | 0 <= k < dst.Length :: dst[k] == if at <= k < at + i then 0 else old(dst[k])
    {
      dst[at + i] := 0;
      i := i + 1;
    }
  }

  ghost predicate Untouched(ss: seq<Seg>, k: int) { forall i | 0 <= i < |ss| :: !Covers(ss[i], k) }

  lemma RangeCheck(s: Seg, end: int, payloadEnd: word)
    requires end == (s.addr as int + s.memsz as int) % WORD
    ensures InRange(s, payloadEnd) <==> !(s.filesz > s.memsz || end < s.addr || s.addr < PAYLOAD_BASE || end > payloadEnd)
  {
  }

  lemma EntryCheck(s: Seg, payloadEnd: word, entry: word)
    requires InRange(s, payloadEnd)
    ensures Holds(s, entry) <==> entry >= s.addr && entry < (s.addr as int + s.filesz as int) % WORD
  {
    SizeFits(s, payloadEnd);
  }

  lemma InRangeParts(s: Seg, payloadEnd: word)
    requires InRange(s, payloadEnd)
    ensures s.filesz <= s.memsz && PAYLOAD_BASE <= s.addr && End(s) <= payloadEnd
  {
  }

  lemma {:induction false} FirstBadHere(ss: seq<Seg>, i: nat, payloadEnd: word)
    requires i < |ss| && AllInRange(ss[..i], payloadEnd) && !InRange(ss[i], payloadEnd)
    ensures FirstBad(ss, payloadEnd) == i
  {
    hide InRange, FirstBad;
  }

  lemma EntryLast(ss: seq<Seg>, i: nat, entry: word)
    requires i < |ss|
    ensures EntryOk(ss[..i + 1], entry) <==> EntryOk(ss[..i], entry) || Holds(ss[i], entry)
  {
    hide Holds;
    if Holds(ss[i], entry) { assert Holds(ss[..i + 1][i], entry); }
    if EntryOk(ss[..i], entry) {
      var k :| 0 <= k < i && Holds(ss[..i][k], entry);
      assert Holds(ss[..i + 1][k], entry);
    }
  }

  lemma SumLast(ss: seq<Seg>, i: nat)
    requires i < |ss|
    ensures FileSum(ss[..i + 1]) == FileSum(ss[..i]) + ss[i].filesz
  {
    assert ss[..i + 1][..i] == ss[..i];
  }

  lemma TotalLast(ss: seq<Seg>, i: nat)
    requires i < |ss|
    ensures Total(ss[..i + 1]) == (Total(ss[..i]) as int + ss[i].filesz as int) % WORD
  {
    SumLast(ss, i);
  }

  lemma {:induction false} SumGrows(ss: seq<Seg>, i: nat)
    requires i <= |ss|
    ensures FileSum(ss[..i]) <= FileSum(ss)
    decreases |ss| - i
  {
    if i < |ss| { SumLast(ss, i); SumGrows(ss, i + 1); } else { assert ss[..i] == ss; }
  }

  lemma LoadedLast(ram: seq<byte>, ss: seq<Seg>, i: nat, data: seq<byte>)
    requires i < |ss| && AllInRam(ss, |ram|) && |data| == FileSum(ss[..i]) + ss[i].filesz
    ensures FileSum(ss[..i + 1]) == |data|
    ensures Loaded(ram, ss[..i + 1], data) == Put(Loaded(ram, ss[..i], data[..FileSum(ss[..i])]), ss[i], data[FileSum(ss[..i])..])
  {
    hide Put, InRam;
    assert ss[..i + 1][..i] == ss[..i];
  }

  /** The first i segments are in place, and the CRC covers their data. */
  ghost predicate InPlace(ram0: seq<byte>, ss: seq<Seg>, i: nat, s: seq<byte>, o: nat, ram: seq<byte>, c: bv32) {
    && i <= |ss| && AllInRam(ss, |ram0|) && o + FileSum(ss[..i]) <= |s|
    && ram == Loaded(ram0, ss[..i], s[o..o + FileSum(ss[..i])]) && c == Fold(0xffff_ffff, s[o..o + FileSum(ss[..i])])
  }

  lemma InPlaceStart(ram: seq<byte>, ss: seq<Seg>, s: seq<byte>, o: nat)
    requires AllInRam(ss, |ram|) && o <= |s|
    ensures FileSum(ss[..0]) == 0 && InPlace(ram, ss, 0, s, o, ram, 0xffff_ffff)
  {
    assert ss[..0] == [] && s[o..o] == [];
  }

  lemma InPlaceStep(ram0: seq<byte>, ss: seq<Seg>, i: nat, s: seq<byte>, o: nat, ram: seq<byte>, c: bv32)
    requires i < |ss| && InPlace(ram0, ss, i, s, o, ram, c) && o + FileSum(ss[..i + 1]) <= |s|
    ensures FileSum(ss[..i + 1]) == FileSum(ss[..i]) + ss[i].filesz
    ensures var m := o + FileSum(ss[..i]); var data := s[m..m + ss[i].filesz as int];
            InRam(ss[i], |ram|) && InPlace(ram0, ss, i + 1, s, o, Put(ram, ss[i], data), Fold(c, data))
  {
    hide Fold, Put, Loaded, InRam;
    SumLast(ss, i);
    var m, n := o + FileSum(ss[..i]), ss[i].filesz as int;
    FoldConcat(0xffff_ffff, s[o..m], s[m..m + n]);
    assert s[o..m] + s[m..m + n] == s[o..m + n];
    assert s[o..m + n][..m - o] == s[o..m] && s[o..m + n][m - o..] == s[m..m + n];
    LoadedLast(ram0, ss, i, s[o..m + n]);
  }

  lemma InPlaceEnd(ram0: seq<byte>, ss: seq<Seg>, i: nat, s: seq<byte>, o: nat, ram: seq<byte>, c: bv32)
    requires i == |ss| && InPlace(ram0, ss, i, s, o, ram, c)
    ensures o + FileSum(ss) <= |s| && ram == Loaded(ram0, ss, s[o..o + FileSum(ss)]) && c == Fold(0xffff_ffff, s[o..o + FileSum(ss)])
  {
    assert ss[..i] == ss;
  }

  /** Nothing but the segments has changed. */
  ghost predicate KeptBut(ss: seq<Seg>, a: seq<byte>, b: seq<byte>) {
    |a| == |b| && forall k | 0 <= k < |a| && Untouched(ss, k) :: b[k] == a[k]
  }

  /** RAM after load_image has returned r: as it was unless every check on the head passed,
      and then with every segment in place. */
  ghost predicate Placed(s: seq<byte>, payloadEnd: word, r: Result, ram0: seq<byte>, ram1: seq<byte>) {
    && (Checked(s, payloadEnd) != Ok ==> ram1 == ram0)
    && (Checked(s, payloadEnd) == Ok && r != Cut ==>
          var ss := SegsOf(s);
          |s| >= Meta(s) + FileSum(ss) && AllInRam(ss, |ram0|) && ram1 == Loaded(ram0, ss, s[Meta(s)..Meta(s) + FileSum(ss)]))
  }

  /** Nothing outside the payload area has changed. */
  ghost predicate KeptOutside(payloadEnd: word, a: seq<byte>, b: seq<byte>) {
    |a| == |b| && forall k | 0 <= k < |a| && (RAM_BASE + k < PAYLOAD_BASE || payloadEnd <= RAM_BASE + k) :: b[k] == a[k]
  }

  lemma KeptNothing(payloadEnd: word, a: seq<byte>)
    ensures KeptOutside(payloadEnd, a, a)
  {
  }

  lemma KeptAll(ss: seq<Seg>, a: seq<byte>)
    ensures KeptBut(ss, a, a)
  {
  }

  lemma KeptMore(ss: seq<Seg>, i: nat, a: seq<byte>, b: seq<byte>, c: seq<byte>)
    requires i < |ss| && KeptBut(ss, a, b) && KeptBut([ss[i]], b, c)
    ensures KeptBut(ss, a, c)
  {
    hide Covers;
    forall k | 0 <= k < |a| && Untouched(ss, k) ensures c[k] == a[k] { assert Untouched([ss[i]], k); }
  }

  lemma KeptOne(s: Seg, a: seq<byte>, b: seq<byte>)
    requires |a| == |b| && forall k | 0 <= k < |a| && !Covers(s, k) :: b[k] == a[k]
    ensures KeptBut([s], a, b)
  {
    hide Covers;
    forall k | 0 <= k < |a| && Untouched([s], k) ensures b[k] == a[k] { assert !Covers([s][0], k); }
  }

  lemma KeptSegments(ss: seq<Seg>, payloadEnd: word, a: seq<byte>, b: seq<byte>)
    requires AllInRange(ss, payloadEnd) && KeptBut(ss, a, b)
    ensures KeptOutside(payloadEnd, a, b)
  {
    OutsideUntouched(ss, payloadEnd);
  }

  lemma TableSegs(s: seq<byte>, table: seq<byte>)
    requires |s| >= RVBI_HDR && |s| >= Meta(s) && RVBI_SEG * Le16(s, 6) <= |table|
    requires table[..RVBI_SEG * Le16(s, 6)] == s[RVBI_HDR..RVBI_HDR + RVBI_SEG * Le16(s, 6)]
    ensures |SegsOf(s)| == Le16(s, 6) && forall i | 0 <= i < |SegsOf(s)| :: SegsOf(s)[i] == SegAt(table, i)
  {
    hide Le16, Le32;
    var n: int := Le16(s, 6);
    var t := s[RVBI_HDR..RVBI_HDR + RVBI_SEG * n];
    forall i | 0 <= i < n ensures SegsOf(s)[i] == SegAt(table, i) {
      assert t == table[..RVBI_SEG * n];
      Le32Prefix(t, table, 12 * i); Le32Prefix(t, table, 12 * i + 4); Le32Prefix(t, table, 12 * i + 8);
    }
  }

  lemma OutsideUntouched(ss: seq<Seg>, payloadEnd: word)
    requires AllInRange(ss, payloadEnd)
    ensures forall k: int {:trigger Untouched(ss, k)} | RAM_BASE + k < PAYLOAD_BASE || payloadEnd <= RAM_BASE + k :: Untouched(ss, k)
  {
    forall k: int {:trigger Untouched(ss, k)} | RAM_BASE + k < PAYLOAD_BASE || payloadEnd <= RAM_BASE + k ensures Untouched(ss, k) {
      forall i | 0 <= i < |ss| ensures !Covers(ss[i], k) { SizeFits(ss[i], payloadEnd); }
    }
  }

  lemma DataCrcIs(data: seq<byte>)
    ensures Inv(Fold(0xffff_ffff, data)) as int == CrcWord(data)
  {
    assert Inv(0) == 0xffff_ffff;
  }

  /** Where the first magic stands, from k on. */
  function FirstMagic(s: seq<byte>, k: nat): (r: Option<nat>)
    ensures r.Some? ==> r.value + 4 <= |s|
    decreases |s| - k
  {
    if k + 4 > |s| then None else if MagicAt(s, k) then Some(k) else FirstMagic(s, k + 1)
  }

  /** The image that is loaded: what is in memory, or the line from its first magic on. */
  function Image(line: seq<Rx>, msrc: Option<nat>, ram: seq<byte>): (s: seq<byte>)
    requires msrc.Some? ==> msrc.value <= |ram|
  {
    if msrc.Some? then ram[msrc.value..] else
    var s := BytesOf(line);
    if FirstMagic(s, 0).Some? then s[FirstMagic(s, 0).value..] else []
  }

  lemma {:induction false} FirstMagicIs(s: seq<byte>, j: nat, k: nat)
    requires j <= k && MagicAt(s, k) && forall i: nat | i < k :: !MagicAt(s, i)
    ensures FirstMagic(s, j) == Some(k)
    decreases k - j
  {
    hide MagicAt;
    if k + 4 > |s| { PastTheEndOf(s, k); }
    if j < k { FirstMagicIs(s, j + 1, k); }
  }

  lemma {:induction false} NoMagic(s: seq<byte>, j: nat)
    requires forall i: nat :: !MagicAt(s, i)
    ensures FirstMagic(s, j) == None
    decreases |s| - j
  {
    hide MagicAt;
    if j + 4 <= |s| { NoMagic(s, j + 1); }
  }

  lemma HuntedIs(before: seq<Rx>, after: seq<Rx>, found: bool)
    requires |after| <= |before| && after == before[|before| - |after|..]
    requires found ==> |after| + 4 <= |before| && MagicAt(BytesOf(before), |before| - |after| - 4)
    requires found ==> forall k: nat | k < |before| - |after| - 4 :: !MagicAt(BytesOf(before), k)
    requires !found ==> forall k: nat :: !MagicAt(BytesOf(before), k)
    ensures found ==> forall ram :: Image(before, None, ram) == LeBytes(RVBI_MAGIC) + BytesOf(after)
    ensures !found ==> forall ram :: Image(before, None, ram) == []
  {
    var s := BytesOf(before);
    if found {
      var k := |before| - |after| - 4;
      FirstMagicIs(s, 0, k);
      assert LeBytes(RVBI_MAGIC) == MAGIC_BYTES;
      assert s[k..] == s[k..k + 4] + s[k + 4..];
      assert s[k + 4..] == BytesOf(after);
    } else {
      NoMagic(s, 0);
    }
  }

  lemma NothingIsCut(s: seq<byte>, payloadEnd: word, lineErr: bool, ram: seq<byte>)
    requires s == []
    ensures Checked(s, payloadEnd) == Cut == LoadResult(s, payloadEnd, lineErr) && Placed(s, payloadEnd, Cut, ram, ram)
  {
  }

  method PutWord(dst: array<byte>, w: word)
    requires dst.Length >= 4
    modifies dst
    ensures dst[0..4] == LeBytes(w)
  {
    var b := LeBytes(w);
    dst[0], dst[1], dst[2], dst[3] := b[0], b[1], b[2], b[3];
  }

  const BOOTMEM_ADDR: word := 0x8300_0000

  predicate ImageInMemory(ram: seq<byte>) {
    var o := BOOTMEM_ADDR - RAM_BASE;
    o + RVBI_HDR + DTB_AREA <= |ram| && Le32(ram, o) == RVBI_MAGIC
  }

  lemma PutIs(was: seq<byte>, s: Seg, data: seq<byte>, now: seq<byte>)
    requires InRam(s, |was|) && |data| == s.filesz && |now| == |was|
    requires var at, mid := s.addr - RAM_BASE, Spliced(was, s.addr - RAM_BASE, data);
             forall k | 0 <= k < |now| :: now[k] == if at + s.filesz as int <= k < at + s.memsz as int then 0 else mid[k]
    ensures now == Put(was, s, data)
  {
    forall k | 0 <= k < |now| ensures now[k] == Put(was, s, data)[k] { PutAt(was, s, data, k); }
  }

  lemma HeardNothing(line: seq<Rx>, e: bool)
    ensures Heard(line, line, e, e)
  {
  }

  lemma HeaderFields(s: seq<byte>, h: seq<byte>)
    requires |s| >= RVBI_HDR && h == s[..RVBI_HDR]
    ensures Le16(h, 4) == Le16(s, 4) && Le16(h, 6) == Le16(s, 6) && Le16(h, 16) == Le16(s, 16)
    ensures Le32(h, 0) == Le32(s, 0) && Le32(h, 8) == Le32(s, 8) && Le32(h, 20) == Le32(s, 20)
    ensures Le32(h, 24) == Le32(s, 24) && Le32(h, 28) == Le32(s, 28) && HeaderOk(h) == HeaderOk(s)
    ensures HeaderOk(s) ==> 1 <= Le16(s, 6) <= RVBI_MAX_SEGS && Le16(s, 16) <= MAX_CMD
  {
  }

  lemma SplicedFront(was: seq<byte>, data: seq<byte>)
    requires |data| <= |was|
    ensures Spliced(was, 0, data)[..|data|] == data
  {
  }

  /** The CRC folded while streaming is the one that rvbi_ok computes in three pieces. */
  lemma TableCrc(s: seq<byte>, m: nat, meta: nat)
    requires RVBI_HDR <= m <= meta <= |s|
    ensures Inv(Fold(Fold(Fold(Inv(0), s[..28] + Zeros(4)), s[RVBI_HDR..m]), s[m..meta])) as int == HeaderCrc(s, meta)
  {
    hide Fold, Inv;
    var a, b, c := s[..28] + Zeros(4), s[RVBI_HDR..m], s[m..meta];
    FoldConcat(Fold(Inv(0), a), b, c);
    FoldConcat(Inv(0), a, b + c);
    assert b + c == s[RVBI_HDR..meta];
  }

  /** The last four of the first i bytes, as a word; zeros before the first. */
  function Window(s: seq<byte>, i: nat): word
    requires i <= |s|
  {
    Le32(Zeros(4) + s[..i], i)
  }

  lemma WindowStart()
    ensures forall s: seq<byte> :: Window(s, 0) == 0
  {
  }

  lemma WindowMoves(s: seq<byte>, i: nat)
    requires i < |s|
    ensures Window(s, i + 1) == Window(s, i) / 0x100 + s[i] as int * 0x100_0000
  {
    var t, u := Zeros(4) + s[..i], Zeros(4) + s[..i + 1];
    assert u == t + [s[i]];
    assert u[i + 1] == t[i + 1] && u[i + 2] == t[i + 2] && u[i + 3] == t[i + 3];
    ShiftWord(t[i], t[i + 1], t[i + 2], t[i + 3]);
  }

  lemma ShiftWord(a: int, b: int, c: int, d: int)
    requires 0 <= a < 0x100 && 0 <= b < 0x100 && 0 <= c < 0x100 && 0 <= d < 0x100
    ensures (a + 0x100 * b + 0x1_0000 * c + 0x100_0000 * d) / 0x100 == b + 0x100 * c + 0x1_0000 * d
  {
  }

  /** The window is the magic exactly when the magic has just ended. */
  lemma WindowIsMagic(s: seq<byte>, i: nat)
    requires i <= |s|
    ensures Window(s, i) == RVBI_MAGIC <==> i >= 4 && MagicAt(s, i - 4)
  {
    var t := Zeros(4) + s[..i];
    FourBytes(t[i], t[i + 1], t[i + 2], t[i + 3]);
    if i >= 4 {
      assert t[i] == s[i - 4] && t[i + 1] == s[i - 3] && t[i + 2] == s[i - 2] && t[i + 3] == s[i - 1];
      assert s[i - 4..i] == [s[i - 4], s[i - 3], s[i - 2], s[i - 1]];
    } else {
      assert t[i] == 0;
    }
  }

  lemma FourBytes(a: int, b: int, c: int, d: int)
    requires 0 <= a < 0x100 && 0 <= b < 0x100 && 0 <= c < 0x100 && 0 <= d < 0x100
    ensures a + 0x100 * b + 0x1_0000 * c + 0x100_0000 * d == RVBI_MAGIC <==> a == 0x52 && b == 0x56 && c == 0x42 && d == 0x49
  {
  }

  lemma PastTheEndOf(s: seq<byte>, k: nat)
    requires k + 4 > |s|
    ensures !MagicAt(s, k)
  {
  }

  lemma NoErrs(line: seq<Rx>)
    ensures !AnyErr(line[..0])
  {
  }

  /** Four zero bytes into a running CRC. */
  method FoldZeros(crc: bv32) returns (c: bv32)
    ensures c == Fold(crc, Zeros(4))
  {
    hide Byte, Fold;
    c := crc;
    var i := 0;
    FoldNone(crc, Zeros(4));
    while i < 4
      invariant 0 <= i <= 4 && c == Fold(crc, Zeros(4)[..i])
    {
      FoldLast(crc, Zeros(4), i);
      c := CrcByte(c, 0);
      i := i + 1;
    }
    assert Zeros(4)[..4] == Zeros(4);
  }

  lemma CrcUndone(s: seq<byte>)
    ensures Inv(Crc32(0, s)) == Fold(Inv(0), s)
  {
    hide Fold, Inv;
    InvInv(Fold(Inv(0), s));
  }

  lemma SplicedTwice(was: seq<byte>, s: seq<byte>, now: seq<byte>)
    requires |was| == RVBI_HDR <= |s| && s[..4] == was[..4]
    requires now == Spliced(Spliced(was, 4, s[4..][..24]), 28, s[4..][24..][..4])
    ensures now == s[..RVBI_HDR]
  {
  }

  lemma FoldNone(crc: bv32, s: seq<byte>)
    ensures Fold(crc, s[..0]) == crc
  {
    assert s[..0] == [];
  }

  lemma FoldLast(crc: bv32, s: seq<byte>, i: nat)
    requires i < |s|
    ensures Fold(crc, s[..i + 1]) == Byte(Fold(crc, s[..i]), s[i])
  {
    hide Byte;
    assert s[..i + 1][..i] == s[..i];
  }

  lemma SplicedIs(was: seq<byte>, at: nat, data: seq<byte>, now: seq<byte>)
    requires |was| == |now| && at + |data| <= |was|
    requires forall k | 0 <= k < |now| :: now[k] == if at <= k < at + |data| then data[k - at] else was[k]
    ensures now == Spliced(was, at, data)
  {
  }

  lemma AnyErrLast(line: seq<Rx>, i: nat)
    requires i < |line|
    ensures AnyErr(line[..i + 1]) <==> AnyErr(line[..i]) || line[i].err
  {
    if line[i].err { assert line[..i + 1][i].err; }
    if AnyErr(line[..i]) {
      var k :| 0 <= k < i && line[..i][k].err;
      assert line[..i + 1][k].err;
    }
  }
}
