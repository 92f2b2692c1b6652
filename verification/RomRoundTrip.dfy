/** The ROM loads what the image writer packs. */
module RomRoundTrip {
  import opened Bytes
  import opened RomMap
  import opened Crc
  import opened BootBin
  import opened BootBuild
  import opened RomImage

  /** The table entry of a packed segment: it has no zeroed tail. */
  function Entry12(s: Segment): Seg
    requires |s.data| < WORD
  {
    Seg(s.addr, |s.data|, |s.data|)
  }

  predicate Sized(segs: seq<Segment>) { forall i | 0 <= i < |segs| :: |segs[i].data| < WORD }

  lemma {:induction false} TableReads(segs: seq<Segment>, i: nat)
    requires Sized(segs) && i < |segs|
    ensures SegAt(SegTable(segs), i) == Entry12(segs[i])
  {
    hide Le32, LeBytes;
    var t, rest, s := SegTable(segs), SegTable(segs[1..]), segs[0];
    var n: word := |s.data|;
    if i == 0 {
      assert t[0..4] == LeBytes(s.addr) && t[4..8] == LeBytes(n) && t[8..12] == LeBytes(n);
      Le32Slice(t, 0); Le32Slice(t, 4); Le32Slice(t, 8);
    } else {
      TableReads(segs[1..], i - 1);
      assert t[12..] == rest;
      var o := 12 * (i - 1);
      assert t[o + 12..o + 16] == rest[o..o + 4] && t[o + 16..o + 20] == rest[o + 4..o + 8] && t[o + 20..o + 24] == rest[o + 8..o + 12];
      Le32Slice(t, o + 12); Le32Slice(t, o + 16); Le32Slice(t, o + 20);
      Le32Slice(rest, o); Le32Slice(rest, o + 4); Le32Slice(rest, o + 8);
    }
  }

  lemma {:induction false} DataLast(segs: seq<Segment>, s: Segment)
    ensures SegData(segs + [s]) == SegData(segs) + s.data
  {
    if segs == [] { assert (segs + [s])[1..] == [] && [] + s.data == s.data; }
    else {
      assert (segs + [s])[1..] == segs[1..] + [s];
      DataLast(segs[1..], s);
    }
  }

  /** The first i segments' data come before the rest. */
  lemma {:induction false} SumIsData(segs: seq<Segment>, ss: seq<Seg>, i: nat)
    requires Sized(segs) && i <= |segs| == |ss| && forall k | 0 <= k < |ss| :: ss[k] == Entry12(segs[k])
    ensures FileSum(ss[..i]) == |SegData(segs[..i])|
  {
    if i > 0 {
      SumIsData(segs, ss, i - 1);
      assert ss[..i][..i - 1] == ss[..i - 1];
      assert segs[..i] == segs[..i - 1] + [segs[i - 1]];
      DataLast(segs[..i - 1], segs[i - 1]);
    }
  }

  lemma {:induction false} DataPrefix(segs: seq<Segment>, i: nat)
    requires i <= |segs|
    ensures SegData(segs[..i]) <= SegData(segs)
    decreases |segs| - i
  {
    if i == |segs| { assert segs[..i] == segs; }
    else {
      assert segs[..i + 1] == segs[..i] + [segs[i]];
      DataLast(segs[..i], segs[i]);
      DataPrefix(segs, i + 1);
    }
  }

  ghost predicate Fits(segs: seq<Segment>, payloadEnd: word) {
    forall i | 0 <= i < |segs| :: PAYLOAD_BASE <= segs[i].addr && segs[i].addr as int + |segs[i].data| <= payloadEnd
  }

  ghost predicate Enters(segs: seq<Segment>, entry: word) {
    exists i | 0 <= i < |segs| :: segs[i].addr <= entry < segs[i].addr as int + |segs[i].data|
  }

  /** Any packed image whose segments fit and hold the entry point is accepted, whatever
      follows it on the line. */
  lemma PackedImageLoads(entry: word, segs: seq<Segment>, cmdline: seq<byte>, payloadEnd: word, s: seq<byte>)
    requires Packable(segs, cmdline) && 1 <= |segs| <= RVBI_MAX_SEGS && |cmdline| <= MAX_CMD
    requires Fits(segs, payloadEnd) && Enters(segs, entry) && Rvbi(entry, segs, cmdline) <= s
    ensures LoadResult(s, payloadEnd, false) == Ok
    ensures |s| >= RVBI_HDR && |s| >= Meta(s) + |SegData(segs)| && SegsOf(s) == seq(|segs|, i requires 0 <= i < |segs| => Entry12(segs[i]))
    ensures FileSum(SegsOf(s)) == |SegData(segs)| && s[Meta(s)..Meta(s) + FileSum(SegsOf(s))] == SegData(segs)
  {
    hide Le32, Le16, CrcWord, Rvbi, Header, SegData, SegTable, InRange, Holds, SegAt, FileSum, FirstBad;
    RvbiParts(entry, segs, cmdline, s);
    assert Header(entry, segs, cmdline) <= s by { assert s[..28] == Header(entry, segs, cmdline); }
    HeaderReads(entry, segs, cmdline, s);
    var meta := Meta(s);
    assert meta == Meta3(segs, cmdline);
    var m := RVBI_HDR + RVBI_SEG * |segs|;
    assert s[RVBI_HDR..m] == s[RVBI_HDR..meta][..RVBI_SEG * |segs|] == SegTable(segs);
    PackedSegs(segs, s);
    var ss := SegsOf(s);
    SumIsData(segs, ss, |segs|);
    assert ss[..|segs|] == ss && segs[..|segs|] == segs;
    assert s[..28] + Zeros(4) + s[RVBI_HDR..meta] == Header(entry, segs, cmdline) + Zeros(4) + SegTable(segs) + cmdline;
    InRangeAll(segs, ss, payloadEnd, entry);
    assert Checked(s, payloadEnd) == SegVerdict(ss, |SegData(segs)|, entry, payloadEnd) == Ok;
  }

  lemma PackedSegs(segs: seq<Segment>, s: seq<byte>)
    requires Sized(segs) && |s| >= RVBI_HDR && Le16(s, 6) == |segs| && |s| >= Meta(s)
    requires s[RVBI_HDR..RVBI_HDR + RVBI_SEG * |segs|] == SegTable(segs)
    ensures SegsOf(s) == seq(|segs|, i requires 0 <= i < |segs| => Entry12(segs[i]))
  {
    hide Le16, SegAt, SegTable;
    var ss := SegsOf(s);
    forall i | 0 <= i < |segs| ensures ss[i] == Entry12(segs[i]) {
      assert ss[i] == SegAt(SegTable(segs), i);
      TableReads(segs, i);
    }
  }

  lemma InRangeAll(segs: seq<Segment>, ss: seq<Seg>, payloadEnd: word, entry: word)
    requires Sized(segs) && |ss| == |segs| && forall i | 0 <= i < |ss| :: ss[i] == Entry12(segs[i])
    requires Fits(segs, payloadEnd) && Enters(segs, entry)
    ensures AllInRange(ss, payloadEnd) && EntryOk(ss, entry)
  {
    var k :| 0 <= k < |segs| && segs[k].addr <= entry < segs[k].addr as int + |segs[k].data|;
    assert Holds(ss[k], entry);
  }

  /** Byte j of segment i is where it belongs, unless a later segment lies over it. */
  lemma {:induction false} PackedSegmentInPlace(ram: seq<byte>, segs: seq<Segment>, ss: seq<Seg>, i: nat, j: nat)
    requires Sized(segs) && |ss| == |segs| && forall k | 0 <= k < |ss| :: ss[k] == Entry12(segs[k])
    requires AllInRam(ss, |ram|) && i < |segs| && j < |segs[i].data|
    requires forall k | i < k < |ss| :: !Covers(ss[k], segs[i].addr - RAM_BASE + j)
    ensures |SegData(segs)| == FileSum(ss) && 0 <= segs[i].addr - RAM_BASE + j < |ram|
    ensures Loaded(ram, ss, SegData(segs))[segs[i].addr - RAM_BASE + j] == segs[i].data[j]
  {
    hide SegData, Loaded;
    assert InRam(ss[i], |ram|);
    SumIsData(segs, ss, |segs|);
    assert ss[..|segs|] == ss && segs[..|segs|] == segs;
    SumIsData(segs, ss, i);
    LoadedSegment(ram, ss, SegData(segs), i, segs[i].addr - RAM_BASE + j);
    assert segs[..i + 1] == segs[..i] + [segs[i]];
    DataLast(segs[..i], segs[i]);
    DataPrefix(segs, i + 1);
  }
}
