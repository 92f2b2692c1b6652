/** What the boot ROM accepts as an image, and what an accepted image does to RAM. */
module RomImage {
  import opened Bytes
  import opened RomMap
  import opened Crc
  import opened BootBin

  const RVBI_VERSION := 1
  const MAX_CMD := 255

  /** struct rvbi_seg */
  datatype Seg = Seg(addr: word, filesz: word, memsz: word)

  /** What load_image returns; Cut where it would wait, or fault, for more bytes. */
  datatype Result = Ok | BadHdr | HdrCrc | Range(bad: nat) | Sizes | Entry | Line | DataCrc | Cut

  function SegAt(table: seq<byte>, i: nat): Seg
    requires 12 * i + 12 <= |table|
  {
    Seg(Le32(table, 12 * i), Le32(table, 12 * i + 4), Le32(table, 12 * i + 8))
  }

  function Segs(table: seq<byte>, n: nat): (ss: seq<Seg>)
    requires 12 * n <= |table|
    ensures |ss| == n && forall i | 0 <= i < n :: ss[i] == SegAt(table, i)
  {
    seq(n, i requires 0 <= i < n => SegAt(table, i))
  }

  /** The end of a segment, in 32 bits. */
  function End(s: Seg): word { (s.addr as int + s.memsz as int) % WORD }

  predicate InRange(s: Seg, payloadEnd: word) {
    s.filesz <= s.memsz && s.addr <= End(s) && PAYLOAD_BASE <= s.addr && End(s) <= payloadEnd
  }

  predicate AllInRange(ss: seq<Seg>, payloadEnd: word) { forall i | 0 <= i < |ss| :: InRange(ss[i], payloadEnd) }

  /** The sum of the file sizes, and the 32-bit total the ROM keeps. */
  function FileSum(ss: seq<Seg>): nat { if ss == [] then 0 else FileSum(ss[..|ss| - 1]) + ss[|ss| - 1].filesz }

  function Total(ss: seq<Seg>): word { FileSum(ss) % WORD }

  predicate Holds(s: Seg, entry: word) { s.addr <= entry < s.addr as int + s.filesz as int }

  predicate EntryOk(ss: seq<Seg>, entry: word) { exists i | 0 <= i < |ss| :: Holds(ss[i], entry) }

  predicate HeaderOk(h: seq<byte>)
    requires |h| >= RVBI_HDR
  {
    && Le32(h, 0) == RVBI_MAGIC && Le16(h, 4) == RVBI_VERSION
    && 1 <= Le16(h, 6) <= RVBI_MAX_SEGS && Le16(h, 16) <= MAX_CMD
  }

  /** The segments of an image whose header is acceptable. */
  function SegsOf(s: seq<byte>): (ss: seq<Seg>)
    requires |s| >= RVBI_HDR && |s| >= Meta(s)
    ensures |ss| == Le16(s, 6)
  {
    Segs(s[RVBI_HDR..RVBI_HDR + RVBI_SEG * Le16(s, 6)], Le16(s, 6))
  }

  /** The first segment outside the payload area. */
  function FirstBad(ss: seq<Seg>, payloadEnd: word): (i: nat)
    ensures i <= |ss| && (i == |ss| <==> AllInRange(ss, payloadEnd))
    ensures i < |ss| ==> !InRange(ss[i], payloadEnd) && AllInRange(ss[..i], payloadEnd)
  {
    if ss == [] then 0 else
    var n := |ss| - 1;
    var i := FirstBad(ss[..n], payloadEnd);
    if i < n then assert ss[..n][..i] == ss[..i]; i else if InRange(ss[n], payloadEnd) then |ss| else n
  }

  function SegVerdict(ss: seq<Seg>, dataSize: word, entry: word, payloadEnd: word): Result {
    if FirstBad(ss, payloadEnd) < |ss| then Range(FirstBad(ss, payloadEnd))
    else if Total(ss) != dataSize then Sizes
    else if !EntryOk(ss, entry) then Entry
    else Ok
  }

  /** Everything that is checked before the first byte is written. */
  function Checked(s: seq<byte>, payloadEnd: word): (r: Result)
    ensures r == Ok ==> |s| >= RVBI_HDR && |s| >= Meta(s) && AllInRange(SegsOf(s), payloadEnd)
  {
    if |s| < RVBI_HDR then Cut
    else if !HeaderOk(s) then BadHdr
    else if |s| < Meta(s) then Cut
    else if HeaderCrc(s, Meta(s)) != Le32(s, 28) then HdrCrc
    else SegVerdict(SegsOf(s), Le32(s, 20), Le32(s, 8), payloadEnd)
  }

  /** What load_image returns for the bytes s from the magic on. */
  function LoadResult(s: seq<byte>, payloadEnd: word, lineErr: bool): (r: Result) {
    if Checked(s, payloadEnd) != Ok then Checked(s, payloadEnd) else
    var meta, n := Meta(s), FileSum(SegsOf(s));
    if |s| < meta + n then Cut
    else if lineErr then Line
    else if CrcWord(s[meta..meta + n]) != Le32(s, 24) then DataCrc
    else Ok
  }

  // ---- the size sum ----

  lemma {:induction false} SumAtMost(ss: seq<Seg>, most: nat)
    requires forall i | 0 <= i < |ss| :: ss[i].filesz <= most
    ensures FileSum(ss) <= |ss| * most
  {
    if ss != [] {
      var n := |ss| - 1;
      SumAtMost(ss[..n], most);
      assert |ss| * most == n * most + most;
    }
  }

  /** The 32-bit total is the true sum for every segment table that passes the range check
      exactly when eight payload areas are less than 4 GiB. */
  lemma TotalNeverWraps(payloadEnd: word)
    requires PAYLOAD_BASE <= payloadEnd
    ensures (forall ss: seq<Seg> | |ss| <= RVBI_MAX_SEGS && AllInRange(ss, payloadEnd) :: Total(ss) == FileSum(ss))
            <==> 8 * (payloadEnd - PAYLOAD_BASE) < WORD
  {
    hide Total, AllInRange;
    if 8 * (payloadEnd - PAYLOAD_BASE) < WORD {
      forall ss: seq<Seg> | |ss| <= RVBI_MAX_SEGS && AllInRange(ss, payloadEnd) ensures Total(ss) == FileSum(ss) {
        SmallTotal(ss, payloadEnd);
      }
    } else {
      BigTotal(payloadEnd);
    }
  }

  lemma SmallTotal(ss: seq<Seg>, payloadEnd: word)
    requires |ss| <= RVBI_MAX_SEGS && AllInRange(ss, payloadEnd)
    requires PAYLOAD_BASE <= payloadEnd && 8 * (payloadEnd - PAYLOAD_BASE) < WORD
    ensures Total(ss) == FileSum(ss)
  {
    hide InRange, FileSum;
    var area: nat := payloadEnd - PAYLOAD_BASE;
    forall i | 0 <= i < |ss| ensures ss[i].filesz <= area { SizeFits(ss[i], payloadEnd); }
    SumAtMost(ss, area);
    assert |ss| * area <= 8 * area;
  }

  /** Eight segments that each fill the payload area. */
  lemma BigTotal(payloadEnd: word)
    requires PAYLOAD_BASE <= payloadEnd && 8 * (payloadEnd - PAYLOAD_BASE) >= WORD
    ensures exists ss: seq<Seg> :: |ss| <= RVBI_MAX_SEGS && AllInRange(ss, payloadEnd) && Total(ss) != FileSum(ss)
  {
    hide FileSum;
    var area := payloadEnd - PAYLOAD_BASE;
    var one := Seg(PAYLOAD_BASE, area, area);
    var eight := seq(8, _ => one);
    assert AllInRange(eight, payloadEnd);
    SumRepeats(one, 8);
    assert FileSum(eight) >= WORD > Total(eight);
  }

  lemma SizeFits(s: Seg, payloadEnd: word)
    requires InRange(s, payloadEnd)
    ensures s.addr as int + s.memsz as int == End(s) && s.filesz as int <= payloadEnd as int - PAYLOAD_BASE
  {
  }

  lemma {:induction false} SumRepeats(one: Seg, n: nat)
    ensures FileSum(seq(n, _ => one)) == n * one.filesz as int
  {
    if n > 0 {
      SumRepeats(one, n - 1);
      assert seq(n, _ => one)[..n - 1] == seq(n - 1, _ => one);
    }
  }

  // ---- what loading does to RAM ----

  /** Where a segment lies in RAM. */
  predicate Covers(s: Seg, k: int) { s.addr as int <= RAM_BASE + k < s.addr as int + s.memsz as int }

  predicate InRam(s: Seg, size: nat) {
    RAM_BASE <= s.addr && s.addr as int + s.memsz as int <= RAM_BASE + size && s.filesz <= s.memsz
  }

  predicate AllInRam(ss: seq<Seg>, size: nat) { forall i | 0 <= i < |ss| :: InRam(ss[i], size) }

  /** One segment put in place: its file bytes, then zeros. */
  function Put(ram: seq<byte>, s: Seg, data: seq<byte>): (r: seq<byte>)
    requires InRam(s, |ram|) && |data| == s.filesz
    ensures |r| == |ram|
  {
    Spliced(ram, s.addr - RAM_BASE, data + Zeros(s.memsz - s.filesz))
  }

  /** All segments put in place, in order. */
  function Loaded(ram: seq<byte>, ss: seq<Seg>, data: seq<byte>): (r: seq<byte>)
    requires AllInRam(ss, |ram|) && |data| == FileSum(ss)
    ensures |r| == |ram|
    decreases |ss|
  {
    if ss == [] then ram else
    var n := |ss| - 1;
    var k := FileSum(ss[..n]);
    Put(Loaded(ram, ss[..n], data[..k]), ss[n], data[k..])
  }

  lemma PutAt(ram: seq<byte>, s: Seg, data: seq<byte>, k: nat)
    requires InRam(s, |ram|) && |data| == s.filesz && k < |ram|
    ensures Put(ram, s, data)[k] ==
            if !Covers(s, k) then ram[k]
            else if RAM_BASE + k - s.addr < s.filesz then data[RAM_BASE + k - s.addr] else 0
  {
  }

  /** Only the segments are written. */
  lemma {:induction false} LoadedElsewhere(ram: seq<byte>, ss: seq<Seg>, data: seq<byte>, k: nat)
    requires AllInRam(ss, |ram|) && |data| == FileSum(ss) && k < |ram|
    requires forall i | 0 <= i < |ss| :: !Covers(ss[i], k)
    ensures Loaded(ram, ss, data)[k] == ram[k]
    decreases |ss|
  {
    hide Covers, Put, InRam;
    if ss != [] {
      var n := |ss| - 1;
      var m := FileSum(ss[..n]);
      LoadedElsewhere(ram, ss[..n], data[..m], k);
      PutAt(Loaded(ram, ss[..n], data[..m]), ss[n], data[m..], k);
    }
  }

  /** Each segment holds its file bytes and then zeros, except where a later one lies over it. */
  lemma {:induction false} LoadedSegment(ram: seq<byte>, ss: seq<Seg>, data: seq<byte>, i: nat, k: nat)
    requires AllInRam(ss, |ram|) && |data| == FileSum(ss) && k < |ram| && i < |ss|
    requires Covers(ss[i], k) && forall j | i < j < |ss| :: !Covers(ss[j], k)
    ensures FileSum(ss[..i]) + ss[i].filesz <= |data|
    ensures Loaded(ram, ss, data)[k] ==
            if RAM_BASE + k - ss[i].addr < ss[i].filesz then data[FileSum(ss[..i]) + (RAM_BASE + k - ss[i].addr)] else 0
    decreases |ss|
  {
    hide Put, InRam;
    var n := |ss| - 1;
    var m := FileSum(ss[..n]);
    PutAt(Loaded(ram, ss[..n], data[..m]), ss[n], data[m..], k);
    if i < n {
      LoadedSegment(ram, ss[..n], data[..m], i, k);
      assert ss[..n][..i] == ss[..i];
    }
  }

  /** An accepted image never touches the firmware's own RAM, nor anything from the end of
      the payload area on. */
  lemma LoadedStaysInside(ram: seq<byte>, ss: seq<Seg>, data: seq<byte>, payloadEnd: word, k: nat)
    requires AllInRange(ss, payloadEnd) && payloadEnd <= RAM_BASE + |ram| && |data| == FileSum(ss) && k < |ram|
    requires RAM_BASE + k < PAYLOAD_BASE || payloadEnd <= RAM_BASE + k
    ensures AllInRam(ss, |ram|) && Loaded(ram, ss, data)[k] == ram[k]
  {
    RangeInside(ss, payloadEnd, |ram|);
    forall i | 0 <= i < |ss| ensures !Covers(ss[i], k) { SizeFits(ss[i], payloadEnd); }
    LoadedElsewhere(ram, ss, data, k);
  }

  lemma RangeInside(ss: seq<Seg>, payloadEnd: word, size: nat)
    requires AllInRange(ss, payloadEnd) && payloadEnd <= RAM_BASE + size
    ensures AllInRam(ss, size)
  {
    forall i | 0 <= i < |ss| ensures InRam(ss[i], size) { SizeFits(ss[i], payloadEnd); }
  }

  // ---- bursts ----

  /** Two images with the same header, table and command line, whose data differ only in
      one window of up to four bytes, are never both accepted. */
  lemma BurstIsRefused(head: seq<byte>, before: seq<byte>, u: seq<byte>, v: seq<byte>, after: seq<byte>, rest: seq<byte>, pe: word)
    requires |u| == |v| <= 4 && u != v && RVBI_HDR <= |head| && |head| == Meta(head)
    requires |before| + |u| + |after| == FileSum(SegsOf(head))
    ensures LoadResult(head + (before + u + after) + rest, pe, false) == Ok ==>
            LoadResult(head + (before + v + after) + rest, pe, false) == DataCrc
  {
    hide Le32, Le16, CrcWord, Checked;
    var a, b := head + (before + u + after) + rest, head + (before + v + after) + rest;
    SameHead(head, a, pe);
    SameHead(head, b, pe);
    var m, n := |head|, FileSum(SegsOf(head));
    assert a[m..m + n] == before + u + after && b[m..m + n] == before + v + after;
    if CrcWord(before + u + after) == CrcWord(before + v + after) {
      CrcWordInjective(before + u + after, before + v + after);
      BurstChangesCrc(0, before, u, v, after);
    }
  }

  /** The checks before the data only look at the head. */
  lemma SameHead(head: seq<byte>, s: seq<byte>, pe: word)
    requires RVBI_HDR <= |head| && |head| == Meta(head) && head <= s
    ensures Meta(s) == |head| && Le32(s, 24) == Le32(head, 24) && SegsOf(s) == SegsOf(head)
    ensures Checked(s, pe) == Checked(head, pe)
  {
    hide HeaderCrc, CrcWord, SegAt;
    assert s[..|head|] == head;
    assert forall i {:trigger s[i]} | 0 <= i < |head| :: s[i] == head[i];
    assert s[RVBI_HDR..RVBI_HDR + RVBI_SEG * Le16(s, 6)] == head[RVBI_HDR..RVBI_HDR + RVBI_SEG * Le16(head, 6)];
    HeadCrc(head, s);
  }

  lemma HeadCrc(head: seq<byte>, s: seq<byte>)
    requires RVBI_HDR <= |head| <= |s| && head == s[..|head|]
    ensures HeaderCrc(s, |head|) == HeaderCrc(head, |head|)
  {
    hide CrcWord;
    assert s[..28] == head[..28] && s[RVBI_HDR..|head|] == head[RVBI_HDR..|head|];
  }
}
