/** The writer of BOOT.BIN and RVBI images that the host tests use, and the round trip
    through the parser. */
module BootBuild {
  import opened Basics
  import opened Bytes
  import opened Crc
  import opened BootBin

  // ---- an RVBI image ----

  datatype Segment = Segment(addr: word, data: seq<byte>)

  function SegData(segs: seq<Segment>): seq<byte> {
    if segs == [] then [] else segs[0].data + SegData(segs[1..])
  }

  function SegTable(segs: seq<Segment>): (t: seq<byte>)
    requires forall i | 0 <= i < |segs| :: |segs[i].data| < WORD
    ensures |t| == RVBI_SEG * |segs|
  {
    if segs == [] then [] else
    LeBytes(segs[0].addr) + LeBytes(|segs[0].data|) + LeBytes(|segs[0].data|) + SegTable(segs[1..])
  }

  /** What struct.pack accepts. */
  predicate Packable(segs: seq<Segment>, cmdline: seq<byte>) {
    && |segs| < 0x1_0000 && |cmdline| < 0x1_0000 && |SegData(segs)| < WORD
    && forall i | 0 <= i < |segs| :: |segs[i].data| < WORD
  }

  /** A value to be packed as a little-endian half word (H) or word (I). */
  datatype Field = H(h: word) | I(w: word)

  function Size(f: Field): nat { if f.H? then 2 else 4 }

  predicate FieldsOk(fs: seq<Field>) { forall i | 0 <= i < |fs| :: fs[i].H? ==> fs[i].h < 0x1_0000 }

  function FieldBytes(f: Field): (b: seq<byte>)
    requires f.H? ==> f.h < 0x1_0000
    ensures |b| == Size(f)
  {
    if f.H? then LeBytes16(f.h) else LeBytes(f.w)
  }

  function Offset(fs: seq<Field>, i: nat): nat
    requires i <= |fs|
  {
    if i == 0 then 0 else Offset(fs, i - 1) + Size(fs[i - 1])
  }

  /** struct.pack */
  function Pack(fs: seq<Field>): seq<byte>
    requires FieldsOk(fs)
  {
    if fs == [] then [] else Pack(fs[..|fs| - 1]) + FieldBytes(fs[|fs| - 1])
  }

  lemma {:induction false} PackPrefix(fs: seq<Field>, n: nat)
    requires FieldsOk(fs) && n <= |fs|
    ensures |Pack(fs[..n])| == Offset(fs, n)
    ensures Pack(fs[..n]) <= Pack(fs)
    decreases |fs|, n
  {
    if n > 0 {
      PackPrefix(fs, n - 1);
      assert fs[..n][..n - 1] == fs[..n - 1];
    }
    if n == |fs| { assert fs[..n] == fs; }
    else {
      PackPrefix(fs[..|fs| - 1], n);
      assert fs[..|fs| - 1][..n] == fs[..n];
    }
  }

  lemma PackStep(fs: seq<Field>, i: nat)
    requires FieldsOk(fs) && i < |fs|
    ensures Pack(fs[..i + 1]) == Pack(fs[..i]) + FieldBytes(fs[i])
  {
    hide FieldBytes;
    assert fs[..i + 1][..i] == fs[..i];
  }

  lemma FieldSlice(fs: seq<Field>, i: nat, p: seq<byte>)
    requires FieldsOk(fs) && i < |fs| && Pack(fs) <= p
    ensures var o := Offset(fs, i); o + Size(fs[i]) <= |p| && p[o..o + Size(fs[i])] == FieldBytes(fs[i])
  {
    hide Pack, Offset, FieldBytes;
    PackPrefix(fs, i);
    PackPrefix(fs, i + 1);
    PackStep(fs, i);
    MiddleSlice(Pack(fs[..i]), FieldBytes(fs[i]), Pack(fs), p);
  }

  /** A packed value is read back at its offset. */
  lemma FieldAt(fs: seq<Field>, i: nat, p: seq<byte>)
    requires FieldsOk(fs) && i < |fs| && Pack(fs) <= p
    ensures var o := Offset(fs, i);
      && o + Size(fs[i]) <= |p|
      && (if fs[i].H? then Le16(p, o) == fs[i].h else Le32(p, o) == fs[i].w)
  {
    hide Le32, Le16, LeBytes, LeBytes16, Pack, Offset;
    FieldSlice(fs, i, p);
    if fs[i].H? { Le16Slice(p, Offset(fs, i)); } else { Le32Slice(p, Offset(fs, i)); }
  }

  function HeaderFields(entry: word, segs: seq<Segment>, cmdline: seq<byte>): (fs: seq<Field>)
    requires Packable(segs, cmdline)
    ensures FieldsOk(fs)
  {
    [I(RVBI_MAGIC), H(1), H(|segs|), I(entry), I(0), H(|cmdline|), H(0), I(|SegData(segs)|), I(CrcWord(SegData(segs)))]
  }

  lemma HeaderOffsets(fs: seq<Field>)
    requires |fs| == 9 && fs[0].I? && fs[1].H? && fs[2].H? && fs[3].I? && fs[4].I? && fs[5].H? && fs[6].H? && fs[7].I? && fs[8].I?
    ensures Offset(fs, 0) == 0 && Offset(fs, 1) == 4 && Offset(fs, 2) == 6 && Offset(fs, 3) == 8
    ensures Offset(fs, 5) == 16 && Offset(fs, 7) == 20 && Offset(fs, 8) == 24 && Offset(fs, 9) == 28
  {
    assert Offset(fs, 1) == 4;
    assert Offset(fs, 2) == 6;
    assert Offset(fs, 3) == 10 - 2;
    assert Offset(fs, 4) == 12;
    assert Offset(fs, 6) == 18;
    assert Offset(fs, 8) == 24;
  }

  /** The header up to the CRC field. */
  function Header(entry: word, segs: seq<Segment>, cmdline: seq<byte>): seq<byte>
    requires Packable(segs, cmdline)
  {
    Pack(HeaderFields(entry, segs, cmdline))
  }

  /** rvbi() */
  function Rvbi(entry: word, segs: seq<Segment>, cmdline: seq<byte>): seq<byte>
    requires Packable(segs, cmdline)
  {
    var hdr := Header(entry, segs, cmdline);
    hdr + LeBytes(CrcWord(hdr + Zeros(4) + SegTable(segs) + cmdline)) + SegTable(segs) + cmdline + SegData(segs)
  }

  lemma HeaderReads(entry: word, segs: seq<Segment>, cmdline: seq<byte>, p: seq<byte>)
    requires Packable(segs, cmdline) && Header(entry, segs, cmdline) <= p
    ensures |Header(entry, segs, cmdline)| == 28
    ensures Le32(p, 0) == RVBI_MAGIC && Le16(p, 4) == 1 && Le16(p, 6) == |segs| && Le32(p, 8) == entry
    ensures Le16(p, 16) == |cmdline|
    ensures Le32(p, 20) == |SegData(segs)| && Le32(p, 24) == CrcWord(SegData(segs))
  {
    var fs := HeaderFields(entry, segs, cmdline);
    hide CrcWord, SegData, Le32, Le16, Pack, Offset;
    HeaderOffsets(fs);
    PackPrefix(fs, 9);
    assert fs[..9] == fs;
    FieldAt(fs, 0, p); FieldAt(fs, 1, p); FieldAt(fs, 2, p); FieldAt(fs, 3, p);
    FieldAt(fs, 5, p); FieldAt(fs, 7, p); FieldAt(fs, 8, p);
  }

  /** The size of header, segment table and command line. */
  function Meta3(segs: seq<Segment>, cmdline: seq<byte>): nat { RVBI_HDR + RVBI_SEG * |segs| + |cmdline| }

  /** Where the parts of an RVBI image lie. */
  lemma RvbiParts(entry: word, segs: seq<Segment>, cmdline: seq<byte>, p: seq<byte>)
    requires Packable(segs, cmdline) && Rvbi(entry, segs, cmdline) <= p
    ensures |Rvbi(entry, segs, cmdline)| == Meta3(segs, cmdline) + |SegData(segs)| <= |p|
    ensures p[..28] == Header(entry, segs, cmdline)
    ensures p[RVBI_HDR..Meta3(segs, cmdline)] == SegTable(segs) + cmdline
    ensures p[Meta3(segs, cmdline)..Meta3(segs, cmdline) + |SegData(segs)|] == SegData(segs)
    ensures Le32(p, 28) == CrcWord(Header(entry, segs, cmdline) + Zeros(4) + SegTable(segs) + cmdline)
  {
    hide CrcWord, Header, SegTable, SegData, LeBytes, Le32;
    var r, hdr := Rvbi(entry, segs, cmdline), Header(entry, segs, cmdline);
    HeaderReads(entry, segs, cmdline, hdr);
    var table, data := SegTable(segs), SegData(segs);
    var crc := LeBytes(CrcWord(hdr + Zeros(4) + table + cmdline));
    Split5(hdr, crc, table, cmdline, data, p);
    assert |hdr| + |crc| == 32 && |hdr| + |crc| + |table| + |cmdline| == Meta3(segs, cmdline);
    assert |r| == Meta3(segs, cmdline) + |data|;
    assert p[28..32] == crc;
    Le32Slice(p, 28);
  }

  lemma Split5(a: seq<byte>, b: seq<byte>, c: seq<byte>, d: seq<byte>, e: seq<byte>, p: seq<byte>)
    requires a + b + c + d + e <= p
    ensures var n, m := |a| + |b|, |a| + |b| + |c| + |d|;
      && p[..|a|] == a && p[|a|..n] == b && p[n..m] == c + d && p[m..m + |e|] == e
  {
    var r := a + b + c + d + e;
    assert p[..|r|] == r;
    assert r[..|a|] == a && r[|a|..|a| + |b|] == b;
  }

  /** An image made by rvbi() is recognised, with its exact size, whatever follows it. */
  lemma RvbiIsRecognised(entry: word, segs: seq<Segment>, cmdline: seq<byte>, p: seq<byte>)
    requires Packable(segs, cmdline) && 1 <= |segs| <= RVBI_MAX_SEGS && Rvbi(entry, segs, cmdline) <= p
    ensures RvbiSize(p) == Some(|Rvbi(entry, segs, cmdline)|)
  {
    hide CrcWord, Le32, Le16, Header, Rvbi, SegTable, SegData;
    RvbiParts(entry, segs, cmdline, p);
    assert Header(entry, segs, cmdline) <= p by { assert p[..28] == Header(entry, segs, cmdline); }
    HeaderReads(entry, segs, cmdline, p);
    var meta := Meta(p);
    assert meta == Meta3(segs, cmdline);
    assert p[..28] + Zeros(4) + p[RVBI_HDR..meta] == Header(entry, segs, cmdline) + Zeros(4) + SegTable(segs) + cmdline;
  }

  // ---- a BOOT.BIN ----

  const IMG_HDR_OFF := 0x8c0
  const PART_HDR_OFF := 0xc80
  const BINS_OFF := 0x1700
  const FIRST_IMG := 0x900
  const ATTR_PS: word := 0x10
  const ATTR_PL: word := 0x20
  const ATTR_GENERAL: word := 1

  datatype Part = Part(attr: word, payload: seq<byte>)

  /** How many units of the given size hold n bytes. */
  function Units(n: nat, unit: nat): (k: nat)
    requires unit > 0
  {
    (n + unit - 1) / unit
  }

  /** words_le() */
  function Words(payload: seq<byte>): (w: seq<byte>)
    ensures |w| == 4 * Units(|payload|, 4) && payload <= w
  {
    payload + Ones(4 * Units(|payload|, 4) - |payload|)
  }

  /** A payload as it is stored, up to the next 64-byte bound. */
  function Stored(payload: seq<byte>): (w: seq<byte>)
    ensures |w| == 64 * Units(|Words(payload)|, 64) && Words(payload) <= w
  {
    Words(payload) + Ones(64 * Units(|Words(payload)|, 64) - |Words(payload)|)
  }

  function PartsData(parts: seq<Part>): seq<byte> {
    if parts == [] then [] else PartsData(parts[..|parts| - 1]) + Stored(parts[|parts| - 1].payload)
  }

  /** Where partition i starts, in bytes. */
  function Start(parts: seq<Part>, i: nat): (o: nat)
    requires i <= |parts|
  {
    BINS_OFF + |PartsData(parts[..i])|
  }

  function PartsUnits(parts: seq<Part>): nat {
    if parts == [] then 0 else PartsUnits(parts[..|parts| - 1]) + Units(|Words(parts[|parts| - 1].payload)|, 64)
  }

  lemma {:induction false} PartsAligned(parts: seq<Part>)
    ensures |PartsData(parts)| == 64 * PartsUnits(parts)
  {
    hide Stored, Words, Units;
    if parts != [] { PartsAligned(parts[..|parts| - 1]); }
  }

  lemma {:induction false} DataAt(parts: seq<Part>, n: nat, i: nat)
    requires i < n <= |parts|
    ensures Start(parts, i) + |Words(parts[i].payload)| <= Start(parts, n)
    ensures PartsData(parts[..n])[Start(parts, i) - BINS_OFF..][..|Words(parts[i].payload)|] == Words(parts[i].payload)
  {
    hide Words, Stored;
    var before, last := parts[..n - 1], Stored(parts[n - 1].payload);
    assert parts[..n][..n - 1] == before;
    assert PartsData(parts[..n]) == PartsData(before) + last;
    if i < n - 1 { DataAt(parts, n - 1, i); }
    else { assert Words(parts[i].payload) <= last; }
  }

  /** The words of partition header i: [6:4] of word 6 is the destination, word 15 the checksum. */
  function PartitionWords(parts: seq<Part>, i: nat): (ws: seq<int>)
    requires i < |parts|
    ensures |ws| == 15
  {
    var nw := |Words(parts[i].payload)| / 4;
    [nw, nw, nw, 0, 0, Start(parts, i) / 4, parts[i].attr, 1, 0, (FIRST_IMG + 64 * i) / 4, 0, 0, 0, 0, 0]
  }

  function Sum(ws: seq<int>): int { if ws == [] then 0 else Sum(ws[..|ws| - 1]) + ws[|ws| - 1] }

  function Checksum(ws: seq<int>): word { WORD - 1 - Sum(ws) % WORD }

  /** The image is one that the writer can pack and the parser's size can hold. */
  predicate Buildable(parts: seq<Part>) {
    1 <= |parts| <= MAX_PARTS && Start(parts, |parts|) < WORD
  }

  /** What build() leaves in the words that the parser looks at, and behind the headers. */
  ghost predicate Built(parts: seq<Part>, base: seq<byte>)
    requires Buildable(parts)
  {
    |base| == Start(parts, |parts|) && HeadersOk(parts, base) && base[BINS_OFF..] == PartsData(parts)
  }

  ghost predicate HeadersOk(parts: seq<Part>, base: seq<byte>)
    requires |parts| <= MAX_PARTS && |base| >= BINS_OFF
  {
    && Le32(base, BH_WIDTH) == WIDTH_DETECT && Le32(base, BH_ID) == ID_XNLX
    && Le32(base, BH_IMG_TAB) == IMG_HDR_OFF && Le32(base, BH_PART_TAB) == PART_HDR_OFF
    && Le32(base, IMG_HDR_OFF + 4) == |parts|
    && (forall i | 0 <= i < |parts| :: HeaderAt(parts, base, i))
  }

  ghost predicate HeaderAt(parts: seq<Part>, base: seq<byte>, i: nat)
    requires i < |parts| <= MAX_PARTS && |base| >= BINS_OFF
  {
    var ws := PartitionWords(parts, i);
    WordsAt(base, PART_HDR_OFF + 64 * i, ws + [Checksum(ws)])
  }

  /** The given words stand at offset o. */
  ghost predicate WordsAt(s: seq<byte>, o: nat, ws: seq<int>)
    requires o + 4 * |ws| <= |s|
  {
    forall k | 0 <= k < |ws| :: Le32(s, o + 4 * k) == ws[k]
  }

  lemma {:induction false} SumAgrees(base: seq<byte>, h: nat, ws: seq<int>, k: nat)
    requires k <= |ws| && h + 4 * k <= |base| && forall j | 0 <= j < k :: Le32(base, h + 4 * j) == ws[j]
    ensures WordSum(base, h, k) == Sum(ws[..k]) % WORD
  {
    hide Le32;
    if k > 0 {
      SumAgrees(base, h, ws, k - 1);
      assert ws[..k][..k - 1] == ws[..k - 1];
    }
  }

  /** What the parser must find in the first i parts. */
  function FoundIn(parts: seq<Part>, i: nat): Found
    requires i <= |parts|
  {
    if i == 0 then NOTHING else
    var p := parts[i - 1];
    TakePartition(FoundIn(parts, i - 1), |Words(p.payload)| / 4, Start(parts, i - 1) / 4, p.attr, Words(p.payload))
  }

  lemma PartitionReads(parts: seq<Part>, base: seq<byte>, i: nat)
    requires Buildable(parts) && Built(parts, base) && i < |parts|
    ensures var h := PART_HDR_OFF + 64 * i;
      && ChecksumOk(base, h)
      && Le32(base, h + 4) == |Words(parts[i].payload)| / 4 && Le32(base, h + 20) == Start(parts, i) / 4
      && Le32(base, h + 24) == parts[i].attr
  {
    hide Le32, PartsData, Words;
    assert HeaderAt(parts, base, i);
    var h, ws := PART_HDR_OFF + 64 * i, PartitionWords(parts, i);
    var all := ws + [Checksum(ws)];
    forall j | 0 <= j < 15 ensures Le32(base, h + 4 * j) == ws[j] { assert all[j] == ws[j]; }
    SumAgrees(base, h, ws, 15);
    assert ws[..15] == ws;
    assert Le32(base, h + 4 * 1) == all[1] && Le32(base, h + 4 * 5) == all[5] && Le32(base, h + 4 * 6) == all[6];
    assert Le32(base, h + 4 * 15) == all[15];
  }

  lemma StartAligned(parts: seq<Part>, i: nat)
    requires i <= |parts|
    ensures 4 * (Start(parts, i) / 4) == Start(parts, i)
  {
    hide PartsData, PartsUnits;
    PartsAligned(parts[..i]);
    Quarter(BINS_OFF / 4 + 16 * PartsUnits(parts[..i]));
  }

  lemma Quarter(k: nat)
    ensures 4 * (4 * k / 4) == 4 * k
  {
  }

  lemma SliceOfTail(s: seq<byte>, a: nat, o: nat, n: nat)
    requires a <= o && o + n <= |s|
    ensures s[o..o + n] == s[a..][o - a..][..n]
  {
  }

  lemma PartitionSlice(parts: seq<Part>, base: seq<byte>, i: nat)
    requires Buildable(parts) && Built(parts, base) && i < |parts|
    ensures 4 * (Start(parts, i) / 4) == Start(parts, i) && Start(parts, i) + |Words(parts[i].payload)| <= |base|
    ensures 4 * (|Words(parts[i].payload)| / 4) == |Words(parts[i].payload)|
    ensures base[Start(parts, i)..Start(parts, i) + |Words(parts[i].payload)|] == Words(parts[i].payload)
  {
    hide Words, PartsData, HeadersOk, Units;
    StartAligned(parts, i);
    DataAt(parts, |parts|, i);
    assert parts[..|parts|] == parts;
    SliceOfTail(base, BINS_OFF, Start(parts, i), |Words(parts[i].payload)|);
  }

  lemma {:induction false} ScanBuilt(parts: seq<Part>, base: seq<byte>, i: nat)
    requires Buildable(parts) && Built(parts, base) && i <= |parts|
    ensures Scan(base, PART_HDR_OFF, |parts|, i, FoundIn(parts, i)) == (Accepted, FoundIn(parts, |parts|))
    decreases |parts| - i
  {
    hide Le32, Words, ChecksumOk, TakePartition, PartsData, Start, HeadersOk, Units;
    assert |base| >= PART_HDR_OFF + 64 * |parts| by { StartIsBehind(parts); }
    if i < |parts| {
      PartitionReads(parts, base, i);
      PartitionSlice(parts, base, i);
      ScanBuilt(parts, base, i + 1);
    }
  }

  lemma StartIsBehind(parts: seq<Part>)
    ensures Start(parts, |parts|) >= BINS_OFF
  {
  }

  /** The parser finds in a built BOOT.BIN exactly the partitions that went in. */
  lemma ParseBuilt(parts: seq<Part>, base: seq<byte>)
    requires Buildable(parts) && Built(parts, base)
    ensures var f := FoundIn(parts, |parts|).(nparts := |parts|);
      Parse(base) == (if f.bit.None? then NoBitstream else if f.img.None? then NoImage else Accepted, f)
  {
    assert FoundIn(parts, 0) == NOTHING;
    ScanBuilt(parts, base, 0);
    hide Le32, Words, Scan, FoundIn, HeaderAt, PartsData;
  }

  // ---- build() itself ----

  lemma WordsKept(s: seq<byte>, s': seq<byte>, o: nat, ws: seq<int>)
    requires |s| == |s'| && o + 4 * |ws| <= |s| && WordsAt(s, o, ws)
    requires forall i | o <= i < o + 4 * |ws| :: s'[i] == s[i]
    ensures WordsAt(s', o, ws)
  {
    forall k | 0 <= k < |ws| ensures Le32(s', o + 4 * k) == ws[k] {
      assert Le32(s, o + 4 * k) == ws[k];
    }
  }

  /** struct.pack_into of words, in place. */
  method PutWords(out: array<byte>, o: nat, ws: seq<word>)
    requires o + 4 * |ws| <= out.Length
    modifies out
    ensures WordsAt(out[..], o, ws)
    ensures forall i | 0 <= i < out.Length && !(o <= i < o + 4 * |ws|) :: out[i] == old(out[i])
  {
    hide Le32;
    var k := 0;
    while k < |ws|
      invariant 0 <= k <= |ws|
      invariant WordsAt(out[..], o, ws[..k])
      invariant forall i | 0 <= i < out.Length && !(o <= i < o + 4 * k) :: out[i] == old(out[i])
    {
      ghost var before := out[..];
      var b, p := LeBytes(ws[k]), o + 4 * k;
      out[p], out[p + 1], out[p + 2], out[p + 3] := b[0], b[1], b[2], b[3];
      WordsKept(before, out[..], o, ws[..k]);
      assert out[..][p..p + 4] == b;
      Le32Slice(out[..], p);
      k := k + 1;
    }
    assert ws[..k] == ws;
  }

  /** Only out[lo..hi] differs from what it was. */
  twostate predicate OnlyChanged(out: array<byte>, lo: int, hi: int)
    reads out
  {
    forall i | 0 <= i < out.Length && !(lo <= i < hi) :: out[i] == old(out[i])
  }

  function Repeat(w: word, n: nat): (ws: seq<word>)
    ensures |ws| == n
  {
    seq(n, _ => w)
  }

  method PutBootHeader(out: array<byte>, fsblBytes: word)
    requires out.Length == BINS_OFF
    modifies out
    ensures WordsAt(out[..], BH_WIDTH, [WIDTH_DETECT, ID_XNLX])
    ensures WordsAt(out[..], BH_IMG_TAB, [IMG_HDR_OFF, PART_HDR_OFF])
    ensures OnlyChanged(out, 0, 0x8a0)
  {
    hide Le32;
    PutWords(out, 0, Repeat(0xEAFF_FFFE, 8));
    var fields: seq<word> := [WIDTH_DETECT, ID_XNLX, 0, 0x0101_0000, BINS_OFF, fsblBytes, 0, 0, fsblBytes, 1];
    PutWords(out, 0x20, fields);
    ghost var one := out[..];
    assert WordsAt(one, 0x20, [WIDTH_DETECT, ID_XNLX]) by {
      WordsTake(one, 0x20, fields, 2);
      assert fields[..2] == [WIDTH_DETECT, ID_XNLX];
    }
    PutWords(out, 0x48, [Checksum(fields)]);
    var user0 := Repeat(0, 19) + [IMG_HDR_OFF, PART_HDR_OFF];
    PutWords(out, 0x4c, user0);
    ghost var two := out[..];
    assert WordsAt(two, 0x98, [IMG_HDR_OFF, PART_HDR_OFF]) by { WordsDrop(two, 0x4c, user0, 19); }
    var i := 0;
    while i < 256
      invariant 0 <= i <= 256
      invariant forall k | 0 <= k < 0xa0 :: out[k] == two[k]
      invariant OnlyChanged(out, 0, 0x8a0)
    {
      PutWords(out, 0xa0 + 8 * i, [0xFFFF_FFFF, 0]);
      i := i + 1;
    }
    WordsKept(one, out[..], BH_WIDTH, [WIDTH_DETECT, ID_XNLX]);
    WordsKept(two, out[..], BH_IMG_TAB, [IMG_HDR_OFF, PART_HDR_OFF]);
  }

  lemma WordsTake(s: seq<byte>, o: nat, ws: seq<int>, n: nat)
    requires n <= |ws| && o + 4 * |ws| <= |s| && WordsAt(s, o, ws)
    ensures WordsAt(s, o, ws[..n])
  {
    hide Le32;
  }

  lemma WordsDrop(s: seq<byte>, o: nat, ws: seq<int>, n: nat)
    requires n <= |ws| && o + 4 * |ws| <= |s| && WordsAt(s, o, ws)
    ensures WordsAt(s, o + 4 * n, ws[n..])
  {
    hide Le32;
    forall k | 0 <= k < |ws| - n ensures Le32(s, o + 4 * n + 4 * k) == ws[n..][k] {
      assert Le32(s, o + 4 * (n + k)) == ws[n + k];
    }
  }

  /** The name "part<i>" in 32 bytes, for i < 100. */
  function PartName(i: nat): (name: seq<byte>)
    requires i < 100
    ensures |name| == 32
  {
    var digits := if i < 10 then [0x30 + i] else [0x30 + i / 10, 0x30 + i % 10];
    var text: seq<byte> := [0x70, 0x61, 0x72, 0x74] + digits;
    text + Zeros(32 - |text|)
  }

  method PutImageHeaders(out: array<byte>, n: nat)
    requires out.Length == BINS_OFF && n <= MAX_PARTS
    modifies out
    ensures WordsAt(out[..], IMG_HDR_OFF + 4, [n])
    ensures OnlyChanged(out, IMG_HDR_OFF, FIRST_IMG + 64 * MAX_PARTS)
  {
    hide Le32;
    PutWords(out, IMG_HDR_OFF, [0x0102_0000, n, PART_HDR_OFF / 4, FIRST_IMG / 4, 0]);
    ghost var table := out[..];
    assert WordsAt(table, IMG_HDR_OFF + 4, [n]) by {
      var ws: seq<int> := [0x0102_0000, n, PART_HDR_OFF / 4, FIRST_IMG / 4, 0];
      WordsDrop(table, IMG_HDR_OFF, ws, 1);
      assert ws[1..][..1] == [n];
      WordsTake(table, IMG_HDR_OFF + 4, ws[1..], 1);
    }
    var i := 0;
    while i < n
      invariant 0 <= i <= n
      invariant forall k | 0 <= k < FIRST_IMG :: out[k] == table[k]
      invariant OnlyChanged(out, IMG_HDR_OFF, FIRST_IMG + 64 * MAX_PARTS)
    {
      var a := FIRST_IMG + 64 * i;
      PutWords(out, a, [if i + 1 == n then 0 else (a + 64) / 4, PART_HDR_OFF / 4 + 16 * i, 0, 1]);
      var name, j := PartName(i), 0;
      while j < 32
        invariant 0 <= j <= 32
        invariant forall k | 0 <= k < FIRST_IMG :: out[k] == table[k]
        invariant OnlyChanged(out, IMG_HDR_OFF, FIRST_IMG + 64 * MAX_PARTS)
      {
        out[a + 16 + j] := name[j];
        j := j + 1;
      }
      i := i + 1;
    }
    WordsKept(table, out[..], IMG_HDR_OFF + 4, [n]);
  }

  lemma PartitionWordsFit(parts: seq<Part>, i: nat)
    requires Buildable(parts) && i < |parts|
    ensures forall k | 0 <= k < 15 :: 0 <= PartitionWords(parts, i)[k] < WORD
    ensures 4 * (|Words(parts[i].payload)| / 4) < WORD
  {
    hide Words, PartsData;
    DataAt(parts, |parts|, i);
  }

  method PutPartitionHeaders(out: array<byte>, parts: seq<Part>)
    requires out.Length == BINS_OFF && Buildable(parts)
    modifies out
    ensures forall i | 0 <= i < |parts| :: HeaderAt(parts, out[..], i)
    ensures OnlyChanged(out, PART_HDR_OFF, PART_HDR_OFF + 64 * MAX_PARTS)
  {
    hide Le32, Words, PartsData, Start, PartitionWords;
    var i := 0;
    while i < |parts|
      invariant 0 <= i <= |parts|
      invariant forall j | 0 <= j < i :: HeaderAt(parts, out[..], j)
      invariant OnlyChanged(out, PART_HDR_OFF, PART_HDR_OFF + 64 * MAX_PARTS)
    {
      PartitionWordsFit(parts, i);
      ghost var before := out[..];
      var w := PartitionWords(parts, i);
      var ws: seq<word> := seq(15, k requires 0 <= k < 15 => w[k]);
      assert ws + [Checksum(w)] == w + [Checksum(w)];
      PutWords(out, PART_HDR_OFF + 64 * i, ws + [Checksum(w)]);
      forall j | 0 <= j < i ensures HeaderAt(parts, out[..], j) {
        var v := PartitionWords(parts, j);
        assert HeaderAt(parts, before, j);
        WordsKept(before, out[..], PART_HDR_OFF + 64 * j, v + [Checksum(v)]);
      }
      i := i + 1;
    }
  }

  /** build() */
  method Build(parts: seq<Part>) returns (base: seq<byte>)
    requires Buildable(parts)
    ensures Built(parts, base)
  {
    hide Le32, Words, PartsData, PartitionWords, HeaderAt, HeadersOk;
    var out := new byte[BINS_OFF](_ => 0xff);
    var data := PartsInOrder(parts);
    PartitionWordsFit(parts, 0);
    PutBootHeader(out, 4 * (|Words(parts[0].payload)| / 4));
    ghost var one := out[..];
    PutImageHeaders(out, |parts|);
    ghost var two := out[..];
    PutPartitionHeaders(out, parts);
    WordsKept(one, out[..], BH_WIDTH, [WIDTH_DETECT, ID_XNLX]);
    WordsKept(one, out[..], BH_IMG_TAB, [IMG_HDR_OFF, PART_HDR_OFF]);
    WordsKept(two, out[..], IMG_HDR_OFF + 4, [|parts|]);
    base := out[..] + data;
    assert parts[..|parts|] == parts;
    HeadersFromWords(parts, out[..]);
    HeadersStay(parts, out[..], base);
  }

  /** The loop of build() that pads and appends the payloads. */
  method PartsInOrder(parts: seq<Part>) returns (data: seq<byte>)
    ensures data == PartsData(parts)
  {
    data := [];
    var i := 0;
    while i < |parts|
      invariant 0 <= i <= |parts| && data == PartsData(parts[..i])
    {
      assert parts[..i + 1][..i] == parts[..i];
      data := data + Stored(parts[i].payload);
      i := i + 1;
    }
    assert parts[..i] == parts;
  }

  lemma HeadersFromWords(parts: seq<Part>, out: seq<byte>)
    requires |parts| <= MAX_PARTS && |out| == BINS_OFF
    requires WordsAt(out, BH_WIDTH, [WIDTH_DETECT, ID_XNLX]) && WordsAt(out, BH_IMG_TAB, [IMG_HDR_OFF, PART_HDR_OFF])
    requires WordsAt(out, IMG_HDR_OFF + 4, [|parts|]) && forall i | 0 <= i < |parts| :: HeaderAt(parts, out, i)
    ensures HeadersOk(parts, out)
  {
    hide Le32, HeaderAt;
    WordPair(out, BH_WIDTH, WIDTH_DETECT, ID_XNLX);
    WordPair(out, BH_IMG_TAB, IMG_HDR_OFF, PART_HDR_OFF);
    assert Le32(out, IMG_HDR_OFF + 4 + 4 * 0) == [|parts|][0];
  }

  /** The headers stay where they are when the payloads are put behind them. */
  lemma HeadersStay(parts: seq<Part>, out: seq<byte>, base: seq<byte>)
    requires |parts| <= MAX_PARTS && |out| == BINS_OFF && HeadersOk(parts, out) && out <= base
    ensures HeadersOk(parts, base)
  {
    hide Le32, HeaderAt;
    Le32Prefix(out, base, BH_WIDTH); Le32Prefix(out, base, BH_ID);
    Le32Prefix(out, base, BH_IMG_TAB); Le32Prefix(out, base, BH_PART_TAB); Le32Prefix(out, base, IMG_HDR_OFF + 4);
    forall i | 0 <= i < |parts| ensures HeaderAt(parts, base, i) { HeaderStays(parts, out, base, i); }
  }

  lemma HeaderStays(parts: seq<Part>, out: seq<byte>, base: seq<byte>, i: nat)
    requires i < |parts| <= MAX_PARTS && |out| >= BINS_OFF && out <= base && HeaderAt(parts, out, i)
    ensures HeaderAt(parts, base, i)
  {
    hide Le32, PartitionWords, Checksum;
    var w, h := PartitionWords(parts, i), PART_HDR_OFF + 64 * i;
    forall k | 0 <= k < 16 ensures Le32(base, h + 4 * k) == (w + [Checksum(w)])[k] {
      Le32Prefix(out, base, h + 4 * k);
    }
  }

  lemma WordPair(s: seq<byte>, o: nat, a: int, b: int)
    requires o + 8 <= |s| && WordsAt(s, o, [a, b])
    ensures Le32(s, o) == a && Le32(s, o + 4) == b
  {
    hide Le32;
    assert Le32(s, o + 4 * 0) == [a, b][0] && Le32(s, o + 4 * 1) == [a, b][1];
  }

  // ---- the round trip ----

  /** The three partitions that the host test builds. */
  function Standard(fsbl: seq<byte>, bit: seq<byte>, img: seq<byte>): seq<Part> {
    [Part(ATTR_PS, fsbl), Part(ATTR_PL, bit), Part(ATTR_PS + ATTR_GENERAL, img)]
  }

  /** Parsing a built BOOT.BIN gives back exactly its bitstream and exactly its RISC-V
      image, for any first-stage loader that is not itself an RVBI image. */
  lemma BootBinRoundTrip(fsbl: seq<byte>, bit: seq<byte>, entry: word, segs: seq<Segment>, cmdline: seq<byte>, base: seq<byte>)
    requires Packable(segs, cmdline) && 1 <= |segs| <= RVBI_MAX_SEGS && RvbiSize(Words(fsbl)).None?
    requires Buildable(Standard(fsbl, bit, Rvbi(entry, segs, cmdline)))
    requires Built(Standard(fsbl, bit, Rvbi(entry, segs, cmdline)), base)
    ensures var (v, f) := Parse(base);
      && v == Accepted && f.nparts == 3
      && f.bit.Some? && 4 * f.bitWords == |Words(bit)|
      && f.bit.value + 4 * f.bitWords <= |base| && base[f.bit.value..f.bit.value + 4 * f.bitWords] == Words(bit)
      && f.img.Some? && f.imgBytes == |Rvbi(entry, segs, cmdline)|
      && f.img.value + f.imgBytes <= |base| && base[f.img.value..f.img.value + f.imgBytes] == Rvbi(entry, segs, cmdline)
  {
    hide Built, Buildable, Rvbi, RvbiSize, Words, Units, Parse, Packable, Start;
    var img := Rvbi(entry, segs, cmdline);
    var parts := Standard(fsbl, bit, img);
    RvbiIsRecognised(entry, segs, cmdline, Words(img));
    ParseBuilt(parts, base);
    StandardFound(parts, fsbl, bit, img);
    PartitionSlice(parts, base, 1);
    PartitionSlice(parts, base, 2);
    var o := Start(parts, 2);
    assert base[o..o + |img|] == base[o..o + |Words(img)|][..|img|];
  }

  lemma StandardFound(parts: seq<Part>, fsbl: seq<byte>, bit: seq<byte>, img: seq<byte>)
    requires parts == Standard(fsbl, bit, img) && RvbiSize(Words(fsbl)).None? && RvbiSize(Words(img)).Some?
    ensures FoundIn(parts, 3) ==
      Found(Some(4 * (Start(parts, 1) / 4)), |Words(bit)| / 4, Some(4 * (Start(parts, 2) / 4)), RvbiSize(Words(img)).value, 0)
  {
    hide RvbiSize, Words, Start;
    assert FoundIn(parts, 1) == NOTHING;
    assert FoundIn(parts, 2) == Found(Some(4 * (Start(parts, 1) / 4)), |Words(bit)| / 4, None, 0, 0);
  }
}
