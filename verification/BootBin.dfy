/** BOOT.BIN's partition table and the RVBI header check of the PS program. */
module BootBin {
  import opened Basics
  import opened Bytes
  import opened Crc

  const BH_WIDTH := 0x20
  const BH_ID := 0x24
  const BH_IMG_TAB := 0x98
  const BH_PART_TAB := 0x9c
  const WIDTH_DETECT: word := 0xaa99_5566
  const ID_XNLX: word := 0x584c_4e58
  const PH_BYTES := 64
  const MAX_PARTS := 32

  const RVBI_MAGIC: word := 0x4942_5652
  const RVBI_HDR := 32
  const RVBI_SEG := 12
  const RVBI_MAX_SEGS := 8

  /** Why a BOOT.BIN is refused, in the order of the checks. */
  datatype Verdict =
    | Accepted
    | TooShort | NoBootHeader | TablesOutOfRange | CountOutOfRange
    | BadChecksum | PastTheEnd | NoBitstream | NoImage

  /** struct bootbin, with offsets into the buffer for its pointers. */
  datatype Found = Found(bit: Option<nat>, bitWords: nat, img: Option<nat>, imgBytes: nat, nparts: nat)

  const NOTHING := Found(None, 0, None, 0, 0)

  // ---- what is accepted ----

  /** The CRC an RVBI image carries: of its header with the CRC field as zero, its
      segment table and its command line. */
  function HeaderCrc(p: seq<byte>, meta: nat): word
    requires RVBI_HDR <= meta <= |p|
  {
    CrcWord(p[..28] + Zeros(4) + p[RVBI_HDR..meta])
  }

  function Meta(p: seq<byte>): nat
    requires |p| >= RVBI_HDR
  {
    RVBI_HDR + RVBI_SEG * Le16(p, 6) + Le16(p, 16)
  }

  /** rvbi_ok: the size of the RVBI image at the start of `p`, if there is one. */
  function RvbiSize(p: seq<byte>): Option<nat> {
    if |p| < RVBI_HDR || Le32(p, 0) != RVBI_MAGIC then None else
    if Le16(p, 6) == 0 || Le16(p, 6) > RVBI_MAX_SEGS then None else
    var meta := Meta(p);
    if meta > |p| then None
    else if HeaderCrc(p, meta) != Le32(p, 28) || Le32(p, 20) > |p| - meta then None
    else Some(meta + Le32(p, 20))
  }

  /** The sum of the first k words at h, modulo 2^32. */
  function WordSum(base: seq<byte>, h: nat, k: nat): word
    requires h + 4 * k <= |base|
  {
    if k == 0 then 0 else (WordSum(base, h, k - 1) as int + Le32(base, h + 4 * (k - 1)) as int) % WORD
  }

  predicate ChecksumOk(base: seq<byte>, h: nat)
    requires h + PH_BYTES <= |base|
  {
    WORD - 1 - WordSum(base, h, 15) as int == Le32(base, h + 60) as int
  }

  /** The attributes' destination field says the PL. */
  predicate ForPL(attr: word) { attr / 16 % 8 == 2 }

  /** What one partition adds to what has been found. */
  function TakePartition(f: Found, words: nat, off: nat, attr: word, data: seq<byte>): Found {
    if ForPL(attr) then
      if f.bit.None? then f.(bit := Some(4 * off), bitWords := words) else f
    else if f.img.None? && RvbiSize(data).Some? then
      f.(img := Some(4 * off), imgBytes := RvbiSize(data).value)
    else f
  }

  function Scan(base: seq<byte>, pt: nat, n: nat, i: nat, f: Found): (Verdict, Found)
    requires i <= n && pt + PH_BYTES * n <= |base|
    decreases n - i
  {
    if i == n then (Accepted, f) else
    var h := pt + PH_BYTES * i;
    if !ChecksumOk(base, h) then (BadChecksum, f) else
    var words, off, attr := Le32(base, h + 4), Le32(base, h + 20), Le32(base, h + 24);
    if off > |base| / 4 || words > |base| / 4 - off then (PastTheEnd, f) else
    Scan(base, pt, n, i + 1, TakePartition(f, words, off, attr, base[4 * off..4 * off + 4 * words]))
  }

  /** bootbin_parse */
  function Parse(base: seq<byte>): (Verdict, Found) {
    if |base| < 0xa0 then (TooShort, NOTHING)
    else if Le32(base, BH_WIDTH) != WIDTH_DETECT || Le32(base, BH_ID) != ID_XNLX then (NoBootHeader, NOTHING) else
    var it, pt := Le32(base, BH_IMG_TAB), Le32(base, BH_PART_TAB);
    if it % 4 != 0 || pt % 4 != 0 || it > |base| - 8 || pt > |base| - PH_BYTES then (TablesOutOfRange, NOTHING) else
    var n := Le32(base, it + 4);
    if n == 0 || n > MAX_PARTS || n > (|base| - pt) / PH_BYTES then (CountOutOfRange, NOTHING) else
    var (v, f) := Scan(base, pt, n, 0, NOTHING);
    if v != Accepted then (v, f) else
    var g := f.(nparts := n);
    (if g.bit.None? then NoBitstream else if g.img.None? then NoImage else Accepted, g)
  }

  // ---- the code ----

  /** An aligned word load; with the MMU off an unaligned one would fault. */
  function W32(base: seq<byte>, o: nat): word
    requires o + 4 <= |base| && o % 4 == 0
  {
    Le32(base, o)
  }

  method RvbiOk(t: Table, p: seq<byte>) returns (bytes: Option<nat>)
    requires t.Valid()
    modifies t.table
    ensures t.Valid() && bytes == RvbiSize(p)
  {
    hide Crc32, Fold;
    if |p| < RVBI_HDR || Le32(p, 0) != RVBI_MAGIC { return None; }
    var nseg, clen, dsize, hcrc := Le16(p, 6), Le16(p, 16), Le32(p, 20), Le32(p, 28);
    if nseg == 0 || nseg > RVBI_MAX_SEGS { return None; }
    var meta := RVBI_HDR + RVBI_SEG * nseg + clen;
    if meta > |p| { return None; }
    var c := t.Update(0, p[..28]);
    c := t.Update(c, Zeros(4));
    c := t.Update(c, p[RVBI_HDR..meta]);
    Crc32Concat(0, p[..28], Zeros(4));
    Crc32Concat(0, p[..28] + Zeros(4), p[RVBI_HDR..meta]);
    if c as int != hcrc || dsize > |p| - meta { return None; }
    bytes := Some(meta + dsize);
  }

  method PartitionSum(base: seq<byte>, h: nat) returns (sum: word)
    requires h + PH_BYTES <= |base| && h % 4 == 0
    ensures sum == WordSum(base, h, 15)
  {
    hide Le32;
    sum := 0;
    var k := 0;
    while k < 15
      invariant 0 <= k <= 15 && sum == WordSum(base, h, k)
    {
      sum := (sum as int + W32(base, h + 4 * k) as int) % WORD;
      k := k + 1;
    }
  }

  method BootbinParse(t: Table, base: seq<byte>) returns (v: Verdict, out: Found)
    requires t.Valid() && |base| < WORD
    modifies t.table
    ensures t.Valid() && (v, out) == Parse(base)
  {
    hide RvbiSize, Le32, WordSum;
    out := NOTHING;
    var size := |base|;
    if size < 0xa0 { return TooShort, out; }
    if W32(base, BH_WIDTH) != WIDTH_DETECT || W32(base, BH_ID) != ID_XNLX { return NoBootHeader, out; }
    var it, pt := W32(base, BH_IMG_TAB), W32(base, BH_PART_TAB);
    if it % 4 != 0 || pt % 4 != 0 || it > size - 8 || pt > size - PH_BYTES { return TablesOutOfRange, out; }
    var n := W32(base, it + 4);
    if n == 0 || n > MAX_PARTS || n > (size - pt) / PH_BYTES { return CountOutOfRange, out; }
    v, out := ScanPartitions(t, base, pt, n);
    if v != Accepted { return; }
    out := out.(nparts := n);
    v := if out.bit.None? then NoBitstream else if out.img.None? then NoImage else Accepted;
  }

  /** One partition whose header is in order. */
  method Take(t: Table, f: Found, words: nat, off: nat, attr: word, data: seq<byte>) returns (out: Found)
    requires t.Valid()
    modifies t.table
    ensures t.Valid() && out == TakePartition(f, words, off, attr, data)
  {
    hide RvbiSize, ForPL;
    out := f;
    if ForPL(attr) {
      if f.bit.None? { out := f.(bit := Some(4 * off), bitWords := words); }
    } else if f.img.None? {
      var bytes := RvbiOk(t, data);
      if bytes.Some? { out := f.(img := Some(4 * off), imgBytes := bytes.value); }
    }
  }

  /** What the header at h makes of what has been found. */
  function OneStep(base: seq<byte>, h: nat, f: Found): (Verdict, Found)
    requires h + PH_BYTES <= |base|
  {
    var words, off, attr := Le32(base, h + 4), Le32(base, h + 20), Le32(base, h + 24);
    if !ChecksumOk(base, h) then (BadChecksum, f)
    else if off > |base| / 4 || words > |base| / 4 - off then (PastTheEnd, f)
    else (Accepted, TakePartition(f, words, off, attr, base[4 * off..4 * off + 4 * words]))
  }

  /** One turn of the loop of bootbin_parse. */
  method ScanOne(t: Table, base: seq<byte>, h: nat, f: Found) returns (v: Verdict, out: Found)
    requires t.Valid() && h + PH_BYTES <= |base| && h % 4 == 0
    modifies t.table
    ensures t.Valid() && (v, out) == OneStep(base, h, f)
  {
    hide RvbiSize, Le32, WordSum, TakePartition, ForPL;
    var sum := PartitionSum(base, h);
    if WORD - 1 - sum as int != W32(base, h + 60) as int { return BadChecksum, f; }
    var words, off, attr := W32(base, h + 4), W32(base, h + 20), W32(base, h + 24);
    if off > |base| / 4 || words > |base| / 4 - off { return PastTheEnd, f; }
    out := Take(t, f, words, off, attr, base[4 * off..4 * off + 4 * words]);
    v := Accepted;
  }

  lemma HeaderInside(base: seq<byte>, pt: nat, n: nat, i: nat)
    requires pt % 4 == 0 && i < n && pt + PH_BYTES * n <= |base|
    ensures (pt + PH_BYTES * i) % 4 == 0 && pt + PH_BYTES * i + PH_BYTES <= |base|
  {
  }

  lemma ScanStep(base: seq<byte>, pt: nat, n: nat, i: nat, f: Found)
    requires i < n && pt + PH_BYTES * n <= |base|
    ensures pt + PH_BYTES * i + PH_BYTES <= |base|
    ensures var (v, g) := OneStep(base, pt + PH_BYTES * i, f);
            Scan(base, pt, n, i, f) == if v == Accepted then Scan(base, pt, n, i + 1, g) else (v, g)
  {
    hide Le32, ChecksumOk, TakePartition;
  }

  lemma ScanEnds(base: seq<byte>, pt: nat, n: nat, f: Found)
    requires pt + PH_BYTES * n <= |base|
    ensures Scan(base, pt, n, n, f) == (Accepted, f)
  {
  }

  /** The loop of bootbin_parse over the partition headers. */
  method ScanPartitions(t: Table, base: seq<byte>, pt: nat, n: nat) returns (v: Verdict, out: Found)
    requires t.Valid() && pt + PH_BYTES * n <= |base| && pt % 4 == 0
    modifies t.table
    ensures t.Valid() && (v, out) == Scan(base, pt, n, 0, NOTHING)
  {
    hide Scan, OneStep;
    out := NOTHING;
    var i := 0;
    while i < n
      invariant 0 <= i <= n && t.Valid()
      invariant Scan(base, pt, n, 0, NOTHING) == Scan(base, pt, n, i, out)
    {
      HeaderInside(base, pt, n, i);
      ScanStep(base, pt, n, i, out);
      v, out := ScanOne(t, base, pt + PH_BYTES * i, out);
      if v != Accepted { return; }
      i := i + 1;
    }
    ScanEnds(base, pt, n, out);
    v := Accepted;
  }

  // ---- what is found, said without the loop ----

  /** Partition header i has a good checksum and a payload inside the file. */
  predicate PartOk(base: seq<byte>, pt: nat, i: nat)
    requires pt + PH_BYTES * i + PH_BYTES <= |base|
  {
    var h := pt + PH_BYTES * i;
    ChecksumOk(base, h) && Le32(base, h + 20) <= |base| / 4 && Le32(base, h + 4) <= |base| / 4 - Le32(base, h + 20)
  }

  function PartOff(base: seq<byte>, pt: nat, i: nat): nat
    requires pt + PH_BYTES * i + PH_BYTES <= |base|
  {
    Le32(base, pt + PH_BYTES * i + 20)
  }

  function PartWords(base: seq<byte>, pt: nat, i: nat): nat
    requires pt + PH_BYTES * i + PH_BYTES <= |base|
  {
    Le32(base, pt + PH_BYTES * i + 4)
  }

  function Payload(base: seq<byte>, pt: nat, i: nat): seq<byte>
    requires pt + PH_BYTES * i + PH_BYTES <= |base| && PartOk(base, pt, i)
  {
    base[4 * PartOff(base, pt, i)..4 * PartOff(base, pt, i) + 4 * PartWords(base, pt, i)]
  }

  predicate IsBit(base: seq<byte>, pt: nat, i: nat)
    requires pt + PH_BYTES * i + PH_BYTES <= |base|
  {
    ForPL(Le32(base, pt + PH_BYTES * i + 24))
  }

  predicate IsImage(base: seq<byte>, pt: nat, i: nat)
    requires pt + PH_BYTES * i + PH_BYTES <= |base| && PartOk(base, pt, i)
  {
    !IsBit(base, pt, i) && RvbiSize(Payload(base, pt, i)).Some?
  }

  ghost predicate AllOk(base: seq<byte>, pt: nat, n: nat)
    requires pt + PH_BYTES * n <= |base|
  {
    forall i {:trigger PartOk(base, pt, i)} | 0 <= i < n :: PartOk(base, pt, i)
  }

  /** The bitstream is the first partition for the PL, if there is one. */
  ghost predicate FirstBit(base: seq<byte>, pt: nat, n: nat, f: Found)
    requires pt + PH_BYTES * n <= |base|
  {
    || (f.bit.None? && f.bitWords == 0 && forall j {:trigger IsBit(base, pt, j)} | 0 <= j < n :: !IsBit(base, pt, j))
    || exists i: nat {:trigger IsBit(base, pt, i)} ::
         && i < n && IsBit(base, pt, i) && (forall j {:trigger IsBit(base, pt, j)} | 0 <= j < i :: !IsBit(base, pt, j))
         && f.bit == Some(4 * PartOff(base, pt, i)) && f.bitWords == PartWords(base, pt, i)
  }

  /** The image is the first partition not for the PL that holds an RVBI image. */
  ghost predicate FirstImage(base: seq<byte>, pt: nat, n: nat, f: Found)
    requires pt + PH_BYTES * n <= |base| && AllOk(base, pt, n)
  {
    || (f.img.None? && f.imgBytes == 0 && forall j {:trigger IsImage(base, pt, j)} | 0 <= j < n :: !IsImage(base, pt, j))
    || exists i: nat {:trigger IsImage(base, pt, i)} ::
         && i < n && IsImage(base, pt, i) && (forall j {:trigger IsImage(base, pt, j)} | 0 <= j < i :: !IsImage(base, pt, j))
         && f.img == Some(4 * PartOff(base, pt, i)) && f.imgBytes == RvbiSize(Payload(base, pt, i)).value
  }

  lemma TakeKeepsFirst(base: seq<byte>, pt: nat, i: nat, f: Found)
    requires pt + PH_BYTES * (i + 1) <= |base| && AllOk(base, pt, i + 1) && FirstBit(base, pt, i, f) && FirstImage(base, pt, i, f)
    ensures var g := TakePartition(f, PartWords(base, pt, i), PartOff(base, pt, i), Le32(base, pt + PH_BYTES * i + 24), Payload(base, pt, i));
            FirstBit(base, pt, i + 1, g) && FirstImage(base, pt, i + 1, g)
  {
    hide PartOk, PartOff, PartWords, Payload, RvbiSize, ForPL, Le32;
    assert IsBit(base, pt, i) || !IsBit(base, pt, i);
    assert IsImage(base, pt, i) || !IsImage(base, pt, i);
  }

  lemma {:induction false} ScanFrom(base: seq<byte>, pt: nat, n: nat, i: nat, f: Found)
    requires i <= n && pt + PH_BYTES * n <= |base| && AllOk(base, pt, i) && FirstBit(base, pt, i, f) && FirstImage(base, pt, i, f)
    ensures var (v, g) := Scan(base, pt, n, i, f);
            && (v == Accepted <==> AllOk(base, pt, n))
            && (v == Accepted ==> FirstBit(base, pt, n, g) && FirstImage(base, pt, n, g))
    decreases n - i
  {
    hide Le32, ChecksumOk, TakePartition, RvbiSize, FirstBit, FirstImage, ForPL;
    if i < n {
      if PartOk(base, pt, i) {
        assert AllOk(base, pt, i + 1);
        TakeKeepsFirst(base, pt, i, f);
        ScanFrom(base, pt, n, i + 1, TakePartition(f, PartWords(base, pt, i), PartOff(base, pt, i), Le32(base, pt + PH_BYTES * i + 24), Payload(base, pt, i)));
      }
    }
  }

  /** The scan accepts exactly the tables in which every partition is in order, and then it
      has found the first bitstream and the first image. */
  lemma ScanFindsFirst(base: seq<byte>, pt: nat, n: nat)
    requires pt + PH_BYTES * n <= |base|
    ensures var (v, f) := Scan(base, pt, n, 0, NOTHING);
            && (v == Accepted <==> AllOk(base, pt, n))
            && (v == Accepted ==> FirstBit(base, pt, n, f) && FirstImage(base, pt, n, f))
  {
    hide Scan, PartOk;
    ScanFrom(base, pt, n, 0, NOTHING);
  }

  // ---- the parser only looks at a prefix ----

  lemma {:induction false} WordSumPrefix(a: seq<byte>, b: seq<byte>, h: nat, k: nat)
    requires h + 4 * k <= |a| && a <= b
    ensures WordSum(b, h, k) == WordSum(a, h, k)
  {
    if k > 0 { WordSumPrefix(a, b, h, k - 1); }
  }

  lemma Le32Prefix(a: seq<byte>, b: seq<byte>, o: nat)
    requires o + 4 <= |a| && a <= b
    ensures Le32(b, o) == Le32(a, o)
  {
  }

  lemma {:induction false} ScanPrefix(a: seq<byte>, b: seq<byte>, pt: nat, n: nat, i: nat, f: Found)
    requires i <= n && pt + PH_BYTES * n <= |a| && a <= b && Scan(a, pt, n, i, f).0 == Accepted
    ensures Scan(b, pt, n, i, f) == Scan(a, pt, n, i, f)
    decreases n - i
  {
    hide Le32, WordSum, TakePartition;
    if i < n {
      var h := pt + PH_BYTES * i;
      WordSumPrefix(a, b, h, 15);
      Le32Prefix(a, b, h + 4); Le32Prefix(a, b, h + 20); Le32Prefix(a, b, h + 24); Le32Prefix(a, b, h + 60);
      var words: int, off: int, attr := Le32(a, h + 4), Le32(a, h + 20), Le32(a, h + 24);
      assert b[4 * off..4 * off + 4 * words] == a[4 * off..4 * off + 4 * words];
      ScanPrefix(a, b, pt, n, i + 1, TakePartition(f, words, off, attr, a[4 * off..4 * off + 4 * words]));
    }
  }

  /** A BOOT.BIN that is accepted is accepted with anything behind it, and the same
      payloads are found. */
  lemma ParsePrefix(a: seq<byte>, b: seq<byte>)
    requires a <= b && Parse(a).0 == Accepted
    ensures Parse(b) == Parse(a)
  {
    hide Le32, Scan;
    Le32Prefix(a, b, BH_WIDTH); Le32Prefix(a, b, BH_ID); Le32Prefix(a, b, BH_IMG_TAB); Le32Prefix(a, b, BH_PART_TAB);
    var it: int, pt := Le32(a, BH_IMG_TAB), Le32(a, BH_PART_TAB);
    Le32Prefix(a, b, it + 4);
    ScanPrefix(a, b, pt, Le32(a, it + 4), 0, NOTHING);
  }

  /** What has been found lies inside the buffer, on word boundaries. */
  ghost predicate Inside(base: seq<byte>, f: Found) {
    && (f.bit.Some? ==> f.bit.value % 4 == 0 && f.bit.value + 4 * f.bitWords <= |base|)
    && (f.img.Some? ==> f.img.value % 4 == 0 && f.img.value + f.imgBytes <= |base|)
  }

  lemma RvbiFits(p: seq<byte>)
    ensures RvbiSize(p).Some? ==> RvbiSize(p).value <= |p|
  {
  }

  lemma {:induction false} ScanInside(base: seq<byte>, pt: nat, n: nat, i: nat, f: Found)
    requires i <= n && pt + PH_BYTES * n <= |base| && Inside(base, f)
    ensures Inside(base, Scan(base, pt, n, i, f).1)
    decreases n - i
  {
    hide Le32, ChecksumOk, RvbiSize;
    if i < n {
      var h := pt + PH_BYTES * i;
      var words: int, off: int, attr := Le32(base, h + 4), Le32(base, h + 20), Le32(base, h + 24);
      if ChecksumOk(base, h) && off <= |base| / 4 && words <= |base| / 4 - off {
        RvbiFits(base[4 * off..4 * off + 4 * words]);
        ScanInside(base, pt, n, i + 1, TakePartition(f, words, off, attr, base[4 * off..4 * off + 4 * words]));
      }
    }
  }

  /** Whatever is reported, for any buffer whatsoever, lies inside the buffer. */
  lemma ParseInside(base: seq<byte>)
    ensures Inside(base, Parse(base).1)
  {
    hide Le32, Scan;
    if |base| >= 0xa0 {
      var it: int, pt := Le32(base, BH_IMG_TAB), Le32(base, BH_PART_TAB);
      if it % 4 == 0 && pt % 4 == 0 && it <= |base| - 8 && pt <= |base| - PH_BYTES {
        var n := Le32(base, it + 4);
        if n <= (|base| - pt) / PH_BYTES { ScanInside(base, pt, n, 0, NOTHING); }
      }
    }
  }
}
