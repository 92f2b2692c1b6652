/** What the BOOT.BIN parser accepts and refuses, said in the words of the file itself. */
module BootLaws {
  import opened Basics
  import opened Bytes
  import opened Crc
  import opened BootBin

  // ---- checksums ----

  /** The sum of the first k words at h. */
  function Total(base: seq<byte>, h: nat, k: nat): nat
    requires h + 4 * k <= |base|
  {
    if k == 0 then 0 else Total(base, h, k - 1) + Le32(base, h + 4 * (k - 1))
  }

  lemma {:induction false} SumIsTotal(base: seq<byte>, h: nat, k: nat)
    requires h + 4 * k <= |base|
    ensures WordSum(base, h, k) == Total(base, h, k) % WORD
  {
    hide Le32;
    if k > 0 { SumIsTotal(base, h, k - 1); }
  }

  /** A header is in order exactly when its sixteen words add up to 2^32 - 1, modulo 2^32. */
  lemma ChecksumMeans(base: seq<byte>, h: nat)
    requires h + 64 <= |base|
    ensures ChecksumOk(base, h) <==> Total(base, h, 16) % WORD == WORD - 1
  {
    hide Le32, WordSum;
    SumIsTotal(base, h, 15);
    LastWord(Total(base, h, 15), Le32(base, h + 60));
    assert Total(base, h, 16) == Total(base, h, 15) + Le32(base, h + 60);
  }

  lemma LastWord(t: nat, w: word)
    ensures WORD - 1 - t % WORD == w <==> (t + w) % WORD == WORD - 1
  {
    var q, r := t / WORD, t % WORD;
    assert t + w == WORD * q + (r + w);
    if r + w < WORD { ModUnique(t + w, q, r + w); } else { ModUnique(t + w, q + 1, r + w - WORD); }
  }

  lemma ModUnique(x: nat, q: nat, r: nat)
    requires x == WORD * q + r && r < WORD
    ensures x % WORD == r
  {
  }

  // ---- an RVBI image ----

  /** The header of an RVBI image, field by field. */
  ghost predicate IsRvbi(p: seq<byte>, size: nat) {
    && |p| >= 32 && p[..4] == [0x52, 0x56, 0x42, 0x49]
    && var segs, cmd, data := Le16(p, 6) as int, Le16(p, 16) as int, Le32(p, 20) as int;
    && 1 <= segs <= 8 && size == 32 + 12 * segs + cmd + data && size <= |p|
    && CrcWord(p[..28] + [0, 0, 0, 0] + p[32..32 + 12 * segs + cmd]) == Le32(p, 28)
  }

  /** Exactly the images with a good header CRC that fit are recognised. */
  lemma RvbiMeans(p: seq<byte>, size: nat)
    ensures RvbiSize(p) == Some(size) <==> IsRvbi(p, size)
  {
    hide CrcWord;
    if |p| >= 32 {
      MagicBytes(p);
      assert Zeros(4) == [0, 0, 0, 0];
    }
  }

  lemma MagicBytes(p: seq<byte>)
    requires |p| >= 4
    ensures Le32(p, 0) == RVBI_MAGIC <==> p[..4] == [0x52, 0x56, 0x42, 0x49]
  {
    if Le32(p, 0) == RVBI_MAGIC {
      BytesOfWord(p, 0);
      assert p[0..4] == p[..4];
      assert LeBytes(RVBI_MAGIC) == [0x52, 0x56, 0x42, 0x49];
    }
  }

  // ---- the whole file ----

  /** Where partition header i of the table at pt is. */
  function At(pt: nat, i: nat): nat { pt + 64 * i }

  ghost predicate SumsUp(base: seq<byte>, h: nat)
    requires h + 64 <= |base|
  {
    Total(base, h, 16) % WORD == WORD - 1
  }

  /** The payload lies inside the file. */
  ghost predicate Fits(base: seq<byte>, h: nat)
    requires h + 64 <= |base|
  {
    4 * (Le32(base, h + 20) as int + Le32(base, h + 4) as int) <= |base|
  }

  ghost predicate Good(base: seq<byte>, h: nat)
    requires h + 64 <= |base|
  {
    SumsUp(base, h) && Fits(base, h)
  }

  /** Bits 4 to 6 of the attributes are 2: the payload is for the PL. */
  ghost predicate ToPL(base: seq<byte>, h: nat)
    requires h + 64 <= |base|
  {
    0x20 <= base[h + 24] < 0x30 || 0xa0 <= base[h + 24] < 0xb0
  }

  /** The payload is not for the PL and is an RVBI image. */
  ghost predicate HoldsImage(base: seq<byte>, h: nat, size: nat)
    requires h + 64 <= |base| && Fits(base, h)
  {
    var off, words := Le32(base, h + 20) as int, Le32(base, h + 4) as int;
    !ToPL(base, h) && IsRvbi(base[4 * off..4 * off + 4 * words], size)
  }

  lemma ToPLMeans(base: seq<byte>, h: nat)
    requires h + 64 <= |base|
    ensures ForPL(Le32(base, h + 24)) <==> ToPL(base, h)
  {
    LowByte(base[h + 24], base[h + 25] as int + 0x100 * (base[h + 26] as int) + 0x1_0000 * (base[h + 27] as int));
  }

  lemma LowByte(b: byte, rest: nat)
    ensures (b + 0x100 * rest) / 16 % 8 == b / 16 % 8
  {
    assert (b + 0x100 * rest) / 16 == b / 16 + 16 * rest;
  }

  lemma PartMeans(base: seq<byte>, pt: nat, i: nat)
    requires At(pt, i) + 64 <= |base|
    ensures ChecksumOk(base, At(pt, i)) <==> SumsUp(base, At(pt, i))
    ensures PartOk(base, pt, i) <==> Good(base, At(pt, i))
    ensures IsBit(base, pt, i) <==> ToPL(base, At(pt, i))
  {
    hide Le32, ChecksumOk, ForPL, ToPL, Total;
    ChecksumMeans(base, At(pt, i));
    ToPLMeans(base, At(pt, i));
  }

  lemma ImageMeans(base: seq<byte>, pt: nat, i: nat, size: nat)
    requires At(pt, i) + 64 <= |base| && PartOk(base, pt, i)
    ensures Fits(base, At(pt, i))
    ensures IsImage(base, pt, i) && RvbiSize(Payload(base, pt, i)) == Some(size) <==> HoldsImage(base, At(pt, i), size)
  {
    hide Le32, ChecksumOk, ForPL, RvbiSize, ToPL, IsRvbi;
    ToPLMeans(base, At(pt, i));
    RvbiMeans(Payload(base, pt, i), size);
  }

  ghost predicate HasHeader(base: seq<byte>)
    requires |base| >= 0xa0
  {
    Le32(base, 0x20) == 0xaa99_5566 && Le32(base, 0x24) == 0x584c_4e58
  }

  /** The image header table and at least one partition header are inside, on word boundaries. */
  ghost predicate TablesFit(base: seq<byte>)
    requires |base| >= 0xa0
  {
    var it, pt := Le32(base, 0x98) as int, Le32(base, 0x9c) as int;
    it % 4 == 0 && pt % 4 == 0 && it + 8 <= |base| && pt + 64 <= |base|
  }

  /** The boot header points to a table of 1 to 32 partition headers inside the file. */
  ghost predicate HasTable(base: seq<byte>, pt: nat, n: nat) {
    && |base| >= 0xa0 && HasHeader(base) && TablesFit(base)
    && pt == Le32(base, 0x9c) && n == Le32(base, Le32(base, 0x98) + 4) && 1 <= n <= 32 && pt + 64 * n <= |base|
  }

  /** The headers before i are in order. */
  ghost predicate GoodBefore(base: seq<byte>, pt: nat, i: nat)
    requires pt + 64 * i <= |base|
  {
    forall j: nat {:trigger At(pt, j)} | j < i :: Good(base, At(pt, j))
  }

  lemma BeforeMeans(base: seq<byte>, pt: nat, i: nat)
    requires pt + 64 * i <= |base|
    ensures AllOk(base, pt, i) <==> GoodBefore(base, pt, i)
  {
    hide PartOk, Good;
    forall j: nat | j < i ensures PartOk(base, pt, j) <==> Good(base, At(pt, j)) { PartMeans(base, pt, j); }
    if AllOk(base, pt, i) {
      forall j: nat | j < i ensures Good(base, At(pt, j)) { assert PartOk(base, pt, j); }
    }
    if GoodBefore(base, pt, i) {
      forall j: nat | j < i ensures PartOk(base, pt, j) { assert Good(base, At(pt, j)); }
    }
  }

  /** Partition i is the first for the PL. */
  ghost predicate FirstToPL(base: seq<byte>, pt: nat, n: nat, i: nat)
    requires pt + 64 * n <= |base|
  {
    i < n && ToPL(base, At(pt, i)) && forall j: nat {:trigger At(pt, j)} | j < i :: !ToPL(base, At(pt, j))
  }

  /** Partition i is the first to hold an image, and size is the image's. */
  ghost predicate FirstHolds(base: seq<byte>, pt: nat, n: nat, i: nat, size: nat)
    requires pt + 64 * n <= |base| && GoodBefore(base, pt, n)
  {
    && i < n && HoldsImage(base, At(pt, i), size)
    && forall j: nat, z: nat {:trigger HoldsImage(base, At(pt, j), z)} | j < i :: !HoldsImage(base, At(pt, j), z)
  }

  ghost predicate IsFirstBit(base: seq<byte>, pt: nat, n: nat, i: nat)
    requires pt + 64 * n <= |base|
  {
    i < n && IsBit(base, pt, i) && forall j: nat {:trigger IsBit(base, pt, j)} | j < i :: !IsBit(base, pt, j)
  }

  lemma FirstBitMeans(base: seq<byte>, pt: nat, n: nat, i: nat)
    requires pt + 64 * n <= |base|
    ensures IsFirstBit(base, pt, n, i) <==> FirstToPL(base, pt, n, i)
  {
    hide IsBit, ToPL, PartOk, Good;
    if i < n {
      PartMeans(base, pt, i);
      forall j: nat | j < i ensures IsBit(base, pt, j) <==> ToPL(base, At(pt, j)) { PartMeans(base, pt, j); }
      if IsFirstBit(base, pt, n, i) {
        forall j: nat | j < i ensures !ToPL(base, At(pt, j)) { assert !IsBit(base, pt, j); }
      }
      if FirstToPL(base, pt, n, i) {
        forall j: nat | j < i ensures !IsBit(base, pt, j) { assert !ToPL(base, At(pt, j)); }
      }
    }
  }

  /** What the scan found for the PL is the first partition for it. */
  lemma BitFound(base: seq<byte>, pt: nat, n: nat, f: Found) returns (i: nat)
    requires pt + 64 * n <= |base| && FirstBit(base, pt, n, f) && f.bit.Some?
    ensures FirstToPL(base, pt, n, i) && f.bit == Some(4 * PartOff(base, pt, i)) && f.bitWords == PartWords(base, pt, i)
  {
    hide IsBit, ToPL, FirstToPL, PartOff, PartWords;
    i :| i < n && IsBit(base, pt, i) && (forall j {:trigger IsBit(base, pt, j)} | 0 <= j < i :: !IsBit(base, pt, j))
         && f.bit == Some(4 * PartOff(base, pt, i)) && f.bitWords == PartWords(base, pt, i);
    FirstBitMeans(base, pt, n, i);
  }

  lemma BitMissing(base: seq<byte>, pt: nat, n: nat, f: Found, i: nat)
    requires pt + 64 * n <= |base| && FirstBit(base, pt, n, f) && FirstToPL(base, pt, n, i)
    ensures f.bit.Some?
  {
    hide IsBit, ToPL, FirstToPL, PartOff, PartWords;
    FirstBitMeans(base, pt, n, i);
    assert IsBit(base, pt, i);
  }

  lemma FirstIsOne(base: seq<byte>, pt: nat, n: nat, i: nat, k: nat)
    requires pt + 64 * n <= |base| && FirstToPL(base, pt, n, i) && FirstToPL(base, pt, n, k)
    ensures i == k
  {
    hide ToPL;
    assert At(pt, i) + 64 <= |base| && At(pt, k) + 64 <= |base|;
  }

  ghost predicate IsFirstImage(base: seq<byte>, pt: nat, n: nat, i: nat)
    requires pt + 64 * n <= |base| && AllOk(base, pt, n)
  {
    i < n && IsImage(base, pt, i) && forall j: nat {:trigger IsImage(base, pt, j)} | j < i :: !IsImage(base, pt, j)
  }

  lemma FirstImageMeans(base: seq<byte>, pt: nat, n: nat, i: nat, size: nat)
    requires pt + 64 * n <= |base| && AllOk(base, pt, n) && GoodBefore(base, pt, n)
    ensures IsFirstImage(base, pt, n, i) && RvbiSize(Payload(base, pt, i)) == Some(size) <==> FirstHolds(base, pt, n, i, size)
  {
    hide IsImage, HoldsImage, PartOk, Good, RvbiSize, Payload;
    if i < n {
      assert PartOk(base, pt, i);
      ImageMeans(base, pt, i, size);
      if FirstHolds(base, pt, n, i, size) {
        forall j: nat | j < i ensures !IsImage(base, pt, j) { assert PartOk(base, pt, j); SomeImage(base, pt, j); }
      }
      if IsFirstImage(base, pt, n, i) {
        forall j: nat, z: nat | j < i ensures Fits(base, At(pt, j)) && !HoldsImage(base, At(pt, j), z) {
          assert PartOk(base, pt, j);
          SomeImage(base, pt, j);
        }
      }
    }
  }

  lemma SomeImage(base: seq<byte>, pt: nat, i: nat)
    requires At(pt, i) + 64 <= |base| && PartOk(base, pt, i)
    ensures Fits(base, At(pt, i))
    ensures IsImage(base, pt, i) <==> exists z: nat {:trigger HoldsImage(base, At(pt, i), z)} :: HoldsImage(base, At(pt, i), z)
  {
    hide HoldsImage, PartOk, Fits, Le32, ForPL, RvbiSize;
    ImageMeans(base, pt, i, 0);
    if IsImage(base, pt, i) { ImageMeans(base, pt, i, RvbiSize(Payload(base, pt, i)).value); }
    forall z: nat | HoldsImage(base, At(pt, i), z) ensures IsImage(base, pt, i) { ImageMeans(base, pt, i, z); }
  }

  /** What the scan found as the image is in the first partition that holds one. */
  lemma ImageFound(base: seq<byte>, pt: nat, n: nat, f: Found) returns (i: nat)
    requires pt + 64 * n <= |base| && AllOk(base, pt, n) && GoodBefore(base, pt, n) && FirstImage(base, pt, n, f) && f.img.Some?
    ensures FirstHolds(base, pt, n, i, f.imgBytes) && f.img == Some(4 * PartOff(base, pt, i))
  {
    hide HoldsImage, FirstHolds, GoodBefore, PartOk, PartOff, RvbiSize, Payload, IsBit;
    i :| i < n && IsImage(base, pt, i) && (forall j {:trigger IsImage(base, pt, j)} | 0 <= j < i :: !IsImage(base, pt, j))
         && f.img == Some(4 * PartOff(base, pt, i)) && f.imgBytes == RvbiSize(Payload(base, pt, i)).value;
    FirstImageMeans(base, pt, n, i, f.imgBytes);
  }

  lemma ImageMissing(base: seq<byte>, pt: nat, n: nat, f: Found, i: nat, size: nat)
    requires pt + 64 * n <= |base| && AllOk(base, pt, n) && GoodBefore(base, pt, n) && FirstImage(base, pt, n, f)
    requires FirstHolds(base, pt, n, i, size)
    ensures f.img.Some?
  {
    hide HoldsImage, FirstHolds, GoodBefore, PartOk, PartOff, RvbiSize, Payload, IsBit;
    FirstImageMeans(base, pt, n, i, size);
    assert IsImage(base, pt, i);
  }

  lemma FirstHoldsOne(base: seq<byte>, pt: nat, n: nat, i: nat, y: nat, k: nat, z: nat)
    requires pt + 64 * n <= |base| && GoodBefore(base, pt, n)
    requires FirstHolds(base, pt, n, i, y) && FirstHolds(base, pt, n, k, z)
    ensures i == k && y == z
  {
    hide IsRvbi, Le32;
    assert At(pt, i) + 64 <= |base| && At(pt, k) + 64 <= |base|;
    assert i == k;
    SizeIsOne(base[4 * Le32(base, At(pt, i) + 20)..4 * Le32(base, At(pt, i) + 20) + 4 * Le32(base, At(pt, i) + 4)], y, z);
  }

  lemma SizeIsOne(p: seq<byte>, y: nat, z: nat)
    requires IsRvbi(p, y) && IsRvbi(p, z)
    ensures y == z
  {
    hide CrcWord;
  }

  /** The file as it must be for `out` to be found: the bitstream is in partition i, the
      image in partition j. */
  ghost predicate Describes(base: seq<byte>, out: Found, pt: nat, n: nat, i: nat, j: nat) {
    && HasTable(base, pt, n) && GoodBefore(base, pt, n)
    && FirstToPL(base, pt, n, i) && FirstHolds(base, pt, n, j, out.imgBytes)
    && out == Found(Some(4 * Le32(base, At(pt, i) + 20)), Le32(base, At(pt, i) + 4), Some(4 * Le32(base, At(pt, j) + 20)), out.imgBytes, n)
  }

  /** With a table in range, the parser's verdict is the scan's. */
  lemma ParseScans(base: seq<byte>, pt: nat, n: nat)
    requires HasTable(base, pt, n)
    ensures var (v, f) := Scan(base, pt, n, 0, NOTHING);
            Parse(base) == if v != Accepted then (v, f)
                           else (if f.bit.None? then NoBitstream else if f.img.None? then NoImage else Accepted, f.(nparts := n))
  {
    hide Le32, Scan;
    assert (|base| - pt) / 64 >= n;
  }

  lemma AcceptedHasTable(base: seq<byte>) returns (pt: nat, n: nat)
    requires Parse(base).0 !in {TooShort, NoBootHeader, TablesOutOfRange, CountOutOfRange}
    ensures HasTable(base, pt, n)
  {
    hide Le32, Scan;
    pt := Le32(base, 0x9c);
    n := Le32(base, Le32(base, 0x98) + 4);
    assert pt + 64 * n <= |base|;
  }

  lemma AcceptedIsDescribed(base: seq<byte>, out: Found) returns (pt: nat, n: nat, i: nat, j: nat)
    requires Parse(base) == (Accepted, out)
    ensures Describes(base, out, pt, n, i, j)
  {
    hide Parse, Scan, Le32, AllOk, GoodBefore, FirstBit, FirstImage, FirstToPL, FirstHolds, HasTable;
    pt, n := AcceptedHasTable(base);
    TableFits(base, pt, n);
    ParseScans(base, pt, n);
    ScanFindsFirst(base, pt, n);
    BeforeMeans(base, pt, n);
    var f := Scan(base, pt, n, 0, NOTHING).1;
    i := BitFound(base, pt, n, f);
    j := ImageFound(base, pt, n, f);
  }

  lemma DescribedIsAccepted(base: seq<byte>, out: Found, pt: nat, n: nat, i: nat, j: nat)
    requires Describes(base, out, pt, n, i, j)
    ensures Parse(base) == (Accepted, out)
  {
    hide Parse, Scan, Le32, AllOk, GoodBefore, FirstBit, FirstImage, FirstToPL, FirstHolds, HasTable;
    TableFits(base, pt, n);
    ParseScans(base, pt, n);
    ScanFindsFirst(base, pt, n);
    BeforeMeans(base, pt, n);
    var f := Scan(base, pt, n, 0, NOTHING).1;
    BitMissing(base, pt, n, f, i);
    ImageMissing(base, pt, n, f, j, out.imgBytes);
    var k := BitFound(base, pt, n, f);
    FirstIsOne(base, pt, n, i, k);
    var l := ImageFound(base, pt, n, f);
    FirstHoldsOne(base, pt, n, j, out.imgBytes, l, f.imgBytes);
  }

  lemma TableFits(base: seq<byte>, pt: nat, n: nat)
    requires HasTable(base, pt, n)
    ensures pt + 64 * n <= |base| && 1 <= n
  {
  }

  /** Exactly the files in order are accepted, with the bitstream of the first partition
      for the PL and the first RVBI image of the others. */
  lemma AcceptedMeans(base: seq<byte>, out: Found)
    ensures Parse(base) == (Accepted, out) <==> exists pt, n, i, j :: Describes(base, out, pt, n, i, j)
  {
    hide Parse, Describes;
    if Parse(base) == (Accepted, out) {
      var pt, n, i, j := AcceptedIsDescribed(base, out);
    }
    forall pt, n, i, j | Describes(base, out, pt, n, i, j) ensures Parse(base) == (Accepted, out) {
      DescribedIsAccepted(base, out, pt, n, i, j);
    }
  }

  // ---- refusals ----

  /** Header i is the first that is not in order. */
  ghost predicate FirstFault(base: seq<byte>, pt: nat, n: nat, i: nat)
    requires pt + 64 * n <= |base|
  {
    i < n && GoodBefore(base, pt, i) && !Good(base, At(pt, i))
  }

  lemma {:induction false} ScanFaults(base: seq<byte>, pt: nat, n: nat, i: nat, f: Found, k: nat)
    requires i <= k < n && pt + 64 * n <= |base| && FirstFault(base, pt, n, k)
    ensures Scan(base, pt, n, i, f).0 == if SumsUp(base, At(pt, k)) then PastTheEnd else BadChecksum
    decreases k - i
  {
    hide Le32, ChecksumOk, TakePartition, SumsUp, Fits;
    PartMeans(base, pt, i);
    ScanStep(base, pt, n, i, f);
    if i < k {
      assert Good(base, At(pt, i));
      ScanFaults(base, pt, n, i + 1, OneStep(base, pt + 64 * i, f).1, k);
    }
  }

  /** The first header that is not in order decides between the two refusals. */
  lemma FaultIsRefused(base: seq<byte>, pt: nat, n: nat, k: nat)
    requires HasTable(base, pt, n) && FirstFault(base, pt, n, k)
    ensures Parse(base).0 == if SumsUp(base, At(pt, k)) then PastTheEnd else BadChecksum
  {
    hide Parse, Scan, Le32, SumsUp, FirstFault;
    ParseScans(base, pt, n);
    assert k < n by { KBelow(base, pt, n, k); }
    ScanFaults(base, pt, n, 0, NOTHING, k);
  }

  lemma KBelow(base: seq<byte>, pt: nat, n: nat, k: nat)
    requires pt + 64 * n <= |base| && FirstFault(base, pt, n, k)
    ensures k < n
  {
  }

  ghost predicate NoneToPL(base: seq<byte>, pt: nat, n: nat)
    requires pt + 64 * n <= |base|
  {
    forall i: nat {:trigger At(pt, i)} | i < n :: !ToPL(base, At(pt, i))
  }

  ghost predicate NoneHolds(base: seq<byte>, pt: nat, n: nat)
    requires pt + 64 * n <= |base| && GoodBefore(base, pt, n)
  {
    forall i: nat, z: nat {:trigger HoldsImage(base, At(pt, i), z)} | i < n :: !HoldsImage(base, At(pt, i), z)
  }

  /** What a verdict says about a file with a table. */
  ghost predicate TableDeserves(base: seq<byte>, v: Verdict, pt: nat, n: nat)
    requires pt + 64 * n <= |base|
  {
    match v
    case BadChecksum => exists k {:trigger FirstFault(base, pt, n, k)} :: FirstFault(base, pt, n, k) && !SumsUp(base, At(pt, k))
    case PastTheEnd => exists k {:trigger FirstFault(base, pt, n, k)} :: FirstFault(base, pt, n, k) && SumsUp(base, At(pt, k))
    case NoBitstream => GoodBefore(base, pt, n) && NoneToPL(base, pt, n)
    case NoImage => GoodBefore(base, pt, n) && !NoneToPL(base, pt, n) && NoneHolds(base, pt, n)
    case Accepted => GoodBefore(base, pt, n) && !NoneToPL(base, pt, n) && !NoneHolds(base, pt, n)
    case _ => false
  }

  lemma {:induction false} LeastFault(base: seq<byte>, pt: nat, n: nat, i: nat) returns (k: nat)
    requires i <= n && pt + 64 * n <= |base| && GoodBefore(base, pt, i) && !GoodBefore(base, pt, n)
    ensures FirstFault(base, pt, n, k)
    decreases n - i
  {
    hide Good;
    assert i < n;
    if Good(base, At(pt, i)) { k := LeastFault(base, pt, n, i + 1); } else { k := i; }
  }

  lemma NoBit(base: seq<byte>, pt: nat, n: nat, f: Found)
    requires pt + 64 * n <= |base| && FirstBit(base, pt, n, f)
    ensures f.bit.None? <==> NoneToPL(base, pt, n)
  {
    hide IsBit, ToPL, PartOff, PartWords, PartOk, Good;
    if f.bit.Some? {
      var i := BitFound(base, pt, n, f);
      assert ToPL(base, At(pt, i));
    } else {
      forall i: nat | i < n ensures !ToPL(base, At(pt, i)) {
        PartMeans(base, pt, i);
        assert !IsBit(base, pt, i);
      }
    }
  }

  lemma NoImg(base: seq<byte>, pt: nat, n: nat, f: Found)
    requires pt + 64 * n <= |base| && AllOk(base, pt, n) && GoodBefore(base, pt, n) && FirstImage(base, pt, n, f)
    ensures f.img.None? <==> NoneHolds(base, pt, n)
  {
    hide IsImage, HoldsImage, PartOff, PartOk, SumsUp, Fits, RvbiSize, Payload;
    if f.img.Some? {
      var i := ImageFound(base, pt, n, f);
      assert HoldsImage(base, At(pt, i), f.imgBytes);
    } else {
      forall i: nat, z: nat | i < n ensures Fits(base, At(pt, i)) && !HoldsImage(base, At(pt, i), z) {
        assert PartOk(base, pt, i);
        SomeImage(base, pt, i);
        assert !IsImage(base, pt, i);
      }
    }
  }

  lemma TableVerdict(base: seq<byte>, pt: nat, n: nat)
    requires HasTable(base, pt, n)
    ensures TableDeserves(base, Parse(base).0, pt, n)
  {
    hide Parse, Scan, Le32, AllOk, GoodBefore, FirstBit, FirstImage, FirstToPL, FirstHolds, HasTable, SumsUp, FirstFault, NoneToPL, NoneHolds;
    TableFits(base, pt, n);
    BeforeMeans(base, pt, n);
    if GoodBefore(base, pt, n) {
      ParseScans(base, pt, n);
      ScanFindsFirst(base, pt, n);
      var f := Scan(base, pt, n, 0, NOTHING).1;
      NoBit(base, pt, n, f);
      NoImg(base, pt, n, f);
    } else {
      assert GoodBefore(base, pt, 0) by { NothingBefore(base, pt); }
      var k := LeastFault(base, pt, n, 0);
      KBelow(base, pt, n, k);
      FaultIsRefused(base, pt, n, k);
    }
  }

  lemma NothingBefore(base: seq<byte>, pt: nat)
    requires pt <= |base|
    ensures GoodBefore(base, pt, 0)
  {
  }

  lemma FaultIsOne(base: seq<byte>, pt: nat, n: nat, i: nat, k: nat)
    requires pt + 64 * n <= |base| && FirstFault(base, pt, n, i) && FirstFault(base, pt, n, k)
    ensures i == k && !GoodBefore(base, pt, n)
  {
    hide Good;
    assert At(pt, i) + 64 <= |base| && At(pt, k) + 64 <= |base|;
  }

  /** A file with a table deserves one verdict only. */
  lemma DeservesOne(base: seq<byte>, u: Verdict, v: Verdict, pt: nat, n: nat)
    requires pt + 64 * n <= |base| && TableDeserves(base, u, pt, n) && TableDeserves(base, v, pt, n)
    ensures u == v
  {
    hide GoodBefore, FirstFault, SumsUp, NoneToPL, NoneHolds;
    forall i, k | FirstFault(base, pt, n, i) && FirstFault(base, pt, n, k)
      ensures i == k && !GoodBefore(base, pt, n)
    {
      FaultIsOne(base, pt, n, i, k);
    }
  }

  /** What each verdict says about the file. */
  ghost predicate Deserves(base: seq<byte>, v: Verdict) {
    if |base| < 0xa0 then v == TooShort
    else if !HasHeader(base) then v == NoBootHeader
    else if !TablesFit(base) then v == TablesOutOfRange
    else
      var pt, n := Le32(base, 0x9c) as int, Le32(base, Le32(base, 0x98) + 4) as int;
      if !(1 <= n <= 32 && pt + 64 * n <= |base|) then v == CountOutOfRange else TableDeserves(base, v, pt, n)
  }

  /** Every file gets exactly the verdict it deserves. */
  lemma VerdictMeans(base: seq<byte>, v: Verdict)
    ensures Parse(base).0 == v <==> Deserves(base, v)
  {
    hide Le32, Scan, TableDeserves;
    if |base| >= 0xa0 && HasHeader(base) && TablesFit(base) {
      var pt: int, n: int := Le32(base, 0x9c), Le32(base, Le32(base, 0x98) + 4);
      if 1 <= n <= 32 && pt + 64 * n <= |base| {
        TableVerdict(base, pt, n);
        if TableDeserves(base, v, pt, n) { DeservesOne(base, v, Parse(base).0, pt, n); }
      } else {
        assert n > (|base| - pt) / 64 || n == 0 || n > 32;
      }
    }
  }

  // ---- a changed word ----

  lemma OtherWord(base: seq<byte>, o: nat, w: word, p: nat)
    requires o + 4 <= |base| && p + 4 <= |base| && o % 4 == 0 && p % 4 == 0
    ensures Le32(Spliced(base, o, LeBytes(w)), p) == if p == o then w else Le32(base, p)
  {
    hide LeBytes;
    var d := LeBytes(w);
    var b := Spliced(base, o, d);
    if p == o {
      assert b[o..o + 4] == d;
      Le32Slice(b, o);
    } else if p < o {
      assert p + 4 <= o;
    } else {
      assert o + 4 <= p;
    }
  }

  lemma {:induction false} TotalChanged(base: seq<byte>, o: nat, w: word, h: nat, k: nat)
    requires o + 4 <= |base| && h + 4 * k <= |base| && o % 4 == 0 && h % 4 == 0
    ensures Total(Spliced(base, o, LeBytes(w)), h, k) == Total(base, h, k) + if h <= o < h + 4 * k then w - Le32(base, o) else 0
    decreases k
  {
    hide Le32, Spliced, LeBytes;
    if k > 0 {
      TotalChanged(base, o, w, h, k - 1);
      OtherWord(base, o, w, h + 4 * (k - 1));
    }
  }

  /** A word that is not one of those by which the table is found. */
  ghost predicate Elsewhere(base: seq<byte>, o: nat)
    requires |base| >= 0xa0
  {
    o !in {0x20, 0x24, 0x98, 0x9c, Le32(base, 0x98) as int + 4}
  }

  lemma SameTable(base: seq<byte>, o: nat, w: word, pt: nat, n: nat)
    requires HasTable(base, pt, n) && o + 4 <= |base| && o % 4 == 0 && Elsewhere(base, o)
    ensures HasTable(Spliced(base, o, LeBytes(w)), pt, n)
  {
    hide Le32, Spliced, LeBytes;
    OtherWord(base, o, w, 0x20); OtherWord(base, o, w, 0x24); OtherWord(base, o, w, 0x98); OtherWord(base, o, w, 0x9c);
    OtherWord(base, o, w, Le32(base, 0x98) + 4);
  }

  lemma StillGood(base: seq<byte>, o: nat, w: word, h: nat)
    requires h + 64 <= |base| && o + 4 <= |base| && o % 4 == 0 && h % 4 == 0 && !(h <= o < h + 64) && Good(base, h)
    ensures Good(Spliced(base, o, LeBytes(w)), h)
  {
    hide Le32, Spliced, LeBytes, Total;
    TotalChanged(base, o, w, h, 16);
    OtherWord(base, o, w, h + 20); OtherWord(base, o, w, h + 4);
  }

  lemma NoLongerSums(base: seq<byte>, o: nat, w: word, h: nat)
    requires h + 64 <= |base| && o % 4 == 0 && h % 4 == 0 && h <= o < h + 64 && w != Le32(base, o) && SumsUp(base, h)
    ensures !SumsUp(Spliced(base, o, LeBytes(w)), h)
  {
    hide Le32, Spliced, LeBytes, Total;
    TotalChanged(base, o, w, h, 16);
    Moved(Total(base, h, 16), w - Le32(base, o));
  }

  lemma Moved(t: int, d: int)
    requires -WORD < d < WORD && d != 0
    ensures (t + d) % WORD != t % WORD
  {
  }

  /** Change one word of a partition header of an accepted file and the file is refused
      for its checksum. */
  lemma ChangedWordIsRefused(base: seq<byte>, i: nat, k: nat, w: word)
    requires Parse(base).0 == Accepted && Elsewhere(base, Le32(base, 0x9c) + 64 * i + 4 * k)
    requires i < Le32(base, Le32(base, 0x98) + 4) && k < 16 && w != Le32(base, Le32(base, 0x9c) + 64 * i + 4 * k)
    ensures Parse(Spliced(base, Le32(base, 0x9c) + 64 * i + 4 * k, LeBytes(w))).0 == BadChecksum
  {
    hide Parse, Le32, Spliced, LeBytes, Total, Good, SumsUp, FirstToPL, FirstHolds;
    var pt, n, _, _ := AcceptedIsDescribed(base, Parse(base).1);
    var o := pt + 64 * i + 4 * k;
    var b := Spliced(base, o, LeBytes(w));
    SameTable(base, o, w, pt, n);
    forall j: nat | j < i ensures Good(b, At(pt, j)) {
      assert Good(base, At(pt, j));
      StillGood(base, o, w, At(pt, j));
    }
    assert Good(base, At(pt, i));
    GoodSums(base, At(pt, i));
    NoLongerSums(base, o, w, At(pt, i));
    GoodSums(b, At(pt, i));
    assert FirstFault(b, pt, n, i);
    FaultIsRefused(b, pt, n, i);
  }

  lemma GoodSums(base: seq<byte>, h: nat)
    requires h + 64 <= |base|
    ensures Good(base, h) ==> SumsUp(base, h)
  {
  }
}
