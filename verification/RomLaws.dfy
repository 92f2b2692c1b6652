/** What each answer of the boot ROM's loader says about an image, field by field, and why
    a damaged head is never loaded. */
module RomLaws {
  import opened Basics
  import opened Bytes
  import opened RomMap
  import opened Crc
  import opened BootBin
  import opened RomImage

  /** The header's magic, version, segment count and command line length are acceptable. */
  ghost predicate HeadOk(s: seq<byte>)
    requires |s| >= 32
  {
    s[..4] == [0x52, 0x56, 0x42, 0x49] && s[4..6] == [1, 0] && 1 <= Le16(s, 6) <= 8 && Le16(s, 16) <= 255
  }

  function HeadLength(s: seq<byte>): (n: nat)
    requires |s| >= 32
    ensures n >= 32
  {
    32 + 12 * Le16(s, 6) + Le16(s, 16)
  }

  /** An acceptable header with its segment table and command line. */
  ghost predicate Whole(s: seq<byte>) { |s| >= 32 && HeadOk(s) && |s| >= HeadLength(s) }

  /** The head without its CRC field, which counts as zero. */
  function Covered(s: seq<byte>): seq<byte>
    requires |s| >= 32 && |s| >= HeadLength(s)
  {
    s[..28] + [0, 0, 0, 0] + s[32..HeadLength(s)]
  }

  ghost predicate CrcOk(s: seq<byte>)
    requires Whole(s)
  {
    CrcWord(Covered(s)) == Le32(s, 28)
  }

  /** Segment i is not larger in the file than in memory and lies in the payload area. */
  ghost predicate SegInside(s: seq<byte>, i: nat, pe: word)
    requires |s| >= 44 + 12 * i
  {
    var addr, filesz, memsz := Le32(s, 32 + 12 * i) as int, Le32(s, 36 + 12 * i) as int, Le32(s, 40 + 12 * i) as int;
    filesz <= memsz && 0x8000_4000 <= addr && addr + memsz <= pe as int
  }

  ghost predicate InsideBefore(s: seq<byte>, n: nat, pe: word)
    requires |s| >= 32 + 12 * n
  {
    forall i: nat | i < n :: SegInside(s, i, pe)
  }

  /** Segment i is the first outside. */
  ghost predicate FirstOutside(s: seq<byte>, i: nat, pe: word)
    requires Whole(s)
  {
    i < Le16(s, 6) && InsideBefore(s, i, pe) && !SegInside(s, i, pe)
  }

  /** The sum of the first n file sizes. */
  function SizeSum(s: seq<byte>, n: nat): nat
    requires |s| >= 32 + 12 * n
  {
    if n == 0 then 0 else SizeSum(s, n - 1) + Le32(s, 36 + 12 * (n - 1))
  }

  /** The entry point is one of segment i's file bytes. */
  ghost predicate Enters(s: seq<byte>, i: nat)
    requires |s| >= 44 + 12 * i
  {
    var addr, filesz := Le32(s, 32 + 12 * i) as int, Le32(s, 36 + 12 * i) as int;
    addr <= Le32(s, 8) as int < addr + filesz
  }

  ghost predicate SomeEnters(s: seq<byte>)
    requires Whole(s)
  {
    exists i: nat :: i < Le16(s, 6) && Enters(s, i)
  }

  // ---- the model's checks in these words ----

  lemma HeadMeans(s: seq<byte>)
    requires |s| >= 32
    ensures HeadOk(s) <==> HeaderOk(s)
    ensures HeadLength(s) == Meta(s)
  {
    assert [s[0], s[1], s[2], s[3]] == s[..4] && [s[4], s[5]] == s[4..6];
  }

  lemma CoverMeans(s: seq<byte>)
    requires |s| >= 32 && |s| >= HeadLength(s)
    ensures HeadLength(s) == Meta(s) && HeaderCrc(s, Meta(s)) == CrcWord(Covered(s))
  {
    hide CrcWord;
    assert Zeros(4) == [0, 0, 0, 0];
  }

  lemma SegMeans(s: seq<byte>, i: nat, pe: word)
    requires Whole(s) && i < Le16(s, 6)
    ensures |s| >= Meta(s) && SegsOf(s)[i] == Seg(Le32(s, 32 + 12 * i), Le32(s, 36 + 12 * i), Le32(s, 40 + 12 * i))
    ensures InRange(SegsOf(s)[i], pe) <==> SegInside(s, i, pe)
    ensures Holds(SegsOf(s)[i], Le32(s, 8)) <==> Enters(s, i)
  {
    hide Le16, HeadOk;
    TableWord(s, Le16(s, 6), 12 * i);
    TableWord(s, Le16(s, 6), 12 * i + 4);
    TableWord(s, Le16(s, 6), 12 * i + 8);
    EndMeans(SegsOf(s)[i], pe);
  }

  lemma TableWord(s: seq<byte>, n: nat, o: nat)
    requires |s| >= 32 + 12 * n && o + 4 <= 12 * n
    ensures Le32(s[32..32 + 12 * n], o) == Le32(s, 32 + o)
  {
  }

  lemma EndMeans(g: Seg, pe: word)
    ensures InRange(g, pe) <==> g.filesz <= g.memsz && PAYLOAD_BASE <= g.addr && g.addr as int + g.memsz as int <= pe as int
  {
  }

  lemma {:induction false} SumMeans(s: seq<byte>, n: nat)
    requires Whole(s) && n <= Le16(s, 6)
    ensures |s| >= Meta(s) && FileSum(SegsOf(s)[..n]) == SizeSum(s, n)
  {
    hide Le16, Le32, HeadOk, SegsOf;
    if n > 0 {
      SumMeans(s, n - 1);
      SegMeans(s, n - 1, 0);
      assert SegsOf(s)[..n][..n - 1] == SegsOf(s)[..n - 1];
    }
  }

  /** All the segments are inside, their sizes add up and the entry is in one of them. */
  ghost predicate SegsOk(s: seq<byte>, pe: word)
    requires Whole(s)
  {
    InsideBefore(s, Le16(s, 6), pe) && SizeSum(s, Le16(s, 6)) % WORD == Le32(s, 20) && SomeEnters(s)
  }

  lemma InsideMeans(s: seq<byte>, n: nat, pe: word)
    requires Whole(s) && n <= Le16(s, 6)
    ensures |s| >= Meta(s) && (AllInRange(SegsOf(s)[..n], pe) <==> InsideBefore(s, n, pe))
  {
    hide Le16, Le32, HeadOk, SegsOf, InRange, SegInside;
    forall i: nat | i < n ensures |s| >= Meta(s) && (InRange(SegsOf(s)[..n][i], pe) <==> SegInside(s, i, pe)) { SegMeans(s, i, pe); }
    if AllInRange(SegsOf(s)[..n], pe) {
      forall i: nat | i < n ensures SegInside(s, i, pe) { assert InRange(SegsOf(s)[..n][i], pe); }
    }
  }

  lemma EnterMeans(s: seq<byte>)
    requires Whole(s)
    ensures |s| >= Meta(s) && (EntryOk(SegsOf(s), Le32(s, 8)) <==> SomeEnters(s))
  {
    hide Le16, Le32, HeadOk, SegsOf, Holds, Enters;
    forall i: nat | i < Le16(s, 6)
      ensures |s| >= Meta(s) && |SegsOf(s)| == Le16(s, 6) && (Holds(SegsOf(s)[i], Le32(s, 8)) <==> Enters(s, i)) { SegMeans(s, i, 0); }
  }

  lemma FirstMeans(s: seq<byte>, i: nat, pe: word)
    requires Whole(s) && |s| >= Meta(s)
    ensures FirstBad(SegsOf(s), pe) == i && i < Le16(s, 6) <==> FirstOutside(s, i, pe)
    ensures FirstBad(SegsOf(s), pe) == Le16(s, 6) <==> InsideBefore(s, Le16(s, 6), pe)
  {
    hide Le16, Le32, HeadOk, SegsOf, InRange, SegInside, InsideBefore, AllInRange, FirstBad;
    var ss := SegsOf(s);
    var f := FirstBad(ss, pe);
    assert ss[..|ss|] == ss;
    InsideMeans(s, |ss|, pe);
    if f < |ss| { InsideMeans(s, f, pe); SegMeans(s, f, pe); }
    if i < |ss| {
      InsideMeans(s, i, pe);
      SegMeans(s, i, pe);
      if f < i { NotBefore(s, f, i, pe); }
      if i < f { assert f <= |ss|; StillInside(s, i, f, pe); }
    }
  }

  lemma NotBefore(s: seq<byte>, f: nat, i: nat, pe: word)
    requires f < i && |s| >= 32 + 12 * i && !SegInside(s, f, pe)
    ensures !InsideBefore(s, i, pe)
  {
    hide SegInside;
  }

  lemma StillInside(s: seq<byte>, i: nat, f: nat, pe: word)
    requires i < f && |s| >= 32 + 12 * f && InsideBefore(s, f, pe)
    ensures SegInside(s, i, pe)
  {
  }

  /** The data behind the head are there. */
  ghost predicate HasData(s: seq<byte>)
    requires Whole(s)
  {
    |s| >= HeadLength(s) + SizeSum(s, Le16(s, 6))
  }

  ghost predicate DataOk(s: seq<byte>)
    requires Whole(s) && HasData(s)
  {
    CrcWord(s[HeadLength(s)..HeadLength(s) + SizeSum(s, Le16(s, 6))]) == Le32(s, 24)
  }

  lemma CheckedMeans(s: seq<byte>, pe: word)
    requires Whole(s)
    ensures Checked(s, pe) == HdrCrc <==> !CrcOk(s)
    ensures forall i: nat {:trigger FirstOutside(s, i, pe)} :: Checked(s, pe) == Range(i) <==> CrcOk(s) && FirstOutside(s, i, pe)
    ensures Checked(s, pe) == Sizes <==> CrcOk(s) && InsideBefore(s, Le16(s, 6), pe) && SizeSum(s, Le16(s, 6)) % WORD != Le32(s, 20)
    ensures Checked(s, pe) == Entry <==> CrcOk(s) && InsideBefore(s, Le16(s, 6), pe) && SizeSum(s, Le16(s, 6)) % WORD == Le32(s, 20) && !SomeEnters(s)
    ensures Checked(s, pe) == Ok <==> CrcOk(s) && SegsOk(s, pe)
    ensures Checked(s, pe) in {HdrCrc, Sizes, Entry, Ok} || Checked(s, pe).Range?
  {
    hide Le16, Le32, HeadOk, HeaderOk, CrcWord, SegsOf, InsideBefore, SomeEnters, FirstBad, FirstOutside, EntryOk, Covered, HeaderCrc;
    HeadMeans(s);
    CoverMeans(s);
    forall i: nat
      ensures FirstBad(SegsOf(s), pe) == i && i < Le16(s, 6) <==> FirstOutside(s, i, pe)
      ensures FirstBad(SegsOf(s), pe) == Le16(s, 6) <==> InsideBefore(s, Le16(s, 6), pe)
    {
      FirstMeans(s, i, pe);
    }
    FirstMeans(s, 0, pe);
    assert SegsOf(s)[..Le16(s, 6)] == SegsOf(s);
    SumMeans(s, Le16(s, 6));
    EnterMeans(s);
  }

  /** What every answer of the loader says about the image. */
  lemma AnswerMeans(s: seq<byte>, pe: word, lineErr: bool)
    ensures var r := LoadResult(s, pe, lineErr);
            && (r == BadHdr <==> |s| >= 32 && !HeadOk(s))
            && (r == HdrCrc <==> Whole(s) && !CrcOk(s))
            && (forall i: nat {:trigger Range(i)} :: r == Range(i) <==> Whole(s) && CrcOk(s) && FirstOutside(s, i, pe))
            && (r == Sizes <==> Whole(s) && CrcOk(s) && InsideBefore(s, Le16(s, 6), pe) && SizeSum(s, Le16(s, 6)) % WORD != Le32(s, 20))
            && (r == Entry <==> Whole(s) && CrcOk(s) && InsideBefore(s, Le16(s, 6), pe)
                                && SizeSum(s, Le16(s, 6)) % WORD == Le32(s, 20) && !SomeEnters(s))
            && (r == Line <==> Whole(s) && CrcOk(s) && SegsOk(s, pe) && HasData(s) && lineErr)
            && (r == DataCrc <==> Whole(s) && CrcOk(s) && SegsOk(s, pe) && HasData(s) && !lineErr && !DataOk(s))
            && (r == Ok <==> Whole(s) && CrcOk(s) && SegsOk(s, pe) && HasData(s) && !lineErr && DataOk(s))
            && (r == Cut <==> |s| < 32 || (HeadOk(s) && !Whole(s)) || (Whole(s) && CrcOk(s) && SegsOk(s, pe) && !HasData(s)))
  {
    hide Le16, Le32, HeadOk, HeaderOk, CrcWord, SegsOf, InsideBefore, SomeEnters, FirstOutside, HeadLength, Meta, CrcOk, SegsOk, SegVerdict, HeaderCrc;
    if |s| >= 32 {
      HeadMeans(s);
      if Whole(s) {
        CheckedMeans(s, pe);
        assert SegsOf(s)[..Le16(s, 6)] == SegsOf(s);
        SumMeans(s, Le16(s, 6));
      }
    }
  }

  // ---- a damaged head ----

  /** A window of up to four bytes of the head, wholly before, in or after its CRC field. */
  ghost predicate Window(x: nat, n: nat, head: nat) {
    1 <= n <= 4 && (x + n <= 28 || (28 <= x && x + n <= 32) || (32 <= x && x + n <= head))
  }

  lemma ByteChanged(s: seq<byte>, x: nat, v: seq<byte>, i: nat)
    requires x + |v| <= |s| && i < |s|
    ensures Spliced(s, x, v)[i] == if x <= i < x + |v| then v[i - x] else s[i]
  {
  }

  lemma CoveredAt(s: seq<byte>, i: nat)
    requires |s| >= 32 && |s| >= HeadLength(s) && i < HeadLength(s)
    ensures |Covered(s)| == HeadLength(s) && Covered(s)[i] == if 28 <= i < 32 then 0 else s[i]
  {
    hide HeadLength;
  }

  lemma CoveredSpliced(s: seq<byte>, x: nat, v: seq<byte>)
    requires |s| >= 32 && |s| >= HeadLength(s) && Window(x, |v|, HeadLength(s)) && !(28 <= x < 32)
    requires HeadLength(Spliced(s, x, v)) == HeadLength(s)
    ensures |Covered(s)| == HeadLength(s) && Covered(Spliced(s, x, v)) == Spliced(Covered(s), x, v)
  {
    hide HeadLength, Covered, Spliced;
    var t := Spliced(s, x, v);
    CoveredAt(s, 0);
    CoveredAt(t, 0);
    forall i: nat | i < HeadLength(s) ensures Covered(t)[i] == Spliced(Covered(s), x, v)[i] {
      CoveredAt(s, i);
      CoveredAt(t, i);
      ByteChanged(s, x, v, i);
      ByteChanged(Covered(s), x, v, i);
    }
  }

  lemma CoveredSlice(s: seq<byte>, x: nat, n: nat)
    requires |s| >= 32 && |s| >= HeadLength(s) && Window(x, n, HeadLength(s)) && !(28 <= x < 32)
    ensures |Covered(s)| == HeadLength(s) && Covered(s)[x..x + n] == s[x..x + n]
  {
    hide HeadLength, Covered;
    CoveredAt(s, 0);
    forall i: nat | x <= i < x + n ensures Covered(s)[i] == s[i] { CoveredAt(s, i); }
  }

  lemma CoveredChanges(s: seq<byte>, x: nat, v: seq<byte>)
    requires |s| >= 32 && |s| >= HeadLength(s) && Window(x, |v|, HeadLength(s)) && !(28 <= x < 32)
    requires v != s[x..x + |v|] && HeadLength(Spliced(s, x, v)) == HeadLength(s)
    ensures CrcWord(Covered(Spliced(s, x, v))) != CrcWord(Covered(s))
  {
    hide CrcWord, HeadLength, Covered;
    var t, u, c := Spliced(s, x, v), s[x..x + |v|], Covered(s);
    CoveredSpliced(s, x, v);
    CoveredSlice(s, x, |v|);
    assert c == c[..x] + u + c[x + |v|..];
    BurstChangesCrc(0, c[..x], u, v, c[x + |v|..]);
    if CrcWord(Covered(t)) == CrcWord(c) { CrcWordInjective(Covered(t), c); }
  }

  lemma CoveredStays(s: seq<byte>, x: nat, v: seq<byte>)
    requires |s| >= 32 && |s| >= HeadLength(s) && 28 <= x && x + |v| <= 32
    ensures HeadLength(Spliced(s, x, v)) == HeadLength(s) && Covered(Spliced(s, x, v)) == Covered(s)
  {
    hide Spliced, Covered;
    var t := Spliced(s, x, v);
    ByteChanged(s, x, v, 6); ByteChanged(s, x, v, 7); ByteChanged(s, x, v, 16); ByteChanged(s, x, v, 17);
    CoveredAt(s, 0);
    CoveredAt(t, 0);
    forall i: nat | i < HeadLength(s) ensures Covered(t)[i] == Covered(s)[i] {
      CoveredAt(s, i);
      CoveredAt(t, i);
      ByteChanged(s, x, v, i);
    }
  }

  lemma SameField(s: seq<byte>, x: nat, v: seq<byte>)
    requires |s| >= 32 && 28 <= x && x + |v| <= 32 && Le32(Spliced(s, x, v), 28) == Le32(s, 28)
    ensures v == s[x..x + |v|]
  {
    hide Le32, Spliced, LeBytes;
    var t := Spliced(s, x, v);
    BytesOfWord(t, 28);
    BytesOfWord(s, 28);
    forall i: nat | i < |v| ensures v[i] == s[x..x + |v|][i] {
      ByteChanged(s, x, v, x + i);
      assert t[28..32][x + i - 28] == t[x + i] && s[28..32][x + i - 28] == s[x + i];
    }
  }

  lemma SameCrcField(s: seq<byte>, x: nat, v: seq<byte>)
    requires |s| >= 32 && x + |v| <= |s| && (x + |v| <= 28 || 32 <= x)
    ensures Le32(Spliced(s, x, v), 28) == Le32(s, 28)
  {
  }

  /** With up to four neighbouring bytes of its head changed, the head has another CRC. */
  lemma CrcNoLongerFits(s: seq<byte>, x: nat, v: seq<byte>)
    requires |s| >= 32 && |s| >= HeadLength(s) && Window(x, |v|, HeadLength(s)) && v != s[x..x + |v|]
    requires HeadLength(Spliced(s, x, v)) == HeadLength(s) && CrcWord(Covered(s)) == Le32(s, 28)
    ensures CrcWord(Covered(Spliced(s, x, v))) != Le32(Spliced(s, x, v), 28)
  {
    hide Le32, HeadLength, CrcWord, Spliced, Covered;
    if 28 <= x < 32 {
      CoveredStays(s, x, v);
      if Le32(Spliced(s, x, v), 28) == Le32(s, 28) { SameField(s, x, v); }
    } else {
      CoveredChanges(s, x, v);
      SameCrcField(s, x, v);
    }
  }

  /** An image that is loaded is not loaded once up to four neighbouring bytes of its head
      have changed: unless the header itself is refused, its CRC is wrong. */
  lemma DamagedHeadIsRefused(s: seq<byte>, x: nat, v: seq<byte>, pe: word, lineErr: bool)
    requires LoadResult(s, pe, lineErr) == Ok && Window(x, |v|, HeadLength(s)) && v != s[x..x + |v|]
    requires HeadLength(Spliced(s, x, v)) == HeadLength(s)
    ensures var t := Spliced(s, x, v); LoadResult(t, pe, lineErr) == if HeadOk(t) then HdrCrc else BadHdr
  {
    hide Le16, Le32, HeadOk, HeadLength, CrcWord, LoadResult, Spliced, Covered, SegsOk, HasData, DataOk, FirstOutside, InsideBefore, SomeEnters, SizeSum;
    AnswerMeans(s, pe, lineErr);
    AnswerMeans(Spliced(s, x, v), pe, lineErr);
    CrcNoLongerFits(s, x, v);
  }

  /** The PS program does not take such an image for one either. */
  lemma DamagedHeadIsNotRvbi(p: seq<byte>, x: nat, v: seq<byte>)
    requires RvbiSize(p).Some? && Window(x, |v|, HeadLength(p)) && v != p[x..x + |v|]
    requires HeadLength(Spliced(p, x, v)) == HeadLength(p)
    ensures RvbiSize(Spliced(p, x, v)) == None
  {
    hide Le16, Le32, CrcWord, Spliced, HeadLength, Meta, HeaderCrc;
    HeadMeans(p);
    HeadMeans(Spliced(p, x, v));
    CoverMeans(p);
    CoverMeans(Spliced(p, x, v));
    CrcNoLongerFits(p, x, v);
  }
}
