/** Editing a blob in place: the gap is opened or closed at a point of the structure block,
    and everything behind it, with the strings block, moves. */
module FdtEdit {
  import opened Bytes
  import opened FdtTokens
  import opened FdtWalk
  import opened FdtQuery

  // ---- moving bytes ----

  /** memcpy inside one buffer: words when everything is aligned, else bytes, forwards. */
  method Memcpy(a: array<byte>, d: nat, s: nat, n: nat)
    requires d + n <= a.Length && s + n <= a.Length && (d <= s || s + n <= d)
    modifies a
    ensures forall k | 0 <= k < a.Length :: a[k] == if d <= k < d + n then old(a[s + k - d]) else old(a[k])
  {
    var i := 0;
    if d % 4 == 0 && s % 4 == 0 && n % 4 == 0 {
      while i < n
        invariant 0 <= i <= n && i % 4 == 0
        invariant forall k | 0 <= k < a.Length :: a[k] == if d <= k < d + i then old(a[s + k - d]) else old(a[k])
      {
        a[d + i], a[d + i + 1], a[d + i + 2], a[d + i + 3] := a[s + i], a[s + i + 1], a[s + i + 2], a[s + i + 3];
        i := i + 4;
      }
    } else {
      while i < n
        invariant 0 <= i <= n
        invariant forall k | 0 <= k < a.Length :: a[k] == if d <= k < d + i then old(a[s + k - d]) else old(a[k])
      {
        a[d + i] := a[s + i];
        i := i + 1;
      }
    }
  }

  /** memmove: backwards where the target overlaps the rest of the source. */
  method Memmove(a: array<byte>, d: nat, s: nat, n: nat)
    requires d + n <= a.Length && s + n <= a.Length
    modifies a
    ensures forall k | 0 <= k < a.Length :: a[k] == if d <= k < d + n then old(a[s + k - d]) else old(a[k])
  {
    if d <= s || d >= s + n {
      Memcpy(a, d, s, n);
    } else {
      var i := n;
      while i > 0
        invariant 0 <= i <= n
        invariant forall k | 0 <= k < a.Length :: a[k] == if d + i <= k < d + n then old(a[s + k - d]) else old(a[k])
      {
        i := i - 1;
        a[d + i] := a[s + i];
      }
    }
  }

  // ---- the header ----

  /** A word of four bytes, big-endian. */
  method PutBe(a: array<byte>, o: nat, w: word)
    requires o + 4 <= a.Length
    modifies a
    ensures a[o..o + 4] == BeBytes(w)
    ensures forall k | 0 <= k < a.Length && !(o <= k < o + 4) :: a[k] == old(a[k])
  {
    var s := BeBytes(w);
    a[o], a[o + 1], a[o + 2], a[o + 3] := s[0], s[1], s[2], s[3];
  }

  lemma HdrIs(b: seq<byte>, field: nat, w: word)
    requires 4 * field + 4 <= |b| && b[4 * field..4 * field + 4] == BeBytes(w)
    ensures Hdr(b, field) == w
  {
    BeSlice(b, 4 * field);
  }

  lemma HdrSame(a: seq<byte>, b: seq<byte>, field: nat)
    requires 4 * field + 4 <= |a| && |a| == |b| && forall k | 4 * field <= k < 4 * field + 4 :: b[k] == a[k]
    ensures Hdr(b, field) == Hdr(a, field)
  {
  }

  /** The three header words that an edit of the structure block changes. */
  ghost predicate Resized(a: seq<byte>, b: seq<byte>, delta: int) {
    && HEADER <= |a| == |b|
    && Hdr(b, TOTALSIZE) as int == Hdr(a, TOTALSIZE) as int + delta
    && Hdr(b, OFF_STRINGS) as int == Hdr(a, OFF_STRINGS) as int + delta
    && Hdr(b, SIZE_STRUCT) as int == Hdr(a, SIZE_STRUCT) as int + delta
    && Hdr(b, OFF_STRUCT) == Hdr(a, OFF_STRUCT) && Hdr(b, SIZE_STRINGS) == Hdr(a, SIZE_STRINGS)
    && Hdr(b, OFF_RSVMAP) == Hdr(a, OFF_RSVMAP)
  }

  method SetSizes(a: array<byte>, structSize: word, strings: word, total: word)
    requires a.Length >= HEADER
    modifies a
    ensures Hdr(a[..], SIZE_STRUCT) == structSize && Hdr(a[..], OFF_STRINGS) == strings && Hdr(a[..], TOTALSIZE) == total
    ensures Hdr(a[..], OFF_STRUCT) == Hdr(old(a[..]), OFF_STRUCT) && Hdr(a[..], SIZE_STRINGS) == Hdr(old(a[..]), SIZE_STRINGS)
    ensures Hdr(a[..], OFF_RSVMAP) == Hdr(old(a[..]), OFF_RSVMAP)
    ensures forall k | HEADER <= k < a.Length :: a[k] == old(a[k])
  {
    hide Hdr, BeBytes;
    PutBe(a, 4 * SIZE_STRUCT, structSize);
    HdrIs(a[..], SIZE_STRUCT, structSize);
    ghost var b1 := a[..];
    PutBe(a, 4 * OFF_STRINGS, strings);
    HdrIs(a[..], OFF_STRINGS, strings);
    ghost var b2 := a[..];
    PutBe(a, 4 * TOTALSIZE, total);
    HdrIs(a[..], TOTALSIZE, total);
    HdrSame(b1, b2, SIZE_STRUCT); HdrSame(b2, a[..], SIZE_STRUCT); HdrSame(b2, a[..], OFF_STRINGS);
    HdrSame(old(a[..]), a[..], OFF_STRUCT); HdrSame(old(a[..]), a[..], SIZE_STRINGS); HdrSame(old(a[..]), a[..], OFF_RSVMAP);
  }

  // ---- opening and closing a gap ----

  /** layout_ok */
  predicate LayoutOk(b: seq<byte>) {
    && |b| >= HEADER && Hdr(b, OFF_RSVMAP) < Hdr(b, OFF_STRUCT)
    && Hdr(b, OFF_STRUCT) as int + Hdr(b, SIZE_STRUCT) as int <= Hdr(b, OFF_STRINGS)
    && Hdr(b, OFF_STRINGS) as int + Hdr(b, SIZE_STRINGS) as int == Hdr(b, TOTALSIZE)
  }

  function Max(x: int, y: int): int { if x < y then y else x }

  /** From a to b, y bytes at q took the place of x, what followed moved, and nothing past
      the larger of the two blobs was touched. */
  ghost predicate Shifted(a: seq<byte>, b: seq<byte>, q: nat, x: nat, y: nat)
  {
    && Resized(a, b, y - x)
    && var tot := Hdr(a, TOTALSIZE) as int;
       && HEADER <= q && q + x <= tot <= |a| && tot + y - x <= |a|
       && b[HEADER..q] == a[HEADER..q] && b[q + y..tot + y - x] == a[q + x..tot]
       && b[Max(tot, tot + y - x)..] == a[Max(tot, tot + y - x)..]
  }

  /** splice */
  method Splice(a: array<byte>, capacity: nat, at: nat, delta: int) returns (err: int)
    requires Sized(a[..]) && LayoutOk(a[..]) && capacity <= a.Length
    requires at - (if delta < 0 then delta else 0) <= Hdr(a[..], SIZE_STRUCT)
    modifies a
    ensures err == if Hdr(old(a[..]), TOTALSIZE) + delta > capacity then FDT_ERR_NOSPACE else 0
    ensures err != 0 ==> a[..] == old(a[..])
    ensures err == 0 ==> Shifted(old(a[..]), a[..], Hdr(old(a[..]), OFF_STRUCT) + at, Max(0, -delta), Max(0, delta))
  {
    hide Hdr, Shifted;
    var tot: int := Hdr(a[..], TOTALSIZE);
    if tot + delta > capacity { return FDT_ERR_NOSPACE; }
    var p: int := Hdr(a[..], OFF_STRUCT) + at;
    var x: int, y: int := Max(0, -delta), Max(0, delta);
    var tail := tot - p;
    if delta < 0 { tail := tail + delta; }
    assert p + x + tail == tot && y - x == delta;
    Memmove(a, p + y, p + x, tail);
    AfterMove(a, old(a[..]), p, x, y, tot);
    err := 0;
  }

  /** The header once the bytes have moved. */
  method AfterMove(a: array<byte>, ghost was: seq<byte>, ghost q: nat, x: nat, y: nat, tot: nat)
    requires |was| == a.Length && Sized(was) && LayoutOk(was) && (x == 0 || y == 0) && tot == Hdr(was, TOTALSIZE)
    requires Hdr(was, OFF_STRUCT) <= q && q + x <= Hdr(was, OFF_STRUCT) as int + Hdr(was, SIZE_STRUCT) as int && tot + y - x <= a.Length
    requires forall k {:trigger a[k]} | 0 <= k < a.Length :: a[k] == if q + y <= k < tot + y - x then was[k + x - y] else was[k]
    modifies a
    ensures Shifted(was, a[..], q, x, y)
  {
    hide Hdr, Shifted;
    ghost var m := a[..];
    HeaderKept(was, m);
    var structSize: int, strings: int := Hdr(a[..], SIZE_STRUCT), Hdr(a[..], OFF_STRINGS);
    SetSizes(a, structSize + y - x, strings + y - x, tot + y - x);
    ShiftedIs(was, m, a[..], q, x, y, tot);
  }

  lemma HeaderKept(a: seq<byte>, b: seq<byte>)
    requires HEADER <= |a| == |b| && forall k | 0 <= k < HEADER :: b[k] == a[k]
    ensures forall field | 0 <= field <= SIZE_STRUCT :: Hdr(b, field) == Hdr(a, field)
  {
  }

  /** The bytes after the move, and the header words after that. */
  lemma ShiftedIs(a: seq<byte>, m: seq<byte>, b: seq<byte>, q: nat, x: nat, y: nat, tot: nat)
    requires |m| == |a| && Resized(a, b, y - x) && tot == Hdr(a, TOTALSIZE)
    requires HEADER <= q && q + x <= tot <= |a| && tot + y - x <= |a|
    requires forall k {:trigger m[k]} | 0 <= k < |a| :: m[k] == if q + y <= k < tot + y - x then a[k + x - y] else a[k]
    requires forall k {:trigger b[k]} | HEADER <= k < |a| :: b[k] == m[k]
    ensures Shifted(a, b, q, x, y)
  {
    hide Hdr;
    assert b[HEADER..q] == a[HEADER..q];
    assert b[q + y..tot + y - x] == a[q + x..tot];
    assert b[Max(tot, tot + y - x)..] == a[Max(tot, tot + y - x)..];
  }

  lemma ShiftedEarlier(a: seq<byte>, b: seq<byte>, q: nat, x: nat, y: nat, w: nat)
    requires Shifted(a, b, q + w, x, y) && HEADER <= q
    ensures Shifted(a, b, q, x + w, y + w)
  {
    hide Hdr;
    assert b[HEADER..q] == b[HEADER..q + w][..q - HEADER];
  }

  /** Writing inside the gap leaves the rest shifted. */
  lemma ShiftedKept(a: seq<byte>, b: seq<byte>, c: seq<byte>, q: nat, x: nat, y: nat)
    requires Shifted(a, b, q, x, y) && |c| == |b| && forall k | 0 <= k < |b| && !(q <= k < q + y) :: c[k] == b[k]
    ensures Shifted(a, c, q, x, y)
  {
    hide Be32;
    HdrSame(b, c, TOTALSIZE); HdrSame(b, c, OFF_STRUCT); HdrSame(b, c, OFF_STRINGS); HdrSame(b, c, OFF_RSVMAP);
    HdrSame(b, c, SIZE_STRINGS); HdrSame(b, c, SIZE_STRUCT);
    var tot := Hdr(a, TOTALSIZE) as int;
    assert c[q + y..tot + y - x] == b[q + y..tot + y - x];
    assert c[Max(tot, tot + y - x)..] == b[Max(tot, tot + y - x)..];
  }

  /** The tail of a blob that was shifted, read where it is now. */
  lemma ShiftedTail(a: seq<byte>, b: seq<byte>, q: nat, x: nat, y: nat, from: nat, to: nat)
    requires Shifted(a, b, q, x, y) && q + x <= from <= to <= Hdr(a, TOTALSIZE)
    ensures b[from + y - x..to + y - x] == a[from..to]
  {
    hide Be32;
    var tot := Hdr(a, TOTALSIZE) as int;
    SliceSlice(a, q + x, tot, from - (q + x), to - (q + x));
    SliceSlice(b, q + y, tot + y - x, from - (q + x), to - (q + x));
  }

  lemma ShiftedSized(a: seq<byte>, b: seq<byte>, q: nat, x: nat, y: nat)
    requires Sized(a) && LayoutOk(a) && Shifted(a, b, q, x, y)
    requires Hdr(a, OFF_STRUCT) <= q && q + x <= Hdr(a, OFF_STRUCT) as int + Hdr(a, SIZE_STRUCT) as int
    ensures Sized(b) && LayoutOk(b) && Strings(b) == Strings(a)
  {
    hide Be32;
    var o: int, n: int := Hdr(a, OFF_STRINGS), Hdr(a, SIZE_STRINGS);
    ShiftedTail(a, b, q, x, y, o, o + n);
  }

  lemma FlatCut(ts: seq<Token>, i: nat)
    requires TokensOk(ts) && i <= |ts|
    ensures TokensOk(ts[..i]) && TokensOk(ts[i..]) && Off(ts, i) <= |Flat(ts)|
    ensures Flat(ts)[..Off(ts, i)] == Flat(ts[..i]) && Flat(ts)[Off(ts, i)..] == Flat(ts[i..])
  {
    hide Flat, TotalCells, TokenOk;
    FlatConcat(ts[..i], ts[i..]);
    assert ts[..i] + ts[i..] == ts;
  }

  lemma FlatSplit(ts: seq<Token>, i: nat, j: nat)
    requires TokensOk(ts) && i <= j <= |ts|
    ensures Off(ts, i) <= Off(ts, j) <= |Flat(ts)| && TokensOk(ts[..i]) && TokensOk(ts[j..])
    ensures Flat(ts)[..Off(ts, i)] == Flat(ts[..i]) && Flat(ts)[Off(ts, j)..] == Flat(ts[j..])
  {
    hide Flat, TotalCells, TokensOk;
    FlatCut(ts, i);
    FlatCut(ts, j);
    FlatCut(ts[..j], i);
    assert ts[..j][..i] == ts[..i];
  }

  lemma FlatReplaced(ts: seq<Token>, i: nat, j: nat, mid: seq<Token>)
    requires TokensOk(ts) && i <= j <= |ts| && TokensOk(mid)
    ensures Off(ts, i) <= Off(ts, j) <= |Flat(ts)| && TokensOk(ts[..i] + mid + ts[j..])
    ensures Flat(ts[..i] + mid + ts[j..]) == Flat(ts)[..Off(ts, i)] + Flat(mid) + Flat(ts)[Off(ts, j)..]
  {
    hide Flat, TotalCells, TokensOk, Off;
    FlatSplit(ts, i, j);
    FlatConcat(ts[..i], mid);
    FlatConcat(ts[..i] + mid, ts[j..]);
  }

  /** The bytes u to v of the structure block have been replaced. */
  lemma StructReplaced(a: seq<byte>, b: seq<byte>, u: nat, v: nat, g: seq<byte>)
    requires Sized(a) && LayoutOk(a) && u <= v <= Hdr(a, SIZE_STRUCT) && Shifted(a, b, Hdr(a, OFF_STRUCT) + u, v - u, |g|)
    requires var q := Hdr(a, OFF_STRUCT) as int + u; q + |g| <= |b| && b[q..q + |g|] == g
    ensures Sized(b) && LayoutOk(b) && Strings(b) == Strings(a) && Struct(b) == Struct(a)[..u] + g + Struct(a)[v..]
  {
    hide Hdr, LayoutOk, Strings, Shifted;
    var so: int, ss: int := Hdr(a, OFF_STRUCT), Hdr(a, SIZE_STRUCT);
    ShiftedSized(a, b, so + u, v - u, |g|);
    ShiftedTail(a, b, so + u, v - u, |g|, so + v, so + ss);
    ShiftedHead(a, b, so + u, v - u, |g|, so);
    Pasted(a, b, so, ss, u, v, g);
  }

  lemma ShiftedHead(a: seq<byte>, b: seq<byte>, q: nat, x: nat, y: nat, from: nat)
    requires Shifted(a, b, q, x, y) && HEADER <= from <= q
    ensures |b| == |a| && q <= |a| && b[from..q] == a[from..q]
    ensures Hdr(b, OFF_STRUCT) == Hdr(a, OFF_STRUCT) && Hdr(b, SIZE_STRUCT) as int == Hdr(a, SIZE_STRUCT) as int + y - x
  {
    hide Hdr;
    SliceSlice(a, HEADER, q, from - HEADER, q - HEADER);
    SliceSlice(b, HEADER, q, from - HEADER, q - HEADER);
  }

  /** Tokens i to j of the blob have been replaced by others. */
  lemma TokensReplaced(a: seq<byte>, b: seq<byte>, ts: seq<Token>, i: nat, j: nat, mid: seq<Token>)
    requires Encodes(a, ts) && LayoutOk(a) && i <= j <= |ts| && TokensOk(mid)
    requires Off(ts, i) <= Off(ts, j)
    requires Shifted(a, b, Hdr(a, OFF_STRUCT) + Off(ts, i), Off(ts, j) - Off(ts, i), |Flat(mid)|)
    requires var q := Hdr(a, OFF_STRUCT) as int + Off(ts, i); q + |Flat(mid)| <= |b| && b[q..q + |Flat(mid)|] == Flat(mid)
    ensures Encodes(b, ts[..i] + mid + ts[j..]) && LayoutOk(b) && Strings(b) == Strings(a)
  {
    hide Hdr, Flat, Off, TotalCells, LayoutOk, TokensOk, Strings, Shifted, Struct, Sized;
    FlatReplaced(ts, i, j, mid);
    StructReplaced(a, b, Off(ts, i), Off(ts, j), Flat(mid));
  }

  lemma Pasted(a: seq<byte>, b: seq<byte>, o: nat, n: nat, u: nat, v: nat, g: seq<byte>)
    requires u <= v <= n && o + n <= |a| && o + n + |g| - (v - u) <= |b|
    requires b[o..o + u] == a[o..o + u] && b[o + u..o + u + |g|] == g
    requires b[o + v + |g| - (v - u)..o + n + |g| - (v - u)] == a[o + v..o + n]
    ensures b[o..o + n + |g| - (v - u)] == a[o..o + n][..u] + g + a[o..o + n][v..]
  {
    var e := o + n + |g| - (v - u);
    assert b[o..e] == b[o..o + u] + b[o + u..o + u + |g|] + b[o + u + |g|..e];
    SliceSlice(a, o, o + n, 0, u);
    SliceSlice(a, o, o + n, v, n);
  }
}
