/** Walking a blob: the token walk over its bytes. */
module FdtWalk {
  import opened Bytes
  import opened FdtTokens

  // words of the header
  const TOTALSIZE := 1
  const OFF_STRUCT := 2
  const OFF_STRINGS := 3
  const OFF_RSVMAP := 4
  const VERSION := 5
  const LAST_COMP := 6
  const SIZE_STRINGS := 8
  const SIZE_STRUCT := 9
  const HEADER := 40

  /** fdt_hdr */
  function Hdr(b: seq<byte>, field: nat): word
    requires 4 * field + 4 <= |b|
  {
    Be32(b, 4 * field)
  }

  /** Where things are, as the header says. */
  predicate Sized(b: seq<byte>) {
    && HEADER <= |b| < LIMIT && Hdr(b, TOTALSIZE) <= |b|
    && HEADER <= Hdr(b, OFF_STRUCT) && Hdr(b, OFF_STRUCT) as int + Hdr(b, SIZE_STRUCT) as int <= Hdr(b, TOTALSIZE)
    && HEADER <= Hdr(b, OFF_STRINGS) && Hdr(b, OFF_STRINGS) as int + Hdr(b, SIZE_STRINGS) as int <= Hdr(b, TOTALSIZE)
  }

  function Struct(b: seq<byte>): (s: seq<byte>)
    requires Sized(b)
    ensures |s| == Hdr(b, SIZE_STRUCT)
  {
    var o: int, n: int := Hdr(b, OFF_STRUCT), Hdr(b, SIZE_STRUCT);
    b[o..o + n]
  }

  function Strings(b: seq<byte>): (s: seq<byte>)
    requires Sized(b)
    ensures |s| == Hdr(b, SIZE_STRINGS)
  {
    var o: int, n: int := Hdr(b, OFF_STRINGS), Hdr(b, SIZE_STRINGS);
    b[o..o + n]
  }

  /** The structure block of b is the tokens ts. */
  ghost predicate Encodes(b: seq<byte>, ts: seq<Token>) {
    Sized(b) && TokensOk(ts) && Struct(b) == Flat(ts)
  }

  /** The tag and the body of token k, where the walk reads them. */
  lemma TokenBytes(b: seq<byte>, ts: seq<Token>, k: nat)
    requires Encodes(b, ts) && k < |ts|
    ensures var at := Hdr(b, OFF_STRUCT) as int + Off(ts, k);
            && at + 4 + |Padded(Body(ts[k]))| <= Hdr(b, OFF_STRUCT) as int + Hdr(b, SIZE_STRUCT) as int
            && b[at..at + 4] == BeBytes(Tag(ts[k]))
            && b[at + 4..at + 4 + |Padded(Body(ts[k]))|] == Padded(Body(ts[k]))
    ensures Off(ts, k + 1) == Off(ts, k) + 4 + |Padded(Body(ts[k]))| <= Hdr(b, SIZE_STRUCT)
  {
    hide Be32, BeBytes, Padded, Body, Off, Flat;
    TokenAt(ts, k);
    var o: int, n: int := Hdr(b, OFF_STRUCT), Hdr(b, SIZE_STRUCT);
    var e, s := Enc(ts[k]), Struct(b);
    assert |e| == 4 + |Padded(Body(ts[k]))|;
    var x, y := Off(ts, k), Off(ts, k + 1);
    SliceSlice(b, o, o + n, x, y);
    assert e[..4] == BeBytes(Tag(ts[k])) && e[4..] == Padded(Body(ts[k]));
    SliceSlice(b, o + x, o + y, 0, 4);
    SliceSlice(b, o + x, o + y, 4, y - x);
    assert e[0..4] == e[..4] && e[4..y - x] == e[4..];
  }

  lemma BeSlice(s: seq<byte>, o: nat)
    requires o + 4 <= |s|
    ensures Be32(s, o) == Be32(s[o..o + 4], 0)
  {
  }

  lemma BodyLength(t: Token)
    requires TokenOk(t)
    ensures t.Begin? ==> Body(t) == t.name + [0] && 0 !in t.name
    ensures t.Prop? ==> |t.val| < LIMIT && |Padded(Body(t))| == Align4(8 + |t.val|)
    ensures !t.Begin? && !t.Prop? ==> |Padded(Body(t))| == 0
  {
    hide BeBytes;
  }

  /** fdt_next_tag: at the start of a token, its tag and where the next one starts. */
  method NextTag(b: seq<byte>, off: int, ghost ts: seq<Token>, ghost k: nat) returns (tag: word, next: int)
    requires Encodes(b, ts) && k <= |ts| && off == Off(ts, k)
    ensures k < |ts| ==> tag == Tag(ts[k]) && next == Off(ts, k + 1)
    ensures k == |ts| ==> tag == FDT_END
  {
    hide Be32, Flat, Off, Padded, Body, BeBytes, Align4, TokenOk, Struct;
    tag, next := FDT_END, 0;
    var stop := tag;
    OffEnd(ts);
    OffWithin(ts, k);
    var size := Hdr(b, SIZE_STRUCT) as int;
    if off < 0 || off + 4 > size { return stop, next; }
    TokenBytes(b, ts, k);
    BodyLength(ts[k]);
    ghost var t := ts[k];
    var p: int := Hdr(b, OFF_STRUCT);
    tag := BeAt(b, p + off, Tag(t));
    var n := off + 4;
    OffAligned(ts, k);
    if tag == FDT_BEGIN_NODE {
      n := EndOfName(b, p, n, size, t.name);
    } else if tag == FDT_PROP {
      if n + 8 > size { return stop, next; }
      PropBytes(b, p + n, t.nameoff, t.val);
      var len := BeAt(b, p + n, |t.val|);
      CellsShift(n, 8 + len as int);
      n := Align4(n + 8 + len as int);
    } else if tag != FDT_END_NODE && tag != FDT_NOP && tag != FDT_END {
      return stop, next;
    }
    if n > size { return stop, next; }
    next := n;
  }

  lemma OffAligned(ts: seq<Token>, k: nat)
    requires TokensOk(ts) && k <= |ts|
    ensures (Off(ts, k) + 4) % 4 == 0
  {
    hide Flat;
    var q := TotalCells(ts[..k]);
    assert Off(ts, k) + 4 == 4 * (q + 1);
  }

  method BeAt(b: seq<byte>, o: nat, ghost w: word) returns (r: word)
    requires o + 4 <= |b| && b[o..o + 4] == BeBytes(w)
    ensures r == w
  {
    BeSlice(b, o);
    r := Be32(b, o);
  }

  /** Past the zero that ends a name, and on to the next cell. */
  method EndOfName(b: seq<byte>, p: nat, from: nat, size: nat, ghost name: seq<byte>) returns (n: nat)
    requires 0 !in name && from + |Padded(name + [0])| <= size && p + size <= |b| && from % 4 == 0
    requires b[p + from..p + from + |Padded(name + [0])|] == Padded(name + [0])
    ensures n == from + |Padded(name + [0])|
  {
    n := from;
    ghost var s := Padded(name + [0]);
    while n < size && b[p + n] != 0
      invariant from <= n <= from + |name|
    {
      assert b[p + from..p + from + |s|][n - from] == s[n - from] == (name + [0])[n - from];
      n := n + 1;
    }
    assert b[p + from..p + from + |s|][n - from] == s[n - from] == (name + [0])[n - from];
    CellsShift(from, n + 1 - from);
    n := Align4(n + 1);
  }

  lemma CellsShift(a: nat, x: nat)
    requires a % 4 == 0
    ensures Align4(a + x) == a + Align4(x)
  {
    var q := a / 4;
    assert a == 4 * q;
    assert (4 * q + x + 3) / 4 == q + (x + 3) / 4;
  }

  lemma PropBytes(b: seq<byte>, o: nat, nameoff: word, val: seq<byte>)
    requires |val| < LIMIT && o + |Padded(Body(Prop(nameoff, val)))| <= |b|
    requires b[o..o + |Padded(Body(Prop(nameoff, val)))|] == Padded(Body(Prop(nameoff, val)))
    ensures o + 8 + |val| <= |b|
    ensures b[o..o + 4] == BeBytes(|val|) && b[o + 4..o + 8] == BeBytes(nameoff) && b[o + 8..o + 8 + |val|] == val
  {
    hide BeBytes;
    var t, s := BeBytes(|val|) + BeBytes(nameoff) + val, Padded(Body(Prop(nameoff, val)));
    assert t <= s;
    assert t[0..4] == BeBytes(|val|) && t[4..8] == BeBytes(nameoff) && t[8..8 + |val|] == val;
    SliceSlice(b, o, o + |s|, 0, 4);
    SliceSlice(b, o, o + |s|, 4, 8);
    SliceSlice(b, o, o + |s|, 8, 8 + |val|);
  }
}
