/** The structure block of a flattened device tree: tokens and their bytes (sections 5.4.1
    and 5.4.2 of the Devicetree Specification v0.4). */
module FdtTokens {
  import opened Bytes

  const FDT_BEGIN_NODE := 1
  const FDT_END_NODE := 2
  const FDT_PROP := 3
  const FDT_NOP := 4
  const FDT_END := 9

  /** Blobs, and so all sizes in them, are smaller than this: no int overflows. */
  const LIMIT := 0x1000_0000

  datatype Token = Begin(name: seq<byte>) | EndNode | Prop(nameoff: word, val: seq<byte>) | Nop | End

  function Tag(t: Token): word {
    match t
    case Begin(_) => FDT_BEGIN_NODE
    case EndNode => FDT_END_NODE
    case Prop(_, _) => FDT_PROP
    case Nop => FDT_NOP
    case End => FDT_END
  }

  /** How many four-byte cells x bytes take. */
  function Cells(x: nat): nat { (x + 3) / 4 }

  function Align4(x: nat): (y: nat)
    ensures x <= y < x + 4 && y == 4 * Cells(x)
  {
    4 * Cells(x)
  }

  /** Bytes followed by zeros up to a multiple of four. */
  function Padded(s: seq<byte>): (p: seq<byte>)
    ensures |p| == Align4(|s|) && s <= p
  {
    s + Zeros(Align4(|s|) - |s|)
  }

  predicate TokenOk(t: Token) {
    match t
    case Begin(name) => 0 !in name && |name| < LIMIT
    case Prop(_, val) => |val| < LIMIT
    case _ => true
  }

  predicate TokensOk(ts: seq<Token>) { forall i | 0 <= i < |ts| :: TokenOk(ts[i]) }

  function Body(t: Token): (s: seq<byte>)
    requires TokenOk(t)
  {
    match t
    case Begin(name) => name + [0]
    case Prop(nameoff, val) => BeBytes(|val|) + BeBytes(nameoff) + val
    case _ => []
  }

  function TokenCells(t: Token): (n: nat)
    requires TokenOk(t)
    ensures n >= 1
  {
    1 + Cells(|Body(t)|)
  }

  function TotalCells(ts: seq<Token>): (n: nat)
    requires TokensOk(ts)
    ensures n >= |ts|
  {
    if ts == [] then 0 else TotalCells(ts[..|ts| - 1]) + TokenCells(ts[|ts| - 1])
  }

  /** A token as it stands in the structure block. */
  function Enc(t: Token): (s: seq<byte>)
    requires TokenOk(t)
    ensures |s| == 4 * TokenCells(t)
  {
    BeBytes(Tag(t)) + Padded(Body(t))
  }

  function Flat(ts: seq<Token>): (s: seq<byte>)
    requires TokensOk(ts)
    ensures |s| == 4 * TotalCells(ts)
  {
    if ts == [] then [] else Flat(ts[..|ts| - 1]) + Enc(ts[|ts| - 1])
  }

  /** Where token k starts. */
  function Off(ts: seq<Token>, k: nat): (o: nat)
    requires TokensOk(ts) && k <= |ts|
    ensures o == 4 * TotalCells(ts[..k]) && o >= 4 * k
  {
    |Flat(ts[..k])|
  }

  lemma TokensConcat(a: seq<Token>, b: seq<Token>)
    requires TokensOk(a) && TokensOk(b)
    ensures TokensOk(a + b)
  {
    hide TokenOk;
  }

  lemma TokensTake(a: seq<Token>, k: nat)
    requires TokensOk(a) && k <= |a|
    ensures TokensOk(a[..k]) && TokensOk(a[k..]) && (k < |a| ==> TokenOk(a[k]))
  {
    hide TokenOk;
  }

  lemma {:induction false} FlatConcat(a: seq<Token>, b: seq<Token>)
    requires TokensOk(a) && TokensOk(b)
    ensures TokensOk(a + b) && Flat(a + b) == Flat(a) + Flat(b)
    decreases |b|
  {
    hide Enc, TokensOk, TokenCells, TotalCells;
    TokensConcat(a, b);
    if b == [] { assert a + b == a; }
    else {
      var n := |b| - 1;
      TokensTake(b, n);
      FlatConcat(a, b[..n]);
      assert (a + b)[..|a + b| - 1] == a + b[..n];
      assert Flat(a + b) == Flat(a + b[..n]) + Enc(b[n]);
    }
  }

  lemma FlatOne(t: Token)
    requires TokenOk(t)
    ensures TokensOk([t]) && Flat([t]) == Enc(t)
  {
    hide Enc;
    assert [t][..0] == [];
    assert Flat([]) + Enc(t) == Enc(t);
  }

  lemma OffNext(ts: seq<Token>, k: nat)
    requires TokensOk(ts) && k < |ts|
    ensures Off(ts, k + 1) == Off(ts, k) + |Enc(ts[k])|
    ensures Flat(ts[..k + 1]) == Flat(ts[..k]) + Enc(ts[k])
  {
    hide Enc;
    assert ts[..k + 1][..k] == ts[..k];
  }

  /** Where token k stands in the block. */
  lemma TokenAt(ts: seq<Token>, k: nat)
    requires TokensOk(ts) && k < |ts|
    ensures Off(ts, k + 1) == Off(ts, k) + |Enc(ts[k])| <= |Flat(ts)|
    ensures Flat(ts)[Off(ts, k)..Off(ts, k + 1)] == Enc(ts[k])
    ensures Flat(ts)[..Off(ts, k)] == Flat(ts[..k]) && Flat(ts)[Off(ts, k + 1)..] == Flat(ts[k + 1..])
  {
    hide Enc, Flat, TokensOk, TotalCells, TokenCells;
    TokensTake(ts, k);
    TokensTake(ts, k + 1);
    OffNext(ts, k);
    FlatConcat(ts[..k + 1], ts[k + 1..]);
    assert ts[..k + 1] + ts[k + 1..] == ts;
  }

  lemma OffEnd(ts: seq<Token>)
    requires TokensOk(ts)
    ensures Off(ts, |ts|) == |Flat(ts)| && Off(ts, 0) == 0
  {
    assert ts[..|ts|] == ts && ts[..0] == [];
  }

  lemma OffWithin(ts: seq<Token>, k: nat)
    requires TokensOk(ts) && k <= |ts|
    ensures Off(ts, k) <= |Flat(ts)| && (k < |ts| ==> Off(ts, k) + 4 <= |Flat(ts)|)
  {
    hide Flat, Enc;
    if k < |ts| { TokenAt(ts, k); } else { OffEnd(ts); }
  }
}
