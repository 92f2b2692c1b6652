/** A structure block can be read in one way only. */
module FdtUnique {
  import opened Bytes
  import opened FdtTokens

  lemma BeInjective(x: word, y: word)
    requires BeBytes(x) == BeBytes(y)
    ensures x == y
  {
    assert Be32(BeBytes(x), 0) == Be32(BeBytes(y), 0);
  }

  lemma TagDecides(t: Token, u: Token)
    requires Tag(t) == Tag(u)
    ensures t.Begin? == u.Begin? && t.EndNode? == u.EndNode? && t.Prop? == u.Prop? && t.Nop? == u.Nop? && t.End? == u.End?
  {
  }

  /** A name ends at its first zero. */
  lemma NameUnique(a: seq<byte>, b: seq<byte>, x: seq<byte>, y: seq<byte>)
    requires 0 !in a && 0 !in b && a + [0] <= x && b + [0] <= y && (x <= y || y <= x)
    ensures a == b
  {
    assert forall i | 0 <= i < |a| :: x[i] == a[i];
    assert forall i | 0 <= i < |b| :: y[i] == b[i];
    assert x[|a|] == 0 && y[|b|] == 0;
    assert |a| == |b|;
  }

  lemma PropUnique(no: word, val: seq<byte>, no': word, val': seq<byte>, x: seq<byte>, y: seq<byte>)
    requires |val| < LIMIT && |val'| < LIMIT && (x <= y || y <= x)
    requires BeBytes(|val|) + BeBytes(no) + val <= x && BeBytes(|val'|) + BeBytes(no') + val' <= y
    ensures no == no' && val == val'
  {
    hide BeBytes;
    var p, q := BeBytes(|val|) + BeBytes(no) + val, BeBytes(|val'|) + BeBytes(no') + val';
    assert x[..4] == p[..4] == BeBytes(|val|) && x[4..8] == p[4..8] == BeBytes(no);
    assert y[..4] == q[..4] == BeBytes(|val'|) && y[4..8] == q[4..8] == BeBytes(no');
    assert x[..8] == y[..8];
    assert x[..8][..4] == x[..4] && y[..8][..4] == y[..4] && x[..8][4..] == x[4..8] && y[..8][4..] == y[4..8];
    BeInjective(|val|, |val'|);
    BeInjective(no, no');
    assert x[8..|p|] == val && y[8..|q|] == val';
  }

  /** Two blocks that start alike start with the same token. */
  lemma FirstUnique(t: Token, u: Token, x: seq<byte>, y: seq<byte>)
    requires TokenOk(t) && TokenOk(u) && Enc(t) <= x && Enc(u) <= y && (x <= y || y <= x)
    ensures t == u
  {
    hide BeBytes, Padded, Body;
    Halves(t, x);
    Halves(u, y);
    assert x[..4] == y[..4] && (x[4..] <= y[4..] || y[4..] <= x[4..]);
    BeInjective(Tag(t), Tag(u));
    TagDecides(t, u);
    BodyUnique(t, u, x[4..], y[4..]);
  }

  lemma Halves(t: Token, x: seq<byte>)
    requires TokenOk(t) && Enc(t) <= x
    ensures |x| >= 4 && x[..4] == BeBytes(Tag(t)) && Body(t) <= x[4..]
  {
    hide BeBytes;
    assert Enc(t)[..4] == BeBytes(Tag(t)) && Enc(t)[4..] == Padded(Body(t));
  }

  lemma BodyUnique(t: Token, u: Token, x: seq<byte>, y: seq<byte>)
    requires TokenOk(t) && TokenOk(u) && Tag(t) == Tag(u) && Body(t) <= x && Body(u) <= y && (x <= y || y <= x)
    ensures t == u
  {
    hide BeBytes;
    TagDecides(t, u);
    if t.Begin? { NameUnique(t.name, u.name, x, y); }
    if t.Prop? { PropUnique(t.nameoff, t.val, u.nameoff, u.val, x, y); }
  }

  lemma FlatFront(ts: seq<Token>)
    requires TokensOk(ts) && ts != []
    ensures TokensOk(ts[1..]) && TokenOk(ts[0]) && Flat(ts) == Enc(ts[0]) + Flat(ts[1..])
  {
    hide Enc, TotalCells, TokenCells, Flat, TokensOk;
    TokensTake(ts, 1);
    TokensTake(ts, 0);
    assert ts[..1] == [ts[0]] && [ts[0]] + ts[1..] == ts;
    FlatOne(ts[0]);
    FlatConcat([ts[0]], ts[1..]);
  }

  /** The tokens of a structure block are determined by its bytes. */
  lemma {:induction false} FlatUnique(a: seq<Token>, b: seq<Token>)
    requires TokensOk(a) && TokensOk(b) && Flat(a) == Flat(b)
    ensures a == b
    decreases |a|
  {
    hide Enc, Flat, TokensOk, TotalCells, TokenCells;
    Empty(a);
    Empty(b);
    if a != [] && b != [] {
      FlatFront(a);
      FlatFront(b);
      FirstUnique(a[0], b[0], Flat(a), Flat(b));
      SameRest(Enc(a[0]), Flat(a[1..]), Flat(b[1..]));
      FlatUnique(a[1..], b[1..]);
      assert a == [a[0]] + a[1..] && b == [b[0]] + b[1..];
    }
  }

  lemma SameRest(e: seq<byte>, r: seq<byte>, s: seq<byte>)
    requires e + r == e + s
    ensures r == s
  {
    assert (e + r)[|e|..] == r && (e + s)[|e|..] == s;
  }

  lemma Empty(a: seq<Token>)
    requires TokensOk(a)
    ensures a == [] <==> Flat(a) == []
  {
  }
}
