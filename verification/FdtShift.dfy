/** Where nodes are after one of them has been replaced: the ones behind it have moved. */
module FdtShift {
  import opened Bytes
  import opened FdtTree
  import opened FdtPath
  import opened FdtLaw

  /** Token x, once the node at t has grown by d tokens. */
  function Shift(x: int, t: int, d: int): int { if x <= t then x else x + d }

  /** A stretch of tokens from k to k + len has become one from k2 on: it lies behind t, or
      before t, or around the node at t. */
  ghost predicate Moved(k: nat, len: nat, t: nat, around: bool, d: int, k2: int) {
    (t < k && k2 == k + d) || (k + len <= t && k2 == k) || (around && k <= t < k + len && k2 == k)
  }

  lemma {:induction false} SubRange(n: Node, k: nat, t: nat)
    ensures SubAt(n, k, t).Some? ==> k <= t < k + |Toks(n)|
    decreases n, 1
  {
    if t != k { SubKidsRange(n.kids, k + 1 + |n.props|, t); }
  }

  lemma {:induction false} SubKidsRange(ks: Kids, k: nat, t: nat)
    ensures SubKids(ks, k, t).Some? ==> k <= t < k + |KidToks(ks)|
    decreases ks, 0
  {
    hide Toks;
    match ks {
      case Last =>
      case Skip(rest) => SubKidsRange(rest, k + 1, t);
      case Kid(n, rest) => SubRange(n, k, t); SubKidsRange(rest, k + |Toks(n)|, t);
    }
  }

  lemma {:induction false} FindKidOffset(ks: Kids, comp: seq<byte>, k: nat, k2: nat)
    ensures var f, g := FindKid(ks, comp, k), FindKid(ks, comp, k2);
            f.Some? == g.Some? && (f.Some? ==> g.value.0 - k2 == f.value.0 - k >= 0)
    decreases ks
  {
    hide Toks, Matches;
    match ks {
      case Last =>
      case Skip(rest) => FindKidOffset(rest, comp, k + 1, k2 + 1);
      case Kid(n, rest) => FindKidOffset(rest, comp, k + |Toks(n)|, k2 + |Toks(n)|);
    }
  }

  /** How much longer a node is after one in it has been replaced. */
  lemma ReplacedLength(n: Node, k: nat, t: nat, m: Node)
    requires SubAt(n, k, t).Some?
    ensures |Toks(Replace(n, k, t, m))| - |Toks(n)| == |Toks(m)| - |Toks(SubAt(n, k, t).value)|
  {
    hide Toks, Replace, SubAt;
    ReplaceToks(n, k, t, m);
  }

  lemma {:induction false} FindKidShift(ks: Kids, comp: seq<byte>, k: nat, t: nat, m: Node)
    requires SubKids(ks, k, t).Some? && Fits(SubKids(ks, k, t), m)
    ensures var f, g := FindKid(ks, comp, k), FindKid(ReplaceKids(ks, k, t, m), comp, k);
            f.Some? == g.Some? &&
            (f.Some? ==> g.value.0 == Shift(f.value.0, t, |Toks(m)| - |Toks(SubKids(ks, k, t).value)|))
    decreases ks
  {
    hide Toks, Matches;
    SubKidsRange(ks, k, t);
    FindKidReplaced(ks, comp, k, k, t, m);
    match ks {
      case Skip(rest) => FindKidShift(rest, comp, k + 1, t, m);
      case Kid(n, rest) =>
        var l := |Toks(n)|;
        KidLength(n);
        if t >= k + l { FindKidShift(rest, comp, k + l, t, m); }
        else {
          ReplacedLength(n, k, t, m);
          FindKidOffset(rest, comp, k + l, k + |Toks(Replace(n, k, t, m))|);
        }
    }
  }

  /** Every path leads to the same node, and the node has moved only if it lies behind. */
  lemma {:induction false} LookupShift(n: Node, k: nat, k2: nat, comps: seq<seq<byte>>, t: nat, m: Node, d: int)
    requires Moved(k, |Toks(n)|, t, SubAt(n, k, t).Some?, d, k2)
    requires k <= t < k + |Toks(n)| ==> SubAt(n, k, t).Some? && Fits(SubAt(n, k, t), m) && d == |Toks(m)| - |Toks(SubAt(n, k, t).value)|
    ensures var f, g := Lookup(n, k, comps), Lookup(Inside(n, k, t, m), k2, comps);
            f.Some? == g.Some? && (f.Some? ==> g.value.0 == Shift(f.value.0, t, d) && g.value.1 == Inside(f.value.1, f.value.0, t, m))
    decreases |comps|
  {
    hide FindKid, SubKids, ReplaceKids, KidToks;
    LookupReplaced(n, k, k2, comps, t, m);
    if comps != [] {
      var n2, comp := Inside(n, k, t, m), comps[0];
      var i, i2 := k + 1 + |n.props|, k2 + 1 + |n2.props|;
      var f, g := FindKid(n.kids, comp, i), FindKid(n2.kids, comp, i2);
      FoundWithin(n.kids, comp, i);
      FindKidMoved(n.kids, comp, i, i2);
      FindKidOffset(n.kids, comp, i, i2);
      if k < t < k + |Toks(n)| {
        FindKidReplaced(n.kids, comp, i, i2, t, m);
        FindKidShift(n.kids, comp, i, t, m);
      }
      if f.Some? {
        LookupShift(f.value.1, f.value.0, g.value.0, comps[1..], t, m, d);
      }
    }
  }
}
