/** A tree for which fixup_dtb works with an offset that is no longer right: /memory comes
    first and has no `reg` yet, so that setting it moves /chosen. */
module FdtStale {
  import opened Basics
  import opened Bytes
  import opened RomMap
  import opened FdtTokens
  import opened FdtTree
  import opened FdtWalk
  import opened FdtPath
  import opened FdtEdit
  import opened FdtSetProp
  import opened FdtFixup
  import opened FdtMake

  function Leaf(name: seq<byte>): Node { Node(name, [], Last) }

  function BareTree(): Node { Node([], [], Kid(Leaf(MEMORY), Kid(Leaf(CHOSEN), Last))) }

  lemma BareToks()
    ensures Toks(Leaf(MEMORY)) == [Begin(MEMORY), EndNode] && Toks(Leaf(CHOSEN)) == [Begin(CHOSEN), EndNode]
    ensures Toks(BareTree()) == [Begin([]), Begin(MEMORY), EndNode, Begin(CHOSEN), EndNode, EndNode]
    ensures NodeOk(BareTree())
  {
    assert KidToks(Last) == [];
    assert KidToks(Kid(Leaf(CHOSEN), Last)) == [Begin(CHOSEN), EndNode];
  }

  lemma BareChildren()
    ensures Both(BareTree(), 1, Leaf(MEMORY), 3, Leaf(CHOSEN))
  {
    BareToks();
    OneStep(BareTree(), MEMORY);
    OneStep(BareTree(), CHOSEN);
    NotBoth(MEMORY);
    assert Matches(MEMORY, MEMORY) && Matches(CHOSEN, CHOSEN);
  }

  lemma BareSize()
    ensures NodeOk(BareTree()) && TokensOk(Tree(BareTree())) && |Flat(Tree(BareTree()))| == 48
  {
    BareToks();
    TreeOk(BareTree());
    var ts := Tree(BareTree());
    assert ts == [Begin([]), Begin(MEMORY), EndNode, Begin(CHOSEN), EndNode, EndNode, End];
    SevenCells(ts);
  }

  lemma SevenCells(ts: seq<Token>)
    requires |ts| == 7 && TokensOk(ts)
    ensures TotalCells(ts) == TokenCells(ts[0]) + TokenCells(ts[1]) + TokenCells(ts[2]) + TokenCells(ts[3]) + TokenCells(ts[4]) + TokenCells(ts[5]) + TokenCells(ts[6])
  {
    hide TokenCells;
    assert ts[..7] == ts;
    forall i | 0 <= i < 7 ensures TotalCells(ts[..i + 1]) == TotalCells(ts[..i]) + TokenCells(ts[i]) { assert ts[..i + 1][..i] == ts[..i]; }
  }

  lemma GrowthBound(strs: seq<byte>, n: Node, name: seq<byte>, val: seq<byte>)
    ensures Growth(strs, n, name, val) <= |name| + 13 + Align4(|val|)
  {
  }

  lemma BareFits(total: nat)
    requires total <= 0x1000
    ensures Fits(total, [], Leaf(MEMORY), Leaf(CHOSEN), [])
  {
    hide Growth, MoreStrings;
    GrowthBound([], Leaf(MEMORY), REG, RegValue(0));
    GrowthBound(Strs1([], Leaf(MEMORY)), Leaf(CHOSEN), BOOTARGS, [] + [0]);
  }

  lemma TotalWithin(b: seq<byte>, root: Node)
    requires Blob(b, root)
    ensures |b| >= HEADER && Hdr(b, TOTALSIZE) <= |b|
  {
  }

  /** The ROM accepts this blob and finds both nodes; but after the first edit /chosen is
      not at the offset that was found. */
  lemma OffsetGoesStale(ramSize: word)
    ensures NodeOk(BareTree()) && Size(BareTree(), []) < LIMIT
    ensures var root, b := BareTree(), Make(BareTree(), []);
            && |b| <= DTB_AREA && Blob(b, root) && CheckOk(b) && LayoutOk(b) && Strings(b) == []
            && Both(root, 1, Leaf(MEMORY), 3, Leaf(CHOSEN))
            && Fits(Hdr(b, TOTALSIZE), [], Leaf(MEMORY), Leaf(CHOSEN), [])
            && var root1, k := Root1([], root, 1, Leaf(MEMORY), ramSize), ChosenAt([], 1, Leaf(MEMORY), 3, RegValue(ramSize));
            && k >= 0 && Lookup(root1, 0, [CHOSEN]) == Some((k, Leaf(CHOSEN)))
            && TokensOk(Tree(root)) && TokensOk(Tree(root1)) && 3 <= |Tree(root)| && k <= |Tree(root1)|
            && Off(Tree(root1), k) != Off(Tree(root), 3)
  {
    hide Flat, Make, Lookup, Off, TotalCells, Be32, Toks, Both, Blob, LayoutOk, CheckOk, Hdr;
    BareToks();
    BareSize();
    BareChildren();
    MakeIsBlob(BareTree(), []);
    TotalWithin(Make(BareTree(), []), BareTree());
    BareFits(Hdr(Make(BareTree(), []), TOTALSIZE));
    ChosenFound([], BareTree(), 1, Leaf(MEMORY), 3, Leaf(CHOSEN), RegValue(ramSize));
    OffsetStays([], BareTree(), 1, Leaf(MEMORY), 3, Leaf(CHOSEN), RegValue(ramSize));
  }
}
