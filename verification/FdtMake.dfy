/** Every tree has a blob: the layout that dtc produces. */
module FdtMake {
  import opened Bytes
  import opened FdtTokens
  import opened FdtTree
  import opened FdtWalk
  import opened FdtQuery
  import opened FdtEdit
  import opened FdtFixup

  const RSVMAP := 16

  function BigEndian(ws: seq<word>): (s: seq<byte>)
    ensures |s| == 4 * |ws|
  {
    if ws == [] then [] else BigEndian(ws[..|ws| - 1]) + BeBytes(ws[|ws| - 1])
  }

  lemma {:induction false} WordAt(ws: seq<word>, rest: seq<byte>, i: nat)
    requires i < |ws|
    ensures Be32(BigEndian(ws) + rest, 4 * i) == ws[i]
  {
    hide Be32, BeBytes;
    var n := |ws| - 1;
    var b := BigEndian(ws) + rest;
    if i < n {
      WordAt(ws[..n], BeBytes(ws[n]) + rest, i);
      assert b == BigEndian(ws[..n]) + (BeBytes(ws[n]) + rest);
    } else {
      assert b[4 * n..4 * n + 4] == BeBytes(ws[n]);
      BeSlice(b, 4 * n);
    }
  }

  /** Header, empty reservation map, structure block, strings block. */
  function Make(root: Node, strs: seq<byte>): (b: seq<byte>)
    requires NodeOk(root) && |strs| < LIMIT && Size(root, strs) < LIMIT
    ensures |b| == Size(root, strs)
  {
    TreeOk(root);
    BigEndian(Header(root, strs)) + (Zeros(RSVMAP) + (Flat(Tree(root)) + strs))
  }

  function Size(root: Node, strs: seq<byte>): nat
    requires NodeOk(root)
  {
    TreeOk(root);
    HEADER + RSVMAP + |Flat(Tree(root))| + |strs|
  }

  function Header(root: Node, strs: seq<byte>): (ws: seq<word>)
    requires NodeOk(root) && Size(root, strs) < LIMIT
    ensures |ws| == 10
  {
    TreeOk(root);
    var n := |Flat(Tree(root))|;
    [FDT_MAGIC, Size(root, strs), HEADER + RSVMAP, HEADER + RSVMAP + n, HEADER, 17, 16, 0, |strs|, n]
  }

  /** What Make makes is the blob of the tree, in the layout that the editor accepts. */
  lemma MakeIsBlob(root: Node, strs: seq<byte>)
    requires NodeOk(root) && Size(root, strs) < LIMIT && NamesOk(strs, Tree(root))
    ensures Blob(Make(root, strs), root) && Strings(Make(root, strs)) == strs && LayoutOk(Make(root, strs)) && CheckOk(Make(root, strs))
  {
    hide NodeOk, Flat, TokensOk, NamesOk, Toks, Be32, BigEndian, TotalCells;
    TreeOk(root);
    var ws, s, b := Header(root, strs), Flat(Tree(root)), Make(root, strs);
    var rest := Zeros(RSVMAP) + (s + strs);
    forall i | 0 <= i < 10 ensures Hdr(b, i) == ws[i] { WordAt(ws, rest, i); }
    assert Hdr(b, TOTALSIZE) == ws[1] && Hdr(b, OFF_STRUCT) == ws[2] && Hdr(b, OFF_STRINGS) == ws[3] && Hdr(b, OFF_RSVMAP) == ws[4];
    assert Hdr(b, SIZE_STRINGS) == ws[8] && Hdr(b, SIZE_STRUCT) == ws[9];
    Layers(BigEndian(ws), Zeros(RSVMAP), s, strs);
  }

  lemma Layers(a: seq<byte>, b: seq<byte>, c: seq<byte>, d: seq<byte>)
    ensures var w := a + (b + (c + d)); var n := |a| + |b|;
            w[n..n + |c|] == c && w[n + |c|..n + |c| + |d|] == d
  {
  }
}
