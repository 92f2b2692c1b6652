/** CRC-32 (section 8 of RFC 1952) twice: the boot ROM's shift-and-xor loop, which uses
    no table, and the table-driven form of the PS program. */
module Crc {
  import opened Bytes

  const POLY: bv32 := 0xEDB8_8320

  function Nibble(n: int): bv32
    requires 0 <= n < 16
  {
    (n as bv4) as bv32
  }

  /** A byte as a bit pattern. */
  function Bv(b: byte): bv32 { (Nibble(b / 16) << 4) | Nibble(b % 16) }

  // Named, so that proofs can set the bits aside.
  function Xor(a: bv32, b: bv32): bv32 { a ^ b }
  function Inv(a: bv32): bv32 { !a }
  function Low(a: bv32): bv32 { a & 0xFF }
  function High(a: bv32): bv32 { a & 0xFFFF_FF00 }
  function Shift8(a: bv32): bv32 { a >> 8 }
  function Index(a: bv32): int { a as int }
  function Entry(i: int): bv32
    requires 0 <= i < 256
  {
    i as bv32
  }

  /** One bit, as the table builder writes it. */
  function Step(c: bv32): bv32 { if c & 1 == 1 then POLY ^ (c >> 1) else c >> 1 }

  function Steps(c: bv32, n: nat): bv32 { if n == 0 then c else Step(Steps(c, n - 1)) }

  /** What one byte does to the running CRC. */
  function Byte(c: bv32, b: byte): bv32 { Steps(Xor(c, Bv(b)), 8) }

  function Fold(c: bv32, s: seq<byte>): bv32 {
    if s == [] then c else Byte(Fold(c, s[..|s| - 1]), s[|s| - 1])
  }

  /** The CRC of `s`, continuing from that of what came before (0 to start). */
  function Crc32(crc: bv32, s: seq<byte>): bv32 { Inv(Fold(Inv(crc), s)) }

  /** The word stored in an image header. */
  function CrcWord(s: seq<byte>): word { Crc32(0, s) as int }

  // ---- the loops ----

  lemma MaskedStep(c: bv32)
    ensures (c >> 1) ^ (POLY & (0 - (c & 1))) == Step(c)
  {
    if c & 1 == 1 { assert 0 - (c & 1) == 0xFFFF_FFFF; }
  }

  /** crc32_byte */
  method CrcByte(crc: bv32, b: byte) returns (c: bv32)
    ensures c == Byte(crc, b)
  {
    c := crc ^ Bv(b);
    var i := 0;
    while i < 8
      invariant 0 <= i <= 8 && c == Steps(Xor(crc, Bv(b)), i)
    {
      MaskedStep(c);
      c := (c >> 1) ^ (POLY & (0 - (c & 1)));
      i := i + 1;
    }
  }

  /** crc32 of the boot ROM's library */
  method CrcLoop(crc: bv32, s: seq<byte>) returns (c: bv32)
    ensures c == Crc32(crc, s)
  {
    c := !crc;
    var i := 0;
    while i < |s|
      invariant 0 <= i <= |s| && c == Fold(Inv(crc), s[..i])
    {
      assert s[..i + 1][..i] == s[..i];
      c := CrcByte(c, s[i]);
      i := i + 1;
    }
    assert s[..i] == s;
    c := !c;
  }

  // ---- the table ----

  lemma XorShifts(p: bv32, x: bv32, y: bv32)
    ensures (p ^ x) ^ (p ^ y) == x ^ y && (p ^ x) ^ y == p ^ (x ^ y) && x ^ (p ^ y) == p ^ (x ^ y)
    ensures (x ^ y) >> 1 == (x >> 1) ^ (y >> 1) && (x ^ y) & 1 == (x & 1) ^ (y & 1)
  {
  }

  lemma LowBit(c: bv32)
    ensures c & 1 == 0 || c & 1 == 1
  {
  }

  lemma StepXorBits(a: bv32, b: bv32)
    ensures Step(a ^ b) == Step(a) ^ Step(b)
  {
    XorShifts(POLY, a, b);
    LowBit(a); LowBit(b);
    XorShifts(POLY, a >> 1, b >> 1);
  }

  /** A step is linear over exclusive or. */
  lemma StepXor(a: bv32, b: bv32)
    ensures Step(Xor(a, b)) == Xor(Step(a), Step(b))
  {
    hide Step;
    StepXorBits(a, b);
  }

  lemma {:induction false} StepsXor(a: bv32, b: bv32, n: nat)
    ensures Steps(Xor(a, b), n) == Xor(Steps(a, n), Steps(b, n))
  {
    hide Step, Xor;
    if n > 0 {
      StepsXor(a, b, n - 1);
      StepXor(Steps(a, n - 1), Steps(b, n - 1));
    }
  }

  lemma EightSteps(c: bv32)
    ensures Steps(c, 8) == Step(Step(Step(Step(Step(Step(Step(Step(c))))))))
  {
    hide Step;
    assert Steps(c, 1) == Step(c) && Steps(c, 2) == Step(Step(c));
    assert Steps(c, 4) == Step(Step(Steps(c, 2)));
    assert Steps(c, 6) == Step(Step(Steps(c, 4)));
  }

  lemma HighBytesFall(c: bv32)
    ensures Step(Step(Step(Step(Step(Step(Step(Step(High(c))))))))) == Shift8(c)
  {
  }

  /** Eight steps only shift a word whose low byte is zero. */
  lemma HighBytesShift(c: bv32)
    ensures Steps(High(c), 8) == Shift8(c)
  {
    hide Step, High, Shift8;
    HighBytesFall(c);
    EightSteps(High(c));
  }

  lemma SplitLowByte(c: bv32, b: byte)
    ensures c == Xor(Low(c), High(c)) && Shift8(Xor(c, Bv(b))) == Shift8(c)
  {
  }

  /** The table step of crc32_update is the byte step. */
  lemma TableStep(c: bv32, b: byte)
    ensures Xor(Steps(Low(Xor(c, Bv(b))), 8), Shift8(c)) == Byte(c, b)
  {
    hide Step, Steps, Xor, Low, High, Shift8, Bv;
    var x := Xor(c, Bv(b));
    SplitLowByte(x, b);
    SplitLowByte(c, b);
    StepsXor(Low(x), High(x), 8);
    HighBytesShift(x);
  }

  lemma LowIsSmall(x: bv32)
    ensures Low(x) <= 255
  {
  }

  lemma IndexInRange(x: bv32)
    requires x <= 255
    ensures 0 <= Index(x) < 256
  {
  }

  lemma EntryOfIndex(x: bv32)
    requires 0 <= Index(x) < 256
    ensures Entry(Index(x)) == x
  {
  }

  method TableEntry(i: nat) returns (c: bv32)
    requires i < 256
    ensures c == Steps(Entry(i), 8)
  {
    hide Entry;
    c := Entry(i);
    var k := 0;
    while k < 8
      invariant 0 <= k <= 8 && c == Steps(Entry(i), k)
    {
      c := if c & 1 == 1 then POLY ^ (c >> 1) else c >> 1;
      k := k + 1;
    }
  }

  /** The function-static table of crc32_update: all zero, or filled in. */
  class Table {
    const table: array<bv32>

    ghost predicate Filled()
      reads table
    {
      table.Length == 256 && forall i | 0 <= i < 256 :: table[i] == Steps(Entry(i), 8)
    }

    ghost predicate Valid()
      reads table
    {
      table.Length == 256 && (table[1] == 0 || Filled())
    }

    constructor ()
      ensures Valid() && fresh(table)
    {
      table := new bv32[256](_ => 0);
    }

    method Fill()
      requires Valid()
      modifies table
      ensures Filled() && table[1] != 0
    {
      hide Steps, Entry;
      var i := 0;
      while i < 256
        invariant 0 <= i <= 256 && table.Length == 256
        invariant forall j | 0 <= j < i :: table[j] == Steps(Entry(j), 8)
      {
        var c := TableEntry(i);
        table[i] := c;
        i := i + 1;
      }
      EntryOne();
    }

    /** crc32_update */
    method Update(crc: bv32, s: seq<byte>) returns (c: bv32)
      requires Valid()
      modifies table
      ensures Valid() && c == Crc32(crc, s)
    {
      hide Steps, Xor, Low, Shift8, Bv, Inv, Index, Entry;
      if table[1] == 0 { Fill(); }
      c := Inv(crc);
      var i := 0;
      while i < |s|
        invariant 0 <= i <= |s| && c == Fold(Inv(crc), s[..i]) && Filled()
      {
        assert s[..i + 1][..i] == s[..i];
        var low := Low(Xor(c, Bv(s[i])));
        LowIsSmall(Xor(c, Bv(s[i]))); IndexInRange(low); EntryOfIndex(low);
        TableStep(c, s[i]);
        c := Xor(table[Index(low)], Shift8(c));
        i := i + 1;
      }
      assert s[..i] == s;
      c := Inv(c);
    }
  }

  lemma EntryOne()
    ensures Steps(Entry(1), 8) == 0x7707_3096
  {
    var one: bv32 := 1;
    assert Steps(one, 1) == 0xEDB8_8320;
    assert Steps(one, 2) == 0x76DC_4190;
    assert Steps(one, 3) == 0x3B6E_20C8;
    assert Steps(one, 4) == 0x1DB7_1064;
    assert Steps(one, 5) == 0x0EDB_8832;
    assert Steps(one, 6) == 0x076D_C419;
    assert Steps(one, 7) == 0xEE0E_612C;
  }

  // ---- pieces, and what a burst of errors does ----

  lemma {:induction false} FoldConcat(c: bv32, a: seq<byte>, b: seq<byte>)
    ensures Fold(c, a + b) == Fold(Fold(c, a), b)
  {
    hide Byte;
    if b == [] { assert a + b == a; }
    else {
      FoldConcat(c, a, b[..|b| - 1]);
      assert (a + b)[..|a + b| - 1] == a + b[..|b| - 1];
    }
  }

  /** Updating in pieces gives the CRC of the whole. */
  lemma Crc32Concat(crc: bv32, a: seq<byte>, b: seq<byte>)
    ensures Crc32(Crc32(crc, a), b) == Crc32(crc, a + b)
  {
    hide Fold, Inv;
    FoldConcat(Inv(crc), a, b);
    InvInv(Fold(Inv(crc), a));
  }

  lemma InvInv(c: bv32)
    ensures Inv(Inv(c)) == c
  {
  }

  lemma StepInjective(a: bv32, b: bv32)
    requires Step(a) == Step(b)
    ensures a == b
  {
  }

  lemma {:induction false} StepsInjective(a: bv32, b: bv32, n: nat)
    requires Steps(a, n) == Steps(b, n)
    ensures a == b
  {
    hide Step;
    if n > 0 {
      StepInjective(Steps(a, n - 1), Steps(b, n - 1));
      StepsInjective(a, b, n - 1);
    }
  }

  lemma {:induction false} StepsAdd(c: bv32, m: nat, n: nat)
    ensures Steps(Steps(c, m), n) == Steps(c, m + n)
  {
    hide Step;
    if n > 0 { StepsAdd(c, m, n - 1); }
  }

  /** Byte `k` of a little-endian word. */
  function Place(b: byte, k: nat): bv32
    requires k < 4
  {
    if k == 0 then Bv(b) else if k == 1 then Bv(b) << 8 else if k == 2 then Bv(b) << 16 else Bv(b) << 24
  }

  function Word4(b0: byte, b1: byte, b2: byte, b3: byte): bv32 {
    Xor(Xor(Xor(Place(b0, 0), Place(b1, 1)), Place(b2, 2)), Place(b3, 3))
  }

  function ByteAt(u: seq<byte>, k: nat): byte { if k < |u| then u[k] else 0 }

  /** Up to four bytes as one little-endian word. */
  function AsWord(u: seq<byte>): bv32
    requires |u| <= 4
  {
    Word4(ByteAt(u, 0), ByteAt(u, 1), ByteAt(u, 2), ByteAt(u, 3))
  }

  lemma ShiftedDown(b: byte, k: nat)
    requires 0 < k < 4
    ensures High(Place(b, k)) == Place(b, k) && Shift8(Place(b, k)) == Place(b, k - 1)
  {
    hide Bv;
    BvSmall(b);
    ShiftedBits(Bv(b));
  }

  lemma BvSmall(b: byte)
    ensures Bv(b) <= 0xFF
  {
    NibblesSmall((b / 16) as bv4, (b % 16) as bv4);
  }

  lemma NibblesSmall(h: bv4, l: bv4)
    ensures ((h as bv32 << 4) | l as bv32) <= 0xFF
  {
  }

  lemma ShiftedBits(x: bv32)
    requires x <= 0xFF
    ensures High(x << 8) == x << 8 && High(x << 16) == x << 16 && High(x << 24) == x << 24
    ensures Shift8(x << 8) == x && Shift8(x << 16) == x << 8 && Shift8(x << 24) == x << 16
  {
  }

  lemma {:induction false} PlaceFalls(b: byte, k: nat)
    requires k < 4
    ensures Steps(Place(b, k), 8 * k) == Bv(b)
  {
    hide Step, High, Shift8, Bv;
    if k > 0 {
      ShiftedDown(b, k);
      HighBytesShift(Place(b, k));
      PlaceFalls(b, k - 1);
      StepsAdd(Place(b, k), 8, 8 * (k - 1));
      hide Place;
    }
  }

  lemma OneMoreByte(v: seq<byte>, b: byte)
    requires |v| < 4
    ensures AsWord(v + [b]) == Xor(AsWord(v), Place(b, |v|))
  {
    XorPlaces(ByteAt(v, 0), ByteAt(v, 1), ByteAt(v, 2), b);
    hide Word4, Xor, Place;
  }

  lemma ZeroPlaces()
    ensures Place(0, 0) == 0 && Place(0, 1) == 0 && Place(0, 2) == 0 && Place(0, 3) == 0
  {
    assert Bv(0) == 0;
  }

  lemma XorNothing(x: bv32)
    ensures Xor(x, 0) == x && Xor(0, x) == x
  {
  }

  lemma XorPlaces(b0: byte, b1: byte, b2: byte, b: byte)
    ensures Word4(b, 0, 0, 0) == Xor(Word4(0, 0, 0, 0), Place(b, 0))
    ensures Word4(b0, b, 0, 0) == Xor(Word4(b0, 0, 0, 0), Place(b, 1))
    ensures Word4(b0, b1, b, 0) == Xor(Word4(b0, b1, 0, 0), Place(b, 2))
    ensures Word4(b0, b1, b2, b) == Xor(Word4(b0, b1, b2, 0), Place(b, 3))
  {
    ZeroPlaces();
    hide Place, Xor;
    forall x: bv32 ensures Xor(x, 0) == x && Xor(0, x) == x { XorNothing(x); }
  }

  lemma XorAssoc(a: bv32, b: bv32, c: bv32)
    ensures Xor(Xor(a, b), c) == Xor(a, Xor(b, c))
  {
  }

  lemma XorZero(a: bv32)
    ensures Xor(a, AsWord([])) == a
  {
    assert Bv(0) == 0;
  }

  /** Up to four bytes act on the CRC as one word does. */
  lemma {:induction false} FoldIsWord(c: bv32, u: seq<byte>)
    requires |u| <= 4
    ensures Fold(c, u) == Steps(Xor(c, AsWord(u)), 8 * |u|)
  {
    hide Step, Xor, AsWord, Place, Bv;
    if u == [] { XorZero(c); }
    else {
      var v, b := u[..|u| - 1], u[|u| - 1];
      var x := Xor(c, AsWord(v));
      FoldIsWord(c, v);
      PlaceFalls(b, |v|);
      StepsXor(x, Place(b, |v|), 8 * |v|);
      StepsAdd(Xor(x, Place(b, |v|)), 8 * |v|, 8);
      OneMoreByte(v, b);
      assert v + [b] == u;
      XorAssoc(c, AsWord(v), Place(b, |v|));
    }
  }

  lemma Lanes(b0: byte, b1: byte, b2: byte, b3: byte)
    ensures var w := Word4(b0, b1, b2, b3);
      && w & 0xFF == Bv(b0) && (w >> 8) & 0xFF == Bv(b1) && (w >> 16) & 0xFF == Bv(b2) && w >> 24 == Bv(b3)
  {
  }

  lemma NibbleInjective(a: int, b: int)
    requires 0 <= a < 16 && 0 <= b < 16 && Nibble(a) == Nibble(b)
    ensures a == b
  {
    WidenInjective(a as bv4, b as bv4);
    NibbleBack(a); NibbleBack(b);
  }

  lemma NibbleBack(n: int)
    requires 0 <= n < 16
    ensures (n as bv4) as int == n
  {
  }

  lemma WidenInjective(x: bv4, y: bv4)
    requires x as bv32 == y as bv32
    ensures x == y
  {
  }

  lemma NibblesApart(h: bv4, l: bv4)
    ensures ((h as bv32 << 4) | l as bv32) >> 4 == h as bv32 && ((h as bv32 << 4) | l as bv32) & 0xF == l as bv32
  {
  }

  lemma BvInjective(a: byte, b: byte)
    requires Bv(a) == Bv(b)
    ensures a == b
  {
    NibblesApart((a / 16) as bv4, (a % 16) as bv4);
    NibblesApart((b / 16) as bv4, (b % 16) as bv4);
    NibbleInjective(a / 16, b / 16);
    NibbleInjective(a % 16, b % 16);
  }

  lemma AsWordInjective(u: seq<byte>, v: seq<byte>)
    requires |u| == |v| <= 4 && AsWord(u) == AsWord(v)
    ensures u == v
  {
    Lanes(ByteAt(u, 0), ByteAt(u, 1), ByteAt(u, 2), ByteAt(u, 3));
    Lanes(ByteAt(v, 0), ByteAt(v, 1), ByteAt(v, 2), ByteAt(v, 3));
    hide Word4, Bv;
    forall k: nat | k < 4 ensures ByteAt(u, k) == ByteAt(v, k) {
      BvInjective(ByteAt(u, k), ByteAt(v, k));
    }
    forall k: nat | k < |u| ensures u[k] == v[k] {
      assert u[k] == ByteAt(u, k) && v[k] == ByteAt(v, k);
    }
  }

  lemma XorInjective(c: bv32, a: bv32, b: bv32)
    requires Xor(c, a) == Xor(c, b)
    ensures a == b
  {
    assert c ^ (c ^ a) == a && c ^ (c ^ b) == b;
  }

  lemma {:induction false} FoldInjective(c: bv32, d: bv32, s: seq<byte>)
    requires Fold(c, s) == Fold(d, s)
    ensures c == d
  {
    hide Step, Xor, Bv;
    if s != [] {
      var t, b := s[..|s| - 1], Bv(s[|s| - 1]);
      StepsInjective(Xor(Fold(c, t), b), Xor(Fold(d, t), b), 8);
      XorCommutes(Fold(c, t), b); XorCommutes(Fold(d, t), b);
      XorInjective(b, Fold(c, t), Fold(d, t));
      FoldInjective(c, d, t);
    }
  }

  lemma XorCommutes(a: bv32, b: bv32)
    ensures Xor(a, b) == Xor(b, a)
  {
  }

  /** A burst is always seen: two messages of the same length, of any length, that differ
      only inside one window of four consecutive bytes have different CRCs. */
  lemma BurstChangesCrc(crc: bv32, before: seq<byte>, u: seq<byte>, v: seq<byte>, after: seq<byte>)
    requires |u| == |v| <= 4 && u != v
    ensures Crc32(crc, before + u + after) != Crc32(crc, before + v + after)
  {
    hide Fold, Steps, Xor, AsWord, Inv;
    var c0 := Fold(Inv(crc), before);
    FoldConcat(Inv(crc), before + u, after); FoldConcat(Inv(crc), before, u);
    FoldConcat(Inv(crc), before + v, after); FoldConcat(Inv(crc), before, v);
    var cu, cv := Fold(c0, u), Fold(c0, v);
    if Crc32(crc, before + u + after) == Crc32(crc, before + v + after) {
      InvInv(Fold(cu, after)); InvInv(Fold(cv, after));
      FoldInjective(cu, cv, after);
      FoldIsWord(c0, u); FoldIsWord(c0, v);
      StepsInjective(Xor(c0, AsWord(u)), Xor(c0, AsWord(v)), 8 * |u|);
      XorInjective(c0, AsWord(u), AsWord(v));
      AsWordInjective(u, v);
    }
  }

  lemma CrcWordInjective(a: seq<byte>, b: seq<byte>)
    requires CrcWord(a) == CrcWord(b)
    ensures Crc32(0, a) == Crc32(0, b)
  {
    hide Crc32;
    WordsApart(Crc32(0, a), Crc32(0, b));
  }

  lemma WordsApart(x: bv32, y: bv32)
    requires x as int == y as int
    ensures x == y
  {
    assert (x as int) as bv32 == x && (y as int) as bv32 == y;
  }
}
