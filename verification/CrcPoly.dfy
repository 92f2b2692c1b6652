/** What CRC-32 is: the remainder of a polynomial division over the field of two elements
    (section 8 of RFC 1952, and section 3.2.1 of ITU-T V.42, which it follows). */
module CrcPoly {
  import opened Bytes
  import opened Crc

  /** Coefficients, highest power first. */
  type Poly = seq<bool>

  /** The exponents of the generator below its leading term x^32. */
  const TERMS: set<int> := {26, 23, 22, 16, 12, 11, 10, 8, 7, 5, 4, 2, 1, 0}

  function Generator(): (g: Poly)
    ensures |g| == 32 && forall i | 0 <= i < 32 :: g[i] == (31 - i in TERMS)
  {
    seq(32, i => 31 - i in TERMS)
  }

  function Falses(n: nat): (p: Poly)
    ensures |p| == n && forall i | 0 <= i < n :: !p[i]
  {
    seq(n, _ => false)
  }

  function Trues(n: nat): (p: Poly)
    ensures |p| == n && forall i | 0 <= i < n :: p[i]
  {
    seq(n, _ => true)
  }

  /** The sum of two polynomials. */
  function Sum(a: Poly, b: Poly): (s: Poly)
    requires |a| == |b|
    ensures |s| == |a| && forall i | 0 <= i < |s| :: s[i] == (a[i] != b[i])
  {
    seq(|a|, i requires 0 <= i < |a| => a[i] != b[i])
  }

  /** t is added to the leading coefficients of p. */
  function AddFront(p: Poly, t: Poly): (s: Poly)
    requires |t| <= |p|
    ensures |s| == |p|
  {
    Sum(p[..|t|], t) + p[|t|..]
  }

  /** Long division by x^32 + the generator: what is left. */
  function Remainder(p: Poly): (r: Poly)
    requires |p| >= 32
    ensures |r| == 32
    decreases |p|
  {
    if |p| == 32 then p
    else if p[0] then Remainder(AddFront(p[1..], Generator()))
    else Remainder(p[1..])
  }

  /** The n binary digits of a number, least significant first. */
  function Digits(x: nat, n: nat): (p: Poly)
    ensures |p| == n
    decreases n
  {
    if n == 0 then [] else [x % 2 == 1] + Digits(x / 2, n - 1)
  }

  function ByteBits(b: byte): (p: Poly)
    ensures |p| == 8
  {
    Digits(b, 8)
  }

  function Message(s: seq<byte>): Poly {
    if s == [] then [] else Message(s[..|s| - 1]) + ByteBits(s[|s| - 1])
  }

  // Named, so that proofs can set the bits aside.
  function Odd(c: bv32): bool { c & 1 == 1 }
  function Halve(c: bv32): bv32 { c >> 1 }

  /** The bits of a word, least significant first. */
  function BitsN(c: bv32, n: nat): (p: Poly)
    ensures |p| == n
    decreases n
  {
    if n == 0 then [] else [Odd(c)] + BitsN(Halve(c), n - 1)
  }

  function Bits(c: bv32): (p: Poly)
    ensures |p| == 32
  {
    BitsN(c, 32)
  }

  function Complement(p: Poly): (q: Poly)
    ensures |q| == |p| && forall i | 0 <= i < |p| :: q[i] == !p[i]
  {
    seq(|p|, i requires 0 <= i < |p| => !p[i])
  }

  // ---- division, bit by bit ----

  /** One bit of the message into the shift register. */
  function Feed(st: Poly, b: bool): (r: Poly)
    requires |st| == 32
    ensures |r| == 32
  {
    var t := st[1..] + [false];
    if st[0] != b then Sum(t, Generator()) else t
  }

  function Serial(st: Poly, m: Poly): (r: Poly)
    requires |st| == 32
    ensures |r| == 32
    decreases |m|
  {
    if m == [] then st else Serial(Feed(st, m[0]), m[1..])
  }

  /** The shift register divides. */
  lemma {:induction false} SerialDivides(st: Poly, m: Poly)
    requires |st| == 32
    ensures Remainder(AddFront(m + Falses(32), st)) == Serial(st, m)
    decreases |m|
  {
    hide Generator;
    var p := AddFront(m + Falses(32), st);
    if m == [] { assert p == st; }
    else {
      var t, rest := st[1..] + [false], m[1..] + Falses(32);
      assert p[0] == (m[0] != st[0]);
      assert p[1..] == AddFront(rest, t);
      if p[0] { assert AddFront(p[1..], Generator()) == AddFront(rest, Sum(t, Generator())); }
      SerialDivides(Feed(st, m[0]), m[1..]);
    }
  }

  lemma {:induction false} SerialConcat(st: Poly, a: Poly, b: Poly)
    requires |st| == 32
    ensures Serial(st, a + b) == Serial(Serial(st, a), b)
    decreases |a|
  {
    hide Feed;
    if a == [] { assert a + b == b; }
    else {
      assert (a + b)[0] == a[0] && (a + b)[1..] == a[1..] + b;
      SerialConcat(Feed(st, a[0]), a[1..], b);
    }
  }

  /** Bits fed one by one, or all added first. */
  lemma SerialAtOnce(st: Poly, m: Poly)
    requires |st| == 32 && |m| <= 32
    ensures Serial(st, m) == Serial(Sum(st, m + Falses(32 - |m|)), Falses(|m|))
  {
    hide Remainder, Serial;
    var st2 := Sum(st, m + Falses(32 - |m|));
    SerialDivides(st, m);
    SerialDivides(st2, Falses(|m|));
    assert AddFront(m + Falses(32), st) == AddFront(Falses(|m|) + Falses(32), st2);
  }

  // ---- words as bits ----

  lemma XorHalves(a: bv32, b: bv32)
    ensures Halve(Xor(a, b)) == Xor(Halve(a), Halve(b)) && Odd(Xor(a, b)) == (Odd(a) != Odd(b))
  {
    XorShifts(0, a, b);
    LowBit(a);
    LowBit(b);
  }

  lemma {:induction false} BitsXor(a: bv32, b: bv32, n: nat)
    ensures BitsN(Xor(a, b), n) == Sum(BitsN(a, n), BitsN(b, n))
    decreases n
  {
    hide Xor, Halve, Odd;
    if n > 0 {
      XorHalves(a, b);
      BitsXor(Halve(a), Halve(b), n - 1);
    }
  }

  function Shr(c: bv32, n: nat): bv32
    decreases n
  {
    if n == 0 then c else Shr(Halve(c), n - 1)
  }

  lemma {:induction false} BitsSplit(c: bv32, m: nat, n: nat)
    ensures BitsN(c, m + n) == BitsN(c, m) + BitsN(Shr(c, m), n)
    decreases m
  {
    hide Halve, Odd;
    if m > 0 { BitsSplit(Halve(c), m - 1, n); }
  }

  lemma {:induction false} ShrAdd(c: bv32, m: nat, n: nat)
    ensures Shr(Shr(c, m), n) == Shr(c, m + n)
    decreases m
  {
    hide Halve;
    if m > 0 { ShrAdd(Halve(c), m - 1, n); }
  }

  lemma Shr4(c: bv32)
    ensures Shr(c, 4) == Halve(Halve(Halve(Halve(c))))
  {
    hide Halve;
    var c1 := Halve(c);
    var c2 := Halve(c1);
    var c3 := Halve(c2);
    assert Shr(c, 4) == Shr(c1, 3) && Shr(c1, 3) == Shr(c2, 2) && Shr(c2, 2) == Shr(c3, 1) && Shr(c3, 1) == Shr(Halve(c3), 0);
  }

  lemma Halve4(c: bv32)
    ensures Halve(Halve(Halve(Halve(c)))) == c >> 4
  {
  }

  lemma {:induction false} ZeroBits(n: nat)
    ensures BitsN(0, n) == Falses(n)
  {
    if n > 0 {
      ZeroHalves();
      hide Halve, Odd;
      ZeroBits(n - 1);
    }
  }

  lemma ZeroHalves()
    ensures Halve(0) == 0 && !Odd(0)
  {
  }

  /** The bits of a small number, and no more. */
  lemma Small(c: bv32, n: nat)
    requires n <= 32 && Shr(c, n) == 0
    ensures Bits(c) == BitsN(c, n) + Falses(32 - n)
  {
    hide Halve, Odd;
    BitsSplit(c, n, 32 - n);
    ZeroBits(32 - n);
  }

  /** Every word has 32 bits. */
  lemma ShrAll(c: bv32)
    ensures Shr(c, 32) == 0
  {
    hide Halve, Shr;
    var c1 := Shr(c, 4); var c2 := Shr(c1, 4); var c3 := Shr(c2, 4); var c4 := Shr(c3, 4);
    var c5 := Shr(c4, 4); var c6 := Shr(c5, 4); var c7 := Shr(c6, 4);
    Nibbled(c); Nibbled(c1); Nibbled(c2); Nibbled(c3); Nibbled(c4); Nibbled(c5); Nibbled(c6); Nibbled(c7);
    ShrAdd(c, 4, 4); ShrAdd(c, 8, 4); ShrAdd(c, 12, 4); ShrAdd(c, 16, 4); ShrAdd(c, 20, 4); ShrAdd(c, 24, 4); ShrAdd(c, 28, 4);
    AllGone(c);
  }

  lemma Nibbled(c: bv32)
    ensures Shr(c, 4) == c >> 4
  {
    Shr4(c);
    Halve4(c);
  }

  lemma AllGone(c: bv32)
    ensures (((((((c >> 4) >> 4) >> 4) >> 4) >> 4) >> 4) >> 4) >> 4 == 0
  {
  }

  lemma BitsCons(c: bv32, n: nat)
    ensures BitsN(c, n + 1) == [Odd(c)] + BitsN(Halve(c), n)
  {
    hide Halve, Odd;
  }

  /** Shifting drops the first bit and brings in a zero. */
  lemma BitsHalve(c: bv32)
    ensures Bits(Halve(c)) == Bits(c)[1..] + [false]
  {
    hide Halve, Odd, Shr, BitsN;
    ShrAll(c);
    BitsSplit(c, 32, 1);
    ZeroBits(1);
    BitsCons(c, 32);
    var more := BitsN(c, 33);
    assert more[1..] == BitsN(Halve(c), 32);
    assert more[1..] == Bits(c)[1..] + [false];
  }

  lemma StepIs(c: bv32)
    ensures Step(c) == if Odd(c) then Xor(POLY, Halve(c)) else Halve(c)
  {
  }

  lemma SumCommutes(a: Poly, b: Poly)
    requires |a| == |b|
    ensures Sum(a, b) == Sum(b, a)
  {
  }

  /** A step of the CRC shifts the register. */
  lemma StepFeeds(c: bv32)
    ensures Bits(Step(c)) == Feed(Bits(c), false)
  {
    hide Step, Xor, Halve, Odd;
    StepIs(c);
    BitsHalve(c);
    PolyBits();
    BitsXor(POLY, Halve(c), 32);
    SumCommutes(Bits(POLY), Bits(Halve(c)));
    assert Bits(c)[0] == Odd(c);
  }

  lemma {:induction false} StepsFeed(c: bv32, n: nat)
    ensures Bits(Steps(c, n)) == Serial(Bits(c), Falses(n))
  {
    hide Step, BitsN, Feed;
    if n == 0 { assert Falses(0) == []; }
    else {
      StepsFeed(c, n - 1);
      StepFeeds(Steps(c, n - 1));
      SerialConcat(Bits(c), Falses(n - 1), [false]);
      assert Falses(n - 1) + [false] == Falses(n);
      assert Serial(Bits(Steps(c, n - 1)), [false]) == Feed(Bits(Steps(c, n - 1)), false) by { assert [false][1..] == []; }
    }
  }

  lemma FourBits(c: bv32, n: nat)
    ensures BitsN(c, 4) == [Odd(c), Odd(Halve(c)), Odd(Halve(Halve(c))), Odd(Halve(Halve(Halve(c))))]
    ensures BitsN(c, 4 + n) == BitsN(c, 4) + BitsN(c >> 4, n)
  {
    hide Halve, Odd;
    Nibbled(c);
    BitsSplit(c, 4, n);
    var c1 := Halve(c);
    var c2 := Halve(c1);
    var c3 := Halve(c2);
    assert BitsN(c, 4) == [Odd(c)] + BitsN(c1, 3) && BitsN(c1, 3) == [Odd(c1)] + BitsN(c2, 2);
    assert BitsN(c2, 2) == [Odd(c2)] + BitsN(c3, 1) && BitsN(c3, 1) == [Odd(c3)] + BitsN(Halve(c3), 0);
  }

  lemma NextFour(c: bv32, d: bv32, n: nat)
    requires c >> 4 == d
    ensures BitsN(c, 4 + n) == [c & 1 == 1, c & 2 == 2, c & 4 == 4, c & 8 == 8] + BitsN(d, n)
  {
    FourBits(c, n);
    hide BitsN;
  }

  lemma PolyLow(n: nat)
    ensures BitsN(POLY, 16 + n) ==
            [false, false, false, false, false, true, false, false, true, true, false, false, false, false, false, true] + BitsN(0xEDB8, n)
  {
    hide BitsN;
    NextFour(0xEDB8_8320, 0x0EDB_8832, 12 + n);
    NextFour(0x0EDB_8832, 0x00ED_B883, 8 + n);
    NextFour(0x00ED_B883, 0x000E_DB88, 4 + n);
    NextFour(0x000E_DB88, 0x0000_EDB8, n);
  }

  lemma PolyHigh()
    ensures BitsN(0xEDB8, 16) ==
            [false, false, false, true, true, true, false, true, true, false, true, true, false, true, true, true]
  {
    hide BitsN;
    NextFour(0xEDB8, 0x0EDB, 12);
    NextFour(0x0EDB, 0x00ED, 8);
    NextFour(0x00ED, 0x000E, 4);
    NextFour(0x000E, 0x0000, 0);
    NoBits();
  }

  /** The constant in the code is the generator. */
  lemma PolyBits()
    ensures Bits(POLY) == Generator()
  {
    hide BitsN;
    PolyLow(16);
    PolyHigh();
  }

  lemma NoBits()
    ensures BitsN(0, 0) == []
  {
  }

  // ---- bytes ----

  /** The bit pattern of a byte is its number. */
  lemma BvIs(b: byte)
    ensures Bv(b) as int == b
  {
    NibbleIs(b / 16);
    NibbleIs(b % 16);
  }

  lemma NibbleIs(n: int)
    requires 0 <= n < 16
    ensures Nibble(n) as int == n
  {
  }

  lemma NibbleBits(n: int)
    requires 0 <= n < 16
    ensures var x := Nibble(n); [x & 1 == 1, x & 2 == 2, x & 4 == 4, x & 8 == 8] == Digits(n, 4)
  {
    NibbleValues(n);
    FourDigits(n);
  }

  lemma NibbleValues(n: int)
    requires 0 <= n < 16
    ensures var x := Nibble(n);
            && (x & 1 == 1) == (n % 2 == 1) && (x & 2 == 2) == (n / 2 % 2 == 1)
            && (x & 4 == 4) == (n / 4 % 2 == 1) && (x & 8 == 8) == (n / 8 % 2 == 1)
  {
    if n < 4 { assert n == 0 || n == 1 || n == 2 || n == 3; }
    else if n < 8 { assert n == 4 || n == 5 || n == 6 || n == 7; }
    else if n < 12 { assert n == 8 || n == 9 || n == 10 || n == 11; }
    else { assert n == 12 || n == 13 || n == 14 || n == 15; }
  }

  lemma FourDigits(n: nat)
    ensures Digits(n, 4) == [n % 2 == 1, n / 2 % 2 == 1, n / 4 % 2 == 1, n / 8 % 2 == 1]
  {
    var n1 := n / 2;
    var n2 := n1 / 2;
    var n3 := n2 / 2;
    assert n2 == n / 4 && n3 == n / 8;
    assert Digits(n, 4) == [n % 2 == 1] + Digits(n1, 3) && Digits(n1, 3) == [n1 % 2 == 1] + Digits(n2, 2);
    assert Digits(n2, 2) == [n2 % 2 == 1] + Digits(n3, 1) && Digits(n3, 1) == [n3 % 2 == 1] + Digits(n3 / 2, 0);
  }

  lemma {:induction false} DigitsSplit(x: nat, m: nat, n: nat)
    ensures Digits(x, m + n) == Digits(x, m) + Digits(Halved(x, m), n)
    decreases m
  {
    if m > 0 { DigitsSplit(x / 2, m - 1, n); }
  }

  function Halved(x: nat, m: nat): nat
    decreases m
  {
    if m == 0 then x else Halved(x / 2, m - 1)
  }

  lemma EvenPart(a: nat, l: nat)
    ensures (2 * a + l) % 2 == l % 2 && (2 * a + l) / 2 == a + l / 2
  {
  }

  lemma LowDigits(h: nat, l: nat)
    requires l < 16
    ensures Digits(16 * h + l, 4) == Digits(l, 4) && Halved(16 * h + l, 4) == h
  {
    var x, l1 := 16 * h + l, l / 2;
    var l2 := l1 / 2;
    var l3 := l2 / 2;
    EvenPart(8 * h, l);
    EvenPart(4 * h, l1);
    EvenPart(2 * h, l2);
    EvenPart(h, l3);
    assert l3 / 2 == 0;
    FourSteps(x, 8 * h + l1, 4 * h + l2, 2 * h + l3, h);
    FourSteps(l, l1, l2, l3, 0);
  }

  lemma FourSteps(x: nat, x1: nat, x2: nat, x3: nat, x4: nat)
    requires x1 == x / 2 && x2 == x1 / 2 && x3 == x2 / 2 && x4 == x3 / 2
    ensures Digits(x, 4) == [x % 2 == 1, x1 % 2 == 1, x2 % 2 == 1, x3 % 2 == 1] && Halved(x, 4) == x4
  {
    assert Digits(x, 4) == [x % 2 == 1] + Digits(x1, 3) && Digits(x1, 3) == [x1 % 2 == 1] + Digits(x2, 2);
    assert Digits(x2, 2) == [x2 % 2 == 1] + Digits(x3, 1) && Digits(x3, 1) == [x3 % 2 == 1] + Digits(x4, 0);
    assert Halved(x, 4) == Halved(x1, 3) && Halved(x1, 3) == Halved(x2, 2) && Halved(x2, 2) == Halved(x3, 1) && Halved(x3, 1) == Halved(x4, 0);
  }

  lemma TwoNibbles(h: bv4, l: bv4)
    ensures var x := (h as bv32 << 4) | l as bv32;
            && x >> 4 == h as bv32 && (h as bv32) >> 4 == 0
            && x & 1 == l as bv32 & 1 && x & 2 == l as bv32 & 2 && x & 4 == l as bv32 & 4 && x & 8 == l as bv32 & 8
  {
  }

  lemma BvNibbles(b: byte)
    ensures var x, h, l := Bv(b), Nibble(b / 16), Nibble(b % 16);
            && x >> 4 == h && h >> 4 == 0 && x & 1 == l & 1 && x & 2 == l & 2 && x & 4 == l & 4 && x & 8 == l & 8
  {
    TwoNibbles((b / 16) as bv4, (b % 16) as bv4);
  }

  lemma ByteIsBits(b: byte)
    ensures Bits(Bv(b)) == ByteBits(b) + Falses(24)
  {
    hide BitsN, Bv, Nibble, Digits;
    var h, l := b / 16, b % 16;
    BvNibbles(b);
    NibbleBits(h);
    NibbleBits(l);
    NextFour(Bv(b), Nibble(h), 28);
    NextFour(Nibble(h), 0, 24);
    ZeroBits(24);
    DigitsSplit(b, 4, 4);
    LowDigits(h, l);
  }

  /** A byte into the CRC is its eight bits into the shift register. */
  lemma ByteFeeds(c: bv32, b: byte)
    ensures Bits(Byte(c, b)) == Serial(Bits(c), ByteBits(b))
  {
    hide BitsN, Xor, Steps, Bv, Serial;
    StepsFeed(Xor(c, Bv(b)), 8);
    BitsXor(c, Bv(b), 32);
    ByteIsBits(b);
    SerialAtOnce(Bits(c), ByteBits(b));
  }

  lemma {:induction false} FoldFeeds(c: bv32, s: seq<byte>)
    ensures Bits(Fold(c, s)) == Serial(Bits(c), Message(s))
  {
    hide Bits, Byte, Serial;
    if s == [] { NothingFed(Bits(c)); }
    else {
      var t := s[..|s| - 1];
      FoldFeeds(c, t);
      ByteFeeds(Fold(c, t), s[|s| - 1]);
      SerialConcat(Bits(c), Message(t), ByteBits(s[|s| - 1]));
    }
  }

  lemma NothingFed(st: Poly)
    requires |st| == 32
    ensures Serial(st, []) == st
  {
  }

  lemma InvIsXor(c: bv32)
    ensures Inv(c) == Xor(c, 0xFFFF_FFFF) && Xor(0, 0xFFFF_FFFF) == 0xFFFF_FFFF
  {
  }

  lemma OnesBits()
    ensures Bits(0xFFFF_FFFF) == Trues(32)
  {
    hide BitsN;
    NextFour(0xFFFF_FFFF, 0x0FFF_FFFF, 28);
    NextFour(0x0FFF_FFFF, 0x00FF_FFFF, 24);
    NextFour(0x00FF_FFFF, 0x000F_FFFF, 20);
    NextFour(0x000F_FFFF, 0x0000_FFFF, 16);
    NextFour(0x0000_FFFF, 0x0000_0FFF, 12);
    NextFour(0x0000_0FFF, 0x0000_00FF, 8);
    NextFour(0x0000_00FF, 0x0000_000F, 4);
    NextFour(0x0000_000F, 0x0000_0000, 0);
    NoBits();
  }

  lemma InvBits(c: bv32)
    ensures Bits(Inv(c)) == Complement(Bits(c))
  {
    hide BitsN, Inv, Xor;
    InvIsXor(c);
    OnesBits();
    BitsXor(c, 0xFFFF_FFFF, 32);
  }

  /** CRC-32: the message, its first 32 bits inverted, times x^32, divided by the generator;
      the remainder inverted.  Bytes go in, and the word comes out, least significant bit
      first. */
  lemma CrcIsRemainder(s: seq<byte>)
    ensures Bits(CrcWord(s) as bv32) == Complement(Remainder(AddFront(Message(s) + Falses(32), Trues(32))))
  {
    hide BitsN, Fold, Inv, Remainder, AddFront;
    var c := Fold(0xFFFF_FFFF, s);
    FoldFeeds(0xFFFF_FFFF, s);
    OnesBits();
    SerialDivides(Trues(32), Message(s));
    InvBits(c);
    InvIsXor(0);
    WordIs(Crc32(0, s));
  }

  lemma WordIs(c: bv32)
    ensures (c as int) as bv32 == c
  {
  }

  // ---- the check value ----

  lemma EightMore(c: bv32, d: bv32)
    requires Step(Step(Step(Step(Step(Step(Step(Step(c)))))))) == d
    ensures Steps(c, 8) == d
  {
    EightSteps(c);
  }

  lemma Digit1()
    ensures Byte(0xFFFFFFFF, 0x31) == 0x7C231048
  {
    assert Bv(0x31) == 0x31;
    EightMore(0xFFFFFFCE, 0x7C231048);
  }

  lemma Digit2()
    ensures Byte(0x7C231048, 0x32) == 0xB0ACBB32
  {
    assert Bv(0x32) == 0x32;
    EightMore(0x7C23107A, 0xB0ACBB32);
  }

  lemma Digit3()
    ensures Byte(0xB0ACBB32, 0x33) == 0x77B79C2D
  {
    assert Bv(0x33) == 0x33;
    EightMore(0xB0ACBB01, 0x77B79C2D);
  }

  lemma Digit4()
    ensures Byte(0x77B79C2D, 0x34) == 0x641C1F5C
  {
    assert Bv(0x34) == 0x34;
    EightMore(0x77B79C19, 0x641C1F5C);
  }

  lemma Digit5()
    ensures Byte(0x641C1F5C, 0x35) == 0x340AC5E3
  {
    assert Bv(0x35) == 0x35;
    EightMore(0x641C1F69, 0x340AC5E3);
  }

  lemma Digit6()
    ensures Byte(0x340AC5E3, 0x36) == 0xF68D2C9E
  {
    assert Bv(0x36) == 0x36;
    EightMore(0x340AC5D5, 0xF68D2C9E);
  }

  lemma Digit7()
    ensures Byte(0xF68D2C9E, 0x37) == 0xAFFC9660
  {
    assert Bv(0x37) == 0x37;
    EightMore(0xF68D2CA9, 0xAFFC9660);
  }

  lemma Digit8()
    ensures Byte(0xAFFC9660, 0x38) == 0x651F2550
  {
    assert Bv(0x38) == 0x38;
    EightMore(0xAFFC9658, 0x651F2550);
  }

  lemma Digit9()
    ensures Byte(0x651F2550, 0x39) == 0x340BC6D9
  {
    assert Bv(0x39) == 0x39;
    EightMore(0x651F2569, 0x340BC6D9);
  }

  /** The check value of CRC-32: that of the digits 1 to 9. */
  lemma CheckValue()
    ensures CrcWord([0x31, 0x32, 0x33, 0x34, 0x35, 0x36, 0x37, 0x38, 0x39]) == 0xCBF4_3926
  {
    hide Byte;
    var s: seq<byte> := [0x31, 0x32, 0x33, 0x34, 0x35, 0x36, 0x37, 0x38, 0x39];
    Digit1(); Digit2(); Digit3(); Digit4(); Digit5(); Digit6(); Digit7(); Digit8(); Digit9();
    InvIsXor(0);
    assert Fold(0xFFFF_FFFF, s[..0]) == 0xFFFF_FFFF;
    assert s[..1][..0] == s[..0] && Fold(0xFFFF_FFFF, s[..1]) == 0x7C231048;
    assert s[..2][..1] == s[..1] && Fold(0xFFFF_FFFF, s[..2]) == 0xB0ACBB32;
    assert s[..3][..2] == s[..2] && Fold(0xFFFF_FFFF, s[..3]) == 0x77B79C2D;
    assert s[..4][..3] == s[..3] && Fold(0xFFFF_FFFF, s[..4]) == 0x641C1F5C;
    assert s[..5][..4] == s[..4] && Fold(0xFFFF_FFFF, s[..5]) == 0x340AC5E3;
    assert s[..6][..5] == s[..5] && Fold(0xFFFF_FFFF, s[..6]) == 0xF68D2C9E;
    assert s[..7][..6] == s[..6] && Fold(0xFFFF_FFFF, s[..7]) == 0xAFFC9660;
    assert s[..8][..7] == s[..7] && Fold(0xFFFF_FFFF, s[..8]) == 0x651F2550;
    assert s[..9][..8] == s[..8] && Fold(0xFFFF_FFFF, s[..9]) == 0x340BC6D9;
    assert s[..9] == s;
    assert Inv(0x340BC6D9) == 0xCBF4_3926;
  }
}
