/** Single bits of mask registers. */
module VectorBits {
  import opened Basics
  import opened Bytes

  /** Bit i of a number. */
  function Digit(b: nat, i: nat): nat { b / Two(i) % 2 }

  /** Bit i of the mask that starts at byte o. */
  predicate MaskBit(v: seq<byte>, o: nat, i: nat)
    requires o + i / 8 < |v|
  {
    Digit(v[o + i / 8], i % 8) == 1
  }

  /** The number with one bit written. */
  function WithDigit(b: nat, x: nat, on: bool): int { b - Digit(b, x) * Two(x) + if on then Two(x) else 0 }

  // ---- division ----

  lemma {:induction false} TwoAdd(x: nat, k: nat)
    ensures Two(x + k) == Two(x) * Two(k)
  {
    if k > 0 {
      TwoAdd(x, k - 1);
      assert Two(x + k) == 2 * Two(x + k - 1);
    }
  }

  lemma DivIs(n: int, t: int, q: int, r: int)
    requires t > 0 && n == t * q + r && 0 <= r < t
    ensures n / t == q
  {
    var d := n / t - q;
    assert t * d == r - n % t;
    Between(t, d);
  }

  lemma Between(t: int, d: int)
    requires -t < t * d < t
    ensures d == 0
  {
  }

  lemma DivAdd(b: int, t: int, m: int)
    requires t > 0
    ensures (b + t * m) / t == b / t + m
  {
    assert b + t * m == t * (b / t + m) + b % t;
    DivIs(b + t * m, t, b / t + m, b % t);
  }

  lemma DivDiv(b: nat, t: nat, k: nat)
    requires t > 0 && k > 0
    ensures t * k > 0 && b / (t * k) == b / t / k
  {
    var q, r := b / t, b % t;
    var p, s := q / k, q % k;
    assert b == (t * k) * p + (t * s + r) by { assert t * (k * p + s) == (t * k) * p + t * s; }
    assert t * s <= t * (k - 1);
    DivIs(b, t * k, p, t * s + r);
  }

  // ---- one bit written ----

  /** A multiple of a higher power changes no lower bit. */
  lemma LowerDigits(b: nat, c: nat, x: nat, y: nat, m: int)
    requires y < x && c == b + Two(x) * m
    ensures Digit(c, y) == Digit(b, y)
  {
    hide Two;
    var t, k := Two(y), Two(x - y - 1);
    TwoAdd(y, x - y);
    TwoAdd(x - y - 1, 1);
    TwoOne();
    Regrouped(t, k, m);
    DivAdd(b, t, 2 * (k * m));
    EvenAway(b / t, k * m);
  }

  lemma TwoOne()
    ensures Two(1) == 2
  {
  }

  lemma Regrouped(t: int, k: int, m: int)
    ensures t * (k * 2) * m == t * (2 * (k * m))
  {
  }

  lemma EvenAway(a: int, z: int)
    ensures (a + 2 * z) % 2 == a % 2
  {
  }

  /** What is the same above a power has the same higher bits. */
  lemma HigherDigits(b: nat, c: nat, x: nat, y: nat)
    requires y > x && b / (2 * Two(x)) == c / (2 * Two(x))
    ensures Digit(c, y) == Digit(b, y)
  {
    TwoAdd(x + 1, y - x - 1);
    DivDiv(b, 2 * Two(x), Two(y - x - 1));
    DivDiv(c, 2 * Two(x), Two(y - x - 1));
  }

  /** A number and its bit x. */
  lemma SplitAt(b: nat, x: nat)
    ensures b == b / Two(x) / 2 * (2 * Two(x)) + Digit(b, x) * Two(x) + b % Two(x)
  {
    hide Two;
    Split(b, Two(x));
  }

  lemma Split(b: nat, t: nat)
    requires t > 0
    ensures b == b / t / 2 * (2 * t) + b / t % 2 * t + b % t
  {
    var q := b / t;
    assert b == t * q + b % t;
    Distribute(q / 2, q % 2, t);
    Halves(q);
  }

  lemma Halves(q: nat)
    ensures q == 2 * (q / 2) + q % 2
  {
  }

  lemma Distribute(a: int, d: int, t: int)
    ensures (2 * a + d) * t == a * (2 * t) + d * t
  {
  }

  /** The bit written is the bit asked for, and every other is as before. */
  lemma WithDigitMeans(b: nat, x: nat, on: bool, y: nat)
    ensures WithDigit(b, x, on) >= 0 && Digit(WithDigit(b, x, on), y) == if y == x then (if on then 1 else 0) else Digit(b, y)
  {
    hide Two;
    SplitAt(b, x);
    var p, h, l := Two(x), b / Two(x) / 2, b % Two(x);
    var d, e := Digit(b, x), if on then 1 else 0;
    hide Digit;
    Written(h, p, d, e, l, b);
    var c := WithDigit(b, x, on);
    assert c == h * (2 * p) + e * p + l;
    if y < x {
      LowerDigits(b, c, x, y, e - d);
    } else if y == x {
      SameDigit(h, e, l, c, x);
    } else {
      DivIs(b, 2 * p, h, d * p + l);
      DivIs(c, 2 * p, h, e * p + l);
      HigherDigits(b, c, x, y);
    }
  }

  lemma Written(h: nat, p: nat, d: int, e: int, l: nat, b: int)
    requires 0 <= d <= 1 && 0 <= e <= 1 && l < p && b == h * (2 * p) + d * p + l
    ensures h * (2 * p) + e * p + l == b + p * (e - d) && h * (2 * p) >= 0 && h * (2 * p) == (2 * p) * h
    ensures 0 <= d * p + l < 2 * p && 0 <= e * p + l < 2 * p
    ensures e * p == if e == 1 then p else 0
  {
  }

  lemma SameDigit(h: nat, e: nat, l: nat, c: nat, x: nat)
    requires e <= 1 && l < Two(x) && c == h * (2 * Two(x)) + e * Two(x) + l
    ensures Digit(c, x) == e
  {
    hide Two;
    var p := Two(x);
    Distribute(h, e, p);
    DivIs(c, p, 2 * h + e, l);
  }

  /** A byte stays a byte. */
  lemma WithDigitByte(b: byte, x: nat, on: bool)
    requires x < 8
    ensures 0 <= WithDigit(b, x, on) < 0x100
  {
    WithDigitMeans(b, x, on, 0);
    SplitAt(b, x);
    TwoAdd(x, 8 - x);
    assert Two(8) == 0x100;
    Top(b / Two(x) / 2, Two(x), Two(7 - x), Digit(b, x), if on then 1 else 0, b % Two(x), b);
  }

  lemma Top(h: int, p: int, k: int, d: int, e: int, l: int, b: int)
    requires p > 0 && p * (2 * k) == 0x100 && b < 0x100 && b == h * (2 * p) + d * p + l && 0 <= l < p && 0 <= d <= 1 && 0 <= e <= 1
    ensures h * (2 * p) + e * p + l < 0x100
  {
    assert h < k by { if h >= k { Bigger(h, k, 2 * p); } }
    Bigger(k - 1, h, 2 * p);
    assert (k - 1) * (2 * p) == 0x100 - 2 * p;
    assert e * p <= p;
  }

  lemma Bigger(h: int, k: int, p: int)
    requires h >= k && p > 0
    ensures h * p >= k * p
  {
  }
}
