/** Bytes and 32-bit words as bounded integers, and their little- and big-endian layouts. */
module Bytes {
  type byte = x: int | 0 <= x < 0x100
  type word = x: int | 0 <= x < 0x1_0000_0000

  const WORD: int := 0x1_0000_0000

  function Le16(s: seq<byte>, o: nat): (w: word)
    requires o + 2 <= |s|
  {
    s[o] as int + 0x100 * (s[o + 1] as int)
  }

  function Le32(s: seq<byte>, o: nat): (w: word)
    requires o + 4 <= |s|
  {
    s[o] as int + 0x100 * (s[o + 1] as int) + 0x1_0000 * (s[o + 2] as int) + 0x100_0000 * (s[o + 3] as int)
  }

  function Be32(s: seq<byte>, o: nat): (w: word)
    requires o + 4 <= |s|
  {
    s[o + 3] as int + 0x100 * (s[o + 2] as int) + 0x1_0000 * (s[o + 1] as int) + 0x100_0000 * (s[o] as int)
  }

  /** A little-endian number. */
  function Le(s: seq<byte>): (v: nat) { if s == [] then 0 else s[0] + 0x100 * Le(s[1..]) }

  /** A big-endian number. */
  function Be(s: seq<byte>): (v: nat) { if s == [] then 0 else 0x100 * Be(s[..|s| - 1]) + s[|s| - 1] }

  lemma LeFour(a: byte, b: byte, c: byte, d: byte)
    ensures Le([a, b]) == a + 0x100 * b
    ensures Le([a, b, c, d]) == a + 0x100 * b + 0x1_0000 * c + 0x100_0000 * d
  {
    assert [a, b][1..] == [b] && [b][1..] == [];
    assert [a, b, c, d][1..] == [b, c, d] && [b, c, d][1..] == [c, d] && [c, d][1..] == [d] && [d][1..] == [];
    assert Le([d]) == d && Le([c, d]) == c + 0x100 * d && Le([b, c, d]) == b + 0x100 * Le([c, d]);
  }

  lemma BeFour(a: byte, b: byte, c: byte, d: byte)
    ensures Be([a, b, c, d]) == 0x100_0000 * a + 0x1_0000 * b + 0x100 * c + d
  {
    assert [a, b, c, d][..3] == [a, b, c] && [a, b, c][..2] == [a, b] && [a, b][..1] == [a] && [a][..0] == [];
    assert Be([a]) == a && Be([a, b]) == 0x100 * a + b && Be([a, b, c]) == 0x100 * Be([a, b]) + c;
  }

  /** The words are the numbers that their bytes make, in either order. */
  lemma WordsAreNumbers(s: seq<byte>, o: nat)
    requires o + 4 <= |s|
    ensures Le32(s, o) == Le(s[o..o + 4]) && Be32(s, o) == Be(s[o..o + 4]) && Le16(s, o) == Le(s[o..o + 2])
  {
    hide Le, Be;
    LeFour(s[o], s[o + 1], s[o + 2], s[o + 3]);
    BeFour(s[o], s[o + 1], s[o + 2], s[o + 3]);
    assert s[o..o + 4] == [s[o], s[o + 1], s[o + 2], s[o + 3]] && s[o..o + 2] == [s[o], s[o + 1]];
  }

  function LeBytes16(w: word): (s: seq<byte>)
    requires w < 0x1_0000
    ensures |s| == 2 && Le16(s, 0) == w
  {
    [w % 0x100, w / 0x100]
  }

  function LeBytes(w: word): (s: seq<byte>)
    ensures |s| == 4 && Le32(s, 0) == w
  {
    var w1 := w / 0x100; var w2 := w1 / 0x100; var w3 := w2 / 0x100;
    [w % 0x100, w1 % 0x100, w2 % 0x100, w3]
  }

  function BeBytes(w: word): (s: seq<byte>)
    ensures |s| == 4 && Be32(s, 0) == w
  {
    var w1 := w / 0x100; var w2 := w1 / 0x100; var w3 := w2 / 0x100;
    [w3, w2 % 0x100, w1 % 0x100, w % 0x100]
  }

  function Zeros(n: nat): (s: seq<byte>)
    ensures |s| == n && forall i | 0 <= i < n :: s[i] == 0
  {
    seq(n, _ => 0)
  }

  function Ones(n: nat): (s: seq<byte>)
    ensures |s| == n && forall i | 0 <= i < n :: s[i] == 0xff
  {
    seq(n, _ => 0xff)
  }

  lemma Le32Slice(s: seq<byte>, o: nat)
    requires o + 4 <= |s|
    ensures Le32(s, o) == Le32(s[o..o + 4], 0)
  {
  }

  lemma Le16Slice(s: seq<byte>, o: nat)
    requires o + 2 <= |s|
    ensures Le16(s, o) == Le16(s[o..o + 2], 0)
  {
  }

  lemma MiddleSlice<T>(a: seq<T>, b: seq<T>, q: seq<T>, p: seq<T>)
    requires a + b <= q && q <= p
    ensures |a| + |b| <= |p| && p[|a|..|a| + |b|] == b
  {
    assert p[..|a + b|] == q[..|a + b|] == a + b;
  }

  /** A stretch of mem replaced. */
  function Spliced(mem: seq<byte>, a: nat, data: seq<byte>): (m: seq<byte>)
    requires a + |data| <= |mem|
    ensures |m| == |mem|
  {
    mem[..a] + data + mem[a + |data|..]
  }

  lemma SplicedLast(mem: seq<byte>, a: nat, data: seq<byte>, b: byte)
    requires a + |data| < |mem|
    ensures Spliced(mem, a, data)[a + |data|] == mem[a + |data|]
    ensures Spliced(mem, a, data)[a + |data| := b] == Spliced(mem, a, data + [b])
  {
  }

  lemma SplicedNone(mem: seq<byte>, a: nat)
    requires a <= |mem|
    ensures Spliced(mem, a, []) == mem
  {
  }

  lemma BytesOfWord(s: seq<byte>, o: nat)
    requires o + 4 <= |s|
    ensures LeBytes(Le32(s, o)) == s[o..o + 4]
  {
    var b: int, c: int, d: int := s[o + 1], s[o + 2], s[o + 3];
    var w := Le32(s, o);
    assert w / 0x100 == b + 0x100 * c + 0x1_0000 * d;
    assert w / 0x100 / 0x100 == c + 0x100 * d;
  }

  lemma SliceSlice<T>(s: seq<T>, a: nat, e: nat, x: nat, y: nat)
    requires a <= e <= |s| && x <= y <= e - a
    ensures s[a..e][x..y] == s[a + x..a + y]
  {
    var u, v := s[a..e][x..y], s[a + x..a + y];
    forall i | 0 <= i < y - x ensures u[i] == v[i] {
      assert u[i] == s[a..e][x + i] == s[a + (x + i)] && v[i] == s[a + x + i];
    }
  }
}
