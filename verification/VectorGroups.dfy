/** Register groups of the vector unit: how large they are, and that elements fit. */
module VectorGroups {
  import opened Basics

  /** Where element i starts. */
  function At(base: nat, w: nat, i: nat): nat { base + i * w }

  /** Element widths in bytes; LMUL and EMUL in eighths. */
  predicate Width(b: nat) { b == 1 || b == 2 || b == 4 }
  predicate Lmul(l: nat) { l == 1 || l == 2 || l == 4 || l == 8 || l == 16 || l == 32 || l == 64 }
  predicate Vlenb(n: nat) { n == 8 || n == 16 || n == 32 }

  function Vlmax(vlenb: nat, sew: nat, lmul: nat): nat
    requires sew > 0
  {
    vlenb / sew * lmul / 8
  }

  /** VLMAX elements take up the group, and one more would not fit. */
  lemma VlmaxMeans(vlenb: nat, sew: nat, lmul: nat)
    requires Vlenb(vlenb) && Width(sew) && Lmul(lmul)
    ensures 8 * (sew * Vlmax(vlenb, sew, lmul)) <= vlenb * lmul < 8 * (sew * Vlmax(vlenb, sew, lmul) + sew)
  {
    hide Lmul, Width, Vlenb;
    WholeRegister(vlenb, sew);
    var q := vlenb / sew;
    var n := q * lmul / 8;
    assert vlenb * lmul == sew * (q * lmul);
    assert sew * (8 * n) <= sew * (q * lmul) < sew * (8 * (n + 1));
  }

  /** emul_ok: EEW / SEW * LMUL between 1/8 and 8. */
  predicate EmulOk(eew: nat, sew: nat, lmul: nat) { sew <= eew * lmul <= 64 * sew }

  /** How many registers a group takes. */
  function Regs(eew: nat, sew: nat, lmul: nat): nat
    requires sew > 0
  {
    var n := eew * lmul / sew / 8;
    if n < 1 then 1 else n
  }

  predicate GroupOk(r: nat, n: nat) { (n == 1 || n == 2 || n == 4 || n == 8) && r % n == 0 && r + n <= 32 }

  /** EMUL in eighths is a whole number: all of these are powers of two. */
  lemma EmulWhole(sew: nat, lmul: nat, eew: nat)
    requires Width(sew) && Width(eew) && Lmul(lmul) && EmulOk(eew, sew, lmul)
    ensures eew * lmul / sew * sew == eew * lmul
    ensures var e := eew * lmul / sew; e == 1 || e == 2 || e == 4 || e == 8 || e == 16 || e == 32 || e == 64
  {
    if eew == 1 { WholeDiv(sew, lmul); } else if eew == 2 { WholeDiv(sew, 2 * lmul); } else { WholeDiv(sew, 4 * lmul); }
  }

  lemma WholeDiv(sew: nat, x: nat)
    requires Width(sew) && sew <= x <= 64 * sew
    requires x == 1 || x == 2 || x == 4 || x == 8 || x == 16 || x == 32 || x == 64 || x == 128 || x == 256
    ensures x / sew * sew == x
    ensures var e := x / sew; e == 1 || e == 2 || e == 4 || e == 8 || e == 16 || e == 32 || e == 64
  {
  }

  lemma MulMono(a: int, b: int, c: int)
    requires a <= b && 0 <= c
    ensures a * c <= b * c
  {
  }

  /** Element i of a group lies inside the group. */
  lemma Fits(vlenb: nat, sew: nat, lmul: nat, eew: nat, i: nat)
    requires Vlenb(vlenb) && Width(sew) && Width(eew) && Lmul(lmul) && EmulOk(eew, sew, lmul) && i < Vlmax(vlenb, sew, lmul)
    ensures i * eew + eew <= Regs(eew, sew, lmul) * vlenb <= 8 * vlenb
  {
    hide Regs, Vlmax, Lmul, Width, EmulOk;
    WholeRegister(vlenb, sew);
    var q, e := vlenb / sew, eew * lmul / sew;
    EmulWhole(sew, lmul, eew);
    BelowVlmax(vlenb, sew, lmul, i);
    Core(q, lmul, eew, e, sew, vlenb, i);
    GroupBytes(i * eew + eew, e, vlenb);
    RegsIs(eew, sew, lmul, e);
  }

  lemma WholeRegister(vlenb: nat, sew: nat)
    requires Vlenb(vlenb) && Width(sew)
    ensures sew > 0 && vlenb / sew * sew == vlenb
  {
  }

  lemma Core(q: int, lmul: int, eew: int, e: int, sew: int, vlenb: int, i: int)
    requires q * sew == vlenb && e * sew == eew * lmul && 8 * (i + 1) <= q * lmul && 0 <= eew
    ensures 8 * (i * eew + eew) <= e * vlenb
  {
    MulMono(8 * (i + 1), q * lmul, eew);
    Regroup(q, lmul, eew, e, sew, vlenb);
    assert (8 * (i + 1)) * eew == 8 * (i * eew + eew);
  }

  lemma BelowVlmax(vlenb: nat, sew: nat, lmul: nat, i: nat)
    requires sew > 0 && i < Vlmax(vlenb, sew, lmul)
    ensures 8 * (i + 1) <= vlenb / sew * lmul
  {
  }

  lemma Regroup(q: int, lmul: int, eew: int, e: int, sew: int, vlenb: int)
    requires e * sew == eew * lmul && q * sew == vlenb
    ensures q * lmul * eew == e * vlenb
  {
    calc {
      q * lmul * eew;
      q * (eew * lmul);
      q * (e * sew);
      e * (q * sew);
    }
  }

  lemma RegsIs(eew: nat, sew: nat, lmul: nat, e: nat)
    requires sew > 0 && e == eew * lmul / sew
    ensures Regs(eew, sew, lmul) == if e / 8 < 1 then 1 else e / 8
  {
  }

  lemma GroupBytes(n: int, e: nat, vlenb: nat)
    requires 8 * n <= e * vlenb && Vlenb(vlenb)
    requires e == 1 || e == 2 || e == 4 || e == 8 || e == 16 || e == 32 || e == 64
    ensures n <= (if e / 8 < 1 then 1 else e / 8) * vlenb <= 8 * vlenb
  {
  }

  /** group: an aligned group of n registers, apart from m registers at a, in a hundred rolls. */
  method Group(rolls: seq<nat>, n: nat, a: nat, m: nat, notV0: bool) returns (r: Option<nat>)
    requires n == 1 || n == 2 || n == 4 || n == 8
    ensures r.Some? ==> GroupOk(r.value, n) && (m == 0 || r.value + n <= a || a + m <= r.value) && (notV0 ==> r.value > 0)
  {
    var j := 0;
    while j < 100 && j < |rolls| {
      var x := n * (rolls[j] % (32 / n));
      if !(notV0 && x == 0) && (m == 0 || x + n <= a || a + m <= x) {
        Aligned(n, rolls[j] % (32 / n));
        return Some(x);
      }
      j := j + 1;
    }
    return None;
  }

  lemma Aligned(n: nat, q: nat)
    requires (n == 1 || n == 2 || n == 4 || n == 8) && q < 32 / n
    ensures GroupOk(n * q, n)
  {
  }

  lemma GroupSize(eew: nat, sew: nat, lmul: nat)
    requires Width(sew) && Width(eew) && Lmul(lmul)
    ensures EmulOk(sew, sew, lmul)
    ensures EmulOk(eew, sew, lmul) ==>
            var n := Regs(eew, sew, lmul); n == 1 || n == 2 || n == 4 || n == 8
  {
    hide Regs;
    SelfEmul(sew, lmul);
    if EmulOk(eew, sew, lmul) {
      EmulWhole(sew, lmul, eew);
      RegsIs(eew, sew, lmul, eew * lmul / sew);
    }
  }

  lemma GroupHolds(vlenb: nat, sew: nat, lmul: nat, eew: nat, act: set<nat>)
    requires Vlenb(vlenb) && Width(sew) && Width(eew) && Lmul(lmul) && EmulOk(eew, sew, lmul)
    requires forall i <- act :: i < Vlmax(vlenb, sew, lmul)
    ensures forall i <- act :: i * eew + eew <= Regs(eew, sew, lmul) * vlenb
  {
    hide Vlenb, Lmul, EmulOk, Vlmax, Regs;
    forall i <- act ensures i * eew + eew <= Regs(eew, sew, lmul) * vlenb { Fits(vlenb, sew, lmul, eew, i); }
  }

  lemma ElementInside(vlenb: nat, sew: nat, lmul: nat, eew: nat, i: nat, r: nat)
    requires Vlenb(vlenb) && Width(sew) && Width(eew) && Lmul(lmul) && EmulOk(eew, sew, lmul) && i < Vlmax(vlenb, sew, lmul)
    requires GroupOk(r, Regs(eew, sew, lmul))
    ensures i * eew + eew <= Regs(eew, sew, lmul) * vlenb <= 8 * vlenb
    ensures At(r * vlenb, eew, i) + eew <= 32 * vlenb
  {
    hide Regs, Vlmax, GroupOk, Lmul, EmulOk;
    Fits(vlenb, sew, lmul, eew, i);
    InGroup(r, Regs(eew, sew, lmul), i * eew + eew, vlenb);
  }

  lemma VlmaxBound(vlenb: nat, sew: nat, lmul: nat)
    requires Vlenb(vlenb) && Width(sew) && Lmul(lmul)
    ensures Vlmax(vlenb, sew, lmul) <= 8 * vlenb
  {
    MulMono(lmul, 64, vlenb / sew);
  }

  lemma MaskByte(r: nat, i: nat, vlenb: nat)
    requires r < 32 && i < 8 * vlenb
    ensures r * vlenb + i / 8 < (r + 1) * vlenb <= 32 * vlenb
  {
    InGroup(r, 1, i / 8 + 1, vlenb);
  }

  lemma RegsAtMost(eew: nat, sew: nat, lmul: nat)
    requires Width(sew) && Width(eew) && Lmul(lmul) && EmulOk(eew, sew, lmul)
    ensures Regs(eew, sew, lmul) <= 8
  {
    EmulWhole(sew, lmul, eew);
  }

  lemma FewElements(i: nat, w: nat, n: nat)
    requires Width(w) && i * w + w <= n
    ensures i < n
  {
    MulMono(1, w, i);
  }

  lemma SelfEmul(sew: nat, lmul: nat)
    requires Width(sew) && Lmul(lmul)
    ensures EmulOk(sew, sew, lmul)
  {
  }

  lemma InGroup(r: nat, n: nat, x: nat, vlenb: nat)
    requires GroupOk(r, n) && x <= n * vlenb
    ensures r * vlenb + x <= (r + n) * vlenb <= 32 * vlenb
  {
    assert (r + n) * vlenb == r * vlenb + n * vlenb;
    MulMono(r + n, 32, vlenb);
  }
}
