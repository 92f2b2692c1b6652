/** The resident SBI turns the machine timer into the supervisor's: every interleaving of
    the clock, of set_timer's stores and of the machine timer trap (chapter 6 of the
    RISC-V SBI specification v2.0). */
module SbiTimer {
  const TWO32: int := 0x1_0000_0000

  type half = x: int | 0 <= x < 0x1_0000_0000
  type u64 = x: int | 0 <= x < 0x1_0000_0000_0000_0000

  function Lo(t: u64): half { t % TWO32 }
  function Hi(t: u64): half { t / TWO32 }

  lemma Halves(t: u64)
    ensures Hi(t) * TWO32 + Lo(t) == t
  {
  }

  /** Where M-mode is: outside it, before the n-th statement of set_timer, or before the
      n-th of the timer trap. */
  datatype Pc = Outside | Setting(n: nat, t: u64) | Trapping(n: nat)

  /** The clock, mtimecmp's two words, mie.MTIE, mip.STIP, where M-mode is; and what the
      payload last asked for, how often it asked and how often the SBI answered. */
  datatype State = State(mtime: u64, cmpLo: half, cmpHi: half, mtie: bool, stip: bool, pc: Pc,
                         deadline: u64, asked: nat, forwarded: nat)

  function Cmp(s: State): int { s.cmpHi * TWO32 + s.cmpLo }

  /** The machine timer interrupt is pending. */
  predicate Pending(s: State) { s.mtime as int >= Cmp(s) }

  predicate Init(s: State) { !s.mtie && !s.stip && s.pc == Outside && s.asked == 0 && s.forwarded == 0 }

  predicate Tick(s: State, r: State) { r.mtime >= s.mtime && r == s.(mtime := r.mtime) }

  /** An SBI call from the payload. */
  predicate Call(s: State, r: State) {
    s.pc == Outside && r.pc.Setting? && r.pc.n == 0 && r == s.(pc := r.pc, deadline := r.pc.t, asked := s.asked + 1)
  }

  /** One statement of set_timer. */
  predicate SetStep(s: State, r: State) {
    s.pc.Setting? &&
    var t := s.pc.t;
    match s.pc.n
    case 0 => r == s.(cmpHi := 0xffff_ffff, pc := Setting(1, t))
    case 1 => r == s.(cmpLo := Lo(t), pc := Setting(2, t))
    case 2 => r == s.(cmpHi := Hi(t), pc := Setting(3, t))
    case 3 => r == s.(stip := false, pc := Setting(4, t))
    case 4 => r == s.(mtie := true, pc := Outside)
    case _ => false
  }

  /** The machine timer interrupt is taken, and the two statements of its trap. */
  predicate Trap(s: State, r: State) { s.pc == Outside && s.mtie && Pending(s) && r == s.(pc := Trapping(0)) }

  predicate TrapStep(s: State, r: State) {
    s.pc.Trapping? &&
    match s.pc.n
    case 0 => r == s.(mtie := false, pc := Trapping(1))
    case 1 => r == s.(stip := true, pc := Outside, forwarded := s.forwarded + 1)
    case _ => false
  }

  predicate Next(s: State, r: State) { Tick(s, r) || Call(s, r) || SetStep(s, r) || Trap(s, r) || TrapStep(s, r) }

  // ---- what every run keeps ----

  /** Outside M-mode, once a timer has been set, exactly one of MTIE (waiting) and STIP
      (forwarded) is set, and the compare register holds the deadline. */
  predicate Inv(s: State) {
    match s.pc
    case Outside =>
      if s.asked == 0 then !s.mtie && !s.stip && s.forwarded == 0
      else Cmp(s) == s.deadline && s.mtie == !s.stip && (s.stip ==> s.mtime >= s.deadline)
           && s.forwarded <= s.asked - (if s.stip then 0 else 1)
    case Setting(n, t) =>
      && n <= 4 && t == s.deadline && s.asked > 0 && s.forwarded < s.asked
      && (1 <= n <= 2 ==> s.cmpHi == 0xffff_ffff) && (n >= 2 ==> s.cmpLo == Lo(t)) && (n >= 3 ==> s.cmpHi == Hi(t))
      && (n == 4 ==> !s.stip)
    case Trapping(n) =>
      && n <= 1 && s.asked > 0 && Cmp(s) == s.deadline && s.mtime >= s.deadline && !s.stip && s.mtie == (n == 0)
      && s.forwarded < s.asked
  }

  lemma InvInit(s: State)
    requires Init(s)
    ensures Inv(s)
  {
  }

  lemma InvNext(s: State, r: State)
    requires Inv(s) && Next(s, r)
    ensures Inv(r)
  {
    if s.pc.Setting? { Halves(s.pc.t); }
  }

  /** A run: any finite sequence of steps. */
  ghost predicate Run(tr: seq<State>) {
    |tr| > 0 && Init(tr[0]) && forall i | 0 <= i < |tr| - 1 :: Next(tr[i], tr[i + 1])
  }

  lemma {:induction false} RunInv(tr: seq<State>, n: nat)
    requires Run(tr) && n < |tr|
    ensures Inv(tr[n])
  {
    if n == 0 { InvInit(tr[0]); } else { RunInv(tr, n - 1); InvNext(tr[n - 1], tr[n]); }
  }

  /** The SBI forwards the timer. */
  predicate Forwards(s: State, r: State) { !s.stip && r.stip }

  /** In every run the payload sees the supervisor timer only once its latest deadline has
      passed, and MTIE and STIP are never both set outside the handler. */
  lemma NeverEarly(tr: seq<State>, n: nat)
    requires Run(tr) && n < |tr|
    ensures tr[n].pc.Outside? ==> !(tr[n].mtie && tr[n].stip)
    ensures tr[n].pc.Outside? && tr[n].stip ==> tr[n].mtime >= tr[n].deadline
    ensures n + 1 < |tr| && Forwards(tr[n], tr[n + 1]) ==> tr[n].mtime >= tr[n].deadline
    ensures tr[n].forwarded <= tr[n].asked
  {
    RunInv(tr, n);
    if n + 1 < |tr| { assert Next(tr[n], tr[n + 1]); }
  }

  /** Once set, a deadline that has passed is not lost: the trap can be taken, or the
      payload has it already. */
  lemma NeverLost(tr: seq<State>, n: nat)
    requires Run(tr) && n < |tr| && tr[n].pc.Outside? && tr[n].asked > 0 && tr[n].mtime >= tr[n].deadline
    ensures tr[n].stip != exists r :: Trap(tr[n], r)
  {
    RunInv(tr, n);
    var s := tr[n];
    if s.mtie { assert Trap(s, s.(pc := Trapping(0))); }
  }

  /** Between the first and the last of set_timer's three stores the compare register is
      never below 0xffffffff00000000, so no time before that can be past it. */
  lemma NeverInThePast(tr: seq<State>, n: nat)
    requires Run(tr) && n < |tr| && tr[n].pc.Setting? && 1 <= tr[n].pc.n <= 2
    ensures Cmp(tr[n]) >= 0xffff_ffff_0000_0000
  {
    RunInv(tr, n);
  }

  /** Until the payload asks again, a forwarded timer stays forwarded. */
  lemma {:induction false} StillSet(tr: seq<State>, i: nat, j: nat)
    requires Run(tr) && i <= j < |tr| && tr[i].pc == Outside && tr[i].stip && tr[j].asked == tr[i].asked
    ensures tr[j].pc == Outside && tr[j].stip && !tr[j].mtie
    decreases j
  {
    RunInv(tr, i);
    if i < j {
      assert Next(tr[j - 1], tr[j]);
      AskedGrows(tr, i, j - 1);
      StillSet(tr, i, j - 1);
    }
  }

  lemma {:induction false} AskedGrows(tr: seq<State>, i: nat, j: nat)
    requires Run(tr) && i <= j < |tr|
    ensures tr[i].asked <= tr[j].asked
  {
    if i < j { assert Next(tr[j - 1], tr[j]); AskedGrows(tr, i, j - 1); }
  }

  /** At most one forwarding for each set_timer: between two of them the payload has asked. */
  lemma OncePerRequest(tr: seq<State>, i: nat, j: nat)
    requires Run(tr) && i < j < |tr| - 1 && Forwards(tr[i], tr[i + 1]) && Forwards(tr[j], tr[j + 1])
    ensures tr[i].asked < tr[j].asked
  {
    assert Next(tr[i], tr[i + 1]) && Next(tr[j], tr[j + 1]);
    RunInv(tr, i);
    AskedGrows(tr, i + 1, j);
    if tr[j].asked == tr[i + 1].asked { StillSet(tr, i + 1, j); }
  }

  // ---- the code, uninterrupted ----

  /** The registers that set_timer and the timer trap write. */
  class Registers {
    const mtimecmp: array<half>
    var mtie: bool
    var stip: bool

    constructor ()
      ensures fresh(mtimecmp) && mtimecmp.Length == 2 && !mtie && !stip
    {
      mtimecmp := new half[2](_ => 0);
      mtie, stip := false, false;
    }

    /** The registers as a state whose M-mode is at pc. */
    ghost function At(s: State, pc: Pc): State
      reads this, mtimecmp
      requires mtimecmp.Length == 2
    {
      s.(cmpLo := mtimecmp[0], cmpHi := mtimecmp[1], mtie := mtie, stip := stip, pc := pc)
    }

    /** set_timer takes exactly the five steps of the state machine. */
    method SetTimer(t: u64, ghost s: State) returns (ghost tr: seq<State>)
      requires mtimecmp.Length == 2 && s == At(s, Setting(0, t))
      modifies this, mtimecmp
      ensures |tr| == 6 && tr[0] == s && tr[5] == At(s, Outside) && forall i | 0 <= i < 5 :: SetStep(tr[i], tr[i + 1])
      ensures mtimecmp[0] == Lo(t) && mtimecmp[1] == Hi(t) && mtie && !stip
    {
      tr := [s];
      mtimecmp[1] := 0xffff_ffff;
      tr := tr + [At(s, Setting(1, t))];
      mtimecmp[0] := Lo(t);
      tr := tr + [At(s, Setting(2, t))];
      mtimecmp[1] := Hi(t);
      tr := tr + [At(s, Setting(3, t))];
      stip := false;
      tr := tr + [At(s, Setting(4, t))];
      mtie := true;
      tr := tr + [At(s, Outside)];
    }

    /** The timer's half of sbi_trap takes the other two. */
    method TimerTrap(ghost s: State) returns (ghost tr: seq<State>)
      requires mtimecmp.Length == 2 && s == At(s, Trapping(0))
      modifies this
      ensures |tr| == 3 && tr[0] == s && tr[2] == At(s, Outside).(forwarded := s.forwarded + 1)
      ensures forall i | 0 <= i < 2 :: TrapStep(tr[i], tr[i + 1])
      ensures !mtie && stip
    {
      tr := [s];
      mtie := false;
      tr := tr + [At(s, Trapping(1))];
      stip := true;
      tr := tr + [At(s, Outside).(forwarded := s.forwarded + 1)];
    }
  }

  // ---- reading the clock in two halves ----

  /** rdtime: if the high half reads the same before and after, then the two halves are
      those of the clock at the moment the low half was read. */
  lemma RdtimeIsExact(before: u64, during: u64, after: u64)
    requires before <= during <= after && Hi(before) == Hi(after)
    ensures Hi(before) * TWO32 + Lo(during) == during
  {
    assert Hi(before) <= Hi(during) <= Hi(after);
    Halves(during);
  }
}
