/** Two tasks, each in its own Sv32 address space (section 4.3.2 of the RISC-V Privileged
    Architecture 1.12), on page tables that the kernel builds in zeroed RAM. */
module Sv32 {
  import opened Bytes

  const RAM_WORDS := 0x4000
  const ROOT_A: word := 0x8000
  const ROOT_B: word := 0x9000
  const L0_A: word := 0xA000
  const L0_B: word := 0xB000
  const PRIV_A: word := 0xC000
  const STK_A: word := 0xD000
  const PRIV_B: word := 0xE000
  const STK_B: word := 0xF000
  const PV: word := 1
  const PR: word := 2
  const PW: word := 4
  const PX: word := 8
  const PU: word := 16

  datatype Access = Load | Store | Fetch

  predicate Bit(pte: word, p: word)
    requires p > 0
  {
    pte / p % 2 == 1
  }

  /** A valid entry; write without read is reserved. */
  predicate Ok(pte: word) { Bit(pte, PV) && (Bit(pte, PR) || !Bit(pte, PW)) }
  predicate Leaf(pte: word) { Bit(pte, PR) || Bit(pte, PX) }
  function Ppn(pte: word): nat { pte / 0x400 }

  /** A user access that the entry allows. */
  predicate Allows(pte: word, how: Access) {
    Bit(pte, PU) && match how case Load => Bit(pte, PR) case Store => Bit(pte, PW) case Fetch => Bit(pte, PX)
  }

  datatype Result = Fault | Pa(pa: nat)

  /** A word of physical memory; outside RAM there are no page tables. */
  function At(ram: seq<word>, addr: nat): word { if addr / 4 < |ram| then ram[addr / 4] else 0 }

  /** Entry k of the table at base. */
  function Slot(ram: seq<word>, base: nat, k: nat): word { At(ram, base + 4 * k) }

  /** The translation of a user access at va, from the root table at root. */
  function Translate(ram: seq<word>, root: word, va: word, how: Access): Result {
    var p1 := Slot(ram, root, va / 0x40_0000);
    if !Ok(p1) then Fault
    else if Leaf(p1) then
      if Ppn(p1) % 0x400 != 0 || !Allows(p1, how) then Fault
      else Pa(Ppn(p1) / 0x400 * 0x40_0000 + va % 0x40_0000)
    else
      var p0 := Slot(ram, Ppn(p1) * 0x1000, va / 0x1000 % 0x400);
      if !Ok(p0) || !Leaf(p0) || !Allows(p0, how) then Fault
      else Pa(Ppn(p0) * 0x1000 + va % 0x1000)
  }

  // ---- building the tables ----

  function Pointer(l0: word): word { l0 / 0x1000 * 0x400 + PV }
  function UserPage(page: word): word { page / 0x1000 * 0x400 + (PV + PR + PW + PU) }
  const UART_PAGE: word := 0x0400_0000 + (PV + PR + PW + PU)
  const CODE_PAGE: word := PV + PX + PU

  /** What build_pt leaves at word i. */
  function Entry(i: nat, root: word, l0: word, priv: word, stk: word, fetch: bool, was: word): word {
    if i == root / 4 then Pointer(l0)
    else if i == l0 / 4 && fetch then CODE_PAGE
    else if i == root / 4 + 0x40 then UART_PAGE
    else if i == l0 / 4 + 1 then UserPage(priv)
    else if i == l0 / 4 + 2 then UserPage(stk)
    else was
  }

  /** A page of RAM. */
  predicate Page(p: word) { p % 0x1000 == 0 && p < 4 * RAM_WORDS }

  /** build_pt; fetch says whether the code page is mapped too. */
  method BuildPt(ram: array<word>, root: word, l0: word, priv: word, stk: word, fetch: bool)
    requires ram.Length == RAM_WORDS && Page(root) && Page(l0) && Page(priv) && Page(stk) && root != l0
    modifies ram
    ensures forall i | 0 <= i < RAM_WORDS :: ram[i] == Entry(i, root, l0, priv, stk, fetch, old(ram[i]))
  {
    ram[root / 4] := Pointer(l0);
    if fetch { ram[l0 / 4] := CODE_PAGE; }
    ram[root / 4 + 0x40] := UART_PAGE;
    ram[l0 / 4 + 1] := UserPage(priv);
    ram[l0 / 4 + 2] := UserPage(stk);
  }

  /** What the two calls in main leave in zeroed RAM. */
  ghost predicate Built(ram: seq<word>, fetch: bool) {
    |ram| == RAM_WORDS &&
    forall i {:trigger ram[i]} | 0 <= i < RAM_WORDS ::
      ram[i] == Entry(i, ROOT_B, L0_B, PRIV_B, STK_B, fetch, Entry(i, ROOT_A, L0_A, PRIV_A, STK_A, fetch, 0))
  }

  method BuildBoth(ram: array<word>, fetch: bool)
    requires ram.Length == RAM_WORDS && forall i | 0 <= i < RAM_WORDS :: ram[i] == 0
    modifies ram
    ensures Built(ram[..], fetch)
  {
    BuildPt(ram, ROOT_A, L0_A, PRIV_A, STK_A, fetch);
    BuildPt(ram, ROOT_B, L0_B, PRIV_B, STK_B, fetch);
  }

  // ---- what a task can reach ----

  predicate InPage(pa: int, page: word) { page as int <= pa < page as int + 0x1000 }
  predicate InUart(pa: int) { 0x1000_0000 <= pa < 0x1040_0000 }

  /** Everything a task reaches: its two pages and the UART, and the code page to execute. */
  predicate Reaches(pa: int, priv: word, stk: word, how: Access, fetch: bool) {
    if how == Fetch then fetch && InPage(pa, 0) else InPage(pa, priv) || InPage(pa, stk) || InUart(pa)
  }

  lemma EntryBits(page: word)
    requires Page(page)
    ensures Ok(Pointer(page)) && !Leaf(Pointer(page)) && Ppn(Pointer(page)) * 0x1000 == page
    ensures Ok(UserPage(page)) && Leaf(UserPage(page)) && Ppn(UserPage(page)) * 0x1000 == page
    ensures Allows(UserPage(page), Load) && Allows(UserPage(page), Store) && !Allows(UserPage(page), Fetch)
  {
    var n := page / 0x1000;
    assert page == 0x1000 * n;
  }

  lemma FixedBits()
    ensures Ok(UART_PAGE) && Leaf(UART_PAGE) && Ppn(UART_PAGE) == 0x1_0000
    ensures Allows(UART_PAGE, Load) && Allows(UART_PAGE, Store) && !Allows(UART_PAGE, Fetch)
    ensures Ok(CODE_PAGE) && Leaf(CODE_PAGE) && Ppn(CODE_PAGE) == 0
    ensures !Allows(CODE_PAGE, Load) && !Allows(CODE_PAGE, Store) && Allows(CODE_PAGE, Fetch) && !Ok(0)
  {
  }

  /** The tables of one task: where its live entries are, and zeros elsewhere. */
  ghost predicate Tables(ram: seq<word>, root: word, l0: word, priv: word, stk: word, fetch: bool) {
    && (forall k: nat {:trigger Slot(ram, root, k)} | k < 0x400 ::
          Slot(ram, root, k) == if k == 0 then Pointer(l0) else if k == 0x40 then UART_PAGE else 0)
    && (forall k: nat {:trigger Slot(ram, l0, k)} | k < 0x400 ::
          Slot(ram, l0, k) == if k == 0 then (if fetch then CODE_PAGE else 0)
                                 else if k == 1 then UserPage(priv) else if k == 2 then UserPage(stk) else 0)
  }

  lemma BuiltTables(ram: seq<word>, fetch: bool)
    requires Built(ram, fetch)
    ensures Tables(ram, ROOT_A, L0_A, PRIV_A, STK_A, fetch) && Tables(ram, ROOT_B, L0_B, PRIV_B, STK_B, fetch)
  {
    hide Pointer, UserPage;
  }

  lemma TaskReaches(ram: seq<word>, root: word, l0: word, priv: word, stk: word, fetch: bool, va: word, how: Access)
    requires Page(root) && Page(l0) && Page(priv) && Page(stk) && Tables(ram, root, l0, priv, stk, fetch)
    ensures var t := Translate(ram, root, va, how); t.Pa? ==> Reaches(t.pa, priv, stk, how, fetch)
  {
    hide Bit, Ok, Leaf, Allows, Ppn, Slot, Pointer, UserPage;
    EntryBits(l0); EntryBits(priv); EntryBits(stk);
    FixedBits();
    var k1, k0 := va / 0x40_0000, va / 0x1000 % 0x400;
    var p1, p0 := Slot(ram, root, k1), Slot(ram, l0, k0);
  }

  /** Isolation: whatever the two tasks do, their accesses meet only in the UART's page (and
      in the shared code page, which neither can write), and neither reaches a page table. */
  lemma Isolation(ram: seq<word>, fetch: bool, va: word, vb: word, how: Access, other: Access)
    requires Built(ram, fetch)
    ensures var a, b := Translate(ram, ROOT_A, va, how), Translate(ram, ROOT_B, vb, other);
            && (a.Pa? && b.Pa? && a.pa == b.pa ==> InUart(a.pa) || (how == other == Fetch && InPage(a.pa, 0)))
            && (a.Pa? ==> !(ROOT_A <= a.pa < PRIV_A)) && (b.Pa? ==> !(ROOT_A <= b.pa < PRIV_A))
  {
    hide Translate, Tables;
    BuiltTables(ram, fetch);
    TaskReaches(ram, ROOT_A, L0_A, PRIV_A, STK_A, fetch, va, how);
    TaskReaches(ram, ROOT_B, L0_B, PRIV_B, STK_B, fetch, vb, other);
  }

  /** Both tasks do have their data page and their stack page, at the same virtual addresses. */
  lemma OwnPages(ram: seq<word>, fetch: bool, va: word)
    requires Built(ram, fetch) && 0x1000 <= va < 0x3000
    ensures Translate(ram, ROOT_A, va, Store) == Pa(PRIV_A + va - 0x1000)
    ensures Translate(ram, ROOT_B, va, Store) == Pa(PRIV_B + va - 0x1000)
  {
    hide Tables;
    BuiltTables(ram, fetch);
    OwnPage(ram, ROOT_A, L0_A, PRIV_A, STK_A, fetch, va);
    OwnPage(ram, ROOT_B, L0_B, PRIV_B, STK_B, fetch, va);
  }

  lemma OwnPage(ram: seq<word>, root: word, l0: word, priv: word, stk: word, fetch: bool, va: word)
    requires Page(root) && Page(l0) && Page(priv) && Page(stk) && stk == priv + 0x1000 && Tables(ram, root, l0, priv, stk, fetch)
    requires 0x1000 <= va < 0x3000
    ensures Translate(ram, root, va, Store) == Pa(priv + va - 0x1000)
  {
    hide Bit, Ok, Leaf, Allows, Ppn, Slot, Pointer, UserPage;
    EntryBits(l0); EntryBits(priv); EntryBits(stk);
    var k0 := va / 0x1000;
    assert va / 0x40_0000 == 0 && k0 % 0x400 == k0;
    var p1, p0 := Slot(ram, root, 0), Slot(ram, l0, k0);
  }

  // ---- whole runs ----

  /** A word stored by task A or task B; a fault stores nothing. */
  datatype Op = Op(byA: bool, va: word, val: word)

  function Step(ram: seq<word>, op: Op): (r: seq<word>)
    ensures |r| == |ram|
  {
    match Translate(ram, if op.byA then ROOT_A else ROOT_B, op.va, Store)
    case Fault => ram
    case Pa(pa) => if pa / 4 < |ram| then ram[pa / 4 := op.val] else ram
  }

  function Exec(ram: seq<word>, ops: seq<Op>): (r: seq<word>)
    ensures |r| == |ram|
    decreases |ops|
  {
    if ops == [] then ram else Exec(Step(ram, ops[0]), ops[1..])
  }

  ghost predicate BothTables(ram: seq<word>, fetch: bool) {
    && |ram| == RAM_WORDS
    && Tables(ram, ROOT_A, L0_A, PRIV_A, STK_A, fetch) && Tables(ram, ROOT_B, L0_B, PRIV_B, STK_B, fetch)
  }

  /** The two pages of a task. */
  function Own(ram: seq<word>, a: bool): seq<word>
    requires |ram| == RAM_WORDS
  {
    if a then ram[PRIV_A / 4..PRIV_B / 4] else ram[PRIV_B / 4..RAM_WORDS]
  }

  /** A store at word i of a task's own pages leaves tables and the other task alone. */
  lemma StoreElsewhere(ram: seq<word>, i: nat, val: word, fetch: bool, a: bool)
    requires BothTables(ram, fetch) && (if a then PRIV_A / 4 <= i < PRIV_B / 4 else PRIV_B / 4 <= i < RAM_WORDS)
    ensures BothTables(ram[i := val], fetch) && Own(ram[i := val], !a) == Own(ram, !a)
  {
    hide Pointer, UserPage;
    var r := ram[i := val];
    forall b: nat, k: nat {:trigger Slot(r, b, k)} | b + 4 * k < PRIV_A ensures Slot(r, b, k) == Slot(ram, b, k) { }
  }

  lemma StepKeeps(ram: seq<word>, op: Op, fetch: bool)
    requires BothTables(ram, fetch)
    ensures BothTables(Step(ram, op), fetch) && Own(Step(ram, op), !op.byA) == Own(ram, !op.byA)
  {
    hide Tables, Translate;
    if op.byA { TaskReaches(ram, ROOT_A, L0_A, PRIV_A, STK_A, fetch, op.va, Store); }
    else { TaskReaches(ram, ROOT_B, L0_B, PRIV_B, STK_B, fetch, op.va, Store); }
    var t := Translate(ram, if op.byA then ROOT_A else ROOT_B, op.va, Store);
    if t.Pa? && t.pa / 4 < |ram| { StoreElsewhere(ram, t.pa / 4, op.val, fetch, op.byA); }
  }

  /** The tables decide every translation. */
  lemma SameTranslation(r1: seq<word>, r2: seq<word>, fetch: bool, a: bool, va: word)
    requires BothTables(r1, fetch) && BothTables(r2, fetch)
    ensures var root := if a then ROOT_A else ROOT_B; Translate(r1, root, va, Store) == Translate(r2, root, va, Store)
  {
    hide Bit, Ok, Leaf, Allows, Ppn, Slot, Pointer, UserPage;
    var root, l0 := if a then ROOT_A else ROOT_B, if a then L0_A else L0_B;
    EntryBits(L0_A); EntryBits(L0_B);
    FixedBits();
    var k1, k0 := va / 0x40_0000, va / 0x1000 % 0x400;
    assert Slot(r1, root, k1) == Slot(r2, root, k1) && Slot(r1, l0, k0) == Slot(r2, l0, k0);
  }

  lemma StepAgrees(r1: seq<word>, r2: seq<word>, op: Op, fetch: bool)
    requires BothTables(r1, fetch) && BothTables(r2, fetch) && Own(r1, op.byA) == Own(r2, op.byA)
    ensures Own(Step(r1, op), op.byA) == Own(Step(r2, op), op.byA)
  {
    hide Tables, Translate;
    SameTranslation(r1, r2, fetch, op.byA, op.va);
    if op.byA { TaskReaches(r1, ROOT_A, L0_A, PRIV_A, STK_A, fetch, op.va, Store); }
    else { TaskReaches(r1, ROOT_B, L0_B, PRIV_B, STK_B, fetch, op.va, Store); }
    var t := Translate(r1, if op.byA then ROOT_A else ROOT_B, op.va, Store);
    if t.Pa? && t.pa / 4 < RAM_WORDS { OwnUpdated(r1, r2, t.pa / 4, op.val, op.byA); }
  }

  lemma OwnUpdated(r1: seq<word>, r2: seq<word>, i: nat, val: word, a: bool)
    requires |r1| == |r2| == RAM_WORDS && Own(r1, a) == Own(r2, a) && i < RAM_WORDS
    ensures Own(r1[i := val], a) == Own(r2[i := val], a)
  {
    var lo, hi := if a then PRIV_A / 4 else PRIV_B / 4, if a then PRIV_B / 4 else RAM_WORDS;
    forall k | lo <= k < hi ensures r1[k] == r2[k] { assert r1[lo..hi][k - lo] == r2[lo..hi][k - lo]; }
  }

  function Only(ops: seq<Op>, a: bool): seq<Op> {
    if ops == [] then [] else (if ops[0].byA == a then [ops[0]] else []) + Only(ops[1..], a)
  }

  lemma {:induction false} RunsAgree(r1: seq<word>, r2: seq<word>, ops: seq<Op>, a: bool, fetch: bool)
    requires BothTables(r1, fetch) && BothTables(r2, fetch) && Own(r1, a) == Own(r2, a)
    ensures BothTables(Exec(r1, ops), fetch) && Own(Exec(r1, ops), a) == Own(Exec(r2, Only(ops, a)), a)
    decreases |ops|
  {
    hide BothTables, Own, Step;
    if ops != [] {
      var op := ops[0];
      StepKeeps(r1, op, fetch);
      if op.byA == a {
        StepKeeps(r2, op, fetch);
        StepAgrees(r1, r2, op, fetch);
        RunsAgree(Step(r1, op), Step(r2, op), ops[1..], a, fetch);
        assert Only(ops, a) == [op] + Only(ops[1..], a);
        assert ([op] + Only(ops[1..], a))[1..] == Only(ops[1..], a);
      } else {
        RunsAgree(Step(r1, op), r2, ops[1..], a, fetch);
        assert Only(ops, a) == Only(ops[1..], a);
      }
    }
  }

  /** Over every run, what a task finds in its two pages depends on its own stores only, and
      the tables stay as they were built. */
  lemma NonInterference(ram: seq<word>, ops: seq<Op>, a: bool, fetch: bool)
    requires Built(ram, fetch)
    ensures BothTables(Exec(ram, ops), fetch) && Own(Exec(ram, ops), a) == Own(Exec(ram, Only(ops, a)), a)
  {
    hide Own, Tables;
    BuiltTables(ram, fetch);
    RunsAgree(ram, ram, ops, a, fetch);
  }
}
