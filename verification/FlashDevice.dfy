/** The executable specification of the QSPI controller and of the SPI NOR flash behind
    it: strict about write enable, about commands while busy, about FIFO depth and
    about the controller's set-up.  `faults` counts what it objects to. */
module FlashDevice {
  import opened Bytes

  const FLASH_BYTES := 0x100_0000
  const BLOCK := 0x1_0000

  const F_WREN: byte := 0x06
  const F_RDSR: byte := 0x05
  const F_RDID: byte := 0x9f
  const F_PP: byte := 0x02
  const F_BE64: byte := 0xd8

  // ---- bits of a register ----

  /** Whether the bit with value p (a power of two) is set. */
  function Bit(v: word, p: word): bool
    requires p > 0
  {
    v / p % 2 == 1
  }

  function Clear(v: word, p: word): word
    requires p > 0
  {
    if Bit(v, p) && p <= v then v - p else v
  }

  function Set(v: word, p: word): word
    requires p > 0
  {
    if Bit(v, p) || v as int + p as int >= WORD then v else v + p
  }

  const CR_IFMODE: word := 0x8000_0000
  const CR_MANSTRT: word := 0x1_0000
  const CR_MANCS: word := 0x4000
  const CR_PCS: word := 0x400

  // ---- the flash ----

  /** Bitwise and of two bytes. */
  function And(x: int, y: int): (z: int)
    requires 0 <= x && 0 <= y
    ensures 0 <= z <= x && z <= y
    decreases x
  {
    if x == 0 || y == 0 then 0 else 2 * And(x / 2, y / 2) + if x % 2 == 1 && y % 2 == 1 then 1 else 0
  }

  /** struct f: the write-enable latch, how many status reads it stays busy for, and the
      command being received. */
  datatype Chip = Chip(wel: bool, busy: nat, protect: bool, selected: bool, n: nat, cmd: byte, addr: nat,
                       ppCount: nat, page: seq<byte>, erases: nat, programs: nat)

  ghost predicate ChipOk(f: Chip) { |f.page| == 256 && f.addr < FLASH_BYTES }

  function Select(f: Chip): Chip { f.(selected := true, n := 0, ppCount := 0) }

  predicate Known(b: byte) { b == F_RDSR || b == F_WREN || b == F_RDID || b == F_PP || b == F_BE64 }

  function Status(f: Chip): byte { (if f.busy > 0 then 1 else 0) + if f.wel then 2 else 0 }

  /** flash_byte: the next state, the byte sent back, and the objections. */
  function FlashByte(f: Chip, b: byte): (r: (Chip, byte, nat))
    requires ChipOk(f)
    ensures ChipOk(r.0)
  {
    var g := f.(n := f.n + 1);
    if f.n == 0 then
      (g.(cmd := b, busy := if b == F_RDSR && f.busy > 0 then f.busy - 1 else f.busy), 0xff,
       (if f.busy > 0 && b != F_RDSR then 1 else 0) + if Known(b) then 0 else 1)
    else if f.cmd == F_RDSR then (g, Status(f), 0)
    else if f.cmd == F_RDID then (g, if f.n == 1 then 0xef else if f.n == 2 then 0x40 else if f.n == 3 then 0x18 else 0xff, 0)
    else if f.cmd == F_PP || f.cmd == F_BE64 then
      if f.n <= 3 then (g.(addr := if f.n == 1 then b else (f.addr * 0x100 + b) % FLASH_BYTES), 0xff, 0)
      else if f.cmd == F_PP then
        (g.(page := f.page[(f.addr + f.ppCount) % 0x100 := b], ppCount := f.ppCount + 1), 0xff, 0)
      else (g, 0xff, 1)
    else (g, 0xff, 0)
  }

  /** The contents after a block erase. */
  function Erased(mem: seq<byte>, base: nat): seq<byte>
    requires base + BLOCK <= |mem|
  {
    mem[..base] + Ones(BLOCK) + mem[base + BLOCK..]
  }

  /** The contents after a page program: bits are only cleared, and the address wraps
      inside its 256-byte page. */
  function Programmed(mem: seq<byte>, addr: nat, page: seq<byte>, count: nat): (m: seq<byte>)
    requires |page| == 256 && addr < |mem| && |mem| % 0x100 == 0 && count <= 256
    ensures |m| == |mem|
  {
    if count == 0 then mem else
    var m := Programmed(mem, addr, page, count - 1);
    var a := addr / 0x100 * 0x100 + (addr + count - 1) % 0x100;
    m[a := And(m[a], page[(addr + count - 1) % 0x100])]
  }

  /** flash_deselect: the chip, and the objections; the contents change as told. */
  function Deselect(f: Chip): (Chip, nat) {
    var g := f.(selected := false);
    if f.n == 0 then (g, 0)
    else if f.cmd == F_WREN then (if f.protect then g else g.(wel := true), 0)
    else if f.cmd == F_PP || f.cmd == F_BE64 then
      if f.n < 4 || !f.wel then (g, 1)
      else if f.cmd == F_BE64 then
        (g.(wel := false, busy := 7, erases := f.erases + 1), if f.addr % BLOCK != 0 then 1 else 0)
      else (g.(wel := false, busy := 2, programs := f.programs + 1), if f.ppCount > 256 then 1 else 0)
    else (g, 0)
  }

  function DeselectMem(f: Chip, mem: seq<byte>): seq<byte>
    requires ChipOk(f) && |mem| == FLASH_BYTES
  {
    if f.n < 4 || !f.wel then mem
    else if f.cmd == F_BE64 then Erased(mem, f.addr / BLOCK * BLOCK)
    else if f.cmd == F_PP then Programmed(mem, f.addr, f.page, if f.ppCount < 256 then f.ppCount else 256)
    else mem
  }

  // ---- the controller ----

  const QSPI: word := 0xe000_d000
  const Q_CR: word := 0xe000_d000
  const Q_ISR: word := 0xe000_d004
  const Q_IDR: word := 0xe000_d00c
  const Q_ER: word := 0xe000_d014
  const Q_TXD0: word := 0xe000_d01c
  const Q_RXD: word := 0xe000_d020
  const Q_TXD1: word := 0xe000_d080
  const Q_LQSPI_CFG: word := 0xe000_d0a0

  const ISR_RXNEMPTY: word := 0x10

  /** A queued word and how many of its bytes are sent. */
  datatype Queued = Queued(w: word, bytes: nat)

  /** The bytes that a queued word sends, least significant first. */
  function Sent(q: Queued): (s: seq<byte>)
    requires q.bytes <= 4
    ensures |s| == q.bytes
  {
    LeBytes(q.w)[..q.bytes]
  }

  /** Sending bytes to the selected flash. */
  function Feed(f: Chip, s: seq<byte>): (g: Chip)
    requires ChipOk(f)
    ensures ChipOk(g)
  {
    if s == [] then f else FlashByte(Feed(f, s[..|s| - 1]), s[|s| - 1]).0
  }

  function Objections(f: Chip, s: seq<byte>): nat
    requires ChipOk(f)
  {
    if s == [] then 0 else Objections(f, s[..|s| - 1]) + FlashByte(Feed(f, s[..|s| - 1]), s[|s| - 1]).2
  }

  /** The byte that comes back while byte k is sent. */
  function Reply(f: Chip, s: seq<byte>, k: nat): byte
    requires ChipOk(f) && k < |s|
  {
    FlashByte(Feed(f, s[..k]), s[k]).1
  }

  function SentAll(qs: seq<Queued>): (s: seq<byte>)
    requires QueueOk(qs)
  {
    if qs == [] then [] else SentAll(qs[..|qs| - 1]) + Sent(qs[|qs| - 1])
  }

  predicate QueueOk(qs: seq<Queued>) { forall i | 0 <= i < |qs| :: qs[i].bytes <= 4 }

  function Pow256(k: nat): (p: int)
    requires k <= 4
    ensures p > 0
  {
    if k == 0 then 1 else if k == 1 then 0x100 else if k == 2 then 0x1_0000 else if k == 3 then 0x100_0000 else WORD
  }

  /** The value of the first k replies to s, least significant first. */
  function Replies(f: Chip, s: seq<byte>, k: nat): (v: int)
    requires ChipOk(f) && k <= |s| <= 4
    ensures 0 <= v < Pow256(k)
  {
    if k == 0 then 0 else Replies(f, s, k - 1) + Reply(f, s, k - 1) * Pow256(k - 1)
  }

  /** The word received while a queued word is sent; short transfers land high. */
  function Received(f: Chip, q: Queued): (w: word)
    requires ChipOk(f) && q.bytes <= 4
  {
    ReceivedFits(f, q);
    Replies(f, Sent(q), q.bytes) * Pow256(4 - q.bytes)
  }

  lemma ReceivedFits(f: Chip, q: Queued)
    requires ChipOk(f) && q.bytes <= 4
    ensures 0 <= Replies(f, Sent(q), q.bytes) * Pow256(4 - q.bytes) < WORD
  {
    hide Replies, Sent;
    var r := Replies(f, Sent(q), q.bytes);
    assert q.bytes == 0 || q.bytes == 1 || q.bytes == 2 || q.bytes == 3 || q.bytes == 4;
  }

  /** The words received while a queue is sent. */
  function ReceivedAll(f: Chip, qs: seq<Queued>): (ws: seq<word>)
    requires ChipOk(f) && QueueOk(qs)
    ensures |ws| == |qs|
  {
    if qs == [] then [] else
    ReceivedAll(f, qs[..|qs| - 1]) + [Received(Feed(f, SentAll(qs[..|qs| - 1])), qs[|qs| - 1])]
  }

  lemma {:induction false} FeedConcat(f: Chip, a: seq<byte>, b: seq<byte>)
    requires ChipOk(f)
    ensures Feed(f, a + b) == Feed(Feed(f, a), b)
    ensures Objections(f, a + b) == Objections(f, a) + Objections(Feed(f, a), b)
  {
    hide FlashByte, ChipOk;
    if b == [] { assert a + b == a; }
    else {
      FeedConcat(f, a, b[..|b| - 1]);
      assert (a + b)[..|a + b| - 1] == a + b[..|b| - 1];
    }
  }

  predicate SelectsChip(v: word) { Bit(v, CR_MANCS) && !Bit(v, CR_PCS) }

  /** What the controller objects to in a value written to CR. */
  function CrFaults(v: word, cr: word, er: bool): nat {
    (if !Bit(v, CR_IFMODE) || v / 0x40 % 4 != 3 then 1 else 0) +
    if er && Clear(Clear(v, CR_PCS), CR_MANSTRT) != Clear(Clear(cr, CR_PCS), CR_MANSTRT) then 1 else 0
  }

  /** What it objects to in starting a transfer. */
  function StartFaults(cr: word, er: bool, lq: word): nat {
    (if er then 0 else 1) + (if lq >= 0x8000_0000 then 1 else 0) + if SelectsChip(cr) then 0 else 1
  }

  function RxFaults(waiting: nat, more: nat): nat { if waiting <= 63 < waiting + more then 1 else 0 }

  /** A write of v to CR: chip select first, then the transfer, then deselection. */
  function Chosen(f: Chip, v: word): (g: Chip)
    ensures ChipOk(f) ==> ChipOk(g)
  {
    if SelectsChip(v) && !f.selected then Select(f) else f
  }

  function Moved(f: Chip, v: word, qs: seq<Queued>): (g: Chip)
    requires ChipOk(f) && QueueOk(qs)
    ensures ChipOk(g)
  {
    if Bit(v, CR_MANSTRT) then Feed(Chosen(f, v), SentAll(qs)) else Chosen(f, v)
  }

  function CrChip(f: Chip, v: word, qs: seq<Queued>): Chip
    requires ChipOk(f) && QueueOk(qs)
  {
    if !SelectsChip(v) && f.selected then Deselect(Moved(f, v, qs)).0 else Moved(f, v, qs)
  }

  function CrMem(f: Chip, v: word, qs: seq<Queued>, mem: seq<byte>): seq<byte>
    requires ChipOk(f) && QueueOk(qs) && |mem| == FLASH_BYTES
  {
    if !SelectsChip(v) && f.selected then DeselectMem(Moved(f, v, qs), mem) else mem
  }

  function CrTransferFaults(f: Chip, v: word, qs: seq<Queued>, waiting: nat, er: bool, lq: word): nat
    requires ChipOk(f) && QueueOk(qs)
  {
    (if Bit(v, CR_MANSTRT) then
       StartFaults(Clear(v, CR_MANSTRT), er, lq) + Objections(Chosen(f, v), SentAll(qs)) + RxFaults(waiting, |qs|)
     else 0)
    + if !SelectsChip(v) && f.selected then Deselect(Moved(f, v, qs)).1 else 0
  }

  function WriteFaults(a: word, v: word, f: Chip, cr: word, er: bool, lq: word, qs: seq<Queued>, waiting: nat): nat
    requires ChipOk(f) && QueueOk(qs)
  {
    if a == Q_CR then CrFaults(v, cr, er) + CrTransferFaults(f, v, qs, waiting, er, lq)
    else if a == Q_IDR || a == Q_ER then 0
    else if a == Q_TXD0 || a == Q_TXD1 then if |qs| == 63 then 1 else 0
    else if a == Q_LQSPI_CFG then if er then 1 else 0
    else 1
  }

  class Device {
    const flash: array<byte>
    var f: Chip
    var cr: word
    var er: bool
    var lq: word
    var isrDis: word
    var txq: seq<Queued>
    var rxq: seq<word>
    var faults: nat

    ghost predicate Valid()
      reads this
    {
      flash.Length == FLASH_BYTES && ChipOk(f) && QueueOk(txq)
    }

    /** How the model starts: the controller after its own reset, the flash idle. */
    constructor (contents: array<byte>, protect: bool)
      requires contents.Length == FLASH_BYTES
      ensures Valid() && flash == contents && f.protect == protect && !f.wel && faults == 0
      ensures !f.selected && f.busy == 0 && txq == [] && rxq == []
    {
      flash := contents;
      f := Chip(false, 0, protect, false, 0, 0, 0, 0, Zeros(256), 0, 0);
      cr, er, lq, isrDis := 0x2_0000, false, 0x3a0_0000, 0;
      txq, rxq, faults := [], [], 0;
    }

    /** memset of a block to 0xff */
    method EraseBlock(base: nat)
      requires flash.Length == FLASH_BYTES && base + BLOCK <= FLASH_BYTES
      modifies flash
      ensures flash[..] == Erased(old(flash[..]), base)
    {
      var i := 0;
      while i < BLOCK
        invariant 0 <= i <= BLOCK
        invariant forall k | 0 <= k < flash.Length ::
          flash[k] == if base <= k < base + i then 0xff else old(flash[k])
      {
        flash[base + i] := 0xff;
        i := i + 1;
      }
    }

    method ProgramPage(addr: nat, page: seq<byte>, count: nat)
      requires flash.Length == FLASH_BYTES && addr < FLASH_BYTES && |page| == 256
      modifies flash
      ensures flash[..] == Programmed(old(flash[..]), addr, page, if count < 256 then count else 256)
    {
      var base := addr / 0x100 * 0x100;
      var k := 0;
      while k < count && k < 256
        invariant 0 <= k <= 256 && k <= count
        invariant flash[..] == Programmed(old(flash[..]), addr, page, k)
      {
        var a := base + (addr + k) % 0x100;
        flash[a] := And(flash[a], page[(addr + k) % 0x100]);
        k := k + 1;
      }
    }

    /** One queued word of shift_out: its bytes go out and as many come back. */
    method ShiftWord(q: Queued)
      requires ChipOk(f) && q.bytes <= 4
      modifies this`f, this`rxq, this`faults
      ensures ChipOk(f) && f == Feed(old(f), Sent(q))
      ensures rxq == old(rxq) + [Received(old(f), q)]
      ensures faults == old(faults) + Objections(old(f), Sent(q)) + RxFaults(|old(rxq)|, 1)
    {
      hide FlashByte, ChipOk;
      var s := Sent(q);
      var r, b := 0, 0;
      while b < q.bytes
        invariant 0 <= b <= q.bytes && ChipOk(f) && rxq == old(rxq)
        invariant f == Feed(old(f), s[..b]) && r == Replies(old(f), s, b)
        invariant faults == old(faults) + Objections(old(f), s[..b])
      {
        assert s[..b + 1][..b] == s[..b];
        var (g, reply, objections) := FlashByte(f, s[b]);
        f, faults := g, faults + objections;
        r := r + reply * Pow256(b);
        b := b + 1;
      }
      assert s[..b] == s;
      ReceivedFits(old(f), q);
      var w := r * Pow256(4 - q.bytes);
      assert w == Received(old(f), q);
      if |rxq| == 63 { faults := faults + 1; }
      rxq := rxq + [w];
    }

    method ShiftOut()
      requires Valid()
      modifies this`f, this`rxq, this`txq, this`faults
      ensures Valid() && txq == []
      ensures f == Feed(old(f), SentAll(old(txq))) && rxq == old(rxq) + ReceivedAll(old(f), old(txq))
      ensures faults == old(faults) + StartFaults(cr, er, lq) + Objections(old(f), SentAll(old(txq)))
                        + RxFaults(|old(rxq)|, |old(txq)|)
    {
      hide FlashByte, ChipOk, Received, Sent;
      faults := faults + StartFaults(cr, er, lq);
      ghost var base := faults;
      var k := 0;
      while k < |txq|
        invariant 0 <= k <= |txq| && ChipOk(f) && txq == old(txq)
        invariant f == Feed(old(f), SentAll(txq[..k])) && rxq == old(rxq) + ReceivedAll(old(f), txq[..k])
        invariant faults == base + Objections(old(f), SentAll(txq[..k])) + RxFaults(|old(rxq)|, k)
      {
        assert txq[..k + 1][..k] == txq[..k];
        FeedConcat(old(f), SentAll(txq[..k]), Sent(txq[k]));
        ShiftWord(txq[k]);
        k := k + 1;
      }
      assert txq[..k] == txq;
      txq := [];
    }

    /** flash_deselect: the command takes effect when chip select rises. */
    method DeselectFlash()
      requires Valid()
      modifies this`f, this`faults, flash
      ensures Valid() && f == Deselect(old(f)).0 && faults == old(faults) + Deselect(old(f)).1
      ensures flash[..] == DeselectMem(old(f), old(flash[..]))
    {
      hide Erased, Programmed;
      var (g, objections) := Deselect(f);
      if f.n >= 4 && f.wel {
        if f.cmd == F_BE64 { EraseBlock(f.addr / BLOCK * BLOCK); }
        else if f.cmd == F_PP { ProgramPage(f.addr, f.page, f.ppCount); }
      }
      f, faults := g, faults + objections;
    }

    method WriteCr(v: word)
      requires Valid()
      modifies this`f, this`cr, this`txq, this`rxq, this`faults, flash
      ensures Valid() && cr == Clear(v, CR_MANSTRT)
      ensures f == CrChip(old(f), v, old(txq)) && flash[..] == CrMem(old(f), v, old(txq), old(flash[..]))
      ensures Bit(v, CR_MANSTRT) ==> txq == [] && rxq == old(rxq) + ReceivedAll(Chosen(old(f), v), old(txq))
      ensures !Bit(v, CR_MANSTRT) ==> txq == old(txq) && rxq == old(rxq)
      ensures faults == old(faults) + CrFaults(v, old(cr), er) + CrTransferFaults(old(f), v, old(txq), |old(rxq)|, er, lq)
    {
      hide Feed, Deselect, DeselectMem, ReceivedAll, Objections, Clear, CrFaults, ChipOk, SentAll;
      var was, now := f.selected, SelectsChip(v);
      faults := faults + CrFaults(v, cr, er);
      cr := Clear(v, CR_MANSTRT);
      if now && !was { f := Select(f); }
      assert f == Chosen(old(f), v);
      if Bit(v, CR_MANSTRT) { ShiftOut(); }
      assert f == Moved(old(f), v, old(txq));
      if !now && was { DeselectFlash(); }
    }

    /** hw_wr: every register but CR changes one field. */
    method HwWr(a: word, v: word)
      requires Valid()
      modifies this, flash
      ensures Valid()
      ensures a == Q_CR ==> cr == Clear(v, CR_MANSTRT) && f == CrChip(old(f), v, old(txq))
      ensures a == Q_CR ==> flash[..] == CrMem(old(f), v, old(txq), old(flash[..]))
      ensures a == Q_CR && Bit(v, CR_MANSTRT) ==> txq == [] && rxq == old(rxq) + ReceivedAll(Chosen(old(f), v), old(txq))
      ensures a == Q_CR && !Bit(v, CR_MANSTRT) ==> txq == old(txq) && rxq == old(rxq)
      ensures a != Q_CR ==> cr == old(cr) && f == old(f) && rxq == old(rxq) && flash[..] == old(flash[..])
      ensures a == Q_TXD0 && |old(txq)| != 63 ==> txq == old(txq) + [Queued(v, 4)]
      ensures a == Q_TXD1 && |old(txq)| != 63 ==> txq == old(txq) + [Queued(v, 1)]
      ensures a != Q_CR && a != Q_TXD0 && a != Q_TXD1 ==> txq == old(txq)
      ensures (a == Q_TXD0 || a == Q_TXD1) && |old(txq)| == 63 ==> txq == old(txq)
      ensures er == if a == Q_ER then v % 2 == 1 else old(er)
      ensures lq == if a == Q_LQSPI_CFG then v else old(lq)
      ensures isrDis == if a == Q_IDR then v else old(isrDis)
      ensures faults == old(faults) + WriteFaults(a, v, old(f), old(cr), old(er), old(lq), old(txq), |old(rxq)|)
    {
      hide Feed, Deselect, DeselectMem, ReceivedAll, Objections, Clear, CrFaults, ChipOk, SentAll, CrMem, CrChip, Bit;
      if a == Q_CR { WriteCr(v); }
      else if a == Q_IDR { isrDis := v; }
      else if a == Q_ER { er := v % 2 == 1; }
      else if a == Q_TXD0 || a == Q_TXD1 {
        if |txq| == 63 { faults := faults + 1; }
        else { txq := txq + [Queued(v, if a == Q_TXD0 then 4 else 1)]; }
      } else if a == Q_LQSPI_CFG {
        if er { faults := faults + 1; }
        lq := v;
      } else { faults := faults + 1; }
    }

    /** hw_rd: only RXD has a side effect. */
    method HwRd(a: word) returns (v: word)
      requires Valid()
      modifies this`rxq, this`faults
      ensures Valid()
      ensures a == Q_CR ==> v == cr
      ensures a == Q_ISR ==> v == if |rxq| > 0 then ISR_RXNEMPTY else 0
      ensures a == Q_ER ==> v == if er then 1 else 0
      ensures a == Q_LQSPI_CFG ==> v == lq
      ensures if a == Q_RXD && |old(rxq)| > 0 then v == old(rxq)[0] && rxq == old(rxq)[1..] else rxq == old(rxq)
      ensures faults == old(faults) + if a == Q_CR || a == Q_ISR || a == Q_ER || a == Q_LQSPI_CFG
                                         || (a == Q_RXD && |old(rxq)| > 0)
                                      then 0 else 1
    {
      hide ChipOk;
      if a == Q_CR { v := cr; }
      else if a == Q_ISR { v := if |rxq| > 0 then ISR_RXNEMPTY else 0; }
      else if a == Q_ER { v := if er then 1 else 0; }
      else if a == Q_RXD && |rxq| > 0 { v, rxq := rxq[0], rxq[1..]; }
      else if a == Q_LQSPI_CFG { v := lq; }
      else { v, faults := 0, faults + 1; }
    }

    predicate Linear()
      reads this
    {
      er && lq >= 0x8000_0000 && !Bit(cr, CR_MANCS) && lq % 0x100 == 0x0b
    }

    /** host_flash_map */
    method FlashMap() returns (m: array<byte>)
      modifies this`faults
      ensures m == flash && faults == old(faults) + if Linear() then 0 else 1
    {
      if !Linear() { faults := faults + 1; }
      m := flash;
    }
  }
}
