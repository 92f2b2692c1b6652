/** The QSPI driver: linear mode for reading, one command at a time for writing. */
module QspiDriver {
  import opened Bytes
  import opened FlashDevice
  import opened FlashCommands

  // CR_BASE, and CR_BASE | CR_MANSTRTEN | CR_MANCS | CR_PCS
  const CR_LINEAR: word := 0x8008_00d1
  const CR_IO: word := 0x8008_c4d1
  const CR_SELECT: word := 0x8008_c0d1
  const CR_START: word := 0x8009_c0d1
  const LQ_LINEAR: word := 0x8000_010b
  const CHUNK := 128
  const SPINS := 10_000_000
  const POLLS := 50_000_000

  /** The values the driver computes from CR by masking, and what the controller makes
      of each. */
  lemma CrValues()
    ensures Clear(CR_IO, CR_MANSTRT) == CR_IO && Clear(CR_IO, CR_PCS) == CR_SELECT
    ensures Set(CR_SELECT, CR_MANSTRT) == CR_START && Set(CR_IO, CR_PCS) == CR_IO
    ensures Clear(CR_START, CR_MANSTRT) == CR_SELECT == Clear(CR_SELECT, CR_MANSTRT)
    ensures Clear(CR_LINEAR, CR_MANSTRT) == CR_LINEAR && !Bit(CR_LINEAR, CR_MANCS)
    ensures SelectsChip(CR_SELECT) && SelectsChip(CR_START) && !SelectsChip(CR_IO) && !SelectsChip(CR_LINEAR)
    ensures Bit(CR_START, CR_MANSTRT) && !Bit(CR_SELECT, CR_MANSTRT) && !Bit(CR_IO, CR_MANSTRT) && !Bit(CR_LINEAR, CR_MANSTRT)
  {
  }

  lemma CrAccepted(er: bool)
    ensures CrFaults(CR_SELECT, CR_IO, er) == CrFaults(CR_START, CR_SELECT, er) == CrFaults(CR_IO, CR_SELECT, er) == 0
    ensures forall cr :: CrFaults(CR_IO, cr, false) == CrFaults(CR_LINEAR, cr, false) == 0
    ensures StartFaults(CR_SELECT, true, 0) == 0
  {
  }

  /** The words of data as cmd queues them. */
  function Words(data: seq<byte>, n: nat): (qs: seq<Queued>)
    requires 4 * n <= |data|
    ensures |qs| == n && QueueOk(qs)
  {
    if n == 0 then [] else Words(data, n - 1) + [Queued(Le32(data, 4 * (n - 1)), 4)]
  }

  function Command(w0: word, oneByte: bool, data: seq<byte>, n: nat): (qs: seq<Queued>)
    requires 4 * n <= |data|
    ensures |qs| == n + 1 && QueueOk(qs)
  {
    [Queued(w0, if oneByte then 1 else 4)] + Words(data, n)
  }

  lemma {:induction false} CommandBytes(w0: word, oneByte: bool, data: seq<byte>, n: nat)
    requires 4 * n <= |data|
    ensures SentAll(Command(w0, oneByte, data, n)) == Sent(Queued(w0, if oneByte then 1 else 4)) + data[..4 * n]
  {
    hide Sent;
    var qs := Command(w0, oneByte, data, n);
    if n == 0 {
      assert qs[..0] == [] && data[..0] == [];
    } else {
      CommandBytes(w0, oneByte, data, n - 1);
      assert qs[..n] == Command(w0, oneByte, data, n - 1);
      assert qs[n] == Queued(Le32(data, 4 * (n - 1)), 4);
      WordBytes(data, 4 * (n - 1));
      assert data[..4 * (n - 1)] + data[4 * (n - 1)..4 * n] == data[..4 * n];
    }
  }

  lemma WordBytes(data: seq<byte>, o: nat)
    requires o + 4 <= |data|
    ensures Sent(Queued(Le32(data, o), 4)) == data[o..o + 4]
  {
    hide Le32;
    BytesOfWord(data, o);
    assert LeBytes(Le32(data, o))[..4] == LeBytes(Le32(data, o));
  }

  class Driver {
    const dev: Device
    var timedOut: bool

    constructor (d: Device)
      ensures dev == d && !timedOut
    {
      dev, timedOut := d, false;
    }

    /** I/O mode with nothing under way: how every command finds and leaves it. */
    ghost predicate Idle()
      reads dev
    {
      && dev.Valid() && dev.cr == CR_IO && dev.er && dev.lq == 0
      && !dev.f.selected && dev.txq == [] && dev.rxq == []
    }

    /** The first half of cmd: select the flash and queue the words. */
    method Queue(c: word, w0: word, oneByte: bool, data: seq<byte>, nwords: nat)
      requires Idle() && 4 * nwords <= |data| && nwords <= 62 && c == CR_IO
      modifies dev, dev.flash
      ensures dev.Valid() && dev.cr == CR_SELECT && dev.er && dev.lq == 0 && dev.rxq == []
      ensures dev.f == Select(old(dev.f)) && dev.flash[..] == old(dev.flash[..]) && dev.faults == old(dev.faults)
      ensures dev.txq == Command(w0, oneByte, data, nwords)
    {
      hide Bit, Clear, CrFaults, Le32, ChipOk, SelectsChip, Select;
      CrValues();
      CrAccepted(true);
      dev.HwWr(Q_CR, Clear(c, CR_PCS));
      dev.HwWr(if oneByte then Q_TXD1 else Q_TXD0, w0);
      var i := 0;
      while i < nwords
        invariant 0 <= i <= nwords
        invariant dev.Valid() && dev.cr == CR_SELECT && dev.er && dev.lq == 0 && dev.rxq == []
        invariant dev.f == Select(old(dev.f)) && dev.flash[..] == old(dev.flash[..]) && dev.faults == old(dev.faults)
        invariant dev.txq == Command(w0, oneByte, data, i)
      {
        dev.HwWr(Q_TXD0, Le32(data, 4 * i));
        i := i + 1;
      }
    }

    /** The loop of cmd: as many words come back as went out, or it gives up. */
    method Collect(n: nat) returns (v: word)
      requires dev.Valid() && n > 0
      modifies this`timedOut, dev`rxq, dev`faults
      ensures dev.Valid() && dev.faults == old(dev.faults)
      ensures |old(dev.rxq)| >= n ==> timedOut == old(timedOut) && dev.rxq == old(dev.rxq)[n..] && v == old(dev.rxq)[n - 1]
      ensures |old(dev.rxq)| < n ==> timedOut && dev.rxq == []
    {
      hide ChipOk;
      var got, spin := 0, 0;
      v := 0;
      while got < n
        invariant 0 <= got <= n && got <= |old(dev.rxq)| && dev.faults == old(dev.faults) && dev.Valid()
        invariant timedOut == old(timedOut)
        invariant dev.rxq == old(dev.rxq)[got..] && (got > 0 ==> v == old(dev.rxq)[got - 1])
        decreases n - got, SPINS + 1 - spin
      {
        var isr := dev.HwRd(Q_ISR);
        if isr / ISR_RXNEMPTY % 2 == 1 {
          v := dev.HwRd(Q_RXD);
          got := got + 1;
        } else if spin > SPINS {
          timedOut := true;
          break;
        }
        spin := spin + 1;
      }
    }

    /** cmd: the whole command goes out under one chip select and takes effect at its end. */
    method Cmd(w0: word, oneByte: bool, data: seq<byte>, nwords: nat) returns (v: word)
      requires Idle() && 4 * nwords <= |data| && nwords <= 62
      modifies this`timedOut, dev, dev.flash
      ensures Idle() && timedOut == old(timedOut)
      ensures dev.f == Deselect(Exchange(old(dev.f), w0, oneByte, data, nwords)).0
      ensures dev.flash[..] == DeselectMem(Exchange(old(dev.f), w0, oneByte, data, nwords), old(dev.flash[..]))
      ensures dev.faults == old(dev.faults) + Deselect(Exchange(old(dev.f), w0, oneByte, data, nwords)).1
                            + Objections(Select(old(dev.f)), SentAll(Command(w0, oneByte, data, nwords)))
      ensures v == ReceivedAll(Select(old(dev.f)), Command(w0, oneByte, data, nwords))[nwords]
    {
      hide Bit, Clear, Set, CrFaults, Feed, Objections, ReceivedAll, Deselect, DeselectMem, SentAll, ChipOk,
           StartFaults, SelectsChip, Command, Select;
      CrValues();
      CrAccepted(true);
      var c := dev.HwRd(Q_CR);
      c := Clear(c, CR_MANSTRT);
      Queue(c, w0, oneByte, data, nwords);
      assert dev.f.selected by { SelectSelects(old(dev.f)); }
      ghost var g := Exchange(old(dev.f), w0, oneByte, data, nwords);
      dev.HwWr(Q_CR, Set(Clear(c, CR_PCS), CR_MANSTRT));
      assert dev.f == g && dev.flash[..] == old(dev.flash[..]);
      v := Collect(nwords + 1);
      FeedKeepsSelected(Select(old(dev.f)), SentAll(Command(w0, oneByte, data, nwords)));
      dev.HwWr(Q_CR, Set(c, CR_PCS));
      DeselectClears(g);
    }

    /** rdsr: the status, which the flash sends over and over. */
    method Rdsr() returns (r: byte)
      requires Idle()
      modifies this`timedOut, dev, dev.flash
      ensures Idle() && timedOut == old(timedOut) && dev.faults == old(dev.faults)
      ensures dev.flash[..] == old(dev.flash[..]) && r == Status(dev.f)
      ensures LatchesOf(dev.f) == LatchesOf(old(dev.f)).(busy := Less(old(dev.f.busy)))
    {
      hide Feed, Objections, ReceivedAll, SentAll, Command, Select, Exchange, Received, ChipOk;
      StatusExchange(dev.f);
      var v := Cmd(F_RDSR, false, [], 0);
      r := v / 0x1_0000 % 0x100;
    }

    /** wren: whether the latch is set afterwards. */
    method Wren() returns (ok: bool)
      requires Idle() && dev.f.busy == 0
      modifies this`timedOut, dev, dev.flash
      ensures Idle() && timedOut == old(timedOut) && dev.faults == old(dev.faults)
      ensures dev.flash[..] == old(dev.flash[..]) && ok == dev.f.wel
      ensures LatchesOf(dev.f) == LatchesOf(old(dev.f)).(wel := old(dev.f.wel) || !old(dev.f.protect))
    {
      hide Feed, Objections, ReceivedAll, SentAll, Command, Select, Exchange, ChipOk;
      EnableExchange(dev.f);
      var _ := Cmd(F_WREN, true, [], 0);
      var status := Rdsr();
      ok := status / 2 % 2 == 1;
    }

    /** wait_ready: polls until the flash is no longer busy. */
    method WaitReady() returns (ok: bool)
      requires Idle() && !timedOut
      modifies this`timedOut, dev, dev.flash
      ensures Idle() && !timedOut && dev.faults == old(dev.faults)
      ensures dev.flash[..] == old(dev.flash[..])
      ensures ok <==> old(dev.f.busy) <= POLLS
      ensures ok ==> LatchesOf(dev.f) == LatchesOf(old(dev.f)).(busy := 0)
    {
      hide ChipOk;
      var i := 0;
      while i < POLLS && !timedOut
        invariant 0 <= i <= POLLS && Idle() && !timedOut && dev.faults == old(dev.faults)
        invariant dev.flash[..] == old(dev.flash[..])
        invariant i > 0 ==> i < old(dev.f.busy)
        invariant LatchesOf(dev.f) == LatchesOf(old(dev.f)).(busy := old(dev.f.busy) - i)
      {
        var status := Rdsr();
        if status % 2 == 0 { return true; }
        i := i + 1;
      }
      return false;
    }

    /** Nothing under way, in either mode: what every call finds and leaves. */
    ghost predicate Ready()
      reads dev
    {
      dev.Valid() && !dev.f.selected && dev.txq == [] && dev.f.busy == 0
    }

    /** mode: the controller is reconfigured only while disabled, and nothing is left in
        the receive queue. */
    method Mode(linear: bool)
      requires dev.Valid() && !dev.f.selected && dev.txq == []
      modifies dev, dev.flash
      ensures dev.Valid() && dev.f == old(dev.f) && dev.txq == [] && dev.faults == old(dev.faults)
      ensures dev.flash[..] == old(dev.flash[..])
      ensures if linear then dev.Linear() && dev.rxq == old(dev.rxq) else Idle()
    {
      hide ChipOk, CrFaults, SelectsChip, Bit, Clear;
      CrValues();
      CrAccepted(false);
      dev.HwWr(Q_ER, 0);
      if linear {
        dev.HwWr(Q_CR, CR_LINEAR);
        dev.HwWr(Q_LQSPI_CFG, LQ_LINEAR);
      } else {
        dev.HwWr(Q_LQSPI_CFG, 0);
        dev.HwWr(Q_CR, CR_IO);
        dev.HwWr(Q_IDR, 0x7f);
      }
      dev.HwWr(Q_ER, 1);
      if !linear { Drain(); }
    }

    method Drain()
      requires dev.Valid()
      modifies dev`rxq, dev`faults
      ensures dev.Valid() && dev.rxq == [] && dev.faults == old(dev.faults)
    {
      hide ChipOk;
      var isr := dev.HwRd(Q_ISR);
      while isr / ISR_RXNEMPTY % 2 == 1
        invariant dev.Valid() && dev.faults == old(dev.faults)
        invariant isr == if |dev.rxq| > 0 then ISR_RXNEMPTY else 0
        decreases |dev.rxq|
      {
        var _ := dev.HwRd(Q_RXD);
        isr := dev.HwRd(Q_ISR);
      }
    }

    /** qspi_map */
    method QspiMap() returns (m: array<byte>)
      requires dev.Valid() && !dev.f.selected && dev.txq == []
      modifies dev, dev.flash
      ensures dev.Valid() && dev.f == old(dev.f) && dev.txq == [] && dev.Linear() && dev.faults == old(dev.faults)
      ensures m == dev.flash && m[..] == old(dev.flash[..])
    {
      Mode(true);
      m := dev.FlashMap();
    }

    /** qspi_jedec_id */
    method JedecId() returns (id: word)
      requires Ready()
      modifies this`timedOut, dev, dev.flash
      ensures Ready() && dev.Linear() && dev.faults == old(dev.faults) && LatchesOf(dev.f) == LatchesOf(old(dev.f))
      ensures dev.flash[..] == old(dev.flash[..]) && timedOut == old(timedOut) && id == 0xef4018
    {
      hide Feed, Objections, ReceivedAll, SentAll, Command, Select, Exchange, Received, ChipOk, Bit;
      Mode(false);
      IdExchange(dev.f);
      var v := Cmd(F_RDID, false, [], 0);
      Mode(true);
      id := v / 0x100 % 0x100 * 0x1_0000 + v / 0x1_0000 % 0x100 * 0x100 + v / 0x100_0000;
    }

    /** Erasing the block at blk, as qspi_write does it. */
    method EraseBlock(blk: nat) returns (r: Outcome)
      requires Idle() && dev.f.busy == 0 && blk < FLASH_BYTES && blk % BLOCK == 0 && !timedOut
      modifies this`timedOut, dev, dev.flash
      ensures Idle() && dev.f.busy == 0 && !timedOut && dev.faults == old(dev.faults)
      ensures r == if old(dev.f.wel) || !old(dev.f.protect) then Done else EnableIgnored
      ensures r == Done ==> blk + BLOCK <= FLASH_BYTES && dev.flash[..] == Erased(old(dev.flash[..]), blk)
      ensures r == Done ==> LatchesOf(dev.f) == LatchesOf(old(dev.f)).(wel := false, erases := old(dev.f.erases) + 1)
      ensures r != Done ==> dev.flash[..] == old(dev.flash[..]) && LatchesOf(dev.f) == LatchesOf(old(dev.f))
    {
      hide ChipOk, Exchange, Deselect, DeselectMem, Objections, SentAll, Command, Select, Erased, CmdAddr, ReceivedAll;
      var ok := Wren();
      if !ok { return EnableIgnored; }
      EraseExchange(dev.f, blk);
      var _ := Cmd(CmdAddr(F_BE64, blk), false, [], 0);
      ok := WaitReady();
      r := if ok then Done else EraseStuck;
    }

    /** Programming the chunk at a, as qspi_write does it. */
    method ProgramChunk(src: seq<byte>, a: nat, ghost mem: seq<byte>, ghost end: nat) returns (r: Outcome)
      requires Idle() && dev.f.busy == 0 && a < |src| && !timedOut && |mem| == FLASH_BYTES
      requires a % CHUNK == 0 && a + CHUNK <= end <= FLASH_BYTES && dev.flash[..] == Image(mem, src, a, end)
      modifies this`timedOut, dev, dev.flash
      ensures Idle() && dev.f.busy == 0 && !timedOut && dev.faults == old(dev.faults)
      ensures r == if old(dev.f.wel) || !old(dev.f.protect) then Done else EnableIgnored
      ensures r == Done ==> LatchesOf(dev.f) == LatchesOf(old(dev.f)).(wel := false, programs := old(dev.f.programs) + 1)
      ensures r == Done ==> dev.flash[..] == Image(mem, src, if |src| - a < CHUNK then |src| else a + CHUNK, end)
      ensures r != Done ==> dev.flash[..] == old(dev.flash[..]) && LatchesOf(dev.f) == LatchesOf(old(dev.f))
    {
      hide ChipOk, Exchange, Deselect, DeselectMem, Objections, SentAll, Command, Select, CmdAddr, ReceivedAll,
           Programmed, Image, Chunk;
      var k := if |src| - a < CHUNK then |src| - a else CHUNK;
      var buf := FillChunk(src, a);
      var ok := Wren();
      if !ok { return EnableIgnored; }
      var n := (k + 3) / 4;
      ProgramStep(dev.f, mem, src, a, end, k, n);
      var _ := Cmd(CmdAddr(F_PP, a), false, buf, n);
      ok := WaitReady();
      r := if ok then Done else ProgramStuck;
    }

    /** One turn of the block loop of qspi_write: erase, then program chunk by chunk. */
    method WriteBlock(src: seq<byte>, blk: nat, ghost mem: seq<byte>) returns (r: Outcome)
      requires Idle() && dev.f.busy == 0 && !timedOut && |mem| == FLASH_BYTES
      requires blk < |src| <= FLASH_BYTES && blk % BLOCK == 0 && dev.flash[..] == Image(mem, src, blk, blk)
      modifies this`timedOut, dev, dev.flash
      ensures Idle() && dev.f.busy == 0 && !timedOut && dev.faults == old(dev.faults)
      ensures blk + BLOCK <= FLASH_BYTES && dev.f.protect == old(dev.f.protect)
      ensures !dev.f.protect ==> r == Done && !dev.f.wel && dev.f.erases == old(dev.f.erases) + 1
      ensures !dev.f.protect ==> dev.flash[..] == Image(mem, src, Min(blk + BLOCK, |src|), blk + BLOCK)
      ensures dev.f.protect ==> r == EnableIgnored && !dev.f.wel
      ensures dev.f.protect ==> dev.flash[..] == if old(dev.f.wel) then Erased(old(dev.flash[..]), blk) else old(dev.flash[..])
    {
      hide ChipOk, Image, Erased;
      WholeBlock(blk);
      r := EraseBlock(blk);
      if r != Done { return; }
      ImageErased(mem, src, blk);
      var a := blk;
      while a < blk + BLOCK && a < |src|
        invariant blk <= a <= blk + BLOCK && a % CHUNK == 0
        invariant Idle() && dev.f.busy == 0 && !timedOut && dev.faults == old(dev.faults) && !dev.f.wel
        invariant dev.f.protect == old(dev.f.protect) && dev.f.erases == old(dev.f.erases) + 1
        invariant dev.flash[..] == Image(mem, src, Min(a, |src|), blk + BLOCK)
        invariant r == Done && (dev.f.protect ==> a == blk)
      {
        Chunks(blk, a);
        r := ProgramChunk(src, a, mem, blk + BLOCK);
        if r != Done { return; }
        a := a + CHUNK;
      }
    }

    /** qspi_write: the image, erased cells to the end of its last block, and everything
        after that as it was. */
    method QspiWrite(src: seq<byte>, n: word) returns (r: Outcome)
      requires Ready() && (n <= FLASH_BYTES ==> n <= |src|)
      modifies this, dev, dev.flash
      ensures Ready() && dev.faults == old(dev.faults) && dev.f.protect == old(dev.f.protect)
      ensures (n == 0 || n > FLASH_BYTES) <==> r == LengthRefused
      ensures r == LengthRefused ==> unchanged(dev, dev.flash)
      ensures r != LengthRefused ==> dev.Linear()
      ensures r != LengthRefused && !dev.f.protect ==>
                r == Done && BLOCK * Blocks(n) <= FLASH_BYTES && dev.f.erases == old(dev.f.erases) + Blocks(n)
                && dev.flash[..] == Image(old(dev.flash[..]), src[..n], n, BLOCK * Blocks(n))
      ensures r == Done ==> n <= |src| && dev.flash[..n] == src[..n]
      ensures r != LengthRefused && dev.f.protect ==>
                r == EnableIgnored && !dev.f.wel && dev.flash[..] == if old(dev.f.wel) then Erased(old(dev.flash[..]), 0) else old(dev.flash[..])
    {
      hide ChipOk, Image, Erased, Bit;
      if n == 0 || n > FLASH_BYTES { return LengthRefused; }
      timedOut := false;
      Mode(false);
      ghost var mem := dev.flash[..];
      var img := src[..n];
      ImageStart(mem, img);
      var blk, b := 0, 0;
      while blk < n
        invariant blk == BLOCK * b && 0 <= b <= Blocks(n) && BLOCK * Blocks(n) <= FLASH_BYTES
        invariant Idle() && dev.f.busy == 0 && !timedOut && dev.faults == old(dev.faults)
        invariant dev.f.protect == old(dev.f.protect) && dev.f.erases == old(dev.f.erases) + b
        invariant dev.flash[..] == Image(mem, img, Min(blk, n), blk)
        invariant dev.f.protect ==> b == 0 && dev.f.wel == old(dev.f.wel)
      {
        r := WriteBlock(img, blk, mem);
        if r != Done {
          if timedOut { r := NoAnswer; }
          Mode(true);
          return;
        }
        blk := blk + BLOCK;
        b := b + 1;
      }
      var map_ := QspiMap();
      ImageHolds(mem, img, blk);
      var same := ReadBack(map_, img);
      r := if same then Done else Mismatch;
    }
  }

  function Min(a: int, b: int): int { if a <= b then a else b }

  /** How many 64 KiB blocks hold n bytes. */
  function Blocks(n: nat): nat { (n + BLOCK - 1) / BLOCK }

  lemma WholeBlock(blk: nat)
    requires blk < FLASH_BYTES && blk % BLOCK == 0
    ensures blk + BLOCK <= FLASH_BYTES && blk % CHUNK == 0
  {
  }

  lemma Chunks(blk: nat, a: nat)
    requires blk % BLOCK == 0 && a % CHUNK == 0 && a < blk + BLOCK
    ensures a + CHUNK <= blk + BLOCK && (a + CHUNK) % CHUNK == 0
  {
  }

  lemma ImageStart(mem: seq<byte>, src: seq<byte>)
    ensures Image(mem, src, 0, 0) == mem
  {
  }

  lemma ImageHolds(mem: seq<byte>, src: seq<byte>, end: nat)
    requires |src| <= end <= |mem|
    ensures Image(mem, src, |src|, end)[..|src|] == src
  {
  }

  /** Reading it back, a word at a time and then the last bytes. */
  method ReadBack(m: array<byte>, src: seq<byte>) returns (same: bool)
    requires |src| <= m.Length
    ensures same <==> m[..|src|] == src
  {
    hide Le32;
    var n := |src|;
    var i := 0;
    while i < n / 4
      invariant 0 <= i <= n / 4 && m[..4 * i] == src[..4 * i]
    {
      SameWord(m[..], src, i);
      if Le32(m[..], 4 * i) != Le32(src, 4 * i) { return false; }
      i := i + 1;
    }
    var j := n / 4 * 4;
    while j < n
      invariant n / 4 * 4 <= j <= n && m[..j] == src[..j]
    {
      if m[j] != src[j] {
        assert m[..n][j] != src[j];
        return false;
      }
      j := j + 1;
    }
    assert src[..n] == src;
    return true;
  }

  /** Comparing a word is comparing its bytes. */
  lemma SameWord(m: seq<byte>, s: seq<byte>, i: nat)
    requires 4 * i + 4 <= |s| <= |m| && m[..4 * i] == s[..4 * i]
    ensures Le32(m, 4 * i) == Le32(s, 4 * i) <==> m[..4 * (i + 1)] == s[..4 * (i + 1)]
    ensures m[..|s|] == s ==> m[..4 * (i + 1)] == s[..4 * (i + 1)]
  {
    hide Le32;
    BytesOfWord(m, 4 * i);
    BytesOfWord(s, 4 * i);
    assert m[..4 * (i + 1)] == m[..4 * i] + m[4 * i..4 * i + 4];
    assert s[..4 * (i + 1)] == s[..4 * i] + s[4 * i..4 * i + 4];
    var o := 4 * i;
    assert m[..4 * (i + 1)] == s[..4 * (i + 1)] ==> m[o..o + 4] == m[..o + 4][o..] == s[..o + 4][o..] == s[o..o + 4];
    Le32Slice(m, o);
    Le32Slice(s, o);
    assert m[..|s|] == s ==> m[..|s|][..o + 4] == m[..o + 4];
  }

  method FillChunk(src: seq<byte>, a: nat) returns (buf: seq<byte>)
    requires a < |src|
    ensures buf == Chunk(src, a)
  {
    var k := if |src| - a < CHUNK then |src| - a else CHUNK;
    var b := new byte[CHUNK];
    var i := 0;
    while i < CHUNK
      invariant 0 <= i <= CHUNK
      invariant forall j | 0 <= j < i :: b[j] == if j < k then src[a + j] else 0xff
    {
      b[i] := if i < k then src[a + i] else 0xff;
      i := i + 1;
    }
    buf := b[..];
  }

  /** How qspi_write ends. */
  datatype Outcome = Done | LengthRefused | EnableIgnored | EraseStuck | ProgramStuck | Mismatch | NoAnswer

  /** A chunk programmed over erased cells. */
  lemma ProgramStep(f: Chip, mem: seq<byte>, src: seq<byte>, a: nat, end: nat, k: nat, n: nat)
    requires ChipOk(f) && f.wel && f.busy == 0 && |mem| == FLASH_BYTES
    requires a < |src| && a % CHUNK == 0 && a + CHUNK <= end <= FLASH_BYTES
    requires k == (if |src| - a < CHUNK then |src| - a else CHUNK) && n == (k + 3) / 4
    ensures 4 * n <= CHUNK
    ensures var g := Exchange(f, CmdAddr(F_PP, a), false, Chunk(src, a), n);
            && Deselect(g).1 == 0
            && LatchesOf(Deselect(g).0) == LatchesOf(f).(wel := false, busy := 2, programs := f.programs + 1)
            && DeselectMem(g, Image(mem, src, a, end)) == Image(mem, src, a + k, end)
    ensures Objections(Select(f), SentAll(Command(CmdAddr(F_PP, a), false, Chunk(src, a), n))) == 0
  {
    hide Exchange, Deselect, DeselectMem, Objections, SentAll, Command, Select, CmdAddr, ReceivedAll, Programmed;
    assert 4 * n <= CHUNK && 4 * n >= k;
    HalfPage(a, 4 * n);
    var data := Chunk(src, a);
    ProgramExchange(f, a, data, n);
    var was, o := Image(mem, src, a, end), a % 0x100;
    var page := Spliced(f.page, o, data[..4 * n]);
    ProgramErased(was, a, page, 4 * n);
    assert page[o..o + 4 * n] == data[..4 * n];
    ImageProgrammed(mem, src, a, end, k, n);
  }

  lemma HalfPage(a: nat, k: nat)
    requires a % CHUNK == 0 && k <= CHUNK
    ensures a % 0x100 + k <= 0x100
  {
  }

  /** The selected flash after a whole command. */
  function Exchange(f: Chip, w0: word, oneByte: bool, data: seq<byte>, n: nat): (g: Chip)
    requires ChipOk(f) && 4 * n <= |data|
    ensures ChipOk(g)
  {
    Feed(Select(f), SentAll(Command(w0, oneByte, data, n)))
  }

  lemma SelectSelects(f: Chip)
    ensures Select(f).selected && (ChipOk(f) ==> ChipOk(Select(f)))
  {
  }

  lemma {:induction false} FeedKeepsSelected(f: Chip, s: seq<byte>)
    requires ChipOk(f)
    ensures Feed(f, s).selected == f.selected
  {
    if s != [] { FeedKeepsSelected(f, s[..|s| - 1]); }
  }

  lemma DeselectClears(f: Chip)
    ensures !Deselect(f).0.selected
  {
  }

  /** One queued word, no data. */
  lemma SingleWord(f: Chip, w0: word, oneByte: bool)
    requires ChipOk(f)
    ensures SentAll(Command(w0, oneByte, [], 0)) == Sent(Queued(w0, if oneByte then 1 else 4))
    ensures ReceivedAll(f, Command(w0, oneByte, [], 0)) == [Received(f, Queued(w0, if oneByte then 1 else 4))]
  {
    hide Sent, Received, ChipOk, Feed;
    var q := Queued(w0, if oneByte then 1 else 4);
    var qs := Command(w0, oneByte, [], 0);
    assert qs == [q] && qs[..0] == [];
    assert SentAll([]) == [] && Sent(q) == [] + Sent(q);
    FeedNothing(f);
  }

  lemma FeedNothing(f: Chip)
    requires ChipOk(f)
    ensures Feed(f, []) == f
  {
  }

  lemma StatusExchange(f: Chip)
    requires ChipOk(f)
    ensures var g := Exchange(f, F_RDSR, false, [], 0);
            && Deselect(g) == (f.(selected := false, n := 4, ppCount := 0, cmd := F_RDSR, busy := Less(f.busy)), 0)
            && (forall mem: seq<byte> | |mem| == FLASH_BYTES :: DeselectMem(g, mem) == mem)
            && Objections(Select(f), SentAll(Command(F_RDSR, false, [], 0))) == 0
            && ReceivedAll(Select(f), Command(F_RDSR, false, [], 0))[0] / 0x1_0000 % 0x100 == Status(Deselect(g).0)
  {
    hide Feed, Objections, Received, ReceivedAll, SentAll, Command, Sent, Select;
    SelectSelects(f);
    SingleWord(Select(f), F_RDSR, false);
    StatusCommand(f);
  }

  /** The reply to an identification: 0xff, then 0xef, 0x40, 0x18. */
  lemma IdExchange(f: Chip)
    requires ChipOk(f) && f.busy == 0
    ensures var g := Exchange(f, F_RDID, false, [], 0);
            && Deselect(g) == (f.(selected := false, n := 4, ppCount := 0, cmd := F_RDID), 0)
            && (forall mem: seq<byte> | |mem| == FLASH_BYTES :: DeselectMem(g, mem) == mem)
            && Objections(Select(f), SentAll(Command(F_RDID, false, [], 0))) == 0
            && ReceivedAll(Select(f), Command(F_RDID, false, [], 0))[0] == 0x1840_efff
  {
    hide Feed, Objections, Received, ReceivedAll, SentAll, Command, Sent;
    SingleWord(Select(f), F_RDID, false);
    IdCommand(f);
  }

  lemma EnableExchange(f: Chip)
    requires ChipOk(f)
    ensures var g := Exchange(f, F_WREN, true, [], 0);
            && Deselect(g) == (f.(selected := false, n := 1, ppCount := 0, cmd := F_WREN, wel := f.wel || !f.protect), 0)
            && (forall mem: seq<byte> | |mem| == FLASH_BYTES :: DeselectMem(g, mem) == mem)
            && (f.busy == 0 ==> Objections(Select(f), SentAll(Command(F_WREN, true, [], 0))) == 0)
  {
    hide Feed, Objections, Received, ReceivedAll, SentAll, Command, Sent, Select;
    SelectSelects(f);
    SingleWord(Select(f), F_WREN, true);
    EnableCommand(f);
  }

  lemma EraseExchange(f: Chip, a: nat)
    requires ChipOk(f) && a < FLASH_BYTES && a % BLOCK == 0 && f.wel && f.busy == 0
    ensures var g := Exchange(f, CmdAddr(F_BE64, a), false, [], 0);
            && Deselect(g).1 == 0
            && LatchesOf(Deselect(g).0) == LatchesOf(f).(wel := false, busy := 7, erases := f.erases + 1)
            && (forall mem: seq<byte> | |mem| == FLASH_BYTES :: DeselectMem(g, mem) == Erased(mem, a))
    ensures Objections(Select(f), SentAll(Command(CmdAddr(F_BE64, a), false, [], 0))) == 0
  {
    hide Feed, Objections, Received, ReceivedAll, SentAll, Command, Sent, Select, Erased, CmdAddr, AddrBytes;
    SelectSelects(f);
    SingleWord(Select(f), CmdAddr(F_BE64, a), false);
    CmdAddrBytes(F_BE64, a);
    AddressCommand(f, F_BE64, a);
  }

  lemma ProgramExchange(f: Chip, a: nat, data: seq<byte>, n: nat)
    requires ChipOk(f) && a < FLASH_BYTES && 4 * n <= |data| && a % 0x100 + 4 * n <= 0x100 && f.wel && f.busy == 0
    ensures var g := Exchange(f, CmdAddr(F_PP, a), false, data, n);
            && Deselect(g).1 == 0
            && LatchesOf(Deselect(g).0) == LatchesOf(f).(wel := false, busy := 2, programs := f.programs + 1)
            && (forall mem: seq<byte> | |mem| == FLASH_BYTES ::
                  DeselectMem(g, mem) == Programmed(mem, a, Spliced(f.page, a % 0x100, data[..4 * n]), 4 * n))
    ensures Objections(Select(f), SentAll(Command(CmdAddr(F_PP, a), false, data, n))) == 0
  {
    hide Feed, Objections, SentAll, Command, Sent, Select, Programmed, CmdAddr, AddrBytes, Spliced;
    SelectSelects(f);
    CommandBytes(CmdAddr(F_PP, a), false, data, n);
    CmdAddrBytes(F_PP, a);
    AddressCommand(f, F_PP, a);
    FeedConcat(Select(f), AddrBytes(F_PP, a), data[..4 * n]);
    DataBytes(Feed(Select(f), AddrBytes(F_PP, a)), data[..4 * n]);
  }

  // ---- what the flash holds along the way ----

  /** The first m bytes of src, erased cells up to end, and the old contents beyond. */
  function Image(mem: seq<byte>, src: seq<byte>, m: nat, end: nat): (r: seq<byte>)
    requires m <= |src| && m <= end <= |mem|
    ensures |r| == |mem|
  {
    src[..m] + Ones(end - m) + mem[end..]
  }

  lemma ImageErased(mem: seq<byte>, src: seq<byte>, m: nat)
    requires m <= |src| && m + BLOCK <= |mem|
    ensures Erased(Image(mem, src, m, m), m) == Image(mem, src, m, m + BLOCK)
  {
    var r := Image(mem, src, m, m);
    assert r[..m] == src[..m] && r[m + BLOCK..] == mem[m + BLOCK..];
  }

  /** The chunk at a, padded with erased cells to whole words. */
  function Chunk(src: seq<byte>, a: nat): (c: seq<byte>)
    requires a <= |src|
    ensures |c| == CHUNK
  {
    var k := if |src| - a < CHUNK then |src| - a else CHUNK;
    src[a..a + k] + Ones(CHUNK - k)
  }

  lemma ImageProgrammed(mem: seq<byte>, src: seq<byte>, a: nat, end: nat, k: nat, n: nat)
    requires a < |src| && a + CHUNK <= end <= |mem|
    requires k == (if |src| - a < CHUNK then |src| - a else CHUNK) && 4 * n <= CHUNK && 4 * n >= k
    ensures Spliced(Image(mem, src, a, end), a, Chunk(src, a)[..4 * n]) == Image(mem, src, a + k, end)
  {
    var was, c := Image(mem, src, a, end), Chunk(src, a)[..4 * n];
    assert was[..a] == src[..a];
    assert c == src[a..a + k] + Ones(4 * n - k);
    assert was[a + 4 * n..] == Ones(end - a - 4 * n) + mem[end..];
    assert src[..a] + src[a..a + k] == src[..a + k];
    assert Ones(4 * n - k) + Ones(end - a - 4 * n) == Ones(end - (a + k));
  }
}
