/** What each command the driver sends does to the flash, and what comes back. */
module FlashCommands {
  import opened Basics
  import opened Bytes
  import opened FlashDevice

  function Four(a: byte, b: byte, c: byte, d: byte): (s: seq<byte>) { [a, b, c, d] }

  /** Sending four bytes is sending them one after the other. */
  lemma FeedFour(f: Chip, a: byte, b: byte, c: byte, d: byte)
    requires ChipOk(f)
    ensures var f1 := FlashByte(f, a); var f2 := FlashByte(f1.0, b); var f3 := FlashByte(f2.0, c); var f4 := FlashByte(f3.0, d);
            var s := Four(a, b, c, d);
            && Feed(f, s) == f4.0 && Objections(f, s) == f1.2 + f2.2 + f3.2 + f4.2
            && Feed(f, s[..2]) == f2.0 && Reply(f, s, 2) == f3.1
  {
    hide FlashByte, ChipOk;
    var s := Four(a, b, c, d);
    assert s[..0] == [] && s[..1][..0] == [] && s[..1][0] == a;
    assert Feed(f, s[..1]) == FlashByte(f, a).0;
    assert s[..2][..1] == s[..1] && s[..3][..2] == s[..2] && s[..4][..3] == s[..3] && s[..4] == s;
    assert Feed(f, s[..2]) == FlashByte(Feed(f, s[..1]), b).0;
    assert Feed(f, s[..3]) == FlashByte(Feed(f, s[..2]), c).0;
    assert Objections(f, s[..1]) == FlashByte(f, a).2;
    assert Objections(f, s[..2]) == Objections(f, s[..1]) + FlashByte(Feed(f, s[..1]), b).2;
    assert Objections(f, s[..3]) == Objections(f, s[..2]) + FlashByte(Feed(f, s[..2]), c).2;
  }

  /** What of the flash outlives a command. */
  datatype Latches = Latches(wel: bool, busy: nat, protect: bool, erases: nat, programs: nat)

  function LatchesOf(f: Chip): Latches { Latches(f.wel, f.busy, f.protect, f.erases, f.programs) }

  function Less(busy: nat): nat { if busy > 0 then busy - 1 else 0 }

  /** A status read: one step less busy, and the third byte back is the status. */
  lemma StatusCommand(f: Chip)
    requires ChipOk(f)
    ensures Sent(Queued(F_RDSR, 4)) == Four(F_RDSR, 0, 0, 0)
    ensures var g := Feed(Select(f), Four(F_RDSR, 0, 0, 0));
            && g == f.(selected := true, n := 4, ppCount := 0, cmd := F_RDSR, busy := Less(f.busy))
            && Objections(Select(f), Four(F_RDSR, 0, 0, 0)) == 0
            && Received(Select(f), Queued(F_RDSR, 4)) / 0x1_0000 % 0x100 == Status(g)
  {
    hide Feed, Objections, Received;
    FeedFour(Select(f), F_RDSR, 0, 0, 0);
    assert LeBytes(5) == [5, 0, 0, 0];
    assert LeBytes(5)[..4] == LeBytes(5);
    ThirdByte(Select(f), Queued(F_RDSR, 4));
  }

  lemma ThirdByte(f: Chip, q: Queued)
    requires ChipOk(f) && q.bytes == 4
    ensures Received(f, q) / 0x1_0000 % 0x100 == Reply(f, Sent(q), 2)
  {
    hide Reply, Sent, ChipOk;
    var s := Sent(q);
    assert Replies(f, s, 4) == Replies(f, s, 3) + Reply(f, s, 3) * Pow256(3);
    assert Replies(f, s, 3) == Replies(f, s, 2) + Reply(f, s, 2) * Pow256(2);
    assert Received(f, q) == Replies(f, s, 4) * Pow256(0);
    ThirdDigit(Replies(f, s, 2), Reply(f, s, 2), Reply(f, s, 3));
  }

  lemma ThirdDigit(lo: int, m: int, hi: int)
    requires 0 <= lo < 0x1_0000 && 0 <= m < 0x100 && 0 <= hi < 0x100
    ensures (lo + m * 0x1_0000 + hi * 0x100_0000) / 0x1_0000 % 0x100 == m
  {
    assert (lo + m * 0x1_0000 + hi * 0x100_0000) / 0x1_0000 == m + hi * 0x100;
  }

  lemma IdCommand(f: Chip)
    requires ChipOk(f)
    ensures Sent(Queued(F_RDID, 4)) == Four(F_RDID, 0, 0, 0)
    ensures Feed(Select(f), Four(F_RDID, 0, 0, 0)) == f.(selected := true, n := 4, ppCount := 0, cmd := F_RDID)
    ensures f.busy == 0 ==> Objections(Select(f), Four(F_RDID, 0, 0, 0)) == 0
    ensures Received(Select(f), Queued(F_RDID, 4)) == 0x1840_efff
  {
    hide Feed, Objections, Received;
    FeedFour(Select(f), F_RDID, 0, 0, 0);
    assert LeBytes(0x9f) == [0x9f, 0, 0, 0];
    assert LeBytes(0x9f)[..4] == LeBytes(0x9f);
    FourReplies(Select(f), Queued(F_RDID, 4), F_RDID, 0, 0, 0);
  }

  lemma FourReplies(f: Chip, q: Queued, a: byte, b: byte, c: byte, d: byte)
    requires ChipOk(f) && q.bytes == 4 && Sent(q) == Four(a, b, c, d)
    ensures var f1 := FlashByte(f, a); var f2 := FlashByte(f1.0, b); var f3 := FlashByte(f2.0, c); var f4 := FlashByte(f3.0, d);
            Received(f, q) == f1.1 as int + 0x100 * (f2.1 as int) + 0x1_0000 * (f3.1 as int) + 0x100_0000 * (f4.1 as int)
  {
    hide FlashByte, ChipOk, Sent;
    var s := Four(a, b, c, d);
    assert s[..0] == [] && s[..1][..0] == [] && s[..1][0] == a;
    assert Feed(f, s[..1]) == FlashByte(f, a).0;
    assert s[..2][..1] == s[..1] && s[..3][..2] == s[..2] && s[..4][..3] == s[..3] && s[..4] == s;
    assert Feed(f, s[..2]) == FlashByte(Feed(f, s[..1]), b).0;
    assert Feed(f, s[..3]) == FlashByte(Feed(f, s[..2]), c).0;
    assert Replies(f, s, 4) == Replies(f, s, 3) + Reply(f, s, 3) * Pow256(3);
    assert Replies(f, s, 3) == Replies(f, s, 2) + Reply(f, s, 2) * Pow256(2);
    assert Replies(f, s, 2) == Replies(f, s, 1) + Reply(f, s, 1) * Pow256(1);
    assert Replies(f, s, 1) == Replies(f, s, 0) + Reply(f, s, 0) * Pow256(0);
    assert Received(f, q) == Replies(f, s, 4) * Pow256(0);
  }

  lemma EnableCommand(f: Chip)
    requires ChipOk(f)
    ensures Sent(Queued(F_WREN, 1)) == [F_WREN]
    ensures Feed(Select(f), [F_WREN]) == f.(selected := true, n := 1, ppCount := 0, cmd := F_WREN)
    ensures f.busy == 0 ==> Objections(Select(f), [F_WREN]) == 0
  {
    assert LeBytes(6) == [6, 0, 0, 0];
    assert LeBytes(6)[..1] == [6];
    var s := [F_WREN];
    assert s[..0] == [];
    assert Feed(Select(f), s) == FlashByte(Feed(Select(f), []), F_WREN).0;
  }

  /** cmd_addr: the command byte, then the address, most significant byte first. */
  function CmdAddr(c: byte, a: nat): (w: word)
    requires a < FLASH_BYTES
  {
    c + a / 0x1_0000 * 0x100 + a / 0x100 % 0x100 * 0x1_0000 + a % 0x100 * 0x100_0000
  }

  function AddrBytes(c: byte, a: nat): (s: seq<byte>)
    requires a < FLASH_BYTES
  {
    Four(c, a / 0x1_0000, a / 0x100 % 0x100, a % 0x100)
  }

  lemma CmdAddrBytes(c: byte, a: nat)
    requires a < FLASH_BYTES
    ensures Sent(Queued(CmdAddr(c, a), 4)) == AddrBytes(c, a)
  {
    var s := AddrBytes(c, a);
    assert Le32(s, 0) == CmdAddr(c, a);
    BytesOfWord(s, 0);
    assert s[0..4] == s;
  }

  lemma AddressByte(f: Chip, b: byte)
    requires ChipOk(f) && 1 <= f.n <= 3 && (f.cmd == F_PP || f.cmd == F_BE64)
    requires f.n > 1 ==> f.addr * 0x100 + b < FLASH_BYTES
    ensures FlashByte(f, b) == (f.(n := f.n + 1, addr := if f.n == 1 then b else f.addr * 0x100 + b), 0xff, 0)
  {
  }

  lemma AddressCommand(f: Chip, c: byte, a: nat)
    requires ChipOk(f) && a < FLASH_BYTES && (c == F_PP || c == F_BE64)
    ensures Feed(Select(f), AddrBytes(c, a)) == f.(selected := true, n := 4, ppCount := 0, cmd := c, addr := a)
    ensures f.busy == 0 ==> Objections(Select(f), AddrBytes(c, a)) == 0
  {
    hide Feed, Objections;
    var hi, mid, lo := a / 0x1_0000, a / 0x100 % 0x100, a % 0x100;
    assert hi * 0x100 + mid == a / 0x100 && a / 0x100 * 0x100 + lo == a;
    FeedFour(Select(f), c, hi, mid, lo);
    SendAddress(FlashByte(Select(f), c).0, a);
  }

  lemma SendAddress(f: Chip, a: nat)
    requires ChipOk(f) && f.n == 1 && a < FLASH_BYTES && (f.cmd == F_PP || f.cmd == F_BE64)
    ensures var f2 := FlashByte(f, a / 0x1_0000); var f3 := FlashByte(f2.0, a / 0x100 % 0x100);
            var f4 := FlashByte(f3.0, a % 0x100);
            f4.0 == f.(n := 4, addr := a) && f2.2 == f3.2 == f4.2 == 0
  {
    hide FlashByte, ChipOk;
    var hi, mid, lo := a / 0x1_0000, a / 0x100 % 0x100, a % 0x100;
    assert hi * 0x100 + mid == a / 0x100 && a / 0x100 * 0x100 + lo == a;
    AddressByte(f, hi);
    AddressByte(FlashByte(f, hi).0, mid);
    AddressByte(FlashByte(FlashByte(f, hi).0, mid).0, lo);
  }

  // ---- programming ----

  /** An address and one k bytes further on in the same page. */
  lemma SamePage(a: nat, k: nat)
    requires a % 0x100 + k < 0x100
    ensures (a + k) % 0x100 == a % 0x100 + k && a / 0x100 * 0x100 + (a + k) % 0x100 == a + k
  {
  }

  lemma {:induction false} DataBytes(g: Chip, data: seq<byte>)
    requires ChipOk(g) && g.cmd == F_PP && g.n == 4 && g.ppCount == 0 && g.addr % 0x100 + |data| <= 0x100
    ensures Feed(g, data) == g.(n := 4 + |data|, ppCount := |data|, page := Spliced(g.page, g.addr % 0x100, data))
    ensures Objections(g, data) == 0
  {
    hide FlashByte, Spliced;
    if data == [] { assert Spliced(g.page, g.addr % 0x100, data) == g.page by { SplicedNone(g.page, g.addr % 0x100); } }
    else {
      var k := |data| - 1;
      DataBytes(g, data[..k]);
      DataByte(Feed(g, data[..k]), data[k]);
      SamePage(g.addr, k);
      SplicedLast(g.page, g.addr % 0x100, data[..k], data[k]);
      assert data[..k] + [data[k]] == data;
    }
  }

  lemma DataByte(f: Chip, b: byte)
    requires ChipOk(f) && f.cmd == F_PP && f.n >= 4
    ensures FlashByte(f, b) == (f.(n := f.n + 1, ppCount := f.ppCount + 1, page := f.page[(f.addr + f.ppCount) % 0x100 := b]), 0xff, 0)
  {
  }

  lemma {:induction false} AndOnes(k: nat, p: nat, y: nat)
    requires p == Two(k) && y < p
    ensures And(p - 1, y) == y
  {
    if k > 0 {
      AndOnes(k - 1, Two(k - 1), y / 2);
      assert (p - 1) / 2 == Two(k - 1) - 1;
    }
  }

  lemma AndErased(y: byte)
    ensures And(0xff, y) == y
  {
    assert Two(4) == 16;
    assert Two(8) == 256;
    AndOnes(8, 256, y);
  }

  /** Programming erased cells stores the page. */
  lemma {:induction false} ProgramErased(mem: seq<byte>, a: nat, page: seq<byte>, k: nat)
    requires |page| == 256 && a < |mem| && |mem| % 0x100 == 0 && a % 0x100 + k <= 0x100 && a + k <= |mem|
    requires forall i | a <= i < a + k :: mem[i] == 0xff
    ensures k <= 256
    ensures Programmed(mem, a, page, k) == Spliced(mem, a, page[a % 0x100..a % 0x100 + k])
  {
    hide And, Spliced;
    var o := a % 0x100;
    if k == 0 {
      assert page[o..o] == [];
      SplicedNone(mem, a);
    } else {
      ProgramErased(mem, a, page, k - 1);
      SamePage(a, k - 1);
      assert (a + k - 1) % 0x100 == o + (k - 1);
      AndErased(page[o + k - 1]);
      SplicedLast(mem, a, page[o..o + k - 1], page[o + k - 1]);
      assert page[o..o + k - 1] + [page[o + k - 1]] == page[o..o + k];
    }
  }
}
