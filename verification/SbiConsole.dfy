/** The SBI's debug console: it touches no memory but the payload's own. */
module SbiConsole {
  import opened Bytes
  import opened RomMap

  const SBI_SUCCESS := 0
  const SBI_ERR_NOT_SUPPORTED := -2
  const SBI_ERR_INVALID_PARAM := -3
  const DBCN_WRITE := 0
  const DBCN_READ := 1
  const DBCN_WRITE_BYTE := 2

  /** payload_buffer, in 32 bits. */
  predicate PayloadBuffer(lo: word, hi: word, n: word, ramSize: word) {
    var end: word := (lo as int + n as int) % WORD;
    hi == 0 && lo >= PAYLOAD_BASE && end >= lo && end as int <= (RAM_BASE + ramSize) % WORD
  }

  /** It accepts exactly the buffers that lie in the payload's part of RAM; with RAM right up
      to the end of the address space it accepts none. */
  lemma BufferIsPayload(lo: word, hi: word, n: word, ramSize: word)
    requires RAM_BASE + ramSize <= WORD
    ensures PayloadBuffer(lo, hi, n, ramSize) <==>
            RAM_BASE + ramSize < WORD && hi == 0 && PAYLOAD_BASE <= lo && lo as int + n as int <= RAM_BASE + ramSize
  {
    var sum := lo as int + n as int;
    if sum >= WORD { assert sum % WORD == sum - WORD; }
  }

  /** The debug console's part of ecall: what is written goes out, and what is read lands in
      the buffer and nowhere else. */
  method Dbcn(ram: array<byte>, fid: word, a0: word, a1: word, a2: word, input: seq<byte>)
    returns (err: int, val: int, out: seq<byte>, rest: seq<byte>)
    requires RAM_BASE + ram.Length <= WORD
    modifies ram
    ensures fid != DBCN_READ || !PayloadBuffer(a1, a2, a0, ram.Length) ==> ram[..] == old(ram[..]) && rest == input
    ensures fid == DBCN_WRITE_BYTE ==> err == SBI_SUCCESS && val == 0 && out == [a0 % 0x100]
    ensures fid != DBCN_WRITE_BYTE && fid != DBCN_WRITE && fid != DBCN_READ ==> err == SBI_ERR_NOT_SUPPORTED && out == []
    ensures (fid == DBCN_WRITE || fid == DBCN_READ) && !PayloadBuffer(a1, a2, a0, ram.Length) ==>
              err == SBI_ERR_INVALID_PARAM && val == 0 && out == []
    ensures fid == DBCN_WRITE && PayloadBuffer(a1, a2, a0, ram.Length) ==>
              var o := a1 - RAM_BASE;
              err == SBI_SUCCESS && val == a0 && 0 <= o && o + a0 as int <= ram.Length && out == ram[o..o + a0 as int]
    ensures fid == DBCN_READ && PayloadBuffer(a1, a2, a0, ram.Length) ==>
              var o, k := a1 - RAM_BASE, if a0 < |input| then a0 as int else |input|;
              && err == SBI_SUCCESS && val == k && out == [] && rest == input[k..] && 0 <= o && o + k <= ram.Length
              && ram[..] == Spliced(old(ram[..]), o, input[..k])
  {
    err, val, out, rest := SBI_SUCCESS, 0, [], input;
    BufferIsPayload(a1, a2, a0, ram.Length);
    if fid == DBCN_WRITE_BYTE {
      out := [a0 % 0x100];
    } else if fid == DBCN_WRITE || fid == DBCN_READ {
      if !PayloadBuffer(a1, a2, a0, ram.Length) { err := SBI_ERR_INVALID_PARAM; return; }
      var o := a1 - RAM_BASE;
      if fid == DBCN_WRITE {
        out := SendBuffer(ram, o, a0);
        val := a0;
      } else {
        val := ReadBuffer(ram, o, a0, input);
        rest := input[val..];
      }
    } else {
      err := SBI_ERR_NOT_SUPPORTED;
    }
  }

  method SendBuffer(ram: array<byte>, o: nat, n: nat) returns (out: seq<byte>)
    requires o + n <= ram.Length
    ensures out == ram[o..o + n]
  {
    out := [];
    var i := 0;
    while i < n
      invariant 0 <= i <= n && out == ram[o..o + i]
    {
      out := out + [ram[o + i]];
      i := i + 1;
    }
  }

  method ReadBuffer(ram: array<byte>, o: nat, n: nat, input: seq<byte>) returns (val: nat)
    requires o + n <= ram.Length
    modifies ram
    ensures val == if n < |input| then n else |input|
    ensures ram[..] == Spliced(old(ram[..]), o, input[..val])
  {
    val := 0;
    while val < n && val < |input|
      invariant 0 <= val <= n && val <= |input|
      invariant forall k {:trigger ram[k]} | 0 <= k < ram.Length :: ram[k] == if o <= k < o + val then input[k - o] else old(ram[..])[k]
    {
      ram[o + val] := input[val];
      val := val + 1;
    }
  }
}
