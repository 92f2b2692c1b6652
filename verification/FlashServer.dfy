/** The flash server of the PS program: its loop over the bytes on the line. */
module FlashServer {
  import opened Basics
  import opened Bytes
  import opened Crc
  import opened BootBin
  import opened FlashDevice
  import opened QspiDriver
  import opened FlashProtocol
  import BootBuild

  /** The flash after an image has been written. */
  function Flashed(mem: seq<byte>, img: seq<byte>): (m: seq<byte>)
    requires |mem| == FLASH_BYTES && |img| <= FLASH_BYTES
    ensures |m| == FLASH_BYTES
  {
    BlocksFit(|img|);
    Image(mem, img, |img|, BLOCK * Blocks(|img|))
  }

  lemma BlocksFit(n: nat)
    requires n <= FLASH_BYTES
    ensures n <= BLOCK * Blocks(n) <= FLASH_BYTES
  {
  }

  ghost predicate AllFlashable(imgs: seq<seq<byte>>) { forall i | 0 <= i < |imgs| :: Flashable(imgs[i]) }

  /** The flash after images have been written one after the other. */
  ghost function FlashedAll(mem: seq<byte>, imgs: seq<seq<byte>>): (m: seq<byte>)
    requires |mem| == FLASH_BYTES && AllFlashable(imgs)
    ensures |m| == FLASH_BYTES
    decreases |imgs|
  {
    if imgs == [] then mem else FlashedAll(Flashed(mem, imgs[0]), imgs[1..])
  }

  /** The flash holds something the first-stage loader starts. */
  ghost predicate Bootable(mem: seq<byte>) { Parse(mem).0 == Accepted }

  /** What was written is what the loader then finds: both payloads, in the same places. */
  lemma FlashedBoots(mem: seq<byte>, img: seq<byte>)
    requires |mem| == FLASH_BYTES && Flashable(img)
    ensures Parse(Flashed(mem, img)) == Parse(img)
  {
    hide Parse, Image;
    BlocksFit(|img|);
    ImageHolds(mem, img, BLOCK * Blocks(|img|));
    ParsePrefix(img, Flashed(mem, img));
  }

  /** Whatever the flash has done: if reading back what is mapped gives the image, then the
      loader finds in the whole flash what the image holds, and in the same places. */
  method ReadBackBoots(m: array<byte>, img: seq<byte>) returns (same: bool)
    requires |img| <= m.Length && Parse(img).0 == Accepted
    ensures same <==> m[..|img|] == img
    ensures same ==> Parse(m[..]) == Parse(img)
  {
    hide Parse;
    same := ReadBack(m, img);
    if same { HoldsBoots(m[..], img); }
  }

  lemma HoldsBoots(m: seq<byte>, img: seq<byte>)
    requires |img| <= |m| && m[..|img|] == img && Parse(img).0 == Accepted
    ensures Parse(m) == Parse(img)
  {
    hide Parse;
    ParsePrefix(img, m);
  }

  /** From the packer to the loader: a BOOT.BIN built from a bitstream and a RISC-V image,
      sent as a record behind any noise, is found again whole in the flash. */
  lemma SentBootBinBoots(mem: seq<byte>, noise: seq<byte>, fsbl: seq<byte>, bit: seq<byte>, entry: word,
                         segs: seq<BootBuild.Segment>, cmdline: seq<byte>, base: seq<byte>)
    requires BootBuild.Packable(segs, cmdline) && 1 <= |segs| <= RVBI_MAX_SEGS && RvbiSize(BootBuild.Words(fsbl)).None?
    requires BootBuild.Buildable(BootBuild.Standard(fsbl, bit, BootBuild.Rvbi(entry, segs, cmdline)))
    requires BootBuild.Built(BootBuild.Standard(fsbl, bit, BootBuild.Rvbi(entry, segs, cmdline)), base)
    requires Quiet([], noise) && |base| <= FLASH_BYTES && |mem| == FLASH_BYTES
    ensures Written(noise + Record(base), 0) == [base]
    ensures var m := Flashed(mem, base); var (v, f) := Parse(m);
            && v == Accepted && f.bit.Some? && f.img.Some?
            && f.bit.value + 4 * f.bitWords <= |m| && f.img.value + f.imgBytes <= |m|
            && m[f.bit.value..f.bit.value + 4 * f.bitWords] == BootBuild.Words(bit)
            && m[f.img.value..f.img.value + f.imgBytes] == BootBuild.Rvbi(entry, segs, cmdline)
  {
    hide BootBuild.Packable, BootBuild.Buildable, BootBuild.Built, BootBuild.Rvbi, BootBuild.Words, RvbiSize, Image,
         Scan, Quiet, EndsWith, Record;
    BootBuild.BootBinRoundTrip(fsbl, bit, entry, segs, cmdline, base);
    assert Flashable(base);
    RecordIsWritten(noise, base, []);
    assert noise + Record(base) + [] == noise + Record(base);
    FlashedBoots(mem, base);
    BlocksFit(|base|);
    ImageHolds(mem, base, BLOCK * Blocks(|base|));
    var m, f := Flashed(mem, base), Parse(base).1;
    assert m[..|base|] == base;
    assert m[..|base|][f.bit.value..f.bit.value + 4 * f.bitWords] == m[f.bit.value..f.bit.value + 4 * f.bitWords];
    assert m[..|base|][f.img.value..f.img.value + f.imgBytes] == m[f.img.value..f.img.value + f.imgBytes];
  }

  lemma {:induction false} StaysBootable(mem: seq<byte>, imgs: seq<seq<byte>>)
    requires |mem| == FLASH_BYTES && AllFlashable(imgs) && Bootable(mem)
    ensures Bootable(FlashedAll(mem, imgs))
    decreases |imgs|
  {
    hide Parse, Flashed;
    if imgs != [] {
      FlashedBoots(mem, imgs[0]);
      StaysBootable(Flashed(mem, imgs[0]), imgs[1..]);
    }
  }

  class Server {
    const qspi: Driver
    const crc: Table
    const buf: array<byte>
    var line: seq<byte>
    var matched: nat

    constructor (driver: Driver, table: Table, rxBuf: array<byte>, bytes: seq<byte>)
      requires driver.Ready() && table.Valid() && rxBuf.Length == FLASH_BYTES && rxBuf != driver.dev.flash
      ensures Valid() && qspi == driver && line == bytes && matched == 0
    {
      qspi, crc, buf, line, matched := driver, table, rxBuf, bytes, 0;
    }

    ghost predicate Valid()
      reads this, qspi, qspi.dev, crc.table
    {
      qspi.Ready() && crc.Valid() && buf.Length == FLASH_BYTES && buf != qspi.dev.flash && matched < 8
    }

    /** getc_: the next byte, or none where the program would go on waiting. */
    method Getc() returns (b: Option<byte>)
      modifies this`line
      ensures old(line) == [] ==> b == None && line == []
      ensures old(line) != [] ==> b == Some(old(line)[0]) && line == old(line)[1..]
    {
      if line == [] { return None; }
      b, line := Some(line[0]), line[1..];
    }

    /** get32 */
    method Get32() returns (w: Option<word>)
      modifies this`line
      ensures |old(line)| < 4 ==> w == None && line == []
      ensures |old(line)| >= 4 ==> w == Some(Le32(old(line), 0)) && line == old(line)[4..]
    {
      var v: int, i := 0, 0;
      while i < 4
        invariant 0 <= i <= 4 && i <= |old(line)| && line == old(line)[i..]
        invariant v == LowBytes(old(line), i) && 0 <= v < Pow256(i)
      {
        var b := Getc();
        if b.None? { return None; }
        v := v + b.value * Pow256(i);
        i := i + 1;
      }
      w := Some(v);
    }

    /** The bytes of an image into the receive buffer; false where they stop coming. */
    method Receive(n: nat) returns (whole: bool)
      requires n <= buf.Length
      modifies this`line, buf
      ensures |old(line)| < n ==> !whole && line == []
      ensures |old(line)| >= n ==> whole && line == old(line)[n..] && buf[..n] == old(line)[..n]
    {
      var i := 0;
      while i < n
        invariant 0 <= i <= n && i <= |old(line)| && line == old(line)[i..] && buf[..i] == old(line)[..i]
      {
        var b := Getc();
        if b.None? { return false; }
        buf[i] := b.value;
        i := i + 1;
      }
      whole := true;
    }

    /** serve_flash: nothing is erased until the whole image has been received and checked;
        and what is reported as done will boot. */
    method ServeFlash() returns (a: Answer, done: bool)
      requires Valid()
      modifies this`line, buf, crc.table, qspi, qspi.dev, qspi.dev.flash
      ensures Valid() && (a, line) == Serve(old(line))
      ensures qspi.dev.faults == old(qspi.dev.faults) && qspi.dev.f.protect == old(qspi.dev.f.protect)
      ensures !a.Takes? ==> qspi.dev.flash[..] == old(qspi.dev.flash[..]) && qspi.dev.f == old(qspi.dev.f)
      ensures a.Takes? && !qspi.dev.f.protect ==> Flashable(a.img) && qspi.dev.flash[..] == Flashed(old(qspi.dev.flash[..]), a.img)
      ensures a.Takes? && qspi.dev.f.protect && !old(qspi.dev.f.wel) ==> qspi.dev.flash[..] == old(qspi.dev.flash[..]) && !qspi.dev.f.wel
      ensures done ==> a.Takes? && Parse(qspi.dev.flash[..]) == Parse(a.img)
      ensures a.Takes? ==> done == !qspi.dev.f.protect
    {
      hide Judge, Le32, Flashed, Flashable, ChipOk, Parse;
      ghost var all := line;
      var n := Get32();
      if n.None? { return Waiting, false; }
      var sum := Get32();
      if sum.None? { return Waiting, false; }
      Le32Tail(all, 4);
      if n.value < 0xa0 || n.value > FLASH_BYTES { return LengthOut, false; }
      var whole := Receive(n.value);
      if !whole { return Waiting, false; }
      assert buf[..n.value] == all[8..8 + n.value as int];
      a, done := CheckAndWrite(n.value, sum.value);
    }

    /** serve_flash, once the bytes are in the receive buffer. */
    method CheckAndWrite(n: word, sum: word) returns (a: Answer, done: bool)
      requires Valid() && 0xa0 <= n <= FLASH_BYTES
      modifies crc.table, qspi, qspi.dev, qspi.dev.flash
      ensures Valid() && a == Judge(buf[..n], sum)
      ensures qspi.dev.faults == old(qspi.dev.faults) && qspi.dev.f.protect == old(qspi.dev.f.protect)
      ensures !a.Takes? ==> qspi.dev.flash[..] == old(qspi.dev.flash[..]) && qspi.dev.f == old(qspi.dev.f)
      ensures a.Takes? && !qspi.dev.f.protect ==> Flashable(a.img) && qspi.dev.flash[..] == Flashed(old(qspi.dev.flash[..]), a.img)
      ensures a.Takes? && qspi.dev.f.protect && !old(qspi.dev.f.wel) ==> qspi.dev.flash[..] == old(qspi.dev.flash[..]) && !qspi.dev.f.wel
      ensures done ==> a.Takes? && Parse(qspi.dev.flash[..]) == Parse(a.img)
      ensures a.Takes? ==> done == !qspi.dev.f.protect
    {
      hide Parse, CrcWord, Flashed, ChipOk;
      var img := buf[..n];
      var got := crc.Update(0, img);
      Unfold(img);
      if got as int != sum { return CrcFailed, false; }
      var v, found := BootbinParse(crc, img);
      if v != Accepted { return NotBootBin(v), false; }
      done := WriteImage(img);
      a := Takes(img);
    }

    /** The end of serve_flash: whether it reports success. */
    method WriteImage(img: seq<byte>) returns (done: bool)
      requires qspi.Ready() && Flashable(img)
      modifies qspi, qspi.dev, qspi.dev.flash
      ensures qspi.Ready() && qspi.dev.faults == old(qspi.dev.faults) && qspi.dev.f.protect == old(qspi.dev.f.protect)
      ensures !qspi.dev.f.protect ==> qspi.dev.flash[..] == Flashed(old(qspi.dev.flash[..]), img)
      ensures qspi.dev.f.protect && !old(qspi.dev.f.wel) ==> qspi.dev.flash[..] == old(qspi.dev.flash[..]) && !qspi.dev.f.wel
      ensures done == !qspi.dev.f.protect && (done ==> Parse(qspi.dev.flash[..]) == Parse(img))
    {
      hide Parse, Image, Erased, ChipOk, Bit;
      var id := qspi.JedecId();
      var n: word := |img|;
      BlocksFit(n);
      assert img[..n] == img;
      var r := qspi.QspiWrite(img, n);
      done := r == Done;
      if done { HoldsBoots(qspi.dev.flash[..], img); }
    }

    /** The loop of the program over everything on the line. */
    method Run()
      requires Valid()
      modifies this, buf, crc.table, qspi, qspi.dev, qspi.dev.flash
      ensures Valid() && line == [] && qspi.dev.faults == old(qspi.dev.faults)
      ensures qspi.dev.f.protect == old(qspi.dev.f.protect)
      ensures !qspi.dev.f.protect ==>
                AllFlashable(Written(old(line), old(matched)))
                && qspi.dev.flash[..] == FlashedAll(old(qspi.dev.flash[..]), Written(old(line), old(matched)))
      ensures !qspi.dev.f.protect && Bootable(old(qspi.dev.flash[..])) ==> Bootable(qspi.dev.flash[..])
      ensures qspi.dev.f.protect && !old(qspi.dev.f.wel) ==> qspi.dev.flash[..] == old(qspi.dev.flash[..])
    {
      hide Flashed, Match, Serve, Flashable, ChipOk, Parse;
      OnlyFlashable(line, matched);
      ghost var mem, goal := qspi.dev.flash[..], Written(line, matched);
      ghost var done: seq<seq<byte>> := [];
      while line != []
        invariant Valid() && qspi.dev.faults == old(qspi.dev.faults) && qspi.dev.f.protect == old(qspi.dev.f.protect)
        invariant goal == done + Written(line, matched) && AllFlashable(goal)
        invariant qspi.dev.f.protect && !old(qspi.dev.f.wel) ==> qspi.dev.flash[..] == mem && !qspi.dev.f.wel
        invariant !qspi.dev.f.protect ==> AllFlashable(done) && qspi.dev.flash[..] == FlashedAll(mem, done)
        decreases |line|
      {
        ghost var was := Written(line, matched);
        var c := Getc();
        matched := Match(matched, c.value);
        if matched == 8 {
          matched := 0;
          ghost var before := qspi.dev.flash[..];
          var a, ok := ServeFlash();
          if a.Takes? {
            assert was == [a.img] + Written(line, 0);
            assert goal == done + [a.img] + Written(line, 0);
            if !qspi.dev.f.protect { FlashedLast(mem, done, a.img); }
            done := done + [a.img];
          } else {
            assert was == Written(line, 0);
          }
        } else {
          assert was == Written(line, matched);
        }
      }
      assert done + [] == done;
      if !qspi.dev.f.protect && Bootable(mem) { StaysBootable(mem, done); }
    }
  }

  /** The first i bytes of a word, least significant first. */
  function LowBytes(s: seq<byte>, i: nat): (v: int)
    requires i <= 4 && i <= |s|
    ensures i == 4 ==> v == Le32(s, 0)
  {
    if i == 0 then 0 else if i == 1 then s[0]
    else if i == 2 then s[0] as int + 0x100 * (s[1] as int)
    else if i == 3 then s[0] as int + 0x100 * (s[1] as int) + 0x1_0000 * (s[2] as int)
    else s[0] as int + 0x100 * (s[1] as int) + 0x1_0000 * (s[2] as int) + 0x100_0000 * (s[3] as int)
  }

  lemma Le32Tail(s: seq<byte>, o: nat)
    ensures o + 4 <= |s| ==> Le32(s[o..], 0) == Le32(s, o)
  {
  }

  lemma Unfold(s: seq<byte>)
    ensures CrcWord(s) == Crc32(0, s) as int
  {
  }

  lemma {:induction false} FlashedLast(mem: seq<byte>, imgs: seq<seq<byte>>, img: seq<byte>)
    requires |mem| == FLASH_BYTES && AllFlashable(imgs) && Flashable(img)
    ensures AllFlashable(imgs + [img])
    ensures FlashedAll(mem, imgs + [img]) == Flashed(FlashedAll(mem, imgs), img)
    decreases |imgs|
  {
    hide Flashed, Parse;
    var all := imgs + [img];
    assert AllFlashable(all);
    if imgs == [] { assert all == [img] && all[1..] == []; }
    else {
      FlashedLast(Flashed(mem, imgs[0]), imgs[1..], img);
      assert all[1..] == imgs[1..] + [img];
    }
  }
}
