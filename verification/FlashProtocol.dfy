/** What the flash server makes of the bytes on its line: "RVFLASH1", a length and a
    CRC-32, then the bytes of a BOOT.BIN. */
module FlashProtocol {
  import opened Bytes
  import opened Crc
  import opened BootBin
  import opened FlashDevice

  const MAGIC: seq<byte> := [0x52, 0x56, 0x46, 0x4c, 0x41, 0x53, 0x48, 0x31]

  /** One byte into the matcher: m bytes of the magic have been seen. */
  function Match(m: nat, c: byte): (k: nat)
    requires m < 8
    ensures k <= 8
  {
    if c == MAGIC[m] then m + 1 else if c == MAGIC[0] then 1 else 0
  }

  /** The matcher after the bytes s; a complete match starts it afresh. */
  function Follow(s: seq<byte>): (k: nat)
    ensures k <= 8
  {
    if s == [] then 0 else
    var m := Follow(s[..|s| - 1]);
    Match(if m == 8 then 0 else m, s[|s| - 1])
  }

  /** s ends with the first k bytes of the magic. */
  predicate EndsWith(s: seq<byte>, k: nat) {
    k <= 8 && k <= |s| && s[|s| - k..] == MAGIC[..k]
  }

  lemma EndsWithLast(s: seq<byte>, k: nat)
    requires s != [] && 0 < k <= 8
    ensures EndsWith(s, k) <==> EndsWith(s[..|s| - 1], k - 1) && s[|s| - 1] == MAGIC[k - 1]
  {
    var p, c := s[..|s| - 1], s[|s| - 1];
    if k <= |s| {
      assert s[|s| - k..] == p[|p| - (k - 1)..] + [c];
      assert MAGIC[..k] == MAGIC[..k - 1] + [MAGIC[k - 1]];
      assert s[|s| - k..][..k - 1] == p[|p| - (k - 1)..];
    }
  }

  /** No proper part of the magic starts again inside it. */
  lemma NoBorder(s: seq<byte>, j: nat, k: nat)
    requires 0 < j < k && EndsWith(s, k)
    ensures !EndsWith(s, j)
  {
    assert s[|s| - k..][k - j] == MAGIC[..k][k - j];
    assert s[|s| - j] == MAGIC[k - j] != MAGIC[0];
    assert s[|s| - j..][0] != MAGIC[..j][0];
  }

  /** The matcher holds the longest beginning of the magic that has just been seen, so it
      never misses one and never sees one that is not there. */
  lemma {:induction false} MatcherIsExact(s: seq<byte>)
    ensures EndsWith(s, Follow(s))
    ensures forall j {:trigger EndsWith(s, j)} | Follow(s) < j <= 8 :: !EndsWith(s, j)
  {
    hide EndsWith;
    if s == [] {
      assert EndsWith([], 0) && forall j {:trigger EndsWith([], j)} | 0 < j :: !EndsWith([], j) by { NothingEnds(); }
    } else {
      var p, c := s[..|s| - 1], s[|s| - 1];
      MatcherIsExact(p);
      var m := Follow(p);
      forall j {:trigger EndsWith(s, j)} | Follow(s) < j <= 8 ensures !EndsWith(s, j) {
        EndsWithLast(s, j);
        if 0 < j - 1 < m { NoBorder(p, j - 1, m); }
      }
      if Follow(s) == 0 { EndsWithNone(s); } else {
        EndsWithLast(s, Follow(s));
        EndsWithNone(p);
      }
    }
  }

  lemma EndsWithNone(s: seq<byte>)
    ensures EndsWith(s, 0)
  {
  }

  lemma NothingEnds()
    ensures EndsWith([], 0) && forall j {:trigger EndsWith([], j)} | 0 < j :: !EndsWith([], j)
  {
  }

  // ---- a record ----

  /** What serve_flash makes of the bytes after the magic. */
  datatype Answer = Waiting | LengthOut | CrcFailed | NotBootBin(why: Verdict) | Takes(img: seq<byte>)

  function Judge(img: seq<byte>, crc: word): Answer {
    if CrcWord(img) != crc then CrcFailed
    else if Parse(img).0 != Accepted then NotBootBin(Parse(img).0)
    else Takes(img)
  }

  /** The answer and the bytes left on the line. */
  function Serve(line: seq<byte>): (r: (Answer, seq<byte>))
    ensures |r.1| <= |line|
  {
    if |line| < 8 then (Waiting, []) else
    var n, crc := Le32(line, 0), Le32(line, 4);
    if n < 0xa0 || n > FLASH_BYTES then (LengthOut, line[8..])
    else if |line| < 8 + n then (Waiting, [])
    else (Judge(line[8..8 + n], crc), line[8 + n..])
  }

  /** The images written, in order, over a whole run of the server's loop. */
  function Written(line: seq<byte>, m: nat): (imgs: seq<seq<byte>>)
    requires m < 8
    decreases |line|
  {
    if line == [] then [] else
    var k := Match(m, line[0]);
    if k < 8 then Written(line[1..], k) else
    var (a, rest) := Serve(line[1..]);
    (if a.Takes? then [a.img] else []) + Written(rest, 0)
  }

  predicate Flashable(img: seq<byte>) { 0xa0 <= |img| <= FLASH_BYTES && Parse(img).0 == Accepted }

  /** Whatever is on the line, only images that boot are written. */
  lemma {:induction false} OnlyFlashable(line: seq<byte>, m: nat)
    requires m < 8
    ensures forall i | 0 <= i < |Written(line, m)| :: Flashable(Written(line, m)[i])
    decreases |line|
  {
    hide Parse, Le32, CrcWord;
    if line != [] {
      var k := Match(m, line[0]);
      if k < 8 { OnlyFlashable(line[1..], k); } else { OnlyFlashable(Serve(line[1..]).1, 0); }
    }
  }

  /** Behind the magic that ends with the first k bytes of the line stand the length of the
      image, its CRC and the image. */
  predicate RecordAt(pre: seq<byte>, line: seq<byte>, k: nat, img: seq<byte>) {
    && k + 8 + |img| <= |line| && EndsWith(pre + line[..k], 8)
    && Le32(line, k) == |img| && Le32(line, k + 4) == CrcWord(img) && line[k + 8..k + 8 + |img|] == img
  }

  ghost predicate Carried(pre: seq<byte>, line: seq<byte>, img: seq<byte>) { exists k: nat :: RecordAt(pre, line, k, img) }

  /** Whatever is on the line: each image written is that of a record there, with its length
      and its CRC, and it boots. */
  lemma {:induction false} OnlyRecords(pre: seq<byte>, line: seq<byte>)
    requires !EndsWith(pre, 8)
    ensures Follow(pre) < 8
    ensures forall i | 0 <= i < |Written(line, Follow(pre))| :: Flashable(Written(line, Follow(pre))[i]) && Carried(pre, line, Written(line, Follow(pre))[i])
    decreases |line|
  {
    hide EndsWith, Match, Follow, Serve, Flashable, Carried;
    FollowMagic(pre);
    if line != [] {
      var m, next, rest := Follow(pre), pre + [line[0]], line[1..];
      FollowStep(pre, line[0]);
      FollowMagic(next);
      if Match(m, line[0]) < 8 {
        OnlyRecords(next, rest);
        forall img | Carried(next, rest, img) ensures Carried(pre, line, img) { CarriedLater(pre, line, 1, next, img); }
      } else {
        var (a, after) := Serve(rest);
        var j := ServedUpTo(pre, line);
        EmptyFollows();
        OnlyRecords([], after);
        forall img | Carried([], after, img) ensures Carried(pre, line, img) { CarriedLater(pre, line, j, [], img); }
      }
    }
  }

  lemma EmptyFollows()
    ensures Follow([]) == 0 && !EndsWith([], 8)
  {
  }

  /** What is carried by the rest of the line is carried by the line. */
  lemma CarriedLater(pre: seq<byte>, line: seq<byte>, j: nat, from: seq<byte>, img: seq<byte>)
    requires j <= |line| && Carried(from, line[j..], img) && (from == [] || from == pre + line[..j])
    ensures Carried(pre, line, img)
  {
    hide Le32, EndsWith, CrcWord;
    var k: nat :| RecordAt(from, line[j..], k, img);
    MagicLater(pre, line, j, from, k);
    DataLater(line, j, k, img);
    assert RecordAt(pre, line, j + k, img);
  }

  lemma MagicLater(pre: seq<byte>, line: seq<byte>, j: nat, from: seq<byte>, k: nat)
    requires j + k <= |line| && EndsWith(from + line[j..][..k], 8) && (from == [] || from == pre + line[..j])
    ensures EndsWith(pre + line[..j + k], 8)
  {
    hide EndsWith;
    var s := line[j..][..k];
    assert pre + line[..j + k] == pre + line[..j] + s;
    if from == [] {
      assert [] + s == s;
      EndsLater(pre + line[..j], s);
    }
  }

  lemma DataLater(line: seq<byte>, j: nat, k: nat, img: seq<byte>)
    requires j <= |line| && k + 8 + |img| <= |line[j..]|
    ensures Le32(line[j..], k) == Le32(line, j + k) && Le32(line[j..], k + 4) == Le32(line, j + k + 4)
    ensures line[j..][k + 8..k + 8 + |img|] == line[j + k + 8..j + k + 8 + |img|]
  {
    hide Le32;
    Le32Within(line, j, k);
    Le32Within(line, j, k + 4);
    SliceSlice(line, j, |line|, k + 8, k + 8 + |img|);
    assert line[j..] == line[j..|line|];
  }

  lemma EndsLater(pre: seq<byte>, s: seq<byte>)
    ensures EndsWith(s, 8) ==> EndsWith(pre + s, 8)
  {
    if EndsWith(s, 8) { assert (pre + s)[|pre + s| - 8..] == s[|s| - 8..]; }
  }

  lemma Le32Within(line: seq<byte>, j: nat, k: nat)
    requires j + k + 4 <= |line|
    ensures Le32(line[j..], k) == Le32(line, j + k)
  {
  }

  /** After a magic: how far serve_flash reads, and the record that it takes. */
  lemma ServedUpTo(pre: seq<byte>, line: seq<byte>) returns (j: nat)
    requires line != [] && EndsWith(pre + [line[0]], 8)
    ensures j <= |line| && Serve(line[1..]).1 == line[j..]
    ensures var a := Serve(line[1..]).0; a.Takes? ==> Flashable(a.img) && Carried(pre, line, a.img)
  {
    hide EndsWith, CrcWord, Parse;
    var rest := line[1..];
    j := |line|;
    if |rest| >= 8 {
      var n: int := Le32(rest, 0);
      if n < 0xa0 || n > FLASH_BYTES { j := 9; }
      else if |rest| >= 8 + n {
        j := 9 + n;
        Le32Within(line, 1, 0); Le32Within(line, 1, 4);
        assert rest[8..8 + n] == line[9..9 + n];
        assert line[..1] == [line[0]];
        if Serve(rest).0.Takes? { assert RecordAt(pre, line, 1, line[9..9 + n]); }
      }
    }
  }

  /** The record that the sender puts on the line. */
  function Record(img: seq<byte>): seq<byte>
    requires |img| < WORD
  {
    MAGIC + LeBytes(|img|) + LeBytes(CrcWord(img)) + img
  }

  /** No magic ends anywhere in s after pre. */
  predicate Quiet(pre: seq<byte>, s: seq<byte>) {
    forall k {:trigger s[..k]} | 0 < k <= |s| :: !EndsWith(pre + s[..k], 8)
  }

  lemma FollowMagic(s: seq<byte>)
    ensures Follow(s) == 8 <==> EndsWith(s, 8)
  {
    MatcherIsExact(s);
  }

  lemma FollowStep(s: seq<byte>, c: byte)
    requires !EndsWith(s, 8)
    ensures Follow(s) < 8 && Follow(s + [c]) == Match(Follow(s), c)
  {
    hide EndsWith, Match;
    FollowMagic(s);
    assert (s + [c])[..|s|] == s;
  }

  /** Bytes in which no magic ends write nothing. */
  lemma {:induction false} SkipQuiet(pre: seq<byte>, s: seq<byte>, rest: seq<byte>)
    requires !EndsWith(pre, 8) && Quiet(pre, s)
    ensures Follow(pre) < 8 && Follow(pre + s) < 8
    ensures Written(s + rest, Follow(pre)) == Written(rest, Follow(pre + s))
    decreases |s|
  {
    hide EndsWith, Match, Serve;
    FollowMagic(pre);
    if s == [] {
      assert pre + s == pre && s + rest == rest;
    } else {
      var c := s[0];
      FollowStep(pre, c);
      assert s[..1] == [c];
      FollowMagic(pre + [c]);
      QuietTail(pre, s);
      SkipQuiet(pre + [c], s[1..], rest);
      assert pre + [c] + s[1..] == pre + s;
      assert (s + rest)[0] == c && (s + rest)[1..] == s[1..] + rest;
    }
  }

  lemma QuietTail(pre: seq<byte>, s: seq<byte>)
    requires s != [] && Quiet(pre, s)
    ensures Quiet(pre + [s[0]], s[1..]) && !EndsWith(pre + [s[0]], 8)
  {
    hide EndsWith;
    assert s[..1] == [s[0]];
    forall k {:trigger s[1..][..k]} | 0 < k <= |s[1..]| ensures !EndsWith(pre + [s[0]] + s[1..][..k], 8) {
      assert pre + [s[0]] + s[1..][..k] == pre + s[..k + 1];
    }
  }

  /** A magic cannot end inside the first seven bytes of another. */
  lemma QuietUntilMagic(noise: seq<byte>)
    requires Quiet([], noise)
    ensures Quiet([], noise + MAGIC[..7])
  {
    hide EndsWith;
    var s := noise + MAGIC[..7];
    forall k {:trigger s[..k]} | 0 < k <= |s| ensures !EndsWith([] + s[..k], 8) {
      assert [] + s[..k] == s[..k];
      if k <= |noise| { assert s[..k] == noise[..k] == [] + noise[..k]; }
      else {
        var j := k - |noise|;
        assert s[..k] == noise + MAGIC[..j];
        EndsHere(noise, j);
        if EndsWith(s[..k], 8) { NoBorder(s[..k], j, 8); }
      }
    }
  }

  lemma EndsHere(noise: seq<byte>, j: nat)
    requires j <= 8
    ensures EndsWith(noise + MAGIC[..j], j)
  {
  }

  /** A record is taken off the line whole. */
  lemma ServeRecord(img: seq<byte>, more: seq<byte>)
    requires Flashable(img)
    ensures Serve(LeBytes(|img|) + LeBytes(CrcWord(img)) + img + more) == (Takes(img), more)
  {
    hide Parse, CrcWord, Le32, LeBytes;
    var a, b := LeBytes(|img|), LeBytes(CrcWord(img));
    var line := a + b + img + more;
    assert line[0..4] == a && line[4..8] == b;
    Le32Slice(line, 0); Le32Slice(line, 4);
    assert line[8..8 + |img|] == img && line[8 + |img|..] == more;
  }

  /** Whatever noise comes first, as long as it holds no magic of its own, a record is
      written exactly once, and the server is listening again behind it. */
  lemma RecordIsWritten(noise: seq<byte>, img: seq<byte>, more: seq<byte>)
    requires Quiet([], noise) && Flashable(img)
    ensures Written(noise + Record(img) + more, 0) == [img] + Written(more, 0)
  {
    hide Parse, CrcWord, LeBytes, EndsWith, Quiet, Serve;
    var s, body := noise + MAGIC[..7], LeBytes(|img|) + LeBytes(CrcWord(img)) + img + more;
    var rest := [MAGIC[7]] + body;
    assert noise + Record(img) + more == s + rest by { assert MAGIC == MAGIC[..7] + [MAGIC[7]]; }
    QuietUntilMagic(noise);
    FollowMagic([]);
    SkipQuiet([], s, rest);
    assert [] + s == s;
    assert s + [MAGIC[7]] == noise + MAGIC[..8] by { assert MAGIC == MAGIC[..7] + [MAGIC[7]] == MAGIC[..8]; }
    EndsHere(noise, 8);
    FollowMagic(s + [MAGIC[7]]);
    FollowMagic(s);
    FollowStep(s, MAGIC[7]);
    assert rest[0] == MAGIC[7] && rest[1..] == body;
    ServeRecord(img, more);
  }
}
