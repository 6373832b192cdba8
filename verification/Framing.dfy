/** The serial framing of management packets, and the reader that picks a
    packet out of a line stream with log output in between. */
module Framing {
  import opened Wrappers
  import opened Bytes
  import opened Checksum
  import Base64

  const FRAME: nat := 124       // base64 letters in one frame
  const NEWLINE: byte := 10
  const RETURN: byte := 13
  const FIRST: Bytes := [6, 9]
  const CONT: Bytes := [4, 20]

  // ---------------------------------------------------------------------
  // Packets and frames
  // ---------------------------------------------------------------------

  function GetBig(b: Bytes, off: nat): nat
    requires off + 2 <= |b|
  {
    b[off] as int * 0x100 + b[off + 1] as int
  }

  /** Length, packet, checksum of the packet. */
  function Full(packet: Bytes): (r: Bytes)
    requires |packet| + 2 < 0x1_0000
    ensures |r| == |packet| + 4
  {
    Big(|packet| + 2) + packet + Big(Crc(packet))
  }

  function FrameCount(letters: nat): nat {
    (letters + (FRAME - 1)) / FRAME
  }

  /** Frame k of a packet's base64 text. */
  function FrameAt(text: Bytes, k: nat): Bytes
    requires k * FRAME <= |text|
  {
    (if k == 0 then FIRST else CONT) + text[k * FRAME..Min((k + 1) * FRAME, |text|)] + [NEWLINE]
  }

  function Frames(text: Bytes, n: nat): (r: seq<Bytes>)
    requires n <= FrameCount(|text|)
    ensures |r| == n
  {
    if n == 0 then [] else Frames(text, n - 1) + [FrameAt(text, n - 1)]
  }

  /** A packet that is too long for the length field is refused. */
  method Encode(packet: Bytes) returns (r: Option<seq<Bytes>>)
    ensures r.Some? <==> |packet| <= 65533
    ensures r.Some? ==> var text := Base64.Encoded(Full(packet)); r.value == Frames(text, FrameCount(|text|))
  {
    if |packet| + 2 > 0xFFFF {
      return None;
    }
    var text := Base64.Encoded(Full(packet));
    var frames: seq<Bytes>, pos := [], 0;
    ghost var n := 0;
    while pos < |text|
      invariant 0 <= n <= FrameCount(|text|) && pos == n * FRAME && frames == Frames(text, n)
      decreases |text| - pos
    {
      var chunk := text[pos..Min(pos + FRAME, |text|)];
      frames := frames + [(if pos == 0 then FIRST else CONT) + chunk + [NEWLINE]];
      pos := pos + FRAME;
      n := n + 1;
    }
    return Some(frames);
  }

  // ---------------------------------------------------------------------
  // Decoding
  // ---------------------------------------------------------------------

  function Stripped(b: Bytes): Bytes {
    if b != [] && (b[|b| - 1] == NEWLINE || b[|b| - 1] == RETURN) then Stripped(b[..|b| - 1]) else b
  }

  predicate Marked(line: Bytes) {
    |line| >= 2 && (line[..2] == FIRST || line[..2] == CONT)
  }

  function Payload(frames: seq<Bytes>): Bytes {
    if frames == [] then []
    else
      var last := frames[|frames| - 1];
      Payload(frames[..|frames| - 1]) + if Marked(last) then Stripped(last[2..]) else []
  }

  function Slice(b: Bytes, from: nat, until: nat): Bytes {
    if from < until && from < |b| then b[from..Min(until, |b|)] else []
  }

  /** The packet in a decoded text; none if it is too short or its checksum is
      wrong. */
  function Opened(decoded: Bytes): Option<Bytes> {
    if |decoded| < 4 then None
    else
      var n := GetBig(decoded, 0);
      var packet := Slice(decoded, 2, n);
      if n + 2 > |decoded| || GetBig(decoded, n) != Crc(packet) then None else Some(packet)
  }

  function Unframed(frames: seq<Bytes>): Option<Bytes> {
    var decoded := Base64.Decoded(Payload(frames));
    if decoded.None? then None else Opened(decoded.value)
  }

  /** The packet, if the frames so far are all of it. */
  function Complete(frames: seq<Bytes>): Option<Bytes> {
    var decoded := Base64.Decoded(Payload(frames));
    if decoded.None? || |decoded.value| < 4 || |decoded.value| < 2 + GetBig(decoded.value, 0) then None
    else Unframed(frames)
  }

  /** A whole packet is opened. */
  lemma FullOpens(packet: Bytes)
    requires |packet| <= 65533
    ensures Opened(Full(packet)) == Some(packet)
    ensures GetBig(Full(packet), 0) == |packet| + 2
  {
  }

  /** A packet that comes with one wrong byte is not taken for a packet. */
  lemma DamageIsSeen(packet: Bytes, i: nat, b: byte)
    requires |packet| <= 65533 && i < |packet| && b != packet[i]
    ensures Opened(Full(packet)[2 + i := b]) == None
  {
    var full := Full(packet)[2 + i := b];
    var damaged := packet[i := b];
    assert GetBig(full, 0) == |packet| + 2;
    assert Slice(full, 2, |packet| + 2) == damaged;
    assert GetBig(full, |packet| + 2) == Crc(packet);
    OneByteCounts(packet, damaged, i);
  }

  /** What goes out for the packet of the single byte 1: length, packet and
      checksum, their letters, and the frame. */
  lemma FullOfOne()
    ensures Full([1]) == [0, 3, 1, 0x10, 0x21]
  {
    OfOne();
    var crc := Crc([1]);
    assert Big(crc) == [0x10, 0x21];
    assert Big(3) == [0, 3];
  }

  lemma TextOfOne()
    ensures Base64.Encoded([0, 3, 1, 0x10, 0x21]) == [65, 65, 77, 66, 69, 67, 69, 61]
  {
    Base64.OneQuad(0, 3, 1, [0x10, 0x21]);
    assert [0, 3, 1] + [0x10, 0x21] == [0, 3, 1, 0x10, 0x21];
  }

  lemma FrameOfOne()
    ensures FrameAt([65, 65, 77, 66, 69, 67, 69, 61], 0) == [6, 9, 65, 65, 77, 66, 69, 67, 69, 61, 10]
  {
    TakeAll([65, 65, 77, 66, 69, 67, 69, 61]);
  }

  /** A frame has its mark in front, a newline at its end, and at most 127 bytes;
      a carriage return before the newline does no harm. */
  lemma FrameLooks(text: Bytes, k: nat)
    requires k * FRAME < |text|
    ensures var f := FrameAt(text, k);
            && 3 < |f| <= 127 && f[..2] == (if k == 0 then [6, 9] else [4, 20]) && f[|f| - 1] == 10
            && Stripped(f[..|f| - 1] + [13, 10]) == Stripped(f)
  {
    var f := FrameAt(text, k);
    var line := f[..|f| - 1];
    assert f[..2] == if k == 0 then FIRST else CONT;
    assert (line + [13, 10])[..|line| + 1] == line + [13];
    assert (line + [13])[..|line|] == line;
  }

  lemma TakeAll(text: Bytes)
    requires |text| <= FRAME
    ensures FrameAt(text, 0) == FIRST + text + [NEWLINE]
  {
    assert text[0..|text|] == text;
  }

  lemma LastStays(b: Bytes)
    requires b == [] || (b[|b| - 1] != NEWLINE && b[|b| - 1] != RETURN)
    ensures Stripped(b + [NEWLINE]) == b
  {
    var line := b + [NEWLINE];
    assert line[|line| - 1] == NEWLINE && line[..|line| - 1] == b;
    assert Stripped(b) == b;
    assert Stripped(line) == Stripped(line[..|line| - 1]);
  }

  /** No line break among the letters. */
  predicate Printable(b: Bytes) {
    NEWLINE !in b && RETURN !in b
  }

  lemma TextIsPrintable(b: Bytes)
    ensures Printable(Base64.Encoded(b))
  {
    Base64.OnlyLetters(b);
  }

  /** A frame's part of the text. */
  function Chunk(text: Bytes, k: nat): Bytes
    requires k * FRAME <= |text|
  {
    text[k * FRAME..Min((k + 1) * FRAME, |text|)]
  }

  lemma FrameCarries(text: Bytes, k: nat)
    requires k * FRAME <= |text| && Printable(text)
    ensures Marked(FrameAt(text, k)) && Stripped(FrameAt(text, k)[2..]) == Chunk(text, k)
    ensures FrameAt(text, k)[..2] == if k == 0 then FIRST else CONT
  {
    var chunk := Chunk(text, k);
    var head := if k == 0 then FIRST else CONT;
    assert FrameAt(text, k) == head + (chunk + [NEWLINE]);
    if chunk != [] {
      assert chunk[|chunk| - 1] in text;
    }
    LastStays(chunk);
  }

  lemma ChunkFollows(text: Bytes, k: nat)
    requires k < FrameCount(|text|)
    ensures k * FRAME < |text|
    ensures text[..k * FRAME] + Chunk(text, k) == text[..Min((k + 1) * FRAME, |text|)]
  {
  }

  lemma PayloadMore(frames: seq<Bytes>, frame: Bytes)
    requires Marked(frame)
    ensures Payload(frames + [frame]) == Payload(frames) + Stripped(frame[2..])
  {
  }

  /** The frames so far carry the text so far. */
  lemma {:induction false} FramesCarry(text: Bytes, j: nat)
    requires j <= FrameCount(|text|) && Printable(text)
    ensures Payload(Frames(text, j)) == text[..Min(j * FRAME, |text|)]
  {
    if j > 0 {
      FramesCarry(text, j - 1);
      ChunkFollows(text, j - 1);
      FrameCarries(text, j - 1);
      PayloadMore(Frames(text, j - 1), FrameAt(text, j - 1));
    }
  }

  lemma ThreeQuarters(n: nat, j: nat)
    requires j < FrameCount((n + 2) / 3 * 4)
    ensures 3 * (31 * j) < n && j * FRAME == 4 * (31 * j) < (n + 2) / 3 * 4
  {
  }

  lemma WholeCompletes(packet: Bytes, frames: seq<Bytes>)
    requires |packet| <= 65533 && Payload(frames) == Base64.Encoded(Full(packet))
    ensures Complete(frames) == Some(packet)
  {
    Base64.RoundTrip(Full(packet));
    FullOpens(packet);
  }

  lemma PartDoesNotComplete(packet: Bytes, frames: seq<Bytes>, m: nat)
    requires |packet| <= 65533 && 4 <= m < |packet| + 4
    requires Payload(frames) == Base64.Encoded(Full(packet)[..m])
    ensures Complete(frames) == None
  {
    Base64.RoundTrip(Full(packet)[..m]);
    FullOpens(packet);
    var part := Full(packet)[..m];
    assert GetBig(part, 0) == GetBig(Full(packet), 0);
  }

  lemma PartOfText(b: Bytes, j: nat)
    requires j < FrameCount(|Base64.Encoded(b)|)
    ensures 3 * (31 * j) < |b| && j * FRAME <= |Base64.Encoded(b)|
    ensures Base64.Encoded(b)[..j * FRAME] == Base64.Encoded(b[..3 * (31 * j)])
  {
    ThreeQuarters(|b|, j);
    Base64.PrefixEncodes(b, 31 * j);
  }

  /** Nothing is complete before the last frame, and then the packet is. */
  lemma CompleteAtTheEnd(packet: Bytes, text: Bytes, j: nat)
    requires |packet| <= 65533 && text == Base64.Encoded(Full(packet)) && 0 < j <= FrameCount(|text|)
    ensures Complete(Frames(text, j)) == if j == FrameCount(|text|) then Some(packet) else None
  {
    TextIsPrintable(Full(packet));
    FramesCarry(text, j);
    if j == FrameCount(|text|) {
      assert text[..|text|] == text;
      WholeCompletes(packet, Frames(text, j));
    } else {
      PartOfText(Full(packet), j);
      PartDoesNotComplete(packet, Frames(text, j), 3 * (31 * j));
    }
  }

  // ---------------------------------------------------------------------
  // The reader
  // ---------------------------------------------------------------------

  /** What comes out of the lines, and how many of them were read. */
  datatype Outcome = Outcome(packet: Option<Bytes>, used: nat)

  /** The frames after one more line: a first frame starts over, a continuation
      is added to what is there, log output is skipped. */
  function Next(frames: seq<Bytes>, line: Bytes): seq<Bytes> {
    if Takes(frames, line) then if line[..2] == FIRST then [line] else frames + [line] else frames
  }

  predicate Takes(frames: seq<Bytes>, line: Bytes) {
    |line| >= 2 && (line[..2] == FIRST || (line[..2] == CONT && frames != []))
  }

  /** Which lines are frames: those with the mark of a first frame, and with that
      of a continuation when there is something to continue. */
  lemma TakesWhen(frames: seq<Bytes>, line: Bytes)
    ensures Takes(frames, line) <==> [6, 9] <= line || ([4, 20] <= line && frames != [])
    ensures Next(frames, line) == if [6, 9] <= line then [line]
                                  else if [4, 20] <= line && frames != [] then frames + [line] else frames
  {
  }

  /** When no more lines come, what was not complete by its last frame is not
      complete now. */
  lemma NothingNewAtTheEnd(frames: seq<Bytes>)
    ensures Complete(frames) == Unframed(frames)
    ensures frames == [] || Complete(frames) == None ==> Response(frames, []) == Outcome(None, 0)
  {
  }

  function Response(frames: seq<Bytes>, lines: seq<Bytes>): Outcome
    decreases |lines|
  {
    if lines == [] then Outcome(if frames == [] then None else Unframed(frames), 0)
    else
      var next := Next(frames, lines[0]);
      if Takes(frames, lines[0]) && Complete(next).Some? then Outcome(Complete(next), 1)
      else
        var r := Response(next, lines[1..]);
        Outcome(r.packet, r.used + 1)
  }

  function MarkedOnly(lines: seq<Bytes>): seq<Bytes> {
    if lines == [] then []
    else (if Marked(lines[0]) then [lines[0]] else []) + MarkedOnly(lines[1..])
  }

  lemma {:induction false} SomeMarked(lines: seq<Bytes>)
    requires lines != [] && Marked(lines[|lines| - 1])
    ensures MarkedOnly(lines) != []
  {
    if |lines| > 1 {
      SomeMarked(lines[1..]);
    }
  }

  /** Frame k is taken, and only the last one makes the packet. */
  lemma FrameStep(packet: Bytes, text: Bytes, k: nat)
    requires |packet| <= 65533 && text == Base64.Encoded(Full(packet)) && k < FrameCount(|text|)
    ensures k * FRAME <= |text| && Takes(Frames(text, k), FrameAt(text, k)) && Marked(FrameAt(text, k))
    ensures Next(Frames(text, k), FrameAt(text, k)) == Frames(text, k + 1)
    ensures Complete(Frames(text, k + 1)) == if k + 1 == FrameCount(|text|) then Some(packet) else None
  {
    TextIsPrintable(Full(packet));
    ChunkFollows(text, k);
    FrameCarries(text, k);
    CompleteAtTheEnd(packet, text, k + 1);
  }

  lemma MarkedFirst(lines: seq<Bytes>, n: nat)
    requires 0 < n <= |lines|
    ensures MarkedOnly(lines[..n])
         == (if Marked(lines[0]) then [lines[0]] else []) + MarkedOnly(lines[1..][..n - 1])
  {
    assert lines[..n][1..] == lines[1..][..n - 1];
  }

  lemma NoMoreMarked(lines: seq<Bytes>, n: nat)
    requires 0 < n <= |lines| && Marked(lines[n - 1]) && MarkedOnly(lines[1..][..n - 1]) == []
    ensures n == 1
  {
    if n > 1 {
      assert lines[1..][..n - 1][n - 2] == lines[n - 1];
      SomeMarked(lines[1..][..n - 1]);
    }
  }

  /** From frame k on: the reader goes on until the last frame has come, and
      returns the packet then, whatever log lines stand in between. */
  lemma {:induction false} ReadsOn(packet: Bytes, text: Bytes, k: nat, lines: seq<Bytes>, n: nat)
    requires |packet| <= 65533 && text == Base64.Encoded(Full(packet)) && k < FrameCount(|text|)
    requires 0 < n <= |lines| && Marked(lines[n - 1])
    requires MarkedOnly(lines[..n]) == Frames(text, FrameCount(|text|))[k..]
    ensures Response(Frames(text, k), lines) == Outcome(Some(packet), n)
    decreases n
  {
    var total := FrameCount(|text|);
    var all := Frames(text, total);
    MarkedFirst(lines, n);
    if !Marked(lines[0]) {
      assert [] + MarkedOnly(lines[1..][..n - 1]) == MarkedOnly(lines[1..][..n - 1]);
      ReadsOn(packet, text, k, lines[1..], n - 1);
    } else {
      FrameIs(text, total, k);
      assert lines[0] == all[k..][0] && MarkedOnly(lines[1..][..n - 1]) == all[k..][1..] == all[k + 1..];
      FrameStep(packet, text, k);
      if k + 1 == total {
        NoMoreMarked(lines, n);
      } else {
        ReadsOn(packet, text, k + 1, lines[1..], n - 1);
      }
    }
  }

  lemma {:induction false} FrameIs(text: Bytes, n: nat, k: nat)
    requires k < n <= FrameCount(|text|)
    ensures k * FRAME <= |text| && Frames(text, n)[k] == FrameAt(text, k)
  {
    if k < n - 1 {
      FrameIs(text, n - 1, k);
    }
  }

  /** The first frame of a packet starts over, whatever frames were there. */
  lemma {:induction false} StartsOver(packet: Bytes, text: Bytes, frames: seq<Bytes>, lines: seq<Bytes>, n: nat)
    requires |packet| <= 65533 && text == Base64.Encoded(Full(packet)) && 0 < n <= |lines| && Marked(lines[n - 1])
    requires MarkedOnly(lines[..n]) == Frames(text, FrameCount(|text|))
    ensures Response(frames, lines) == Outcome(Some(packet), n)
    decreases n
  {
    MarkedFirst(lines, n);
    if !Marked(lines[0]) {
      assert [] + MarkedOnly(lines[1..][..n - 1]) == MarkedOnly(lines[1..][..n - 1]);
      StartsOver(packet, text, frames, lines[1..], n - 1);
    } else {
      var all := Frames(text, FrameCount(|text|));
      FrameIs(text, |all|, 0);
      assert lines[0] == all[0] && MarkedOnly(lines[1..][..n - 1]) == all[1..];
      AfterFirst(packet, text, frames, lines, n);
    }
  }

  lemma AfterFirst(packet: Bytes, text: Bytes, frames: seq<Bytes>, lines: seq<Bytes>, n: nat)
    requires |packet| <= 65533 && text == Base64.Encoded(Full(packet)) && 0 < n <= |lines| && Marked(lines[n - 1])
    requires lines[0] == FrameAt(text, 0) && MarkedOnly(lines[1..][..n - 1]) == Frames(text, FrameCount(|text|))[1..]
    ensures Response(frames, lines) == Outcome(Some(packet), n)
  {
    TextIsPrintable(Full(packet));
    FirstFrame(frames, text);
    FrameStep(packet, text, 0);
    assert |MarkedOnly(lines[1..][..n - 1])| == FrameCount(|text|) - 1;
    assert MarkedOnly([]) == [];
    if FrameCount(|text|) == 1 {
      NoMoreMarked(lines, n);
    } else {
      assert lines[1..][n - 2] == lines[n - 1];
      ReadsOn(packet, text, 1, lines[1..], n - 1);
    }
  }

  lemma FirstFrame(frames: seq<Bytes>, text: Bytes)
    requires text != [] && Printable(text)
    ensures Takes(frames, FrameAt(text, 0)) && Next(frames, FrameAt(text, 0)) == [FrameAt(text, 0)] == Frames(text, 1)
  {
  }

  /** Reading these lines makes a packet of some frames. */
  predicate Completes(frames: seq<Bytes>, lines: seq<Bytes>)
    decreases |lines|
  {
    && lines != []
    && var next := Next(frames, lines[0]);
       (Takes(frames, lines[0]) && Complete(next).Some?) || Completes(next, lines[1..])
  }

  function ReadBy(frames: seq<Bytes>, lines: seq<Bytes>): seq<Bytes>
    decreases |lines|
  {
    if lines == [] then frames else ReadBy(Next(frames, lines[0]), lines[1..])
  }

  lemma {:induction false} ReadsPast(frames: seq<Bytes>, before: seq<Bytes>, lines: seq<Bytes>)
    requires !Completes(frames, before)
    ensures Response(frames, before + lines) == Later(Response(ReadBy(frames, before), lines), |before|)
    decreases |before|
  {
    if before == [] {
      assert before + lines == lines;
    } else {
      assert (before + lines)[0] == before[0] && (before + lines)[1..] == before[1..] + lines;
      ReadsPast(Next(frames, before[0]), before[1..], lines);
    }
  }

  /** Whatever comes before, as long as it makes no packet of its own, and
      whatever log output comes in between and after: of the frames of a packet
      the reader makes that packet, at the last frame and not before. */
  lemma ReaderFindsThePacket(packet: Bytes, before: seq<Bytes>, lines: seq<Bytes>, n: nat)
    requires |packet| <= 65533 && 0 < n <= |lines| && Marked(lines[n - 1])
    requires var text := Base64.Encoded(Full(packet)); MarkedOnly(lines[..n]) == Frames(text, FrameCount(|text|))
    requires !Completes([], before)
    ensures Response([], before + lines) == Outcome(Some(packet), |before| + n)
  {
    ReadsPast([], before, lines);
    StartsOver(packet, Base64.Encoded(Full(packet)), ReadBy([], before), lines, n);
  }

  /** Log output makes no packet, nor does a packet that was cut off, whatever
      frames were there before it. */
  lemma {:induction false} CutOffMakesNone(packet: Bytes, k: nat, j: nat, lines: seq<Bytes>)
    requires |packet| <= 65533 && k <= j < FrameCount(|Base64.Encoded(Full(packet))|)
    requires var text := Base64.Encoded(Full(packet)); MarkedOnly(lines) == Frames(text, FrameCount(|text|))[k..j]
    ensures !Completes(Frames(Base64.Encoded(Full(packet)), k), lines)
    decreases |lines|
  {
    var text := Base64.Encoded(Full(packet));
    var all := Frames(text, FrameCount(|text|));
    if lines != [] {
      if Marked(lines[0]) {
        FrameIs(text, |all|, k);
        assert all[k..j][0] == lines[0] && all[k..j][1..] == all[k + 1..j] == MarkedOnly(lines[1..]);
        FrameStep(packet, text, k);
        CutOffMakesNone(packet, k + 1, j, lines[1..]);
      } else {
        assert [] + MarkedOnly(lines[1..]) == MarkedOnly(lines[1..]);
        CutOffMakesNone(packet, k, j, lines[1..]);
      }
    }
  }

  // ---------------------------------------------------------------------
  // The port
  // ---------------------------------------------------------------------

  function Joined(parts: seq<Bytes>): Bytes {
    if parts == [] then [] else parts[0] + Joined(parts[1..])
  }

  /** Ends with its only newline. */
  predicate IsLine(b: Bytes) {
    b != [] && b[|b| - 1] == NEWLINE && NEWLINE !in b[..|b| - 1]
  }

  predicate Lines(lines: seq<Bytes>) {
    forall l | l in lines :: IsLine(l)
  }

  /** Every frame is a line of its own. */
  lemma {:induction false} FramesAreLines(packet: Bytes, n: nat)
    requires |packet| <= 65533 && n <= FrameCount(|Base64.Encoded(Full(packet))|)
    ensures Lines(Frames(Base64.Encoded(Full(packet)), n))
  {
    var text := Base64.Encoded(Full(packet));
    if n > 0 {
      FramesAreLines(packet, n - 1);
      ChunkFollows(text, n - 1);
      TextIsPrintable(Full(packet));
      var head := if n == 1 then FIRST else CONT;
      var chunk := Chunk(text, n - 1);
      assert forall c | c in chunk :: c in text;
      assert FrameAt(text, n - 1)[..|head + chunk|] == head + chunk;
    }
  }

  lemma InsideLine(b: Bytes)
    requires IsLine(b)
    ensures forall k: nat | k < |b| - 1 :: b[k] != NEWLINE
  {
  }

  lemma NotShorter(a: Bytes, x: Bytes, b: Bytes, y: Bytes)
    requires IsLine(a) && IsLine(b) && a + x == b + y
    ensures |a| >= |b|
  {
    var s := a + x;
    InsideLine(b);
    assert s == b + y && forall k: nat | k < |b| :: s[k] == b[k];
    assert s[|a| - 1] == NEWLINE;
  }

  lemma FirstLineIsUnique(a: Bytes, x: Bytes, b: Bytes, y: Bytes)
    requires IsLine(a) && IsLine(b) && a + x == b + y
    ensures a == b && x == y
  {
    NotShorter(a, x, b, y);
    NotShorter(b, y, a, x);
    assert a == (a + x)[..|a|] && x == (a + x)[|a|..];
    assert b == (b + y)[..|b|] && y == (b + y)[|b|..];
  }

  class Port {
    var rxbuf: Bytes
    var arriving: seq<Bytes>    // what the next reads get, before the deadline

    function Stream(): Bytes
      reads this
    {
      rxbuf + Joined(arriving)
    }

    constructor (arriving: seq<Bytes>)
      ensures Stream() == Joined(arriving)
    {
      rxbuf, this.arriving := [], arriving;
    }

    /** The next line, however it arrives in pieces; none if it does not come
        in time. */
    method ReadLine() returns (line: Option<Bytes>)
      modifies this
      ensures line.Some? ==> IsLine(line.value) && old(Stream()) == line.value + Stream()
      ensures line.None? ==> NEWLINE !in old(Stream()) && Stream() == old(Stream())
    {
      while true
        invariant Stream() == old(Stream())
        decreases |arriving|
      {
        var i := 0;
        while i < |rxbuf| && rxbuf[i] != NEWLINE
          invariant 0 <= i <= |rxbuf| && NEWLINE !in rxbuf[..i]
        {
          i := i + 1;
        }
        if i < |rxbuf| {
          line := Some(rxbuf[..i + 1]);
          assert line.value[..i] == rxbuf[..i];
          assert rxbuf == rxbuf[..i + 1] + rxbuf[i + 1..];
          rxbuf := rxbuf[i + 1..];
          return;
        }
        if arriving == [] {
          return None;
        }
        assert rxbuf + (arriving[0] + Joined(arriving[1..])) == rxbuf + arriving[0] + Joined(arriving[1..]);
        rxbuf, arriving := rxbuf + arriving[0], arriving[1..];
      }
    }

    /** The reader makes of the stream what `Response` makes of its lines, and
        leaves the rest of the stream alone. */
    method ReadResponse(ghost lines: seq<Bytes>, ghost rest: Bytes) returns (packet: Option<Bytes>)
      requires Lines(lines) && NEWLINE !in rest && Stream() == Joined(lines) + rest
      modifies this
      ensures packet == Response([], lines).packet
      ensures Response([], lines).used <= |lines| && Stream() == Joined(lines[Response([], lines).used..]) + rest
    {
      var frames: seq<Bytes> := [];
      ghost var k := 0;
      while true
        invariant 0 <= k <= |lines| && Stream() == Joined(lines[k..]) + rest
        invariant Response([], lines) == Later(Response(frames, lines[k..]), k)
        decreases |lines| - k
      {
        ghost var before := Stream();
        var line := ReadLine();
        if line.None? {
          StreamEmpty(lines[k..], rest);
          packet := if frames == [] then None else Unframed(frames);
          return;
        }
        NextLine(lines[k..], rest, line.value, Stream());
        assert lines[k..][1..] == lines[k + 1..];
        k := k + 1;
        if Takes(frames, line.value) {
          frames := Next(frames, line.value);
          packet := Complete(frames);
          if packet.Some? {
            return;
          }
        }
      }
    }
  }

  function Later(o: Outcome, k: nat): Outcome {
    Outcome(o.packet, o.used + k)
  }

  lemma LineHasNewline(l: Bytes, x: Bytes)
    requires IsLine(l)
    ensures NEWLINE in l + x
  {
  }

  lemma LineInStream(lines: seq<Bytes>, rest: Bytes)
    requires Lines(lines) && lines != []
    ensures NEWLINE in Joined(lines) + rest
  {
    assert lines[0] in lines;
    var x := Joined(lines[1..]) + rest;
    assert Joined(lines) + rest == lines[0] + x;
    LineHasNewline(lines[0], x);
  }

  lemma StreamEmpty(lines: seq<Bytes>, rest: Bytes)
    requires Lines(lines) && NEWLINE !in Joined(lines) + rest
    ensures lines == []
  {
    if lines != [] {
      LineInStream(lines, rest);
    }
  }

  lemma NextLine(lines: seq<Bytes>, rest: Bytes, line: Bytes, after: Bytes)
    requires Lines(lines) && NEWLINE !in rest && IsLine(line) && Joined(lines) + rest == line + after
    ensures lines != [] && line == lines[0] && after == Joined(lines[1..]) + rest
  {
    if lines == [] {
      assert Joined(lines) + rest == rest;
      LineHasNewline(line, after);
    } else {
      var x := Joined(lines[1..]) + rest;
      assert lines[0] in lines && Joined(lines) + rest == lines[0] + x;
      FirstLineIsUnique(lines[0], x, line, after);
    }
  }
}
