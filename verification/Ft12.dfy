/** The resynchronising receive buffer for FT1.2 frames (section 6.2.4.2 of IEC 60870-5-1) of the
    IEC 103 client: fixed frames begin with 0x10, variable ones with 0x68. */
module Ft12 {
  import opened Bytes

  const FIXED_START: byte := 0x10
  const VARIABLE_START: byte := 0x68
  const FRAME_END: byte := 0x16

  predicate IsStart(b: byte) {
    b == FIXED_START || b == VARIABLE_START
  }

  // ----- frames -----

  predicate IsFixedFrame(frame: bytes, linkAddressSize: nat) {
    && linkAddressSize <= 2
    && |frame| == 4 + linkAddressSize
    && frame[0] == FIXED_START && frame[|frame| - 1] == FRAME_END
    && frame[|frame| - 2] == Checksum(frame[1..|frame| - 2])
  }

  predicate IsVariableFrame(frame: bytes) {
    && |frame| >= 6
    && frame[0] == VARIABLE_START && frame[|frame| - 1] == FRAME_END
    && frame[1] == frame[2] && frame[3] == VARIABLE_START
    && |frame| == frame[1] as int + 6
    && frame[|frame| - 2] == Checksum(frame[4..|frame| - 2])
  }

  predicate IsFrame(frame: bytes, linkAddressSize: nat) {
    if frame == [] then false
    else if frame[0] == FIXED_START then IsFixedFrame(frame, linkAddressSize) else IsVariableFrame(frame)
  }

  // ----- parsing a buffer -----

  /** The buffer from its first start byte on. */
  function Trim(b: bytes): (r: bytes)
    ensures |r| <= |b|
    ensures r != [] ==> IsStart(r[0])
    ensures b != [] && IsStart(b[0]) ==> r == b
  {
    if b != [] && !IsStart(b[0]) then Trim(b[1..]) else b
  }

  /** What a buffer that begins with a start byte calls for: more bytes, dropping a false start, or
      taking a block of some size off. */
  datatype Action = Wait | Drop | Take(size: nat)

  function Next(b: bytes, linkAddressSize: nat): (a: Action)
    requires b != [] && IsStart(b[0])
    ensures a.Take? ==> 0 < a.size <= |b|
  {
    if b[0] == FIXED_START then (if |b| < 4 + linkAddressSize then Wait else Take(4 + linkAddressSize))
    else if |b| < 4 then Wait
    else if b[1] != b[2] || b[3] != VARIABLE_START then Drop
    else if |b| < b[1] as int + 6 then Wait
    else Take(b[1] as int + 6)
  }

  datatype Extraction = Extraction(frames: seq<bytes>, rest: bytes)

  function Emit(frame: bytes, linkAddressSize: nat): seq<bytes> {
    if IsFrame(frame, linkAddressSize) then [frame] else []
  }

  /** All frames of a buffer, and what has to wait for more bytes. */
  function ParseAll(b: bytes, linkAddressSize: nat): (r: Extraction)
    decreases |b|
  {
    var t := Trim(b);
    if t == [] then Extraction([], [])
    else
      match Next(t, linkAddressSize)
      case Wait => Extraction([], t)
      case Drop => ParseAll(t[1..], linkAddressSize)
      case Take(n) =>
        var more := ParseAll(t[n..], linkAddressSize);
        Extraction(Emit(t[..n], linkAddressSize) + more.frames, more.rest)
  }

  /** At most `limit` frames of a buffer; the rest stays. */
  function ParseSome(b: bytes, linkAddressSize: nat, limit: nat): (r: Extraction)
    ensures |r.frames| <= limit
    decreases |b|
  {
    if b == [] || limit == 0 then Extraction([], b)
    else
      var t := Trim(b);
      if t == [] then Extraction([], [])
      else
        match Next(t, linkAddressSize)
        case Wait => Extraction([], t)
        case Drop => ParseSome(t[1..], linkAddressSize, limit)
        case Take(n) =>
          var frames := Emit(t[..n], linkAddressSize);
          var more := ParseSome(t[n..], linkAddressSize, limit - |frames|);
          Extraction(frames + more.frames, more.rest)
  }

  // ----- independence of chunking -----

  lemma {:induction false} TrimAppend(b: bytes, c: bytes)
    ensures Trim(b + c) == if Trim(b) == [] then Trim(c) else Trim(b) + c
  {
    if b == [] {
      assert b + c == c;
    } else if IsStart(b[0]) {
      assert (b + c)[0] == b[0];
    } else {
      assert (b + c)[0] == b[0] && (b + c)[1..] == b[1..] + c;
      TrimAppend(b[1..], c);
    }
  }

  /** More bytes never change a decision that did not wait. */
  lemma NextAppend(t: bytes, c: bytes, linkAddressSize: nat)
    requires t != [] && IsStart(t[0]) && !Next(t, linkAddressSize).Wait?
    ensures Next(t + c, linkAddressSize) == Next(t, linkAddressSize)
  {
  }

  ghost function Prepend(frames: seq<bytes>, e: Extraction): Extraction {
    Extraction(frames + e.frames, e.rest)
  }

  lemma {:induction false} TrimTwice(b: bytes)
    ensures Trim(Trim(b)) == Trim(b)
  {
    hide Trim;
    if Trim(b) == [] {
      EmptyTrim();
    }
  }

  lemma EmptyTrim()
    ensures Trim([]) == []
  {
  }

  lemma {:induction false} ParseTrimmed(b: bytes, linkAddressSize: nat)
    ensures ParseAll(Trim(b), linkAddressSize) == ParseAll(b, linkAddressSize)
  {
    hide Trim, Next;
    TrimTwice(b);
  }

  /** Taking some frames off now and the rest later, with more bytes in between, gives what parsing
      everything at once gives. */
  lemma {:induction false} ParseSomeThenRest(b: bytes, c: bytes, linkAddressSize: nat, limit: nat)
    ensures var some := ParseSome(b, linkAddressSize, limit);
            ParseAll(b + c, linkAddressSize) == Prepend(some.frames, ParseAll(some.rest + c, linkAddressSize))
    decreases |b|
  {
    hide Trim, Next, Emit, ParseAll, Prepend;
    var some := ParseSome(b, linkAddressSize, limit);
    PrependNothing(ParseAll(some.rest + c, linkAddressSize));
    if b == [] || limit == 0 {
    } else {
      var t := Trim(b);
      TrimAppend(b, c);
      if t == [] {
        ParseTrimmed(c, linkAddressSize);
        ParseTrimmed(b + c, linkAddressSize);
        assert [] + c == c;
      } else {
        ParseTrimmed(b + c, linkAddressSize);
        match Next(t, linkAddressSize)
        case Wait =>
        case Drop =>
          FirstStep(t, c, linkAddressSize);
          ParseSomeThenRest(t[1..], c, linkAddressSize, limit);
        case Take(n) =>
          FirstStep(t, c, linkAddressSize);
          var frames := Emit(t[..n], linkAddressSize);
          EmitsAtMostOne(t[..n], linkAddressSize);
          ParseSomeThenRest(t[n..], c, linkAddressSize, limit - |frames|);
          var more := ParseSome(t[n..], linkAddressSize, limit - |frames|);
          PrependTwice(frames, more.frames, ParseAll(more.rest + c, linkAddressSize));
      }
    }
  }

  /** One turn of the extraction loop, with `frames` taken before. */
  lemma SomeStep(frames: seq<bytes>, b: bytes, linkAddressSize: nat, room: nat)
    requires b != [] && room > 0
    ensures var t := Trim(b);
            Prepend(frames, ParseSome(b, linkAddressSize, room))
            == if t == [] then Extraction(frames, [])
               else
                 match Next(t, linkAddressSize)
                 case Wait => Extraction(frames, t)
                 case Drop => Prepend(frames, ParseSome(t[1..], linkAddressSize, room))
                 case Take(n) =>
                   Prepend(frames + Emit(t[..n], linkAddressSize),
                           ParseSome(t[n..], linkAddressSize, room - |Emit(t[..n], linkAddressSize)|))
  {
    hide Trim, Next, IsFrame;
    assert frames + [] == frames;
  }

  lemma SomeEnds(frames: seq<bytes>, b: bytes, linkAddressSize: nat, room: nat)
    requires b == [] || room == 0
    ensures Prepend(frames, ParseSome(b, linkAddressSize, room)) == Extraction(frames, b)
  {
    assert frames + [] == frames;
  }

  lemma PrependNothing(e: Extraction)
    ensures Prepend([], e) == e
  {
  }

  lemma PrependTwice(a: seq<bytes>, b: seq<bytes>, e: Extraction)
    ensures Prepend(a, Prepend(b, e)) == Prepend(a + b, e)
  {
    assert a + (b + e.frames) == a + b + e.frames;
  }

  lemma EmitsAtMostOne(frame: bytes, linkAddressSize: nat)
    ensures |Emit(frame, linkAddressSize)| <= 1
  {
  }

  /** One step of parsing, with more bytes behind. */
  lemma {:induction false} FirstStep(t: bytes, c: bytes, linkAddressSize: nat)
    requires t != [] && IsStart(t[0]) && !Next(t, linkAddressSize).Wait?
    ensures ParseAll(t + c, linkAddressSize) ==
              match Next(t, linkAddressSize)
              case Drop => ParseAll(t[1..] + c, linkAddressSize)
              case Take(n) => Prepend(Emit(t[..n], linkAddressSize), ParseAll(t[n..] + c, linkAddressSize))
              case Wait => Extraction([], t)
  {
    hide Next, Emit, Trim;
    NextAppend(t, c, linkAddressSize);
    assert (t + c)[0] == t[0];
    match Next(t, linkAddressSize)
    case Drop => assert (t + c)[1..] == t[1..] + c;
    case Take(n) => assert (t + c)[n..] == t[n..] + c && (t + c)[..n] == t[..n];
    case Wait =>
  }

  // ----- what is emitted -----

  /** The frame stands in the buffer at `pos`, before `end`. */
  predicate StandsAt(b: bytes, linkAddressSize: nat, frame: bytes, pos: nat, end: nat)
    requires end <= |b|
  {
    IsFrame(frame, linkAddressSize) && pos + |frame| <= end && b[pos..pos + |frame|] == frame
  }

  /** The frames stand in the buffer at the positions `at`, one behind the other, before the rest. */
  ghost predicate Located(b: bytes, linkAddressSize: nat, e: Extraction, at: seq<nat>) {
    && |at| == |e.frames| && |e.rest| <= |b| && e.rest == b[|b| - |e.rest|..]
    && (forall k :: 0 <= k < |at| ==> StandsAt(b, linkAddressSize, e.frames[k], at[k], |b| - |e.rest|))
    && (forall j, k :: 0 <= j < k < |at| ==> at[j] + |e.frames[j]| <= at[k])
  }

  function Shifted(at: seq<nat>, o: nat): (r: seq<nat>)
    ensures |r| == |at|
  {
    seq(|at|, i requires 0 <= i < |at| => at[i] + o)
  }

  /** Positions in a suffix, seen from the whole. */
  lemma LocatedInSuffix(b: bytes, o: nat, linkAddressSize: nat, e: Extraction, at: seq<nat>)
    requires o <= |b| && Located(b[o..], linkAddressSize, e, at)
    ensures Located(b, linkAddressSize, e, Shifted(at, o)) && o + |e.rest| <= |b|
  {
    hide IsFrame;
    var c, end := b[o..], |b| - |e.rest|;
    assert c[|c| - |e.rest|..] == b[end..];
    forall k | 0 <= k < |at|
      ensures StandsAt(b, linkAddressSize, e.frames[k], at[k] + o, end)
    {
      assert StandsAt(c, linkAddressSize, e.frames[k], at[k], |c| - |e.rest|);
      assert b[at[k] + o..at[k] + o + |e.frames[k]|] == c[at[k]..at[k] + |e.frames[k]|];
    }
  }

  lemma {:induction false} TrimIsSuffix(b: bytes)
    ensures Trim(b) == b[|b| - |Trim(b)|..]
  {
    if b != [] && !IsStart(b[0]) {
      TrimIsSuffix(b[1..]);
    }
  }

  /** Nothing but frames of the buffer is emitted: disjoint pieces of it, in order, each with correct markers,
      lengths and checksum; what is left is its end. */
  lemma {:induction false} EmitsFramesOfBuffer(b: bytes, linkAddressSize: nat) returns (at: seq<nat>)
    ensures Located(b, linkAddressSize, ParseAll(b, linkAddressSize), at)
    decreases |b|
  {
    hide Trim, Next, Emit, Located;
    var t := Trim(b);
    TrimIsSuffix(b);
    var o := |b| - |t|;
    if t == [] {
      at := [];
      NothingLocated(b, linkAddressSize, []);
    } else {
      match Next(t, linkAddressSize)
      case Wait =>
        at := [];
        NothingLocated(b, linkAddressSize, t);
      case Drop =>
        at := EmitsFramesOfBuffer(t[1..], linkAddressSize);
        at := BehindBlock(b, o, 1, linkAddressSize, ParseAll(t[1..], linkAddressSize), at, t);
      case Take(n) =>
        at := EmitsFramesOfBuffer(t[n..], linkAddressSize);
        at := BehindFrame(b, o, n, linkAddressSize, ParseAll(t[n..], linkAddressSize), at, t);
    }
  }

  /** Positions behind the first `n` bytes of the suffix `t` at `o`. */
  lemma BehindBlock(b: bytes, o: nat, n: nat, linkAddressSize: nat, more: Extraction, at: seq<nat>, t: bytes)
    returns (spots: seq<nat>)
    requires o + n <= |b| && t == b[o..] && Located(t[n..], linkAddressSize, more, at)
    ensures spots == Shifted(at, o + n) && Located(b, linkAddressSize, more, spots) && o + n + |more.rest| <= |b|
  {
    hide Located;
    assert t[n..] == b[o + n..];
    LocatedInSuffix(b, o + n, linkAddressSize, more, at);
    spots := Shifted(at, o + n);
  }

  lemma BehindFrame(b: bytes, o: nat, n: nat, linkAddressSize: nat, more: Extraction, at: seq<nat>, t: bytes)
    returns (spots: seq<nat>)
    requires o + n <= |b| && t == b[o..] && Located(t[n..], linkAddressSize, more, at)
    ensures Located(b, linkAddressSize, Extraction(Emit(t[..n], linkAddressSize) + more.frames, more.rest), spots)
  {
    hide Located, IsFrame;
    spots := BehindBlock(b, o, n, linkAddressSize, more, at, t);
    assert t[..n] == b[o..o + n];
    if IsFrame(t[..n], linkAddressSize) {
      LocatedFirst(b, o, n, linkAddressSize, more, at);
      spots := [o] + spots;
    } else {
      assert [] + more.frames == more.frames;
    }
  }

  lemma NothingLocated(b: bytes, linkAddressSize: nat, rest: bytes)
    requires |rest| <= |b| && rest == b[|b| - |rest|..]
    ensures Located(b, linkAddressSize, Extraction([], rest), [])
  {
  }

  lemma LocatedFirst(b: bytes, o: nat, n: nat, linkAddressSize: nat, more: Extraction, at: seq<nat>)
    requires o + n <= |b| && o + n + |more.rest| <= |b| && IsFrame(b[o..o + n], linkAddressSize)
    requires Located(b, linkAddressSize, more, Shifted(at, o + n))
    ensures Located(b, linkAddressSize, Extraction([b[o..o + n]] + more.frames, more.rest), [o] + Shifted(at, o + n))
  {
    hide IsFrame, StandsAt;
    var first, shifted := b[o..o + n], Shifted(at, o + n);
    FirstStands(b, o, n, linkAddressSize, |b| - |more.rest|);
    AllStand(b, linkAddressSize, first, more.frames, o, shifted, |b| - |more.rest|);
    InOrder(first, more.frames, o, shifted);
  }

  lemma FirstStands(b: bytes, o: nat, n: nat, linkAddressSize: nat, end: nat)
    requires o + n <= end <= |b| && IsFrame(b[o..o + n], linkAddressSize)
    ensures StandsAt(b, linkAddressSize, b[o..o + n], o, end)
  {
  }

  lemma AllStand(b: bytes, linkAddressSize: nat, first: bytes, frames: seq<bytes>, o: nat, at: seq<nat>, end: nat)
    requires end <= |b| && |at| == |frames| && StandsAt(b, linkAddressSize, first, o, end)
    requires forall k :: 0 <= k < |at| ==> StandsAt(b, linkAddressSize, frames[k], at[k], end)
    ensures var now, spots := [first] + frames, [o] + at;
            forall k :: 0 <= k < |spots| ==> StandsAt(b, linkAddressSize, now[k], spots[k], end)
  {
    hide StandsAt;
  }

  lemma InOrder(first: bytes, frames: seq<bytes>, o: nat, at: seq<nat>)
    requires |at| == |frames| && forall k :: 0 <= k < |at| ==> o + |first| <= at[k]
    requires forall j, k :: 0 <= j < k < |at| ==> at[j] + |frames[j]| <= at[k]
    ensures var now, spots := [first] + frames, [o] + at;
            forall j, k :: 0 <= j < k < |spots| ==> spots[j] + |now[j]| <= spots[k]
  {
  }

  // ----- resynchronisation -----

  /** A 0x68 that the bytes behind it show not to begin a variable frame. */
  predicate IsFalseStart(b: bytes) {
    |b| >= 4 && b[0] == VARIABLE_START && (b[1] != b[2] || b[3] != VARIABLE_START)
  }

  /** A whole block of the announced size that is no frame: its end byte or its checksum is wrong. */
  predicate IsSpoilt(block: bytes, linkAddressSize: nat) {
    && |block| >= 4
    && |block| == (if block[0] == FIXED_START then 4 + linkAddressSize else block[1] as int + 6)
    && (block[0] == VARIABLE_START ==> block[1] == block[2] && block[3] == VARIABLE_START)
    && !IsFrame(block, linkAddressSize)
  }

  /** Bytes in front of a frame that contain no frame and claim no byte of it: other bytes, false starts and whole
      spoilt blocks. */
  ghost predicate IsNoise(noise: bytes, frame: bytes, linkAddressSize: nat)
    decreases |noise|
  {
    || noise == []
    || ((!IsStart(noise[0]) || IsFalseStart(noise + frame)) && IsNoise(noise[1..], frame, linkAddressSize))
    || (exists n: nat :: 0 < n <= |noise| && IsStart(noise[0]) && IsSpoilt(noise[..n], linkAddressSize)
                         && IsNoise(noise[n..], frame, linkAddressSize))
  }

  /** One byte is dropped that begins no frame, and no more than that one. */
  lemma {:induction false} ByteIsDropped(b: bytes, linkAddressSize: nat)
    requires b != [] && (!IsStart(b[0]) || IsFalseStart(b))
    ensures ParseAll(b, linkAddressSize) == ParseAll(b[1..], linkAddressSize)
  {
    if IsStart(b[0]) {
      assert Trim(b) == b;
    } else {
      ParseTrimmed(b, linkAddressSize);
      ParseTrimmed(b[1..], linkAddressSize);
    }
  }

  /** A stray 0x68 costs one byte, whatever follows that shows it to be stray. */
  lemma {:induction false} FalseStartCostsOneByte(rest: bytes, linkAddressSize: nat)
    requires |rest| >= 3 && (rest[0] != rest[1] || rest[2] != VARIABLE_START)
    ensures ParseAll([VARIABLE_START] + rest, linkAddressSize) == ParseAll(rest, linkAddressSize)
  {
    hide ParseAll;
    var b := [VARIABLE_START] + rest;
    assert b[1..] == rest;
    ByteIsDropped(b, linkAddressSize);
  }

  /** A spoilt block is taken off as a whole, and emits nothing. */
  lemma {:induction false} SpoiltIsTaken(block: bytes, tail: bytes, linkAddressSize: nat)
    requires IsSpoilt(block, linkAddressSize) && IsStart(block[0])
    ensures ParseAll(block + tail, linkAddressSize) == ParseAll(tail, linkAddressSize)
  {
    hide IsFrame, ParseAll;
    FirstStep(block, tail, linkAddressSize);
    assert block[..|block|] == block && block[|block|..] + tail == tail;
    PrependNothing(ParseAll(tail, linkAddressSize));
  }

  /** A valid frame behind noise is found, whatever follows it. */
  lemma {:induction false} FrameIsFound(noise: bytes, frame: bytes, tail: bytes, linkAddressSize: nat)
    requires IsNoise(noise, frame, linkAddressSize) && IsFrame(frame, linkAddressSize)
    ensures ParseAll(noise + frame + tail, linkAddressSize) == Prepend([frame], ParseAll(tail, linkAddressSize))
    decreases |noise|
  {
    hide IsFrame, ParseAll, IsFalseStart, IsSpoilt, Prepend, IsStart;
    var b := noise + frame + tail;
    if noise == [] {
      assert b == frame + tail;
      FrameIsTaken(frame, tail, linkAddressSize);
    } else if (!IsStart(noise[0]) || IsFalseStart(noise + frame)) && IsNoise(noise[1..], frame, linkAddressSize) {
      FrameIsFound(noise[1..], frame, tail, linkAddressSize);
      assert b[1..] == noise[1..] + frame + tail && b[0] == noise[0];
      FalseStartStays(noise + frame, tail);
      ByteIsDropped(b, linkAddressSize);
    } else {
      var n: nat :| 0 < n <= |noise| && IsStart(noise[0]) && IsSpoilt(noise[..n], linkAddressSize)
                    && IsNoise(noise[n..], frame, linkAddressSize);
      FrameIsFound(noise[n..], frame, tail, linkAddressSize);
      assert b == noise[..n] + (noise[n..] + frame + tail);
      SpoiltIsTaken(noise[..n], noise[n..] + frame + tail, linkAddressSize);
    }
  }

  lemma FalseStartStays(b: bytes, tail: bytes)
    ensures IsFalseStart(b) ==> IsFalseStart(b + tail)
  {
  }

  lemma {:induction false} FrameIsTaken(frame: bytes, tail: bytes, linkAddressSize: nat)
    requires IsFrame(frame, linkAddressSize)
    ensures ParseAll(frame + tail, linkAddressSize) == Prepend([frame], ParseAll(tail, linkAddressSize))
  {
    hide ParseAll;
    assert IsStart(frame[0]) && Next(frame, linkAddressSize) == Take(|frame|);
    FirstStep(frame, tail, linkAddressSize);
    assert frame[..|frame|] == frame && frame[|frame|..] + tail == tail;
  }

  /** A stretch of noise and the frame behind it. */
  datatype Sent = Sent(noise: bytes, frame: bytes)

  function Stream(items: seq<Sent>): bytes {
    if items == [] then [] else items[0].noise + items[0].frame + Stream(items[1..])
  }

  function FramesOf(items: seq<Sent>): seq<bytes> {
    if items == [] then [] else [items[0].frame] + FramesOf(items[1..])
  }

  /** A stream of valid frames between stretches of noise gives exactly these frames, and nothing waits. */
  lemma {:induction false} StreamIsRecovered(items: seq<Sent>, linkAddressSize: nat)
    requires forall k :: 0 <= k < |items| ==>
               IsNoise(items[k].noise, items[k].frame, linkAddressSize) && IsFrame(items[k].frame, linkAddressSize)
    ensures ParseAll(Stream(items), linkAddressSize) == Extraction(FramesOf(items), [])
  {
    hide IsFrame, IsNoise;
    if items == [] {
      EmptyTrim();
    } else {
      StreamIsRecovered(items[1..], linkAddressSize);
      FrameIsFound(items[0].noise, items[0].frame, Stream(items[1..]), linkAddressSize);
    }
  }

  /** A stray 0x68 in front of a valid variable frame: the frame is found. */
  lemma StrayStartBeforeFrame()
    ensures ParseAll([0x68, 0x68, 0x03, 0x03, 0x68, 0x08, 0x01, 0x00, 0x09, 0x16], 1)
         == Extraction([[0x68, 0x03, 0x03, 0x68, 0x08, 0x01, 0x00, 0x09, 0x16]], [])
  {
    hide ParseAll;
    var frame: bytes := [0x68, 0x03, 0x03, 0x68, 0x08, 0x01, 0x00, 0x09, 0x16];
    ChecksumOfThree(0x08, 0x01, 0x00);
    assert frame[4..|frame| - 2] == [0x08, 0x01, 0x00];
    assert IsFrame(frame, 1);
    FalseStartCostsOneByte(frame, 1);
    FrameIsTaken(frame, [], 1);
    NothingToParse(1);
    assert frame + [] == frame;
    assert [VARIABLE_START] + frame == [0x68, 0x68, 0x03, 0x03, 0x68, 0x08, 0x01, 0x00, 0x09, 0x16];
  }

  lemma ChecksumOfThree(a: byte, b: byte, c: byte)
    ensures Checksum([a, b, c]) == (a + b + c) % 256
  {
    assert [a, b, c][..2] == [a, b] && [a, b][..1] == [a] && [a][..0] == [];
    assert Checksum([a]) == a;
  }

  lemma NothingToParse(linkAddressSize: nat)
    ensures ParseAll([], linkAddressSize) == Extraction([], [])
  {
    EmptyTrim();
  }

  // ----- the receiver -----

  /** The client's receive side on one connection. `received` and `emitted` are its history. */
  class Receiver {
    const linkAddressSize: nat
    var rxBuffer: bytes
    ghost var received: bytes
    ghost var emitted: seq<bytes>

    /** The frames emitted so far, followed by the parse of the retained buffer, are the parse of
        everything received: independent of how the stream came in chunks and of the frame limits. */
    ghost predicate Valid()
      reads this
    {
      ParseAll(received, linkAddressSize) == Prepend(emitted, ParseAll(rxBuffer, linkAddressSize))
    }

    constructor (linkAddressSize: nat)
      ensures this.linkAddressSize == linkAddressSize && Valid() && received == [] && emitted == []
    {
      this.linkAddressSize := linkAddressSize;
      rxBuffer, received, emitted := [], [], [];
    }

    /** The inner loop: frames are taken off the buffer up to the limit; every iteration consumes a
        byte or stops. */
    method ExtractFrames(frames0: seq<bytes>, maxFrames: int) returns (frames: seq<bytes>)
      modifies `rxBuffer
      ensures var limit := if |frames0| < maxFrames then maxFrames - |frames0| else 0;
              var e := ParseSome(old(rxBuffer), linkAddressSize, limit);
              frames == frames0 + e.frames && rxBuffer == e.rest
    {
      hide Trim, Next, IsFrame, ParseSome, Prepend;
      frames := frames0;
      ghost var limit := if |frames0| < maxFrames then maxFrames - |frames0| else 0;
      ghost var taken: seq<bytes> := [];
      ghost var all := ParseSome(rxBuffer, linkAddressSize, limit);
      PrependNothing(all);
      while rxBuffer != [] && |frames| < maxFrames
        invariant frames == frames0 + taken && |taken| <= limit
        invariant all == Prepend(taken, ParseSome(rxBuffer, linkAddressSize, limit - |taken|))
        decreases |rxBuffer|
      {
        SomeStep(taken, rxBuffer, linkAddressSize, limit - |taken|);
        TrimToStart();
        if rxBuffer == [] {
          return;
        }
        var action := Next(rxBuffer, linkAddressSize);
        if action.Wait? {
          return;
        }
        if action.Drop? {
          rxBuffer := rxBuffer[1..];
          continue;
        }
        var frame := rxBuffer[..action.size];
        rxBuffer := rxBuffer[action.size..];
        if IsFrame(frame, linkAddressSize) {
          frames := frames + [frame];
        }
        taken := taken + Emit(frame, linkAddressSize);
      }
      SomeEnds(taken, rxBuffer, linkAddressSize, limit - |taken|);
    }

    method TrimToStart()
      modifies `rxBuffer
      ensures rxBuffer == Trim(old(rxBuffer))
    {
      var i := 0;
      while i < |rxBuffer| && !IsStart(rxBuffer[i])
        invariant 0 <= i <= |rxBuffer|
        invariant Trim(rxBuffer[i..]) == Trim(rxBuffer)
      {
        assert rxBuffer[i..][1..] == rxBuffer[i + 1..];
        i := i + 1;
      }
      rxBuffer := rxBuffer[i..];
    }

    /** One call: chunks are taken from the socket until the frame limit is reached. `arrivals` are
        the chunks that come in before the deadline. */
    method ReadFrames(arrivals: seq<bytes>, maxFrames: int) returns (frames: seq<bytes>, taken: nat)
      requires Valid()
      modifies this
      ensures Valid()
      ensures taken <= |arrivals| && received == old(received) + Concat(arrivals[..taken])
      ensures emitted == old(emitted) + frames
      ensures |frames| <= (if maxFrames < 0 then 0 else maxFrames)
      ensures taken < |arrivals| ==> |frames| >= (if maxFrames < 1 then 1 else maxFrames)
    {
      hide ParseAll, ParseSome;
      frames, taken := [], 0;
      while taken < |arrivals| && |frames| < (if maxFrames < 1 then 1 else maxFrames)
        invariant Valid() && taken <= |arrivals|
        invariant received == old(received) + Concat(arrivals[..taken])
        invariant emitted == old(emitted) + frames
        invariant |frames| <= (if maxFrames < 0 then 0 else maxFrames)
      {
        var chunk := arrivals[taken];
        frames := TakeChunk(chunk, frames, maxFrames);
        assert arrivals[..taken + 1] == arrivals[..taken] + [chunk];
        ConcatTwo(arrivals[..taken], [chunk]);
        taken := taken + 1;
      }
    }

    /** One chunk from the socket, and the frames it completes. */
    method TakeChunk(chunk: bytes, frames0: seq<bytes>, maxFrames: int) returns (frames: seq<bytes>)
      requires Valid()
      modifies this
      ensures Valid() && received == old(received) + chunk
      ensures frames0 <= frames && emitted == old(emitted) + frames[|frames0|..]
      ensures |frames| <= (if |frames0| < maxFrames then maxFrames else |frames0|)
    {
      hide ParseAll, ParseSome, Prepend;
      Received(received, emitted, rxBuffer, chunk, linkAddressSize);
      rxBuffer := rxBuffer + chunk;
      received := received + chunk;
      ghost var limit := if |frames0| < maxFrames then maxFrames - |frames0| else 0;
      TakenOff(received, emitted, rxBuffer, linkAddressSize, limit);
      frames := ExtractFrames(frames0, maxFrames);
      emitted := emitted + frames[|frames0|..];
    }
  }

  lemma {:induction false} TakenOff(received: bytes, emitted: seq<bytes>, buffer: bytes, linkAddressSize: nat,
                                    limit: nat)
    requires ParseAll(received, linkAddressSize) == Prepend(emitted, ParseAll(buffer, linkAddressSize))
    ensures var some := ParseSome(buffer, linkAddressSize, limit);
            ParseAll(received, linkAddressSize) == Prepend(emitted + some.frames, ParseAll(some.rest, linkAddressSize))
  {
    hide ParseAll, ParseSome;
    var some := ParseSome(buffer, linkAddressSize, limit);
    ParseSomeThenRest(buffer, [], linkAddressSize, limit);
    assert buffer + [] == buffer && some.rest + [] == some.rest;
    var more := ParseAll(some.rest, linkAddressSize).frames;
    assert emitted + (some.frames + more) == emitted + some.frames + more;
  }

  lemma {:induction false} Received(received: bytes, emitted: seq<bytes>, buffer: bytes, chunk: bytes,
                                    linkAddressSize: nat)
    requires ParseAll(received, linkAddressSize) == Prepend(emitted, ParseAll(buffer, linkAddressSize))
    ensures ParseAll(received + chunk, linkAddressSize) == Prepend(emitted, ParseAll(buffer + chunk, linkAddressSize))
  {
    hide ParseAll, ParseSome;
    AllThenRest(received, chunk, linkAddressSize);
    AllThenRest(buffer, chunk, linkAddressSize);
    var r, b := ParseAll(received, linkAddressSize), ParseAll(buffer, linkAddressSize);
    assert emitted + b.frames + ParseAll(b.rest + chunk, linkAddressSize).frames
        == emitted + (b.frames + ParseAll(b.rest + chunk, linkAddressSize).frames);
  }

  /** Parsing everything is taking frames off with a limit that is never reached. */
  lemma {:induction false} ParseAllIsParseSome(b: bytes, linkAddressSize: nat, limit: nat)
    requires limit > |b|
    ensures ParseSome(b, linkAddressSize, limit) == ParseAll(b, linkAddressSize)
    decreases |b|
  {
    hide Trim, Next, IsFrame;
    if b == [] {
      EmptyTrim();
    } else {
      var t := Trim(b);
      if t != [] {
        match Next(t, linkAddressSize)
        case Wait =>
        case Drop => ParseAllIsParseSome(t[1..], linkAddressSize, limit);
        case Take(n) =>
          var frames := Emit(t[..n], linkAddressSize);
          ParseAllIsParseSome(t[n..], linkAddressSize, limit - |frames|);
      }
    }
  }

  lemma {:induction false} AllThenRest(b: bytes, c: bytes, linkAddressSize: nat)
    ensures ParseAll(b + c, linkAddressSize)
         == Prepend(ParseAll(b, linkAddressSize).frames,
           ParseAll(ParseAll(b, linkAddressSize).rest + c, linkAddressSize))
  {
    hide ParseAll, ParseSome;
    ParseAllIsParseSome(b, linkAddressSize, |b| + 1);
    ParseSomeThenRest(b, c, linkAddressSize, |b| + 1);
  }
}
