/** The DL/T 645 client's reassembly of a response from whatever chunks the serial port delivers. */
module Dlt645Client {
  import opened Results
  import opened Sequences
  import opened Bytes
  import opened Reals
  import opened Rounding
  import opened Dlt645Frames
  import opened Dlt645Values

  const START: byte := 0x68

  /** Noise before a start byte is dropped; noise alone is kept up to 32 bytes. */
  function Trimmed(s: bytes): bytes {
    var n := Find(s, START, 0);
    if n == |s| then if |s| > 32 then [] else s else s[n..]
  }

  method TrimToFrameStart(s: bytes) returns (r: bytes)
    ensures r == Trimmed(s)
  {
    var i := 0;
    while i < |s| && s[i] != START
      invariant i <= |s| && Find(s, START, 0) == Find(s, START, i)
    {
      i := i + 1;
    }
    if i == |s| {
      r := if |s| > 32 then [] else s;
    } else {
      r := s[i..];
    }
  }

  /** The size a frame announces; zero while that is unknown. */
  function ExpectedFrameSize(s: bytes): nat {
    if |s| < 10 || s[0] != START || s[7] != START then 0 else s[9] as int + 12
  }

  predicate Complete(s: bytes) {
    var size := ExpectedFrameSize(s);
    size > 0 && |s| >= size && s[size - 1] == 0x16
  }

  /** The response collected so far, and whether it is complete. */
  datatype Reception = Reception(response: bytes, done: bool)

  function Receive(r: Reception, chunk: bytes): Reception {
    if r.done || chunk == [] then r
    else
      var s := Trimmed(r.response + chunk);
      if Complete(s) then Reception(s[..ExpectedFrameSize(s)], true) else Reception(s, false)
  }

  function Received(chunks: seq<bytes>): Reception {
    if chunks == [] then Reception([], false)
    else Receive(Received(chunks[..|chunks| - 1]), chunks[|chunks| - 1])
  }

  /** The loop over the reads that the port answers before the deadline. */
  method Exchange(chunks: seq<bytes>) returns (r: Result<bytes>)
    ensures r == if Received(chunks).response == [] then Failed else Ok(Received(chunks).response)
  {
    hide Trimmed, Complete;
    var response: bytes := [];
    var i, done := 0, false;
    while i < |chunks| && !done
      invariant i <= |chunks| && Received(chunks[..i]) == Reception(response, done)
    {
      var chunk := chunks[i];
      assert chunks[..i + 1][..i] == chunks[..i];
      i := i + 1;
      if chunk == [] {
        continue;
      }
      response := response + chunk;
      response := TrimToFrameStart(response);
      if Complete(response) {
        CompleteFits(response);
        response := response[..ExpectedFrameSize(response)];
        done := true;
      }
    }
    if done {
      NothingAfter(chunks, i);
    }
    assert chunks[..|chunks|] == chunks;
    if response == [] {
      return Failed;
    }
    r := Ok(response);
  }

  lemma CompleteFits(s: bytes)
    requires Complete(s)
    ensures 0 < ExpectedFrameSize(s) <= |s|
  {
  }

  lemma {:induction false} NothingAfter(chunks: seq<bytes>, i: nat)
    requires i <= |chunks| && Received(chunks[..i]).done
    ensures Received(chunks) == Received(chunks[..i])
    decreases |chunks| - i
  {
    hide Trimmed, Complete;
    if i < |chunks| {
      assert chunks[..i + 1][..i] == chunks[..i];
      NothingAfter(chunks, i + 1);
    } else {
      assert chunks[..i] == chunks;
    }
  }

  // ----- any chunking of noise, a response and what follows -----

  /** A frame with its markers, its length and its end byte; the rest is arbitrary. */
  predicate WellFormed(frame: bytes) {
    && |frame| >= 12 && frame[0] == START && frame[7] == START
    && |frame| == frame[9] as int + 12 && frame[|frame| - 1] == 0x16
  }

  /** What the client holds after the first `n` bytes of noise and response. */
  ghost predicate Holding(r: Reception, noise: bytes, frame: bytes, n: nat) {
    if n <= |noise| then !r.done && START !in r.response
    else if n < |noise| + |frame| then !r.done && r.response == frame[..n - |noise|]
    else r.done && r.response == frame
  }

  lemma NoStart(s: bytes)
    requires START !in s
    ensures Trimmed(s) == s || Trimmed(s) == []
    ensures !Complete(Trimmed(s))
  {
    if Find(s, START, 0) < |s| {
      assert false;
    }
  }

  lemma {:induction false} StartFound(front: bytes, rest: bytes)
    requires START !in front && rest != [] && rest[0] == START
    ensures Trimmed(front + rest) == rest
  {
    assert rest == [START] + rest[1..];
    assert front + rest == front + [START] + rest[1..];
    FindAfter(front, START, rest[1..], 0);
  }

  /** A beginning of the frame is complete exactly when the whole frame is there. */
  lemma FrameComplete(frame: bytes, s: bytes)
    requires WellFormed(frame) && s != []
    requires if |s| <= |frame| then s == frame[..|s|] else s[..|frame|] == frame
    ensures Complete(s) <==> |s| >= |frame|
    ensures |s| >= |frame| ==> s[..ExpectedFrameSize(s)] == frame
  {
    if |s| >= 10 {
      assert s[0] == frame[0] && s[7] == frame[7] && s[9] == frame[9];
    }
    if |s| >= |frame| {
      assert s[..|frame|] == frame;
      assert s[|frame| - 1] == frame[|frame| - 1];
    }
  }

  /** One more chunk of the stream. */
  lemma ReceiveNext(r: Reception, noise: bytes, frame: bytes, behind: bytes, n: nat, chunk: bytes)
    requires WellFormed(frame) && START !in noise && Holding(r, noise, frame, n)
    requires var stream := noise + frame + behind; n + |chunk| <= |stream| && chunk == stream[n..n + |chunk|]
    ensures Holding(Receive(r, chunk), noise, frame, n + |chunk|)
  {
    hide Trimmed, Complete, WellFormed;
    if r.done || chunk == [] {
    } else if n + |chunk| <= |noise| {
      assert chunk == noise[n..n + |chunk|];
      NoStart(r.response + chunk);
    } else {
      var s := (noise + frame + behind)[|noise|..n + |chunk|];
      FrameBegins(noise, frame, behind, n + |chunk|);
      FrameCollected(r, noise, frame, behind, n, chunk);
      FrameComplete(frame, s);
    }
  }

  /** Once the frame has begun, the buffer is what has come of it and of what follows. */
  lemma FrameCollected(r: Reception, noise: bytes, frame: bytes, behind: bytes, n: nat, chunk: bytes)
    requires WellFormed(frame) && START !in noise && Holding(r, noise, frame, n) && !r.done
    requires var stream := noise + frame + behind;
             |noise| < n + |chunk| <= |stream| && chunk == stream[n..n + |chunk|]
    ensures Trimmed(r.response + chunk) == (noise + frame + behind)[|noise|..n + |chunk|]
  {
    hide Trimmed, WellFormed;
    var stream := noise + frame + behind;
    var s := stream[|noise|..n + |chunk|];
    FrameBegins(noise, frame, behind, n + |chunk|);
    var front: bytes := if n <= |noise| then r.response + noise[n..] else [];
    if n <= |noise| {
      assert chunk == noise[n..] + s;
    } else {
      assert stream[|noise|..n] == frame[..n - |noise|];
    }
    assert r.response + chunk == front + s;
    StartFound(front, s);
  }

  lemma FrameBegins(noise: bytes, frame: bytes, behind: bytes, n: nat)
    requires WellFormed(frame) && |noise| < n <= |noise + frame + behind|
    ensures var s := (noise + frame + behind)[|noise|..n];
            s != [] && s[0] == START && if |s| <= |frame| then s == frame[..|s|] else s[..|frame|] == frame
  {
    var s := (noise + frame + behind)[|noise|..n];
    if |s| <= |frame| {
      assert s == frame[..|s|];
    } else {
      assert s[..|frame|] == frame;
    }
  }

  /** At every moment, for any chunking: nothing yet, the part of the response that has come, or all of it. */
  lemma {:induction false} AnyChunking(chunks: seq<bytes>, noise: bytes, frame: bytes, behind: bytes)
    requires WellFormed(frame) && START !in noise
    requires var stream := noise + frame + behind;
             |Concat(chunks)| <= |stream| && Concat(chunks) == stream[..|Concat(chunks)|]
    ensures Holding(Received(chunks), noise, frame, |Concat(chunks)|)
  {
    hide WellFormed, Holding, Receive;
    if chunks == [] {
      NothingHeld(noise, frame);
    } else {
      var last := |chunks| - 1;
      var n, chunk, stream := |Concat(chunks[..last])|, chunks[last], noise + frame + behind;
      assert Concat(chunks) == Concat(chunks[..last]) + chunk;
      assert Concat(chunks[..last]) == stream[..n] && chunk == stream[n..n + |chunk|];
      AnyChunking(chunks[..last], noise, frame, behind);
      ReceiveNext(Received(chunks[..last]), noise, frame, behind, n, chunk);
    }
  }

  lemma NothingHeld(noise: bytes, frame: bytes)
    ensures Holding(Reception([], false), noise, frame, 0)
  {
  }

  /** The client returns exactly the response, once it and anything before and behind it has come. */
  lemma ResponseIsRecovered(chunks: seq<bytes>, noise: bytes, frame: bytes, behind: bytes)
    requires WellFormed(frame) && START !in noise && Concat(chunks) == noise + frame + behind
    ensures Received(chunks) == Reception(frame, true)
  {
    hide Received;
    AnyChunking(chunks, noise, frame, behind);
  }

  /** From the wire to the payload: in any chunking, what the client returns is a response, and the payload that
      was sent is its only decoding. */
  lemma EndToEnd(chunks: seq<bytes>, noise: bytes, behind: bytes, address: bytes, control: byte, id: bytes,
                 payload: bytes)
    requires |address| == 6 && control >= 0x80 && |id| == 4 && |id + payload| < 256
    requires START !in noise && Concat(chunks) == noise + FrameOf(address, control, id + payload) + behind
    ensures var r := Received(chunks); r.done && IsResponse(r.response, id, payload)
    ensures forall other :: IsResponse(Received(chunks).response, id, other) ==> other == payload
  {
    hide FrameOf, IsResponse, Received;
    var frame := FrameOf(address, control, id + payload);
    FrameParts(address, control, id + payload);
    ResponseIsRecovered(chunks, noise, frame, behind);
    IsResponseOf(address, control, id, payload);
    forall other | IsResponse(frame, id, other)
      ensures other == payload
    {
      SamePayload(frame, id, other, payload);
    }
  }

  lemma IsResponseOf(address: bytes, control: byte, id: bytes, payload: bytes)
    requires |address| == 6 && control >= 0x80 && |id + payload| < 256
    ensures IsResponse(FrameOf(address, control, id + payload), id, payload)
  {
    hide FrameOf;
  }

  /** From the written value over the wire and back: a response that carries the payload of a numeric write, in
      any chunking, reads as the value that was written, up to 1e-9 of a step. */
  lemma WrittenValueReadsBack(chunks: seq<bytes>, noise: bytes, behind: bytes, address: bytes, control: byte,
                              value: real, spec: WriteSpec, payload: bytes, dataId: string)
    requires DataId(dataId).Ok? && |address| == 6 && control >= 0x80 && |DataId(dataId).value + payload| < 256
    requires START !in noise
    requires Concat(chunks) == noise + FrameOf(address, control, DataId(dataId).value + payload) + behind
    requires Numeric(spec) && 1 <= spec.byteCount <= 8 && ScaledInteger(value, spec).Ok?
    requires FitsInt64(Llround(Quotient(value, spec.scale, spec.offset)))
    requires |payload| == spec.byteCount && NumberOf(spec, payload) == ScaledInteger(value, spec)
    ensures var r := Received(chunks);
            && r.done
            && (forall other :: IsResponse(r.response, DataId(dataId).value, other) ==>
                  var read := ReadValue(other, Reading(spec, dataId));
                  read.Ok? && Abs(read.value - value) <= WHOLE * Abs(spec.scale))
            && exists other :: IsResponse(r.response, DataId(dataId).value, other)
  {
    hide FrameOf, IsResponse, Received, DataId, ReadValue, ScaledInteger, NumberOf, Abs, Numeric, Llround, FitsInt64,
      Quotient;
    EndToEnd(chunks, noise, behind, address, control, DataId(dataId).value, payload);
    PayloadRoundTrip(value, spec, payload, [], dataId);
    assert payload + [] == payload;
  }
}
