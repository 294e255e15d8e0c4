/** Length-prefixed framing over a growing buffer (crates/ephemera-protocol/src/codec.rs). */
module Codec {
  import opened Wrappers
  import opened BitGroups
  import opened Numbers

  const MAX_FRAME_SIZE := 1_048_576

  datatype Error = FrameTooLarge(size: nat) | Serialization

  /** The envelope serializer. */
  datatype Serde<!E> = Serde(write: E -> Option<seq<byte>>, read: seq<byte> -> Option<E>)

  /** What was written reads back. */
  ghost predicate Lawful<E(!new)>(s: Serde<E>) {
    forall e | s.write(e).Some? :: s.read(s.write(e).value) == Some(e)
  }

  // Specification ----------------------------------------------------------------

  /** The bytes appended for an envelope; the length is cut to 32 bits before it is compared. */
  function Encode<E>(s: Serde<E>, e: E): (r: Result<seq<byte>, Error>) {
    match s.write(e)
    case None => Err(Serialization)
    case Some(payload) =>
      var len := |payload| % TWO_TO_32;
      if len > MAX_FRAME_SIZE then Err(FrameTooLarge(len)) else Ok(WriteU32(len) + payload)
  }

  /** What is left of the buffer, and the outcome. */
  function Decode<E>(s: Serde<E>, src: seq<byte>): (r: (seq<byte>, Result<Option<E>, Error>))
    ensures r.1 == Ok(None) ==> r.0 == src
  {
    if |src| < 4 then (src, Ok(None))
    else
      var len := ReadU32(src, 0);
      if len > MAX_FRAME_SIZE then (src, Err(FrameTooLarge(len)))
      else if |src| < 4 + len then (src, Ok(None))
      else
        match s.read(src[4..4 + len])
        case None => (src[4 + len..], Err(Serialization))
        case Some(e) => (src[4 + len..], Ok(Some(e)))
  }

  ghost predicate Fits<E>(s: Serde<E>, e: E) {
    s.write(e).Some? && |s.write(e).value| <= MAX_FRAME_SIZE
  }

  ghost function Frame<E>(s: Serde<E>, e: E): (f: seq<byte>)
    requires Fits(s, e)
    ensures |f| == 4 + |s.write(e).value|
  {
    WriteU32(|s.write(e).value|) + s.write(e).value
  }

  /** What fits is encoded as its frame. */
  lemma FrameIsEncoded<E>(s: Serde<E>, e: E)
    requires Fits(s, e)
    ensures Encode(s, e) == Ok(Frame(s, e))
  {
    hide WriteU32;
    ShortLength(|s.write(e).value|);
  }

  lemma ShortLength(n: nat)
    requires n <= MAX_FRAME_SIZE
    ensures n % TWO_TO_32 == n
  {}

  ghost predicate AllFit<E>(s: Serde<E>, es: seq<E>) { forall i | 0 <= i < |es| :: Fits(s, es[i]) }

  /** The frames of all envelopes, one after the other. */
  ghost function Stream<E>(s: Serde<E>, es: seq<E>): seq<byte>
    requires AllFit(s, es)
    decreases |es|
  {
    if es == [] then [] else Frame(s, es[0]) + Stream(s, es[1..])
  }

  /** Bytes arriving, or a call of `decode`. */
  datatype Event = Arrive(chunk: seq<byte>) | Poll

  datatype Reader<E> = Reader(buffer: seq<byte>, got: seq<E>, failed: bool)

  ghost function Next<E>(s: Serde<E>, r: Reader<E>, e: Event): Reader<E> {
    match e
    case Arrive(chunk) => r.(buffer := r.buffer + chunk)
    case Poll =>
      match Decode(s, r.buffer)
      case (rest, Err(_)) => Reader(rest, r.got, true)
      case (rest, Ok(None)) => Reader(rest, r.got, r.failed)
      case (rest, Ok(Some(x))) => Reader(rest, r.got + [x], r.failed)
  }

  ghost function Run<E>(s: Serde<E>, events: seq<Event>): Reader<E> {
    if events == [] then Reader([], [], false)
    else Next(s, Run(s, events[..|events| - 1]), events[|events| - 1])
  }

  ghost function Arrived(events: seq<Event>): seq<byte> {
    if events == [] then []
    else
      var e := events[|events| - 1];
      Arrived(events[..|events| - 1]) + if e.Arrive? then e.chunk else []
  }

  /** What a call says of the buffer, judged on its bytes. */
  lemma DecodeOutcomes<E(!new)>(s: Serde<E>, src: seq<byte>)
    ensures var (rest, outcome) := Decode(s, src);
            var len := if |src| >= 4 then ReadU32(src, 0) else 0;
            && (outcome == Ok(None) <==> |src| < 4 || (len <= 1_048_576 && |src| < 4 + len))
            && (forall n :: outcome == Err(FrameTooLarge(n)) <==> |src| >= 4 && len > 1_048_576 && n == len)
            && (outcome == Err(Serialization) <==> 4 + len <= |src| && |src| >= 4 && len <= 1_048_576 && s.read(src[4..4 + len]).None?)
            && (forall e :: outcome == Ok(Some(e)) <==>
                  4 + len <= |src| && |src| >= 4 && len <= 1_048_576 && s.read(src[4..4 + len]) == Some(e))
            && (outcome == Ok(None) || (outcome.Err? && outcome.error.FrameTooLarge?) ==> rest == src)
            && (outcome == Err(Serialization) || (outcome.Ok? && outcome.value.Some?) ==> rest == src[4 + len..])
  {
    hide ReadU32;
  }

  lemma EncodeOutcomes<E(!new)>(s: Serde<E>, e: E)
    ensures var outcome := Encode(s, e);
            var len := if s.write(e).Some? then |s.write(e).value| % 4_294_967_296 else 0;
            && (outcome == Err(Serialization) <==> s.write(e).None?)
            && (forall n :: outcome == Err(FrameTooLarge(n)) <==> s.write(e).Some? && len > 1_048_576 && n == len)
            && (outcome.Ok? <==> s.write(e).Some? && len <= 1_048_576)
            && (outcome.Ok? ==> |outcome.value| == 4 + |s.write(e).value| && outcome.value[4..] == s.write(e).value
                                && ReadU32(outcome.value, 0) == len)
  {
    hide ReadU32, WriteU32;
    if Encode(s, e).Ok? {
      var f, len := Encode(s, e).value, |s.write(e).value| % TWO_TO_32;
      U32RoundTrip(len);
      SamePrefix(f, WriteU32(len));
    }
  }

  lemma SamePrefix(f: seq<byte>, g: seq<byte>)
    requires |g| == 4 <= |f| && f[..4] == g
    ensures ReadU32(f, 0) == ReadU32(g, 0)
  {
    assert forall i | 0 <= i < 4 :: f[i] == f[..4][i];
  }

  // Theorems ---------------------------------------------------------------------

  /** On a buffer that starts a stream, `decode` returns the first envelope once it is complete. */
  lemma DecodeStartOfStream<E(!new)>(s: Serde<E>, es: seq<E>, buffer: seq<byte>, rest: seq<byte>)
    requires Lawful(s) && AllFit(s, es) && buffer + rest == Stream(s, es)
    ensures es != [] && |buffer| >= |Frame(s, es[0])| ==>
      Decode(s, buffer) == (buffer[|Frame(s, es[0])|..], Ok(Some(es[0]))) &&
      buffer[|Frame(s, es[0])|..] + rest == Stream(s, es[1..])
    ensures !(es != [] && |buffer| >= |Frame(s, es[0])|) ==> Decode(s, buffer) == (buffer, Ok(None))
  {
    if es != [] {
      var f := Frame(s, es[0]);
      var p := s.write(es[0]).value;
      assert buffer + rest == f + Stream(s, es[1..]);
      U32RoundTrip(|p|);
      if |buffer| >= 4 {
        assert buffer[..4] == (buffer + rest)[..4];
        assert (buffer + rest)[..4] == WriteU32(|p|);
        assert ReadU32(buffer, 0) == ReadU32(buffer[..4], 0);
      }
      if |buffer| >= |f| {
        assert buffer[4..|f|] == (buffer + rest)[4..|f|];
        assert (buffer + rest)[4..|f|] == p;
        assert buffer[|f|..] + rest == (buffer + rest)[|f|..];
        assert (buffer + rest)[|f|..] == Stream(s, es[1..]);
      }
    }
  }

  /**
   * However the stream is cut into arrivals and whenever `decode` is called, nothing fails, the
   * envelopes returned so far are the first ones in order, and the rest is still in the buffer or
   * yet to arrive.
   */
  lemma {:induction false} StreamIsReassembled<E(!new)>(s: Serde<E>, es: seq<E>, events: seq<Event>, rest: seq<byte>)
    requires Lawful(s) && AllFit(s, es) && Arrived(events) + rest == Stream(s, es)
    ensures var r := Run(s, events);
      && !r.failed && |r.got| <= |es| && r.got == es[..|r.got|]
      && r.buffer + rest == Stream(s, es[|r.got|..])
    decreases |events|
  {
    hide Frame, Stream, Decode;
    if events == [] {
      assert es[0..] == es;
      assert [] + rest == rest;
    } else {
      var before, e := events[..|events| - 1], events[|events| - 1];
      var late := if e.Arrive? then e.chunk + rest else rest;
      assert Arrived(before) + late == Arrived(events) + rest;
      StreamIsReassembled(s, es, before, late);
      var r := Run(s, before);
      var k := |r.got|;
      if e.Arrive? {
        assert (r.buffer + e.chunk) + rest == r.buffer + late;
      } else {
        DecodeStartOfStream(s, es[k..], r.buffer, rest);
        assert k < |es| ==> es[k..][1..] == es[k + 1..] && es[..k] + [es[k]] == es[..k + 1];
      }
    }
  }

  /** Once all has arrived and `decode` asks for more, everything was returned. */
  lemma DrainedIsComplete<E(!new)>(s: Serde<E>, es: seq<E>, events: seq<Event>)
    requires Lawful(s) && AllFit(s, es) && Arrived(events) == Stream(s, es)
    requires Decode(s, Run(s, events).buffer).1 == Ok(None)
    ensures Run(s, events) == Reader([], es, false)
  {
    var r := Run(s, events);
    assert Arrived(events) + [] == Stream(s, es);
    StreamIsReassembled(s, es, events, []);
    DecodeStartOfStream(s, es[|r.got|..], r.buffer, []);
    assert r.buffer + [] == r.buffer;
  }

  ghost function Polls(n: nat): seq<Event> { seq(n, _ => Poll) }

  /** As many calls as there are envelopes, after the last arrival, are always enough. */
  lemma PollsDrain<E(!new)>(s: Serde<E>, es: seq<E>, events: seq<Event>, n: nat)
    requires Lawful(s) && AllFit(s, es) && Arrived(events) == Stream(s, es) && n >= |es|
    ensures Run(s, events + Polls(n)) == Reader([], es, false)
  {
    hide Frame, Decode, Run;
    var all := events + Polls(n);
    EachPollReturnsOne(s, es, events, n);
    assert Arrived(all) + [] == Stream(s, es);
    StreamIsReassembled(s, es, all, []);
    var r := Run(s, all);
    assert r.buffer + [] == r.buffer && es[|es|..] == [];
  }

  lemma {:induction false} EachPollReturnsOne<E(!new)>(s: Serde<E>, es: seq<E>, events: seq<Event>, n: nat)
    requires Lawful(s) && AllFit(s, es) && Arrived(events) == Stream(s, es)
    ensures Arrived(events + Polls(n)) == Stream(s, es)
    ensures |Run(s, events + Polls(n)).got| >= if n < |es| then n else |es|
    decreases n
  {
    hide Frame, Stream, Decode;
    var all := events + Polls(n);
    if n == 0 {
      assert all == events;
    } else {
      var before := events + Polls(n - 1);
      assert all[..|all| - 1] == before && all[|all| - 1] == Poll;
      EachPollReturnsOne(s, es, events, n - 1);
      if Decode(s, Run(s, before).buffer).1 == Ok(None) {
        DrainedIsComplete(s, es, before);
      }
      assert Arrived(all) + [] == Stream(s, es);
      StreamIsReassembled(s, es, all, []);
    }
  }

  /**
   * `encode` also takes payloads whose length only fits after the cut to 32 bits; of all it takes,
   * exactly those that really fit come back.
   */
  lemma FrameComesBackExactly<E(!new)>(s: Serde<E>, e: E)
    requires Lawful(s) && Encode(s, e).Ok?
    ensures Decode(s, Encode(s, e).value) == ([], Ok(Some(e))) <==> |s.write(e).value| <= MAX_FRAME_SIZE
  {
    var p, f := s.write(e).value, Encode(s, e).value;
    var len := |p| % TWO_TO_32;
    U32RoundTrip(len);
    assert f[..4] == WriteU32(len) && ReadU32(f, 0) == ReadU32(f[..4], 0);
    assert f[4..] == p;
    if |p| <= MAX_FRAME_SIZE {
      assert f[4..4 + len] == p && f[4 + len..] == [];
    } else {
      assert len < |p| && |f[4 + len..]| > 0;
    }
  }

  /** A payload of 2^32 bytes: written with length 0, it does not come back. */
  lemma OversizedFrameIsLost()
    ensures exists s: Serde<bool> :: Lawful(s) && Encode(s, true).Ok? && Decode(s, Encode(s, true).value).1 == Err(Serialization)
  {
    var huge: seq<byte> := seq(TWO_TO_32, _ => 0);
    var s := Serde((e: bool) => Some(if e then huge else [1]), (b: seq<byte>) =>
      if b == huge then Some(true) else if b == [1] then Some(false) else None);
    assert huge != [1] && huge != [] by { assert |huge| == TWO_TO_32; }
    assert Lawful(s);
    var f := Encode(s, true).value;
    assert f == WriteU32(0) + huge;
    U32RoundTrip(0);
    assert f[..4] == WriteU32(0) && ReadU32(f, 0) == ReadU32(f[..4], 0);
    assert f[4..4] == [];
  }

  // The buffer -------------------------------------------------------------------

  class ByteBuffer<!E> {
    const serde: Serde<E>
    var data: seq<byte>

    constructor (s: Serde<E>)
      ensures serde == s && data == []
    {
      serde, data := s, [];
    }

    method EncodeInto(e: E) returns (r: Result<(), Error>)
      modifies this
      ensures match Encode(serde, e)
        case Ok(frame) => r == Ok(()) && data == old(data) + frame
        case Err(why) => r == Err(why) && data == old(data)
    {
      var written := serde.write(e);
      if written.None? { return Err(Serialization); }
      var len := |written.value| % TWO_TO_32;
      if len > MAX_FRAME_SIZE { return Err(FrameTooLarge(len)); }
      data := data + WriteU32(len);
      data := data + written.value;
      assert data == old(data) + (WriteU32(len) + written.value);
      return Ok(());
    }

    method DecodeFrom() returns (r: Result<Option<E>, Error>)
      modifies this
      ensures (data, r) == Decode(serde, old(data))
    {
      if |data| < 4 { return Ok(None); }
      var len := ReadU32(data, 0);
      if len > MAX_FRAME_SIZE { return Err(FrameTooLarge(len)); }
      if |data| < 4 + len { return Ok(None); }
      data := data[4..];
      var payload := data[..len];
      data := data[len..];
      assert payload == old(data)[4..4 + len] && data == old(data)[4 + len..];
      var e := serde.read(payload);
      return if e.None? then Err(Serialization) else Ok(e);
    }
  }
}
