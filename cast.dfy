/** The session recorder of `src/caster/cast.rs`: the frame format written for every
    terminal event, the heartbeat stream, and the writer task's handlers, each of
    which processes one message of its `select!` loop. */
module Cast {
  import opened Wrappers
  import opened Bytes
  import opened Events

  /** `encode_evt`: the frame whose tag byte is the kind discriminant and whose data
      is the payload. */
  function EncodeEvt(e: RawEvt): seq<Byte>
  {
    EncodeFrame(Frame(e.elapsed, KindCode(e.kind), e.payload))
  }

  /** The fields of an event frame: 1 to 5 varint bytes, so 4 + 1 + (1..5) + payload
      bytes in all; the elapsed value's little-endian bytes, then the kind
      discriminant (Input 0, Output 1, Resize 2), the length, and the payload verbatim. */
  lemma EncodeEvtLayout(e: RawEvt)
    ensures var r := EncodeEvt(e);
            var n := |Varint(|e.payload| % U32_LIMIT)|;
            && 1 <= n <= 5
            && |r| == 4 + 1 + n + |e.payload|
            && r[..4] == U32LE(e.elapsed)
            && FromLittleEndian(r[..4]) == e.elapsed
            && r[4] == KindCode(e.kind) && KindOfCode(r[4]) == Some(e.kind)
            && r[5..5 + n] == Varint(|e.payload| % U32_LIMIT)
            && r[5 + n..] == e.payload
  {
    FrameLayout(Frame(e.elapsed, KindCode(e.kind), e.payload));
  }

  /** Reads one event frame from the front of `s`, with the number of bytes it
      occupies; rejects what `DecodeFrame` rejects and an unknown kind byte. */
  function DecodeEvt(s: seq<Byte>): (r: Option<(RawEvt, nat)>)
    ensures r.Some? ==> 6 <= r.value.1 <= |s|
  {
    match DecodeFrame(s)
    case None => None
    case Some((f, n)) =>
      match KindOfCode(f.tag)
      case None => None
      case Some(kind) => Some((RawEvt(f.elapsed, kind, f.data), n))
  }

  /** Decoding an event frame, whatever follows it, returns the original elapsed
      value, kind and payload, and consumes exactly the frame. */
  lemma EvtRoundTrip(e: RawEvt, rest: seq<Byte>)
    requires |e.payload| < U32_LIMIT
    ensures DecodeEvt(EncodeEvt(e) + rest) == Some((e, |EncodeEvt(e)|))
  {
    FrameRoundTrip(Frame(e.elapsed, KindCode(e.kind), e.payload), rest);
  }

  /** `Caster::input` and `Caster::output` queue frames whose kind byte is 0 and 1,
      and a reader gets the bytes back with the kind they were sent as. */
  lemma InputOutputFrames(elapsed: U32, bytes: seq<Byte>)
    requires |bytes| < U32_LIMIT
    ensures EncodeEvt(InputEvt(elapsed, bytes))[4] == 0
    ensures EncodeEvt(OutputEvt(elapsed, bytes))[4] == 1
    ensures DecodeEvt(EncodeEvt(InputEvt(elapsed, bytes))).Some?
    ensures DecodeEvt(EncodeEvt(InputEvt(elapsed, bytes))).value.0 == RawEvt(elapsed, Input, bytes)
    ensures DecodeEvt(EncodeEvt(OutputEvt(elapsed, bytes))).Some?
    ensures DecodeEvt(EncodeEvt(OutputEvt(elapsed, bytes))).value.0 == RawEvt(elapsed, Output, bytes)
  {
    var i, o := InputEvt(elapsed, bytes), OutputEvt(elapsed, bytes);
    EncodeEvtLayout(i);
    EncodeEvtLayout(o);
    EvtRoundTrip(i, []);
    EvtRoundTrip(o, []);
    assert EncodeEvt(i) + [] == EncodeEvt(i);
    assert EncodeEvt(o) + [] == EncodeEvt(o);
  }

  /** The cast stream written for a sequence of events: their frames, in order. */
  function EncodeAll(es: seq<RawEvt>): seq<Byte>
  {
    if es == [] then [] else EncodeEvt(es[0]) + EncodeAll(es[1..])
  }

  lemma {:induction false} EncodeAllAppend(es: seq<RawEvt>, e: RawEvt)
    ensures EncodeAll(es + [e]) == EncodeAll(es) + EncodeEvt(e)
  {
    if es != [] {
      assert (es + [e])[1..] == es[1..] + [e];
      EncodeAllAppend(es[1..], e);
    } else {
      assert EncodeAll([e]) == EncodeEvt(e) + EncodeAll([]);
    }
  }

  /** A stream that holds the frames of `es` after some `prior` bytes, with the frame
      of `e` appended, holds the frames of `es + [e]`. */
  lemma AppendedInOrder(prior: seq<Byte>, es: seq<RawEvt>, e: RawEvt)
    ensures prior + EncodeAll(es) + EncodeEvt(e) == prior + EncodeAll(es + [e])
  {
    EncodeAllAppend(es, e);
  }

  /** Splits a cast stream into frames; None if any part of it is not a frame. */
  function DecodeStream(s: seq<Byte>): Option<seq<RawEvt>>
    decreases |s|
  {
    if s == [] then Some([])
    else
      match DecodeEvt(s)
      case None => None
      case Some((e, n)) =>
        match DecodeStream(s[n..])
        case None => None
        case Some(es) => Some([e] + es)
  }

  /** The cast stream decodes back to exactly the events written, in arrival order. */
  lemma {:induction false} StreamRoundTrip(es: seq<RawEvt>)
    requires forall k :: 0 <= k < |es| ==> |es[k].payload| < U32_LIMIT
    ensures DecodeStream(EncodeAll(es)) == Some(es)
  {
    if es != [] {
      var s := EncodeAll(es);
      EvtRoundTrip(es[0], EncodeAll(es[1..]));
      var n := |EncodeEvt(es[0])|;
      assert s[n..] == EncodeAll(es[1..]);
      StreamRoundTrip(es[1..]);
      assert [es[0]] + es[1..] == es;
    }
  }

  function Flatten(chunks: seq<seq<Byte>>): seq<Byte>
  {
    if chunks == [] then [] else Flatten(chunks[..|chunks| - 1]) + chunks[|chunks| - 1]
  }

  /** The writer task of `Caster::new`: the cast and heartbeat files (opened for
      appending, so they start with whatever they held) and, in verbose mode, the
      buffer of frames not yet logged. Each method is the body of one `select!` arm. */
  class CastWriter {
    const verboseLog: bool
    var castFile: seq<Byte>
    var hbFile: seq<Byte>
    var verboseBuf: seq<Byte>
    /** The verbose chunks handed to compression and logged, oldest first. */
    var logged: seq<seq<Byte>>

    ghost const castPrior: seq<Byte>
    ghost const hbPrior: seq<Byte>
    ghost var events: seq<RawEvt>
    ghost var beats: seq<U32>

    /** The cast file holds the frames of the events received, in order; the heartbeat
        file their timestamps; in verbose mode the logged chunks followed by the
        buffer are exactly the frames written, and with verbose logging off nothing
        is buffered or logged. */
    ghost predicate Valid()
      reads this
    {
      && castFile == castPrior + EncodeAll(events)
      && hbFile == hbPrior + EncodeBeats(beats)
      && (verboseLog ==> Flatten(logged) + verboseBuf == EncodeAll(events))
      && (!verboseLog ==> verboseBuf == [] && logged == [])
      && (forall k :: 0 <= k < |logged| ==> logged[k] != [])
    }

    constructor (verboseLog: bool, castExisting: seq<Byte>, hbExisting: seq<Byte>)
      ensures Valid()
      ensures this.verboseLog == verboseLog
      ensures castFile == castExisting && hbFile == hbExisting
      ensures verboseBuf == [] && logged == [] && events == [] && beats == []
    {
      this.verboseLog := verboseLog;
      castFile, hbFile := castExisting, hbExisting;
      verboseBuf, logged := [], [];
      castPrior, hbPrior := castExisting, hbExisting;
      events, beats := [], [];
    }

    /** A received event: its frame is appended to the cast file and, in verbose mode,
        to the verbose buffer. */
    method OnEvent(e: RawEvt)
      requires Valid()
      modifies this
      ensures Valid()
      ensures castFile == old(castFile) + EncodeEvt(e)
      ensures verboseBuf == if verboseLog then old(verboseBuf) + EncodeEvt(e) else old(verboseBuf)
      ensures hbFile == old(hbFile) && logged == old(logged)
      ensures events == old(events) + [e] && beats == old(beats)
    {
      var bytes := EncodeEvt(e);
      assert castFile + bytes == castPrior + EncodeAll(events + [e]) by {
        AppendedInOrder(castPrior, events, e);
      }
      castFile := castFile + bytes;
      if verboseLog {
        assert Flatten(logged) + (verboseBuf + bytes) == EncodeAll(events + [e]) by {
          EncodeAllAppend(events, e);
        }
        verboseBuf := verboseBuf + bytes;
      }
      events := events + [e];
    }

    /** A received heartbeat: its 4 little-endian bytes are appended to the heartbeat
        file. */
    method OnHeartbeat(ts: U32)
      requires Valid()
      modifies this
      ensures Valid()
      ensures hbFile == old(hbFile) + U32LE(ts)
      ensures castFile == old(castFile) && verboseBuf == old(verboseBuf) && logged == old(logged)
      ensures events == old(events) && beats == old(beats) + [ts]
    {
      hbFile := hbFile + U32LE(ts);
      assert (beats + [ts])[..|beats|] == beats;
      beats := beats + [ts];
    }

    /** A tick of the verbose interval (the arm is enabled only in verbose mode): a
        non-empty buffer is logged as one chunk and cleared; an empty one is left alone. */
    method OnTick()
      requires Valid() && verboseLog
      modifies this
      ensures Valid()
      ensures verboseBuf == []
      ensures logged == if old(verboseBuf) == [] then old(logged) else old(logged) + [old(verboseBuf)]
      ensures castFile == old(castFile) && hbFile == old(hbFile)
      ensures events == old(events) && beats == old(beats)
    {
      if verboseBuf != [] {
        assert (logged + [verboseBuf])[..|logged|] == logged;
        logged := logged + [verboseBuf];
        verboseBuf := [];
      }
    }
  }

  /** What a reader of a cast file that was empty when the recorder started gets back:
      the events received, in arrival order. */
  lemma CastFileDecodes(w: CastWriter)
    requires w.Valid() && w.castPrior == []
    requires forall k :: 0 <= k < |w.events| ==> |w.events[k].payload| < U32_LIMIT
    ensures DecodeStream(w.castFile) == Some(w.events)
  {
    assert w.castFile == EncodeAll(w.events);
    StreamRoundTrip(w.events);
  }
}
