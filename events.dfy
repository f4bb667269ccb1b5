/** The recorded terminal events. `src/caster/cast.rs` and `src/models/logger.rs`
    each declare the same `EventKind` and `RawEvt`, and build the same resize payload;
    they are declared once here and shared by both writers. */
module Events {
  import opened Wrappers
  import opened Bytes

  datatype EventKind = Input | Output | Resize

  /** An event as it is queued for the writer. The `f32` elapsed time is kept as its
      IEEE-754 bit pattern, whose little-endian bytes are what `f32::to_le_bytes`
      writes; nothing in the model interprets it as a number. */
  datatype RawEvt = RawEvt(elapsed: U32, kind: EventKind, payload: seq<Byte>)

  /** The discriminant of `e.kind as u8`. */
  function KindCode(k: EventKind): (b: Byte)
    ensures b < 3
    ensures KindOfCode(b) == Some(k)
  {
    match k
    case Input => 0
    case Output => 1
    case Resize => 2
  }

  /** The inverse of `KindCode`: rejects every byte that is not a discriminant. */
  function KindOfCode(b: Byte): (r: Option<EventKind>)
    ensures r.Some? <==> b < 3
  {
    if b == 0 then Some(Input)
    else if b == 1 then Some(Output)
    else if b == 2 then Some(Resize)
    else None
  }

  /** The payload of a resize event: `rows` then `cols`, each as a little-endian u16. */
  function ResizePayload(rows: U16, cols: U16): (p: seq<Byte>)
    ensures |p| == 4
  {
    U16LE(rows) + U16LE(cols)
  }

  function DecodeResize(p: seq<Byte>): (r: Option<(U16, U16)>)
    ensures r.Some? <==> |p| == 4
  {
    if |p| != 4 then None
    else
      PowersOfU32();
      Some((FromLittleEndian(p[..2]), FromLittleEndian(p[2..])))
  }

  /** A resize payload is read back as the rows and columns it was built from. */
  lemma ResizeRoundTrip(rows: U16, cols: U16)
    ensures DecodeResize(ResizePayload(rows, cols)) == Some((rows, cols))
  {
    var p := ResizePayload(rows, cols);
    assert p[..2] == U16LE(rows) && p[2..] == U16LE(cols);
    U16RoundTrip(rows);
    U16RoundTrip(cols);
  }

  /** `Caster::input` / `Logger::input`. */
  function InputEvt(elapsed: U32, bytes: seq<Byte>): RawEvt
  {
    RawEvt(elapsed, Input, bytes)
  }

  /** `Caster::output` / `Logger::output`. */
  function OutputEvt(elapsed: U32, bytes: seq<Byte>): RawEvt
  {
    RawEvt(elapsed, Output, bytes)
  }

  /** `Caster::resize` / `Logger::resize`: a resize event whose payload yields back
      the new size. */
  function ResizeEvt(elapsed: U32, rows: U16, cols: U16): (e: RawEvt)
    ensures e.kind == Resize && e.elapsed == elapsed && |e.payload| == 4
    ensures DecodeResize(e.payload) == Some((rows, cols))
  {
    ResizeRoundTrip(rows, cols);
    RawEvt(elapsed, Resize, ResizePayload(rows, cols))
  }

  /** The heartbeat stream (the same in both writers) for a sequence of `u32`
      timestamps: each as 4 little-endian bytes, with no separator. */
  function EncodeBeats(ts: seq<U32>): seq<Byte>
  {
    if ts == [] then [] else EncodeBeats(ts[..|ts| - 1]) + U32LE(ts[|ts| - 1])
  }

  /** Heartbeat k occupies bytes 4k..4k+4 of the stream, so the stream is read back
      by splitting it into 4-byte little-endian words. */
  lemma {:induction false} BeatsLayout(ts: seq<U32>, k: nat)
    requires k < |ts|
    ensures |EncodeBeats(ts)| == 4 * |ts|
    ensures EncodeBeats(ts)[4 * k..4 * k + 4] == U32LE(ts[k])
    ensures FromLittleEndian(EncodeBeats(ts)[4 * k..4 * k + 4]) == ts[k]
    decreases |ts|
  {
    var init := ts[..|ts| - 1];
    BeatsLength(init);
    if k < |ts| - 1 {
      BeatsLayout(init, k);
      assert EncodeBeats(ts)[4 * k..4 * k + 4] == EncodeBeats(init)[4 * k..4 * k + 4];
    } else {
      assert EncodeBeats(ts)[4 * k..4 * k + 4] == U32LE(ts[k]);
    }
    U32RoundTrip(ts[k]);
  }

  lemma {:induction false} BeatsLength(ts: seq<U32>)
    ensures |EncodeBeats(ts)| == 4 * |ts|
    decreases |ts|
  {
    if ts != [] {
      BeatsLength(ts[..|ts| - 1]);
    }
  }

  /** The record shape both writers use: 4 bytes of elapsed time, one tag byte, the
      data length as a varint (`data.len() as u32`, so truncated to 32 bits), then
      the data. */
  datatype Frame = Frame(elapsed: U32, tag: Byte, data: seq<Byte>)

  function EncodeFrame(f: Frame): seq<Byte>
  {
    U32LE(f.elapsed) + [f.tag] + Varint(|f.data| % U32_LIMIT) + f.data
  }

  /** The fields of a frame, by position. */
  lemma FrameLayout(f: Frame)
    ensures var r := EncodeFrame(f);
            var n := |Varint(|f.data| % U32_LIMIT)|;
            && 1 <= n <= 5
            && |r| == 4 + 1 + n + |f.data|
            && r[..4] == U32LE(f.elapsed)
            && FromLittleEndian(r[..4]) == f.elapsed
            && r[4] == f.tag
            && r[5..5 + n] == Varint(|f.data| % U32_LIMIT)
            && r[5 + n..] == f.data
  {
    VarintLengthOfU32(|f.data| % U32_LIMIT);
    U32RoundTrip(f.elapsed);
  }

  /** Reads one frame from the front of `s`, with the number of bytes it occupies.
      Rejects an unterminated varint and data that runs past the end of `s`. */
  function DecodeFrame(s: seq<Byte>): (r: Option<(Frame, nat)>)
    ensures r.Some? ==> 6 <= r.value.1 <= |s|
  {
    if |s| < 5 then None
    else
      match DecodeVarint(s[5..])
      case None => None
      case Some((len, n)) =>
        if len > |s| - 5 - n then None
        else
          PowersOfU32();
          Some((Frame(FromLittleEndian(s[..4]), s[4], s[5 + n..5 + n + len]), 5 + n + len))
  }

  /** What `DecodeFrame` reads once the varint at offset 5 is known. */
  lemma DecodeFrameParts(s: seq<Byte>, len: nat, n: nat)
    requires |s| >= 5 && DecodeVarint(s[5..]) == Some((len, n)) && len <= |s| - 5 - n
    ensures DecodeFrame(s) == Some((Frame(FromLittleEndian(s[..4]), s[4], s[5 + n..5 + n + len]), 5 + n + len))
  {
    PowersOfU32();
  }

  /** Where the fields of a frame sit in the frame followed by `rest`. */
  lemma FrameParts(f: Frame, rest: seq<Byte>)
    ensures var s := EncodeFrame(f) + rest;
            var v := Varint(|f.data| % U32_LIMIT);
            && |s| == 5 + |v| + |f.data| + |rest|
            && s[..4] == U32LE(f.elapsed)
            && s[4] == f.tag
            && s[5..] == v + (f.data + rest)
            && s[5 + |v|..5 + |v| + |f.data|] == f.data
  {
    var v := Varint(|f.data| % U32_LIMIT);
    var s := EncodeFrame(f) + rest;
    assert s == U32LE(f.elapsed) + ([f.tag] + (v + (f.data + rest)));
  }

  /** A frame is self-delimiting: decoding it, whatever follows, returns the original
      elapsed value, tag and data, and consumes exactly the frame. */
  lemma FrameRoundTrip(f: Frame, rest: seq<Byte>)
    requires |f.data| < U32_LIMIT
    ensures DecodeFrame(EncodeFrame(f) + rest) == Some((f, |EncodeFrame(f)|))
  {
    var len := |f.data|;
    var s := EncodeFrame(f) + rest;
    assert len % U32_LIMIT == len;
    var v := Varint(len);
    FrameParts(f, rest);
    VarintRoundTrip(len, f.data + rest);
    U32RoundTrip(f.elapsed);
    DecodeFrameParts(s, len, |v|);
  }

  /** Data of 4 GiB or more does not survive the round trip: the length field holds
      only the low 32 bits of its length. */
  lemma OversizedDataTruncated(f: Frame)
    requires |f.data| >= U32_LIMIT
    ensures DecodeFrame(EncodeFrame(f)) != Some((f, |EncodeFrame(f)|))
  {
    var len := |f.data| % U32_LIMIT;
    var s := EncodeFrame(f);
    var v := Varint(len);
    assert s[5..] == v + f.data;
    VarintRoundTrip(len, f.data);
    assert len < |f.data|;
  }
}
