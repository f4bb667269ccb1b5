/** The session logger of `src/models/logger.rs`: the same record shape as the cast
    frames, except that a payload above a size threshold is compressed (zstd, left
    abstract here as a function parameter) and bit 7 of the kind byte says so. */
module Logger {
  import opened Wrappers
  import opened Bytes
  import opened Events

  /** Payloads longer than this many bytes are compressed. */
  const COMPRESS_THRESHOLD: nat := 256

  const COMPRESSED_FLAG: bv8 := 0x80

  /** `encode_payload`: the compression flag and the bytes to write. */
  function EncodePayload(raw: seq<Byte>, compress: seq<Byte> -> seq<Byte>): (r: (bool, seq<Byte>))
    ensures r.0 <==> |raw| > COMPRESS_THRESHOLD
    ensures !r.0 ==> r.1 == raw
  {
    if |raw| > COMPRESS_THRESHOLD then (true, compress(raw)) else (false, raw)
  }

  /** `(kind as u8) | if compressed { 0b1000_0000 } else { 0 }`. */
  function KindByte(kind: EventKind, compressed: bool): Byte
  {
    ((KindCode(kind) as bv8) | (if compressed then COMPRESSED_FLAG else 0)) as int
  }

  /** The flag and the kind occupy separate bits: bit 7 is set exactly when the data
      is compressed and the low seven bits are the kind discriminant. */
  lemma KindByteFields(kind: EventKind, compressed: bool)
    ensures KindByte(kind, compressed) >= 128 <==> compressed
    ensures KindByte(kind, compressed) % 128 == KindCode(kind)
  {
    match kind
    case Input =>
    case Output =>
    case Resize =>
  }

  /** Splits a kind byte into the compression flag and the kind. */
  function DecodeKindByte(b: Byte): (bool, Option<EventKind>)
  {
    (b >= 128, KindOfCode(b % 128))
  }

  lemma KindByteRoundTrip(kind: EventKind, compressed: bool)
    ensures DecodeKindByte(KindByte(kind, compressed)) == (compressed, Some(kind))
  {
    KindByteFields(kind, compressed);
  }

  /** What `write_cast` writes for one event: the frame whose tag is the kind byte
      with the compression flag and whose data is what `encode_payload` returned. */
  function Record(e: RawEvt, compress: seq<Byte> -> seq<Byte>): seq<Byte>
  {
    var p := EncodePayload(e.payload, compress);
    EncodeFrame(Frame(e.elapsed, KindByte(e.kind, p.0), p.1))
  }

  /** The fields of a record, by position: the length field counts the bytes written
      after compression, not the original payload, and nothing follows the data. */
  lemma RecordLayout(e: RawEvt, compress: seq<Byte> -> seq<Byte>)
    ensures var r := Record(e, compress);
            var data := EncodePayload(e.payload, compress).1;
            var n := |Varint(|data| % U32_LIMIT)|;
            && 1 <= n <= 5
            && |r| == 4 + 1 + n + |data|
            && FromLittleEndian(r[..4]) == e.elapsed
            && r[4] == KindByte(e.kind, |e.payload| > COMPRESS_THRESHOLD)
            && r[5..5 + n] == Varint(|data| % U32_LIMIT)
            && r[5 + n..] == data
  {
    var p := EncodePayload(e.payload, compress);
    FrameLayout(Frame(e.elapsed, KindByte(e.kind, p.0), p.1));
  }

  /** A record as a reader sees it: the flag is reported, the data is not decompressed. */
  datatype DecodedRecord = DecodedRecord(elapsed: U32, compressed: bool, kind: EventKind, data: seq<Byte>)

  /** Reads one record from the front of `s`, with the number of bytes it occupies. */
  function DecodeRecord(s: seq<Byte>): (r: Option<(DecodedRecord, nat)>)
    ensures r.Some? ==> 6 <= r.value.1 <= |s|
  {
    match DecodeFrame(s)
    case None => None
    case Some((f, n)) =>
      var (compressed, kind) := DecodeKindByte(f.tag);
      match kind
      case None => None
      case Some(k) => Some((DecodedRecord(f.elapsed, compressed, k, f.data), n))
  }

  /** A record is self-delimiting and decodes to its elapsed value, its flag (set
      exactly for payloads over the threshold), its kind and the data written. */
  lemma RecordRoundTrip(e: RawEvt, compress: seq<Byte> -> seq<Byte>, rest: seq<Byte>)
    requires |EncodePayload(e.payload, compress).1| < U32_LIMIT
    ensures DecodeRecord(Record(e, compress) + rest)
         == Some((DecodedRecord(e.elapsed, |e.payload| > COMPRESS_THRESHOLD, e.kind,
                                EncodePayload(e.payload, compress).1),
                  |Record(e, compress)|))
  {
    var p := EncodePayload(e.payload, compress);
    FrameRoundTrip(Frame(e.elapsed, KindByte(e.kind, p.0), p.1), rest);
    KindByteRoundTrip(e.kind, p.0);
  }

  /** A payload at or under the threshold is written as it is, so a reader gets back
      the original kind and payload with the flag clear. */
  lemma UncompressedRoundTrip(e: RawEvt, compress: seq<Byte> -> seq<Byte>)
    requires |e.payload| <= COMPRESS_THRESHOLD
    ensures DecodeRecord(Record(e, compress))
         == Some((DecodedRecord(e.elapsed, false, e.kind, e.payload), |Record(e, compress)|))
  {
    RecordRoundTrip(e, compress, []);
    assert Record(e, compress) + [] == Record(e, compress);
  }

  /** The payload a reader recovers, given the decompressor. */
  function RecoveredPayload(d: DecodedRecord, decompress: seq<Byte> -> seq<Byte>): seq<Byte>
  {
    if d.compressed then decompress(d.data) else d.data
  }

  /** With a decompressor that undoes the compressor, every record yields back the
      original payload, compressed or not. */
  lemma PayloadRoundTrip(e: RawEvt, compress: seq<Byte> -> seq<Byte>,
                         decompress: seq<Byte> -> seq<Byte>)
    requires forall x :: decompress(compress(x)) == x
    requires |EncodePayload(e.payload, compress).1| < U32_LIMIT
    ensures DecodeRecord(Record(e, compress)).Some?
    ensures RecoveredPayload(DecodeRecord(Record(e, compress)).value.0, decompress) == e.payload
  {
    RecordRoundTrip(e, compress, []);
    assert Record(e, compress) + [] == Record(e, compress);
  }

  /** A resize record carries its 4-byte size payload uncompressed: the kind byte is
      the bare Resize discriminant and the rows and columns are read back. */
  lemma ResizeNeverCompressed(elapsed: U32, rows: U16, cols: U16, compress: seq<Byte> -> seq<Byte>)
    ensures var r := Record(ResizeEvt(elapsed, rows, cols), compress);
            && |r| == 4 + 1 + 1 + 4
            && r[4] == KindCode(Resize)
            && DecodeResize(r[6..]) == Some((rows, cols))
  {
    var e := ResizeEvt(elapsed, rows, cols);
    UncompressedRoundTrip(e, compress);
    RecordLayout(e, compress);
    KindByteFields(Resize, false);
    assert Varint(4) == [4];
  }

  /** The log file for a sequence of events: their records, in order. */
  function RecordAll(es: seq<RawEvt>, compress: seq<Byte> -> seq<Byte>): seq<Byte>
  {
    if es == [] then [] else Record(es[0], compress) + RecordAll(es[1..], compress)
  }

  lemma {:induction false} RecordAllAppend(es: seq<RawEvt>, e: RawEvt, compress: seq<Byte> -> seq<Byte>)
    ensures RecordAll(es + [e], compress) == RecordAll(es, compress) + Record(e, compress)
  {
    if es != [] {
      assert (es + [e])[1..] == es[1..] + [e];
      RecordAllAppend(es[1..], e, compress);
    } else {
      assert RecordAll([e], compress) == Record(e, compress) + RecordAll([], compress);
    }
  }

  /** Appending the four fields of a record one after the other appends the record. */
  lemma RecordInSteps(s: seq<Byte>, e: RawEvt, compress: seq<Byte> -> seq<Byte>)
    ensures var p := EncodePayload(e.payload, compress);
            s + U32LE(e.elapsed) + [KindByte(e.kind, p.0)] + Varint(|p.1| % U32_LIMIT) + p.1
            == s + Record(e, compress)
  {
  }

  /** A log holding the records of `es` after `prior`, with the record of `e`
      appended, holds the records of `es + [e]`. */
  lemma LogAppend(prior: seq<Byte>, es: seq<RawEvt>, e: RawEvt, compress: seq<Byte> -> seq<Byte>)
    ensures prior + RecordAll(es, compress) + Record(e, compress) == prior + RecordAll(es + [e], compress)
  {
    RecordAllAppend(es, e, compress);
  }

  /** What a reader gets from the record of `e`: the elapsed value, the flag, the kind
      and the bytes `encode_payload` wrote. */
  function WrittenRecord(e: RawEvt, compress: seq<Byte> -> seq<Byte>): DecodedRecord
  {
    DecodedRecord(e.elapsed, |e.payload| > COMPRESS_THRESHOLD, e.kind, EncodePayload(e.payload, compress).1)
  }

  function WrittenRecords(es: seq<RawEvt>, compress: seq<Byte> -> seq<Byte>): seq<DecodedRecord>
  {
    seq(|es|, k requires 0 <= k < |es| => WrittenRecord(es[k], compress))
  }

  /** Reads records from the front of `s` until it is exhausted. */
  function DecodeRecords(s: seq<Byte>): Option<seq<DecodedRecord>>
    decreases |s|
  {
    if s == [] then Some([])
    else
      match DecodeRecord(s)
      case None => None
      case Some((d, n)) =>
        match DecodeRecords(s[n..])
        case None => None
        case Some(ds) => Some([d] + ds)
  }

  /** A log of records decodes back to the records of the events written, in order. */
  lemma {:induction false} RecordsRoundTrip(es: seq<RawEvt>, compress: seq<Byte> -> seq<Byte>)
    requires forall k :: 0 <= k < |es| ==> |EncodePayload(es[k].payload, compress).1| < U32_LIMIT
    ensures DecodeRecords(RecordAll(es, compress)) == Some(WrittenRecords(es, compress))
  {
    if es != [] {
      var s := RecordAll(es, compress);
      RecordRoundTrip(es[0], compress, RecordAll(es[1..], compress));
      var n := |Record(es[0], compress)|;
      assert s[n..] == RecordAll(es[1..], compress);
      RecordsRoundTrip(es[1..], compress);
      assert WrittenRecords(es, compress) == [WrittenRecord(es[0], compress)] + WrittenRecords(es[1..], compress);
    }
  }

  /** The writer task of `Logger::new`: the cast log and the heartbeat file, both
      opened for appending. Each method is the body of one `select!` arm. */
  class LogWriter {
    /** zstd at level 1, left abstract. */
    const compress: seq<Byte> -> seq<Byte>
    var castFile: seq<Byte>
    var hbFile: seq<Byte>

    ghost const castPrior: seq<Byte>
    ghost const hbPrior: seq<Byte>
    ghost var events: seq<RawEvt>
    ghost var beats: seq<U32>

    /** The cast log holds the records of the events received, in order (read back by
        `CastLogDecodes`); the heartbeat file their timestamps. */
    ghost predicate Valid()
      reads this
    {
      && castFile == castPrior + RecordAll(events, compress)
      && hbFile == hbPrior + EncodeBeats(beats)
    }

    constructor (compress: seq<Byte> -> seq<Byte>, castExisting: seq<Byte>, hbExisting: seq<Byte>)
      ensures Valid()
      ensures this.compress == compress
      ensures castFile == castExisting && hbFile == hbExisting
      ensures events == [] && beats == []
    {
      this.compress := compress;
      castFile, hbFile := castExisting, hbExisting;
      castPrior, hbPrior := castExisting, hbExisting;
      events, beats := [], [];
    }

    /** `write_cast`: appends the record of `e` field by field. */
    method WriteCast(e: RawEvt)
      requires Valid()
      modifies this
      ensures Valid()
      ensures castFile == old(castFile) + Record(e, compress)
      ensures hbFile == old(hbFile) && events == old(events) + [e] && beats == old(beats)
    {
      ghost var before := castFile;
      castFile := castFile + U32LE(e.elapsed);
      var p := EncodePayload(e.payload, compress);
      var compressed, data := p.0, p.1;
      var kindByte := KindByte(e.kind, compressed);
      castFile := castFile + [kindByte];
      var vLen := Varint(|data| % U32_LIMIT);
      castFile := castFile + vLen;
      castFile := castFile + data;
      assert castFile == before + Record(e, compress) by {
        RecordInSteps(before, e, compress);
      }
      assert castFile == castPrior + RecordAll(events + [e], compress) by {
        LogAppend(castPrior, events, e, compress);
      }
      events := events + [e];
    }

    /** A received heartbeat: its 4 little-endian bytes are appended. */
    method OnHeartbeat(ts: U32)
      requires Valid()
      modifies this
      ensures Valid()
      ensures hbFile == old(hbFile) + U32LE(ts)
      ensures castFile == old(castFile) && events == old(events) && beats == old(beats) + [ts]
    {
      hbFile := hbFile + U32LE(ts);
      assert (beats + [ts])[..|beats|] == beats;
      beats := beats + [ts];
    }
  }

  /** A cast log started empty decodes to one record per event received, in arrival
      order; with a decompressor that undoes the compressor, each record yields the
      event's elapsed value, kind and original payload. */
  lemma CastLogDecodes(w: LogWriter, decompress: seq<Byte> -> seq<Byte>)
    requires w.Valid() && w.castPrior == []
    requires forall x :: decompress(w.compress(x)) == x
    requires forall k :: 0 <= k < |w.events| ==> |EncodePayload(w.events[k].payload, w.compress).1| < U32_LIMIT
    ensures DecodeRecords(w.castFile) == Some(WrittenRecords(w.events, w.compress))
    ensures forall k :: 0 <= k < |w.events| ==>
              var d := WrittenRecords(w.events, w.compress)[k];
              && d.elapsed == w.events[k].elapsed && d.kind == w.events[k].kind
              && RecoveredPayload(d, decompress) == w.events[k].payload
  {
    assert w.castFile == RecordAll(w.events, w.compress);
    RecordsRoundTrip(w.events, w.compress);
  }
}
