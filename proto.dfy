/**
 * The `tensorboard.Event` message and the protobuf codec, as the core sees
 * them. The codec is a parameter: a triple of functions (`encode`,
 * `encoded_len`, `decode`) and the laws a correct protobuf codec obeys.
 * Floating-point fields are carried as their IEEE-754 bit patterns; nested
 * messages the core never inspects are carried as their serialized bytes.
 */
module Proto {
  import opened Wrappers
  import opened Bytes
  import opened Errors

  type i64 = x: int | -0x8000_0000_0000_0000 <= x < 0x8000_0000_0000_0000

  /** An `f64`, as its bit pattern. */
  type F64 = bv64
  /** An `f32`, as its bit pattern. */
  type F32 = bv32

  /** A nested message the core does not look into. */
  datatype Opaque = Opaque(bytes: seq<u8>)

  datatype SourceMetadata = SourceMetadata(writer: string)

  /** `summary::value::Value`. */
  datatype ValueKind =
    | SimpleValue(simpleValue: F32)
    | ObsoleteOldStyleHistogram(obsolete: Opaque)
    | Image(image: Opaque)
    | Histo(histo: Opaque)
    | Audio(audio: Opaque)
    | Tensor(tensor: Opaque)

  /** `summary::Value`. */
  datatype SummaryValue = SummaryValue(
    nodeName: string,
    tag: string,
    metadata: Option<Opaque>,
    value: Option<ValueKind>)

  datatype Summary = Summary(value: seq<SummaryValue>)

  /** `event::What`. */
  datatype What =
    | FileVersion(fileVersion: string)
    | GraphDef(graphDef: seq<u8>)
    | SummaryWhat(summary: Summary)
    | LogMessage(logMessage: Opaque)
    | SessionLog(sessionLog: Opaque)
    | TaggedRunMetadata(taggedRunMetadata: Opaque)

  datatype Event = Event(
    wallTime: F64,
    step: i64,
    sourceMetadata: Option<SourceMetadata>,
    what: Option<What>)

  /** The file-version string of the mandatory leading record. */
  const FILE_VERSION: string := "brain.Event:2"

  /**
   * A reading of the system clock against the Unix epoch: the whole seconds
   * (`as_secs`) and the `f64` wall time the writers compute from the
   * duration, or the error of a clock set before the epoch.
   */
  datatype Clock = SinceEpoch(secs: u64, wallTime: F64) | BeforeEpoch(err: SystemTimeError)

  /** The protobuf codec the framing is parameterised by. */
  datatype Codec = Codec(
    encode: Event -> seq<u8>,
    encodedLen: Event -> u64,
    decode: seq<u8> -> Result<Event, DecodeError>)

  /** `encoded_len(e)` is the length of the encoding of `e`. */
  ghost predicate LengthAgrees(c: Codec, e: Event) {
    |c.encode(e)| == c.encodedLen(e)
  }

  /**
   * The laws a correct codec obeys on `e`: decoding its encoding gives `e`
   * back, and `encoded_len` is the length of the encoding. They are stated
   * per event: no codec obeys them on every event at once, since there are
   * infinitely many events and only finitely many encodings whose length
   * fits the `u64` that `encoded_len` returns.
   */
  ghost predicate LawfulFor(c: Codec, e: Event) {
    c.decode(c.encode(e)) == Ok(e) && LengthAgrees(c, e)
  }

  /** The laws hold on every event of `events`. */
  ghost predicate LawfulOn(c: Codec, events: seq<Event>) {
    forall i :: 0 <= i < |events| ==> LawfulFor(c, events[i])
  }

  /** Two events on which the codec is lawful are encoded differently exactly when they differ. */
  lemma EncodeInjective(c: Codec, e1: Event, e2: Event)
    requires LawfulFor(c, e1) && LawfulFor(c, e2)
    ensures c.encode(e1) == c.encode(e2) <==> e1 == e2
  {
    if c.encode(e1) == c.encode(e2) {
      assert c.decode(c.encode(e1)) == Ok(e1);
      assert c.decode(c.encode(e2)) == Ok(e2);
    }
  }
}
