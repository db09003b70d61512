/**
 * The library's error type (src/error.rs) and the foreign errors it wraps.
 * Foreign errors are represented by what the core observes of them: their
 * kind where the code inspects it, and their display text.
 */
module Errors {
  import opened Bytes
  import Decimal

  /** The `std::io::ErrorKind` distinctions the core makes. */
  datatype IoErrorKind = UnexpectedEof | OtherKind(name: string)

  /** `std::io::Error`. */
  datatype IoError = IoError(kind: IoErrorKind, message: string)

  /** `std::time::SystemTimeError` (the clock read before the Unix epoch). */
  datatype SystemTimeError = SystemTimeError(message: string)

  /** `prost::DecodeError`. */
  datatype DecodeError = DecodeError(message: string)

  /** A boxed `dyn std::error::Error`, seen through its display text. */
  datatype DynError = DynError(message: string)

  datatype Error =
    | Io(io: IoError)
    | SystemTime(time: SystemTimeError)
    | ProstDecode(decode: DecodeError)
    | LenCrcMismatch(fileCrc: u32, computedCrc: u32)
    | CrcMismatch(fileCrc: u32, computedCrc: u32)
    | Wrapped(inner: DynError)
    | Msg(text: string)

  const CRC_PREFIX: string := "crc mismatch, file: "
  const CRC_MIDDLE: string := " computed: "

  /** The shared message template of the two checksum variants. */
  function CrcMessage(fileCrc: u32, computedCrc: u32): string {
    CRC_PREFIX + Decimal.Digits(fileCrc) + CRC_MIDDLE + Decimal.Digits(computedCrc)
  }

  /**
   * The `Display` text. `Io`, `SystemTime`, `ProstDecode` and `Wrapped` are
   * transparent: they show their source error's text.
   */
  function Display(e: Error): (r: string)
    ensures e.Io? ==> r == e.io.message
    ensures e.SystemTime? ==> r == e.time.message
    ensures e.ProstDecode? ==> r == e.decode.message
    ensures e.Wrapped? ==> r == e.inner.message
    ensures e.Msg? ==> r == e.text
  {
    match e
    case Io(err) => err.message
    case SystemTime(err) => err.message
    case ProstDecode(err) => err.message
    case LenCrcMismatch(f, c) => CrcMessage(f, c)
    case CrcMismatch(f, c) => CrcMessage(f, c)
    case Wrapped(err) => err.message
    case Msg(s) => s
  }

  /** `Error::wrap`. */
  function Wrap(err: DynError): (r: Error)
    ensures r.Wrapped? && Display(r) == err.message
  {
    Wrapped(err)
  }

  /** `Error::msg`: keeps only the error's text. */
  function MsgOf(err: DynError): (r: Error)
    ensures r.Msg? && Display(r) == err.message
  {
    Msg(err.message)
  }

  /** The two checksum variants render the same text; only the variant tells them apart. */
  lemma CrcVariantsRenderAlike(fileCrc: u32, computedCrc: u32)
    ensures Display(LenCrcMismatch(fileCrc, computedCrc)) == Display(CrcMismatch(fileCrc, computedCrc))
    ensures LenCrcMismatch(fileCrc, computedCrc) != CrcMismatch(fileCrc, computedCrc)
  {}

  /** The checksum message determines both values it reports. */
  lemma CrcMessageIdentifiesValues(f1: u32, c1: u32, f2: u32, c2: u32)
    ensures CrcMessage(f1, c1) == CrcMessage(f2, c2) <==> f1 == f2 && c1 == c2
  {
    if CrcMessage(f1, c1) == CrcMessage(f2, c2) {
      CrcMessageParts(f1, c1);
      CrcMessageParts(f2, c2);
      var r1, r2 := CRC_MIDDLE + Decimal.Digits(c1), CRC_MIDDLE + Decimal.Digits(c2);
      CancelPrefix(CRC_PREFIX, Decimal.Digits(f1) + r1, Decimal.Digits(f2) + r2);
      SplitAtSpace(Decimal.Digits(f1), r1, Decimal.Digits(f2), r2);
      CancelPrefix(CRC_MIDDLE, Decimal.Digits(c1), Decimal.Digits(c2));
      Decimal.DigitsInjective(f1, f2);
      Decimal.DigitsInjective(c1, c2);
    }
  }

  /** The message as its prefix, the first number, and the rest starting with a space. */
  lemma CrcMessageParts(f: u32, c: u32)
    ensures CrcMessage(f, c) == CRC_PREFIX + (Decimal.Digits(f) + (CRC_MIDDLE + Decimal.Digits(c)))
    ensures |CRC_MIDDLE + Decimal.Digits(c)| > 0 && (CRC_MIDDLE + Decimal.Digits(c))[0] == ' '
  {}

  lemma CancelPrefix(p: string, a: string, b: string)
    requires p + a == p + b
    ensures a == b
  {
    assert a == (p + a)[|p|..];
    assert b == (p + b)[|p|..];
  }

  /** A run of digits followed by a space is recovered from the concatenation. */
  lemma SplitAtSpace(d1: string, r1: string, d2: string, r2: string)
    requires Decimal.AllDigits(d1) && Decimal.AllDigits(d2)
    requires |r1| > 0 && r1[0] == ' ' && |r2| > 0 && r2[0] == ' '
    requires d1 + r1 == d2 + r2
    ensures d1 == d2 && r1 == r2
  {
    var m := if |d1| < |d2| then |d1| else |d2|;
    assert (d1 + r1)[m] == (d2 + r2)[m];
    assert |d1| == |d2|;
    assert d1 == (d1 + r1)[..|d1|] && d2 == (d2 + r2)[..|d2|];
    assert r1 == (d1 + r1)[|d1|..] && r2 == (d2 + r2)[|d2|..];
  }
}
