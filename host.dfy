/**
 * What the mail code takes from its JavaScript host, passed in as values: the
 * clock read by `new Date()`, the `Date` string parser, and Node's `Buffer`
 * conversions between text, UTF-8 bytes and base64.
 */
module Host {
  import opened Wrappers
  import opened Types
  import Base64

  /**
   * The host facilities the parsers call.
   * - `now`: the instant `new Date()` reads while a message is parsed.
   * - `parseDate`: `new Date(text)`; `None` where that yields an Invalid Date,
   *   on which `toISOString` throws.
   * - `lenientBase64`: the bytes `Buffer.from(text, 'base64')` returns for text
   *   that is not canonical base64 (Buffer skips what it does not understand
   *   and never throws).
   * - `utf8Decode` / `utf8Encode`: `buffer.toString('utf-8')` and
   *   `Buffer.from(text, 'utf-8')`.
   */
  datatype Runtime = Runtime(
    now: Instant,
    parseDate: string -> Option<Instant>,
    lenientBase64: string -> seq<Base64.byte>,
    utf8Decode: seq<Base64.byte> -> string,
    utf8Encode: string -> seq<Base64.byte>)

  /** `Buffer.from(text, 'base64')`: the RFC 4648 decoding of canonical text, the host's lenient reading otherwise. */
  function BufferFromBase64(rt: Runtime, text: string): (b: seq<Base64.byte>)
    ensures Base64.Decode(text).Some? ==> Base64.Encode(b) == text
    ensures forall bytes :: Base64.Encode(bytes) == text ==> b == bytes
  {
    EncodingsDecode(text);
    match Base64.Decode(text)
    case Some(b) => Base64.EncodeDecode(text); b
    case None => rt.lenientBase64(text)
  }

  /** Canonical text is decoded to the bytes whose encoding it is. */
  lemma EncodingsDecode(text: string)
    ensures forall bytes :: Base64.Encode(bytes) == text ==> Base64.Decode(text) == Some(bytes)
  {
    forall bytes | Base64.Encode(bytes) == text ensures Base64.Decode(text) == Some(bytes) {
      Base64.DecodeEncode(bytes);
    }
  }

  /**
   * `Buffer.from(text, 'base64').toString('utf-8')`. It never throws; text that
   * is the base64 of some bytes reads as the UTF-8 decoding of those bytes.
   */
  function Base64ToText(rt: Runtime, text: string): (r: string)
    ensures forall bytes :: Base64.Encode(bytes) == text ==> r == rt.utf8Decode(bytes)
  {
    rt.utf8Decode(BufferFromBase64(rt, text))
  }

  /** `Buffer.from(text, 'utf-8').toString('base64')`: canonical base64 of the UTF-8 bytes. */
  function TextToBase64(rt: Runtime, text: string): (r: string)
    ensures Base64.Decode(r) == Some(rt.utf8Encode(text))
    ensures |r| == 4 * ((|rt.utf8Encode(text)| + 2) / 3)
  {
    Base64.DecodeEncode(rt.utf8Encode(text));
    Base64.Encode(rt.utf8Encode(text))
  }

  /**
   * Text written with `TextToBase64` reads back with `Base64ToText`, for any
   * text the host's UTF-8 codec round-trips.
   */
  lemma TextBase64RoundTrip(rt: Runtime, text: string)
    requires rt.utf8Decode(rt.utf8Encode(text)) == text
    ensures Base64ToText(rt, TextToBase64(rt, text)) == text
  {
    Base64.DecodeEncode(rt.utf8Encode(text));
  }
}
