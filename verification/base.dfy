/**
 * Values shared by the photo pipeline: the byte type of a Node `Buffer`,
 * and the Option/Result wrappers that stand for a missing value and for
 * a thrown error.
 */
module Base {

  /** One element of a Node `Buffer`. */
  newtype byte = b: int | 0 <= b < 0x100

  datatype Option<+T> = None | Some(value: T)

  /** `Err` is an exception thrown by the modelled code; `Ok` a normal return. */
  datatype Result<+T, +E> = Ok(value: T) | Err(error: E)

  /**
   * `Buffer.from(text, "ascii")`: one byte per character, the low eight bits
   * of its code. Node works on UTF-16 code units, so this agrees with it on
   * every character below U+10000.
   */
  function AsciiBytes(text: string): seq<byte>
  {
    seq(|text|, i requires 0 <= i < |text| => (text[i] as int % 0x100) as byte)
  }

  /** `buffer.toString("latin1")`: every byte read back as the character with that code. */
  function Latin1Text(bytes: seq<byte>): string
  {
    seq(|bytes|, i requires 0 <= i < |bytes| => bytes[i] as int as char)
  }

  /** Every character is below 0x100, so it fits in one byte unchanged. */
  predicate IsLatin1(text: string) {
    forall i :: 0 <= i < |text| ==> text[i] as int < 0x100
  }

  /** Text in the one-byte range survives encoding and decoding unchanged. */
  lemma AsciiRoundTrip(text: string)
    requires IsLatin1(text)
    ensures Latin1Text(AsciiBytes(text)) == text
  {
  }

  /** Bytes decoded as text and encoded again are the same bytes. */
  lemma Latin1RoundTrip(bytes: seq<byte>)
    ensures IsLatin1(Latin1Text(bytes))
    ensures AsciiBytes(Latin1Text(bytes)) == bytes
  {
  }

  /** Two texts in the one-byte range encode alike only when they are equal. */
  lemma AsciiInjective(t1: string, t2: string)
    requires IsLatin1(t1) && IsLatin1(t2)
    requires AsciiBytes(t1) == AsciiBytes(t2)
    ensures t1 == t2
  {
    AsciiRoundTrip(t1);
    AsciiRoundTrip(t2);
  }
}
