/**
 * The official identifier appended after a JPEG's end-of-image marker
 * (`addWatermarkSignature`): the buffer is cut just after its LAST
 * `FF D9` pair, then the trailer `FF 02`, a big-endian 16-bit length
 * (the length field plus the payload) and the ASCII payload follow.
 */
module Signature {
  import opened Base

  const WATERMARK_MARKER: seq<byte> := [0xFF, 0x02]
  const WATERMARK_TEXT: string := "gjgwy2"
  const WATERMARK_DATA: seq<byte> := AsciiBytes(WATERMARK_TEXT)

  /** The JPEG end-of-image marker `FF D9`. */
  const EOI_FIRST: byte := 0xFF
  const EOI_SECOND: byte := 0xD9

  datatype SignError = NoEndOfImage

  /** `Buffer.writeUInt16BE`: high byte first. */
  function WriteUInt16BE(v: int): (bytes: seq<byte>)
    requires 0 <= v < 0x1_0000
    ensures |bytes| == 2 && ReadUInt16BE(bytes) == v
  {
    [(v / 0x100) as byte, (v % 0x100) as byte]
  }

  /** The reading counterpart of `WriteUInt16BE`. */
  function ReadUInt16BE(bytes: seq<byte>): int
    requires |bytes| == 2
  {
    bytes[0] as int * 0x100 + bytes[1] as int
  }

  /** Marker, length field and payload, in that order. */
  function Trailer(): (t: seq<byte>)
    ensures |t| == |WATERMARK_MARKER| + 2 + |WATERMARK_DATA|
    ensures t[..2] == WATERMARK_MARKER && t[4..] == WATERMARK_DATA
    ensures ReadUInt16BE(t[2..4]) == 2 + |WATERMARK_DATA|
  {
    WATERMARK_MARKER + WriteUInt16BE(2 + |WATERMARK_DATA|) + WATERMARK_DATA
  }

  /** The ten bytes every signed file ends with. */
  lemma TrailerBytes()
    ensures Trailer() == [0xFF, 0x02, 0x00, 0x08, 0x67, 0x6A, 0x67, 0x77, 0x79, 0x32]
  {
    assert WATERMARK_DATA == [0x67, 0x6A, 0x67, 0x77, 0x79, 0x32];
  }

  predicate IsEoiAt(b: seq<byte>, i: int) {
    0 <= i && i + 1 < |b| && b[i] == EOI_FIRST && b[i + 1] == EOI_SECOND
  }

  ghost predicate HasEoi(b: seq<byte>) {
    exists i :: IsEoiAt(b, i)
  }

  /** `p` starts an end-of-image marker and no marker starts after it. */
  ghost predicate IsLastEoi(b: seq<byte>, p: int) {
    IsEoiAt(b, p) && forall j :: p < j ==> !IsEoiAt(b, j)
  }

  /** The position of the last `FF D9` pair, found from the end of the buffer. */
  function LastEoi(b: seq<byte>): (r: Option<nat>)
    ensures r.None? <==> !HasEoi(b)
    ensures r.Some? ==> IsLastEoi(b, r.value)
  {
    if |b| < 2 then None
    else if IsEoiAt(b, |b| - 2) then Some(|b| - 2)
    else
      var shorter := b[..|b| - 1];
      assert forall j :: IsEoiAt(b, j) && j != |b| - 2 ==> IsEoiAt(shorter, j);
      assert forall j :: IsEoiAt(shorter, j) ==> IsEoiAt(b, j);
      LastEoi(shorter)
  }

  /** What signing a buffer yields: the buffer up to its last marker, then the trailer. */
  function Sign(b: seq<byte>): (r: Result<seq<byte>, SignError>)
    ensures r.Err? <==> !HasEoi(b)
    ensures |b| < 2 ==> r.Err?
  {
    match LastEoi(b)
    case None => Err(NoEndOfImage)
    case Some(p) => Ok(b[..p + 2] + Trailer())
  }

  /** `addWatermarkSignature`: the backward scan, the cut and the concatenation. */
  method AddWatermarkSignature(jpeg: seq<byte>) returns (r: Result<seq<byte>, SignError>)
    ensures r == Sign(jpeg)
  {
    var eoiPos := -1;
    var i := |jpeg| - 2;
    while i >= 0
      invariant i <= |jpeg| - 2 && (-1 <= i || i == |jpeg| - 2)
      invariant forall j :: i < j ==> !IsEoiAt(jpeg, j)
    {
      if jpeg[i] == EOI_FIRST && jpeg[i + 1] == EOI_SECOND {
        eoiPos := i;
        break;
      }
      i := i - 1;
    }
    if eoiPos == -1 {
      return Err(NoEndOfImage);
    }
    LastEoiUnique(jpeg, eoiPos);
    var jpegCore := jpeg[..eoiPos + 2];
    var totalLength := 2 + |WATERMARK_DATA|;
    var lengthBuffer := WriteUInt16BE(totalLength);
    var watermarkSignature := WATERMARK_MARKER + lengthBuffer + WATERMARK_DATA;
    r := Ok(jpegCore + watermarkSignature);
  }

  lemma LastEoiUnique(b: seq<byte>, p: int)
    requires IsLastEoi(b, p)
    ensures LastEoi(b) == Some(p)
  {
  }

  /** A successful signature keeps the input up to and including its last marker. */
  lemma SignedLayout(b: seq<byte>)
    requires HasEoi(b)
    ensures LastEoi(b).Some?
    ensures var p := LastEoi(b).value;
            var out := Sign(b).value;
            && |out| == p + 2 + 4 + |WATERMARK_DATA|
            && out[..p + 2] == b[..p + 2]
            && out[p + 2..] == Trailer()
            && IsLastEoi(out, p)
  {
    var p := LastEoi(b).value;
    var out := Sign(b).value;
    assert out[..p + 2] == b[..p + 2];
    assert out[p + 2..] == Trailer();
    TrailerBytes();
    forall j | p < j
      ensures !IsEoiAt(out, j)
    {
      if j == p + 1 {
        assert out[j] == EOI_SECOND;
      } else if j + 1 < |out| {
        assert out[j + 1] == Trailer()[j - p - 1];
      }
    }
  }

  /** The signed output ends with the ten trailer bytes. */
  lemma SignedEndsWithTrailer(b: seq<byte>)
    requires HasEoi(b)
    ensures var out := Sign(b).value;
            && |out| >= 12
            && out[|out| - 10..] == [0xFF, 0x02, 0x00, 0x08, 0x67, 0x6A, 0x67, 0x77, 0x79, 0x32]
            && IsEoiAt(out, |out| - 12)
  {
    SignedLayout(b);
    TrailerBytes();
    var out := Sign(b).value;
    assert out[|out| - 10..] == out[LastEoi(b).value + 2..];
  }

  /** Signing a signed buffer gives it back unchanged: the old trailer is cut, the same one appended. */
  lemma SignIdempotent(b: seq<byte>)
    requires HasEoi(b)
    ensures Sign(Sign(b).value) == Sign(b)
  {
    var p := LastEoi(b).value;
    var out := Sign(b).value;
    SignedLayout(b);
    LastEoiUnique(out, p);
    assert out[..p + 2] + Trailer() == out;
  }

  /**
   * Stripping the trailer from a signed buffer gives back the input cut at
   * its last marker: a prefix of the input ending in `FF D9`.
   */
  lemma StripTrailer(b: seq<byte>)
    requires HasEoi(b)
    ensures var out := Sign(b).value;
            var core := out[..|out| - |Trailer()|];
            && |core| >= 2
            && core[|core| - 2..] == [EOI_FIRST, EOI_SECOND]
            && core <= b
            && IsLastEoi(b, |core| - 2)
  {
    var p := LastEoi(b).value;
    var out := Sign(b).value;
    SignedLayout(b);
    var core := out[..|out| - |Trailer()|];
    assert core == b[..p + 2];
  }

  /** Signing never grows a buffer by more than the trailer. */
  lemma SignedSize(b: seq<byte>)
    requires HasEoi(b)
    ensures |Trailer()| + 2 <= |Sign(b).value| <= |b| + |Trailer()|
  {
    SignedLayout(b);
  }
}
