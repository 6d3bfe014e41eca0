/**
 * `validatePhoto` and `processPhoto`: check the pixel dimensions, compress
 * to the default target size, sign, and report the signed buffer and its
 * size; every failure becomes a single `Failed` result.
 */
module Pipeline {
  import opened Base
  import opened Compression
  import opened Signature

  const MIN_WIDTH: nat := 295
  const MIN_HEIGHT: nat := 413

  /** Why a photo was not processed. */
  datatype Failure =
    | TooSmall        // below 295 x 413 pixels
    | Unreadable      // the metadata probe threw
    | CodecFailed     // an encode during compression threw
    | NoEndMarker     // the compressed buffer has no `FF D9`

  datatype Validation = Valid(dims: Dims) | Invalid(reason: Failure)

  /** `processPhoto`'s result: the bytes written to the output path and their count. */
  datatype Outcome = Processed(output: seq<byte>, size: nat) | Failed(reason: Failure)

  /** `validatePhoto`, given what the metadata probe returned (`None`: it threw). */
  function ValidatePhoto(metadata: Option<Dims>): (v: Validation)
    ensures v.Valid? <==> metadata.Some? && metadata.value.width >= 295 && metadata.value.height >= 413
    ensures v.Valid? ==> v.dims == metadata.value
    ensures v.Invalid? ==> v.reason in {TooSmall, Unreadable}
    ensures v.Invalid? && v.reason == Unreadable <==> metadata.None?
  {
    match metadata
    case None => Invalid(Unreadable)
    case Some(m) =>
      if m.width < MIN_WIDTH || m.height < MIN_HEIGHT then Invalid(TooSmall) else Valid(m)
  }

  /**
   * `processPhoto`: validation, then compression to `TARGET_SIZE`, then
   * signing, stopping at the first failure. `calls` are the encodes issued.
   */
  method ProcessPhoto(src: Source) returns (r: Outcome, calls: seq<EncodeCall>)
    ensures var v := ValidatePhoto(src.metadata);
            var c := Compressed(src, TARGET_SIZE);
            if v.Invalid? then r == Failed(v.reason) && calls == []
            else
              && calls == c.calls
              && r == match c.buffer
                      case None => Failed(CodecFailed)
                      case Some(b) =>
                        match Sign(b)
                        case Err(_) => Failed(NoEndMarker)
                        case Ok(out) => Processed(out, |out|)
    ensures r.Processed? ==>
              && r.size == |r.output|
              && ValidatePhoto(src.metadata).Valid?
              && r.output[r.size - |Trailer()|..] == Trailer()
              && IsEoiAt(r.output, r.size - |Trailer()| - 2)
    ensures r.Processed? && Downscaled(FALLBACK_QUALITY) !in calls ==>
              2 * (r.size - |Trailer()|) <= 3 * TARGET_SIZE
  {
    var validation := ValidatePhoto(src.metadata);
    if validation.Invalid? {
      return Failed(validation.reason), [];
    }
    var compressed;
    compressed, calls := CompressToTargetSize(src, TARGET_SIZE);
    if compressed.None? {
      return Failed(CodecFailed), calls;
    }
    var signed := AddWatermarkSignature(compressed.value);
    if signed.Err? {
      return Failed(NoEndMarker), calls;
    }
    SignedLayout(compressed.value);
    SignedSize(compressed.value);
    SoftCeiling(src, TARGET_SIZE);
    r := Processed(signed.value, |signed.value|);
  }
}
