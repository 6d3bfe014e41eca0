/**
 * `compressToTargetSize`: a descending linear sweep over JPEG quality
 * (85, 80, ..., 15) that returns the first encoding no longer than the
 * target, with a single downscale-and-re-encode when even quality 15 is
 * more than one and a half times the target.
 *
 * The image codec is abstract: a `Source` says what each codec call on
 * the input image would return, `None` standing for a call that throws.
 */
module Compression {
  import opened Base

  /** Default target size, 10 KiB. */
  const TARGET_SIZE: nat := 10 * 1024

  const START_QUALITY: int := 85
  const QUALITY_STEP: int := 5
  const QUALITY_FLOOR: int := 10
  const FALLBACK_QUALITY: int := 85

  /** The qualities the sweep can try, in the order it tries them. */
  const QUALITIES: seq<int> := [85, 80, 75, 70, 65, 60, 55, 50, 45, 40, 35, 30, 25, 20, 15]

  datatype Dims = Dims(width: nat, height: nat)

  /**
   * What the codec answers for one input image.
   * `encodeScaled(target, lastLength, quality)` re-reads the metadata,
   * scales both dimensions by sqrt(target / lastLength), rounds down,
   * resizes, and encodes at `quality`.
   */
  datatype Source = Source(
    metadata: Option<Dims>,
    encode: int -> Option<seq<byte>>,
    encodeScaled: (nat, nat, int) -> Option<seq<byte>>)

  /** One codec encode, in the order the compressor issues them. */
  datatype EncodeCall = FullSize(quality: int) | Downscaled(quality: int)

  /** The compressor's result (`None`: a codec call threw) and the encodes it issued. */
  datatype CompressResult = CompressResult(buffer: Option<seq<byte>>, calls: seq<EncodeCall>)

  /** A successful encode at quality `q` that misses the target. */
  predicate TooLarge(src: Source, target: nat, q: int) {
    src.encode(q).Some? && |src.encode(q).value| > target
  }

  /** More than one and a half times the target, in integers. */
  predicate FarTooLarge(length: nat, target: nat) {
    2 * length > 3 * target
  }

  /** One full-size encode per quality, in the same order. */
  function FullSizeCalls(qs: seq<int>): seq<EncodeCall> {
    seq(|qs|, i requires 0 <= i < |qs| => FullSize(qs[i]))
  }

  /** The index, from `i` on, of the first quality whose encode does not miss the target. */
  function FirstStop(src: Source, target: nat, i: nat): (n: nat)
    requires i <= |QUALITIES|
    ensures i <= n <= |QUALITIES|
    ensures forall j :: i <= j < n ==> TooLarge(src, target, QUALITIES[j])
    ensures n < |QUALITIES| ==> !TooLarge(src, target, QUALITIES[n])
    decreases |QUALITIES| - i
  {
    if i == |QUALITIES| || !TooLarge(src, target, QUALITIES[i]) then i
    else FirstStop(src, target, i + 1)
  }

  /** What the compressor returns and which encodes it issues. */
  function Compressed(src: Source, target: nat): CompressResult {
    var n := FirstStop(src, target, 0);
    if n < |QUALITIES| then
      CompressResult(src.encode(QUALITIES[n]), FullSizeCalls(QUALITIES[..n + 1]))
    else
      var last := src.encode(QUALITIES[|QUALITIES| - 1]).value;
      if FarTooLarge(|last|, target) then
        CompressResult(src.encodeScaled(target, |last|, FALLBACK_QUALITY),
                    FullSizeCalls(QUALITIES) + [Downscaled(FALLBACK_QUALITY)])
      else
        CompressResult(Some(last), FullSizeCalls(QUALITIES))
  }

  /** `compressToTargetSize`, with its loop on `quality`. */
  method CompressToTargetSize(src: Source, target: nat) returns (buffer: Option<seq<byte>>, calls: seq<EncodeCall>)
    ensures CompressResult(buffer, calls) == Compressed(src, target)
  {
    var quality := START_QUALITY;
    var last: seq<byte> := [];
    calls := [];
    ghost var k := 0;
    while quality > QUALITY_FLOOR
      invariant 0 <= k <= |QUALITIES| && quality == START_QUALITY - QUALITY_STEP * k
      invariant calls == FullSizeCalls(QUALITIES[..k])
      invariant forall j :: 0 <= j < k ==> TooLarge(src, target, QUALITIES[j])
      invariant k > 0 ==> src.encode(QUALITIES[k - 1]) == Some(last)
    {
      assert QUALITIES[k] == quality;
      calls := calls + [FullSize(quality)];
      assert calls == FullSizeCalls(QUALITIES[..k + 1]);
      var encoded := src.encode(quality);
      if encoded.None? {
        FirstStopAt(src, target, k);
        return None, calls;
      }
      last := encoded.value;
      if |last| <= target {
        FirstStopAt(src, target, k);
        return encoded, calls;
      }
      quality := quality - QUALITY_STEP;
      k := k + 1;
    }
    FirstStopAt(src, target, |QUALITIES|);
    assert QUALITIES[..k] == QUALITIES;
    if FarTooLarge(|last|, target) {
      calls := calls + [Downscaled(FALLBACK_QUALITY)];
      buffer := src.encodeScaled(target, |last|, FALLBACK_QUALITY);
    } else {
      buffer := Some(last);
    }
  }

  /** The stopping index is determined by the encodes up to and including it. */
  lemma {:induction false} FirstStopAt(src: Source, target: nat, k: nat)
    requires k <= |QUALITIES|
    requires forall j :: 0 <= j < k ==> TooLarge(src, target, QUALITIES[j])
    requires k < |QUALITIES| ==> !TooLarge(src, target, QUALITIES[k])
    ensures FirstStop(src, target, 0) == k
  {
    FirstStopFrom(src, target, 0, k);
  }

  lemma {:induction false} FirstStopFrom(src: Source, target: nat, i: nat, k: nat)
    requires i <= k <= |QUALITIES|
    requires forall j :: i <= j < k ==> TooLarge(src, target, QUALITIES[j])
    requires k < |QUALITIES| ==> !TooLarge(src, target, QUALITIES[k])
    ensures FirstStop(src, target, i) == k
    decreases k - i
  {
    if i < k {
      FirstStopFrom(src, target, i + 1, k);
    }
  }

  /**
   * The encodes issued are full-size encodes at 85, 80, ... in that order,
   * at most fifteen of them, and a downscaled encode at quality 85 only
   * after all fifteen.
   */
  lemma CallOrder(src: Source, target: nat)
    ensures var calls := Compressed(src, target).calls;
            exists k ::
              && 1 <= k <= |QUALITIES| && k <= |calls|
              && calls[..k] == FullSizeCalls(QUALITIES[..k])
              && (calls == calls[..k] || (k == |QUALITIES| && calls == calls[..k] + [Downscaled(FALLBACK_QUALITY)]))
    ensures forall i :: 0 <= i < |QUALITIES| ==> QUALITIES[i] == START_QUALITY - QUALITY_STEP * i > QUALITY_FLOOR
  {
    var calls := Compressed(src, target).calls;
    var n := FirstStop(src, target, 0);
    if n < |QUALITIES| {
      assert calls[..n + 1] == calls;
    } else {
      assert calls[..|QUALITIES|] == FullSizeCalls(QUALITIES);
    }
  }

  /**
   * First fit wins: when the encodes at the first `k` qualities succeed but
   * miss the target and the next one fits, that buffer is returned after
   * exactly `k + 1` encodes.
   */
  lemma FirstFitReturned(src: Source, target: nat, k: nat)
    requires k < |QUALITIES|
    requires forall j :: 0 <= j < k ==> TooLarge(src, target, QUALITIES[j])
    requires src.encode(QUALITIES[k]).Some? && |src.encode(QUALITIES[k]).value| <= target
    ensures Compressed(src, target) == CompressResult(src.encode(QUALITIES[k]), FullSizeCalls(QUALITIES[..k + 1]))
  {
    FirstStopAt(src, target, k);
  }

  /** A throwing encode ends the sweep: nothing is returned and no further encode is issued. */
  lemma CodecFailureStops(src: Source, target: nat, k: nat)
    requires k < |QUALITIES|
    requires forall j :: 0 <= j < k ==> TooLarge(src, target, QUALITIES[j])
    requires src.encode(QUALITIES[k]).None?
    ensures Compressed(src, target) == CompressResult(None, FullSizeCalls(QUALITIES[..k + 1]))
  {
    FirstStopAt(src, target, k);
  }

  /**
   * When every quality misses the target, the quality-15 buffer is returned
   * as is if it is at most one and a half times the target; otherwise the
   * single downscaled encode at quality 85 is returned, whatever its size.
   */
  lemma ExhaustedSweep(src: Source, target: nat)
    requires forall j :: 0 <= j < |QUALITIES| - 1 ==> TooLarge(src, target, QUALITIES[j])
    requires src.encode(15).Some? && |src.encode(15).value| > target
    ensures var last := src.encode(15).value;
            Compressed(src, target) ==
              if 2 * |last| > 3 * target then
                CompressResult(src.encodeScaled(target, |last|, 85), FullSizeCalls(QUALITIES) + [Downscaled(85)])
              else
                CompressResult(Some(last), FullSizeCalls(QUALITIES))
  {
    FirstStopAt(src, target, |QUALITIES|);
  }

  /**
   * Only the downscaled encode can exceed one and a half times the target;
   * a buffer returned before the sweep is exhausted meets the target.
   */
  lemma SoftCeiling(src: Source, target: nat)
    ensures var c := Compressed(src, target);
            c.buffer.Some? && Downscaled(FALLBACK_QUALITY) !in c.calls ==>
              && 2 * |c.buffer.value| <= 3 * target
              && (|c.calls| < |QUALITIES| ==> |c.buffer.value| <= target)
  {
    var c := Compressed(src, target);
    var n := FirstStop(src, target, 0);
    if n == |QUALITIES| && !FarTooLarge(|src.encode(15).value|, target) {
      assert c.calls == FullSizeCalls(QUALITIES);
    }
  }

  /**
   * The target is met whenever the sweep reaches a quality that meets it:
   * if some quality fits and every higher quality encodes without throwing,
   * the result fits, and it is the encode at the highest quality that fits.
   */
  lemma HighestFittingQuality(src: Source, target: nat, k: nat)
    requires k < |QUALITIES|
    requires src.encode(QUALITIES[k]).Some? && |src.encode(QUALITIES[k]).value| <= target
    requires forall j :: 0 <= j < k ==> src.encode(QUALITIES[j]).Some?
    ensures var c := Compressed(src, target);
            && c.buffer.Some? && |c.buffer.value| <= target
            && exists m :: 0 <= m <= k && c.buffer == src.encode(QUALITIES[m])
                 && forall j :: 0 <= j < m ==> |src.encode(QUALITIES[j]).value| > target
  {
    var n := FirstStop(src, target, 0);
    assert n <= k;
  }
}
