# ID-photo processor: a verified model in Dafny

The modelled system prepares ID-style photos for a form-submission site. `PhotoProcessor.processPhoto` does the following, in order:

1. It checks that the photo is at least 295 × 413 pixels.
2. It re-encodes the photo as JPEG at falling quality (85, 80, …, 15) until the result fits in 10 KiB.
3. When even quality 15 is more than one and a half times the target, it downscales the photo once and re-encodes it at quality 85.
4. It signs the result. Everything after the last JPEG end-of-image marker `FF D9` is cut off. The 10-byte trailer `FF 02 00 08 67 6A 67 77 79 32` is then appended: a marker, a big-endian length of 8 (the length field plus the payload), and the ASCII payload `gjgwy2`.

The HTTP server in front of it has two pieces of logic that are modelled here:
- a per-IP sliding-window rate limiter: a request is refused when its IP already has 10 stored requests less than a minute old, and the whole table is dropped first once it tracks more than 10000 IPs;
- an upload filter that accepts a file when `/jpeg|jpg|png/` matches both its lower-cased extension and its MIME type.

Modules, one per component:

- `Base` (`base.dfy`): the byte type, `Option`, `Result` (an `Err` is a thrown exception), `Buffer.from(…, "ascii")` and its Latin-1 decoding.
- `Signature` (`signature.dfy`): `addWatermarkSignature`.
  - The method `AddWatermarkSignature` keeps the source's backward index loop.
  - It is proved equal to the specification function `Sign`, which is built on `LastEoi`, a recursive search from the end of the buffer.
  - The layout, idempotence and round-trip properties are lemmas about `Sign`.
- `Compression` (`compression.dfy`): `compressToTargetSize`.
  - The image codec is abstract. A `Source` gives, for one input image, what each codec call returns; `None` means the call throws. `encode(q)` is a full-size encode at quality `q`. `encodeScaled(target, lastLength, q)` is the fallback: it re-reads the metadata, scales by sqrt(target / lastLength), resizes and encodes.
  - The method `CompressToTargetSize` keeps the `while (quality > 10)` loop. Besides the buffer, it returns the encodes it issued, in order.
  - It is proved equal to `Compressed`. That reference definition is built from `FirstStop`, the index of the first quality whose encode does not miss the target.
- `Pipeline` (`pipeline.dfy`): `validatePhoto` and `processPhoto`, a short-circuiting composition of validation, compression to `TARGET_SIZE` and signing.
- `RateLimit` (`rate_limit.dfy`): the `rateLimit` middleware.
  - The class `RateLimiter` holds `requestCounts` as a `map` field. Its method `RateLimit` updates the map in place and is proved equal to the one-call specification `Step`.
  - The properties of `Step` are lemmas.
  - The clock reading and the client IP are parameters.
- `UploadFilter` (`upload_filter.dfy`): the `fileFilter` predicate, with Node's POSIX `path.extname` and `toLowerCase` (on ASCII letters) written out.

The sweep's last quality is 15: the loop condition `quality > 10` stops before 10, so the quality-15 encode is the last one the sweep issues, and the one the fallback size test looks at.

The test `buffer.length > targetSize * 1.5` is stated in integers as `2 * length > 3 * target`. For integer sizes the two are the same.

## Model

| member | source | states |
|---|---|---|
| `Base.AsciiRoundTrip` | src/photo-processor.js:13 | text whose characters are all below 0x100, such as `gjgwy2`, is encoded one byte per character and decodes back to the same text |
| `Base.Latin1RoundTrip` | src/photo-processor.js:13 | any byte sequence decodes to text in the one-byte range that encodes back to the same bytes |
| `Base.AsciiInjective` | src/photo-processor.js:13 | two texts in the one-byte range give the same bytes only when they are the same text |
| `Signature.WriteUInt16BE` | src/photo-processor.js:108-109 | the length field is two bytes, high byte first, and reads back big-endian as the value written |
| `Signature.Trailer` | src/photo-processor.js:104-116 | the trailer is the marker `FF 02`, then a length field that decodes big-endian to 2 + payload length, then the payload; 4 + 6 bytes in all |
| `Signature.TrailerBytes` | src/photo-processor.js:12-13 | the trailer is exactly `FF 02 00 08 67 6A 67 77 79 32` |
| `Signature.LastEoi` | src/photo-processor.js:86-95 | the search finds no position iff no `FF D9` pair exists; otherwise it finds a pair with no `FF D9` pair starting after it |
| `Signature.Sign` | src/photo-processor.js:97-99 | signing fails iff the buffer holds no `FF D9` pair, in particular for buffers shorter than 2 bytes |
| `Signature.AddWatermarkSignature` | src/photo-processor.js:85-119 | the backward scan with `break`, the cut at `eoiPos + 2` and the concatenation give exactly `Sign` of the input, including its failure |
| `Signature.SignedLayout` | src/photo-processor.js:101-118 | the output is the input up to and including its last marker, followed by the trailer; its length is eoiPos + 2 + 4 + 6; the marker at eoiPos is still the last one in the output |
| `Signature.SignedEndsWithTrailer` | src/photo-processor.js:104-118 | every signed output ends with the 10 trailer bytes, immediately preceded by `FF D9` |
| `Signature.SignIdempotent` | src/photo-processor.js:90-118 | signing a signed buffer gives it back unchanged: the old trailer is cut and one identical trailer is appended |
| `Signature.StripTrailer` | src/photo-processor.js:101-102 | removing the last 4 + 6 bytes of a signed output leaves a prefix of the input that ends in `FF D9` at the input's last marker |
| `Signature.SignedSize` | src/photo-processor.js:118 | a signed output is at least 12 bytes and at most 10 bytes longer than its input |
| `Compression.FirstStop` | src/photo-processor.js:54-64 | every quality before the returned index encodes successfully but misses the target; the quality at the index does not (it fits or throws), unless all 15 missed |
| `Compression.CompressToTargetSize` | src/photo-processor.js:49-80 | the loop on `quality` returns the buffer and issues the encodes that the reference `Compressed` gives |
| `Compression.FirstStopAt` | src/photo-processor.js:54-64 | the sweep stops at quality index k whenever all earlier encodes missed the target and the k-th fits or throws |
| `Compression.CallOrder` | src/photo-processor.js:50-63 | the encodes are full-size at 85, 80, … (at most 15, each quality above 10, in descending order); the only other encode is one downscaled encode at quality 85, after all 15 |
| `Compression.FirstFitReturned` | src/photo-processor.js:54-61 | the first buffer no longer than the target is returned, after exactly that many encodes |
| `Compression.CodecFailureStops` | src/photo-processor.js:55-57 | an encode that throws ends the call with nothing returned and no further encode |
| `Compression.ExhaustedSweep` | src/photo-processor.js:66-79 | when all 15 encodes miss, the quality-15 buffer is returned unchanged if its length is at most 1.5 × target; otherwise exactly one downscaled encode at quality 85 is issued and its result returned with no further size check |
| `Compression.SoftCeiling` | src/photo-processor.js:59-79 | without the downscale, the result is at most 1.5 × target; a result returned before the sweep ends meets the target |
| `Compression.HighestFittingQuality` | src/photo-processor.js:50-64 | if some quality fits and no higher quality throws, the result fits and is the encode at the highest quality that fits |
| `Pipeline.ValidatePhoto` | src/photo-processor.js:29-44 | a photo is valid iff its metadata can be read and width ≥ 295 and height ≥ 413; unreadable metadata and too-small dimensions are the two rejections |
| `Pipeline.ProcessPhoto` | src/photo-processor.js:124-169 | a rejected photo fails with no encode issued; otherwise the result is compress-then-sign, any failure becoming one `Failed`; on success `size` is the signed buffer's length, the output ends with the trailer after `FF D9`, and without a downscale it is at most 1.5 × 10240 bytes plus the trailer |
| `RateLimit.Recent` | src/server.js:54 | the filtered list is no longer than the stored one and holds only timestamps less than 60000 ms old |
| `RateLimit.RecentMultiset` | src/server.js:54 | the filter keeps every in-window timestamp as often as it occurs, and no other |
| `RateLimit.RecentCounts` | src/server.js:54-56 | the filtered list's length is the number of in-window timestamps, counted independently |
| `RateLimit.RateLimiter.constructor` | src/server.js:41 | the table starts empty, and the invariant holds: every list has ≤ 10 entries and at most 10001 IPs are tracked |
| `RateLimit.RateLimiter.RateLimit` | src/server.js:42-66 | the call's decision and the new table are `Step` of the old table; the invariant is preserved |
| `RateLimit.RejectedIffWindowFull` | src/server.js:53-61 | a request is rejected iff no clear fires and its IP already has ≥ 10 timestamps t with now − t < 60000 |
| `RateLimit.RejectedUnchanged` | src/server.js:56-61 | a rejected request leaves the table unchanged |
| `RateLimit.AdmittedRecordsNow` | src/server.js:49-64 | an admitted request sets its IP's list to the in-window timestamps in order followed by `now`; the tracked IPs become those of the table (empty after a clear) plus this one, so the size grows by one exactly when the IP was new; every other tracked IP keeps its list |
| `RateLimit.ClearedWhenFull` | src/server.js:49-51 | with more than 10000 IPs tracked, the table is emptied before the request is evaluated, so it is admitted and becomes the only entry |
| `RateLimit.StepKeepsValid` | src/server.js:49-64 | after any call every stored list has ≤ 10 timestamps and at most 10001 IPs are tracked |
| `UploadFilter.Lower` | src/server.js:20 | lower-casing keeps the length, leaves no capital A–Z, moves each capital 32 code points up to its small letter and keeps every other character |
| `UploadFilter.LowerIdempotent` | src/server.js:20 | lower-casing twice is lower-casing once |
| `UploadFilter.ExtName` | src/server.js:19-21 | the extension is empty or starts with its only `.` and contains no `/` |
| `UploadFilter.TrimmedPrefix` | src/server.js:19 | trimming keeps a prefix of the name and removes only `/` characters |
| `UploadFilter.SegmentSuffix` | src/server.js:19 | the last segment is a suffix of the trimmed name: the whole of it, or what follows its last `/` |
| `UploadFilter.ExtNameEmpty` | src/server.js:19-21 | the extension is empty iff the last segment of the trimmed name is `..` or has no `.` after its first character |
| `UploadFilter.ExtNameFromLastDot` | src/server.js:19-21 | a non-empty extension runs from the last `.` of the last segment to its end, and that `.` is not the segment's first character |
| `UploadFilter.ExtNameIsSuffix` | src/server.js:19-21 | a non-empty extension is a proper suffix of the name with its trailing slashes removed |
| `UploadFilter.NoDotNoExtension` | src/server.js:19-21 | a name with no `.` has an empty extension |
| `UploadFilter.NoDotRejected` | src/server.js:17-28 | a name with no `.` is rejected whatever its MIME type |
| `UploadFilter.SuffixSegment` | src/server.js:19 | a slash-free name after a `/` is the whole last segment and nothing is trimmed |
| `UploadFilter.DirectoryIgnored` | src/server.js:19-21 | a directory part in front of a plain name `stem.suffix` leaves its extension `.suffix` |
| `UploadFilter.ContainsIffOccurs` | src/server.js:18-22 | the unanchored pattern test finds a word iff it occurs at some position of the string |
| `UploadFilter.MatchesIffOccurs` | src/server.js:18 | `/jpeg|jpg|png/` matches iff one of the three words occurs somewhere in the string |
| `UploadFilter.FileFilterAccepts` | src/server.js:17-28 | a file is accepted iff one of `jpeg`, `jpg`, `png` occurs in its lower-cased extension and one occurs in its MIME type |
| `UploadFilter.ExtNameOfLower` | src/server.js:19-21 | taking the extension and lower-casing commute |
| `UploadFilter.NameCaseIgnored` | src/server.js:19-24 | two file names that lower-case alike get the same decision |
| `UploadFilter.ExtNameOfFileName` | src/server.js:19-21 | a plain name `stem.suffix` has extension `.suffix` |
| `UploadFilter.UpperCaseExtensionAccepted` | src/server.js:17-28 | any plain name ending in `.JPG` sent as `image/jpeg` is accepted |
| `UploadFilter.UpperCaseMimeTypeRejected` | src/server.js:22-27 | the MIME type is not lower-cased: `IMAGE/JPEG` is rejected whatever the name |

## Left out

- The `sharp` codec (metadata probe, JPEG encode, resize) is not modelled. It is a deterministic abstract `Source`: the same call on the same image returns the same bytes or always throws.
- The fallback's `Math.sqrt` scale and `Math.floor` dimensions are floating-point arithmetic. They are folded into `Source.encodeScaled`, so the model records that the downscaled encode happens once, at quality 85, from the target and the last length, but not the pixel dimensions it uses.
- The `mozjpeg` flag and image content are not modelled. Only byte lengths and byte contents of the codec's answers matter here.
- `Pipeline.ValidatePhoto` does not model metadata without `width` or `height`. In JavaScript a missing value compares as `false` and passes the check; here dimensions are always present.
- `fs.writeFileSync`, the output path, and a failing write are not modelled. `Processed` carries the bytes that would be written.
- The `console.log` output, the `silent` option and the command-line block are I/O and process exit.
- The error messages are not modelled. They are replaced by the kinds in `Pipeline.Failure`.
- `Signature.WriteUInt16BE` requires a value below 65536. Node would throw a `RangeError` instead, but the only value written is the constant 8.
- Express routing, `multer` storage and limits (16 MB, one file), the download and temporary-file cleanup, the half-hourly sweep of `uploads/` and graceful shutdown are I/O, timers and server lifecycle.
- `Date.now()` and `req.ip` are parameters of `RateLimiter.RateLimit`.
- `Base.AsciiBytes` takes one byte per Dafny character, a Unicode scalar value. Node takes one per UTF-16 code unit, so a character above U+FFFF gives two bytes there and one here. The only text encoded is the constant `gjgwy2`.
- The async/await structure is not modelled. Each call is a sequential computation.
- `UploadFilter.Lower` lower-cases only A–Z. JavaScript's full Unicode case mapping is not modelled.
- `UploadFilter.ExtName` follows Node's POSIX `path.extname`. The Windows variant is not modelled.
- Over a run of requests, the rate limiter keeps at most 10 admissions per IP in any 60-second window only as long as the table is never cleared. That multi-call guarantee is not proved. `RateLimit.ClearedWhenFull` shows that the clear drops every IP's history, including timestamps still inside the window.
