/**
 * The result construction, media classification and file-name handling of the
 * client's compression library. The encoders themselves (the still-image
 * re-encoder and the FFmpeg transcoder) are black boxes: each call is given as
 * its outcome, a produced file or size, or an error.
 */
module Compression {
  import opened JsStrings

  /** A browser `File` as far as the model needs it; the bytes are not modelled. */
  datatype MediaFile = MediaFile(name: string, mimeType: string, size: nat)

  /**
   * The value of `Math.floor(((originalSize - compressedSize) / originalSize) * 100)`.
   * The division is unguarded, so a zero original size gives `NaN` (0 / 0) or
   * `-Infinity` (a negative number over 0) instead of a percentage.
   */
  datatype Ratio = Percent(value: int) | NotANumber | MinusInfinity

  /** `CompressionResult`: the file to keep, both sizes, the ratio and an object URL. */
  datatype CompressionResult = CompressionResult(
    file: MediaFile,
    originalSize: nat,
    compressedSize: nat,
    compressionRatio: Ratio,
    url: string)

  /** What the still-image encoder does with one file: returns a new file or throws. */
  datatype ImageEncoding = Encoded(output: MediaFile) | ImageEncoderError

  /** What the FFmpeg pipeline does with one video: yields the output bytes' length or throws. */
  datatype Transcoding = Transcoded(byteLength: nat) | TranscodeError

  /** The percentage saved, floor-rounded, with JavaScript's results for a zero original size. */
  function CompressionRatio(originalSize: nat, compressedSize: nat): (r: Ratio)
    ensures originalSize > 0 ==> r.Percent?
    ensures originalSize > 0 ==>
      r.value * originalSize <= (originalSize - compressedSize) * 100 < (r.value + 1) * originalSize
    ensures originalSize == 0 ==> r == (if compressedSize == 0 then NotANumber else MinusInfinity)
  {
    if originalSize == 0 then (if compressedSize == 0 then NotANumber else MinusInfinity)
    else
      var saved := (originalSize - compressedSize) * 100;
      var q := saved / originalSize;
      assert saved == q * originalSize + saved % originalSize;
      Percent(q)
  }

  /** Multiplying by a positive factor keeps the order of two integers. */
  lemma ProductOrder(factor: int, a: int, b: int)
    requires factor > 0
    ensures a <= b <==> a * factor <= b * factor
  {
    if a <= b {
      assert b * factor - a * factor == (b - a) * factor;
    } else {
      assert a * factor - b * factor == (a - b) * factor;
    }
  }

  /** A shrinking (or equal-size) compression of a non-empty file reports a ratio in [0, 100]. */
  lemma RatioWithinPercentRange(originalSize: nat, compressedSize: nat)
    requires originalSize > 0 && compressedSize <= originalSize
    ensures var r := CompressionRatio(originalSize, compressedSize); 0 <= r.value <= 100
  {
    var r := CompressionRatio(originalSize, compressedSize).value;
    ProductOrder(originalSize, r, 100);
    ProductOrder(originalSize, r + 1, 0);
  }

  /** The ratio is not clamped: it is negative exactly when the output grew. */
  lemma RatioNegativeIffLarger(originalSize: nat, compressedSize: nat)
    requires originalSize > 0
    ensures CompressionRatio(originalSize, compressedSize).value < 0 <==> compressedSize > originalSize
  {
    var r := CompressionRatio(originalSize, compressedSize).value;
    if compressedSize > originalSize {
      ProductOrder(originalSize, 0, r);
    } else {
      RatioWithinPercentRange(originalSize, compressedSize);
    }
  }

  /** The ratio reaches 100 exactly when the output is empty. */
  lemma RatioFullIffEmptyOutput(originalSize: nat, compressedSize: nat)
    requires originalSize > 0
    ensures CompressionRatio(originalSize, compressedSize).value == 100 <==> compressedSize == 0
  {
    var r := CompressionRatio(originalSize, compressedSize).value;
    ProductOrder(originalSize, r, 100);
    ProductOrder(originalSize, r + 1, 100);
  }

  /** A larger output never reports a larger saving. */
  lemma RatioAntitone(originalSize: nat, smaller: nat, larger: nat)
    requires originalSize > 0 && smaller <= larger
    ensures CompressionRatio(originalSize, larger).value <= CompressionRatio(originalSize, smaller).value
  {
    var a := CompressionRatio(originalSize, larger).value;
    var b := CompressionRatio(originalSize, smaller).value;
    ProductOrder(originalSize, b + 1, a);
  }

  /** 10,000,000 bytes compressed to 4,000,000 bytes saves 60%. */
  lemma RatioExample()
    ensures CompressionRatio(10_000_000, 4_000_000) == Percent(60)
  {
  }

  /**
   * `compressImage`: on success the encoder's file with its size and the ratio;
   * when the encoder throws, the original file reported as "no reduction".
   * It never throws itself.
   */
  function CompressImage(file: MediaFile, encoding: ImageEncoding): (r: CompressionResult)
    ensures r.originalSize == file.size
    ensures r.file == (if encoding.Encoded? then encoding.output else file)
    ensures r.compressedSize == r.file.size
    ensures encoding.Encoded? ==> r.compressionRatio == CompressionRatio(r.originalSize, r.compressedSize)
    ensures encoding.ImageEncoderError? ==> r.compressedSize == r.originalSize && r.compressionRatio == Percent(0)
    ensures r.url == ""
  {
    match encoding
    case Encoded(output) =>
      CompressionResult(output, file.size, output.size, CompressionRatio(file.size, output.size), "")
    case ImageEncoderError =>
      CompressionResult(file, file.size, file.size, Percent(0), "")
  }

  /**
   * `compressVideo`: on success a `video/mp4` file renamed by `OutputName`,
   * holding the transcoder's bytes, with the ratio; when anything in the FFmpeg
   * pipeline throws, the original file reported as "no reduction". `objectUrl`
   * stands for `URL.createObjectURL`.
   */
  function CompressVideo(file: MediaFile, transcoding: Transcoding, objectUrl: MediaFile -> string): (r: CompressionResult)
    ensures r.originalSize == file.size
    ensures r.compressedSize == r.file.size
    ensures r.url == objectUrl(r.file)
    ensures transcoding.Transcoded? ==>
      && r.file == MediaFile(OutputName(file.name), "video/mp4", transcoding.byteLength)
      && r.compressionRatio == CompressionRatio(r.originalSize, r.compressedSize)
    ensures transcoding.TranscodeError? ==>
      r.file == file && r.compressedSize == r.originalSize && r.compressionRatio == Percent(0)
  {
    match transcoding
    case Transcoded(byteLength) =>
      var compressed := MediaFile(OutputName(file.name), "video/mp4", byteLength);
      CompressionResult(compressed, file.size, compressed.size, CompressionRatio(file.size, compressed.size), objectUrl(compressed))
    case TranscodeError =>
      CompressionResult(file, file.size, file.size, Percent(0), objectUrl(file))
  }

  /**
   * The ratio stored in an image result agrees with its two sizes unless the
   * encoder failed on a zero-byte file: the fallback's fixed 0 differs from the
   * formula's `NaN` there.
   */
  lemma ImageRatioConsistentIff(file: MediaFile, encoding: ImageEncoding)
    ensures var r := CompressImage(file, encoding);
      r.compressionRatio == CompressionRatio(r.originalSize, r.compressedSize) <==> encoding.Encoded? || file.size > 0
  {
    var r := CompressImage(file, encoding);
    if encoding.ImageEncoderError? && file.size > 0 {
      RatioWithinPercentRange(file.size, file.size);
    }
  }

  /** The same for a video result. */
  lemma VideoRatioConsistentIff(file: MediaFile, transcoding: Transcoding, objectUrl: MediaFile -> string)
    ensures var r := CompressVideo(file, transcoding, objectUrl);
      r.compressionRatio == CompressionRatio(r.originalSize, r.compressedSize) <==> transcoding.Transcoded? || file.size > 0
  {
    var r := CompressVideo(file, transcoding, objectUrl);
    if transcoding.TranscodeError? && file.size > 0 {
      RatioWithinPercentRange(file.size, file.size);
    }
  }

  /** A zero-byte input that the encoder handles reports no percentage at all. */
  lemma ZeroByteImageRatio(file: MediaFile, output: MediaFile)
    requires file.size == 0
    ensures !CompressImage(file, Encoded(output)).compressionRatio.Percent?
  {
  }

  /** `isImageFile`: the declared type starts with `image/`. */
  predicate IsImageFile(file: MediaFile) {
    StartsWith(file.mimeType, "image/")
  }

  /** `isVideoFile`: the declared type starts with `video/`. */
  predicate IsVideoFile(file: MediaFile) {
    StartsWith(file.mimeType, "video/")
  }

  /** No file is classified both as an image and as a video. */
  lemma ImageAndVideoExclusive(file: MediaFile)
    ensures !(IsImageFile(file) && IsVideoFile(file))
  {
    if IsImageFile(file) {
      assert file.mimeType[0] == 'i';
    }
  }

  /**
   * `file.name.split(".").pop()?.toLowerCase() || "mp4"`: the lower-cased text
   * after the last dot (the whole name when there is none), or `mp4` when that is empty.
   */
  function FileExtension(name: string): (ext: string)
    ensures ext != [] && '.' !in ext
  {
    var segments := Split(name, '.');
    var last := ToLower(segments[|segments| - 1]);
    ToLowerKeepsNonLetter(segments[|segments| - 1], '.');
    if last == [] then "mp4" else last
  }

  /** The extension is what follows the last dot, lower-cased; nothing after the dot means `mp4`. */
  lemma ExtensionAfterLastDot(stem: string, ext: string)
    requires '.' !in ext
    ensures FileExtension(stem + "." + ext) == if ext == [] then "mp4" else ToLower(ext)
  {
    SplitAround(stem, '.', ext);
    SplitWithoutSeparator(ext, '.');
  }

  /** A name without a dot is its own extension, lower-cased; the empty name gives `mp4`. */
  lemma ExtensionOfDotlessName(name: string)
    requires '.' !in name
    ensures FileExtension(name) == if name == [] then "mp4" else ToLower(name)
  {
    SplitWithoutSeparator(name, '.');
  }

  /**
   * The pattern `\.[^/.]+$` matches `name` from position `i` to the end: a dot,
   * then at least one character, none of them a dot or a slash.
   */
  ghost predicate ExtensionMatchAt(name: string, i: int) {
    0 <= i < |name| - 1 && name[i] == '.' && forall j :: i < j < |name| ==> name[j] != '.' && name[j] != '/'
  }

  /** `name.replace(/\.[^/.]+$/, "")`, computed from the last piece of `name.split(".")`. */
  function StripFinalExtension(name: string): string {
    var segments := Split(name, '.');
    var last := segments[|segments| - 1];
    LastSplitSegment(name, '.');
    if |segments| > 1 && last != [] && '/' !in last then name[..|name| - |last| - 1] else name
  }

  /** `StripFinalExtension` removes exactly the regular expression's match, and nothing when there is none. */
  lemma {:induction false} StripFinalExtensionIsRegexReplace(name: string)
    ensures forall i :: ExtensionMatchAt(name, i) ==> StripFinalExtension(name) == name[..i]
    ensures (forall i :: !ExtensionMatchAt(name, i)) ==> StripFinalExtension(name) == name
  {
    var segments := Split(name, '.');
    var last := segments[|segments| - 1];
    LastSplitSegment(name, '.');
    assert '.' !in last;
    if |segments| == 1 {
      forall i ensures !ExtensionMatchAt(name, i) {
        if 0 <= i < |name| {
          assert name[i] in last;
        }
      }
    } else {
      var p := |name| - |last| - 1;
      assert name[p] == '.';
      forall i | i != p ensures !ExtensionMatchAt(name, i) {
        if 0 <= i < p {
          assert i < p < |name| && name[p] == '.';
        } else if p < i < |name| {
          assert name[i] == last[i - p - 1];
        }
      }
      if last != [] && '/' !in last {
        forall j | p < j < |name| ensures name[j] != '.' && name[j] != '/' {
          assert name[j] == last[j - p - 1];
        }
        assert ExtensionMatchAt(name, p);
      } else if last != [] {
        var k :| 0 <= k < |last| && last[k] == '/';
        assert name[p + 1 + k] == '/';
        assert !ExtensionMatchAt(name, p);
      }
    }
  }

  /** `file.name.replace(/\.[^/.]+$/, "") + "_compressed.mp4"`: the transcoded file's name. */
  function OutputName(name: string): string {
    StripFinalExtension(name) + "_compressed.mp4"
  }

  /** Every output name ends with `_compressed.mp4`, which follows what is left of the input name. */
  lemma OutputNameSuffix(name: string)
    ensures EndsWith(OutputName(name), "_compressed.mp4")
    ensures OutputName(name)[..|OutputName(name)| - 15] == StripFinalExtension(name)
  {
  }

  /** A final extension (no dot, no slash) is replaced by the suffix. */
  lemma OutputNameReplacesExtension(stem: string, ext: string)
    requires ext != [] && '.' !in ext && '/' !in ext
    ensures OutputName(stem + "." + ext) == stem + "_compressed.mp4"
  {
    var name := stem + "." + ext;
    assert ExtensionMatchAt(name, |stem|) by {
      forall j | |stem| < j < |name| ensures name[j] != '.' && name[j] != '/' {
        assert name[j] == ext[j - |stem| - 1];
      }
    }
    StripFinalExtensionIsRegexReplace(name);
    assert name[..|stem|] == stem;
  }

  /** Only the last extension goes: `a.tar.gz` becomes `a.tar_compressed.mp4`. */
  lemma OutputNameExample()
    ensures OutputName("a.tar.gz") == "a.tar" + "_compressed.mp4"
  {
    assert "a.tar" + "." + "gz" == "a.tar.gz";
    OutputNameReplacesExtension("a.tar", "gz");
  }

  /** A name the pattern does not match keeps all of its characters before the suffix. */
  lemma OutputNameKeepsUnmatchedName(name: string)
    requires forall i :: !ExtensionMatchAt(name, i)
    ensures OutputName(name) == name + "_compressed.mp4"
  {
    StripFinalExtensionIsRegexReplace(name);
  }

  /** A name ending in a dot is not matched: `clip.` becomes `clip._compressed.mp4`. */
  lemma OutputNameTrailingDot(stem: string)
    ensures OutputName(stem + ".") == stem + "." + "_compressed.mp4"
  {
    var name := stem + ".";
    assert name == stem + ['.'] + [];
    SplitAround(stem, '.', []);
    var segments := Split(name, '.');
    assert segments == Split(stem, '.') + [[]];
    assert segments[|segments| - 1] == [];
    assert StripFinalExtension(name) == name;
  }

  /** 1024 to the power `n`. */
  function Pow1024(n: nat): nat {
    if n == 0 then 1 else 1024 * Pow1024(n - 1)
  }

  /** `Math.floor(Math.log(bytes) / Math.log(1024))`, in exact arithmetic. */
  function UnitIndex(bytes: nat): (i: nat)
    requires bytes > 0
    ensures Pow1024(i) <= bytes < Pow1024(i + 1)
  {
    if bytes < 1024 then 0 else 1 + UnitIndex(bytes / 1024)
  }

  /** `sizes[i]` of `["Bytes", "KB", "MB", "GB"]`; past the end JavaScript yields `undefined`, printed as such. */
  function UnitName(i: nat): string {
    if i < 4 then ["Bytes", "KB", "MB", "GB"][i] else "undefined"
  }

  /** What `formatFileSize` prints: the literal `0 Bytes`, or a scaled number followed by a unit. */
  datatype FormattedSize = Literal(text: string) | Scaled(unitIndex: nat, unit: string)

  /**
   * `formatFileSize(bytes)`: `0 Bytes` for zero; otherwise `bytes / 1024^i`
   * (printed with at most two decimals, not modelled) followed by the unit at index i.
   */
  function FormatFileSize(bytes: nat): (r: FormattedSize)
    ensures bytes == 0 <==> r == Literal("0 Bytes")
    ensures bytes > 0 ==> r.Scaled? && Pow1024(r.unitIndex) <= bytes < Pow1024(r.unitIndex + 1)
    ensures r.Scaled? ==> r.unit == UnitName(r.unitIndex)
  {
    if bytes == 0 then Literal("0 Bytes")
    else
      var i := UnitIndex(bytes);
      Scaled(i, UnitName(i))
  }

  /** 1536 bytes are shown in KB (as `1.5 KB`). */
  lemma FormatFileSizeExample()
    ensures FormatFileSize(1536) == Scaled(1, "KB")
  {
    assert UnitIndex(1536) == 1 + UnitIndex(1);
  }

  /** From 1024^4 bytes on, the unit index runs past the table and the unit reads `undefined`. */
  lemma FormatFileSizeBeyondGigabytes(bytes: nat)
    requires bytes >= Pow1024(4)
    ensures FormatFileSize(bytes).unit == "undefined"
  {
    var i := UnitIndex(bytes);
    if i < 4 {
      PowMonotone(i + 1, 4);
    }
  }

  /** Powers of 1024 grow with the exponent. */
  lemma {:induction false} PowMonotone(m: nat, n: nat)
    requires m <= n
    ensures Pow1024(m) <= Pow1024(n)
  {
    if m < n {
      PowMonotone(m, n - 1);
    }
  }
}
