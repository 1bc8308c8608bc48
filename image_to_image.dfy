/** convertImageToImage and getDefaultQuality of
    backend/src/services/convert/imageToImage.ts. The sharp pipeline is a value the method
    builds step by step; encoding and writing it is an abstract step that may fail. */
module ImageToImage {
  import opened Common
  import opened Text
  import opened Paths
  import opened Fs
  import opened ChildProcess
  import Ids

  /** getDefaultQuality: 90 for tiff, 80 for everything else, unknown formats included. */
  function DefaultQuality(format: string): (q: int)
    ensures q == if Lower(format) == "tiff" then 90 else 80
  {
    var f := Lower(format);
    if f == "jpeg" || f == "jpg" then 80
    else if f == "png" then 80
    else if f == "webp" then 80
    else if f == "tiff" then 90
    else 80
  }

  /** `options.quality || getDefaultQuality(outputFormat)`: 0 falls back as absence does. */
  function EffectiveQuality(quality: Option<int>, format: string): (q: int)
    ensures quality.Some? && quality.value != 0 ==> q == quality.value
    ensures quality.None? || quality.value == 0 ==> q == DefaultQuality(format)
  {
    if quality.Some? && quality.value != 0 then quality.value else DefaultQuality(format)
  }

  /** The sharp encoders the switch chooses between. */
  datatype Encoder = JpegEncoder | PngEncoder | WebpEncoder | TiffEncoder

  /** The switch on outputFormat.toLowerCase(). */
  function EncoderFor(format: string): (e: Option<Encoder>)
    ensures e.Some? <==> Lower(format) in ["jpeg", "jpg", "png", "webp", "tiff"]
    ensures e == Some(JpegEncoder) <==> Lower(format) == "jpeg" || Lower(format) == "jpg"
    ensures e == Some(PngEncoder) <==> Lower(format) == "png"
    ensures e == Some(WebpEncoder) <==> Lower(format) == "webp"
    ensures e == Some(TiffEncoder) <==> Lower(format) == "tiff"
  {
    var f := Lower(format);
    if f == "jpeg" || f == "jpg" then Some(JpegEncoder)
    else if f == "png" then Some(PngEncoder)
    else if f == "webp" then Some(WebpEncoder)
    else if f == "tiff" then Some(TiffEncoder)
    else None
  }

  /** The switch does not see the letter case of the format. */
  lemma EncoderCaseInsensitive(format: string)
    ensures EncoderFor(format) == EncoderFor(Lower(format))
    ensures DefaultQuality(format) == DefaultQuality(Lower(format))
  {
    LowerIsLowerCase(format);
  }

  datatype Options = Options(quality: Option<int>, width: Option<int>, height: Option<int>)

  /** A JavaScript number option is truthy when it is present and not 0. */
  predicate Truthy(n: Option<int>) {
    n.Some? && n.value != 0
  }

  /** The sharp pipeline as built: an optional resize (fit inside, never enlarging) and the
      encoder with its quality. */
  datatype Pipeline = Pipeline(resize: Option<(Option<int>, Option<int>)>, encoder: Encoder, quality: int)

  function UnsupportedFormatError(format: string): string {
    "Unsupported output format: " + format
  }

  /** The output path: outputDir joined with `${uuid}.${outputFormat}`. */
  function OutputPath(outputDir: string, uuid: string, outputFormat: string): string {
    Join(outputDir, GenerateUniqueFilename(uuid, "converted", Some("." + outputFormat)))
  }

  /** convertImageToImage(buffer, inputFormat, outputFormat, outputDir, options): `uuid` is
      the one drawn for the output name, `encodeError` how sharp's toFile ended. Returns the
      pipeline it built, when it reached the encoder. */
  method ConvertImageToImage(disk: Disk, outputFormat: string, outputDir: string, options: Options,
                             uuid: Ids.Uuid, now: int, encodeError: Option<string>)
    returns (pipeline: Option<Pipeline>, result: Result<string>)
    modifies disk
    ensures var path := OutputPath(outputDir, uuid, outputFormat);
      && (EncoderFor(outputFormat).None? ==>
            pipeline == None && result == Err(UnsupportedFormatError(outputFormat)) && disk.files == old(disk.files))
      && (EncoderFor(outputFormat).Some? ==>
            && pipeline.Some?
            && pipeline.value.encoder == EncoderFor(outputFormat).value
            && pipeline.value.quality == EffectiveQuality(options.quality, outputFormat)
            && (pipeline.value.resize.Some? <==> Truthy(options.width) || Truthy(options.height))
            && (pipeline.value.resize.Some? ==> pipeline.value.resize.value == (options.width, options.height))
            && (encodeError.Some? ==> result == Err(encodeError.value) && disk.files == old(disk.files))
            && (encodeError.None? ==> result == Ok(path) && disk.files == old(disk.files)[path := Entry(now, false)]))
  {
    var outputPath := OutputPath(outputDir, uuid, outputFormat);
    var quality := EffectiveQuality(options.quality, outputFormat);
    var resize: Option<(Option<int>, Option<int>)> := None;
    if Truthy(options.width) || Truthy(options.height) {
      resize := Some((options.width, options.height));
    }
    var encoder := EncoderFor(outputFormat);
    if encoder.None? {
      return None, Err(UnsupportedFormatError(outputFormat));
    }
    pipeline := Some(Pipeline(resize, encoder.value, quality));
    if encodeError.Some? {
      return pipeline, Err(encodeError.value);
    }
    disk.files := disk.files[outputPath := Entry(now, false)];
    result := Ok(outputPath);
  }
}
