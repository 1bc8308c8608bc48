/** The conversion route of backend/src/routes/convert.ts: choosing the adapter for a
    file, naming the result, and the batch handler that registers every converted file. */
module ConvertRoute {
  import opened Common
  import opened Text
  import opened Validate
  import Paths
  import Ids
  import PdfToImage
  import opened Storage
  import Download
  import Fs

  // ---------------------------------------------------------------------------
  // Choosing the adapter

  /** The adapter call convertFile makes, with the arguments it passes besides the upload's
      bytes and the output directory. */
  datatype AdapterCall =
    | DocToPdfCall(inputExt: string)
    | PdfToImagesCall(format: PdfToImage.PageFormat, quality: int, dpi: int)
    | SingleImageToPdfCall
    | ImageToImageCall(inputExt: string, targetFormat: string)
    | VideoToFormatCall(inputExt: string, targetFormat: string)

  /** The call and the MIME type recorded for its result. */
  datatype Plan = Plan(call: AdapterCall, mimeType: string)

  const PdfMime: string := "application/pdf"
  const PngMime: string := "image/png"
  const JpegMime: string := "image/jpeg"
  const PdfQuality: int := 80
  const PdfDpi: int := 150

  /** Where every adapter writes: `${tmpDir}/output`. */
  function OutputDir(tmpDir: string): string {
    Paths.Join(tmpDir, "output")
  }

  /** The targets the image-to-image branch accepts: jpeg, jpg, png, webp, tiff. */
  predicate IsRasterTarget(f: Format) {
    f.Jpeg? || f.Jpg? || f.Png? || f.Webp? || f.Tiff?
  }

  /** The five entries of getMimeTypeForFormat's table. */
  function RasterMime(f: Format): string
    requires IsRasterTarget(f)
  {
    match f
    case Jpeg => "image/jpeg" case Jpg => "image/jpeg" case Png => "image/png"
    case Webp => "image/webp" case Tiff => "image/tiff"
  }

  /** getMimeTypeForFormat: the table's entry for the name, or application/octet-stream. */
  function GetMimeTypeForFormat(format: string): string {
    var f := ParseFormat(format);
    if f.Some? && IsRasterTarget(f.value) then RasterMime(f.value) else OctetStream
  }

  /** getMimeTypeForFormat agrees with getMimeType's table on the five raster targets and
      answers application/octet-stream for every other string. */
  lemma MimeForFormatAgrees(format: string)
    ensures ParseFormat(format).Some? && IsRasterTarget(ParseFormat(format).value) ==>
      GetMimeTypeForFormat(format) == MimeOf(ParseFormat(format).value)
    ensures !(ParseFormat(format).Some? && IsRasterTarget(ParseFormat(format).value)) ==>
      GetMimeTypeForFormat(format) == OctetStream
  {
    if ParseFormat(format).Some? && IsRasterTarget(ParseFormat(format).value) {
      RasterMimeAgrees(ParseFormat(format).value);
    }
  }

  /** The if-chain of convertFile as written. Each `[...].includes(x)` over format names and
      each `x === 'name'` is a test on ParseFormat(x), which compares names exactly: the
      extension and the target are used as they arrive, and no branch handles video. */
  function DispatchAsWritten(inputExt: string, targetFormat: string): Option<Plan> {
    Branches(ParseFormat(inputExt), ParseFormat(targetFormat), inputExt, targetFormat)
  }

  /** The four branches, on the formats the two strings name. */
  function Branches(i: Option<Format>, t: Option<Format>, inputExt: string, targetFormat: string): Option<Plan> {
    if i.Some? && IsDocument(i.value) && t == Some(Pdf) then
      Some(Plan(DocToPdfCall(inputExt), PdfMime))
    else if i == Some(Pdf) && (t == Some(Png) || t == Some(Jpeg)) then
      Some(Plan(PdfToImagesCall(if t == Some(Png) then PdfToImage.Png else PdfToImage.Jpeg, PdfQuality, PdfDpi),
                if t == Some(Png) then PngMime else JpegMime))
    else if i.Some? && IsImage(i.value) && t == Some(Pdf) then
      Some(Plan(SingleImageToPdfCall, PdfMime))
    else if i.Some? && IsImage(i.value) && t.Some? && IsRasterTarget(t.value) then
      Some(Plan(ImageToImageCall(inputExt, targetFormat), RasterMime(t.value)))
    else None
  }

  /** The image branch records getMimeTypeForFormat(targetFormat): on the five names it
      accepts, that is the table entry Branches uses. */
  lemma ImageBranchMime(inputExt: string, targetFormat: string)
    requires var p := DispatchAsWritten(inputExt, targetFormat); p.Some? && p.value.call.ImageToImageCall?
    ensures DispatchAsWritten(inputExt, targetFormat).value.mimeType == GetMimeTypeForFormat(targetFormat)
  {
  }

  /** The if-chain as written, branch by branch. Each branch's plan follows from its own test
      alone, so no two tests overlap and the order of the chain does not matter; a pair
      outside the four families gets no plan. */
  lemma DispatchAsWrittenCases(inputExt: string, targetFormat: string)
    ensures var i, t, r := ParseFormat(inputExt), ParseFormat(targetFormat), DispatchAsWritten(inputExt, targetFormat);
      && (i.Some? && IsDocument(i.value) && t == Some(Pdf) ==> r == Some(Plan(DocToPdfCall(inputExt), PdfMime)))
      && (i == Some(Pdf) && t == Some(Png) ==> r == Some(Plan(PdfToImagesCall(PdfToImage.Png, PdfQuality, PdfDpi), PngMime)))
      && (i == Some(Pdf) && t == Some(Jpeg) ==> r == Some(Plan(PdfToImagesCall(PdfToImage.Jpeg, PdfQuality, PdfDpi), JpegMime)))
      && (i.Some? && IsImage(i.value) && t == Some(Pdf) ==> r == Some(Plan(SingleImageToPdfCall, PdfMime)))
      && (i.Some? && IsImage(i.value) && t.Some? && IsRasterTarget(t.value) ==>
            r == Some(Plan(ImageToImageCall(inputExt, targetFormat), GetMimeTypeForFormat(targetFormat))))
      && (r.Some? <==> i.Some? && t.Some? && BaseShape(i.value, t.value))
  {
  }

  /** The video branch the route lacks: convertVideoToFormat for two distinct video formats,
      with the target's MIME type. */
  function VideoPlan(i: Option<Format>, t: Option<Format>, inputExt: string, targetFormat: string): Option<Plan> {
    if i.Some? && t.Some? && IsVideo(i.value) && IsVideo(t.value) && i.value != t.value then
      Some(Plan(VideoToFormatCall(inputExt, targetFormat), MimeOf(t.value)))
    else None
  }

  /** The dispatch the route evidently intends: the target is lower-cased as validation
      lower-cases it, and video pairs go to the video adapter. */
  function Dispatch(inputExt: string, targetFormat: string): Option<Plan> {
    Choose(inputExt, Lower(targetFormat))
  }

  /** The four branches as written, then the video branch. */
  function Choose(inputExt: string, t: string): Option<Plan> {
    ChooseFormats(ParseFormat(inputExt), ParseFormat(t), inputExt, t)
  }

  function ChooseFormats(i: Option<Format>, t: Option<Format>, inputExt: string, targetFormat: string): Option<Plan> {
    var p := Branches(i, t, inputExt, targetFormat);
    if p.Some? then p else VideoPlan(i, t, inputExt, targetFormat)
  }

  /** As written, no video extension reaches an adapter. */
  lemma VideoInputUnsupportedAsWritten(inputExt: string, targetFormat: string)
    requires ParseFormat(inputExt).Some? && IsVideo(ParseFormat(inputExt).value)
    ensures DispatchAsWritten(inputExt, targetFormat).None?
  {
  }

  /** mp4 to mov passes validation, yet the route as written rejects it. */
  lemma VideoPairCounterexample()
    ensures IsValidConversion(FormatName(Mp4), FormatName(Mov))
    ensures DispatchAsWritten(FormatName(Mp4), FormatName(Mov)).None?
  {
    ParseFormatName(Mp4);
    VideoInputUnsupportedAsWritten(FormatName(Mp4), FormatName(Mov));
    VideoPairValid(Mp4, Mov);
  }

  /** Two distinct video formats make a legal conversion. */
  lemma VideoPairValid(a: Format, b: Format)
    requires IsVideo(a) && IsVideo(b) && a != b
    ensures IsValidConversion(FormatName(a), FormatName(b))
  {
    VideoPairInTable(a, b);
    PairInTableValid(a, b);
  }

  lemma VideoPairInTable(a: Format, b: Format)
    requires IsVideo(a) && IsVideo(b) && a != b
    ensures ConversionPair(a, b) in ConversionPairs
  {
    FlatPairsMembership(VideoFormats, VideoFormats, ConversionPair(a, b));
    assert ConversionPair(a, b) in VideoConversionPairs;
  }

  /** A pair in the table is a legal conversion between the two names. */
  lemma PairInTableValid(a: Format, b: Format)
    requires ConversionPair(a, b) in ConversionPairs
    ensures IsValidConversion(FormatName(a), FormatName(b))
  {
    FormatNameShape(a);
    FormatNameShape(b);
    LowerOfLowerCase(FormatName(a));
    LowerOfLowerCase(FormatName(b));
    IsValidConversionIff(FormatName(a), FormatName(b));
    ParseFormatName(a);
    ParseFormatName(b);
  }

  /** As written, a target with an upper-case letter names no format, so no branch matches. */
  lemma UpperCaseTargetUnsupportedAsWritten(inputExt: string, targetFormat: string)
    requires !HasNoUpper(targetFormat)
    ensures DispatchAsWritten(inputExt, targetFormat).None?
  {
    if ParseFormat(targetFormat).Some? {
      FormatNameShape(ParseFormat(targetFormat).value);
    }
  }

  /** docx to "PDF" passes validation, which lower-cases the target, yet the route as
      written rejects it. */
  lemma UpperCaseTargetCounterexample()
    ensures IsValidConversion(FormatName(Docx), "PDF")
    ensures DispatchAsWritten(FormatName(Docx), "PDF").None?
  {
    assert Lower("PDF") == FormatName(Pdf);
    LowerOfLowerCase(FormatName(Docx));
    IsValidConversionIff(FormatName(Docx), "PDF");
    ParseFormatName(Docx);
    ParseFormatName(Pdf);
    assert ConversionPair(Docx, Pdf) in DocumentToPdfPairs;
    assert !HasNoUpper("PDF") by { assert IsUpper("PDF"[0]); }
    UpperCaseTargetUnsupportedAsWritten(FormatName(Docx), "PDF");
  }

  lemma DocumentPairShape(p: ConversionPair)
    requires p in DocumentToPdfPairs
    ensures IsDocument(p.input) && p.output == Pdf
  {
  }

  lemma ImagePairShape(p: ConversionPair)
    requires p in ImageToImagePairs
    ensures IsImage(p.input) && IsRasterTarget(p.output)
  {
  }

  lemma PdfPairShape(p: ConversionPair)
    requires p in PdfToImagePairs
    ensures p.input == Pdf && (p.output == Png || p.output == Jpeg)
  {
  }

  lemma ImagePdfPairShape(p: ConversionPair)
    requires p in ImageToPdfPairs
    ensures IsImage(p.input) && p.output == Pdf
  {
  }

  /** The pairs the route's four branches serve. */
  predicate BaseShape(i: Format, o: Format) {
    || (IsDocument(i) && o == Pdf)
    || (i == Pdf && (o == Png || o == Jpeg))
    || (IsImage(i) && o == Pdf)
    || (IsImage(i) && IsRasterTarget(o))
  }

  /** Every hand-enumerated pair falls into one of the route's four branches. */
  lemma BasePairShape(p: ConversionPair)
    requires p in BaseConversionPairs
    ensures BaseShape(p.input, p.output)
  {
    if p in DocumentToPdfPairs { DocumentPairShape(p); }
    else if p in ImageToImagePairs { ImagePairShape(p); }
    else if p in PdfToImagePairs { PdfPairShape(p); }
    else { ImagePdfPairShape(p); }
  }

  /** A plan exists, records the target's MIME type, and uses the video adapter exactly
      when `video` holds. */
  predicate Serves(r: Option<Plan>, o: Format, video: bool) {
    r.Some? && r.value.mimeType == MimeOf(o) && (r.value.call.VideoToFormatCall? <==> video)
  }

  /** The plan for each of the four base branches. */
  lemma DocumentDispatch(inputExt: string, t: string, i: Format, o: Format)
    requires IsDocument(i) && o == Pdf
    ensures Serves(ChooseFormats(Some(i), Some(o), inputExt, t), o, false)
  {
  }

  lemma PdfDispatch(inputExt: string, t: string, i: Format, o: Format)
    requires i == Pdf && (o == Png || o == Jpeg)
    ensures Serves(ChooseFormats(Some(i), Some(o), inputExt, t), o, false)
  {
  }

  lemma ImagePdfDispatch(inputExt: string, t: string, i: Format, o: Format)
    requires IsImage(i) && o == Pdf
    ensures Serves(ChooseFormats(Some(i), Some(o), inputExt, t), o, false)
  {
  }

  lemma ImageDispatch(inputExt: string, t: string, i: Format, o: Format)
    requires IsImage(i) && IsRasterTarget(o)
    ensures Serves(ChooseFormats(Some(i), Some(o), inputExt, t), o, false)
  {
    assert !IsDocument(i) && i != Pdf && o != Pdf;
    RasterMimeAgrees(o);
  }

  lemma RasterMimeAgrees(f: Format)
    requires IsRasterTarget(f)
    ensures RasterMime(f) == MimeOf(f)
  {
  }

  /** A pair of the table reaches its adapter. */
  lemma PairDispatch(inputExt: string, t: string, i: Format, o: Format)
    requires ConversionPair(i, o) in ConversionPairs
    ensures Serves(ChooseFormats(Some(i), Some(o), inputExt, t), o, IsVideo(i))
  {
    PairFamilies(ConversionPair(i, o));
    if BaseShape(i, o) {
      BasePairDispatch(inputExt, t, i, o);
      BaseShapeNotVideo(i, o);
    } else {
      VideoPairDispatch(inputExt, t, i, o);
    }
  }

  /** A pair of the table is in one of the four base branches, or joins two distinct videos. */
  lemma PairFamilies(p: ConversionPair)
    requires p in ConversionPairs
    ensures BaseShape(p.input, p.output) || (IsVideo(p.input) && IsVideo(p.output) && p.input != p.output)
  {
    if p in VideoConversionPairs {
      VideoPairFamily(p);
    } else {
      assert p in BaseConversionPairs;
      BasePairShape(p);
    }
  }

  lemma VideoPairFamily(p: ConversionPair)
    requires p in VideoConversionPairs
    ensures IsVideo(p.input) && IsVideo(p.output) && p.input != p.output
  {
    FlatPairsMembership(VideoFormats, VideoFormats, p);
  }

  lemma BasePairDispatch(inputExt: string, t: string, i: Format, o: Format)
    requires BaseShape(i, o)
    ensures Serves(ChooseFormats(Some(i), Some(o), inputExt, t), o, false)
  {
    if IsDocument(i) && o == Pdf { DocumentDispatch(inputExt, t, i, o); }
    else if i == Pdf && (o == Png || o == Jpeg) { PdfDispatch(inputExt, t, i, o); }
    else if o == Pdf { ImagePdfDispatch(inputExt, t, i, o); }
    else {
      assert IsImage(i) && IsRasterTarget(o);
      ImageDispatch(inputExt, t, i, o);
    }
  }

  /** The four base branches take no video input. */
  lemma BaseShapeNotVideo(i: Format, o: Format)
    requires BaseShape(i, o)
    ensures !IsVideo(i)
  {
  }

  lemma VideoPairDispatch(inputExt: string, t: string, i: Format, o: Format)
    requires IsVideo(i) && IsVideo(o) && i != o
    ensures Serves(ChooseFormats(Some(i), Some(o), inputExt, t), o, true)
  {
  }

  /** Every conversion validation accepts reaches an adapter under the corrected dispatch; the
      video adapter serves exactly the video pairs, and the MIME type recorded is the
      target's own. The extension is lower-case, as getFileExtension makes it. */
  lemma DispatchCoversLegal(inputExt: string, targetFormat: string)
    requires HasNoUpper(inputExt) && IsValidConversion(inputExt, targetFormat)
    ensures ParseFormat(inputExt).Some? && ParseFormat(Lower(targetFormat)).Some?
    ensures var r := Dispatch(inputExt, targetFormat);
      && r.Some?
      && r.value.mimeType == MimeOf(ParseFormat(Lower(targetFormat)).value)
      && (r.value.call.VideoToFormatCall? <==> IsVideo(ParseFormat(inputExt).value))
  {
    LowerOfLowerCase(inputExt);
    IsValidConversionIff(inputExt, targetFormat);
    var t := Lower(targetFormat);
    PairDispatch(inputExt, t, ParseFormat(inputExt).value, ParseFormat(t).value);
    assert Dispatch(inputExt, targetFormat) == ChooseFormats(ParseFormat(inputExt), ParseFormat(t), inputExt, t);
  }

  // ---------------------------------------------------------------------------
  // One file

  /** What the adapter call and the stat of its output come to: the path and size of the
      output, or a thrown Error with its message, or a thrown value that is no Error. */
  datatype AdapterRun = Produced(outputPath: string, size: int) | Threw(message: string) | ThrewNonError

  /** convertFile's result. */
  datatype Converted = Converted(filePath: string, convertedName: string, mimeType: string, size: int)

  const ConversionFailedError: string := "Conversion failed"

  function UnsupportedConversionError(inputExt: string, targetFormat: string): string {
    "Unsupported conversion: " + inputExt + " to " + targetFormat
  }

  /** `${path.parse(sanitizeFilename(originalName)).name}.${targetFormat}` */
  function ConvertedName(originalName: string, targetFormat: string): string {
    Paths.ParseName(SanitizeFilename(originalName)) + ("." + targetFormat)
  }

  lemma LowerOfDotted(stem: string, ext: string)
    requires HasNoUpper(ext)
    ensures Lower(stem + ("." + ext)) == Lower(stem) + ("." + ext)
  {
    var n := stem + ("." + ext);
    var r := Lower(stem) + ("." + ext);
    forall k | 0 <= k < |n| ensures Lower(n)[k] == r[k] {
      if k < |stem| { assert n[k] == stem[k]; }
      else if k == |stem| { assert n[k] == '.'; }
      else { assert n[k] == ext[k - |stem| - 1] && r[k] == ext[k - |stem| - 1]; }
    }
  }

  /** The converted name ends in the target's name, so getFileExtension reads the target
      back and getMimeType gives the target's MIME type, whatever the original name was. */
  lemma ConvertedNameMime(originalName: string, f: Format)
    ensures GetMimeType(ConvertedName(originalName, FormatName(f))) == MimeOf(f)
  {
    ConvertedNameExtension(originalName, f);
    ParseFormatName(f);
  }

  lemma ConvertedNameExtension(originalName: string, f: Format)
    ensures GetFileExtension(ConvertedName(originalName, FormatName(f))) == FormatName(f)
  {
    FormatNameShape(f);
    ExtensionOfDotted(Paths.ParseName(SanitizeFilename(originalName)), FormatName(f));
  }

  /** getFileExtension reads back a non-empty, dot-free, lower-case extension after any stem. */
  lemma ExtensionOfDotted(stem: string, ext: string)
    requires ext != [] && HasNoUpper(ext) && '.' !in ext
    ensures GetFileExtension(stem + ("." + ext)) == ext
  {
    LowerOfDotted(stem, ext);
    var n := Lower(stem) + ("." + ext);
    assert n[|stem|] == '.';
    assert n[|stem| + 1..] == ext;
    LastIndexOfAt(n, '.', |stem|);
  }

  /** convertFile once the adapter is chosen: the adapter's output, named after the upload
      and `targetFormat` and tagged with the plan's MIME type; no plan is the "Unsupported
      conversion" error; a failed run is its message, or "Conversion failed" for a thrown
      non-Error as the route's catch reports it. */
  function RunPlan(plan: Option<Plan>, file: UploadedFile, inputExt: string, targetFormat: string, run: AdapterRun): Result<Converted> {
    match plan
    case None => Err(UnsupportedConversionError(inputExt, targetFormat))
    case Some(p) =>
      match run
      case Produced(path, size) => Ok(Converted(path, ConvertedName(file.originalName, targetFormat), p.mimeType, size))
      case Threw(message) => Err(message)
      case ThrewNonError => Err(ConversionFailedError)
  }

  /** convertFile as written: the chain and the name use the target as it arrives. */
  function ConvertFileAsWritten(file: UploadedFile, inputExt: string, targetFormat: string, run: AdapterRun): Result<Converted> {
    RunPlan(DispatchAsWritten(inputExt, targetFormat), file, inputExt, targetFormat, run)
  }

  /** convertFile as evidently intended, which the batch below uses: the target is
      lower-cased throughout, as validation lower-cases it, and video pairs have a branch. */
  function ConvertFile(file: UploadedFile, inputExt: string, targetFormat: string, run: AdapterRun): Result<Converted> {
    RunPlan(Dispatch(inputExt, targetFormat), file, inputExt, Lower(targetFormat), run)
  }

  /** Wherever the chain as written finds an adapter, the corrected dispatch finds the same
      one: such a target names a format, so it is already lower-case. */
  lemma DispatchAgrees(inputExt: string, targetFormat: string)
    requires DispatchAsWritten(inputExt, targetFormat).Some?
    ensures Lower(targetFormat) == targetFormat
    ensures Dispatch(inputExt, targetFormat) == DispatchAsWritten(inputExt, targetFormat)
  {
    var t := ParseFormat(targetFormat);
    assert t.Some?;
    FormatNameShape(t.value);
    LowerOfLowerCase(targetFormat);
  }

  /** The two convertFiles differ only where the chain as written finds no adapter: there the
      source reports "Unsupported conversion" whatever the adapter would have done; elsewhere
      the results are equal. */
  lemma ConvertFileAgrees(file: UploadedFile, inputExt: string, targetFormat: string, run: AdapterRun)
    ensures DispatchAsWritten(inputExt, targetFormat).Some? ==>
      ConvertFileAsWritten(file, inputExt, targetFormat, run) == ConvertFile(file, inputExt, targetFormat, run)
    ensures DispatchAsWritten(inputExt, targetFormat).None? ==>
      ConvertFileAsWritten(file, inputExt, targetFormat, run) == Err(UnsupportedConversionError(inputExt, targetFormat))
  {
    if DispatchAsWritten(inputExt, targetFormat).Some? {
      DispatchAgrees(inputExt, targetFormat);
    }
  }

  /** An mp4 upload converted to mov: the adapter's output is reported, and registered, only
      under the corrected convertFile; as written the file fails whatever ffmpeg did. */
  lemma VideoFileCounterexample(file: UploadedFile, outputPath: string, size: int)
    ensures ConvertFile(file, FormatName(Mp4), FormatName(Mov), Produced(outputPath, size)).Ok?
    ensures ConvertFileAsWritten(file, FormatName(Mp4), FormatName(Mov), Produced(outputPath, size))
         == Err(UnsupportedConversionError(FormatName(Mp4), FormatName(Mov)))
  {
    VideoPairCounterexample();
    FormatNameShape(Mp4);
    LegalPairConverts(file, FormatName(Mp4), FormatName(Mov), Produced(outputPath, size));
  }

  /** A legal pair with a lower-case extension is converted exactly when its adapter
      produced output, under the name of the lower-cased target with that target's MIME type,
      and that type is what getMimeType reports for the converted name. */
  lemma LegalPairConverts(file: UploadedFile, inputExt: string, targetFormat: string, run: AdapterRun)
    requires HasNoUpper(inputExt) && IsValidConversion(inputExt, targetFormat)
    ensures var r := ConvertFile(file, inputExt, targetFormat, run);
      && (r.Ok? <==> run.Produced?)
      && (r.Ok? ==> r.value.filePath == run.outputPath && r.value.size == run.size
                    && r.value.convertedName == ConvertedName(file.originalName, Lower(targetFormat))
                    && r.value.mimeType == GetMimeType(r.value.convertedName))
      && (run.Threw? ==> r == Err(run.message))
      && (run.ThrewNonError? ==> r == Err(ConversionFailedError))
  {
    DispatchCoversLegal(inputExt, targetFormat);
    var o := ParseFormat(Lower(targetFormat)).value;
    ConvertedNameMime(file.originalName, o);
    assert FormatName(o) == Lower(targetFormat);
  }

  /** A file validation accepted has a lower-case extension making a legal pair. */
  lemma AcceptedIsLegal(file: UploadedFile, targetFormat: string)
    requires FileAcceptable(file, targetFormat)
    ensures HasNoUpper(GetFileExtension(file.originalName))
    ensures IsValidConversion(GetFileExtension(file.originalName), targetFormat)
  {
    ExtensionIsLowerCase(file.originalName);
  }

  // ---------------------------------------------------------------------------
  // The batch handler

  /** One element of the response's results array. */
  datatype Entry =
    | Success(id: string, originalName: string, convertedName: string, downloadUrl: string, size: int)
    | Failure(originalName: string, error: string)

  const DownloadPrefix: string := "/api/download/"
  const ValidationFailedError: string := "Validation failed"
  const SizeFailedError: string := "File size validation failed"

  /** The JSON bodies the route sends, with their status codes. */
  datatype Response =
    | JsonError(status: int, error: string)
    | JsonErrorDetails(status: int, error: string, details: seq<string>)
    | SizeRejected(status: int, error: string, detail: SizeCheck)
    | ServerError(status: int, error: string, message: string)
    | BatchDone(success: bool, results: seq<Entry>, message: string)

  /** convertFile on one upload, its extension read by getFileExtension. */
  function Outcome(file: UploadedFile, targetFormat: string, run: AdapterRun): Result<Converted> {
    ConvertFile(file, GetFileExtension(file.originalName), targetFormat, run)
  }

  /** The outcomes of all the files, in order. */
  function Outcomes(files: seq<UploadedFile>, targetFormat: string, runs: seq<AdapterRun>): (r: seq<Result<Converted>>)
    requires |runs| == |files|
    ensures |r| == |files| && forall k :: 0 <= k < |files| ==> r[k] == Outcome(files[k], targetFormat, runs[k])
  {
    seq(|files|, k requires 0 <= k < |files| => Outcome(files[k], targetFormat, runs[k]))
  }

  /** The entry pushed for one file. */
  function EntryOf(file: UploadedFile, outcome: Result<Converted>, id: string): Entry {
    match outcome
    case Ok(c) => Success(id, file.originalName, c.convertedName, DownloadPrefix + id, c.size)
    case Err(message) => Failure(file.originalName, message)
  }

  /** What the registry stores for one file, if it converted. */
  function RecordOf(file: UploadedFile, outcome: Result<Converted>, now: int): Option<ConversionResult> {
    match outcome
    case Ok(c) => Some(ConversionResult(c.filePath, file.originalName, c.convertedName, c.mimeType, now))
    case Err(_) => None
  }

  /** The entries of the first n files, in order. */
  function Entries(files: seq<UploadedFile>, outcomes: seq<Result<Converted>>, ids: seq<string>, n: nat): (r: seq<Entry>)
    requires n <= |files| && |outcomes| == |files| && |ids| == |files|
    ensures |r| == n
    ensures forall k :: 0 <= k < n ==> r[k] == EntryOf(files[k], outcomes[k], ids[k])
  {
    if n == 0 then [] else Entries(files, outcomes, ids, n - 1) + [EntryOf(files[n - 1], outcomes[n - 1], ids[n - 1])]
  }

  /** The registry after the first n files were handled: each converted file stored under
      its id, later files overwriting earlier ones. */
  function Register(registry: Registry, files: seq<UploadedFile>, outcomes: seq<Result<Converted>>,
                    ids: seq<string>, now: int, n: nat): Registry
    requires n <= |files| && |outcomes| == |files| && |ids| == |files|
  {
    if n == 0 then registry
    else Store(Register(registry, files, outcomes, ids, now, n - 1), RecordOf(files[n - 1], outcomes[n - 1], now), ids[n - 1])
  }

  /** `storage.set(id, record)` when there is a record. */
  function Store(registry: Registry, record: Option<ConversionResult>, id: string): Registry {
    if record.Some? then registry[id := record.value] else registry
  }

  /** `!r.error`: a success, or a failure whose message is the empty string. */
  predicate Counted(e: Entry) {
    e.Success? || e.error == ""
  }

  /** results.filter(r => !r.error).length */
  function CountConverted(es: seq<Entry>): (r: nat)
    ensures r <= |es|
    ensures r == |es| <==> forall k :: 0 <= k < |es| ==> Counted(es[k])
  {
    if es == [] then 0
    else
      var rest := CountConverted(es[1..]);
      assert forall k :: 1 <= k < |es| ==> es[1..][k - 1] == es[k];
      (if Counted(es[0]) then 1 else 0) + rest
  }

  function BatchMessage(converted: nat, total: nat): string {
    "Converted " + NatToString(converted) + " of " + NatToString(total) + " files"
  }

  /** The i-th file is over the limit and every file before it is within. */
  predicate FirstOversizeAt(files: seq<UploadedFile>, maxSizeMB: int, i: int) {
    && 0 <= i < |files|
    && ValidateFileSize(files[i].size, maxSizeMB).SizeTooLarge?
    && forall k :: 0 <= k < i ==> ValidateFileSize(files[k].size, maxSizeMB).SizeOk?
  }

  /** The first file over the size limit, if any, as the size loop meets it. */
  function FirstOversize(files: seq<UploadedFile>, maxSizeMB: int): (r: Option<SizeCheck>)
    ensures r.None? <==> forall k :: 0 <= k < |files| ==> ValidateFileSize(files[k].size, maxSizeMB).SizeOk?
    ensures r.Some? ==> exists i :: FirstOversizeAt(files, maxSizeMB, i) && r.value == ValidateFileSize(files[i].size, maxSizeMB)
  {
    if files == [] then None
    else if ValidateFileSize(files[0].size, maxSizeMB).SizeTooLarge? then Some(ValidateFileSize(files[0].size, maxSizeMB))
    else
      var rest := FirstOversize(files[1..], maxSizeMB);
      assert forall k :: 1 <= k < |files| ==> files[1..][k - 1] == files[k];
      if rest.Some? then
        var i :| FirstOversizeAt(files[1..], maxSizeMB, i) && rest.value == ValidateFileSize(files[1..][i].size, maxSizeMB);
        assert FirstOversizeAt(files, maxSizeMB, i + 1);
        rest
      else rest
  }

  /** The checks ahead of the batch loop, in the route's order: the first one that fails
      decides the response; None when the request goes on to conversion. */
  function Rejection(files: seq<UploadedFile>, targetFormat: string, maxSizeMB: int, tmpDirError: Option<string>)
    : (r: Option<Response>)
    ensures r.Some? ==> !r.value.BatchDone?
  {
    if |files| == 0 then Some(JsonError(400, NoFilesError))
    else if targetFormat == "" then Some(JsonError(400, NoTargetError))
    else if RequestErrors(files, targetFormat) != [] then
      Some(JsonErrorDetails(400, ValidationFailedError, RequestErrors(files, targetFormat)))
    else if FirstOversize(files, maxSizeMB).Some? then
      Some(SizeRejected(400, SizeFailedError, FirstOversize(files, maxSizeMB).value))
    else if tmpDirError.Some? then Some(ServerError(500, ConversionFailedError, tmpDirError.value))
    else None
  }

  /** The response of a request that passed every check: one entry per file and the count. */
  function Batch(files: seq<UploadedFile>, targetFormat: string, runs: seq<AdapterRun>, ids: seq<string>): (r: Response)
    requires |runs| == |files| && |ids| == |files|
    ensures r.BatchDone? && r.success && |r.results| == |files|
  {
    var es := Entries(files, Outcomes(files, targetFormat, runs), ids, |files|);
    BatchDone(true, es, BatchMessage(CountConverted(es), |files|))
  }

  /** The whole route: the request checks in order, then one entry per file. The upload
      middleware's own limits, the directory creation's failure (`tmpDirError`) and each
      file's adapter run are inputs. */
  function ConvertResponse(files: seq<UploadedFile>, targetFormat: string, maxSizeMB: int, tmpDirError: Option<string>,
                           runs: seq<AdapterRun>, ids: seq<string>): Response
    requires |runs| == |files| && |ids| == |files|
  {
    var rejection := Rejection(files, targetFormat, maxSizeMB, tmpDirError);
    if rejection.Some? then rejection.value else Batch(files, targetFormat, runs, ids)
  }

  /** POST /api/convert. `runs[i]` is what converting the i-th file comes to, and `ids[i]`
      the uuid it is registered under if it converts; `now` is the registration time. */
  method HandleConvert(storage: StorageService, files: seq<UploadedFile>, targetFormat: string, maxSizeMB: int,
                       tmpDirError: Option<string>, runs: seq<AdapterRun>, ids: seq<Ids.Uuid>, now: int)
    returns (response: Response)
    requires |runs| == |files| && |ids| == |files|
    modifies storage
    ensures response == ConvertResponse(files, targetFormat, maxSizeMB, tmpDirError, runs, ids)
    ensures storage.results ==
      if response.BatchDone? then Register(old(storage.results), files, Outcomes(files, targetFormat, runs), ids, now, |files|)
      else old(storage.results)
  {
    if |files| == 0 {
      return JsonError(400, NoFilesError);
    }
    if targetFormat == "" {
      return JsonError(400, NoTargetError);
    }
    var valid, errors := ValidateConversionRequest(files, targetFormat);
    if !valid {
      return JsonErrorDetails(400, ValidationFailedError, errors);
    }
    var oversize := CheckSizes(files, maxSizeMB);
    if oversize.Some? {
      return SizeRejected(400, SizeFailedError, oversize.value);
    }
    if tmpDirError.Some? {
      return ServerError(500, ConversionFailedError, tmpDirError.value);
    }
    var results := ConvertAll(storage, files, targetFormat, runs, ids, now);
    response := BatchDone(true, results, BatchMessage(CountConverted(results), |files|));
  }

  /** The size loop: the first file over the limit, if any. */
  method CheckSizes(files: seq<UploadedFile>, maxSizeMB: int) returns (oversize: Option<SizeCheck>)
    ensures oversize == FirstOversize(files, maxSizeMB)
  {
    var i := 0;
    while i < |files|
      invariant 0 <= i <= |files|
      invariant forall k :: 0 <= k < i ==> ValidateFileSize(files[k].size, maxSizeMB).SizeOk?
    {
      var check := ValidateFileSize(files[i].size, maxSizeMB);
      if check.SizeTooLarge? {
        assert FirstOversizeAt(files, maxSizeMB, i);
        return Some(check);
      }
      i := i + 1;
    }
    return None;
  }

  /** The batch loop: convert each file, register the converted ones, push one entry each. */
  method ConvertAll(storage: StorageService, files: seq<UploadedFile>, targetFormat: string,
                    runs: seq<AdapterRun>, ids: seq<string>, now: int)
    returns (results: seq<Entry>)
    requires |runs| == |files| && |ids| == |files|
    modifies storage
    ensures results == Entries(files, Outcomes(files, targetFormat, runs), ids, |files|)
    ensures storage.results == Register(old(storage.results), files, Outcomes(files, targetFormat, runs), ids, now, |files|)
  {
    ghost var outcomes := Outcomes(files, targetFormat, runs);
    ghost var initial := storage.results;
    results := [];
    var i := 0;
    while i < |files|
      invariant 0 <= i <= |files|
      invariant results == Entries(files, outcomes, ids, i)
      invariant storage.results == Register(initial, files, outcomes, ids, now, i)
    {
      ghost var before := storage.results;
      var entry := ConvertOne(storage, files[i], targetFormat, runs[i], ids[i], now);
      ConvertAllStep(initial, files, targetFormat, runs, outcomes, ids, now, i);
      assert storage.results == Store(before, RecordOf(files[i], Outcome(files[i], targetFormat, runs[i]), now), ids[i]);
      assert storage.results == Register(initial, files, outcomes, ids, now, i + 1);
      results := results + [entry];
      i := i + 1;
    }
  }

  /** One more file handled: its entry is appended and its record stored. */
  lemma ConvertAllStep(registry: Registry, files: seq<UploadedFile>, targetFormat: string, runs: seq<AdapterRun>,
                       outcomes: seq<Result<Converted>>, ids: seq<string>, now: int, i: nat)
    requires |runs| == |files| && |ids| == |files| && i < |files|
    requires outcomes == Outcomes(files, targetFormat, runs)
    ensures Entries(files, outcomes, ids, i + 1)
         == Entries(files, outcomes, ids, i) + [EntryOf(files[i], Outcome(files[i], targetFormat, runs[i]), ids[i])]
    ensures Register(registry, files, outcomes, ids, now, i + 1)
         == Store(Register(registry, files, outcomes, ids, now, i), RecordOf(files[i], Outcome(files[i], targetFormat, runs[i]), now), ids[i])
  {
    assert outcomes[i] == Outcome(files[i], targetFormat, runs[i]);
  }

  /** One iteration of the batch loop: convert the file, register it if it converted, and
      return its entry. */
  method ConvertOne(storage: StorageService, file: UploadedFile, targetFormat: string, run: AdapterRun,
                    id: string, now: int)
    returns (entry: Entry)
    modifies storage
    ensures entry == EntryOf(file, Outcome(file, targetFormat, run), id)
    ensures storage.results == Store(old(storage.results), RecordOf(file, Outcome(file, targetFormat, run), now), id)
  {
    var outcome := ConvertFile(file, GetFileExtension(file.originalName), targetFormat, run);
    var record := RecordOf(file, outcome, now);
    if record.Some? {
      storage.Set(id, record.value);
    }
    entry := EntryOf(file, outcome, id);
  }

  // ---------------------------------------------------------------------------
  // What a batch response promises

  /** The checks let a request through exactly when it has files and a target, every file
      passes validation and the size limit, and the directories were created. */
  lemma RejectionNone(files: seq<UploadedFile>, targetFormat: string, maxSizeMB: int, tmpDirError: Option<string>)
    ensures Rejection(files, targetFormat, maxSizeMB, tmpDirError).None? <==>
      && |files| > 0 && targetFormat != ""
      && AllAcceptable(files, targetFormat)
      && FirstOversize(files, maxSizeMB).None?
      && tmpDirError.None?
  {
    RequestErrorsSpec(files, targetFormat);
  }

  /** A batch is answered only for a request that passed every check. */
  lemma BatchOnlyWhenAccepted(files: seq<UploadedFile>, targetFormat: string, maxSizeMB: int,
                              tmpDirError: Option<string>, runs: seq<AdapterRun>, ids: seq<string>)
    requires |runs| == |files| && |ids| == |files|
    ensures ConvertResponse(files, targetFormat, maxSizeMB, tmpDirError, runs, ids).BatchDone? <==>
      Rejection(files, targetFormat, maxSizeMB, tmpDirError).None?
    ensures ConvertResponse(files, targetFormat, maxSizeMB, tmpDirError, runs, ids).BatchDone? ==>
      ConvertResponse(files, targetFormat, maxSizeMB, tmpDirError, runs, ids) == Batch(files, targetFormat, runs, ids)
  {
  }

  /** The outcome of an accepted file is decided by its adapter run alone. */
  lemma AcceptedOutcome(file: UploadedFile, targetFormat: string, run: AdapterRun)
    requires FileAcceptable(file, targetFormat)
    ensures var r := Outcome(file, targetFormat, run);
      && (r.Ok? <==> run.Produced?)
      && (r.Ok? ==> r.value.filePath == run.outputPath && r.value.size == run.size
                    && r.value.convertedName == ConvertedName(file.originalName, Lower(targetFormat))
                    && r.value.mimeType == GetMimeType(r.value.convertedName))
      && (run.Threw? ==> r == Err(run.message))
      && (run.ThrewNonError? ==> r == Err(ConversionFailedError))
  {
    AcceptedIsLegal(file, targetFormat);
    LegalPairConverts(file, GetFileExtension(file.originalName), targetFormat, run);
  }

  /** The entry of an accepted file: a success exactly when its adapter produced output,
      naming the id and the download URL for it; otherwise a failure with the thrown message. */
  lemma AcceptedEntry(file: UploadedFile, targetFormat: string, run: AdapterRun, id: string)
    requires FileAcceptable(file, targetFormat)
    ensures var e := EntryOf(file, Outcome(file, targetFormat, run), id);
      && e.originalName == file.originalName
      && (e.Success? <==> run.Produced?)
      && (e.Success? ==>
            && e.id == id && e.downloadUrl == DownloadPrefix + id && e.size == run.size
            && e.convertedName == ConvertedName(file.originalName, Lower(targetFormat)))
      && (run.Threw? ==> e == Failure(file.originalName, run.message))
      && (run.ThrewNonError? ==> e == Failure(file.originalName, ConversionFailedError))
  {
    AcceptedOutcome(file, targetFormat, run);
  }

  /** One entry per file, in file order, each as AcceptedEntry describes: under the corrected
      convertFile, no file of an answered batch is reported as an unsupported conversion. */
  lemma BatchEntries(files: seq<UploadedFile>, targetFormat: string, maxSizeMB: int,
                     tmpDirError: Option<string>, runs: seq<AdapterRun>, ids: seq<string>, k: nat)
    requires |runs| == |files| && |ids| == |files| && k < |files|
    requires ConvertResponse(files, targetFormat, maxSizeMB, tmpDirError, runs, ids).BatchDone?
    ensures var es := ConvertResponse(files, targetFormat, maxSizeMB, tmpDirError, runs, ids).results;
      && |es| == |files|
      && es[k] == EntryOf(files[k], Outcome(files[k], targetFormat, runs[k]), ids[k])
      && FileAcceptable(files[k], targetFormat)
  {
    BatchOnlyWhenAccepted(files, targetFormat, maxSizeMB, tmpDirError, runs, ids);
    RejectionNone(files, targetFormat, maxSizeMB, tmpDirError);
  }

  /** Register in terms of the ids: with distinct ids, each converted file's record sits
      under its id, a file that failed adds nothing, and keys of no file keep their entry. */
  lemma {:induction false} RegisterSpec(registry: Registry, files: seq<UploadedFile>, outcomes: seq<Result<Converted>>,
                                        ids: seq<string>, now: int, n: nat)
    requires n <= |files| && |outcomes| == |files| && |ids| == |files| && NoDup(ids)
    ensures var r := Register(registry, files, outcomes, ids, now, n);
      forall k :: 0 <= k < n && RecordOf(files[k], outcomes[k], now).Some? ==>
        ids[k] in r && r[ids[k]] == RecordOf(files[k], outcomes[k], now).value
    ensures var r := Register(registry, files, outcomes, ids, now, n);
      forall k :: 0 <= k < n && RecordOf(files[k], outcomes[k], now).None? ==>
        (ids[k] in r <==> ids[k] in registry) && (ids[k] in registry ==> r[ids[k]] == registry[ids[k]])
    ensures var r := Register(registry, files, outcomes, ids, now, n);
      forall key :: key !in ids[..n] ==> (key in r <==> key in registry) && (key in r ==> r[key] == registry[key])
  {
    if n > 0 {
      RegisterSpec(registry, files, outcomes, ids, now, n - 1);
      assert ids[..n] == ids[..n - 1] + [ids[n - 1]];
      forall k | 0 <= k < n - 1 ensures ids[k] != ids[n - 1] && ids[k] in ids[..n - 1] {
        assert ids[..n - 1][k] == ids[k];
      }
      assert ids[n - 1] !in ids[..n - 1];
    }
  }

  /** A converted file's record, as the registry holds it after the batch. */
  lemma RegisteredRecord(registry: Registry, files: seq<UploadedFile>, targetFormat: string, runs: seq<AdapterRun>,
                         ids: seq<string>, now: int, k: nat)
    requires |runs| == |files| && |ids| == |files| && k < |files| && NoDup(ids)
    requires FileAcceptable(files[k], targetFormat) && runs[k].Produced?
    ensures var r := Register(registry, files, Outcomes(files, targetFormat, runs), ids, now, |files|);
      var name := ConvertedName(files[k].originalName, Lower(targetFormat));
      ids[k] in r && r[ids[k]] == ConversionResult(runs[k].outputPath, files[k].originalName, name, GetMimeType(name), now)
  {
    var outcomes := Outcomes(files, targetFormat, runs);
    AcceptedOutcome(files[k], targetFormat, runs[k]);
    RegisterSpec(registry, files, outcomes, ids, now, |files|);
  }

  /** After a batch, every success can be downloaded from its URL: the registry holds its
      record, and while the converted file is on disk the download serves it with the
      converted name and getMimeType's type for that name. */
  lemma ConvertedFileDownloadable(registry: Registry, files: seq<UploadedFile>, targetFormat: string, maxSizeMB: int,
                                  tmpDirError: Option<string>, runs: seq<AdapterRun>, ids: seq<Ids.Uuid>, now: int,
                                  disk: Fs.Files, k: nat)
    requires |runs| == |files| && |ids| == |files| && k < |files| && NoDup(ids)
    requires ConvertResponse(files, targetFormat, maxSizeMB, tmpDirError, runs, ids).BatchDone?
    requires runs[k].Produced? && runs[k].outputPath in disk
    ensures var name := ConvertedName(files[k].originalName, Lower(targetFormat));
      Download.DownloadStep(Register(registry, files, Outcomes(files, targetFormat, runs), ids, now, |files|), disk, ids[k])
      .response == Download.Attachment(GetMimeType(name), Download.Disposition(name), runs[k].outputPath)
  {
    BatchEntries(files, targetFormat, maxSizeMB, tmpDirError, runs, ids, k);
    RegisteredRecord(registry, files, targetFormat, runs, ids, now, k);
  }

  /** The number of runs that produced output: all of them exactly when every run produced,
      none exactly when no run did. */
  function ProducedCount(runs: seq<AdapterRun>): (r: nat)
    ensures r <= |runs|
    ensures r == |runs| <==> forall k :: 0 <= k < |runs| ==> runs[k].Produced?
    ensures r == 0 <==> forall k :: 0 <= k < |runs| ==> !runs[k].Produced?
  {
    if runs == [] then 0 else (if runs[0].Produced? then 1 else 0) + ProducedCount(runs[1..])
  }

  lemma {:induction false} CountMatches(es: seq<Entry>, runs: seq<AdapterRun>)
    requires |es| == |runs| && forall k :: 0 <= k < |es| ==> (Counted(es[k]) <==> runs[k].Produced?)
    ensures CountConverted(es) == ProducedCount(runs)
  {
    if es != [] {
      assert forall k :: 0 <= k < |es| - 1 ==> es[1..][k] == es[k + 1] && runs[1..][k] == runs[k + 1];
      CountMatches(es[1..], runs[1..]);
    }
  }

  /** An accepted file counts as converted exactly when its adapter produced output, unless
      the adapter threw an empty message. */
  lemma CountedIffProduced(file: UploadedFile, targetFormat: string, run: AdapterRun, id: string)
    requires FileAcceptable(file, targetFormat) && (run.Threw? ==> |run.message| > 0)
    ensures Counted(EntryOf(file, Outcome(file, targetFormat, run), id)) <==> run.Produced?
  {
    AcceptedEntry(file, targetFormat, run, id);
  }

  lemma EntryCounted(files: seq<UploadedFile>, targetFormat: string, runs: seq<AdapterRun>, ids: seq<string>, k: nat)
    requires |runs| == |files| && |ids| == |files| && k < |files|
    requires FileAcceptable(files[k], targetFormat) && (runs[k].Threw? ==> |runs[k].message| > 0)
    ensures Counted(Entries(files, Outcomes(files, targetFormat, runs), ids, |files|)[k]) <==> runs[k].Produced?
  {
    CountedIffProduced(files[k], targetFormat, runs[k], ids[k]);
  }

  /** With no adapter failing on an empty message, the batch counts the produced files. */
  lemma BatchCount(files: seq<UploadedFile>, targetFormat: string, runs: seq<AdapterRun>, ids: seq<string>)
    requires |runs| == |files| && |ids| == |files|
    requires AllAcceptable(files, targetFormat)
    requires forall k :: 0 <= k < |runs| ==> (runs[k].Threw? ==> |runs[k].message| > 0)
    ensures Batch(files, targetFormat, runs, ids).message == BatchMessage(ProducedCount(runs), |files|)
  {
    var es := Entries(files, Outcomes(files, targetFormat, runs), ids, |files|);
    forall k | 0 <= k < |files| ensures Counted(es[k]) <==> runs[k].Produced? {
      EntryCounted(files, targetFormat, runs, ids, k);
    }
    CountMatches(es, runs);
    assert Batch(files, targetFormat, runs, ids) == BatchDone(true, es, BatchMessage(CountConverted(es), |files|));
  }

  /** The message counts the files whose adapter produced output, as long as no adapter
      failed with an empty message (such a failure has a falsy `error` and is counted). */
  lemma BatchMessageCounts(files: seq<UploadedFile>, targetFormat: string, maxSizeMB: int,
                           tmpDirError: Option<string>, runs: seq<AdapterRun>, ids: seq<string>)
    requires |runs| == |files| && |ids| == |files|
    requires ConvertResponse(files, targetFormat, maxSizeMB, tmpDirError, runs, ids).BatchDone?
    requires forall k :: 0 <= k < |runs| ==> (runs[k].Threw? ==> |runs[k].message| > 0)
    ensures ConvertResponse(files, targetFormat, maxSizeMB, tmpDirError, runs, ids).message ==
      BatchMessage(ProducedCount(runs), |files|)
  {
    BatchOnlyWhenAccepted(files, targetFormat, maxSizeMB, tmpDirError, runs, ids);
    RejectionNone(files, targetFormat, maxSizeMB, tmpDirError);
    BatchCount(files, targetFormat, runs, ids);
  }
}
