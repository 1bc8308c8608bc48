/** Format registry and request validation (backend/src/utils/validate.ts). */
module Validate {
  import opened Common
  import opened Text

  // ---------------------------------------------------------------------------
  // Formats

  /** The seventeen formats the registry knows, each named by its extension. */
  datatype Format =
    | Docx | Xlsx | Pptx | Txt
    | Pdf
    | Jpeg | Jpg | Png | Webp | Tiff | Gif | Bmp
    | Mp4 | Mov | Avi | Mkv | Webm

  function FormatName(f: Format): string {
    match f
    case Docx => "docx" case Xlsx => "xlsx" case Pptx => "pptx" case Txt => "txt"
    case Pdf => "pdf"
    case Jpeg => "jpeg" case Jpg => "jpg" case Png => "png" case Webp => "webp"
    case Tiff => "tiff" case Gif => "gif" case Bmp => "bmp"
    case Mp4 => "mp4" case Mov => "mov" case Avi => "avi" case Mkv => "mkv" case Webm => "webm"
  }

  /** The format an extension string names, if any (names are compared exactly). */
  function ParseFormat(ext: string): (r: Option<Format>)
    ensures r.Some? ==> FormatName(r.value) == ext
  {
    if ext == "docx" then Some(Docx) else if ext == "xlsx" then Some(Xlsx)
    else if ext == "pptx" then Some(Pptx) else if ext == "txt" then Some(Txt)
    else if ext == "pdf" then Some(Pdf) else if ext == "jpeg" then Some(Jpeg)
    else if ext == "jpg" then Some(Jpg) else if ext == "png" then Some(Png)
    else if ext == "webp" then Some(Webp) else if ext == "tiff" then Some(Tiff)
    else if ext == "gif" then Some(Gif) else if ext == "bmp" then Some(Bmp)
    else if ext == "mp4" then Some(Mp4) else if ext == "mov" then Some(Mov)
    else if ext == "avi" then Some(Avi) else if ext == "mkv" then Some(Mkv)
    else if ext == "webm" then Some(Webm) else None
  }

  lemma ParseFormatName(f: Format)
    ensures ParseFormat(FormatName(f)) == Some(f)
  {
  }

  lemma FormatNameInjective(f: Format, g: Format)
    ensures FormatName(f) == FormatName(g) <==> f == g
  {
    ParseFormatName(f);
    ParseFormatName(g);
  }

  /** Format names are non-empty, lower-case and contain no dot. */
  lemma FormatNameShape(f: Format)
    ensures FormatName(f) != [] && HasNoUpper(FormatName(f)) && '.' !in FormatName(f)
  {
  }

  function Names(fs: seq<Format>): (r: seq<string>)
    ensures |r| == |fs| && forall i :: 0 <= i < |fs| ==> r[i] == FormatName(fs[i])
  {
    seq(|fs|, i requires 0 <= i < |fs| => FormatName(fs[i]))
  }

  const DocumentFormats: seq<Format> := [Docx, Xlsx, Pptx, Txt]
  const ImageFormats: seq<Format> := [Jpeg, Jpg, Png, Webp, Tiff, Gif, Bmp]
  const PdfFormats: seq<Format> := [Pdf]
  const VideoFormats: seq<Format> := [Mp4, Mov, Avi, Mkv, Webm]

  /** The extensions validateFileType accepts, family by family. */
  const AllSupportedFormats: seq<Format> := DocumentFormats + ImageFormats + PdfFormats + VideoFormats

  lemma EveryFormatSupported(f: Format)
    ensures f in AllSupportedFormats
  {
  }

  /** Each format belongs to exactly one family. */
  lemma FamiliesDisjoint(f: Format)
    ensures f in DocumentFormats ==> f !in ImageFormats && f !in PdfFormats && f !in VideoFormats
    ensures f in ImageFormats ==> f !in PdfFormats && f !in VideoFormats
    ensures f in PdfFormats ==> f !in VideoFormats
  {
  }

  /** allSupportedExtensions.includes(ext) */
  predicate IsSupportedExtension(ext: string) {
    ParseFormat(ext).Some?
  }

  /** An extension is one of the supported ones exactly when it names a format. */
  lemma SupportedExtensionIff(ext: string)
    ensures ext in Names(AllSupportedFormats) <==> IsSupportedExtension(ext)
  {
    var names := Names(AllSupportedFormats);
    if ext in names {
      var i :| 0 <= i < |names| && names[i] == ext;
      ParseFormatName(AllSupportedFormats[i]);
    }
    if ParseFormat(ext).Some? {
      var f := ParseFormat(ext).value;
      EveryFormatSupported(f);
      var i :| 0 <= i < |AllSupportedFormats| && AllSupportedFormats[i] == f;
      assert names[i] == ext;
    }
  }

  lemma NoDupTail<T>(s: seq<T>)
    requires NoDup(s) && s != []
    ensures NoDup(s[1..]) && s[0] !in s[1..]
  {
    forall i, j | 0 <= i < j < |s[1..]| ensures s[1..][i] != s[1..][j] {
      assert s[1..][i] == s[i + 1] && s[1..][j] == s[j + 1];
    }
    forall k | 0 <= k < |s[1..]| ensures s[1..][k] != s[0] {
      assert s[1..][k] == s[k + 1];
    }
  }

  lemma NoDupConcat<T>(a: seq<T>, b: seq<T>)
    requires NoDup(a) && NoDup(b)
    requires forall x :: x in a ==> x !in b
    ensures NoDup(a + b)
  {
    var c := a + b;
    forall i, j | 0 <= i < j < |c| ensures c[i] != c[j] {
      if i < |a| && j >= |a| {
        assert c[i] in a;
        assert c[j] == b[j - |a|];
      }
    }
  }

  predicate IsDocument(f: Format) {
    f.Docx? || f.Xlsx? || f.Pptx? || f.Txt?
  }

  predicate IsImage(f: Format) {
    f.Jpeg? || f.Jpg? || f.Png? || f.Webp? || f.Tiff? || f.Gif? || f.Bmp?
  }

  predicate IsVideo(f: Format) {
    f.Mp4? || f.Mov? || f.Avi? || f.Mkv? || f.Webm?
  }

  lemma VideoFormatsDistinct()
    ensures NoDup(VideoFormats)
  {
  }

  // ---------------------------------------------------------------------------
  // The table of legal conversions

  datatype ConversionPair = ConversionPair(input: Format, output: Format)

  const DocumentToPdfPairs: seq<ConversionPair> := [
    ConversionPair(Docx, Pdf), ConversionPair(Xlsx, Pdf), ConversionPair(Pptx, Pdf), ConversionPair(Txt, Pdf)
  ]

  const ImageToImagePairs: seq<ConversionPair> := [
    ConversionPair(Jpeg, Png), ConversionPair(Jpg, Png), ConversionPair(Png, Jpeg),
    ConversionPair(Jpeg, Webp), ConversionPair(Jpg, Webp), ConversionPair(Png, Webp),
    ConversionPair(Webp, Jpeg), ConversionPair(Webp, Png), ConversionPair(Png, Tiff),
    ConversionPair(Tiff, Png), ConversionPair(Gif, Png), ConversionPair(Bmp, Png),
    ConversionPair(Gif, Jpeg), ConversionPair(Bmp, Jpeg)
  ]

  const PdfToImagePairs: seq<ConversionPair> := [ConversionPair(Pdf, Png), ConversionPair(Pdf, Jpeg)]

  const ImageToPdfPairs: seq<ConversionPair> := [
    ConversionPair(Jpeg, Pdf), ConversionPair(Jpg, Pdf), ConversionPair(Png, Pdf), ConversionPair(Webp, Pdf),
    ConversionPair(Tiff, Pdf), ConversionPair(Gif, Pdf), ConversionPair(Bmp, Pdf)
  ]

  /** The hand-enumerated pairs, in table order. */
  const BaseConversionPairs: seq<ConversionPair> :=
    DocumentToPdfPairs + ImageToImagePairs + PdfToImagePairs + ImageToPdfPairs

  /** outputs.filter(o => o !== input).map(o => ({ input, output: o })) */
  function PairsFrom(input: Format, outputs: seq<Format>): seq<ConversionPair> {
    if outputs == [] then []
    else (if outputs[0] != input then [ConversionPair(input, outputs[0])] else [])
         + PairsFrom(input, outputs[1..])
  }

  /** inputs.flatMap(input => PairsFrom(input, outputs)) */
  function FlatPairs(inputs: seq<Format>, outputs: seq<Format>): seq<ConversionPair> {
    if inputs == [] then [] else PairsFrom(inputs[0], outputs) + FlatPairs(inputs[1..], outputs)
  }

  const VideoConversionPairs: seq<ConversionPair> := FlatPairs(VideoFormats, VideoFormats)

  /** CONVERSION_PAIRS: the base pairs followed by the generated video pairs. */
  const ConversionPairs: seq<ConversionPair> := BaseConversionPairs + VideoConversionPairs

  lemma {:induction false} PairsFromMembership(input: Format, outputs: seq<Format>, p: ConversionPair)
    ensures p in PairsFrom(input, outputs) <==> p.input == input && p.output in outputs && p.output != input
  {
    if outputs != [] {
      PairsFromMembership(input, outputs[1..], p);
      assert outputs == [outputs[0]] + outputs[1..];
    }
  }

  lemma {:induction false} FlatPairsMembership(inputs: seq<Format>, outputs: seq<Format>, p: ConversionPair)
    ensures p in FlatPairs(inputs, outputs) <==> p.input in inputs && p.output in outputs && p.input != p.output
  {
    if inputs != [] {
      PairsFromMembership(inputs[0], outputs, p);
      FlatPairsMembership(inputs[1..], outputs, p);
      assert inputs == [inputs[0]] + inputs[1..];
    }
  }

  lemma {:induction false} PairsFromLength(input: Format, outputs: seq<Format>)
    requires NoDup(outputs)
    ensures |PairsFrom(input, outputs)| == if input in outputs then |outputs| - 1 else |outputs|
  {
    if outputs != [] {
      NoDupTail(outputs);
      PairsFromLength(input, outputs[1..]);
      assert outputs == [outputs[0]] + outputs[1..];
    }
  }

  lemma {:induction false} FlatPairsLength(inputs: seq<Format>, outputs: seq<Format>)
    requires NoDup(outputs)
    requires forall i :: 0 <= i < |inputs| ==> inputs[i] in outputs
    ensures |FlatPairs(inputs, outputs)| == |inputs| * (|outputs| - 1)
  {
    if inputs != [] {
      PairsFromLength(inputs[0], outputs);
      FlatPairsLength(inputs[1..], outputs);
      assert |inputs| * (|outputs| - 1) == (|outputs| - 1) + (|inputs| - 1) * (|outputs| - 1);
    }
  }

  lemma {:induction false} PairsFromNoDup(input: Format, outputs: seq<Format>)
    requires NoDup(outputs)
    ensures NoDup(PairsFrom(input, outputs))
  {
    if outputs != [] {
      NoDupTail(outputs);
      PairsFromNoDup(input, outputs[1..]);
      var head := if outputs[0] != input then [ConversionPair(input, outputs[0])] else [];
      forall q | q in head ensures q !in PairsFrom(input, outputs[1..]) {
        PairsFromMembership(input, outputs[1..], q);
      }
      NoDupConcat(head, PairsFrom(input, outputs[1..]));
    }
  }

  lemma {:induction false} FlatPairsNoDup(inputs: seq<Format>, outputs: seq<Format>)
    requires NoDup(inputs) && NoDup(outputs)
    ensures NoDup(FlatPairs(inputs, outputs))
  {
    if inputs != [] {
      NoDupTail(inputs);
      PairsFromNoDup(inputs[0], outputs);
      FlatPairsNoDup(inputs[1..], outputs);
      forall q | q in PairsFrom(inputs[0], outputs) ensures q !in FlatPairs(inputs[1..], outputs) {
        PairsFromMembership(inputs[0], outputs, q);
        FlatPairsMembership(inputs[1..], outputs, q);
      }
      NoDupConcat(PairsFrom(inputs[0], outputs), FlatPairs(inputs[1..], outputs));
    }
  }

  /** The generated video pairs are exactly the 20 ordered pairs of distinct video formats,
      each listed once. */
  lemma VideoPairsExact()
    ensures forall a, b :: ConversionPair(a, b) in VideoConversionPairs <==>
      a in VideoFormats && b in VideoFormats && a != b
    ensures |VideoConversionPairs| == 20
    ensures NoDup(VideoConversionPairs)
  {
    forall a, b ensures ConversionPair(a, b) in VideoConversionPairs <==>
      a in VideoFormats && b in VideoFormats && a != b
    {
      FlatPairsMembership(VideoFormats, VideoFormats, ConversionPair(a, b));
    }
    VideoFormatsDistinct();
    FlatPairsLength(VideoFormats, VideoFormats);
    FlatPairsNoDup(VideoFormats, VideoFormats);
  }

  /** The video part of the table is symmetric. */
  lemma VideoPairsSymmetric(a: Format, b: Format)
    ensures ConversionPair(a, b) in VideoConversionPairs <==> ConversionPair(b, a) in VideoConversionPairs
  {
    VideoPairsExact();
  }

  lemma BaseNoSelfPairs()
    ensures forall i :: 0 <= i < |BaseConversionPairs| ==>
      BaseConversionPairs[i].input != BaseConversionPairs[i].output
  {
    var d, ii, pi, ip := DocumentToPdfPairs, ImageToImagePairs, PdfToImagePairs, ImageToPdfPairs;
    assert forall i :: 0 <= i < |d| ==> d[i].input != d[i].output;
    assert forall i :: 0 <= i < |ii| ==> ii[i].input != ii[i].output;
    assert forall i :: 0 <= i < |pi| ==> pi[i].input != pi[i].output;
    assert forall i :: 0 <= i < |ip| ==> ip[i].input != ip[i].output;
    forall i | 0 <= i < |BaseConversionPairs|
      ensures BaseConversionPairs[i].input != BaseConversionPairs[i].output
    {
      var b := BaseConversionPairs;
      if i < |d| { assert b[i] == d[i]; }
      else if i < |d| + |ii| { assert b[i] == ii[i - |d|]; }
      else if i < |d| + |ii| + |pi| { assert b[i] == pi[i - |d| - |ii|]; }
      else { assert b[i] == ip[i - |d| - |ii| - |pi|]; }
    }
  }

  /** No format converts to itself. */
  lemma NoSelfPairs()
    ensures forall p :: p in ConversionPairs ==> p.input != p.output
  {
    BaseNoSelfPairs();
    forall p | p in ConversionPairs ensures p.input != p.output {
      if p in VideoConversionPairs {
        FlatPairsMembership(VideoFormats, VideoFormats, p);
      } else {
        assert p in BaseConversionPairs;
      }
    }
  }

  // ---------------------------------------------------------------------------
  // Outputs of one input, in table order

  /** pairs.filter(p => p.input === input).map(p => p.output), from position i on. */
  function OutputsFrom(pairs: seq<ConversionPair>, input: Format, i: nat): seq<Format>
    decreases |pairs| - i
  {
    if i >= |pairs| then []
    else (if pairs[i].input == input then [pairs[i].output] else []) + OutputsFrom(pairs, input, i + 1)
  }

  function OutputsFor(pairs: seq<ConversionPair>, input: Format): seq<Format> {
    OutputsFrom(pairs, input, 0)
  }

  lemma {:induction false} OutputsFromMembership(pairs: seq<ConversionPair>, input: Format, i: nat, o: Format)
    ensures o in OutputsFrom(pairs, input, i) <==>
      exists j :: i <= j < |pairs| && pairs[j] == ConversionPair(input, o)
    decreases |pairs| - i
  {
    if i < |pairs| {
      OutputsFromMembership(pairs, input, i + 1, o);
    }
  }

  lemma OutputsForMembership(pairs: seq<ConversionPair>, input: Format, o: Format)
    ensures o in OutputsFor(pairs, input) <==> ConversionPair(input, o) in pairs
  {
    OutputsFromMembership(pairs, input, 0, o);
  }

  lemma {:induction false} OutputsFromShift(a: seq<ConversionPair>, b: seq<ConversionPair>, input: Format, j: nat)
    ensures OutputsFrom(a + b, input, |a| + j) == OutputsFrom(b, input, j)
    decreases |b| - j
  {
    if j < |b| {
      OutputsFromShift(a, b, input, j + 1);
    }
  }

  lemma {:induction false} OutputsFromConcat(a: seq<ConversionPair>, b: seq<ConversionPair>, input: Format, i: nat)
    requires i <= |a|
    ensures OutputsFrom(a + b, input, i) == OutputsFrom(a, input, i) + OutputsFor(b, input)
    decreases |a| - i
  {
    if i == |a| {
      OutputsFromShift(a, b, input, 0);
    } else {
      OutputsFromConcat(a, b, input, i + 1);
      assert (a + b)[i] == a[i];
    }
  }

  lemma OutputsForConcat(a: seq<ConversionPair>, b: seq<ConversionPair>, input: Format)
    ensures OutputsFor(a + b, input) == OutputsFor(a, input) + OutputsFor(b, input)
  {
    OutputsFromConcat(a, b, input, 0);
  }

  lemma {:induction false} OutputsSkip(pairs: seq<ConversionPair>, input: Format, i: nat, k: nat)
    requires i <= k <= |pairs|
    requires forall j :: i <= j < k ==> pairs[j].input != input
    ensures OutputsFrom(pairs, input, i) == OutputsFrom(pairs, input, k)
    decreases k - i
  {
    if i < k {
      OutputsSkip(pairs, input, i + 1, k);
    }
  }

  /** A segment that lists no pair with input f gives f no outputs. */
  lemma OutputsHit(pairs: seq<ConversionPair>, input: Format, i: nat, k: nat)
    requires i <= k < |pairs|
    requires forall j :: i <= j < k ==> pairs[j].input != input
    requires pairs[k].input == input
    ensures OutputsFrom(pairs, input, i) == [pairs[k].output] + OutputsFrom(pairs, input, k + 1)
  {
    OutputsSkip(pairs, input, i, k);
  }

  lemma SegmentNone(pairs: seq<ConversionPair>, f: Format)
    requires forall j :: 0 <= j < |pairs| ==> pairs[j].input != f
    ensures OutputsFor(pairs, f) == []
  {
    OutputsSkip(pairs, f, 0, |pairs|);
  }

  lemma DocumentToPdfOutputs(f: Format)
    requires IsDocument(f)
    ensures OutputsFor(DocumentToPdfPairs, f) == [Pdf]
  {
    match f
    case Docx => assert OutputsFor(DocumentToPdfPairs, Docx) == [Pdf];
    case Xlsx => assert OutputsFor(DocumentToPdfPairs, Xlsx) == [Pdf];
    case Pptx => assert OutputsFor(DocumentToPdfPairs, Pptx) == [Pdf];
    case Txt => assert OutputsFor(DocumentToPdfPairs, Txt) == [Pdf];
  }

  lemma DocumentToPdfNone(f: Format)
    requires !IsDocument(f)
    ensures OutputsFor(DocumentToPdfPairs, f) == []
  {
    SegmentNone(DocumentToPdfPairs, f);
  }

  lemma ImageToImageEntries()
    ensures |ImageToImagePairs| == 14
    ensures ImageToImagePairs[0] == ConversionPair(Jpeg, Png) && ImageToImagePairs[1] == ConversionPair(Jpg, Png) && ImageToImagePairs[2] == ConversionPair(Png, Jpeg) && ImageToImagePairs[3] == ConversionPair(Jpeg, Webp) && ImageToImagePairs[4] == ConversionPair(Jpg, Webp) && ImageToImagePairs[5] == ConversionPair(Png, Webp) && ImageToImagePairs[6] == ConversionPair(Webp, Jpeg)
    ensures ImageToImagePairs[7] == ConversionPair(Webp, Png) && ImageToImagePairs[8] == ConversionPair(Png, Tiff) && ImageToImagePairs[9] == ConversionPair(Tiff, Png) && ImageToImagePairs[10] == ConversionPair(Gif, Png) && ImageToImagePairs[11] == ConversionPair(Bmp, Png) && ImageToImagePairs[12] == ConversionPair(Gif, Jpeg) && ImageToImagePairs[13] == ConversionPair(Bmp, Jpeg)
  {
  }

  lemma ImageToImageOutputsOfJpeg()
    ensures OutputsFor(ImageToImagePairs, Jpeg) == [Png, Webp]
  {
    ImageToImageEntries();
    var s := ImageToImagePairs;
    OutputsSkip(s, Jpeg, 4, |s|);
    OutputsHit(s, Jpeg, 1, 3);
    OutputsHit(s, Jpeg, 0, 0);
  }

  lemma ImageToImageOutputsOfJpg()
    ensures OutputsFor(ImageToImagePairs, Jpg) == [Png, Webp]
  {
    ImageToImageEntries();
    var s := ImageToImagePairs;
    OutputsSkip(s, Jpg, 5, |s|);
    OutputsHit(s, Jpg, 2, 4);
    OutputsHit(s, Jpg, 0, 1);
  }

  lemma ImageToImageOutputsOfPng()
    ensures OutputsFor(ImageToImagePairs, Png) == [Jpeg, Webp, Tiff]
  {
    ImageToImageEntries();
    var s := ImageToImagePairs;
    OutputsSkip(s, Png, 9, |s|);
    OutputsHit(s, Png, 6, 8);
    OutputsHit(s, Png, 3, 5);
    OutputsHit(s, Png, 0, 2);
  }

  lemma ImageToImageOutputsOfWebp()
    ensures OutputsFor(ImageToImagePairs, Webp) == [Jpeg, Png]
  {
    ImageToImageEntries();
    var s := ImageToImagePairs;
    OutputsSkip(s, Webp, 8, |s|);
    OutputsHit(s, Webp, 7, 7);
    OutputsHit(s, Webp, 0, 6);
  }

  lemma ImageToImageOutputsOfTiff()
    ensures OutputsFor(ImageToImagePairs, Tiff) == [Png]
  {
    ImageToImageEntries();
    var s := ImageToImagePairs;
    OutputsSkip(s, Tiff, 10, |s|);
    OutputsHit(s, Tiff, 0, 9);
  }

  lemma ImageToImageOutputsOfGif()
    ensures OutputsFor(ImageToImagePairs, Gif) == [Png, Jpeg]
  {
    GifOutputsHead();
    GifOutputsTail();
  }

  /** No gif pair before index 10. */
  lemma GifOutputsHead()
    ensures OutputsFrom(ImageToImagePairs, Gif, 0) == OutputsFrom(ImageToImagePairs, Gif, 10)
  {
    ImageToImageEntries();
    OutputsSkip(ImageToImagePairs, Gif, 0, 10);
  }

  /** The two gif pairs, at indices 10 and 12. */
  lemma GifOutputsTail()
    ensures OutputsFrom(ImageToImagePairs, Gif, 10) == [Png, Jpeg]
  {
    ImageToImageEntries();
    var s := ImageToImagePairs;
    OutputsSkip(s, Gif, 13, |s|);
    OutputsHit(s, Gif, 11, 12);
    OutputsHit(s, Gif, 10, 10);
  }

  lemma ImageToImageOutputsOfBmp()
    ensures OutputsFor(ImageToImagePairs, Bmp) == [Png, Jpeg]
  {
    ImageToImageEntries();
    var s := ImageToImagePairs;
    OutputsSkip(s, Bmp, 14, |s|);
    OutputsHit(s, Bmp, 12, 13);
    OutputsHit(s, Bmp, 0, 11);
  }

  lemma ImageToImageNone(f: Format)
    requires !IsImage(f)
    ensures OutputsFor(ImageToImagePairs, f) == []
  {
    SegmentNone(ImageToImagePairs, f);
  }

  lemma PdfToImageOutputs(f: Format)
    requires f.Pdf?
    ensures OutputsFor(PdfToImagePairs, f) == [Png, Jpeg]
  {
    assert OutputsFor(PdfToImagePairs, Pdf) == [Png, Jpeg];
  }

  lemma PdfToImageNone(f: Format)
    requires !f.Pdf?
    ensures OutputsFor(PdfToImagePairs, f) == []
  {
    SegmentNone(PdfToImagePairs, f);
  }

  lemma ImageToPdfOutputs(f: Format)
    requires IsImage(f)
    ensures OutputsFor(ImageToPdfPairs, f) == [Pdf]
  {
    match f
    case Jpeg => assert OutputsFor(ImageToPdfPairs, Jpeg) == [Pdf];
    case Jpg => assert OutputsFor(ImageToPdfPairs, Jpg) == [Pdf];
    case Png => assert OutputsFor(ImageToPdfPairs, Png) == [Pdf];
    case Webp => assert OutputsFor(ImageToPdfPairs, Webp) == [Pdf];
    case Tiff => assert OutputsFor(ImageToPdfPairs, Tiff) == [Pdf];
    case Gif => assert OutputsFor(ImageToPdfPairs, Gif) == [Pdf];
    case Bmp => assert OutputsFor(ImageToPdfPairs, Bmp) == [Pdf];
  }

  lemma ImageToPdfNone(f: Format)
    requires !IsImage(f)
    ensures OutputsFor(ImageToPdfPairs, f) == []
  {
    SegmentNone(ImageToPdfPairs, f);
  }

  /** The outputs of PairsFrom(i, outputs) for input x: the outputs other than x, in order,
      when i is x, and none otherwise. */
  function Without(outputs: seq<Format>, x: Format): seq<Format> {
    if outputs == [] then []
    else (if outputs[0] != x then [outputs[0]] else []) + Without(outputs[1..], x)
  }

  lemma {:induction false} WithoutMembership(outputs: seq<Format>, x: Format, o: Format)
    ensures o in Without(outputs, x) <==> o in outputs && o != x
  {
    if outputs != [] {
      WithoutMembership(outputs[1..], x, o);
      assert outputs == [outputs[0]] + outputs[1..];
    }
  }

  lemma {:induction false} OutputsOfPairsFrom(i: Format, outputs: seq<Format>, x: Format)
    ensures OutputsFor(PairsFrom(i, outputs), x) == if i == x then Without(outputs, x) else []
  {
    if outputs != [] {
      OutputsOfPairsFrom(i, outputs[1..], x);
      var head := if outputs[0] != i then [ConversionPair(i, outputs[0])] else [];
      OutputsForConcat(head, PairsFrom(i, outputs[1..]), x);
      if outputs[0] != i {
        assert OutputsFrom(head, x, 1) == [];
        assert OutputsFor(head, x) == if i == x then [outputs[0]] else [];
      } else {
        assert OutputsFor(head, x) == [];
      }
    }
  }

  lemma {:induction false} OutputsOfFlatPairs(inputs: seq<Format>, outputs: seq<Format>, x: Format)
    requires NoDup(inputs)
    ensures OutputsFor(FlatPairs(inputs, outputs), x) == if x in inputs then Without(outputs, x) else []
  {
    if inputs != [] {
      NoDupTail(inputs);
      OutputsForConcat(PairsFrom(inputs[0], outputs), FlatPairs(inputs[1..], outputs), x);
      OutputsOfPairsFrom(inputs[0], outputs, x);
      OutputsOfFlatPairs(inputs[1..], outputs, x);
      assert inputs == [inputs[0]] + inputs[1..];
    }
  }

  /** The table read by input: for each format, its targets in table order. */
  function TargetsOf(f: Format): seq<Format> {
    match f
    case Docx => [Pdf] case Xlsx => [Pdf] case Pptx => [Pdf] case Txt => [Pdf]
    case Pdf => [Png, Jpeg]
    case Jpeg => [Png, Webp, Pdf] case Jpg => [Png, Webp, Pdf]
    case Png => [Jpeg, Webp, Tiff, Pdf]
    case Webp => [Jpeg, Png, Pdf]
    case Tiff => [Png, Pdf]
    case Gif => [Png, Jpeg, Pdf] case Bmp => [Png, Jpeg, Pdf]
    case Mp4 | Mov | Avi | Mkv | Webm => Without(VideoFormats, f)
  }

  lemma BaseOutputsSplit(f: Format)
    ensures OutputsFor(BaseConversionPairs, f) ==
      OutputsFor(DocumentToPdfPairs, f) + OutputsFor(ImageToImagePairs, f) +
      OutputsFor(PdfToImagePairs, f) + OutputsFor(ImageToPdfPairs, f)
  {
    OutputsForConcat(DocumentToPdfPairs + ImageToImagePairs + PdfToImagePairs, ImageToPdfPairs, f);
    OutputsForConcat(DocumentToPdfPairs + ImageToImagePairs, PdfToImagePairs, f);
    OutputsForConcat(DocumentToPdfPairs, ImageToImagePairs, f);
  }

  /** The outputs the table lists for each input, in table order. */
  lemma VideoMembership(f: Format)
    ensures f in VideoFormats <==> IsVideo(f)
  {
  }

  /** The generated pairs list a video input's outputs after all the base pairs. */
  lemma OutputsSplit(f: Format)
    ensures OutputsFor(ConversionPairs, f) ==
      OutputsFor(BaseConversionPairs, f) + (if IsVideo(f) then Without(VideoFormats, f) else [])
  {
    OutputsForConcat(BaseConversionPairs, VideoConversionPairs, f);
    VideoFormatsDistinct();
    OutputsOfFlatPairs(VideoFormats, VideoFormats, f);
    VideoMembership(f);
  }

  lemma DocxBaseOutputs(f: Format)
    requires f.Docx?
    ensures OutputsFor(BaseConversionPairs, f) == [Pdf]
  {
    BaseOutputsSplit(f);
    DocumentToPdfOutputs(f);
    ImageToImageNone(f);
    PdfToImageNone(f);
    ImageToPdfNone(f);
  }

  lemma XlsxBaseOutputs(f: Format)
    requires f.Xlsx?
    ensures OutputsFor(BaseConversionPairs, f) == [Pdf]
  {
    BaseOutputsSplit(f);
    DocumentToPdfOutputs(f);
    ImageToImageNone(f);
    PdfToImageNone(f);
    ImageToPdfNone(f);
  }

  lemma PptxBaseOutputs(f: Format)
    requires f.Pptx?
    ensures OutputsFor(BaseConversionPairs, f) == [Pdf]
  {
    BaseOutputsSplit(f);
    DocumentToPdfOutputs(f);
    ImageToImageNone(f);
    PdfToImageNone(f);
    ImageToPdfNone(f);
  }

  lemma TxtBaseOutputs(f: Format)
    requires f.Txt?
    ensures OutputsFor(BaseConversionPairs, f) == [Pdf]
  {
    BaseOutputsSplit(f);
    DocumentToPdfOutputs(f);
    ImageToImageNone(f);
    PdfToImageNone(f);
    ImageToPdfNone(f);
  }

  lemma PdfBaseOutputs(f: Format)
    requires f.Pdf?
    ensures OutputsFor(BaseConversionPairs, f) == [Png, Jpeg]
  {
    BaseOutputsSplit(f);
    DocumentToPdfNone(f);
    ImageToImageNone(f);
    PdfToImageOutputs(f);
    ImageToPdfNone(f);
  }

  lemma JpegBaseOutputs(f: Format)
    requires f.Jpeg?
    ensures OutputsFor(BaseConversionPairs, f) == [Png, Webp, Pdf]
  {
    BaseOutputsSplit(f);
    DocumentToPdfNone(f);
    ImageToImageOutputsOfJpeg();
    PdfToImageNone(f);
    ImageToPdfOutputs(f);
  }

  lemma JpgBaseOutputs(f: Format)
    requires f.Jpg?
    ensures OutputsFor(BaseConversionPairs, f) == [Png, Webp, Pdf]
  {
    BaseOutputsSplit(f);
    DocumentToPdfNone(f);
    ImageToImageOutputsOfJpg();
    PdfToImageNone(f);
    ImageToPdfOutputs(f);
  }

  lemma PngBaseOutputs(f: Format)
    requires f.Png?
    ensures OutputsFor(BaseConversionPairs, f) == [Jpeg, Webp, Tiff, Pdf]
  {
    BaseOutputsSplit(f);
    DocumentToPdfNone(f);
    ImageToImageOutputsOfPng();
    PdfToImageNone(f);
    ImageToPdfOutputs(f);
  }

  lemma WebpBaseOutputs(f: Format)
    requires f.Webp?
    ensures OutputsFor(BaseConversionPairs, f) == [Jpeg, Png, Pdf]
  {
    BaseOutputsSplit(f);
    DocumentToPdfNone(f);
    ImageToImageOutputsOfWebp();
    PdfToImageNone(f);
    ImageToPdfOutputs(f);
  }

  lemma TiffBaseOutputs(f: Format)
    requires f.Tiff?
    ensures OutputsFor(BaseConversionPairs, f) == [Png, Pdf]
  {
    BaseOutputsSplit(f);
    DocumentToPdfNone(f);
    ImageToImageOutputsOfTiff();
    PdfToImageNone(f);
    ImageToPdfOutputs(f);
  }

  lemma GifBaseOutputs(f: Format)
    requires f.Gif?
    ensures OutputsFor(BaseConversionPairs, f) == [Png, Jpeg, Pdf]
  {
    BaseOutputsSplit(f);
    DocumentToPdfNone(f);
    ImageToImageOutputsOfGif();
    PdfToImageNone(f);
    ImageToPdfOutputs(f);
  }

  lemma BmpBaseOutputs(f: Format)
    requires f.Bmp?
    ensures OutputsFor(BaseConversionPairs, f) == [Png, Jpeg, Pdf]
  {
    BaseOutputsSplit(f);
    DocumentToPdfNone(f);
    ImageToImageOutputsOfBmp();
    PdfToImageNone(f);
    ImageToPdfOutputs(f);
  }

  lemma VideoBaseOutputs(f: Format)
    requires !IsDocument(f) && !IsImage(f) && !f.Pdf?
    ensures OutputsFor(BaseConversionPairs, f) == []
  {
    BaseOutputsSplit(f);
    DocumentToPdfNone(f);
    ImageToImageNone(f);
    PdfToImageNone(f);
    ImageToPdfNone(f);
  }

  lemma DocumentTargetsFromBase(f: Format)
    requires IsDocument(f)
    ensures OutputsFor(BaseConversionPairs, f) == TargetsOf(f)
  {
    match f
    case Docx => DocxBaseOutputs(f);
    case Xlsx => XlsxBaseOutputs(f);
    case Pptx => PptxBaseOutputs(f);
    case Txt => TxtBaseOutputs(f);
  }

  lemma ImageTargetsFromBase(f: Format)
    requires IsImage(f)
    ensures OutputsFor(BaseConversionPairs, f) == TargetsOf(f)
  {
    match f
    case Jpeg => JpegBaseOutputs(f);
    case Jpg => JpgBaseOutputs(f);
    case Png => PngBaseOutputs(f);
    case Webp => WebpBaseOutputs(f);
    case Tiff => TiffBaseOutputs(f);
    case Gif => GifBaseOutputs(f);
    case Bmp => BmpBaseOutputs(f);
  }

  /** Reading the base pairs by input gives the targets, once a video input's generated
      outputs are appended. */
  lemma TargetsFromBase(f: Format)
    ensures OutputsFor(BaseConversionPairs, f) + (if IsVideo(f) then Without(VideoFormats, f) else []) == TargetsOf(f)
  {
    if IsDocument(f) {
      DocumentTargetsFromBase(f);
    } else if IsImage(f) {
      ImageTargetsFromBase(f);
    } else if f.Pdf? {
      PdfBaseOutputs(f);
    } else {
      VideoBaseOutputs(f);
    }
  }

  /** The outputs the table lists for each input, in table order. */
  lemma OutputsInTableOrder(f: Format)
    ensures OutputsFor(ConversionPairs, f) == TargetsOf(f)
  {
    OutputsSplit(f);
    TargetsFromBase(f);
  }

  lemma {:induction false} WithoutLength(outputs: seq<Format>, x: Format)
    requires NoDup(outputs) && x in outputs
    ensures |Without(outputs, x)| == |outputs| - 1
  {
    NoDupTail(outputs);
    if outputs[0] != x {
      WithoutLength(outputs[1..], x);
    } else {
      WithoutMembership(outputs[1..], x, x);
      WithoutIdentity(outputs[1..], x);
    }
  }

  lemma {:induction false} WithoutIdentity(outputs: seq<Format>, x: Format)
    requires x !in outputs
    ensures Without(outputs, x) == outputs
  {
    if outputs != [] {
      WithoutIdentity(outputs[1..], x);
      assert outputs == [outputs[0]] + outputs[1..];
    }
  }

  /** A video format's targets are the four other video formats. */
  lemma VideoTargets(f: Format)
    requires IsVideo(f)
    ensures forall o :: o in TargetsOf(f) <==> o in VideoFormats && o != f
    ensures |TargetsOf(f)| == 4
  {
    VideoTargetsWithout(f);
    forall o ensures o in Without(VideoFormats, f) <==> o in VideoFormats && o != f {
      WithoutMembership(VideoFormats, f, o);
    }
    VideoFormatsDistinct();
    VideoMembership(f);
    WithoutLength(VideoFormats, f);
  }

  lemma VideoTargetsWithout(f: Format)
    requires IsVideo(f)
    ensures TargetsOf(f) == Without(VideoFormats, f)
  {
  }

  // ---------------------------------------------------------------------------
  // Pair legality and available targets, on extension strings

  /** CONVERSION_PAIRS.some(pair => pair.input === a && pair.output === b) on the names. */
  function AnyPairMatches(pairs: seq<ConversionPair>, a: string, b: string): (r: bool)
    ensures r <==> exists p :: p in pairs && FormatName(p.input) == a && FormatName(p.output) == b
  {
    if pairs == [] then false
    else
      assert pairs == [pairs[0]] + pairs[1..];
      (FormatName(pairs[0].input) == a && FormatName(pairs[0].output) == b) || AnyPairMatches(pairs[1..], a, b)
  }

  function IsValidConversion(inputExt: string, outputExt: string): bool {
    AnyPairMatches(ConversionPairs, Lower(inputExt), Lower(outputExt))
  }

  /** A conversion is legal iff both lower-cased extensions name formats whose pair is in
      the table. */
  lemma IsValidConversionIff(a: string, b: string)
    ensures IsValidConversion(a, b) <==>
      ParseFormat(Lower(a)).Some? && ParseFormat(Lower(b)).Some? &&
      ConversionPair(ParseFormat(Lower(a)).value, ParseFormat(Lower(b)).value) in ConversionPairs
  {
    if IsValidConversion(a, b) {
      var p :| p in ConversionPairs && FormatName(p.input) == Lower(a) && FormatName(p.output) == Lower(b);
      ParseFormatName(p.input);
      ParseFormatName(p.output);
    }
  }

  lemma IsValidConversionCaseInsensitive(a: string, b: string)
    ensures IsValidConversion(a, b) == IsValidConversion(Lower(a), Lower(b))
  {
    LowerIsLowerCase(a);
    LowerIsLowerCase(b);
  }

  /** mp4 to mp4, or any format to itself, is illegal. */
  lemma NeverValidToItself(a: string)
    ensures !IsValidConversion(a, a)
  {
    NoSelfPairs();
    IsValidConversionIff(a, a);
  }

  lemma UnknownFormatNeverValid(a: string, b: string)
    requires ParseFormat(Lower(a)).None? || ParseFormat(Lower(b)).None?
    ensures !IsValidConversion(a, b)
  {
    IsValidConversionIff(a, b);
  }

  /** getAvailableOutputFormats: the outputs of the pairs whose input is the lower-cased
      extension (names are distinct, so comparing formats is comparing names). */
  function AvailableOutputFormats(inputExt: string): seq<string> {
    match ParseFormat(Lower(inputExt))
    case None => []
    case Some(f) => Names(OutputsFor(ConversionPairs, f))
  }

  /** The available targets are exactly the legal ones (up to case of the target). */
  lemma AvailableIffValid(x: string, o: string)
    ensures Lower(o) in AvailableOutputFormats(x) <==> IsValidConversion(x, o)
  {
    IsValidConversionIff(x, o);
    LowerIsLowerCase(o);
    LowerOfLowerCase(Lower(o));
    match ParseFormat(Lower(x))
    case None =>
    case Some(f) =>
      var outs := OutputsFor(ConversionPairs, f);
      if Lower(o) in Names(outs) {
        var i :| 0 <= i < |outs| && FormatName(outs[i]) == Lower(o);
        ParseFormatName(outs[i]);
        OutputsForMembership(ConversionPairs, f, outs[i]);
      }
      if IsValidConversion(x, o) {
        var g := ParseFormat(Lower(o)).value;
        OutputsForMembership(ConversionPairs, f, g);
        var i :| 0 <= i < |outs| && outs[i] == g;
        assert Names(outs)[i] == Lower(o);
      }
  }

  /** Available targets of an extension, in table order; docx gives exactly pdf. */
  lemma AvailableInTableOrder(x: string)
    ensures AvailableOutputFormats(x) ==
      if ParseFormat(Lower(x)).Some? then Names(TargetsOf(ParseFormat(Lower(x)).value)) else []
  {
    if ParseFormat(Lower(x)).Some? {
      OutputsInTableOrder(ParseFormat(Lower(x)).value);
    }
  }

  /** docx, in any letter case, can only become pdf. */
  lemma AvailableForDocx(x: string)
    requires Lower(x) == FormatName(Docx)
    ensures AvailableOutputFormats(x) == [FormatName(Pdf)]
  {
    DocxAvailable(x);
    NamesSingleton(Pdf);
  }

  lemma DocxAvailable(x: string)
    requires Lower(x) == FormatName(Docx)
    ensures AvailableOutputFormats(x) == Names([Pdf])
  {
    ParseFormatName(Docx);
    AvailableInTableOrder(x);
  }

  lemma NamesSingleton(f: Format)
    ensures Names([f]) == [FormatName(f)]
  {
    var r := Names([f]);
    assert |r| == 1 && r[0] == FormatName(f);
  }

  /** Only the lower-cased extension matters. */
  lemma AvailableCaseInsensitive(x: string)
    ensures AvailableOutputFormats(x) == AvailableOutputFormats(Lower(x))
  {
    LowerIsLowerCase(x);
    LowerOfLowerCase(Lower(x));
  }

  /** An unknown extension has no targets. */
  lemma AvailableForUnknown(x: string)
    requires ParseFormat(Lower(x)).None?
    ensures AvailableOutputFormats(x) == []
  {
  }

  // ---------------------------------------------------------------------------
  // Extensions and MIME types

  /** getFileExtension: the lower-cased text after the last '.', or "" when there is no dot
      or the dot is the last character. */
  function GetFileExtension(filename: string): string {
    var n := Lower(filename);
    var k := LastIndexOf(n, '.');
    if k == -1 || k == |n| - 1 then "" else n[k + 1..]
  }

  lemma GetFileExtensionSpec(filename: string)
    ensures var n := Lower(filename); var ext := GetFileExtension(filename);
      && (ext == "" <==> '.' !in n || n[|n| - 1] == '.')
      && (ext != "" ==> '.' !in ext && |ext| < |n| && n == n[..|n| - |ext| - 1] + "." + ext)
  {
    var n := Lower(filename);
    var k := LastIndexOf(n, '.');
    if k != -1 && k != |n| - 1 {
      assert n == n[..k] + "." + n[k + 1..];
    }
  }

  lemma ExtensionIsLowerCase(filename: string)
    ensures HasNoUpper(GetFileExtension(filename))
  {
    var n := Lower(filename);
    LowerIsLowerCase(filename);
    var ext := GetFileExtension(filename);
    if ext != "" {
      assert ext == n[|n| - |ext|..];
    }
  }

  const OctetStream: string := "application/octet-stream"

  /** The MIME type each extension maps to in getMimeType. */
  function MimeOf(f: Format): (r: string)
    ensures r != OctetStream
  {
    match f
    case Docx => "application/vnd.openxmlformats-officedocument.wordprocessingml.document"
    case Xlsx => "application/vnd.openxmlformats-officedocument.spreadsheetml.sheet"
    case Pptx => "application/vnd.openxmlformats-officedocument.presentationml.presentation"
    case Txt => "text/plain"
    case Pdf => "application/pdf"
    case Jpeg => "image/jpeg" case Jpg => "image/jpeg"
    case Png => "image/png" case Webp => "image/webp" case Tiff => "image/tiff"
    case Gif => "image/gif" case Bmp => "image/bmp"
    case Mp4 => "video/mp4" case Mov => "video/quicktime" case Avi => "video/x-msvideo"
    case Mkv => "video/x-matroska" case Webm => "video/webm"
  }

  /** getMimeType: the MIME type of the file's extension, or application/octet-stream. */
  function GetMimeType(filename: string): string {
    match ParseFormat(GetFileExtension(filename))
    case Some(f) => MimeOf(f)
    case None => OctetStream
  }

  /** A file has a specific MIME type exactly when its extension is supported. */
  lemma MimeTypeKnownIffSupported(filename: string)
    ensures GetMimeType(filename) != OctetStream <==>
      GetFileExtension(filename) in Names(AllSupportedFormats)
  {
    SupportedExtensionIff(GetFileExtension(filename));
  }

  // ---------------------------------------------------------------------------
  // File type and size

  datatype FileTypeResult = FileTypeResult(valid: bool, extension: string, error: Option<string>)

  const NoExtensionError: string := "File must have an extension"

  function MimeMismatchError(expected: string, got: string): string {
    "MIME type mismatch. Expected " + expected + ", got " + got
  }

  function UnsupportedError(extension: string): string {
    "Unsupported file type: " + extension
  }

  /** validateFileType: missing extension, then MIME mismatch, then unsupported extension. */
  function ValidateFileType(filename: string, mimeType: string): (r: FileTypeResult)
    ensures r.valid <==> r.error.None?
    ensures r.valid ==> r.extension == GetFileExtension(filename)
  {
    var extension := GetFileExtension(filename);
    var expectedMimeType := GetMimeType(filename);
    if extension == "" then
      FileTypeResult(false, "", Some(NoExtensionError))
    else if mimeType != expectedMimeType then
      FileTypeResult(false, extension, Some(MimeMismatchError(expectedMimeType, mimeType)))
    else if !IsSupportedExtension(extension) then
      FileTypeResult(false, extension, Some(UnsupportedError(extension)))
    else
      FileTypeResult(true, extension, None)
  }

  /** A file is valid iff its extension names a supported format and the declared MIME type
      is that format's; valid files' extensions lie in one of the four families. */
  lemma FileTypeValidIff(filename: string, mimeType: string)
    ensures var r := ValidateFileType(filename, mimeType);
      && (r.valid <==> ParseFormat(GetFileExtension(filename)).Some? && mimeType == GetMimeType(filename))
      && (r.valid ==> var f := ParseFormat(r.extension).value;
            f in DocumentFormats || f in ImageFormats || f in PdfFormats || f in VideoFormats)
  {
    var r := ValidateFileType(filename, mimeType);
    if r.valid {
      EveryFormatSupported(ParseFormat(r.extension).value);
    }
  }

  /** The checks run in order: the first failing one decides the error. */
  lemma FileTypeCheckOrder(filename: string, mimeType: string)
    ensures var r := ValidateFileType(filename, mimeType);
      && (GetFileExtension(filename) == "" ==> r == FileTypeResult(false, "", Some(NoExtensionError)))
      && (GetFileExtension(filename) != "" && mimeType != GetMimeType(filename) ==>
            r == FileTypeResult(false, GetFileExtension(filename), Some(MimeMismatchError(GetMimeType(filename), mimeType))))
      && (GetFileExtension(filename) != "" && mimeType == GetMimeType(filename) && !IsSupportedExtension(GetFileExtension(filename)) ==>
            r == FileTypeResult(false, GetFileExtension(filename), Some(UnsupportedError(GetFileExtension(filename)))))
  {
  }

  /** An unsupported extension is always rejected, and "Unsupported file type" is reported
      exactly when the declared type is application/octet-stream: any other declared type
      trips the MIME check first. */
  lemma UnsupportedExtensionRejected(filename: string, mimeType: string)
    requires GetFileExtension(filename) != "" && ParseFormat(GetFileExtension(filename)).None?
    ensures var r := ValidateFileType(filename, mimeType);
      && !r.valid
      && (r.error == Some(UnsupportedError(GetFileExtension(filename))) <==> mimeType == OctetStream)
  {
    SupportedExtensionIff(GetFileExtension(filename));
    var r := ValidateFileType(filename, mimeType);
    if mimeType != OctetStream {
      assert r.error.value[0] == 'M';
    }
  }

  datatype SizeCheck = SizeOk | SizeTooLarge(size: int, maxSizeMB: int)

  /** validateFileSize: a file is too large when it exceeds maxSizeMB mebibytes. */
  function ValidateFileSize(size: int, maxSizeMB: int): (r: SizeCheck)
    ensures r.SizeTooLarge? ==> r == SizeTooLarge(size, maxSizeMB)
  {
    var maxSizeBytes := maxSizeMB * 1024 * 1024;
    if size > maxSizeBytes then SizeTooLarge(size, maxSizeMB) else SizeOk
  }

  /** The limit is inclusive and monotone: exactly maxSizeMB MiB passes, one byte more fails,
      and a smaller file than an accepted one is accepted. */
  lemma FileSizeLimit(size: int, smaller: int, maxSizeMB: int)
    requires smaller <= size
    ensures ValidateFileSize(maxSizeMB * 1048576, maxSizeMB).SizeOk?
    ensures ValidateFileSize(maxSizeMB * 1048576 + 1, maxSizeMB).SizeTooLarge?
    ensures ValidateFileSize(size, maxSizeMB).SizeOk? ==> ValidateFileSize(smaller, maxSizeMB).SizeOk?
  {
  }

  // ---------------------------------------------------------------------------
  // Filename sanitisation

  predicate SafeChar(c: char) {
    'a' <= c <= 'z' || 'A' <= c <= 'Z' || '0' <= c <= '9' || c == '.' || c == '-'
  }

  /** replace(/[^a-zA-Z0-9.-]/g, '_') */
  function ReplaceUnsafe(s: string): (r: string)
    ensures |r| == |s|
    ensures forall i :: 0 <= i < |s| ==> r[i] == if SafeChar(s[i]) then s[i] else '_'
  {
    seq(|s|, i requires 0 <= i < |s| => if SafeChar(s[i]) then s[i] else '_')
  }

  /** What the replacement means for the name: only safe characters and '_' remain, exactly
      the characters that were neither safe nor '_' change, a name that is already clean is
      left alone, and replacing twice is replacing once. */
  lemma ReplaceUnsafeSpec(s: string)
    ensures |ReplaceUnsafe(s)| == |s| && SafeOrUnderscore(ReplaceUnsafe(s))
    ensures forall i :: 0 <= i < |s| ==> (ReplaceUnsafe(s)[i] == s[i] <==> SafeChar(s[i]) || s[i] == '_')
    ensures SafeOrUnderscore(s) ==> ReplaceUnsafe(s) == s
    ensures ReplaceUnsafe(ReplaceUnsafe(s)) == ReplaceUnsafe(s)
  {
  }

  /** replace(/_{2,}/g, '_'): every run of underscores becomes one. */
  function CollapseUnderscores(s: string): string {
    if |s| <= 1 then s
    else if s[0] == '_' && s[1] == '_' then CollapseUnderscores(s[1..])
    else [s[0]] + CollapseUnderscores(s[1..])
  }

  /** replace(/^_|_$/g, ''): one leading and one trailing underscore go. */
  function TrimUnderscores(s: string): string {
    var t := if |s| > 0 && s[0] == '_' then s[1..] else s;
    if |t| > 0 && t[|t| - 1] == '_' then t[..|t| - 1] else t
  }

  function SanitizeFilename(filename: string): string {
    TrimUnderscores(CollapseUnderscores(ReplaceUnsafe(filename)))
  }

  predicate SafeOrUnderscore(s: string) {
    forall i :: 0 <= i < |s| ==> SafeChar(s[i]) || s[i] == '_'
  }

  predicate NoDoubleUnderscore(s: string) {
    forall i :: 0 <= i < |s| - 1 ==> !(s[i] == '_' && s[i + 1] == '_')
  }

  predicate NoEdgeUnderscore(s: string) {
    s == [] || (s[0] != '_' && s[|s| - 1] != '_')
  }

  lemma {:induction false} CollapseShape(s: string)
    ensures s != [] ==> CollapseUnderscores(s) != [] && CollapseUnderscores(s)[0] == s[0]
    ensures forall c :: c in CollapseUnderscores(s) ==> c in s
    ensures NoDoubleUnderscore(CollapseUnderscores(s))
  {
    if |s| > 1 {
      CollapseShape(s[1..]);
      assert s == [s[0]] + s[1..];
      var t := CollapseUnderscores(s[1..]);
      if !(s[0] == '_' && s[1] == '_') {
        var r := [s[0]] + t;
        forall i | 0 <= i < |r| - 1 ensures !(r[i] == '_' && r[i + 1] == '_') {
          if i > 0 { assert r[i] == t[i - 1] && r[i + 1] == t[i]; }
        }
      }
    }
  }

  lemma {:induction false} CollapseIdentity(s: string)
    requires NoDoubleUnderscore(s)
    ensures CollapseUnderscores(s) == s
  {
    if |s| > 1 {
      assert NoDoubleUnderscore(s[1..]) by {
        forall i | 0 <= i < |s[1..]| - 1 ensures !(s[1..][i] == '_' && s[1..][i + 1] == '_') {
          assert s[1..][i] == s[i + 1] && s[1..][i + 1] == s[i + 2];
        }
      }
      CollapseIdentity(s[1..]);
      assert s == [s[0]] + s[1..];
    }
  }

  lemma TrimShape(s: string)
    requires NoDoubleUnderscore(s)
    ensures NoDoubleUnderscore(TrimUnderscores(s))
    ensures NoEdgeUnderscore(TrimUnderscores(s))
    ensures forall c :: c in TrimUnderscores(s) ==> c in s
  {
    var t := if |s| > 0 && s[0] == '_' then s[1..] else s;
    assert |t| > 0 ==> t[0] != '_' by {
      if |t| > 0 && |s| > 0 && s[0] == '_' { assert t[0] == s[1]; }
    }
    assert NoDoubleUnderscore(t) by {
      forall i | 0 <= i < |t| - 1 ensures !(t[i] == '_' && t[i + 1] == '_') {
        if |s| > 0 && s[0] == '_' { assert t[i] == s[i + 1] && t[i + 1] == s[i + 2]; }
      }
    }
    if |t| > 1 && t[|t| - 1] == '_' {
      assert t[|t| - 2] != '_';
    }
  }

  /** Output alphabet [A-Za-z0-9._-], no "__", no underscore at either end. */
  lemma SanitizeShape(filename: string)
    ensures var r := SanitizeFilename(filename);
      SafeOrUnderscore(r) && NoDoubleUnderscore(r) && NoEdgeUnderscore(r)
  {
    var a := ReplaceUnsafe(filename);
    var b := CollapseUnderscores(a);
    CollapseShape(a);
    TrimShape(b);
    var r := TrimUnderscores(b);
    forall i | 0 <= i < |r| ensures SafeChar(r[i]) || r[i] == '_' {
      assert r[i] in b;
      assert r[i] in a;
    }
  }

  /** Sanitising twice is sanitising once. */
  lemma SanitizeIdempotent(filename: string)
    ensures SanitizeFilename(SanitizeFilename(filename)) == SanitizeFilename(filename)
  {
    var r := SanitizeFilename(filename);
    SanitizeShape(filename);
    assert ReplaceUnsafe(r) == r;
    CollapseIdentity(r);
  }

  // ---------------------------------------------------------------------------
  // Whole-request validation

  /** One uploaded file as the upload middleware presents it (content bytes not modelled). */
  datatype UploadedFile = UploadedFile(originalName: string, mimeType: string, size: int)

  /** The error validateConversionRequest records for one file, if any: the type error, or
      else the illegal-conversion error listing the available targets. */
  function FileError(file: UploadedFile, targetFormat: string): Option<string> {
    var v := ValidateFileType(file.originalName, file.mimeType);
    if !v.valid then Some(file.originalName + ": " + v.error.value)
    else if !IsValidConversion(v.extension, targetFormat) then
      Some(file.originalName + ": Cannot convert " + v.extension + " to " + targetFormat +
           ". Available formats: " + JoinWith(AvailableOutputFormats(v.extension), ", "))
    else None
  }

  function ErrorsOf(e: Option<string>): seq<string> {
    if e.Some? then [e.value] else []
  }

  /** The recorded errors of a sequence of per-file outcomes, in order. */
  function Flatten(rs: seq<Option<string>>): seq<string> {
    if rs == [] then [] else Flatten(rs[..|rs| - 1]) + ErrorsOf(rs[|rs| - 1])
  }

  lemma FlattenSnoc(rs: seq<Option<string>>, i: nat)
    requires i < |rs|
    ensures Flatten(rs[..i + 1]) == Flatten(rs[..i]) + ErrorsOf(rs[i])
  {
    assert rs[..i + 1][..i] == rs[..i];
  }

  lemma {:induction false} FlattenSpec(rs: seq<Option<string>>)
    ensures |Flatten(rs)| <= |rs|
    ensures Flatten(rs) == [] <==> forall i :: 0 <= i < |rs| ==> rs[i].None?
  {
    if rs != [] {
      var init := rs[..|rs| - 1];
      FlattenSpec(init);
      assert forall i :: 0 <= i < |init| ==> init[i] == rs[i];
    }
  }

  function FileOutcomes(files: seq<UploadedFile>, targetFormat: string): (r: seq<Option<string>>)
    ensures |r| == |files| && forall i :: 0 <= i < |files| ==> r[i] == FileError(files[i], targetFormat)
  {
    seq(|files|, i requires 0 <= i < |files| => FileError(files[i], targetFormat))
  }

  function RequestErrors(files: seq<UploadedFile>, targetFormat: string): seq<string> {
    if |files| == 0 then [NoFilesError]
    else if targetFormat == "" then [NoTargetError]
    else Flatten(FileOutcomes(files, targetFormat))
  }

  predicate FileAcceptable(file: UploadedFile, targetFormat: string) {
    var v := ValidateFileType(file.originalName, file.mimeType);
    v.valid && IsValidConversion(v.extension, targetFormat)
  }

  /** Every file of the request passes its checks. */
  predicate AllAcceptable(files: seq<UploadedFile>, targetFormat: string) {
    forall i :: 0 <= i < |files| ==> FileAcceptable(files[i], targetFormat)
  }

  lemma FileErrorIff(file: UploadedFile, targetFormat: string)
    ensures FileError(file, targetFormat).None? <==> FileAcceptable(file, targetFormat)
  {
  }

  lemma FileErrorsSpec(files: seq<UploadedFile>, targetFormat: string)
    ensures |Flatten(FileOutcomes(files, targetFormat))| <= |files|
    ensures Flatten(FileOutcomes(files, targetFormat)) == [] <==>
      forall i :: 0 <= i < |files| ==> FileAcceptable(files[i], targetFormat)
  {
    FlattenSpec(FileOutcomes(files, targetFormat));
    forall i | 0 <= i < |files| {
      FileErrorIff(files[i], targetFormat);
    }
  }

  const NoFilesError: string := "No files provided"
  const NoTargetError: string := "Target format is required"

  /** A request is valid iff it has files, a target, and every file has a valid type and a
      legal conversion; otherwise there is at most one error per file. */
  lemma RequestErrorsSpec(files: seq<UploadedFile>, targetFormat: string)
    ensures |files| == 0 ==> RequestErrors(files, targetFormat) == [NoFilesError]
    ensures |files| > 0 && targetFormat == "" ==> RequestErrors(files, targetFormat) == [NoTargetError]
    ensures |files| > 0 && targetFormat != "" ==> |RequestErrors(files, targetFormat)| <= |files|
    ensures RequestErrors(files, targetFormat) == [] <==>
      |files| > 0 && targetFormat != "" && AllAcceptable(files, targetFormat)
  {
    if |files| > 0 && targetFormat != "" {
      FileErrorsSpec(files, targetFormat);
    }
  }

  /** validateConversionRequest: collects the request-level error, or the per-file errors in
      file order; valid iff nothing was collected. */
  method ValidateConversionRequest(files: seq<UploadedFile>, targetFormat: string)
    returns (valid: bool, errors: seq<string>)
    ensures errors == RequestErrors(files, targetFormat)
    ensures valid <==> errors == []
  {
    errors := [];
    if |files| == 0 {
      errors := errors + [NoFilesError];
      return false, errors;
    }
    if targetFormat == "" {
      errors := errors + [NoTargetError];
      return false, errors;
    }
    ghost var outcomes := FileOutcomes(files, targetFormat);
    var i := 0;
    while i < |files|
      invariant 0 <= i <= |files|
      invariant errors == Flatten(outcomes[..i])
    {
      var error := FileError(files[i], targetFormat);
      FlattenSnoc(outcomes, i);
      errors := errors + ErrorsOf(error);
      i := i + 1;
    }
    assert outcomes[..i] == outcomes;
    valid := |errors| == 0;
  }
}
