/** The upload page of the frontend (frontend/src/components/FileConverter.tsx): its own copy of
    the format table, the formats offered for a selection, and the handlers that update the
    page's state. */
module FileConverter {
  import opened Common
  import opened Text
  import Validate

  // ---------------------------------------------------------------------------
  // The page's format table

  /** `videoFormats` of getAvailableFormats. */
  const VideoFormatNames: seq<string> := ["mp4", "mov", "avi", "mkv", "webm"]

  /** `formatMap` of getAvailableFormats: every non-video input and its targets. */
  const FormatMap: map<string, seq<string>> := map[
    "docx" := ["pdf"],
    "xlsx" := ["pdf"],
    "pptx" := ["pdf"],
    "txt" := ["pdf"],
    "pdf" := ["png", "jpeg"],
    "jpeg" := ["png", "webp", "pdf"],
    "jpg" := ["png", "webp", "pdf"],
    "png" := ["jpeg", "webp", "tiff", "pdf"],
    "webp" := ["jpeg", "png", "pdf"],
    "tiff" := ["png", "pdf"],
    "gif" := ["png", "jpeg", "pdf"],
    "bmp" := ["png", "jpeg", "pdf"]
  ]

  /** `xs.filter(x => x !== v)`. */
  function Remove(xs: seq<string>, v: string): (r: seq<string>)
    ensures |r| <= |xs|
    ensures forall y :: y in r <==> y in xs && y != v
  {
    if xs == [] then [] else (if xs[0] != v then [xs[0]] else []) + Remove(xs[1..], v)
  }

  /** getAvailableFormats: a video input offers the other video formats, any other input
      what the map lists for it, and an input the map does not list nothing. */
  function GetAvailableFormats(inputFormat: string): seq<string> {
    if inputFormat in VideoFormatNames then Remove(VideoFormatNames, inputFormat)
    else if inputFormat in FormatMap then FormatMap[inputFormat]
    else []
  }

  // ---------------------------------------------------------------------------
  // Agreement with the backend's table

  lemma {:induction false} NamesRemove(fs: seq<Validate.Format>, x: Validate.Format)
    ensures Validate.Names(Validate.Without(fs, x)) == Remove(Validate.Names(fs), Validate.FormatName(x))
  {
    if fs != [] {
      var w := Validate.Without(fs[1..], x);
      NamesRemove(fs[1..], x);
      NamesSplit(fs);
      Validate.FormatNameInjective(fs[0], x);
      if fs[0] != x {
        NamesPrepend(fs[0], w);
      }
    }
  }

  lemma NamesSplit(fs: seq<Validate.Format>)
    requires fs != []
    ensures Validate.Names(fs) == [Validate.FormatName(fs[0])] + Validate.Names(fs[1..])
  {
  }

  lemma NamesPrepend(f: Validate.Format, w: seq<Validate.Format>)
    ensures Validate.Names([f] + w) == [Validate.FormatName(f)] + Validate.Names(w)
  {
  }

  lemma VideoNames()
    ensures Validate.Names(Validate.VideoFormats) == VideoFormatNames
  {
  }

  lemma DocumentTargetsMatch(f: Validate.Format)
    requires Validate.IsDocument(f)
    ensures GetAvailableFormats(Validate.FormatName(f)) == Validate.Names(Validate.TargetsOf(f))
  {
    assert Validate.Names([Validate.Pdf]) == ["pdf"];
    DocumentEntry(Validate.FormatName(f));
  }

  /** The four document inputs are no video names and map to [pdf]. */
  lemma DocumentEntry(name: string)
    requires name == "docx" || name == "xlsx" || name == "pptx" || name == "txt"
    ensures GetAvailableFormats(name) == ["pdf"]
  {
    DocumentNotVideo(name);
  }

  lemma DocumentNotVideo(name: string)
    requires name == "docx" || name == "xlsx" || name == "pptx" || name == "txt"
    ensures name !in VideoFormatNames
  {
  }

  lemma PdfTargetsMatch()
    ensures GetAvailableFormats("pdf") == Validate.Names(Validate.TargetsOf(Validate.Pdf))
  {
    assert Validate.Names([Validate.Png, Validate.Jpeg]) == ["png", "jpeg"];
  }

  lemma JpegTargetsMatch(f: Validate.Format)
    requires f == Validate.Jpeg || f == Validate.Jpg
    ensures GetAvailableFormats(Validate.FormatName(f)) == Validate.Names(Validate.TargetsOf(f))
  {
    assert Validate.Names([Validate.Png, Validate.Webp, Validate.Pdf]) == ["png", "webp", "pdf"];
  }

  lemma PngTargetsMatch()
    ensures GetAvailableFormats("png") == Validate.Names(Validate.TargetsOf(Validate.Png))
  {
    assert Validate.Names([Validate.Jpeg, Validate.Webp, Validate.Tiff, Validate.Pdf]) == ["jpeg", "webp", "tiff", "pdf"];
  }

  lemma WebpTargetsMatch()
    ensures GetAvailableFormats("webp") == Validate.Names(Validate.TargetsOf(Validate.Webp))
  {
    assert Validate.Names([Validate.Jpeg, Validate.Png, Validate.Pdf]) == ["jpeg", "png", "pdf"];
  }

  lemma TiffTargetsMatch()
    ensures GetAvailableFormats("tiff") == Validate.Names(Validate.TargetsOf(Validate.Tiff))
  {
    assert Validate.Names([Validate.Png, Validate.Pdf]) == ["png", "pdf"];
  }

  lemma GifTargetsMatch(f: Validate.Format)
    requires f == Validate.Gif || f == Validate.Bmp
    ensures GetAvailableFormats(Validate.FormatName(f)) == Validate.Names(Validate.TargetsOf(f))
  {
    assert Validate.Names([Validate.Png, Validate.Jpeg, Validate.Pdf]) == ["png", "jpeg", "pdf"];
  }

  lemma VideoTargetsMatch(f: Validate.Format)
    requires Validate.IsVideo(f)
    ensures GetAvailableFormats(Validate.FormatName(f)) == Validate.Names(Validate.TargetsOf(f))
  {
    NamesRemove(Validate.VideoFormats, f);
    VideoNames();
  }

  /** The page's list for a known format is the backend's, in the same order. */
  lemma {:induction false} TargetsMatch(f: Validate.Format)
    ensures GetAvailableFormats(Validate.FormatName(f)) == Validate.Names(Validate.TargetsOf(f))
  {
    if Validate.IsDocument(f) {
      DocumentTargetsMatch(f);
    } else if Validate.IsVideo(f) {
      VideoTargetsMatch(f);
    } else {
      match f
      case Pdf => PdfTargetsMatch();
      case Jpeg => JpegTargetsMatch(f);
      case Jpg => JpegTargetsMatch(f);
      case Png => PngTargetsMatch();
      case Webp => WebpTargetsMatch();
      case Tiff => TiffTargetsMatch();
      case Gif => GifTargetsMatch(f);
      case Bmp => GifTargetsMatch(f);
    }
  }

  /** A string that names no format is neither a video format nor a key of the map. */
  lemma UnknownOffersNothing(x: string)
    requires Validate.ParseFormat(x).None?
    ensures GetAvailableFormats(x) == []
  {
    if x in VideoFormatNames {
      VideoNamesKnown(x);
    }
    if x in FormatMap {
      MapKeysKnown(x);
    }
  }

  lemma MapKeysKnown(x: string)
    requires x in FormatMap
    ensures Validate.ParseFormat(x).Some?
  {
  }

  lemma VideoNamesKnown(x: string)
    requires x in VideoFormatNames
    ensures Validate.ParseFormat(x).Some?
  {
  }

  /** For every lower-case extension the page offers exactly what the backend's
      getAvailableOutputFormats returns, in the same order. */
  lemma AgreesWithBackend(x: string)
    requires HasNoUpper(x)
    ensures GetAvailableFormats(x) == Validate.AvailableOutputFormats(x)
  {
    LowerOfLowerCase(x);
    Validate.AvailableInTableOrder(x);
    match Validate.ParseFormat(x)
    case None => UnknownOffersNothing(x);
    case Some(f) => TargetsMatch(f);
  }

  /** Hence every format the page offers for a lower-case extension is a conversion the
      backend accepts, and every conversion the backend accepts is offered. */
  lemma OfferedIffValid(x: string, o: string)
    requires HasNoUpper(x) && HasNoUpper(o)
    ensures o in GetAvailableFormats(x) <==> Validate.IsValidConversion(x, o)
  {
    AgreesWithBackend(x);
    Validate.AvailableIffValid(x, o);
    LowerOfLowerCase(o);
  }

  /** A video input offers the four other video formats, in table order, never itself. */
  lemma VideoOffersOthers(x: string)
    requires x in VideoFormatNames
    ensures GetAvailableFormats(x) == Remove(VideoFormatNames, x)
    ensures |GetAvailableFormats(x)| == 4 && x !in GetAvailableFormats(x)
    ensures forall y :: y in VideoFormatNames && y != x ==> y in GetAvailableFormats(x)
  {
    VideoNamesKnown(x);
    var f := Validate.ParseFormat(x).value;
    VideoNameIsVideo(x);
    VideoTargetsMatch(f);
    Validate.VideoTargets(f);
  }

  lemma VideoNameIsVideo(x: string)
    requires x in VideoFormatNames
    ensures Validate.ParseFormat(x).Some? && Validate.IsVideo(Validate.ParseFormat(x).value)
  {
  }

  /** No input is offered as a target for itself. */
  lemma NeverOffersItself(x: string)
    ensures x !in GetAvailableFormats(x)
  {
    if x !in VideoFormatNames && x in FormatMap {
      assert x in ["docx", "xlsx", "pptx", "txt", "pdf", "jpeg", "jpg", "png", "webp", "tiff", "gif", "bmp"];
    }
  }

  // ---------------------------------------------------------------------------
  // The formats offered for the selected files

  /** `name.split('.').pop()?.toLowerCase()`: the lower-cased text after the last '.', or
      the whole name when there is none (split always yields a last piece). */
  function SplitExtension(name: string): (r: string)
    ensures HasNoUpper(r) && '.' !in r
  {
    var piece := name[LastIndexOf(name, '.') + 1..];
    LowerIsLowerCase(piece);
    LowerKeepsDots(piece);
    Lower(piece)
  }

  lemma LowerKeepsDots(s: string)
    ensures forall i :: 0 <= i < |s| ==> (Lower(s)[i] == '.' <==> s[i] == '.')
    ensures '.' in s <==> '.' in Lower(s)
  {
    if '.' in Lower(s) {
      var i :| 0 <= i < |s| && Lower(s)[i] == '.';
      assert s[i] == '.';
    }
  }

  lemma LowerSlice(s: string, k: nat)
    requires k <= |s|
    ensures Lower(s[k..]) == Lower(s)[k..]
  {
  }

  /** Lower-casing moves no dot. */
  lemma LastDotOfLower(name: string)
    ensures LastIndexOf(Lower(name), '.') == LastIndexOf(name, '.')
  {
    var k := LastIndexOf(name, '.');
    LowerKeepsDots(name);
    if k >= 0 {
      LowerKeepsDots(name[k + 1..]);
      LowerSlice(name, k + 1);
      LastIndexOfAt(Lower(name), '.', k);
    }
  }

  /** For a name with a dot, the page reads the same extension as the backend's
      getFileExtension; for a name without one the page takes the whole name while the
      backend finds no extension (and rejects the file). */
  lemma ExtensionsAgree(name: string)
    ensures '.' in name ==> SplitExtension(name) == Validate.GetFileExtension(name)
    ensures '.' !in name ==> SplitExtension(name) == Lower(name) && Validate.GetFileExtension(name) == ""
  {
    var k := LastIndexOf(name, '.');
    LastDotOfLower(name);
    LowerSlice(name, k + 1);
  }

  /** The formats offered for one file: none when its extension is empty. */
  function FormatsFor(name: string): seq<string> {
    var ext := SplitExtension(name);
    if ext != "" then GetAvailableFormats(ext) else []
  }

  /** `acc.filter(format => formats.includes(format))`. */
  function KeepIn(acc: seq<string>, formats: seq<string>): (r: seq<string>)
    ensures |r| <= |acc|
    ensures forall y :: y in r <==> y in acc && y in formats
  {
    if acc == [] then [] else (if acc[0] in formats then [acc[0]] else []) + KeepIn(acc[1..], formats)
  }

  /** The reduce of getCommonFormats: each list in turn filters the accumulator. */
  function Intersect(acc: seq<string>, lists: seq<seq<string>>): seq<string>
    decreases |lists|
  {
    if lists == [] then acc else Intersect(KeepIn(acc, lists[0]), lists[1..])
  }

  predicate InAll(x: string, lists: seq<seq<string>>) {
    forall i :: 0 <= i < |lists| ==> x in lists[i]
  }

  /** The reference definition: the elements of `first`, in its order, that every list holds. */
  function KeepCommon(first: seq<string>, lists: seq<seq<string>>): (r: seq<string>)
    ensures |r| <= |first|
    ensures forall y :: y in r <==> y in first && InAll(y, lists)
  {
    if first == [] then [] else (if InAll(first[0], lists) then [first[0]] else []) + KeepCommon(first[1..], lists)
  }

  lemma {:induction false} KeepCommonStep(acc: seq<string>, l: seq<string>, rest: seq<seq<string>>)
    ensures KeepCommon(KeepIn(acc, l), rest) == KeepCommon(acc, [l] + rest)
  {
    if acc != [] {
      KeepCommonStep(acc[1..], l, rest);
      var x := acc[0];
      assert InAll(x, [l] + rest) <==> x in l && InAll(x, rest) by {
        if x in l && InAll(x, rest) {
          forall i | 0 <= i < |[l] + rest| ensures x in ([l] + rest)[i] {
            if i > 0 { assert ([l] + rest)[i] == rest[i - 1]; }
          }
        }
        if InAll(x, [l] + rest) {
          assert ([l] + rest)[0] == l;
          forall i | 0 <= i < |rest| ensures x in rest[i] {
            assert ([l] + rest)[i + 1] == rest[i];
          }
        }
      }
      if x in l {
        assert KeepIn(acc, l) == [x] + KeepIn(acc[1..], l);
        assert KeepIn(acc, l)[1..] == KeepIn(acc[1..], l);
      } else {
        assert KeepIn(acc, l) == KeepIn(acc[1..], l);
      }
    }
  }

  /** The reduce keeps exactly the accumulator's elements that every list holds, in the
      accumulator's order. */
  lemma {:induction false} IntersectIsKeepCommon(acc: seq<string>, lists: seq<seq<string>>)
    ensures Intersect(acc, lists) == KeepCommon(acc, lists)
    decreases |lists|
  {
    if lists == [] {
      KeepAll(acc);
    } else {
      IntersectIsKeepCommon(KeepIn(acc, lists[0]), lists[1..]);
      KeepCommonStep(acc, lists[0], lists[1..]);
      assert [lists[0]] + lists[1..] == lists;
    }
  }

  lemma {:induction false} KeepAll(acc: seq<string>)
    ensures KeepCommon(acc, []) == acc
  {
    if acc != [] {
      KeepAll(acc[1..]);
      assert acc == [acc[0]] + acc[1..];
    }
  }

  /** The lists of all selected files, in order. */
  function AllFormats(names: seq<string>): (r: seq<seq<string>>)
    ensures |r| == |names| && forall i :: 0 <= i < |names| ==> r[i] == FormatsFor(names[i])
  {
    seq(|names|, i requires 0 <= i < |names| => FormatsFor(names[i]))
  }

  /** getCommonFormats over the names of the selected files. */
  function GetCommonFormats(names: seq<string>): seq<string> {
    if |names| == 0 then [] else Intersect(AllFormats(names)[0], AllFormats(names))
  }

  /** No files offer nothing; otherwise the offer is the first file's list cut down to what
      every file offers, in the first file's order. */
  lemma CommonFormatsSpec(names: seq<string>)
    ensures |names| == 0 ==> GetCommonFormats(names) == []
    ensures |names| > 0 ==> GetCommonFormats(names) == KeepCommon(FormatsFor(names[0]), AllFormats(names))
    ensures forall x :: x in GetCommonFormats(names) <==>
      |names| > 0 && forall i :: 0 <= i < |names| ==> x in FormatsFor(names[i])
  {
    if |names| > 0 {
      var all := AllFormats(names);
      IntersectIsKeepCommon(all[0], all);
      forall x | (forall i :: 0 <= i < |names| ==> x in FormatsFor(names[i]))
        ensures x in GetCommonFormats(names)
      {
        assert x in all[0];
        assert InAll(x, all);
      }
    }
  }

  /** Every format offered for a selection is one the backend accepts for each selected
      file whose name has a dot. */
  lemma CommonFormatsAreValid(names: seq<string>, x: string, i: nat)
    requires x in GetCommonFormats(names) && i < |names| && '.' in names[i] && HasNoUpper(x)
    ensures Validate.IsValidConversion(Validate.GetFileExtension(names[i]), x)
  {
    CommonFormatsSpec(names);
    ExtensionsAgree(names[i]);
    OfferedIffValid(SplitExtension(names[i]), x);
  }

  // ---------------------------------------------------------------------------
  // The page's state and handlers

  /** A selected file: the browser file's name, the page's random id and its preview URL. */
  datatype FileWithPreview = FileWithPreview(name: string, id: string, preview: string)

  /** A result row as the page receives it from the backend. */
  datatype ConversionResult = ConversionResult(id: string, originalName: string, convertedName: string,
                                               downloadUrl: string, size: Option<int>, error: Option<string>)

  /** What convertFiles comes to: a parsed JSON body, or a thrown value (an Error's message,
      or None for anything else thrown). */
  datatype ApiReply =
    | Replied(success: bool, results: seq<ConversionResult>, error: Option<string>)
    | Threw(message: Option<string>)

  /** What the page hands to convertFiles. */
  datatype ConvertRequest = ConvertRequest(fileNames: seq<string>, targetFormat: string)

  const GuardError := "Please select files and target format"
  const ConversionFailed := "Conversion failed"

  function NamesOf(files: seq<FileWithPreview>): (r: seq<string>)
    ensures |r| == |files| && forall i :: 0 <= i < |files| ==> r[i] == files[i].name
  {
    seq(|files|, i requires 0 <= i < |files| => files[i].name)
  }

  /** `prev.filter(f => f.id !== id)`. */
  function WithoutId(files: seq<FileWithPreview>, id: string): (r: seq<FileWithPreview>)
    ensures |r| <= |files|
    ensures forall f :: f in r <==> f in files && f.id != id
  {
    if files == [] then [] else (if files[0].id != id then [files[0]] else []) + WithoutId(files[1..], id)
  }

  /** `prev.find(f => f.id === id)`. */
  function FindId(files: seq<FileWithPreview>, id: string): (r: Option<FileWithPreview>)
    ensures r.None? <==> forall f :: f in files ==> f.id != id
    ensures r.Some? ==> r.value in files && r.value.id == id
    ensures r.Some? ==> exists k :: 0 <= k < |files| && files[k] == r.value && forall j :: 0 <= j < k ==> files[j].id != id
  {
    if files == [] then None
    else if files[0].id == id then Some(files[0])
    else
      var r := FindId(files[1..], id);
      if r.Some? then
        var k :| 0 <= k < |files| - 1 && files[1..][k] == r.value && forall j :: 0 <= j < k ==> files[1..][j].id != id;
        assert files[k + 1] == r.value && forall j :: 0 <= j < k + 1 ==> files[j].id != id;
        r
      else r
  }

  /** Removing an id no file has leaves the list as it was. */
  lemma {:induction false} WithoutAbsentId(files: seq<FileWithPreview>, id: string)
    requires forall f :: f in files ==> f.id != id
    ensures WithoutId(files, id) == files
  {
    if files != [] {
      WithoutAbsentId(files[1..], id);
      assert files == [files[0]] + files[1..];
    }
  }

  /** The filter keeps the survivors in their order: filtering a concatenation filters each
      part and concatenates the results. */
  lemma {:induction false} WithoutIdConcat(a: seq<FileWithPreview>, b: seq<FileWithPreview>, id: string)
    ensures WithoutId(a + b, id) == WithoutId(a, id) + WithoutId(b, id)
  {
    if a == [] {
      assert a + b == b;
    } else {
      assert (a + b)[0] == a[0] && (a + b)[1..] == a[1..] + b;
      WithoutIdConcat(a[1..], b, id);
    }
  }

  /** Removing the same id a second time changes nothing. */
  lemma {:induction false} WithoutIdIdempotent(files: seq<FileWithPreview>, id: string)
    ensures WithoutId(WithoutId(files, id), id) == WithoutId(files, id)
  {
    WithoutAbsentId(WithoutId(files, id), id);
  }

  /** The files the drop adds, one per dropped file, in order. */
  function NewEntries(names: seq<string>, ids: seq<string>, previews: seq<string>): (r: seq<FileWithPreview>)
    requires |ids| == |names| && |previews| == |names|
    ensures |r| == |names|
    ensures forall i :: 0 <= i < |names| ==> r[i] == FileWithPreview(names[i], ids[i], previews[i])
  {
    seq(|names|, i requires 0 <= i < |names| => FileWithPreview(names[i], ids[i], previews[i]))
  }

  /** The target onDrop picks: the first format offered for the first dropped file, when
      nothing was selected before and that file's extension offers something. */
  function AutoTarget(wasEmpty: bool, names: seq<string>, current: string): string {
    if |names| > 0 && wasEmpty && SplitExtension(names[0]) != "" && |GetAvailableFormats(SplitExtension(names[0]))| > 0
    then GetAvailableFormats(SplitExtension(names[0]))[0]
    else current
  }

  /** The picked target is always a conversion the backend accepts for that file (when its
      name has a dot, so that the backend reads the same extension). */
  lemma AutoTargetIsValid(names: seq<string>, current: string)
    requires |names| > 0 && '.' in names[0]
    requires SplitExtension(names[0]) != "" && |GetAvailableFormats(SplitExtension(names[0]))| > 0
    ensures Validate.IsValidConversion(Validate.GetFileExtension(names[0]), AutoTarget(true, names, current))
  {
    var ext := SplitExtension(names[0]);
    var t := GetAvailableFormats(ext)[0];
    ExtensionsAgree(names[0]);
    AgreesWithBackend(ext);
    Validate.AvailableIffValid(ext, t);
    OfferedLowerCase(ext, t);
    LowerOfLowerCase(t);
  }

  /** Every offered format is a lower-case format name. */
  lemma OfferedLowerCase(x: string, t: string)
    requires HasNoUpper(x) && t in GetAvailableFormats(x)
    ensures HasNoUpper(t)
  {
    AgreesWithBackend(x);
    var outs := Validate.AvailableOutputFormats(x);
    var k :| 0 <= k < |outs| && outs[k] == t;
    Validate.AvailableInTableOrder(x);
    var f := Validate.ParseFormat(Lower(x)).value;
    assert t == Validate.FormatName(Validate.TargetsOf(f)[k]);
    Validate.FormatNameShape(Validate.TargetsOf(f)[k]);
  }

  /** The component's state. `revoked` records the preview URLs released so far. */
  class Page {
    var files: seq<FileWithPreview>
    var targetFormat: string
    var isConverting: bool
    var results: seq<ConversionResult>
    var error: string
    var revoked: seq<string>

    constructor()
      ensures files == [] && targetFormat == "" && !isConverting && results == [] && error == "" && revoked == []
    {
      files := [];
      targetFormat := "";
      isConverting := false;
      results := [];
      error := "";
      revoked := [];
    }

    /** The formats the selector offers. */
    function CommonFormats(): seq<string>
      reads this
    {
      GetCommonFormats(NamesOf(files))
    }

    /** onDrop: the dropped files join the list with fresh ids and previews, the error is
        cleared, and a target is picked when the list was empty. */
    method OnDrop(names: seq<string>, ids: seq<string>, previews: seq<string>)
      requires |ids| == |names| && |previews| == |names|
      modifies this
      ensures files == old(files) + NewEntries(names, ids, previews)
      ensures error == ""
      ensures targetFormat == AutoTarget(|old(files)| == 0, names, old(targetFormat))
      ensures isConverting == old(isConverting) && results == old(results) && revoked == old(revoked)
    {
      var wasEmpty := |files| == 0;
      files := files + NewEntries(names, ids, previews);
      error := "";
      if |names| > 0 && wasEmpty {
        var extension := SplitExtension(names[0]);
        if extension != "" {
          var available := GetAvailableFormats(extension);
          if |available| > 0 {
            targetFormat := available[0];
          }
        }
      }
    }

    /** handleConvert: with no files or no target it only reports the guard error and sends
        nothing; otherwise it sends the file names and target and applies the reply: a
        successful reply replaces the results and clears the files, anything else leaves
        them and reports the error (or "Conversion failed"). */
    method HandleConvert(reply: ApiReply) returns (request: Option<ConvertRequest>)
      modifies this
      ensures request.None? <==> |old(files)| == 0 || old(targetFormat) == ""
      ensures request.None? ==>
        && error == GuardError && files == old(files) && results == old(results)
        && isConverting == old(isConverting)
      ensures request.Some? ==> request.value == ConvertRequest(NamesOf(old(files)), old(targetFormat)) && !isConverting
      ensures request.Some? && reply.Replied? && reply.success ==>
        results == reply.results && files == [] && error == ""
      ensures request.Some? && reply.Replied? && !reply.success ==>
        && results == [] && files == old(files)
        && error == (if reply.error.Some? && reply.error.value != "" then reply.error.value else ConversionFailed)
      ensures request.Some? && reply.Threw? ==>
        && results == [] && files == old(files)
        && error == (if reply.message.Some? then reply.message.value else ConversionFailed)
      ensures targetFormat == old(targetFormat) && revoked == old(revoked)
    {
      if |files| == 0 || targetFormat == "" {
        error := GuardError;
        return None;
      }
      isConverting := true;
      error := "";
      results := [];
      request := Some(ConvertRequest(NamesOf(files), targetFormat));
      match reply {
        case Replied(success, replyResults, replyError) =>
          if success {
            results := replyResults;
            files := [];
          } else {
            error := if replyError.Some? && replyError.value != "" then replyError.value else ConversionFailed;
          }
        case Threw(message) =>
          error := if message.Some? then message.value else ConversionFailed;
      }
      isConverting := false;
    }

    /** handleRemoveFile: releases the preview of the first file with that id, if any, and
        drops every file with that id. */
    method HandleRemoveFile(id: string)
      modifies this
      ensures files == WithoutId(old(files), id)
      ensures revoked == old(revoked) + (if FindId(old(files), id).Some? then [FindId(old(files), id).value.preview] else [])
      ensures targetFormat == old(targetFormat) && isConverting == old(isConverting)
      ensures results == old(results) && error == old(error)
    {
      var file := FindId(files, id);
      if file.Some? {
        revoked := revoked + [file.value.preview];
      }
      files := WithoutId(files, id);
    }

    /** handleClearResults. */
    method HandleClearResults()
      modifies this
      ensures results == []
      ensures files == old(files) && targetFormat == old(targetFormat) && isConverting == old(isConverting)
      ensures error == old(error) && revoked == old(revoked)
    {
      results := [];
    }
  }
}
