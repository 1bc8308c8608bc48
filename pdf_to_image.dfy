/** convertPdfToImages and checkPopplerAvailable of
    backend/src/services/convert/pdfToImage.ts, over the abstract directory and an
    abstract pdftoppm run. */
module PdfToImage {
  import opened Common
  import opened Text
  import opened Paths
  import opened Fs
  import opened ChildProcess
  import Ids

  /** options.format: the two page formats pdftoppm is asked for. */
  datatype PageFormat = Png | Jpeg

  function FormatText(f: PageFormat): string {
    match f
    case Png => "png"
    case Jpeg => "jpeg"
  }

  /** The extension pdftoppm gives its page files: "-jpeg" output is named *.jpg. */
  function ToolExtension(f: PageFormat): string {
    match f
    case Png => "png"
    case Jpeg => "jpg"
  }

  const DefaultDpi := 150

  /** `options.dpi || 150`. */
  function EffectiveDpi(dpi: Option<int>): (r: int)
    ensures r != 0
    ensures dpi.Some? && dpi.value != 0 ==> r == dpi.value
    ensures dpi.None? || dpi.value == 0 ==> r == DefaultDpi
  {
    if dpi.Some? && dpi.value != 0 then dpi.value else DefaultDpi
  }

  const TimedOutError := "PDF to image conversion timed out"
  const NoImagesError := "No images were generated from PDF"

  function StartFailedError(message: string): string {
    "Failed to start pdftoppm: " + message
  }

  function ExitError(code: Option<int>, stderr: string): string {
    "PDF to image conversion failed with code " + CodeText(code) + ": " + stderr
  }

  function ProcessingError(error: string): string {
    "Failed to process converted images: " + error
  }

  /** The pdftoppm invocation: every page from 1 to 999 at the given resolution, then the
      output type flag pushed last. */
  method BuildInvocation(dpi: Option<int>, timeout: Option<int>, inputPath: string, outputPrefix: string, format: PageFormat)
    returns (inv: Invocation)
    ensures inv.command == "pdftoppm"
    ensures inv.args == ["-r", IntToString(EffectiveDpi(dpi)), "-f", "1", "-l", "999", inputPath, outputPrefix,
                         if format == Jpeg then "-jpeg" else "-png"]
    ensures inv.timeoutMs == EffectiveTimeout(timeout)
  {
    var args := ["-r", IntToString(EffectiveDpi(dpi)), "-f", "1", "-l", "999", inputPath, outputPrefix];
    if format == Jpeg {
      args := args + ["-jpeg"];
    } else {
      args := args + ["-png"];
    }
    inv := Invocation("pdftoppm", args, EffectiveTimeout(timeout));
  }

  /** The output prefix as written (pdfToImage.ts:22): the same "page" for every call, in
      the one output directory that every request shares. */
  const SharedPrefix := "page"

  /** The prefix the code evidently intends: one of its own for each call, here named after
      the call's fresh input uuid, so that calls sharing outputDir do not share pages. */
  function CallPrefix(uuid: string): string {
    "page-" + uuid
  }

  /** A directory entry that the filter keeps, for a name prefix and an extension `ext`. */
  predicate IsPageFile(name: string, prefix: string, ext: string) {
    StartsWith(name, prefix) && EndsWith(name, "." + ext)
  }

  /** Array.prototype.filter with IsPageFile. */
  function FilterPages(names: seq<string>, prefix: string, ext: string): (r: seq<string>)
    ensures forall n :: n in r <==> n in names && IsPageFile(n, prefix, ext)
    ensures multiset(r) <= multiset(names)
  {
    if names == [] then []
    else
      assert names == [names[0]] + names[1..];
      var rest := FilterPages(names[1..], prefix, ext);
      if IsPageFile(names[0], prefix, ext) then [names[0]] + rest else rest
  }

  /** The page images the source selects: entries starting with "page" and ending in "." +
      options.format, sorted. For Jpeg that is ".jpeg", which pdftoppm never writes. */
  function SelectPagesAsWritten(names: seq<string>, format: PageFormat): seq<string> {
    Sort(FilterPages(names, SharedPrefix, FormatText(format)))
  }

  /** The selection the code evidently intends: the call's own prefix, and the extension
      pdftoppm actually writes. */
  function SelectPages(names: seq<string>, format: PageFormat, pageUuid: string): seq<string> {
    Sort(FilterPages(names, CallPrefix(pageUuid), ToolExtension(format)))
  }

  /** The selected pages are exactly the directory's page files of this call, each as often
      as listed, in sorted order. */
  lemma SelectPagesSpec(names: seq<string>, format: PageFormat, pageUuid: string)
    ensures var pages := SelectPages(names, format, pageUuid);
      && Sorted(pages)
      && multiset(pages) == multiset(FilterPages(names, CallPrefix(pageUuid), ToolExtension(format)))
      && forall n :: n in pages <==> n in names && IsPageFile(n, CallPrefix(pageUuid), ToolExtension(format))
  {
    var kept := FilterPages(names, CallPrefix(pageUuid), ToolExtension(format));
    SortCorrect(kept);
    forall n ensures n in SelectPages(names, format, pageUuid) <==> n in kept {
      assert n in SelectPages(names, format, pageUuid) <==> n in multiset(SelectPages(names, format, pageUuid));
    }
  }

  /** The name pdftoppm gives page n of its output for a prefix (no zero padding, as for
      documents of fewer than ten pages). */
  function PageFileName(prefix: string, n: nat, format: PageFormat): string {
    prefix + "-" + NatToString(n) + "." + ToolExtension(format)
  }

  /** With -jpeg, the as-written filter discards every file pdftoppm writes: the suffix
      ".jpeg" is not the suffix ".jpg". */
  lemma JpegPageRejectedAsWritten(n: nat)
    ensures !IsPageFile(PageFileName(SharedPrefix, n, Jpeg), SharedPrefix, FormatText(Jpeg))
    ensures IsPageFile(PageFileName(SharedPrefix, n, Jpeg), SharedPrefix, ToolExtension(Jpeg))
  {
    var digits := NatToString(n);
    var name := PageFileName(SharedPrefix, n, Jpeg);
    assert name == "page-" + digits + ".jpg";
    assert name[|name| - 4..] == ".jpg";
    assert name[..4] == "page";
    assert name[|name| - 5] == digits[|digits| - 1];
    assert name[|name| - 5..][0] != ".jpeg"[0];
  }

  /** Every page pdftoppm writes for a call's own prefix passes that call's filter. */
  lemma OwnPageSelected(uuid: string, n: nat, format: PageFormat)
    ensures IsPageFile(PageFileName(CallPrefix(uuid), n, format), CallPrefix(uuid), ToolExtension(format))
  {
    var prefix := CallPrefix(uuid);
    var tail := "-" + NatToString(n) + "." + ToolExtension(format);
    var name := PageFileName(prefix, n, format);
    assert name == prefix + tail;
    assert name[..|prefix|] == prefix;
    assert name[|name| - |"." + ToolExtension(format)|..] == "." + ToolExtension(format);
  }

  /** A page another call wrote never passes this call's filter: the two prefixes have the
      same length and differ, since uuids are 36 characters long. */
  lemma OtherCallsPageRejected(u: string, v: string, n: nat, f: PageFormat, ext: string)
    requires Ids.IsValidId(u) && Ids.IsValidId(v) && u != v
    ensures !IsPageFile(PageFileName(CallPrefix(v), n, f), CallPrefix(u), ext)
  {
    Ids.ValidIdIsPlainStem(u);
    Ids.ValidIdIsPlainStem(v);
    var name := PageFileName(CallPrefix(v), n, f);
    assert name == CallPrefix(v) + ("-" + NatToString(n) + "." + ToolExtension(f));
    assert name[..|CallPrefix(u)|] == CallPrefix(v);
    assert CallPrefix(u)[5..] == u && CallPrefix(v)[5..] == v;
  }

  /** The one-page JPEG conversion: as written nothing is selected (and the conversion
      rejects with "No images were generated"); the corrected selection finds the page. */
  lemma OnePageJpegCounterexample(uuid: string)
    ensures SelectPagesAsWritten([PageFileName(SharedPrefix, 1, Jpeg)], Jpeg) == []
    ensures SelectPages([PageFileName(CallPrefix(uuid), 1, Jpeg)], Jpeg, uuid) == [PageFileName(CallPrefix(uuid), 1, Jpeg)]
  {
    JpegPageRejectedAsWritten(1);
    OwnPageSelected(uuid, 1, Jpeg);
  }

  /** Removing listed paths one at a time (the clean-up loop over the page images). */
  function DeleteAll(files: Files, paths: seq<string>): (r: Files)
    ensures forall q :: q in r <==> q in files && (q !in paths || files[q].isDir)
    ensures forall q :: q in r ==> r[q] == files[q]
    decreases |paths|
  {
    if paths == [] then files else DeleteAll(AfterDelete(files, paths[0]), paths[1..])
  }

  function PagePaths(outputDir: string, pages: seq<string>): (r: seq<string>)
    ensures |r| == |pages| && forall i :: 0 <= i < |pages| ==> r[i] == Join(outputDir, pages[i])
  {
    seq(|pages|, i requires 0 <= i < |pages| => Join(outputDir, pages[i]))
  }

  /** The path of the temporary input and of the archive for a given pair of uuids. */
  function InputPath(outputDir: string, inputUuid: string): string {
    Join(outputDir, GenerateUniqueFilename(inputUuid, "input", Some(".pdf")))
  }

  function ZipPath(outputDir: string, zipUuid: string): string {
    Join(outputDir, GenerateUniqueFilename(zipUuid, "converted", Some(".zip")))
  }

  /** The zero / one / many rule of the close handler, on the selected page names (or
      readdirSync's error); `zipError` is how createZipFile ended. */
  function Settle(files: Files, outputDir: string, zipUuid: string, now: int,
                  selection: Result<seq<string>>, zipError: Option<string>): Done
  {
    if selection.Err? then Done(Err(ProcessingError(selection.message)), files)
    else
      var pages := selection.value;
      if |pages| == 0 then Done(Err(NoImagesError), files)
      else if |pages| == 1 then Done(Ok(Join(outputDir, pages[0])), files)
      else if zipError.Some? then Done(Err(ProcessingError(zipError.value)), files)
      else
        var zipPath := ZipPath(outputDir, zipUuid);
        Done(Ok(zipPath), DeleteAll(files[zipPath := Entry(now, false)], PagePaths(outputDir, pages)))
  }

  /** The close handler for a successful exit, after the input is gone: readdirSync of
      outputDir (`listing`), the intended page selection, and the zero / one / many rule. */
  function AfterSuccess(files: Files, outputDir: string, format: PageFormat, pageUuid: string, zipUuid: string,
                        now: int, listing: Result<seq<string>>, zipError: Option<string>): Done
  {
    Settle(files, outputDir, zipUuid, now,
           if listing.Ok? then Ok(SelectPages(listing.value, format, pageUuid)) else Err(listing.message), zipError)
  }

  /** The same handler with the selection as written: every "page*" file of the shared
      directory, whichever call wrote it. */
  function AfterSuccessAsWritten(files: Files, outputDir: string, format: PageFormat, zipUuid: string,
                                 now: int, listing: Result<seq<string>>, zipError: Option<string>): Done
  {
    Settle(files, outputDir, zipUuid, now,
           if listing.Ok? then Ok(SelectPagesAsWritten(listing.value, format)) else Err(listing.message), zipError)
  }

  /** As written, calls share their pages. A first call whose listing holds just page-1.png
      resolves to that page, and its path is registered for download. A second one-page call
      resolves to the very same path. A second two-page call zips page-1.png with its own
      page and then deletes it, so the first download finds no file. */
  lemma SharedPagesAsWritten(first: Files, second: Files, outputDir: string, z1: string, z2: string, now: int)
    requires Join(outputDir, PageFileName(SharedPrefix, 1, Png)) in second
    requires !second[Join(outputDir, PageFileName(SharedPrefix, 1, Png))].isDir
    ensures var p1 := PageFileName(SharedPrefix, 1, Png);
      && AfterSuccessAsWritten(first, outputDir, Png, z1, now, Ok([p1]), None).result == Ok(Join(outputDir, p1))
      && AfterSuccessAsWritten(second, outputDir, Png, z2, now, Ok([p1]), None).result == Ok(Join(outputDir, p1))
    ensures var p1, p2 := PageFileName(SharedPrefix, 1, Png), PageFileName(SharedPrefix, 2, Png);
      var d := AfterSuccessAsWritten(second, outputDir, Png, z2, now, Ok([p1, p2]), None);
      && d.result == Ok(ZipPath(outputDir, z2))
      && Join(outputDir, p1) !in d.files
  {
    var p1, p2 := PageFileName(SharedPrefix, 1, Png), PageFileName(SharedPrefix, 2, Png);
    SharedPageKept(1);
    SharedPageKept(2);
    assert NatToString(1) == "1" && NatToString(2) == "2";
    assert p1 != p2 by { assert p1[5] != p2[5]; }
    assert EndsWith(p1, ".png");
    OneSharedPage(first, outputDir, z1, now, p1);
    OneSharedPage(second, outputDir, z2, now, p1);
    TwoSharedPages(second, outputDir, z2, now, p1, p2);
  }

  /** A listing with one shared page resolves, as written, to that page. */
  lemma OneSharedPage(files: Files, outputDir: string, zipUuid: string, now: int, p: string)
    requires IsPageFile(p, SharedPrefix, FormatText(Png))
    ensures AfterSuccessAsWritten(files, outputDir, Png, zipUuid, now, Ok([p]), None).result == Ok(Join(outputDir, p))
  {
    var one: seq<string> := [p];
    assert one[1..] == [];
    assert FilterPages(one, SharedPrefix, FormatText(Png)) == one;
    assert Sort(one) == Insert(p, Sort([])) == one;
  }

  /** A listing with two shared pages resolves, as written, to the archive and deletes both,
      whichever call wrote them. */
  lemma TwoSharedPages(files: Files, outputDir: string, zipUuid: string, now: int, p: string, q: string)
    requires IsPageFile(p, SharedPrefix, FormatText(Png)) && IsPageFile(q, SharedPrefix, FormatText(Png)) && p != q
    requires Join(outputDir, p) in files && !files[Join(outputDir, p)].isDir
    ensures var d := AfterSuccessAsWritten(files, outputDir, Png, zipUuid, now, Ok([p, q]), None);
      d.result == Ok(ZipPath(outputDir, zipUuid)) && Join(outputDir, p) !in d.files
  {
    var both: seq<string> := [p, q];
    var kept := FilterPages(both, SharedPrefix, FormatText(Png));
    assert both[1..] == [q] && both[1..][1..] == [];
    assert FilterPages(both[1..], SharedPrefix, FormatText(Png)) == [q];
    assert kept == both;
    SortCorrect(kept);
    var selected := SelectPagesAsWritten(both, Png);
    assert |selected| == 2 by { assert |multiset(selected)| == 2; }
    assert p in selected by { assert p in multiset(selected); }
    var k :| 0 <= k < |selected| && selected[k] == p;
    assert PagePaths(outputDir, selected)[k] == Join(outputDir, p);
    PageIsNoArchive(outputDir, zipUuid, p);
  }

  /** "page-n.png", the name of a shared page, passes the filter as written. */
  lemma SharedPageKept(n: nat)
    ensures IsPageFile(PageFileName(SharedPrefix, n, Png), SharedPrefix, FormatText(Png))
  {
    var name := PageFileName(SharedPrefix, n, Png);
    assert name == "page" + ("-" + NatToString(n) + ".png");
    assert name[..4] == "page";
    assert name[|name| - 4..] == ".png";
  }

  /** A page name, ending in ".png" or ".jpg", never names the archive, which ends in
      ".zip". */
  lemma PageIsNoArchive(outputDir: string, zipUuid: string, page: string)
    requires EndsWith(page, ".png") || EndsWith(page, ".jpg")
    ensures Join(outputDir, page) != ZipPath(outputDir, zipUuid)
  {
    assert page[|page| - 1] == 'g';
    var q := Join(outputDir, page);
    assert q[|q| - 1] == page[|page| - 1];
    assert ZipPath(outputDir, zipUuid)[|ZipPath(outputDir, zipUuid)| - 1] == 'p';
  }

  /** With a prefix of its own, a call never takes another call's pages: a page that another
      call wrote is still on disk afterwards, unchanged, and the call never resolves to it. */
  lemma OtherCallsPagesKept(files: Files, outputDir: string, format: PageFormat, pageUuid: string, zipUuid: string,
                            now: int, listing: Result<seq<string>>, zipError: Option<string>,
                            other: string, n: nat, otherFormat: PageFormat)
    requires Ids.IsValidId(pageUuid) && Ids.IsValidId(other) && pageUuid != other
    requires Join(outputDir, PageFileName(CallPrefix(other), n, otherFormat)) in files
    ensures var q := Join(outputDir, PageFileName(CallPrefix(other), n, otherFormat));
      var d := AfterSuccess(files, outputDir, format, pageUuid, zipUuid, now, listing, zipError);
      && q in d.files && d.files[q] == files[q]
      && d.result != Ok(q)
  {
    var page := PageFileName(CallPrefix(other), n, otherFormat);
    var q := Join(outputDir, page);
    OwnPageSelected(other, n, otherFormat);
    PageIsNoArchive(outputDir, zipUuid, page);
    if listing.Ok? {
      OtherPageNotSelected(outputDir, listing.value, format, pageUuid, other, n, otherFormat);
    }
    SettleKeeps(files, outputDir, zipUuid, now,
                if listing.Ok? then Ok(SelectPages(listing.value, format, pageUuid)) else Err(listing.message), zipError, q);
  }

  /** The path of another call's page is none of this call's page paths. */
  lemma OtherPageNotSelected(outputDir: string, names: seq<string>, format: PageFormat, pageUuid: string,
                             other: string, n: nat, otherFormat: PageFormat)
    requires Ids.IsValidId(pageUuid) && Ids.IsValidId(other) && pageUuid != other
    ensures Join(outputDir, PageFileName(CallPrefix(other), n, otherFormat))
            !in PagePaths(outputDir, SelectPages(names, format, pageUuid))
  {
    var page := PageFileName(CallPrefix(other), n, otherFormat);
    var selected := SelectPages(names, format, pageUuid);
    var paths := PagePaths(outputDir, selected);
    SelectPagesSpec(names, format, pageUuid);
    OtherCallsPageRejected(pageUuid, other, n, otherFormat, ToolExtension(format));
    forall i | 0 <= i < |paths| ensures paths[i] != Join(outputDir, page) {
      assert selected[i] in selected;
      JoinCancel(outputDir, selected[i], page);
    }
  }

  /** The zero / one / many rule keeps every path other than the archive and the selected
      pages, and resolves to none of them. */
  lemma SettleKeeps(files: Files, outputDir: string, zipUuid: string, now: int,
                    selection: Result<seq<string>>, zipError: Option<string>, q: string)
    requires q in files && q != ZipPath(outputDir, zipUuid)
    requires selection.Ok? ==> q !in PagePaths(outputDir, selection.value)
    ensures var d := Settle(files, outputDir, zipUuid, now, selection, zipError);
      q in d.files && d.files[q] == files[q] && d.result != Ok(q)
  {
    if selection.Ok? && |selection.value| == 1 {
      assert PagePaths(outputDir, selection.value)[0] == Join(outputDir, selection.value[0]);
    }
  }

  /** The whole call: write the input, run pdftoppm, and on 'close' (which follows a kill
      or a spawn error as well) unlink the input before looking at the exit code. The pages
      are named after the input's uuid (CallPrefix). */
  function PdfToImagesOutcome(files: Files, outputDir: string, format: PageFormat, inputUuid: string, zipUuid: string,
                              now: int, run: Run, listing: Result<seq<string>>, zipError: Option<string>): Done
  {
    var inputPath := InputPath(outputDir, inputUuid);
    var closed := AfterDelete((files[inputPath := Entry(now, false)] + run.created), inputPath);
    match run.outcome
    case SpawnFailed(_, message) => Done(Err(StartFailedError(message)), closed)
    case TimedOut => Done(Err(TimedOutError), closed)
    case Exited(code, stderr) =>
      if code != Some(0) then Done(Err(ExitError(code, stderr)), closed)
      else AfterSuccess(closed, outputDir, format, inputUuid, zipUuid, now, listing, zipError)
  }

  /** The temporary input never survives the call, whatever the outcome. */
  lemma InputAlwaysRemoved(files: Files, outputDir: string, format: PageFormat, inputUuid: string, zipUuid: string,
                           now: int, run: Run, listing: Result<seq<string>>, zipError: Option<string>)
    requires Ids.IsValidId(inputUuid) && Ids.IsValidId(zipUuid) && inputUuid != zipUuid
    requires InputPath(outputDir, inputUuid) in run.created ==> !run.created[InputPath(outputDir, inputUuid)].isDir
    ensures InputPath(outputDir, inputUuid) !in PdfToImagesOutcome(files, outputDir, format, inputUuid, zipUuid, now, run, listing, zipError).files
  {
    var inputPath := InputPath(outputDir, inputUuid);
    var closed := AfterDelete((files[inputPath := Entry(now, false)] + run.created), inputPath);
    UniqueFilenamesDiffer(outputDir, inputUuid, "input", Some(".pdf"), zipUuid, "converted", Some(".zip"));
    WrittenInputUnlinked(files, run.created, inputPath, now);
    AfterSuccessAddsOnlyArchive(closed, outputDir, format, inputUuid, zipUuid, now, listing, zipError, inputPath);
  }

  /** The input written before the run is gone once 'close' has unlinked it, unless the
      tool replaced it with a directory. */
  lemma WrittenInputUnlinked(files: Files, created: Files, inputPath: string, now: int)
    requires inputPath in created ==> !created[inputPath].isDir
    ensures inputPath !in AfterDelete(files[inputPath := Entry(now, false)] + created, inputPath)
  {
  }

  /** The close handler adds no path but the archive. */
  lemma AfterSuccessAddsOnlyArchive(files: Files, outputDir: string, format: PageFormat, pageUuid: string, zipUuid: string,
                                    now: int, listing: Result<seq<string>>, zipError: Option<string>, q: string)
    requires q !in files && q != ZipPath(outputDir, zipUuid)
    ensures q !in AfterSuccess(files, outputDir, format, pageUuid, zipUuid, now, listing, zipError).files
  {
  }

  /** convertPdfToImages as written: the input is written first (pdfToImage.ts:26), then the
      promise's executor throws while it builds spawn's options (lines 50-52), so the promise
      rejects with that error, pdftoppm never runs, and no handler unlinks the input. */
  function PdfToImagesAsWritten(files: Files, outputDir: string, inputUuid: string, now: int): Done {
    Done(Err(ProcessUninitializedError), files[InputPath(outputDir, inputUuid) := Entry(now, false)])
  }

  /** As written, every call rejects and leaves its temporary input behind. A pdftoppm run
      that writes one page shows the gap: the intended call resolves to that page and removes
      the input. */
  lemma InputLeftBehindAsWritten(files: Files, outputDir: string, format: PageFormat, inputUuid: string, zipUuid: string,
                                 now: int, run: Run, pages: seq<string>, zipError: Option<string>)
    requires Ids.IsValidId(inputUuid) && Ids.IsValidId(zipUuid) && inputUuid != zipUuid
    requires InputPath(outputDir, inputUuid) in run.created ==> !run.created[InputPath(outputDir, inputUuid)].isDir
    requires Succeeded(run.outcome) && |SelectPages(pages, format, inputUuid)| == 1
    ensures var w := PdfToImagesAsWritten(files, outputDir, inputUuid, now);
      && w.result == Err(ProcessUninitializedError)
      && InputPath(outputDir, inputUuid) in w.files
    ensures var d := PdfToImagesOutcome(files, outputDir, format, inputUuid, zipUuid, now, run, Ok(pages), zipError);
      && d.result == Ok(Join(outputDir, SelectPages(pages, format, inputUuid)[0]))
      && InputPath(outputDir, inputUuid) !in d.files
  {
    OutcomeSpec(files, outputDir, format, inputUuid, zipUuid, now, run, Ok(pages), zipError);
    InputAlwaysRemoved(files, outputDir, format, inputUuid, zipUuid, now, run, Ok(pages), zipError);
  }

  /** How the call settles: spawn errors and timeouts reject with their messages, a
      non-zero exit with the code and stderr; after a zero exit, a failing readdirSync
      rejects with its message, no page rejects, one page resolves to that page, and several
      resolve to the archive, which is then on disk and leaves no page behind, or reject
      with createZipFile's message when it fails. */
  lemma OutcomeSpec(files: Files, outputDir: string, format: PageFormat, inputUuid: string, zipUuid: string,
                    now: int, run: Run, listing: Result<seq<string>>, zipError: Option<string>)
    ensures var d := PdfToImagesOutcome(files, outputDir, format, inputUuid, zipUuid, now, run, listing, zipError);
      var selected := if listing.Ok? then SelectPages(listing.value, format, inputUuid) else [];
      && (run.outcome.SpawnFailed? ==> d.result == Err(StartFailedError(run.outcome.message)))
      && (run.outcome.TimedOut? ==> d.result == Err(TimedOutError))
      && (run.outcome.Exited? && run.outcome.code != Some(0) ==> d.result == Err(ExitError(run.outcome.code, run.outcome.stderr)))
      && (Succeeded(run.outcome) && listing.Err? ==> d.result == Err(ProcessingError(listing.message)))
      && (Succeeded(run.outcome) && listing.Ok? && |selected| == 0 ==> d.result == Err(NoImagesError))
      && (Succeeded(run.outcome) && listing.Ok? && |selected| == 1 ==> d.result == Ok(Join(outputDir, selected[0])))
      && (Succeeded(run.outcome) && listing.Ok? && |selected| > 1 && zipError.Some? ==>
            d.result == Err(ProcessingError(zipError.value)))
      && (Succeeded(run.outcome) && listing.Ok? && |selected| > 1 && zipError.None? ==>
            && d.result == Ok(ZipPath(outputDir, zipUuid))
            && ZipPath(outputDir, zipUuid) in d.files && d.files[ZipPath(outputDir, zipUuid)] == Entry(now, false)
            && forall i :: 0 <= i < |selected| && Join(outputDir, selected[i]) in d.files ==> d.files[Join(outputDir, selected[i])].isDir)
  {
    if Succeeded(run.outcome) && listing.Ok? && |SelectPages(listing.value, format, inputUuid)| > 1 && zipError.None? {
      ArchiveSpec(files, outputDir, format, inputUuid, zipUuid, now, run, listing.value);
    }
  }

  /** The many-page success: the archive is written and survives the clean-up of the
      pages, which removes every page file. */
  lemma ArchiveSpec(files: Files, outputDir: string, format: PageFormat, inputUuid: string, zipUuid: string,
                    now: int, run: Run, pages: seq<string>)
    requires Succeeded(run.outcome) && |SelectPages(pages, format, inputUuid)| > 1
    ensures var d := PdfToImagesOutcome(files, outputDir, format, inputUuid, zipUuid, now, run, Ok(pages), None);
      var selected := SelectPages(pages, format, inputUuid);
      && ZipPath(outputDir, zipUuid) in d.files && d.files[ZipPath(outputDir, zipUuid)] == Entry(now, false)
      && forall i :: 0 <= i < |selected| && Join(outputDir, selected[i]) in d.files ==> d.files[Join(outputDir, selected[i])].isDir
  {
    var d := PdfToImagesOutcome(files, outputDir, format, inputUuid, zipUuid, now, run, Ok(pages), None);
    var selected := SelectPages(pages, format, inputUuid);
    var paths := PagePaths(outputDir, selected);
    forall i | 0 <= i < |selected| && Join(outputDir, selected[i]) in d.files
      ensures d.files[Join(outputDir, selected[i])].isDir
    {
      assert paths[i] == Join(outputDir, selected[i]);
    }
    ArchiveIsNoPage(outputDir, format, inputUuid, zipUuid, pages);
  }

  /** The archive's path is none of the selected page paths: an archive name ends in ".zip",
      a page name in ".png" or ".jpg". */
  lemma ArchiveIsNoPage(outputDir: string, format: PageFormat, pageUuid: string, zipUuid: string, pages: seq<string>)
    ensures ZipPath(outputDir, zipUuid) !in PagePaths(outputDir, SelectPages(pages, format, pageUuid))
  {
    var selected := SelectPages(pages, format, pageUuid);
    var paths := PagePaths(outputDir, selected);
    var zipName := GenerateUniqueFilename(zipUuid, "converted", Some(".zip"));
    assert zipName == zipUuid + ".zip";
    SelectPagesSpec(pages, format, pageUuid);
    forall i | 0 <= i < |paths| ensures paths[i] != ZipPath(outputDir, zipUuid) {
      var page := selected[i];
      assert page in selected;
      assert EndsWith(page, "." + ToolExtension(format));
      assert page[|page| - 1] == 'g';
      assert paths[i][|paths[i]| - 1] == page[|page| - 1];
      assert ZipPath(outputDir, zipUuid)[|ZipPath(outputDir, zipUuid)| - 1] == 'p';
    }
  }

  /** convertPdfToImages(buffer, outputDir, {format, dpi, timeout}): `inputUuid` and
      `zipUuid` are the fresh uuids drawn for the temporary input and the archive, `run`
      is what pdftoppm did, `listing` what readdirSync reports, `zipError` how
      createZipFile ended. */
  method ConvertPdfToImages(disk: Disk, outputDir: string, format: PageFormat, dpi: Option<int>, timeout: Option<int>,
                            inputUuid: Ids.Uuid, zipUuid: Ids.Uuid, now: int, run: Run,
                            listing: Result<seq<string>>, zipError: Option<string>)
    returns (inv: Invocation, result: Result<string>)
    modifies disk
    ensures inv.command == "pdftoppm" && inv.timeoutMs == EffectiveTimeout(timeout)
    ensures inv.args == ["-r", IntToString(EffectiveDpi(dpi)), "-f", "1", "-l", "999",
                         InputPath(outputDir, inputUuid), Join(outputDir, CallPrefix(inputUuid)), if format == Jpeg then "-jpeg" else "-png"]
    ensures Done(result, disk.files)
         == PdfToImagesOutcome(old(disk.files), outputDir, format, inputUuid, zipUuid, now, run, listing, zipError)
  {
    var inputPath := InputPath(outputDir, inputUuid);
    var outputPrefix := Join(outputDir, CallPrefix(inputUuid));
    disk.files := disk.files[inputPath := Entry(now, false)];
    inv := BuildInvocation(dpi, timeout, inputPath, outputPrefix, format);
    disk.files := disk.files + run.created;
    disk.DeleteFile(inputPath);
    if run.outcome.SpawnFailed? {
      return inv, Err(StartFailedError(run.outcome.message));
    }
    if run.outcome.TimedOut? {
      return inv, Err(TimedOutError);
    }
    if run.outcome.code != Some(0) {
      return inv, Err(ExitError(run.outcome.code, run.outcome.stderr));
    }
    result := FinishSuccess(disk, outputDir, format, inputUuid, zipUuid, now, listing, zipError);
  }

  /** The close handler after a zero exit, once the input is gone. */
  method FinishSuccess(disk: Disk, outputDir: string, format: PageFormat, pageUuid: string, zipUuid: string, now: int,
                       listing: Result<seq<string>>, zipError: Option<string>)
    returns (result: Result<string>)
    modifies disk
    ensures Done(result, disk.files) == AfterSuccess(old(disk.files), outputDir, format, pageUuid, zipUuid, now, listing, zipError)
  {
    if listing.Err? {
      return Err(ProcessingError(listing.message));
    }
    var pages := SelectPages(listing.value, format, pageUuid);
    if |pages| == 0 {
      return Err(NoImagesError);
    }
    if |pages| == 1 {
      return Ok(Join(outputDir, pages[0]));
    }
    if zipError.Some? {
      return Err(ProcessingError(zipError.value));
    }
    var zipPath := ZipPath(outputDir, zipUuid);
    disk.files := disk.files[zipPath := Entry(now, false)];
    var paths := PagePaths(outputDir, pages);
    ghost var zipped := disk.files;
    var i := 0;
    while i < |paths|
      invariant 0 <= i <= |paths|
      invariant DeleteAll(zipped, paths) == DeleteAll(disk.files, paths[i..])
    {
      assert paths[i..][1..] == paths[i + 1..];
      disk.DeleteFile(paths[i]);
      i := i + 1;
    }
    assert paths[i..] == [];
    return Ok(zipPath);
  }

  /** checkPopplerAvailable: `pdftoppm -v` exits 0. */
  function CheckPopplerAvailable(probe: Outcome): (available: bool)
    requires !probe.TimedOut?
    ensures available <==> Succeeded(probe)
  {
    ToolAvailable(probe)
  }

  /** The command checkPopplerAvailable spawns. */
  const PopplerProbe := Invocation("pdftoppm", ["-v"], 0)
}
