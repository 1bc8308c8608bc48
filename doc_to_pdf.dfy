/** convertDocToPdf and checkLibreOfficeAvailable of
    backend/src/services/convert/docToPdf.ts, over the abstract directory and an abstract
    soffice run. */
module DocToPdf {
  import opened Common
  import opened Text
  import opened Paths
  import opened Fs
  import opened ChildProcess
  import Ids

  const TimedOutError := "LibreOffice conversion timed out"
  const NoOutputError := "LibreOffice did not produce expected output file"

  function StartFailedError(message: string): string {
    "Failed to start LibreOffice: " + message
  }

  function ExitError(code: Option<int>, stderr: string): string {
    "LibreOffice conversion failed with code " + CodeText(code) + ": " + stderr
  }

  function RenameError(error: string): string {
    "Failed to rename output file: " + error
  }

  /** The temporary copy of the upload, named after a fresh uuid and the input format. */
  function InputPath(outputDir: string, inputUuid: string, inputFormat: string): string {
    Join(outputDir, GenerateUniqueFilename(inputUuid, "input", Some("." + inputFormat)))
  }

  /** The path the call resolves to, named after a second fresh uuid. */
  function OutputPath(outputDir: string, outputUuid: string): string {
    Join(outputDir, GenerateUniqueFilename(outputUuid, "converted", Some(".pdf")))
  }

  /** Where soffice leaves its result: outputDir / (basename of the input minus ".fmt") + ".pdf". */
  function ExpectedOutputPath(outputDir: string, inputPath: string, inputFormat: string): string {
    Join(outputDir, BaseName(inputPath, "." + inputFormat) + ".pdf")
  }

  /** soffice's output for the temporary input is the input's uuid with ".pdf". */
  lemma ExpectedOutputIsUuidPdf(outputDir: string, inputUuid: string, inputFormat: string)
    requires Ids.IsValidId(inputUuid) && inputFormat != "" && '/' !in inputFormat
    ensures ExpectedOutputPath(outputDir, InputPath(outputDir, inputUuid, inputFormat), inputFormat)
         == Join(outputDir, inputUuid + ".pdf")
  {
    var suffix := "." + inputFormat;
    var name := inputUuid + suffix;
    var p := InputPath(outputDir, inputUuid, inputFormat);
    assert p == Join(outputDir, name);
    Ids.ValidIdIsPlainStem(inputUuid);
    NoSlashInConcat(inputUuid, suffix);
    LastComponentOfJoin(outputDir, name);
    assert EndsWith(name, suffix);
    assert |p| > |suffix|;
    assert name[..|name| - |suffix|] == inputUuid;
  }

  /** The call as a whole: write the input, run soffice, and on 'close' (which also follows
      a kill or a spawn error) unlink the input before looking at the exit code; after a
      zero exit, rename the expected output to the unique path. */
  function DocToPdfOutcome(files: Files, inputFormat: string, outputDir: string, inputUuid: string, outputUuid: string,
                           now: int, run: Run, renameError: Option<string>): Done
  {
    var inputPath := InputPath(outputDir, inputUuid, inputFormat);
    var closed := AfterDelete(files[inputPath := Entry(now, false)] + run.created, inputPath);
    match run.outcome
    case SpawnFailed(_, message) => Done(Err(StartFailedError(message)), closed)
    case TimedOut => Done(Err(TimedOutError), closed)
    case Exited(code, stderr) =>
      if code != Some(0) then Done(Err(ExitError(code, stderr)), closed)
      else
        var expected := ExpectedOutputPath(outputDir, inputPath, inputFormat);
        if expected !in closed then Done(Err(NoOutputError), closed)
        else if renameError.Some? then Done(Err(RenameError(renameError.value)), closed)
        else
          var outputPath := OutputPath(outputDir, outputUuid);
          Done(Ok(outputPath), (closed - {expected})[outputPath := closed[expected]])
  }

  /** How the call settles: each failure of soffice rejects with its message, a missing
      output with NoOutputError, a failing renameSync with its message and the output left
      where soffice put it, and on success the expected output has moved to the returned
      path. */
  lemma OutcomeSpec(files: Files, inputFormat: string, outputDir: string, inputUuid: string, outputUuid: string,
                    now: int, run: Run, renameError: Option<string>)
    ensures var d := DocToPdfOutcome(files, inputFormat, outputDir, inputUuid, outputUuid, now, run, renameError);
      var inputPath := InputPath(outputDir, inputUuid, inputFormat);
      var expected := ExpectedOutputPath(outputDir, inputPath, inputFormat);
      var produced := Succeeded(run.outcome) && expected != inputPath && expected in run.created;
      && (run.outcome.SpawnFailed? ==> d.result == Err(StartFailedError(run.outcome.message)))
      && (run.outcome.TimedOut? ==> d.result == Err(TimedOutError))
      && (run.outcome.Exited? && run.outcome.code != Some(0) ==> d.result == Err(ExitError(run.outcome.code, run.outcome.stderr)))
      && (Succeeded(run.outcome) && expected != inputPath && expected !in files && expected !in run.created ==> d.result == Err(NoOutputError))
      && (produced && renameError.Some? ==>
            && d.result == Err(RenameError(renameError.value))
            && expected in d.files && d.files[expected] == run.created[expected])
      && (produced && renameError.None? ==>
            var outputPath := OutputPath(outputDir, outputUuid);
            && d.result == Ok(outputPath)
            && outputPath in d.files && d.files[outputPath] == run.created[expected]
            && (expected != outputPath ==> expected !in d.files))
  {
  }

  /** The temporary input never survives the call, whatever the outcome. */
  lemma InputAlwaysRemoved(files: Files, inputFormat: string, outputDir: string, inputUuid: string, outputUuid: string,
                           now: int, run: Run, renameError: Option<string>)
    requires Ids.IsValidId(inputUuid) && Ids.IsValidId(outputUuid) && inputUuid != outputUuid
    requires InputPath(outputDir, inputUuid, inputFormat) in run.created ==> !run.created[InputPath(outputDir, inputUuid, inputFormat)].isDir
    ensures InputPath(outputDir, inputUuid, inputFormat) !in DocToPdfOutcome(files, inputFormat, outputDir, inputUuid, outputUuid, now, run, renameError).files
  {
    UniqueFilenamesDiffer(outputDir, inputUuid, "input", Some("." + inputFormat), outputUuid, "converted", Some(".pdf"));
  }

  /** convertDocToPdf as written: the input is written first (docToPdf.ts:24), then the
      promise's executor throws while it builds spawn's options (lines 41-43), so the promise
      rejects with that error, soffice never runs, and no handler unlinks the input. */
  function DocToPdfAsWritten(files: Files, inputFormat: string, outputDir: string, inputUuid: string, now: int): Done {
    Done(Err(ProcessUninitializedError), files[InputPath(outputDir, inputUuid, inputFormat) := Entry(now, false)])
  }

  /** As written, every call rejects and leaves its temporary input behind. A soffice run
      that writes the expected PDF shows the gap: the intended call resolves to the output
      path and removes the input. */
  lemma InputLeftBehindAsWritten(files: Files, inputFormat: string, outputDir: string, inputUuid: string, outputUuid: string,
                                 now: int, run: Run, renameError: Option<string>)
    requires Ids.IsValidId(inputUuid) && Ids.IsValidId(outputUuid) && inputUuid != outputUuid
    requires InputPath(outputDir, inputUuid, inputFormat) in run.created ==> !run.created[InputPath(outputDir, inputUuid, inputFormat)].isDir
    requires var inputPath := InputPath(outputDir, inputUuid, inputFormat);
      var expected := ExpectedOutputPath(outputDir, inputPath, inputFormat);
      Succeeded(run.outcome) && expected != inputPath && expected in run.created && renameError.None?
    ensures var w := DocToPdfAsWritten(files, inputFormat, outputDir, inputUuid, now);
      && w.result == Err(ProcessUninitializedError)
      && InputPath(outputDir, inputUuid, inputFormat) in w.files
    ensures var d := DocToPdfOutcome(files, inputFormat, outputDir, inputUuid, outputUuid, now, run, renameError);
      && d.result == Ok(OutputPath(outputDir, outputUuid))
      && InputPath(outputDir, inputUuid, inputFormat) !in d.files
  {
    OutcomeSpec(files, inputFormat, outputDir, inputUuid, outputUuid, now, run, renameError);
    InputAlwaysRemoved(files, inputFormat, outputDir, inputUuid, outputUuid, now, run, renameError);
  }

  /** The soffice invocation: headless conversion to pdf into outputDir. */
  method BuildInvocation(outputDir: string, inputPath: string, timeout: Option<int>) returns (inv: Invocation)
    ensures inv == Invocation("soffice", ["--headless", "--convert-to", "pdf", "--outdir", outputDir, inputPath],
                              EffectiveTimeout(timeout))
  {
    var args := ["--headless", "--convert-to", "pdf", "--outdir", outputDir, inputPath];
    inv := Invocation("soffice", args, EffectiveTimeout(timeout));
  }

  /** convertDocToPdf(buffer, inputFormat, outputDir, {timeout}): `inputUuid`/`outputUuid`
      are the uuids drawn for the two names, `run` is what soffice did, `renameError` how
      renameSync ended when the expected output was there. */
  method ConvertDocToPdf(disk: Disk, inputFormat: string, outputDir: string, timeout: Option<int>,
                         inputUuid: Ids.Uuid, outputUuid: Ids.Uuid, now: int, run: Run, renameError: Option<string>)
    returns (inv: Invocation, result: Result<string>)
    modifies disk
    ensures inv == Invocation("soffice", ["--headless", "--convert-to", "pdf", "--outdir", outputDir,
                                          InputPath(outputDir, inputUuid, inputFormat)], EffectiveTimeout(timeout))
    ensures Done(result, disk.files)
         == DocToPdfOutcome(old(disk.files), inputFormat, outputDir, inputUuid, outputUuid, now, run, renameError)
  {
    var inputPath := InputPath(outputDir, inputUuid, inputFormat);
    var outputPath := OutputPath(outputDir, outputUuid);
    disk.files := disk.files[inputPath := Entry(now, false)];
    inv := BuildInvocation(outputDir, inputPath, timeout);
    disk.files := disk.files + run.created;
    disk.DeleteFile(inputPath);
    if run.outcome.SpawnFailed? {
      return inv, Err(StartFailedError(run.outcome.message));
    }
    if run.outcome.TimedOut? {
      return inv, Err(TimedOutError);
    }
    if run.outcome.code != Some(0) {
      return inv, Err(ExitError(run.outcome.code, run.outcome.stderr));
    }
    var expected := ExpectedOutputPath(outputDir, inputPath, inputFormat);
    var present := disk.FileExists(expected);
    if !present {
      return inv, Err(NoOutputError);
    }
    if renameError.Some? {
      return inv, Err(RenameError(renameError.value));
    }
    disk.files := (disk.files - {expected})[outputPath := disk.files[expected]];
    return inv, Ok(outputPath);
  }

  /** checkLibreOfficeAvailable: `soffice --version` exits 0. */
  function CheckLibreOfficeAvailable(probe: Outcome): (available: bool)
    requires !probe.TimedOut?
    ensures available <==> Succeeded(probe)
  {
    ToolAvailable(probe)
  }

  /** The command checkLibreOfficeAvailable spawns. */
  const LibreOfficeProbe := Invocation("soffice", ["--version"], 0)
}
