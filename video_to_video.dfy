/** convertVideoToFormat of backend/src/services/convert/videoToVideo.ts, over the abstract
    directory and an abstract ffmpeg run. ffmpeg runs without a timer. */
module VideoToVideo {
  import opened Common
  import opened Paths
  import opened Fs
  import opened ChildProcess
  import Ids

  const MissingFfmpegError := "FFmpeg binary not found. Please install FFmpeg or set FFMPEG_PATH environment variable."

  function ExitError(code: Option<int>, stderr: string): string {
    "FFmpeg exited with code " + CodeText(code) + ": " + stderr
  }

  /** `process.env.FFMPEG_PATH || 'ffmpeg'`. */
  function Command(ffmpegPath: Option<string>): (c: string)
    ensures c != ""
    ensures ffmpegPath.Some? && ffmpegPath.value != "" ==> c == ffmpegPath.value
    ensures ffmpegPath.None? || ffmpegPath.value == "" ==> c == "ffmpeg"
  {
    if ffmpegPath.Some? && ffmpegPath.value != "" then ffmpegPath.value else "ffmpeg"
  }

  /** `${uuid}.${extension}` under outputDir, for the input and for the output. */
  function UuidPath(outputDir: string, uuid: string, extension: string): string {
    Join(outputDir, uuid + "." + extension)
  }

  /** The message the call rejects with: ENOENT is translated, anything else passes through. */
  function FailureMessage(o: Outcome): (m: string)
    requires !Succeeded(o) && !o.TimedOut?
    ensures o.SpawnFailed? && o.errno == "ENOENT" ==> m == MissingFfmpegError
    ensures o.SpawnFailed? && o.errno != "ENOENT" ==> m == o.message
    ensures o.Exited? ==> m == ExitError(o.code, o.stderr)
  {
    match o
    case Exited(code, stderr) => ExitError(code, stderr)
    case SpawnFailed(errno, message) => if errno == "ENOENT" then MissingFfmpegError else message
  }

  /** The call as a whole: write the input, run ffmpeg; on exit 0 delete the input and resolve
      to the output; on any failure delete both before rejecting. */
  function VideoOutcome(files: Files, inputExtension: string, targetFormat: string, outputDir: string,
                        inputUuid: string, outputUuid: string, now: int, run: Run): Done
    requires !run.outcome.TimedOut?
  {
    var inputPath := UuidPath(outputDir, inputUuid, inputExtension);
    var outputPath := UuidPath(outputDir, outputUuid, targetFormat);
    var ran := files[inputPath := Entry(now, false)] + run.created;
    if Succeeded(run.outcome) then Done(Ok(outputPath), AfterDelete(ran, inputPath))
    else Done(Err(FailureMessage(run.outcome)), AfterDelete(AfterDelete(ran, inputPath), outputPath))
  }

  /** Success keeps the output the tool wrote and drops the input; failure drops both. */
  lemma CleanupOnEveryPath(files: Files, inputExtension: string, targetFormat: string, outputDir: string,
                           inputUuid: string, outputUuid: string, now: int, run: Run)
    requires !run.outcome.TimedOut?
    requires Ids.IsValidId(inputUuid) && Ids.IsValidId(outputUuid) && inputUuid != outputUuid
    requires forall p :: p in run.created ==> !run.created[p].isDir
    ensures var d := VideoOutcome(files, inputExtension, targetFormat, outputDir, inputUuid, outputUuid, now, run);
      var inputPath := UuidPath(outputDir, inputUuid, inputExtension);
      var outputPath := UuidPath(outputDir, outputUuid, targetFormat);
      && inputPath !in d.files
      && (Succeeded(run.outcome) ==>
            d.result == Ok(outputPath) &&
            (outputPath in run.created ==> outputPath in d.files && d.files[outputPath] == run.created[outputPath]))
      && (!Succeeded(run.outcome) ==>
            d.result.Err? && ((outputPath in files ==> !files[outputPath].isDir) ==> outputPath !in d.files))
  {
    DistinctStemsDiffer(outputDir, inputUuid, "." + inputExtension, outputUuid, "." + targetFormat);
    assert UuidPath(outputDir, inputUuid, inputExtension) == Join(outputDir, inputUuid + ("." + inputExtension));
    assert UuidPath(outputDir, outputUuid, targetFormat) == Join(outputDir, outputUuid + ("." + targetFormat));
  }

  /** convertVideoToFormat(buffer, inputExtension, targetFormat, outputDir): `ffmpegPath` is
      FFMPEG_PATH, the uuids are the two drawn for the names, `run` is what ffmpeg did. */
  method ConvertVideoToFormat(disk: Disk, inputExtension: string, targetFormat: string, outputDir: string,
                              ffmpegPath: Option<string>, inputUuid: Ids.Uuid, outputUuid: Ids.Uuid, now: int, run: Run)
    returns (inv: Invocation, result: Result<string>)
    requires !run.outcome.TimedOut?
    modifies disk
    ensures inv == Invocation(Command(ffmpegPath), ["-y", "-i", UuidPath(outputDir, inputUuid, inputExtension),
                                                    UuidPath(outputDir, outputUuid, targetFormat)], 0)
    ensures Done(result, disk.files)
         == VideoOutcome(old(disk.files), inputExtension, targetFormat, outputDir, inputUuid, outputUuid, now, run)
  {
    var inputPath := UuidPath(outputDir, inputUuid, inputExtension);
    var outputPath := UuidPath(outputDir, outputUuid, targetFormat);
    disk.files := disk.files[inputPath := Entry(now, false)];
    inv := Invocation(Command(ffmpegPath), ["-y", "-i", inputPath, outputPath], 0);
    disk.files := disk.files + run.created;
    if !Succeeded(run.outcome) {
      disk.DeleteFile(inputPath);
      disk.DeleteFile(outputPath);
      return inv, Err(FailureMessage(run.outcome));
    }
    disk.DeleteFile(inputPath);
    return inv, Ok(outputPath);
  }
}
