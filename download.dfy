/** The GET /api/download/:id handler of backend/src/routes/download.ts, as a state
    transition over the result registry and the directory. Streaming, the 5-second
    timer and the response object are not modelled: a served download returns what the
    headers say, and FinishDownload is the timer's callback, run when it fires. */
module Download {
  import opened Storage
  import opened Fs
  import Ids

  const InvalidIdError := "Invalid file ID"
  const NotFoundError := "File not found or expired"
  const NotOnDiskError := "File not found on disk"

  /** The delay between the end of the stream and the deletion of the file and its entry. */
  const DeleteDelayMs := 5000

  datatype Response =
    | JsonError(status: nat, error: string)
    | Attachment(contentType: string, disposition: string, filePath: string)

  const DispositionPrefix := "attachment; filename=\""

  /** The Content-Disposition header naming the download `name`; the name can be read back
      from between the prefix and the closing quote. */
  function Disposition(name: string): (r: string)
    ensures |r| == |DispositionPrefix| + |name| + 1
    ensures r[..|DispositionPrefix|] == DispositionPrefix && r[|r| - 1] == '"'
    ensures r[|DispositionPrefix|..|r| - 1] == name
  {
    DispositionPrefix + name + "\""
  }

  /** The response of one request and the registry it leaves. */
  datatype Step = Step(response: Response, registry: Registry)

  /** The handler's checks in order: the id's shape (400), the registry lookup (404), the file's
      presence on disk (404, dropping the stale entry); otherwise the file is served. Only
      the requested entry can disappear, and only when its file is gone; a served response
      carries the stored content type, file name and path. */
  function DownloadStep(registry: Registry, files: Files, id: string): (s: Step)
    ensures s.registry == registry || s.registry == registry - {id}
    ensures s.registry != registry ==> id in registry && registry[id].filePath !in files && s.response == JsonError(404, NotOnDiskError)
    ensures s.response == JsonError(400, InvalidIdError) <==> !Ids.IsValidId(id)
    ensures s.response == JsonError(404, NotFoundError) <==> Ids.IsValidId(id) && id !in registry
    ensures s.response.Attachment? <==> Ids.IsValidId(id) && id in registry && registry[id].filePath in files
    ensures s.response.Attachment? ==>
      && s.registry == registry
      && s.response == Attachment(registry[id].mimeType, Disposition(registry[id].convertedName), registry[id].filePath)
  {
    if !Ids.IsValidId(id) then Step(JsonError(400, InvalidIdError), registry)
    else if id !in registry then Step(JsonError(404, NotFoundError), registry)
    else
      var result := registry[id];
      if result.filePath !in files then Step(JsonError(404, NotOnDiskError), registry - {id})
      else Step(Attachment(result.mimeType, Disposition(result.convertedName), result.filePath), registry)
  }

  /** A stale entry is removed on the first request, so the next request for the id
      reports it as unknown. */
  lemma StaleEntryHealed(registry: Registry, files: Files, id: string)
    requires Ids.IsValidId(id) && id in registry && registry[id].filePath !in files
    ensures var s := DownloadStep(registry, files, id);
      s.response == JsonError(404, NotOnDiskError) &&
      DownloadStep(s.registry, files, id) == Step(JsonError(404, NotFoundError), s.registry)
  {
  }

  /** The registry and the directory after the delayed cleanup of a served download:
      unlinkSync first, then the entry; when unlinkSync throws, the entry stays. */
  function AfterFinish(registry: Registry, files: Files, id: string, filePath: string): (r: (Registry, Files))
    ensures r.1 == (if Unlinkable(files, filePath) then files - {filePath} else files)
    ensures r.0 == registry || (Unlinkable(files, filePath) && r.0 == registry - {id})
    ensures r.0 == registry ==> r.1 == files || id !in registry
  {
    if Unlinkable(files, filePath) then (registry - {id}, files - {filePath}) else (registry, files)
  }

  /** Once a served download has been cleaned up, the id is unknown and its file gone. */
  lemma DownloadIsOneShot(registry: Registry, files: Files, id: string)
    requires DownloadStep(registry, files, id).response.Attachment?
    requires !files[registry[id].filePath].isDir
    ensures var after := AfterFinish(registry, files, id, registry[id].filePath);
      && registry[id].filePath !in after.1
      && DownloadStep(after.0, after.1, id).response == JsonError(404, NotFoundError)
  {
  }

  /** When the file of an entry vanished before the timer fired (the sweeper got there first),
      the unlink throws and the entry survives, and the next request drops it as stale. */
  lemma VanishedFileLeavesStaleEntry(registry: Registry, files: Files, id: string, filePath: string)
    requires Ids.IsValidId(id) && id in registry && registry[id].filePath == filePath && filePath !in files
    ensures AfterFinish(registry, files, id, filePath) == (registry, files)
    ensures DownloadStep(registry, files, id) == Step(JsonError(404, NotOnDiskError), registry - {id})
  {
  }

  /** router.get('/:id'): the decision sequence against the live registry and directory. */
  method HandleDownload(storage: StorageService, disk: Disk, id: string) returns (resp: Response)
    modifies storage
    ensures var s := DownloadStep(old(storage.results), disk.files, id);
      resp == s.response && storage.results == s.registry
  {
    if !Ids.IsValidId(id) {
      return JsonError(400, InvalidIdError);
    }
    var result := storage.Get(id);
    if result.None? {
      return JsonError(404, NotFoundError);
    }
    var onDisk := disk.FileExists(result.value.filePath);
    if !onDisk {
      var _ := storage.Delete(id);
      return JsonError(404, NotOnDiskError);
    }
    resp := Attachment(result.value.mimeType, Disposition(result.value.convertedName), result.value.filePath);
  }

  /** The callback scheduled DeleteDelayMs after the stream ends: unlink the file, then drop
      the entry; an unlink error is only logged, and then the entry is kept. */
  method FinishDownload(storage: StorageService, disk: Disk, id: string, filePath: string)
    modifies storage, disk
    ensures (storage.results, disk.files) == AfterFinish(old(storage.results), old(disk.files), id, filePath)
  {
    var unlinked := disk.Unlink(filePath);
    if unlinked {
      var _ := storage.Delete(id);
    }
  }
}
