# fileConverter: a Dafny model of the conversion backend and the upload page

This project models the core of a small web file converter.

The backend is an Express application. It accepts uploads, checks every file against a fixed table of legal (input format, output format) pairs, and hands each file to one of four adapters: LibreOffice, pdftoppm, sharp or ffmpeg. It registers each converted file under a fresh UUID. It serves a download once and then deletes it. A periodic sweeper removes old temporary files.

The frontend upload page keeps its own copy of the format table. It offers the targets common to all selected files.

Layout, one module per source file, plus small helper modules:

- `Validate` (validate.dfy): the format registry and request validation.
- `ConvertRoute` (convert_route.dfy): the converter dispatch and the batch route.
- `Storage` (storage.dfy): the result registry, a class over a `map`.
- `Download` (download.dfy): the download handler, as a state transition.
- `Fs` (fs.dfy) and `Cleanup` (cleanup.dfy): the directory and the sweeper.
- `Ids` (ids.dfy): the UUID-v4 check.
- `DocToPdf`, `PdfToImage`, `ImageToImage`, `VideoToVideo`: the four adapters.
- `FileConverter` (file_converter.dfy): the upload page.
- Helpers:
  - `Common`: Option, Result, NoDup.
  - `Text`: `toLowerCase` on ASCII letters only, `lastIndexOf`, `join`, number to string, and the default sort order.
  - `Paths`: `path.join` as plain concatenation with '/', without normalisation, and node's `extname`, `parse` and `basename` on '/'-separated paths.
  - `ChildProcess`: abstract process outcomes.

External effects are modelled as follows.

- **The filesystem** is a map from path to an entry. An entry holds the modification time in ms and whether the path is a directory. `Fs.Disk` is the mutable object holding that map.
- **Child processes** are abstract. A run is an `Outcome`:
  - `Exited(code, stderr)` for the 'close' event;
  - `SpawnFailed(errno, message)` for the 'error' event;
  - `TimedOut` when the adapter's timer fires first.

  Each run also lists the entries the tool wrote.
- **Values the source draws or reads** become parameters:
  - uuids (as `Ids.Uuid`, strings the validator accepts);
  - the current time;
  - readdir listings;
  - sharp's and archiver's success or failure;
  - environment variables.
- **Each file of a batch** has its adapter call and stat abstracted as an `AdapterRun`: produced output (path, size), threw an Error (message), or threw a non-Error.

The model follows the code where the upstream project's README describes it more loosely:

- For a file with an unknown extension, `validateFileType` reports the MIME mismatch first. The declared type would have to be application/octet-stream for "Unsupported file type" to appear (`Validate.UnsupportedExtensionRejected`).
- The sweeper lists only the top of `tmpDir`. Converted files live in `tmpDir/output` and are not swept.
- The page reads an extension with `split('.').pop()`. For a name without a dot that is the whole name, whereas the backend finds no extension (`FileConverter.ExtensionsAgree`).

## Model

The table lists every member whose contract states something about the source. The model functions without an `ensures` of their own are described by the lemma and method rows that cite the same lines:
- `ConvertRoute.Dispatch`, `DispatchAsWritten`, `ConvertFile` and `ConvertFileAsWritten`;
- `DocToPdf.DocToPdfOutcome` and `DocToPdfAsWritten`;
- `PdfToImage.PdfToImagesOutcome`, `PdfToImagesAsWritten`, `AfterSuccess`, `SelectPages` and `SelectPagesAsWritten`;
- `VideoToVideo.VideoOutcome`.

| member | source | states |
|---|---|---|
| Validate.ParseFormatName | backend/src/utils/validate.ts:8-11 | every format's name parses back to that format, so format names are distinct |
| Validate.ParseFormat | backend/src/utils/validate.ts:8-11 | a string that parses names the format it parses to |
| Validate.FormatNameInjective | backend/src/utils/validate.ts:8-11 | two formats have the same name iff they are the same format |
| Validate.FormatNameShape | backend/src/utils/validate.ts:8-11 | format names are non-empty, lower-case and contain no dot |
| Validate.FamiliesDisjoint | backend/src/utils/validate.ts:8-18 | each format belongs to exactly one of the four families |
| Validate.SupportedExtensionIff | backend/src/utils/validate.ts:146-153 | an extension is in the list of supported extensions iff it names a format |
| Validate.VideoPairsExact | backend/src/utils/validate.ts:57-61 | the generated video pairs are exactly the ordered pairs of distinct video formats, 20 of them, none repeated |
| Validate.VideoPairsSymmetric | backend/src/utils/validate.ts:57-61 | (a, b) is a video pair iff (b, a) is |
| Validate.NoSelfPairs | backend/src/utils/validate.ts:20-66 | no pair of CONVERSION_PAIRS has equal input and output |
| Validate.OutputsInTableOrder | backend/src/utils/validate.ts:20-66 | reading the table by input gives each format's target list, in table order |
| Validate.VideoTargets | backend/src/utils/validate.ts:57-61 | a video format's targets are the four other video formats |
| Validate.AnyPairMatches | backend/src/utils/validate.ts:123-125 | `some` over the pairs holds iff some pair has exactly those two names |
| Validate.IsValidConversionIff | backend/src/utils/validate.ts:122-126 | a conversion is legal iff both lower-cased extensions name formats whose pair is in the table |
| Validate.IsValidConversionCaseInsensitive | backend/src/utils/validate.ts:122-126 | legality does not depend on letter case |
| Validate.NeverValidToItself | backend/src/utils/validate.ts:57-61 | no extension converts to itself (mp4 to mp4 included) |
| Validate.UnknownFormatNeverValid | backend/src/utils/validate.ts:122-126 | a pair with an unknown format is illegal |
| Validate.AvailableIffValid | backend/src/utils/validate.ts:128-132 | o is listed as available for x iff converting x to o is legal |
| Validate.AvailableInTableOrder | backend/src/utils/validate.ts:128-132 | the available list is the target list in table order, [] for an unknown input |
| Validate.AvailableForDocx | backend/src/utils/validate.ts:128-132 | docx, in any case, offers exactly [pdf] |
| Validate.AvailableCaseInsensitive | backend/src/utils/validate.ts:128-132 | only the lower-cased input matters |
| Validate.AvailableForUnknown | backend/src/utils/validate.ts:128-132 | an unknown extension has no targets |
| Validate.GetFileExtensionSpec | backend/src/utils/validate.ts:87-96 | the extension is empty iff there is no dot or the name ends in one; otherwise it is the dot-free tail after the last dot |
| Validate.ExtensionIsLowerCase | backend/src/utils/validate.ts:87-96 | the extension is lower-case |
| Validate.MimeOf | backend/src/utils/validate.ts:100-118 | every format's MIME type differs from application/octet-stream |
| Validate.MimeTypeKnownIffSupported | backend/src/utils/validate.ts:98-120 | getMimeType falls back to octet-stream exactly for unsupported extensions |
| Validate.ValidateFileType | backend/src/utils/validate.ts:134-158 | valid iff no error; a valid result carries the file's extension |
| Validate.FileTypeValidIff | backend/src/utils/validate.ts:134-158 | valid iff the extension names a format and the declared MIME type is getMimeType's; a valid extension lies in one of the four families |
| Validate.FileTypeCheckOrder | backend/src/utils/validate.ts:138-155 | no-extension, then MIME mismatch, then unsupported: the first failing check decides the result |
| Validate.UnsupportedExtensionRejected | backend/src/utils/validate.ts:142-155 | an unsupported extension is rejected; "Unsupported file type" appears iff the declared type is octet-stream |
| Validate.ValidateFileSize | backend/src/utils/validate.ts:160-171 | a too-large verdict carries the size and the limit |
| Validate.FileSizeLimit | backend/src/utils/validate.ts:160-171 | exactly maxSizeMB MiB passes, one byte more fails, and anything smaller than an accepted size passes |
| Validate.ReplaceUnsafeSpec | backend/src/utils/validate.ts:176 | the length is kept and only [A-Za-z0-9.-] and '_' remain; exactly the characters that were neither safe nor '_' change; a clean name is a fixed point; replacing twice is replacing once |
| Validate.SanitizeShape | backend/src/utils/validate.ts:173-179 | the sanitised name uses only [A-Za-z0-9._-], has no "__" and no '_' at either end |
| Validate.SanitizeIdempotent | backend/src/utils/validate.ts:173-179 | sanitising twice equals sanitising once |
| Validate.FileErrorIff | backend/src/utils/validate.ts:194-205 | a file has no error iff its type is valid and its extension converts to the target |
| Validate.FileErrorsSpec | backend/src/utils/validate.ts:194-205 | at most one error per file; no errors iff every file passes its type and legality checks |
| Validate.RequestErrorsSpec | backend/src/utils/validate.ts:181-208 | exactly ["No files provided"] for no files, exactly ["Target format is required"] for no target, otherwise at most one error per file; no errors iff there are files and a target and every file passes |
| Validate.ValidateConversionRequest | backend/src/utils/validate.ts:181-208 | the loop collects exactly the request's errors, in file order; valid iff there are none |
| ConvertRoute.MimeForFormatAgrees | backend/src/routes/convert.ts:174-183 | getMimeTypeForFormat gives getMimeType's type on jpeg, jpg, png, webp and tiff, and octet-stream on every other string |
| ConvertRoute.DispatchAsWrittenCases | backend/src/routes/convert.ts:137-160 | each branch's call and MIME type follow from its own test alone, so the tests are exclusive; a pair outside the four families gets no adapter |
| ConvertRoute.ImageBranchMime | backend/src/routes/convert.ts:153-157 | the image branch records getMimeTypeForFormat(target) |
| ConvertRoute.VideoInputUnsupportedAsWritten | backend/src/routes/convert.ts:137-160 | as written, no video extension reaches an adapter |
| ConvertRoute.VideoPairCounterexample | backend/src/routes/convert.ts:137-160 | mp4 to mov is legal yet rejected by the chain as written |
| ConvertRoute.UpperCaseTargetUnsupportedAsWritten | backend/src/routes/convert.ts:137-160 | as written, a target with an upper-case letter matches no branch |
| ConvertRoute.UpperCaseTargetCounterexample | backend/src/routes/convert.ts:40-51 | docx to "PDF" passes validation yet is rejected by the chain as written |
| ConvertRoute.DispatchCoversLegal | backend/src/routes/convert.ts:137-160 | under the corrected dispatch, every legal pair reaches an adapter with the target's MIME type, and the video adapter serves exactly the video pairs |
| ConvertRoute.ConvertedNameMime | backend/src/routes/convert.ts:129-131 | getMimeType of the converted name is the target's MIME type, whatever the original name |
| ConvertRoute.ConvertedNameExtension | backend/src/routes/convert.ts:129-131 | getFileExtension reads the target back from the converted name |
| ConvertRoute.DispatchAgrees | backend/src/routes/convert.ts:137-160 | wherever the chain as written finds an adapter, the target is already lower-case and the corrected dispatch gives the same plan |
| ConvertRoute.ConvertFileAgrees | backend/src/routes/convert.ts:115-172 | convertFile as written equals the corrected one wherever the chain finds an adapter, and is "Unsupported conversion" whatever the run elsewhere |
| ConvertRoute.VideoFileCounterexample | backend/src/routes/convert.ts:115-172 | mp4 to mov with output produced: converted under the corrected convertFile, "Unsupported conversion: mp4 to mov" as written |
| ConvertRoute.LegalPairConverts | backend/src/routes/convert.ts:115-172 | a legal pair converts iff its adapter produced output; the result has that path and size, the sanitised base name plus the target, and the matching MIME type; a thrown Error gives its message, and a thrown non-Error gives "Conversion failed" |
| ConvertRoute.AcceptedIsLegal | backend/src/routes/convert.ts:45-51 | a file that passed validation has a lower-case extension forming a legal pair |
| ConvertRoute.Entries | backend/src/routes/convert.ts:65-98 | one entry per handled file, the k-th made from the k-th file |
| ConvertRoute.CountConverted | backend/src/routes/convert.ts:103 | the count is at most the number of entries, and equals it iff every entry has no error |
| ConvertRoute.FirstOversize | backend/src/routes/convert.ts:55-63 | None iff every file is within the limit; otherwise the verdict of the first file over it |
| ConvertRoute.Rejection | backend/src/routes/convert.ts:36-67 | a request-level rejection is never a batch response |
| ConvertRoute.Batch | backend/src/routes/convert.ts:100-104 | a batch response has success true and one result per file |
| ConvertRoute.HandleConvert | backend/src/routes/convert.ts:31-113 | the response is ConvertResponse's; the registry changes only for a batch, and then by registering every converted file |
| ConvertRoute.CheckSizes | backend/src/routes/convert.ts:55-63 | the size loop stops at the first oversize file |
| ConvertRoute.ConvertAll | backend/src/routes/convert.ts:65-98 | the loop's entries are Entries of all files and the registry is Register of all files: a failing file adds its entry and the loop goes on |
| ConvertRoute.ConvertAllStep | backend/src/routes/convert.ts:69-98 | one iteration appends that file's entry and stores its record |
| ConvertRoute.ConvertOne | backend/src/routes/convert.ts:70-97 | one file: its entry, and its record stored under its id only if it converted |
| ConvertRoute.RejectionNone | backend/src/routes/convert.ts:36-67 | the request reaches the batch iff it has files and a target, every file passes validation and the size limit, and the directory was created |
| ConvertRoute.BatchOnlyWhenAccepted | backend/src/routes/convert.ts:36-104 | a batch is answered iff no check rejected the request |
| ConvertRoute.AcceptedOutcome | backend/src/routes/convert.ts:69-97 | an accepted file's outcome is decided by its adapter run alone |
| ConvertRoute.AcceptedEntry | backend/src/routes/convert.ts:84-96 | an accepted file's entry is a success iff its adapter produced output, carrying the id and /api/download/id; otherwise a failure naming the file and the message |
| ConvertRoute.BatchEntries | backend/src/routes/convert.ts:65-104 | in an answered batch the k-th entry is the k-th file's, and every file passed validation |
| ConvertRoute.RegisterSpec | backend/src/routes/convert.ts:75-82 | with distinct ids, each converted file's record is under its id, a failed file adds nothing, and other keys keep their entries |
| ConvertRoute.RegisteredRecord | backend/src/routes/convert.ts:75-82 | the stored record holds the output path, the original name, the converted name, its MIME type and the time |
| ConvertRoute.ConvertedFileDownloadable | backend/src/routes/convert.ts:75-89 | after a batch, a converted file whose output is on disk is served at its id with its converted name and MIME type |
| ConvertRoute.ProducedCount | backend/src/routes/convert.ts:100-104 | at most the number of runs; equal to it iff every run produced, and 0 iff none did |
| ConvertRoute.CountMatches | backend/src/routes/convert.ts:103 | the count of error-free entries equals the produced count when the two agree entry by entry |
| ConvertRoute.CountedIffProduced | backend/src/routes/convert.ts:103 | an accepted file counts as converted iff its adapter produced output (absent an empty thrown message) |
| ConvertRoute.EntryCounted | backend/src/routes/convert.ts:103 | the same for the k-th entry of a batch |
| ConvertRoute.BatchCount | backend/src/routes/convert.ts:100-104 | the batch message counts the produced files out of all files |
| ConvertRoute.BatchMessageCounts | backend/src/routes/convert.ts:100-104 | the route's batch message is "Converted n of m files" with n the produced files |
| Storage.SizeAfterSet | backend/src/services/storage.ts:15-17 | set adds a key exactly when it was absent |
| Storage.SizeAfterDelete | backend/src/services/storage.ts:23-25 | delete removes a key exactly when it was present |
| Storage.StorageService.constructor | backend/src/services/storage.ts:12-13 | the registry starts empty |
| Storage.StorageService.Get | backend/src/services/storage.ts:19-21 | defined iff the id is stored, and then the stored result |
| Storage.StorageService.Has | backend/src/services/storage.ts:27-29 | has iff get is defined |
| Storage.StorageService.Size | backend/src/services/storage.ts:35-37 | the number of distinct ids |
| Storage.StorageService.Set | backend/src/services/storage.ts:15-17 | get(id) is the result afterwards, every other id reads as before, the size grows iff the id was new |
| Storage.StorageService.Delete | backend/src/services/storage.ts:23-25 | returns whether the id was present; afterwards it is absent, other ids unchanged, the size one less iff it was present |
| Storage.StorageService.Clear | backend/src/services/storage.ts:31-33 | nothing is stored afterwards and the size is 0 |
| Download.Disposition | backend/src/routes/download.ts:30 | the header is the attachment prefix, the name and a closing quote; the name can be read back |
| Download.DownloadStep | backend/src/routes/download.ts:9-64 | 400 iff the id is malformed, 404 "not found or expired" iff unknown, served iff the file is on disk (with the stored type, name and path, registry unchanged); only a stale entry is dropped, with 404 "not found on disk" |
| Download.StaleEntryHealed | backend/src/routes/download.ts:22-26 | after the stale entry is dropped, the next request reports the id as unknown |
| Download.AfterFinish | backend/src/routes/download.ts:45-55 | the delayed cleanup unlinks the file and then drops the entry; when unlink fails, the entry stays |
| Download.DownloadIsOneShot | backend/src/routes/download.ts:42-55 | after a served download is cleaned up, its file is gone and the id is unknown |
| Download.VanishedFileLeavesStaleEntry | backend/src/routes/download.ts:47-53 | if the file vanished before the timer, the entry survives and the next request drops it |
| Download.HandleDownload | backend/src/routes/download.ts:9-56 | the handler's response and registry are DownloadStep's |
| Download.FinishDownload | backend/src/routes/download.ts:47-54 | the timer callback leaves AfterFinish's registry and directory |
| Fs.AfterDelete | backend/src/utils/fs.ts:36-42 | deleteFile removes exactly the path when it is an existing non-directory and touches nothing else |
| Fs.DeleteFileIdempotent | backend/src/utils/fs.ts:36-42 | deleting twice is deleting once |
| Fs.ListFilesInDirectory | backend/src/utils/fs.ts:60-67 | readdir's names, or [] when readdir fails |
| Fs.GenerateUniqueFilename | backend/src/utils/fs.ts:13-17 | the name starts with the uuid |
| Fs.ExtNameIsExtension | backend/src/utils/fs.ts:15 | extname is empty or a dot followed by no dot and no '/' |
| Fs.UniqueFilenameExtension | backend/src/utils/fs.ts:13-17 | extname of the unique name is the given extension, or else the original's extname |
| Fs.UniqueFilenamesDiffer | backend/src/utils/fs.ts:13-20 | names (and joined paths) built from different uuids differ |
| Fs.SweepOnlyRemoves | backend/src/utils/fs.ts:69-91 | the sweep only removes entries; survivors keep their stats |
| Fs.SweepCountsRemovals | backend/src/utils/fs.ts:70-90 | the returned count is the number of entries removed |
| Fs.SweepRemovesOnlyExpiredListed | backend/src/utils/fs.ts:75-85 | whatever is removed was listed, strictly older than the limit and not a directory |
| Fs.SweepKeepsYoung | backend/src/utils/fs.ts:81 | an entry not older than the limit survives, one exactly at it included |
| Fs.SweepKeepsUnlisted | backend/src/utils/fs.ts:75-85 | paths outside the listing are untouched |
| Fs.SweepRemovesAllExpired | backend/src/utils/fs.ts:77-85 | a sweep that meets no error removes every listed expired entry |
| Fs.SweepAppend | backend/src/utils/fs.ts:74-88 | an error ends the sweep; without one, sweeping a + b sweeps b after a and adds the counts |
| Fs.Disk.constructor | backend/src/utils/fs.ts:1-3 | the directory holds the given entries |
| Fs.Disk.FileExists | backend/src/utils/fs.ts:27-34 | true iff the path exists |
| Fs.Disk.Unlink | backend/src/utils/fs.ts:38 | succeeds iff the path is an existing non-directory, and then removes it only |
| Fs.Disk.DeleteFile | backend/src/utils/fs.ts:36-42 | the directory becomes AfterDelete's; nothing is thrown |
| Fs.Disk.CleanupOldFiles | backend/src/utils/fs.ts:69-91 | the loop leaves the sweep's directory and returns its count; it never throws |
| Cleanup.CleanupService.constructor | backend/src/services/cleanup.ts:8-11 | stopped; maxAgeMinutes is the argument, or 30 when it is absent |
| Cleanup.CleanupService.RunCleanup | backend/src/services/cleanup.ts:37-46 | one sweep of tmpDir; nothing escapes |
| Cleanup.CleanupService.Start | backend/src/services/cleanup.ts:13-27 | a no-op while running; otherwise one sweep, then the 600000 ms interval; running afterwards |
| Cleanup.CleanupService.Stop | backend/src/services/cleanup.ts:29-35 | stopped afterwards; stopping twice is harmless |
| Cleanup.CleanupService.Tick | backend/src/services/cleanup.ts:24-26 | one firing sweeps while running; after stop nothing is deleted |
| Ids.NilId | backend/src/utils/ids.ts:11-14 | the all-zero version-4 id is accepted |
| Ids.ValidIdIsPlainStem | backend/src/utils/ids.ts:13 | an accepted id has length 36 and holds no '.' or '/' |
| Ids.GroupsAccepted | backend/src/utils/ids.ts:13 | any five groups of hex digits of lengths 8-4-4-4-12, the third starting with 4 and the fourth with 8, 9, a or b, joined by dashes, are accepted |
| Ids.AcceptedIsGroups | backend/src/utils/ids.ts:13 | every accepted id is such five groups joined by dashes: length 36, third group starting with '4', fourth with 8/9/a/b in either case |
| Ids.ValidIdCaseInsensitive | backend/src/utils/ids.ts:13-14 | an id is accepted iff its lower-cased form is |
| ChildProcess.CodeTextInjective | backend/src/services/convert/docToPdf.ts:69 | the rendered `${code}` determines the code: distinct exit codes, and a missing one ("null"), give distinct texts |
| ChildProcess.EffectiveTimeout | backend/src/services/convert/docToPdf.ts:27 | the timeout when given and non-zero, else 30000 |
| ChildProcess.ToolAvailable | backend/src/services/convert/pdfToImage.ts:156-170 | available iff the probe exits 0; a spawn error means unavailable |
| DocToPdf.ExpectedOutputIsUuidPdf | backend/src/services/convert/docToPdf.ts:74 | soffice's expected output for the temporary input is the input's uuid with ".pdf" |
| DocToPdf.OutcomeSpec | backend/src/services/convert/docToPdf.ts:57-98 | spawn error, timeout, non-zero exit and missing output each reject with their messages; a failing renameSync rejects with its message and leaves the output where soffice wrote it; otherwise the expected output is renamed to the returned path |
| DocToPdf.InputAlwaysRemoved | backend/src/services/convert/docToPdf.ts:57-65 | the temporary input never survives the call |
| DocToPdf.InputLeftBehindAsWritten | backend/src/services/convert/docToPdf.ts:24-44 | as written the call rejects with the `process` initialisation error and the temporary input stays on disk, where a soffice run that wrote the PDF resolves to the output and removes the input under the intended spawn |
| DocToPdf.BuildInvocation | backend/src/services/convert/docToPdf.ts:27-37 | soffice --headless --convert-to pdf --outdir dir input, with the effective timeout |
| DocToPdf.ConvertDocToPdf | backend/src/services/convert/docToPdf.ts:9-100 | the invocation above, and the result and directory of DocToPdfOutcome |
| DocToPdf.CheckLibreOfficeAvailable | backend/src/services/convert/docToPdf.ts:102-116 | true iff `soffice --version` exits 0 |
| PdfToImage.EffectiveDpi | backend/src/services/convert/pdfToImage.ts:35 | the dpi when given and non-zero, else 150 |
| PdfToImage.BuildInvocation | backend/src/services/convert/pdfToImage.ts:29-46 | pdftoppm -r dpi -f 1 -l 999 input prefix, then -jpeg or -png, with the effective timeout |
| PdfToImage.FilterPages | backend/src/services/convert/pdfToImage.ts:85-86 | the kept names are exactly the listed names with the given prefix and extension, none added, none repeated more often than listed |
| PdfToImage.SelectPagesSpec | backend/src/services/convert/pdfToImage.ts:84-87 | the selected pages are sorted and are exactly the listed page files of this call's prefix with the extension pdftoppm writes, each as often as listed |
| PdfToImage.JpegPageRejectedAsWritten | backend/src/services/convert/pdfToImage.ts:42-86 | with -jpeg, the filter as written rejects every page file pdftoppm writes |
| PdfToImage.OnePageJpegCounterexample | backend/src/services/convert/pdfToImage.ts:86-90 | the one page of a JPEG run is not selected as written, and the page a call with its own prefix writes is selected under the corrected filter |
| PdfToImage.SharedPagesAsWritten | backend/src/services/convert/pdfToImage.ts:84-107 | as written, a second one-page call resolves to the path the first call resolved to, and a second two-page call resolves to its archive and deletes the first call's page |
| PdfToImage.OtherCallsPageRejected | backend/src/services/convert/pdfToImage.ts:22 | a page written under another call's prefix never passes this call's filter |
| PdfToImage.OtherCallsPagesKept | backend/src/services/convert/pdfToImage.ts:84-107 | with per-call prefixes, a page another call wrote is still on disk, unchanged, after this call, and this call never resolves to it |
| PdfToImage.DeleteAll | backend/src/services/convert/pdfToImage.ts:106-108 | the clean-up loop removes exactly the listed non-directories |
| PdfToImage.InputLeftBehindAsWritten | backend/src/services/convert/pdfToImage.ts:26-53 | as written the call rejects with the `process` initialisation error and the temporary input stays on disk, where a one-page run resolves to that page and removes the input under the intended spawn |
| PdfToImage.InputAlwaysRemoved | backend/src/services/convert/pdfToImage.ts:66-75 | the temporary input never survives the call |
| PdfToImage.OutcomeSpec | backend/src/services/convert/pdfToImage.ts:66-126 | spawn error, timeout and non-zero exit reject with their messages; after exit 0, a failing readdirSync rejects with its message, no page rejects, one page resolves to it, several reject with createZipFile's message when it fails and otherwise resolve to the zip, which is on disk while no page file is left |
| PdfToImage.ArchiveIsNoPage | backend/src/services/convert/pdfToImage.ts:100-107 | the archive's path is none of the page paths the clean-up loop deletes |
| PdfToImage.ConvertPdfToImages | backend/src/services/convert/pdfToImage.ts:13-128 | the invocation above with the call's own page prefix, and the result and directory of PdfToImagesOutcome |
| PdfToImage.FinishSuccess | backend/src/services/convert/pdfToImage.ts:82-114 | the success path of the close handler leaves AfterSuccess's result and directory |
| PdfToImage.CheckPopplerAvailable | backend/src/services/convert/pdfToImage.ts:156-170 | true iff `pdftoppm -v` exits 0 |
| ImageToImage.DefaultQuality | backend/src/services/convert/imageToImage.ts:70-84 | 90 for tiff, 80 for every other format, unknown ones included |
| ImageToImage.EffectiveQuality | backend/src/services/convert/imageToImage.ts:26 | the given quality when truthy, else the default, so 0 falls back |
| ImageToImage.EncoderFor | backend/src/services/convert/imageToImage.ts:37-65 | an encoder exists iff the lower-cased format is jpeg, jpg, png, webp or tiff; jpeg and jpg share the jpeg encoder, and png, webp and tiff each select their own encoder and only for that name |
| ImageToImage.EncoderCaseInsensitive | backend/src/services/convert/imageToImage.ts:37-71 | the switch and the default quality ignore letter case |
| ImageToImage.ConvertImageToImage | backend/src/services/convert/imageToImage.ts:11-68 | an unknown format throws "Unsupported output format" and writes nothing; otherwise the pipeline has the chosen encoder and quality, a resize iff width or height is truthy, and the output path under outputDir is written unless encoding fails |
| VideoToVideo.Command | backend/src/services/convert/videoToVideo.ts:24 | FFMPEG_PATH when set and non-empty, else "ffmpeg" |
| VideoToVideo.FailureMessage | backend/src/services/convert/videoToVideo.ts:41-57 | ENOENT becomes "FFmpeg binary not found..."; other spawn errors pass through; a non-zero exit reports the code and stderr |
| VideoToVideo.CleanupOnEveryPath | backend/src/services/convert/videoToVideo.ts:41-62 | the input never survives; success resolves to the output and keeps it; failure rejects and removes the output |
| VideoToVideo.ConvertVideoToFormat | backend/src/services/convert/videoToVideo.ts:8-63 | ffmpeg -y -i input output, with names from fresh uuids, and VideoOutcome's result and directory |
| FileConverter.Remove | frontend/src/components/FileConverter.tsx:122 | the filter keeps exactly the elements different from the value |
| FileConverter.TargetsMatch | frontend/src/components/FileConverter.tsx:105-125 | for every format name, the page's list is the backend's target list, in the same order |
| FileConverter.UnknownOffersNothing | frontend/src/components/FileConverter.tsx:121-124 | a string that names no format is offered nothing |
| FileConverter.AgreesWithBackend | frontend/src/components/FileConverter.tsx:105-125 | for every lower-case extension, getAvailableFormats equals getAvailableOutputFormats |
| FileConverter.OfferedIffValid | frontend/src/components/FileConverter.tsx:105-125 | a lower-case o is offered for x iff the backend accepts converting x to o |
| FileConverter.VideoOffersOthers | frontend/src/components/FileConverter.tsx:121-123 | a video input offers the four other video formats, never itself |
| FileConverter.NeverOffersItself | frontend/src/components/FileConverter.tsx:105-125 | no input is offered as its own target |
| FileConverter.SplitExtension | frontend/src/components/FileConverter.tsx:131 | the page's extension is lower-case and contains no dot |
| FileConverter.ExtensionsAgree | frontend/src/components/FileConverter.tsx:131 | for a name with a dot, the page's extension is getFileExtension's; for a name without one, the page takes the whole name |
| FileConverter.KeepIn | frontend/src/components/FileConverter.tsx:137 | the filter keeps exactly the accumulator's elements found in the list |
| FileConverter.KeepCommon | frontend/src/components/FileConverter.tsx:135-139 | the reference intersection: the first list's elements found in every list |
| FileConverter.IntersectIsKeepCommon | frontend/src/components/FileConverter.tsx:136-139 | the reduce computes the reference intersection |
| FileConverter.CommonFormatsSpec | frontend/src/components/FileConverter.tsx:127-140 | [] for no files; otherwise the first file's list cut down to the formats every file offers, in its order |
| FileConverter.CommonFormatsAreValid | frontend/src/components/FileConverter.tsx:127-140 | every common format is one the backend accepts for every selected file with a dot in its name |
| FileConverter.WithoutId | frontend/src/components/FileConverter.tsx:97 | exactly the files with another id are kept |
| FileConverter.WithoutIdConcat | frontend/src/components/FileConverter.tsx:97 | the survivors keep their order |
| FileConverter.FindId | frontend/src/components/FileConverter.tsx:93 | none iff no file has the id; otherwise a file with the id that no earlier file's id equals, that is the first match |
| FileConverter.WithoutAbsentId | frontend/src/components/FileConverter.tsx:91-98 | removing an id no file has changes nothing |
| FileConverter.WithoutIdIdempotent | frontend/src/components/FileConverter.tsx:91-98 | removing the same id twice is removing it once |
| FileConverter.AutoTargetIsValid | frontend/src/components/FileConverter.tsx:28-38 | whenever the page picks a target for a dotted first file (its extension offers something), the picked target is a conversion the backend accepts for that file, also when it equals the previous target |
| FileConverter.OfferedLowerCase | frontend/src/components/FileConverter.tsx:105-125 | every offered format is lower-case |
| FileConverter.Page.constructor | frontend/src/components/FileConverter.tsx:11-15 | the initial state: no files, no target, not converting, no results, no error |
| FileConverter.Page.OnDrop | frontend/src/components/FileConverter.tsx:17-39 | the dropped files are appended, the error is cleared, and the target is auto-selected only when the list was empty |
| FileConverter.Page.HandleConvert | frontend/src/components/FileConverter.tsx:64-89 | with no files or no target it only sets the guard error and sends nothing; otherwise it sends the names and target, then applies success, failure or a thrown error, and ends not converting |
| FileConverter.Page.HandleRemoveFile | frontend/src/components/FileConverter.tsx:91-98 | the files become WithoutId; the first match's preview is revoked; nothing else changes |
| FileConverter.Page.HandleClearResults | frontend/src/components/FileConverter.tsx:101-103 | the results are emptied; nothing else changes |

## Left out

- backend/src/services/convert/imageToPdf.ts: the route's image-to-pdf branch is modelled only as the choice of `convertSingleImageToPdf`. Its outcome is an abstract `AdapterRun`, because the page-fit arithmetic is floating point over pdfkit.
- `MIME_TYPES` (validate.ts:68-85) is used by no modelled function.
- `ensureDirectoryExists`, `writeFile`, `readFile`, `deleteDirectory` and `getFileStats` are not modelled. They are plain I/O wrappers; a failure of the route's tmpDir creation is the input `tmpDirError`.
- `generateId`, `generateShortId`, the frontend's `Math.random` ids and the preview URLs: these are random or browser-assigned, so they are parameters.
- `getImageMetadata` (imageToImage.ts:86-100) is not modelled. It only forwards sharp's metadata.
- `createZipFile` and the archive's content are not modelled. Only its success or failure is an input, and a partially written zip on failure is not represented.
- Child processes are abstract outcomes, so the following are not modelled:
  - stdout and stderr streaming (stderr arrives whole);
  - SIGTERM delivery;
  - the race between the timer and 'close' (the first settlement wins).
- The default pdftoppm `quality` option is passed but never used by the source, and it is not modelled further.
- Timers: `setInterval`'s period and `setTimeout`'s 5 s delay are constants, and firings are explicit calls (`Cleanup.CleanupService.Tick`, `Download.FinishDownload`).
- The file stream of a download is not modelled. Its error path (500 "Failed to read file") and the outer 500 catch of download.ts are not modelled either.
- Multer's limits (10 files, `MAX_FILE_SIZE_MB` bytes), its in-memory buffers and the parsing of `MAX_FILE_SIZE_MB`/`TMP_DIR` are not modelled; `maxSizeMB` and the directory outcome are parameters.
- The text of the size error (`toFixed(2)` of the size in MB) is floating point. `SizeTooLarge(size, maxSizeMB)` carries its inputs instead.
- pdftoppm's zero-padding of page numbers for long documents is not modelled. Page names are unpadded.
- The route's `convertFile` calls `ensureDirectoryExists(outputDir)` before dispatching. A failure there would be reported ahead of "Unsupported conversion"; the model folds it into the per-file run.
- One `now` is used for every record of a batch.
- The lookups `mimeMap[x]` and `formatMap[x]` on a plain object would also find inherited keys such as "constructor". The model treats both as exact maps.
- React rendering, the dropzone `accept` list, the intermediate `isConverting = true` state and each file's `status` field (always 'ready') are not modelled.
- frontend/src/services/api.ts is not part of this model. Its reply is the input `ApiReply`.
- FileConverter.AgreesWithBackend: stated for lower-case extensions only. Every call site lower-cases the extension first; the page's map lookup is case-sensitive while the backend's is not.
- ConvertRoute.BatchMessageCounts: requires that no adapter threw an Error with an empty message. Such a failure has a falsy `error` and is counted as converted, which `Counted` models. It also counts under the corrected convertFile: as written, a produced video file or a file with an upper-case target is not counted.
- `path.join` normalisation is not modelled. `Paths.Join` is `dir + "/" + name`, so `path.join("a/", "b")` gives "a//b" in the model rather than "a/b". The two agree only when the directory is non-empty and already normal (no trailing slash, no doubled slash, no '.' or '..' segment) and the name is a single component other than '.' and '..'.
- The exported `cleanupService` singleton (cleanup.ts:50-53) is not modelled. It reads `TMP_DIR` and `parseInt(CLEANUP_MAX_AGE_MINUTES || '30')`. A non-numeric value gives NaN, and then no file is ever older than the limit, so every sweep deletes nothing. `Cleanup.CleanupService` takes the maximum age as an integer.
- `toLowerCase` lower-cases ASCII letters only. JavaScript also maps other characters: "m\u212Av" with a KELVIN SIGN lower-cases to "mkv" and is accepted, whereas the model rejects it.
- How the executors of the pdf-producing adapters fail depends on the build target: under an ES2015+ target V8 throws a ReferenceError with the message `ChildProcess.ProcessUninitializedError`; an ES5 build, where `const` becomes `var`, throws a TypeError on `undefined.env` instead. The message matters only for the text of the failure entry.
- ConvertRoute.ConvertFile: the corrected convertFile, with the target lower-cased and a video branch. `ConvertRoute.ConvertFileAsWritten` is the source as written; the two agree wherever the chain as written finds an adapter (`ConvertRoute.ConvertFileAgrees`). Elsewhere, as written, the file fails with "Unsupported conversion" whatever its adapter would produce.
- ConvertRoute.HandleConvert: answers the batch with the corrected convertFile. As written, a legal video pair or an upper-case target yields a failure entry "Unsupported conversion: …" and registers nothing for that file. Every other response, rejection and registration is as written.
- ConvertRoute.ConvertAll: the loop runs the corrected convertFile on each file, with the difference described for ConvertRoute.ConvertFile.
- ConvertRoute.ConvertOne: gives the corrected outcome for the file; as written, a video pair or an upper-case target is "Unsupported conversion".
- ConvertRoute.LegalPairConverts: holds of the corrected convertFile. As written it holds exactly on the pairs the chain finds an adapter for (`ConvertRoute.ConvertFileAgrees`), which exclude video pairs and upper-case targets.
- ConvertRoute.AcceptedOutcome: holds under the corrected convertFile; as written, an accepted video pair or upper-case target fails whatever its run.
- ConvertRoute.AcceptedEntry: as for AcceptedOutcome. As written, such a file's entry is a failure "Unsupported conversion".
- ConvertRoute.BatchEntries: holds under the corrected convertFile. As written, an answered batch can report a legal video pair as an unsupported conversion.
- ConvertRoute.RegisteredRecord: a produced run is registered under the corrected convertFile; as written, a video pair or upper-case target run is never registered.
- ConvertRoute.ConvertedFileDownloadable: holds under the corrected convertFile. As written, the file of a video pair is never registered, so it cannot be downloaded.
- ConvertRoute.CountedIffProduced: holds under the corrected convertFile. As written, a produced video or upper-case-target run is not counted.
- ConvertRoute.EntryCounted: as for CountedIffProduced, for the k-th entry of a batch.
- ConvertRoute.BatchCount: counts the produced runs under the corrected convertFile. As written, the count omits produced video and upper-case-target runs.
- DocToPdf.ConvertDocToPdf: models the call as intended, with soffice spawned. As written, the executor throws before spawning; `DocToPdf.DocToPdfAsWritten` and `DocToPdf.InputLeftBehindAsWritten` model that case (see Findings).
- DocToPdf.OutcomeSpec: describes the intended call; as written, every call rejects with the `process` initialisation error.
- DocToPdf.InputAlwaysRemoved: holds of the intended call. As written, the temporary input stays on disk (`DocToPdf.InputLeftBehindAsWritten`).
- PdfToImage.ConvertPdfToImages: models the call as intended, with pdftoppm spawned. As written, the executor throws before spawning; `PdfToImage.PdfToImagesAsWritten` and `PdfToImage.InputLeftBehindAsWritten` model that case (see Findings).
- PdfToImage.ConvertPdfToImages, PdfToImage.AfterSuccess and PdfToImage.FinishSuccess: they name the pages with the per-call prefix `page-<inputUuid>` instead of the shared `page` (see Findings). `listing` is an input and is not derived from the directory map. So the model does not show which pages of earlier calls a listing holds; the isolation between calls is stated on page names (`PdfToImage.OtherCallsPagesKept`).
- The route's `AdapterRun` outputs are inputs, so the model does not promise that two files of one batch get distinct output paths.
- PdfToImage.OutcomeSpec: describes the intended call; as written, every call rejects with the `process` initialisation error.
- PdfToImage.InputAlwaysRemoved: holds of the intended call. As written, the temporary input stays on disk (`PdfToImage.InputLeftBehindAsWritten`).
- FileConverter.Page.HandleConvert: treats the request and its reply as one atomic update. In the source, the closure sends the `files` of the render it was created in, and `setFiles([])` afterwards also clears files dropped while the request was pending. That interleaving is concurrency and is not modelled.

## Findings

| source | as written | input that shows it | evidently intended | confidence | as-written member | corrected member |
|---|---|---|---|---|---|---|
| backend/src/routes/convert.ts:137-160 | the dispatch chain has no video branch, so legal video pairs throw "Unsupported conversion" | a file `a.mp4` with target `mov` | video pairs go to `convertVideoToFormat` | not executed | ConvertRoute.VideoPairCounterexample | ConvertRoute.DispatchCoversLegal |
| backend/src/routes/convert.ts:131-160 | the chain compares `targetFormat` case-sensitively, although validation lower-cases it | a file `a.docx` with target `PDF` | the target is lower-cased before dispatch and naming | not executed | ConvertRoute.UpperCaseTargetCounterexample | ConvertRoute.DispatchCoversLegal |
| backend/src/services/convert/docToPdf.ts:41-43 | `const process = spawn(…, { env: { ...process.env } })` reads `process` inside its own initialiser, so the executor throws before soffice is spawned: the promise rejects and the input written at line 24 is never removed | any call, e.g. a docx whose soffice run would write the PDF | read the environment from the global `process`, with the child under another name (as videoToVideo.ts:29 does) | not executed | DocToPdf.InputLeftBehindAsWritten | DocToPdf.InputAlwaysRemoved |
| backend/src/services/convert/pdfToImage.ts:50-52 | the same `const process` initialiser: the executor throws before pdftoppm is spawned, the promise rejects and the input written at line 26 stays | any call, e.g. a one-page PDF | as above | not executed | PdfToImage.InputLeftBehindAsWritten | PdfToImage.InputAlwaysRemoved |
| backend/src/services/convert/pdfToImage.ts:86 | page files are filtered by ".jpeg", but `pdftoppm -jpeg` writes ".jpg" files; this code is reached only once the initialiser error of the row above is corrected | a one-page PDF converted to jpeg: the listing `page-1.jpg` gives "No images were generated" | filter on the extension pdftoppm writes | not executed | PdfToImage.OnePageJpegCounterexample | PdfToImage.SelectPagesSpec |
| backend/src/services/convert/pdfToImage.ts:22 | every call writes its pages under the one prefix `page`, in the `tmp/output` directory that every request shares (convert.ts:126), and the close handler takes every `page*` file it lists, whichever call wrote it; this code is reached only once the initialiser error is corrected | a one-page PDF resolves to `page-1.png` and is registered for download; a second one-page PDF resolves to the same path, and a two-page PDF converted before the first download zips `page-1.png` with its own page and deletes it, so the first download answers 404 | a page prefix of each call's own, such as `page-<uuid>`, and a filter on it | not executed | PdfToImage.SharedPagesAsWritten | PdfToImage.OtherCallsPagesKept |

The rest of the model uses the corrected definitions:

- `ConvertRoute.Dispatch` and `ConvertRoute.ConvertFile`, with the target lower-cased and a video branch;
- `PdfToImage.SelectPages`, with the call's own page prefix `PdfToImage.CallPrefix` and the extension pdftoppm writes;
- the spawning outcomes `DocToPdf.DocToPdfOutcome` and `PdfToImage.PdfToImagesOutcome`.

Wherever the chain as written finds an adapter, the target is already lower-case and the corrected dispatch gives the same plan (`ConvertRoute.DispatchAgrees`). convertFile then gives the same result (`ConvertRoute.ConvertFileAgrees`).
