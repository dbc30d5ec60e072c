# A verified model of the archive-digitisation scripts

The repository is a set of batch scripts for digitising a colonial-era
archive. This project models three of them in Dafny and proves what they do:

- **`src/cmd/pdf2img.py`** (module `Pdf2Img`). It writes every image
  embedded in a PDF to `<folder>/page_PPP_img_III.<ext>`. Page and image are
  numbered from 1 and zero-padded to three digits. The folder is the PDF's
  path without its extension.
  - One write per (page, image) pair, in loop order.
  - No two writes share a path.
  - Up to 999, the names sort in (page, image) order. That is the order the
    transcriber's `sorted(os.listdir(...))` relies on.
- **`src/cmd/transcribe.py`** (module `Transcribe`). It loads the `.jpg` and
  `.jpeg` photos of a reference directory and a work directory in sorted
  order. It then repeatedly asks a vision model to transcribe the first work
  photo that has no `<stem>.txt` yet, and saves the answer there.
  - Each request sends the instruction, one example per reference photo (its
    mandatory `<stem>_annotation.txt`), and a trimmed tail of the work done so
    far.
  - The model covers the photo record and its companion paths, the four
    message builders, the chunker `_images_to_messages`, `_load_images`,
    `_make_system_messages`, `_transcribe_images` and the `main` loop.
  - The `main` loop ends on the "All images have been transcribed" error.
  - The model proves: exactly which messages are sent; that each pass writes
    one new transcription file; and, when every reference photo's annotation
    exists and is non-empty, that a run ends on "All images have been
    transcribed" after one pass per pending transcription file
    (`Transcribe.RunEndsWithUsableReferences`); and that the passes take the
    work photos in their sorted order, so a restarted run resumes with the
    first untranscribed photo and goes on in order (`Transcribe.RunInOrder`).
- **`src/cmd/uploader.py`** (module `Uploader`). It mirrors the `.txt` files
  of the archive into Google Drive as Docs, one Drive folder per local folder.
  - A mapping file holds two tables, `folders` and `files`, from local
    relative path to Drive ID, so that nothing is created twice.
  - The functions `EnsureFolder`, `EnsureDoc` and `UploadDocs` state on
    values what `create_folder_if_not_exists`, `create_doc_if_not_exists` and
    the walk in `main` do.
  - The methods act on three objects, classes whose fields the methods
    update:
    - `DriveService`: a counter that hands out fresh IDs and records each
      create request;
    - `Mapping`: the in-memory dictionary;
    - `MappingFile`: the saved snapshot.
  - The methods are proved to leave exactly the state those functions give.
  - The lemmas prove that:
    - ancestor folders are created first, under their parents;
    - one create request is made per unmapped folder;
    - entries are never overwritten;
    - every operation is idempotent;
    - a second run creates nothing;
    - the file is saved after every creation.

Shared modules:

- `Strings`: `str.endswith`, `str.lower`, Python's `str` order, `str(n)`
  and `:03d` formatting.
- `Sorting`: `sorted` and list filtering.
- `PosixPath`: `os.path.splitext`, `dirname`, `basename` and `join` on
  `/`-separated paths.
- `Base`: `Option` and `Result`.

Results of the mapping: the chain of folders created for `p` is `p`, then
`dirname(p)`, and so on, up to the first folder already mapped.

- `Unmapped` is that chain.
- `Chain` is the whole `dirname` chain.
- When every mapped folder's parent is also mapped
  (`Closed`), the folders created are exactly the chain's unmapped folders.
- The empty tables of a missing mapping file are closed, and every create
  keeps them closed (`Uploader.EnsureDocClosed`, `Uploader.UploadDocsClosed`).
  So tables this program builds from scratch meet that hypothesis
  (`Uploader.FreshMappingClosed`).

Two behaviours of the code are worth knowing:

- **The window.** The code keeps `user_messages[len(user_messages)-4:]` of
  the 2k + 1 accumulated messages.
  - Because the slice start is negative for 2k + 1 = 3, the second request
    of a fresh run contains only the target's own request. It does not hold
    the first photo's request and answer.
  - From the third request on, the window is one earlier answer, one earlier
    request, its answer, and the target's request. That is two
    image-bearing turns, not four.
  - `Transcribe.AccumulatedWindow` states the exact window.
- **The end of a run.** The code ends a completed run with an error, not a
  graceful stop. `Transcribe.Run` returns it.

## Model

| member | source | states |
|---|---|---|
| Transcribe.FromJpgPath | src/cmd/transcribe.py:21-24 | succeeds exactly for paths ending in `.jpeg` or `.jpg` (case-sensitive), with a record that keeps the whole path; every other path gives `NotJpeg` |
| Transcribe.MakePhotoPath | src/cmd/transcribe.py:65-71 | the stem and extension the record keeps rejoin to the image path |
| Transcribe.MakePhotoOfJpeg | src/cmd/transcribe.py:65-71 | for a JPEG path whose file name has a non-dot before the extension, the stem is the path without the extension |
| Transcribe.CompanionPaths | src/cmd/transcribe.py:63-71 | the transcription and annotation paths always differ; for a JPEG photo neither is the image path |
| Transcribe.JpegCompanions | src/cmd/transcribe.py:63-71 | for a non-empty stem whose last character is neither `.` nor `/`, `stem.jpg` / `stem.jpeg` have companions `stem.txt` and `stem_annotation.txt` |
| Transcribe.HiddenJpegCompanion | src/cmd/transcribe.py:68-71 | a file named `.jpg` has no extension for `splitext`, so its transcription is `.jpg.txt` |
| Transcribe.SharedTranscriptionFile | src/cmd/transcribe.py:68-76 | `a.jpg` and `a.jpeg` are different photos with the same transcription file: saving one marks the other transcribed |
| Transcribe.TranscriptionOverwritesAnnotation | src/cmd/transcribe.py:63-76 | the transcription file of `a_annotation.jpg` is the annotation file of `a.jpg` |
| Transcribe.SaveTranscriptionEffect | src/cmd/transcribe.py:74-76 | saving marks transcribed exactly the photos that share the saved photo's transcription path, stores the text there and leaves every other file as it was |
| Transcribe.UserMessageIgnoresAnnotationContent | src/cmd/transcribe.py:91-106 | the request text is the fixed prompt, or the prompt plus the literal `{self.annotation}` hint; it depends only on whether the annotation file exists, never on its content |
| Transcribe.ReferenceMessagesSpec | src/cmd/transcribe.py:109-125 | the examples are built exactly when every reference photo has a non-empty annotation, one per photo in order, each the image followed by the prefixed annotation; otherwise `MissingAnnotation` |
| Transcribe.SystemMessagesSpec | src/cmd/transcribe.py:182-204 | on success there are 1 + n messages: message 0 is the fixed instruction and message i + 1 is reference photo i's example; any photo without a usable annotation instead gives `MissingAnnotation` |
| Transcribe.ImagePartsImages | src/cmd/transcribe.py:137 | the image parts of a chunk carry exactly its images, in order |
| Transcribe.ImagesMessageImages | src/cmd/transcribe.py:129-138 | a chunk's message carries exactly the chunk's images after the prompt |
| Transcribe.ChunksFromImages | src/cmd/transcribe.py:128-140 | the chunks from offset x carry `images[x:]` in order |
| Transcribe.ChunksFromSizes | src/cmd/transcribe.py:128-140 | each chunk is the prompt and 1 to m images, exactly m in every chunk but the last |
| Transcribe.ChunksFromCount | src/cmd/transcribe.py:139 | there are ceil((n - x) / m) chunks: none exactly when x = n |
| Transcribe.ImagesToMessagesSpec | src/cmd/transcribe.py:128-140 | with m > 0 the messages carry all the images in order, in chunks of exactly m except a last one of 1 to m, with ceil(n / m) messages; m = 0 raises as `range` does; m < 0 gives no messages |
| Transcribe.ImagesToMessagesDefault | src/cmd/transcribe.py:128-140 | with the default chunk size of 4, the messages carry all the images in order, every one 1 to 4 images and all but the last exactly 4 |
| Transcribe.PhotosAt | src/cmd/transcribe.py:175-176 | one photo per entry, whose image path is `join(dir, name)` |
| Transcribe.ListedJpegAccepted | src/cmd/transcribe.py:172-175 | a name that passes the filter, once joined to its directory, is accepted by `from_jpg_path`, so the raise is unreachable |
| Transcribe.LoadImages | src/cmd/transcribe.py:169-178 | the loop returns the photos of the JPEG entries of the sorted listing, in that order |
| Transcribe.JpegNamesOfListing | src/cmd/transcribe.py:171-177 | the loaded names are sorted; each JPEG entry appears as often as it is listed; no other entry appears |
| Transcribe.FirstPending | src/cmd/transcribe.py:224-233 | none exactly when every photo is transcribed; otherwise the index of an untranscribed photo before which every photo is transcribed |
| Transcribe.PairsAt | src/cmd/transcribe.py:224-227 | the k transcribed photos give 2k messages: photo j's request at 2j and its answer at 2j + 1 |
| Transcribe.LastFour | src/cmd/transcribe.py:236 | Python's `s[len(s)-4:]` keeps the last four of four or more, the last one of three, and all of fewer |
| Transcribe.AccumulatedWindow | src/cmd/transcribe.py:222-236 | the accumulated list has 2k + 1 messages; the slice keeps the target's request alone for k < 2, else `a(k-1), u(k), a(k), u(k+1)` |
| Transcribe.NextExchangeOutcome | src/cmd/transcribe.py:219-238 | `MissingAnnotation` exactly when some reference photo lacks a usable annotation; `AllTranscribed` exactly when all annotations are usable and every work photo is transcribed; otherwise the answer for the first untranscribed work photo |
| Transcribe.ExchangeWindow | src/cmd/transcribe.py:236 | what is sent is the system messages whole, then the window of `AccumulatedWindow` |
| Transcribe.FirstPendingIs | src/cmd/transcribe.py:224-230 | an untranscribed photo after only transcribed ones is the one selected |
| Transcribe.NextExchangeFor | src/cmd/transcribe.py:219-238 | the request for that photo is the system messages plus the sliced accumulation, answered by the model |
| Transcribe.NextExchangeAllDone | src/cmd/transcribe.py:232-233 | with every work photo transcribed the request fails with `AllTranscribed` |
| Transcribe.NextExchangeSystemError | src/cmd/transcribe.py:220 | a missing reference annotation fails the request before any work photo is looked at |
| Transcribe.TranscribeImages | src/cmd/transcribe.py:219-238 | the loop (append, break at the first untranscribed photo, raise when none) gives `NextExchange` |
| Transcribe.SavePending | src/cmd/transcribe.py:74-76 | saving a pending photo's answer removes exactly its transcription path from the pending set |
| Transcribe.SaveMarksOnlyTarget | src/cmd/transcribe.py:251 | with distinct transcription paths, saving marks the target and no other photo |
| Transcribe.PendingPathsCount | src/cmd/transcribe.py:226 | the pending files never outnumber the untranscribed photos, and equal them when the photos' paths are distinct |
| Transcribe.IsRunSnoc | src/cmd/transcribe.py:246-251 | one more pass of `main` extends a run and saves its answer |
| Transcribe.NextExchangeProgress | src/cmd/transcribe.py:247-251 | each saved answer shrinks the pending set by exactly one |
| Transcribe.RunProgress | src/cmd/transcribe.py:246-251 | passes made plus files still pending is the number pending at the start, so the loop terminates |
| Transcribe.RunLast | src/cmd/transcribe.py:247-251 | the last pass wrote its answer to a new transcription file of a work photo |
| Transcribe.RunSavesNewFiles | src/cmd/transcribe.py:246-251 | a run only writes transcription files of work photos that did not exist before |
| Transcribe.NewFilesKept | src/cmd/transcribe.py:74-76 | writing only new files keeps every earlier file and adds exactly the written paths |
| Transcribe.NewFilesAnswers | src/cmd/transcribe.py:74-76 | writing only new files gives each exchange its own file, absent at the start, holding its answer |
| Transcribe.RunKeepsFiles | src/cmd/transcribe.py:246-251 | a run never changes a file present at the start and adds only its transcription files |
| Transcribe.RunSavesAnswers | src/cmd/transcribe.py:246-251 | every request of a run is for a work photo untranscribed at the start, a different file each time, holding that request's answer at the end |
| Transcribe.IsRunPrefix | src/cmd/transcribe.py:246-251 | the first n passes of a run are themselves a run |
| Transcribe.ReplayGrows | src/cmd/transcribe.py:74-76 | the files present after some passes are still present after later ones: a save only adds or overwrites |
| Transcribe.RunPass | src/cmd/transcribe.py:246-251 | pass i of a run is the request made on the files the earlier passes left, and its answer is saved to them |
| Transcribe.PassTranscribes | src/cmd/transcribe.py:222-230 | a request is for the first untranscribed work photo, and after its answer is saved that photo and every photo before it are transcribed |
| Transcribe.RunPassTranscribes | src/cmd/transcribe.py:222-251 | pass i of a run is for photo PassIndex(i), a valid index, and leaves that photo and every earlier one transcribed |
| Transcribe.RunPassesOrdered | src/cmd/transcribe.py:222-251 | a later pass is for a strictly later work photo |
| Transcribe.RunInOrder | src/cmd/transcribe.py:222-251 | each pass's target is work photo PassIndex(i), and these indices strictly increase, so a run (also a restarted one) transcribes the pending photos in their loaded, sorted order |
| Transcribe.RunEndsAllTranscribed | src/cmd/transcribe.py:242-251 | a run that ends with "All images have been transcribed" has transcribed every work photo, after one pass per pending file (one per untranscribed photo when paths are distinct) |
| Transcribe.RunEndsWithUsableReferences | src/cmd/transcribe.py:242-251 | when every reference annotation exists and is non-empty at the start, a run whose request fails has failed with "All images have been transcribed", after one pass per pending file |
| Transcribe.Run | src/cmd/transcribe.py:242-251 | `main` loads both directories, loops while the request succeeds, and ends with the raised error; the log is a run and the files are its replay; when every reference annotation exists and is non-empty, the error is "All images have been transcribed" after one pass per pending file |
| Pdf2Img.ExtractImagesFromPdf | src/cmd/pdf2img.py:6-20 | the nested loop produces exactly the writes of `Writes` |
| Pdf2Img.WritesAt | src/cmd/pdf2img.py:8-20 | write Offset(p) + i is image i of page p, to `folder/page_{p+1:03d}_img_{i+1:03d}.ext`, with its bytes |
| Pdf2Img.WritesLength | src/cmd/pdf2img.py:8-20 | there are as many writes as images |
| Pdf2Img.WriteSource | src/cmd/pdf2img.py:8-11 | every write is that of some image i of some page p, at index Offset(p) + i |
| Pdf2Img.WritePathsOfDistinctImages | src/cmd/pdf2img.py:8-17 | the writes of two different (page, image) pairs go to different paths |
| Pdf2Img.StepSource | src/cmd/pdf2img.py:8-11 | every write comes from some page's image |
| Pdf2Img.ImageFileNamesDistinct | src/cmd/pdf2img.py:17 | equal file names have the same page, image and extension |
| Pdf2Img.ImageFilePathsDistinct | src/cmd/pdf2img.py:17 | different (page, image) pairs give different paths in any folder |
| Pdf2Img.WritePathsDistinct | src/cmd/pdf2img.py:8-17 | no two writes of one extraction go to the same file |
| Pdf2Img.ImageFileNameOrder | src/cmd/pdf2img.py:17 | up to 999 pages and images, with one extension, lexicographic name order is exactly (page, image) order |
| Pdf2Img.OutputFolderOfPdf | src/cmd/pdf2img.py:28 | for `stem.pdf` (with a non-dot in the file name before `.pdf`) the folder is `stem` |
| Pdf2Img.Run | src/cmd/pdf2img.py:23-31 | the folder is the PDF path without its extension and the writes are the extraction into it |
| Pdf2Img.UnpaddedNamesMisorder | main.py:9 | without padding, page 10's name sorts before page 2's |
| Strings.ZeroPaddedShape | src/cmd/pdf2img.py:17 | `:03d` gives digits only, at least three of them, ending in `str(n)` |
| Strings.ZeroPaddedValue | src/cmd/pdf2img.py:17 | reading a padded numeral back gives the number |
| Strings.ZeroPaddedInjective | src/cmd/pdf2img.py:17 | different numbers give different padded numerals |
| Strings.ZeroPadded3Order | src/cmd/pdf2img.py:17 | below 1000 the padded numerals sort as the numbers do |
| Strings.DecimalShape | src/cmd/pdf2img.py:17 | `str(n)` is a non-empty run of digits, one digit exactly below 10 |
| Strings.LessTransitive | src/cmd/transcribe.py:171 | Python's string order is transitive |
| Strings.LessTotal | src/cmd/transcribe.py:171 | any two strings are equal or ordered one way |
| Strings.LessAsymmetric | src/cmd/transcribe.py:171 | the order never holds both ways |
| Sorting.SortSorted | src/cmd/transcribe.py:171 | `sorted` returns an ascending list |
| Sorting.SortPermutation | src/cmd/transcribe.py:171 | `sorted` returns a permutation of its input |
| Sorting.FilterCount | src/cmd/transcribe.py:172-173 | skipping entries keeps each wanted entry as often as it occurs and drops the rest |
| Sorting.FilterSorted | src/cmd/transcribe.py:171-176 | skipping entries of a sorted list leaves it sorted |
| PosixPath.SplitextParts | src/cmd/transcribe.py:65 | `splitext`'s two parts rejoin to the path; the extension is empty or one dot followed by no dot or slash |
| PosixPath.SplitextOfExtension | src/cmd/pdf2img.py:28 | a path ending in a one-dot extension after a non-dot splits exactly before it: the root is the path without the extension, and the extension is it |
| PosixPath.SplitextAt | src/cmd/pdf2img.py:28 | the same split, at a position the caller names |
| PosixPath.DirnameOfRelative | src/cmd/uploader.py:77 | the `dirname` of a non-empty relative path is relative and strictly shorter, so the recursion terminates |
| PosixPath.JoinName | src/cmd/uploader.py:172 | joining a relative directory and a name is relative, ends with the name and has it as `basename` |
| PosixPath.JoinEndsWith | src/cmd/transcribe.py:175 | `join(a, b)` ends with `b` |
| Uploader.LoadMapping | src/cmd/uploader.py:29-41 | without a file both tables are empty; with one, its stored tables |
| Uploader.ParentsEntry | src/cmd/uploader.py:91-92 | `parents` is `[id]` for a non-empty parent ID and absent for an empty one |
| Uploader.DriveIdFresh | src/cmd/uploader.py:94-95 | the IDs Drive hands out are non-empty and never repeat |
| Uploader.RepoRootNameOfPath | src/cmd/uploader.py:68-70 | the top folder's name is the last component of `LOCAL_REPO_PATH`, `Archives` |
| Uploader.FolderNameSpec | src/cmd/uploader.py:65-70 | the top folder `""` is named after the repository, any other after its `basename` |
| Uploader.SplitextOfTxtName | src/cmd/uploader.py:112 | `splitext` takes `.txt` off a name that has a non-dot before it |
| Uploader.DocNameOfTxt | src/cmd/uploader.py:112 | the Doc title of `dir/stem.txt` is `stem` |
| Uploader.Chain | src/cmd/uploader.py:75-81 | the `dirname` chain starts at `p` and holds relative paths no longer than `p` |
| Uploader.Unmapped | src/cmd/uploader.py:60-81 | the folders to create start with `p` when there are any |
| Uploader.UnmappedAt | src/cmd/uploader.py:60-81 | each folder to create is relative, no longer than `p` and unmapped |
| Uploader.EnsureFolderFiles | src/cmd/uploader.py:52-100 | ensuring a folder never touches the files table |
| Uploader.EnsureFolderKeeps | src/cmd/uploader.py:98 | every existing folder entry keeps its ID |
| Uploader.EnsureFolderKeys | src/cmd/uploader.py:60-98 | the folders mapped afterwards are exactly the old ones plus the unmapped part of the chain |
| Uploader.EnsureFolderCount | src/cmd/uploader.py:94 | one create request per folder of the unmapped part of the chain |
| Uploader.EnsureFolderMaps | src/cmd/uploader.py:98-100 | the folder is mapped afterwards, to the ID returned |
| Uploader.EnsureFolderSpec | src/cmd/uploader.py:52-100 | all of the above for one call |
| Uploader.EnsureFolderLast | src/cmd/uploader.py:72-98 | an unmapped folder is created by the last request, named by `FolderName`, under its parent's final ID or `DRIVE_PARENT_FOLDER_ID`, and mapped to that request's fresh ID |
| Uploader.EnsureFolderMetadata | src/cmd/uploader.py:86-94 | the request that creates an unmapped folder sends its `FolderName`, the folder MIME type and no media body, with `parents` holding the parent's ID, or `DRIVE_PARENT_FOLDER_ID` for a single-component path |
| Uploader.EnsureFolderUp | src/cmd/uploader.py:75-81 | an unmapped folder below the top ensures its parent first, then makes one more request |
| Uploader.EnsureFolderRequestAt | src/cmd/uploader.py:72-98 | folder j up the unmapped chain is created by the j-th last request, under its parent |
| Uploader.EnsureFolderRequestAbove | src/cmd/uploader.py:77-81 | the same for folders above `p`, created by the parent's earlier requests |
| Uploader.EnsureFolderRequests | src/cmd/uploader.py:72-98 | the requests go top-down, each folder under its parent's ID (`DRIVE_PARENT_FOLDER_ID` for one component), each mapped to its fresh ID |
| Uploader.EnsureFolderIdempotent | src/cmd/uploader.py:60-62 | a mapped folder returns its ID with no request and no change, so a second call does nothing |
| Uploader.ClosedChain | src/cmd/uploader.py:75-81 | in a closed table a mapped folder's whole chain is mapped |
| Uploader.EnsureFolderClosed | src/cmd/uploader.py:52-100 | on a closed table, ensuring keeps it closed, maps the whole chain, and creates exactly the chain's unmapped folders |
| Uploader.EnsureDocClosed | src/cmd/uploader.py:103-149 | for a relative path on a closed table, `create_doc_if_not_exists` keeps the folder table closed |
| Uploader.EnsureDocMaps | src/cmd/uploader.py:145-149 | the file is mapped afterwards, to the ID returned |
| Uploader.EnsureDocKeepsFiles | src/cmd/uploader.py:146 | every existing file entry keeps its ID |
| Uploader.EnsureDocKeepsFolders | src/cmd/uploader.py:115-120 | every existing folder entry keeps its ID |
| Uploader.EnsureDocKeeps | src/cmd/uploader.py:103-149 | the file is mapped to the returned ID, and every earlier entry of both tables is kept |
| Uploader.EnsureDocNothing | src/cmd/uploader.py:108-109 | no request is made exactly when the file was mapped, and then the tables are unchanged |
| Uploader.EnsureDocNew | src/cmd/uploader.py:111-147 | an unmapped file ensures its `dirname` folder (nothing at the top), then one Doc request with the text under that folder's ID or `DRIVE_PARENT_FOLDER_ID`; only the file is added, under the last fresh ID |
| Uploader.EnsureDocLast | src/cmd/uploader.py:111-142 | the last request of uploading an unmapped file creates its Doc with its text, under its folder's ID or `DRIVE_PARENT_FOLDER_ID` at the top |
| Uploader.EnsureDocMetadata | src/cmd/uploader.py:125-142 | that request sends the Doc title `DocName`, the Doc MIME type and the text as media body, with `parents` holding the folder's ID, or `DRIVE_PARENT_FOLDER_ID` at the top |
| Uploader.EnsureDocIdempotent | src/cmd/uploader.py:108-109 | a mapped file returns its ID with no upload; a second call with any text does nothing |
| Uploader.DriveService.constructor | src/cmd/uploader.py:157 | a new service has made no requests |
| Uploader.DriveService.Create | src/cmd/uploader.py:94-95 | returns the next fresh ID and records the request |
| Uploader.MappingFile.constructor | src/cmd/uploader.py:34 | the file holds the given tables, or none |
| Uploader.Mapping.Load | src/cmd/uploader.py:160 | the dictionary holds what `load_mapping` gives |
| Uploader.SaveMapping | src/cmd/uploader.py:44-49 | the file now holds the current tables |
| Uploader.CreateFolderIfNotExists | src/cmd/uploader.py:52-100 | the tables, Drive's counter and requests, and the returned ID are those of `EnsureFolder`; after any creation the file holds the tables, otherwise it is untouched |
| Uploader.CreateDocIfNotExists | src/cmd/uploader.py:103-149 | the same against `EnsureDoc` |
| Uploader.IsTxtNameSpec | src/cmd/uploader.py:171 | the filter passes exactly names ending in `.txt` in any mix of letter case |
| Uploader.EntryDocsSpec | src/cmd/uploader.py:170-172 | a directory contributes exactly its `.txt` files under `join(dir, name)` with their text |
| Uploader.TopLevelPath | src/cmd/uploader.py:166-172 | after `"."` becomes `""`, a top-level file is mapped under its bare name and goes to the Drive root |
| Uploader.WalkDocsRelative | src/cmd/uploader.py:163-172 | every uploaded path of a well-formed walk is relative |
| Uploader.UploadStepMaps | src/cmd/uploader.py:180-182 | one pass maps its file |
| Uploader.UploadStepFiles | src/cmd/uploader.py:180-182 | one pass keeps every files entry |
| Uploader.UploadStepFolders | src/cmd/uploader.py:180-182 | one pass keeps every folders entry |
| Uploader.UploadDocsMapsAt | src/cmd/uploader.py:170-182 | file k is mapped at the end: its own pass maps it and later passes keep it |
| Uploader.UploadDocsMaps | src/cmd/uploader.py:163-182 | every uploaded file is mapped at the end |
| Uploader.UploadDocsKeepsFiles | src/cmd/uploader.py:163-182 | a run keeps every files entry present at the start |
| Uploader.UploadDocsKeepsFolders | src/cmd/uploader.py:163-182 | a run keeps every folders entry present at the start |
| Uploader.UploadDocsSpec | src/cmd/uploader.py:163-182 | a run maps every file and overwrites or removes no entry |
| Uploader.UploadDocsAgain | src/cmd/uploader.py:163-182 | when every file is already mapped, a run makes no request and changes nothing, so a run after a complete one is a no-op |
| Uploader.UploadDocsSnoc | src/cmd/uploader.py:170-182 | one more file is `create_doc_if_not_exists` on the tables the earlier ones left |
| Uploader.UploadDocsClosed | src/cmd/uploader.py:170-182 | uploading a walk of relative paths from closed tables leaves the folder table closed |
| Uploader.FreshMappingClosed | src/cmd/uploader.py:29-41 | the empty tables of a missing mapping file are closed, and so are the tables after uploading any walk from them |
| Uploader.UploadFile | src/cmd/uploader.py:170-182 | one pass of the inner loop advances the objects by `UploadStep` |
| Uploader.UploadEntry | src/cmd/uploader.py:170-182 | the inner loop uploads exactly the directory's `.txt` files, leaving the objects as `UploadDocs` gives |
| Uploader.Upload | src/cmd/uploader.py:163-182 | the walk, with `"."` normalised to `""`, leaves the mapping, Drive and the file as `UploadDocs` of the walk's `.txt` files gives |
| Uploader.Run | src/cmd/uploader.py:152-185 | `main` loads the mapping (empty without a file), then uploads the walk from it |

## Left out

- The OpenAI client and `_request` are not modelled: this is a network call. The response is the function `respond` from the sent messages to a string. The extraction of `response.choices[0].message.content` is not modelled either.
- Reading, resizing and base64-encoding images is not modelled (`image_base64`, `_encode_image`, `_resize_image`, `_image_to_content`). An image part is referred to by the photo's path.
- `_get_transcription_path` is not modelled: it is dead code and refers to undefined names.
- `print` output is not modelled, in any of the scripts.
- File reads and writes are not modelled: they are I/O. The transcriber's files are a map from path to content. The PDF extractor's writes are a returned log.
- `os.makedirs` in `pdf2img.py` is not modelled.
- The PDF library is not modelled. A document is its pages' embedded images, each with its bytes and extension.
- Drive authentication and the HTTP `files().create(...).execute()` call are not modelled: this is a foreign call. Drive is a counter whose IDs are the numerals 0, 1, 2, …. The model says nothing about the shape of real Drive IDs, only that they are fresh.
- JSON (de)serialisation in `load_mapping` and `save_mapping` is not modelled. The file is a snapshot of the tables.
- `os.walk` and `os.path.relpath` are not modelled: the walk is a given sequence of (relative directory, files with their text). Only the `"."` → `""` normalisation is modelled.
- `Uploader.Request` holds the local path it is made for, and not only the metadata the source sends. Its members `Name`, `MimeType`, `Parents` and `Content` give that metadata (`Uploader.EnsureFolderMetadata`, `Uploader.EnsureDocMetadata`). The `fields="id"` argument and the media body's `text/plain` type and UTF-8 encoding are not modelled.
- `str.lower` is modelled on ASCII letters only. Python folds all of Unicode.
- The `os.path` functions are written for `/`-separated POSIX paths. They do not normalise `.` or `..`. `abspath` is used only for the repository root, whose last component is computed once.
- The system prompt is kept as constants, sentence by sentence, not proved against the triple-quoted literal character by character.
- `Uploader.CreateFolderIfNotExists`, `Uploader.CreateDocIfNotExists`, `Uploader.EnsureFolder` and `Uploader.EnsureDoc` require a relative path. An absolute unmapped path makes the source recurse on `dirname("/") == "/"` until Python's recursion limit. Their comment, and `main`'s use of `relpath`, only pass relative paths.
- Uploader.EnsureFolderCount: the count is of `Unmapped` (the chain up to the first mapped folder). It equals the number of unmapped folders of the whole chain only for closed tables (`Uploader.EnsureFolderClosed`), such as those this program builds from a missing mapping file (`Uploader.FreshMappingClosed`). A table edited by hand with a mapped folder whose parent is unmapped stops the chain early.
- Transcribe.SaveMarksOnlyTarget: requires distinct transcription paths. `a.jpg` and `a.jpeg` share one (`Transcribe.SharedTranscriptionFile`), so without this no such claim holds.
- Transcribe.RunEndsAllTranscribed: the number of passes is the number of distinct pending transcription files. It equals the number of untranscribed photos only when their paths are distinct.
- Transcribe.UserMessageIgnoresAnnotationContent: the hint text is the literal characters `{self.annotation}`, because line 95 is not an f-string. The model keeps this behaviour as written, and does not model any intended interpolation.
