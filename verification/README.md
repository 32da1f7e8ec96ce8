# DocOptimizer recompression pipeline in Dafny

DocOptimizer shrinks a Word document by re-encoding the raster images stored
inside it. The document is a zip package. A compression job (`CompressionThread`)
goes through five steps:

1. It checks that the input exists and carries a `.docx` or `.doc` suffix in
   any case.
2. It extracts the package into a scratch directory and requires `word/media`
   to be present.
3. It lists `word/media` and keeps the names whose lowered form ends in `.png`,
   `.jpg`, `.jpeg` or `.bmp`. It re-encodes each of these images in place under
   a per-extension policy. It checks a cooperative cancel flag before each
   image. A failure on one image is logged and the image is skipped; the
   logging itself is not modelled. Each success is announced with a progress
   percentage.
4. It writes every regular file of the scratch tree, deflated, into a new
   archive at the output path.
5. It reports a terminal result: the input and output sizes, or the error
   that ended the run. The model emits exactly one; the second, failing result
   a clean-up error of the scratch directory can add is listed under
   "Left out".

Seen from the worker alone, a canceled job still repackages what it has and
reports success. The window's `cancel_compression` also calls `terminate()` on
the thread, which is not modelled (see "Left out"). The main window's drop
handler applies the same document-suffix test to dropped files.

The model is split into modules:
- `Wrappers`: `Option`.
- `Collections`: list comprehensions as `Filter`, and directory listings as an
  enumeration of a set in an order the system chooses.
- `PathNames`: `str.lower`, `endswith`, `os.path.splitext` and
  `os.path.dirname`.
- `Progress`: the percentage formula.
- `Package`: archives, extraction into a tree of files and directories,
  `os.path.isdir` and `os.listdir` on that tree, and the shape of a
  repackaged archive.
- `Recompress`: the image pass as a function of the scratch files, with its
  lemmas.
- `Pipeline`: the worker as a class whose methods update the scratch tree, the
  host file system, the cancel flag and the emitted signals.
- `Window`: the drop handler.

Things outside the program become parameters:
- the imaging library is an arrow from (extension, save options, bytes) to
  optional bytes;
- the zip format is a pair of arrows (`ZipCodec`);
- the order `os.listdir` and `os.walk` report is whatever
  `Collections.Enumerate` picks; the `os.listdir` order is returned as a
  ghost `listing`, and the `os.walk` order shows only in the members
  `Repackage` writes;
- the moment the requester's write to the cancel flag becomes visible to the
  worker is a number `cancelAt`: the write is seen at check `cancelAt` and at
  every later check.

Three behaviours of the code are worth noting:
- a progress event is emitted only after a successful save, not after a
  skipped image;
- the percentage is truncated (`int(...)`), not rounded, and it is 0 for the
  first images of a run with more than 100 candidates;
- directories that hold no file are not carried into the new archive, because
  the walk adds files only.

## Model

| member | source | states |
|---|---|---|
| Collections.Filter | DocOptimizer.py:88-89 | the result holds exactly the accepted elements of the input, and is no longer than it |
| Collections.FilterCounts | DocOptimizer.py:644 | each accepted element is kept as often as it occurs; every rejected one is dropped |
| Collections.FilterAppend | DocOptimizer.py:88-89 | filtering distributes over concatenation, so the kept elements stay in input order |
| Collections.FilterAll | DocOptimizer.py:644 | when every element is accepted, the filter returns its input unchanged |
| Collections.FilterDistinct | DocOptimizer.py:88-89 | filtering a listing without repetitions gives one without repetitions |
| Collections.Enumerate | DocOptimizer.py:88 | the listing names every element of the directory's set exactly once, in an order the system chooses |
| PathNames.Lower | DocOptimizer.py:46 | `str.lower` on ASCII letters keeps the length; `WordDocumentAnyCase` and `CandidateImageAnyCase` state that it folds the suffixes' case, `LowerIdempotent` and `LowerKeepsSeparators` what it preserves |
| PathNames.EndsWith | DocOptimizer.py:46 | `str.endswith` with one suffix; `EndsWithSplit` states its meaning |
| PathNames.EndsWithSplit | DocOptimizer.py:46 | a string ends with a suffix exactly when it is some stem followed by that suffix |
| PathNames.EndsWithAny | DocOptimizer.py:46 | `str.endswith` with a tuple holds exactly when the string ends with one of the tuple's suffixes |
| PathNames.IsWordDocument | DocOptimizer.py:46 | a path is a Word document exactly when its lowered form ends in `.docx` or `.doc` |
| PathNames.IsCandidateImage | DocOptimizer.py:89 | a name is a candidate exactly when its lowered form ends in `.png`, `.jpg`, `.jpeg` or `.bmp` |
| PathNames.WordDocumentAnyCase | DocOptimizer.py:46 | a path ending in `.docx` or `.doc` written in any mix of cases (`Report.DocX`) is a Word document |
| PathNames.CandidateImageAnyCase | DocOptimizer.py:89 | a name ending in `.png`, `.jpg`, `.jpeg` or `.bmp` written in any mix of cases is a candidate image |
| PathNames.LowerKeepsSeparators | DocOptimizer.py:100 | lowering leaves every dot and slash where it was and adds none |
| PathNames.WordDocumentIgnoresCase | DocOptimizer.py:46 | the document and image suffix tests give the same answer for a path and for its lowered form |
| PathNames.LowerIdempotent | DocOptimizer.py:46 | lowering twice is the same as lowering once |
| PathNames.LastIndexOf | DocOptimizer.py:100 | `rfind`: -1 or an index holding the character, with no occurrence after it |
| PathNames.Extension | DocOptimizer.py:100 | `splitext`'s second half is empty, or it starts with the last dot of the last component, ends the path and has no other dot |
| PathNames.ExtensionOfSuffix | DocOptimizer.py:100 | a name with a non-dot stem and a dot-led suffix without further dots has exactly that suffix as its extension |
| PathNames.SuffixDot | DocOptimizer.py:100 | the last dot of such a name is the one that starts the suffix |
| PathNames.LastIndexOfLower | DocOptimizer.py:100 | lowering moves no dot or slash, so `rfind` of either is unchanged |
| PathNames.ExtensionOfLower | DocOptimizer.py:100 | lowering the extension equals taking the extension of the lowered name |
| PathNames.StripTrailingSlashes | DocOptimizer.py:118 | `rstrip('/')` gives a prefix that does not end in a slash, and everything it drops is a slash |
| PathNames.Dirname | DocOptimizer.py:118 | `dirname` is a prefix of the path, empty exactly when the path has no slash; when a non-slash precedes the last slash it is the text before the last slash with the trailing slashes removed, and otherwise the leading slashes up to the last one |
| Progress.Percent | DocOptimizer.py:108 | the percentage of candidate `i` of `total` is between 0 and 100, and it is 100 exactly for the last candidate |
| Progress.PercentMonotone | DocOptimizer.py:92-108 | a later candidate never reports a smaller percentage |
| Progress.PercentPositive | DocOptimizer.py:108 | the percentage is at least 1 exactly when (i + 1) * 100 reaches `total`, so always with 100 candidates or fewer |
| Package.Unpack | DocOptimizer.py:52-53 | no extracted file has a directory member's name |
| Package.UnpackFileNames | DocOptimizer.py:52-53 | extraction makes a file for exactly the non-directory member names |
| Package.UnpackLastWins | DocOptimizer.py:52-53 | each extracted file holds the data of the last member with its name |
| Package.UnpackDirs | DocOptimizer.py:52-53 | extraction makes a directory for exactly the directory members |
| Package.IsDirectory | DocOptimizer.py:56-61 | a path is a directory exactly when it was extracted as one or something lies inside it to list |
| Package.Exists | DocOptimizer.py:56-61 | `os.path.exists`: a file, an extracted directory, or a path with something inside it |
| Package.FirstComponent | DocOptimizer.py:88 | the first component of a relative path is the prefix up to its first slash, or the whole path when it has none |
| Package.Children | DocOptimizer.py:88 | `os.listdir` names hold no slash, and there is one exactly when something lies inside the directory; with `ChildIsEntry`, `DirectChildListed` and `NestedChildListed` the names are exactly the entries just below it, implicit subdirectories included |
| Package.ChildIsEntry | DocOptimizer.py:88 | every listed name is a whole entry just below the directory: some path under it continues with the name and then ends or reaches a slash |
| Package.MediaPath | DocOptimizer.py:96 | `os.path.join(media_dir, name)` is `word/media/` followed by the name |
| Package.MediaPathInjective | DocOptimizer.py:96 | joining the media directory with a name is injective, so two candidates never share a file |
| Package.DirectChildListed | DocOptimizer.py:88 | every file or directory directly inside `word/media` that the tree holds as a path is listed, and `word/media` is then a directory; `NestedChildListed` covers a subdirectory with no member of its own |
| Package.NestedChildListed | DocOptimizer.py:88 | a subdirectory of `word/media` that only holds other paths, with no archive member of its own, is listed too |
| Package.IsPackOf | DocOptimizer.py:125-130 | the written archive names each scratch file exactly once, with its bytes, deflated, and nothing else |
| Package.RepackRoundTrip | DocOptimizer.py:125-130 | extracting an archive packed from a tree of files gives back exactly those files and no directories |
| Recompress.Candidates | DocOptimizer.py:88-89 | the candidates are exactly the listed names with an image suffix, and each occurs once when the listing has no repeats |
| Recompress.CandidatesOfListing | DocOptimizer.py:88-89 | on a listing of `word/media`, the candidates are exactly its entries with an image suffix, each listed once |
| Recompress.SaveOptionsFor | DocOptimizer.py:101-106 | optimisation is asked for exactly for `.jpg`, `.jpeg` and `.png`, and the job's quality exactly for `.jpg` and `.jpeg` |
| Recompress.ExtOf | DocOptimizer.py:100 | the lowered extension is the extension of the lowered name |
| Recompress.SaveImage | DocOptimizer.py:97-106 | the save depends on the file name only through its lowered extension; `SaverPolicy` states the options the encoder receives |
| Recompress.SaverPolicy | DocOptimizer.py:100-106 | for a candidate with a non-dot stem, the encoder is called with the suffix that made it a candidate: `.jpg`/`.jpeg` with the job's quality and optimisation, `.png` with optimisation only, `.bmp` with a plain save |
| Recompress.Attempt | DocOptimizer.py:96-98 | a candidate whose file does not exist (or is a directory) cannot be opened and is skipped |
| Recompress.Outcome | DocOptimizer.py:97-113 | a processed candidate's file holds the re-encoded bytes when the save succeeded, and its own bytes when it failed |
| Recompress.CutPoint | DocOptimizer.py:92-94 | a job canceled before the pass processes nothing; otherwise every candidate is processed unless the flag's write becomes visible at an earlier check, where the pass stops |
| Recompress.Reencode | DocOptimizer.py:92-113 | processing the first `n` candidates never changes the set of scratch paths, and emits at most `n` events, so none when there are no candidates |
| Recompress.ReencodeUntouched | DocOptimizer.py:96-106 | a path that is not the file of a processed candidate keeps its bytes |
| Recompress.NonCandidatesUntouched | DocOptimizer.py:88-106 | every scratch entry that is not a candidate's file keeps its bytes, however far the pass gets |
| Recompress.AttemptUnaffected | DocOptimizer.py:96-98 | a candidate not yet reached is opened with its original bytes |
| Recompress.OthersElsewhere | DocOptimizer.py:96 | with distinct names, no other candidate writes to a candidate's file |
| Recompress.ReencodeLast | DocOptimizer.py:97-113 | the candidate just processed holds its re-encoded bytes, or its original bytes when the save failed |
| Recompress.ReencodeCandidate | DocOptimizer.py:97-113 | every processed candidate holds its re-encoded bytes, or its original bytes when the save failed |
| Recompress.CancelIsPrefixCut | DocOptimizer.py:92-94 | stopping after `k` candidates leaves the first `k` re-encoded and the rest byte-identical, and its events are a prefix of an uncanceled run's |
| Recompress.EventsGrow | DocOptimizer.py:92-109 | processing more candidates only appends events |
| Recompress.EventOrigins | DocOptimizer.py:108-109 | every event names one of the processed candidates and carries the percentage of that candidate's index |
| Recompress.AppendOrdered | DocOptimizer.py:108-109 | appending an in-range percentage no smaller than the earlier ones keeps a run's percentages ordered |
| Recompress.EventsOrdered | DocOptimizer.py:108-109 | the percentages of one run lie between 0 and 100 and never decrease |
| Recompress.NoEventForLater | DocOptimizer.py:109 | no event of the first `n` candidates names any candidate from index `n` on, which has not been processed yet |
| Recompress.ImageNamed | DocOptimizer.py:97-113 | some event names a processed candidate exactly when its save succeeded |
| Recompress.EventForCandidate | DocOptimizer.py:97-113 | a processed candidate has its event exactly when its save succeeded; a failed one is skipped with no event naming it |
| Recompress.LastEventIsComplete | DocOptimizer.py:108 | when the last candidate of an uncanceled run succeeds, the last event reports 100 |
| Recompress.ExtOfSuffix | DocOptimizer.py:100 | a slash-free name with a non-dot character before its last dot, whose lowered form ends in a dot-led suffix with no further dots, has that suffix as its lowered extension |
| Recompress.CandidatePolicy | DocOptimizer.py:100-106 | among candidates with a non-dot stem, `.jpg`/`.jpeg` ones are saved with the job's quality and optimisation, `.png` with optimisation only, `.bmp` with a plain save |
| Recompress.DotStemSavedPlain | DocOptimizer.py:100-106 | a name with nothing but dots before its last dot (`.png`, `..JPEG`) has no extension and gets the plain save, so the encoder is not given the job's quality for such a name |
| Pipeline.Prepare | DocOptimizer.py:43-57 | the first failing check names the error: a missing input is NotFound, one without a document suffix UnsupportedFormat, an unreadable archive BadArchive, a tree without `word/media` InvalidStructure; the job proceeds exactly when all four pass, with the extracted tree |
| Pipeline.OutputOfRun | DocOptimizer.py:62-65 | the written archive extracts to the input's paths without directories; non-candidates keep their bytes, processed candidates hold their outcome, and cut-off candidates keep their original bytes |
| Pipeline.FileSystem.constructor | DocOptimizer.py:43 | the host file system the job reads and writes holds the given files |
| Pipeline.ScratchTree.constructor | DocOptimizer.py:50-53 | the scratch directory starts as the extracted tree |
| Pipeline.CompressionThread.constructor | DocOptimizer.py:33-38 | a new job holds its paths and quality, the flag is clear, and nothing has been emitted |
| Pipeline.CompressionThread.Cancel | DocOptimizer.py:722-724 | the requester sets the flag, and nothing else changes |
| Pipeline.CompressionThread.ProcessImages | DocOptimizer.py:86-94 | listing fails exactly when `word/media` is not a directory, and then nothing changes; otherwise the listing is an enumeration of its entries, and files, events and flag are those of `Reencode` up to the cut |
| Pipeline.CompressionThread.ProcessCandidates | DocOptimizer.py:91-113 | the scratch files and the appended events are exactly `Reencode` of the candidates up to the cancellation cut, and the flag ends set exactly when it was set or its write became visible before the end |
| Pipeline.CompressionThread.ReencodeImage | DocOptimizer.py:96-113 | on success the candidate's file is overwritten and its progress event appended; on failure nothing changes |
| Pipeline.CompressionThread.Repackage | DocOptimizer.py:115-130 | fails exactly when the output path has no directory part, changing nothing; otherwise the output is replaced by an archive with one deflated member per scratch file, and no other file changes |
| Pipeline.CompressionThread.Run | DocOptimizer.py:40-84 | exactly one result is emitted; a failed validation, extraction or listing of `word/media` changes no file, event or flag; an output path without a directory part fails after the image pass without writing; otherwise the output holds the repackaged tree and the report carries the sizes read after writing, failing on an empty input |
| Window.WordDocuments | DocOptimizer.py:644 | the kept paths are exactly the dropped paths with a document suffix |
| Window.WordDocumentsOfDrops | DocOptimizer.py:644 | filtering keeps drop order and multiplicity: the documents of two drops are those of the first followed by those of the second |
| Window.AllDocumentsKept | DocOptimizer.py:644 | a drop of documents only is taken unchanged |
| Window.MainWindow.constructor | DocOptimizer.py:357-519 | a new window has no input files and no output directory, and its same-directory box is ticked |
| Window.MainWindow.HandleDroppedFiles | DocOptimizer.py:643-654 | a warning is shown exactly when no dropped path is a document, and then nothing changes; otherwise the documents become the input files and, with the box ticked, the output directory becomes the first one's directory |

## Left out

- The imaging library (`Image.open`, `img.save`) is an uninterpreted, possibly failing encoder. Nothing is proved about output sizes.
- A save that fails after it has started writing may leave a truncated file in the real program. In the model, a failed save leaves the bytes as they were.
- The zip format and `zipfile`'s name sanitising on extraction are not modelled. `ZipCodec.read` yields the members; an unreadable archive is `BadArchive`.
- Archives whose members name both a file and a directory at the same path are not modelled. Nor are members that extract to a path above a directory member.
- `tempfile.TemporaryDirectory` creation and clean-up are not modelled. The scratch tree is a fresh object for each run and is dropped afterwards.
- `os.makedirs` creating missing intermediate directories of the output path is not modelled. Only its failure on an empty directory part is.
- `str.lower` is modelled on ASCII letters only.
- Progress.Percent: the exact floor of (i + 1) * 100 / total, not the float expression. Python can give one less when the float quotient falls just below an integer (29 / 100 * 100 is 28.999…, so `int` gives 28).
- The text of messages, the KB formatting and the size ratio are left out; the report carries the two sizes. Dividing by a zero input size is `EmptyInput`.
- `QThread` scheduling, signal delivery and `terminate()` in `cancel_compression` are left out. Since `terminate()` may stop the thread at any point, a canceled job may in fact end without repackaging or reporting. Only the cooperative flag is modelled, with the moment its write becomes visible as the parameter `cancelAt`.
- The progress label's text prefix is left out: an event carries the image name.
- Logging of skipped images (`logging.warning`) is left out; the image is skipped as in the program.
- Pipeline.CompressionThread.Repackage: fails only when the output path has no directory part. The program also fails when `os.makedirs` meets a file or lacks permission, when `os.remove` meets a directory, and when writing the archive raises (a full disk, say); the host file system here cannot refuse a write.
- Pipeline.CompressionThread.Run: promises `Succeeded` whenever `Repackage` does, because of the line above. A clean-up error of the `TemporaryDirectory` after the success signal reaches the `except` and emits a second, failing result; clean-up cannot fail here, so exactly one result is emitted.
- Pipeline.Prepare: `FileSystem` holds regular files only, so an input path naming a directory is `NotFound`. In the program `os.path.exists` accepts it and the run fails later, when `zipfile` opens it.
- PathNames.Dirname: the path functions are those of `posixpath` on a case-sensitive file system. Windows paths (`ntpath`, where the directory of `C:/a.docx` is `C:/`) and zip members that differ only in case, which collide on extraction there, are not modelled.
- Recompress.DotStemSavedPlain: the imaging library is uninterpreted, so the model does not know that Pillow refuses to save under an empty extension. In the program such a file is therefore always skipped, with its bytes unchanged.
- Widgets, dialogs, styles and `update_file_list` are presentation and are not modelled.
