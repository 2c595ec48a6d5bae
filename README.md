# Asset Compressify: a Dafny model of the compression client

Asset Compressify is a browser client. It queues images and videos, compresses
them before upload and reports what the compression saved. This project models
three parts of that client and proves properties about them:

- **The page's file queue** (`client/app/page.tsx`). This is the `Home` component's
  state: the list of `FileWithStatus` entries, the quality setting and the
  `isProcessing` flag. Files are appended when selected and removed by id.
  `handleCompressAll` is a sequential run over a snapshot of the list. The summary
  statistics are derived from the live list, and so is the enabled state of the
  Compress All button.
- **Result construction in the compression library** (`client/lib/compression.ts`).
  This covers:
  - the `CompressionResult` that `compressImage` and `compressVideo` build on
    success and on encoder failure;
  - the floor-rounded saving ratio;
  - the classification predicates `isImageFile` and `isVideoFile`;
  - the two filename rewrites inside `compressVideo`: extension extraction and the
    output name;
  - the unit selection of `formatFileSize`.
- **The upload zone's two intake handlers** (`client/components/file-upload-zone.tsx`).
  The drop handler filters by MIME prefix. The file-input handler does not filter.

The files are:

- `common.dfy`: `Option` and an order-preserving subsequence predicate.
- `js_strings.dfy`: the JavaScript string built-ins the code calls. These are
  `startsWith`, `split` with a one-character separator, and the ASCII part of
  `toLowerCase`. The module also defines `EndsWith` and `Join`. The program does not
  call these two; the lemmas use them to state the output-name suffix and the
  split round-trip. The `replace` call at `compression.ts:211` is modelled in
  `compression.dfy`.
- `compression.dfy`: module `Compression`.
- `file_upload_zone.dfy`: module `UploadZone`.
- `page.dfy`: module `Page`, including the class `Home`.

How the behaviour is modelled:

- **The encoders are abstract outcomes.** The image encoder either yields an output
  file or throws. The FFmpeg pipeline either yields an output byte length or throws.
  `URL.createObjectURL` is a function parameter.
- **A compress-all run is a method of `Home`.** The method takes the outcome of
  each service call, one per snapshot index. It also takes the Remove clicks the
  user makes while each call is pending.
- **The run's results are stated against specification functions.** The method
  ensures two things:
  - the live list it leaves is `Without(ProcessedAll(snapshot, outcomes), removed)`;
  - its trace of service calls follows `Eligible(snapshot)`, in order, with the
    options, the entry as the call saw it, and the `isProcessing` flag at that
    moment.
- **Ids come from a counter.** The `Home` fields are updated in place. The
  invariant `Valid()` states that no two entries share an id and that every id is
  below the next fresh one.

Where the code behaves differently from what a reader might expect, the model
follows the code:

- There is no `failed` state. Both library functions catch their own encoder
  errors and return a fallback result: the original file, with no reduction and a
  ratio of 0. The page records that fallback like any other result. The entry ends
  at 100%, not compressing, and counts toward "all compressed". No later run
  retries it (`Page.EncoderFailuresCountAsCompressed`).
- The page's own `catch` branch is reached only when something outside the
  library's `try` blocks throws, for example `URL.createObjectURL` in the video
  fallback. The model keeps that branch as the `Threw` outcome. Such an entry ends
  with `isCompressing = false`, keeps its 0% progress and has no result, and the
  next run picks it up again.
- The page passes a quality option and a progress callback to `compressVideo`, which ignores both. The model records the options the page passes in each call.
- No progress events occur. `compressVideo` takes only the file. The progress
  callback the page passes is never called, so a video goes from 0% to 100% in one
  step.
- The ratio is neither clamped nor guarded against zero:
  - it is negative when the output grew;
  - an original size of 0 gives `NaN` for an empty output and `-Infinity` otherwise.
  The failure fallbacks report a fixed ratio of 0.
- Unsupported files are not rejected when they are enqueued:
  - the file-input handler passes every chosen file;
  - such an entry is marked compressing, matches neither service branch, and stays
    compressing with no result for good;
  - it therefore keeps "all compressed" false for good.
- `handleCompressAll` has no re-entrancy guard of its own. The only guard is the
  button's `disabled` condition, modelled as `CompressAllEnabled`. `isProcessing` is
  set for every run, even one with nothing to do.
- `totalSavings` rounds half up with `Math.round`, but each file's ratio is floored.
  The two can differ by one point for the same sizes.

## Model

| member | source | states |
|---|---|---|
| JsStrings.StartsWith | client/lib/compression.ts:266-272 | the definition: `String.prototype.startsWith`, the prefix test behind `isImageFile`, `isVideoFile` and the drop filter at file-upload-zone.tsx:21; `Compression.ImageAndVideoExclusive` and `UploadZone.DropPassesOnlyMedia` state its consequences |
| JsStrings.Split | client/lib/compression.ts:151 | `split(".")` always yields at least one piece, and no piece contains the separator |
| JsStrings.JoinSplit | client/lib/compression.ts:151 | joining the pieces with the separator gives back the original string, so the split loses nothing |
| JsStrings.SplitJoin | client/lib/compression.ts:151 | splitting the join of separator-free pieces gives back the pieces, so split and join are inverses |
| JsStrings.SplitWithoutSeparator | client/lib/compression.ts:151 | a string without the separator splits into itself alone |
| JsStrings.SplitAround | client/lib/compression.ts:151 | splitting `a + sep + b` gives the pieces of `a` followed by the pieces of `b` |
| JsStrings.LastSplitSegment | client/lib/compression.ts:151 | the piece `pop()` returns is a suffix of the string; it is the whole string exactly when there is one piece, and otherwise a separator stands right before it |
| JsStrings.ToLower | client/lib/compression.ts:151 | lower-casing maps each character independently and keeps the length |
| JsStrings.ToLowerKeepsNonLetter | client/lib/compression.ts:151 | a non-letter such as `.` is neither created nor removed by lower-casing |
| Compression.CompressionRatio | client/lib/compression.ts:97-99 | for a positive original size the ratio is the floor of 100·(original − compressed)/original; for original size 0 it is `NaN` (empty output) or `-Infinity` |
| Compression.RatioWithinPercentRange | client/lib/compression.ts:97-99 | when a non-empty file does not grow, the ratio lies in [0, 100] |
| Compression.RatioNegativeIffLarger | client/lib/compression.ts:216-218 | the ratio is negative exactly when the output is larger than the original (no clamping) |
| Compression.RatioFullIffEmptyOutput | client/lib/compression.ts:97-99 | the ratio is 100 exactly when the output is empty |
| Compression.RatioAntitone | client/lib/compression.ts:97-99 | a larger output never reports a larger saving |
| Compression.RatioExample | client/lib/compression.ts:97-99 | 10,000,000 bytes compressed to 4,000,000 give 60 |
| Compression.CompressImage | client/lib/compression.ts:82-112 | on success: the encoder's file, the input size as original size, the output size as compressed size, the ratio of the two, an empty url; on an encoder error: the input file with compressed size equal to original size and ratio 0; it never fails |
| Compression.CompressVideo | client/lib/compression.ts:114-254 | on success: a `video/mp4` file named by the output-name rewrite and holding the transcoder's bytes, with the ratio and its object URL; on any pipeline error: the input file, compressed size equal to original size, ratio 0, and the input's object URL |
| Compression.ImageRatioConsistentIff | client/lib/compression.ts:93-110 | an image result's stored ratio agrees with its two sizes exactly when encoding succeeded or the file is non-empty |
| Compression.VideoRatioConsistentIff | client/lib/compression.ts:215-252 | a video result's stored ratio agrees with its two sizes exactly when transcoding succeeded or the file is non-empty |
| Compression.ZeroByteImageRatio | client/lib/compression.ts:97-99 | an encoded zero-byte image has no percentage as its ratio |
| Compression.IsImageFile | client/lib/compression.ts:266-268 | the definition: the declared type starts with `image/`; `Compression.ImageAndVideoExclusive` relates it to the video test |
| Compression.IsVideoFile | client/lib/compression.ts:270-272 | the definition: the declared type starts with `video/` |
| Compression.ImageAndVideoExclusive | client/lib/compression.ts:266-272 | no file is both an image and a video |
| Compression.FileExtension | client/lib/compression.ts:151 | the extension used for the FFmpeg input is never empty and never contains a dot |
| Compression.ExtensionAfterLastDot | client/lib/compression.ts:151 | for `stem.ext` with a dot-free `ext`, the extension is `ext` lower-cased, or `mp4` when `ext` is empty |
| Compression.ExtensionOfDotlessName | client/lib/compression.ts:151 | a dot-free name is its own extension, lower-cased; the empty name gives `mp4` |
| Compression.StripFinalExtension | client/lib/compression.ts:211 | the definition: `replace(/\.[^/.]+$/, "")` computed from the last piece of the split; `Compression.StripFinalExtensionIsRegexReplace` proves that it removes exactly the pattern's match |
| Compression.OutputName | client/lib/compression.ts:211 | the definition: the stripped name followed by `_compressed.mp4`; the `OutputName…` lemmas state its properties |
| Compression.StripFinalExtensionIsRegexReplace | client/lib/compression.ts:211 | the split-based strip removes exactly the match of `\.[^/.]+$`, and nothing when the pattern does not match |
| Compression.OutputNameSuffix | client/lib/compression.ts:211 | every output name ends with `_compressed.mp4`, preceded by the stripped input name |
| Compression.OutputNameReplacesExtension | client/lib/compression.ts:211 | a final extension without dot or slash is replaced by `_compressed.mp4` |
| Compression.OutputNameExample | client/lib/compression.ts:211 | only the last extension goes: `a.tar.gz` becomes `a.tar_compressed.mp4` |
| Compression.OutputNameKeepsUnmatchedName | client/lib/compression.ts:211 | a name the pattern does not match is kept whole before the suffix |
| Compression.OutputNameTrailingDot | client/lib/compression.ts:211 | a name ending in a dot is not matched: `clip.` becomes `clip._compressed.mp4` |
| Compression.UnitIndex | client/lib/compression.ts:260 | the unit index is the `i` with 1024^i ≤ bytes < 1024^(i+1) |
| Compression.UnitName | client/lib/compression.ts:259-263 | the definition: the entry `sizes[i]` of the four-unit table, and the text `undefined` past its end |
| Compression.FormatFileSize | client/lib/compression.ts:256-264 | the output is `0 Bytes` exactly for 0; any other size is scaled by the unit index above and labelled with that table entry |
| Compression.FormatFileSizeExample | client/lib/compression.ts:256-264 | 1536 bytes are shown in KB |
| Compression.FormatFileSizeBeyondGigabytes | client/lib/compression.ts:259-263 | from 1024^4 bytes on, the index runs past the table and the unit reads `undefined` |
| UploadZone.DropAccepts | client/components/file-upload-zone.tsx:21 | the definition: the drop filter's test, the same two prefixes as `isImageFile` and `isVideoFile` (see `UploadZone.DropPassesOnlyMedia`) |
| UploadZone.DroppedMedia | client/components/file-upload-zone.tsx:20-22 | the drop filter keeps exactly the dropped files whose type starts with `image/` or `video/`, as an order-preserving subsequence |
| UploadZone.DroppedMediaConcat | client/components/file-upload-zone.tsx:20-22 | filtering a concatenation is concatenating the filtered parts, so the filter keeps every accepted file in place |
| UploadZone.DroppedMediaKeepsAllMedia | client/components/file-upload-zone.tsx:20-22 | a drop made only of images and videos passes unchanged |
| UploadZone.HandleDrop | client/components/file-upload-zone.tsx:15-29 | `onFilesSelected` is called exactly when the zone is enabled and some dropped file is media, and then with the filtered, non-empty list |
| UploadZone.HandleFileInput | client/components/file-upload-zone.tsx:31-40 | `onFilesSelected` is called exactly when the zone is enabled and a non-empty selection exists, and then with every chosen file |
| UploadZone.DropPassesOnlyMedia | client/components/file-upload-zone.tsx:20-25 | everything a drop hands on is an image or a video for the compression library |
| UploadZone.FileInputPassesNonMedia | client/components/file-upload-zone.tsx:34-37 | a `text/plain` file chosen through the input reaches `onFilesSelected` |
| UploadZone.DropRejectsNonMedia | client/components/file-upload-zone.tsx:20-26 | the same file dropped on the zone makes no call |
| Page.KindOf | client/app/page.tsx:55-65 | the definition: the dispatch tries the image test first, then the video test; `Page.KindOfClassifies` states its three outcomes |
| Page.KindOfClassifies | client/app/page.tsx:55-65 | the dispatch takes the image branch exactly for images and the video branch exactly for videos, and neither branch otherwise |
| Page.Apply | client/app/page.tsx:50 | an `{ ...f, ... }` update never changes an entry's file or id |
| Page.UpdateById | client/app/page.tsx:50 | the `map` keeps the length and changes exactly the entries whose id matches |
| Page.Without | client/app/page.tsx:38 | the `filter` keeps exactly the entries whose id is not removed, as an order-preserving subsequence |
| Page.NewEntries | client/app/page.tsx:30-33 | one entry per selected file, in order, with consecutive fresh ids and no result, status or progress |
| Page.Processed | client/app/page.tsx:45-76 | one run's effect on one entry: unchanged if it had a result; otherwise a result exactly for a supported kind whose call returned (then not compressing, 100%); not compressing at 0% if the call threw; compressing at 0% for good if the kind is unsupported |
| Page.ProcessedAll | client/app/page.tsx:45-77 | the definition: every snapshot entry processed with its own outcome; the `Run…` lemmas state its properties |
| Page.OptionsFor | client/app/page.tsx:43-66 | the definition: the options the page passes: quality `quality / 100` for both services, and a 1920 by 1920 bound for images |
| Page.Awaits | client/app/page.tsx:47-65 | the definition: the entry is not skipped as already compressed, and the dispatch sends it to an image or a video service; `Page.Processed` and the `Run…` lemmas state what follows from it |
| Page.EligibleBelow | client/app/page.tsx:45-66 | the definition: the positions below `n` whose loop turn reaches a service call, in increasing order; `Page.EligibleBelowIsAwaitingInOrder` states its properties |
| Page.Eligible | client/app/page.tsx:45-66 | the definition: the loop turns of the whole snapshot that reach a service call; `Page.EligibleBelowIsAwaitingInOrder` states they are exactly the awaiting positions, each once, in order |
| Page.EligibleBelowIsAwaitingInOrder | client/app/page.tsx:45-47 | the positions called are exactly those without a result and of a supported kind, each once, in increasing order |
| Page.NothingAwaitingNothingEligible | client/app/page.tsx:45-47 | with no entry awaiting a service, no call is made |
| Page.AllAwaitingAllEligible | client/app/page.tsx:45-56 | when every entry awaits a service, every position is called, in order |
| Page.UpdateAtUniqueId | client/app/page.tsx:50 | with unique ids, updating by an entry's id changes that one position only |
| Page.UpdateCommutesWithWithout | client/app/page.tsx:62-64 | an update by id after removals equals the removals after the update, so an update never brings back or alters a removed entry |
| Page.WithoutTwice | client/app/page.tsx:38 | two successive removals are one removal of both id sets |
| Page.WithoutKeepsUnique | client/app/page.tsx:38 | removal keeps ids unique |
| Page.WithoutAbsent | client/app/page.tsx:38 | removing ids no entry has leaves the list unchanged |
| Page.WithoutPresentShrinksByOne | client/app/page.tsx:38 | with unique ids, removing a present id removes exactly one entry |
| Page.TotalOriginalSize | client/app/page.tsx:93 | the definition: the sum of the file sizes; `Page.TotalOriginalSizeConcat` and the other total lemmas state its properties |
| Page.EffectiveCompressedSize | client/app/page.tsx:94 | `result?.compressedSize \|\| file.size`: a non-zero compressed size counts as itself; a missing result or a zero compressed size falls back to the file's size; an entry counts 0 only when its own file is empty |
| Page.TotalCompressedSize | client/app/page.tsx:94 | the definition: the sum of the effective compressed sizes |
| Page.TotalSavings | client/app/page.tsx:95 | the definition: the rounded savings of the two totals over the live list |
| Page.RoundedSavings | client/app/page.tsx:95 | 0 for an empty original total; otherwise the integer nearest to 100·(original − compressed)/original, halves rounded up |
| Page.EveryCompressed | client/app/page.tsx:97 | `every(f => f.result)` holds exactly when every entry has a result |
| Page.AllCompressed | client/app/page.tsx:97 | `allCompressed` holds exactly when the list is non-empty and every entry has a result |
| Page.HasUncompressedFiles | client/app/page.tsx:98 | `hasUncompressedFiles` holds exactly when some entry lacks a result |
| Page.CompressAllEnabled | client/app/page.tsx:194 | Compress All is enabled exactly when no run is in progress, the list is non-empty and not all entries are compressed |
| Page.TotalOriginalSizeConcat | client/app/page.tsx:93 | the original total of two lists end to end is the sum of their totals |
| Page.TotalCompressedSizeConcat | client/app/page.tsx:94 | the same for the compressed total |
| Page.SelectionAddsSizes | client/app/page.tsx:93-94 | selecting files adds exactly their sizes to the original total, and adds the same amount to the compressed total |
| Page.UnreducedEntriesSameTotals | client/app/page.tsx:93-94 | when every entry counts its original size, the compressed total equals the original total |
| Page.NothingCompressedSavesNothing | client/app/page.tsx:93-95 | with no results, the compressed total equals the original total and the savings are 0 |
| Page.UnchangedSizeSavesNothing | client/app/page.tsx:95 | equal totals give 0% savings |
| Page.RemovalSubtractsSizes | client/app/page.tsx:93-94 | removing an entry takes its file size off the original total and its effective size off the compressed total |
| Page.RoundedSavingsBounds | client/app/page.tsx:95 | the savings never exceed 100, and are never negative when the compressed total is not larger |
| Page.SavingsExample | client/app/page.tsx:95 | 10,000,000 bytes compressed to 4,000,000 give 60% savings |
| Page.SavingsRoundWhereRatioFloors | client/app/page.tsx:95 | 3 bytes compressed to 1 give a file ratio of 66 but total savings of 67 |
| Page.AllCompressedIffNoneUncompressed | client/app/page.tsx:97-98 | `allCompressed` holds exactly when the list is non-empty and `hasUncompressedFiles` does not hold; an empty list has neither |
| Page.RunRecordsResults | client/app/page.tsx:45-71 | a run keeps every entry's id and file, leaves entries with a result untouched, and gives each awaiting entry whose call returned that call's result |
| Page.RunCompletesAllMedia | client/app/page.tsx:55-76 | after a run an entry lacks a result exactly when it lacked one before and either its kind is unsupported or its call threw |
| Page.CompletedQueueRunIsNoOp | client/app/page.tsx:45-47 | on a list where every entry has a result, a run calls no service and changes nothing |
| Page.SecondRunChangesNothing | client/app/page.tsx:45-47 | after a run whose calls all returned, a second run calls no service and changes nothing |
| Page.FailedEntriesAreRetried | client/app/page.tsx:73-76 | an entry whose call threw is called again by the next run |
| Page.UnsupportedEntryBlocksAllCompressed | client/app/page.tsx:55-76 | an unsupported entry with no result is left compressing by any run and keeps `allCompressed` false |
| Page.RunKeepsTotalOriginalSize | client/app/page.tsx:93 | a run does not change the original total |
| Page.RemovedStayRemoved | client/app/page.tsx:37-39 | an id removed while a call was pending is absent from the list the run leaves |
| Page.ImageEncoderFailureIsRecorded | client/lib/compression.ts:102-111 | an image whose encoder throws gets the fallback as its result: the original file and size, ratio 0, not compressing, at 100%; it counts its original size and no later run awaits it (with page.tsx:62-64) |
| Page.VideoTranscodeFailureIsRecorded | client/lib/compression.ts:236-253 | the same for a video whose pipeline throws, with the object URL of the original file (with page.tsx:69-71) |
| Page.EncoderFailuresCountAsCompressed | client/app/page.tsx:45-98 | a run in which every encoder fails leaves a list that reads as all compressed, with equal totals and 0% savings, and no later run calls a service for it |
| Page.PartialFailureCalls | client/app/page.tsx:45-76 | for [image, video, image] the run calls a service for positions 0, 1 and 2, in that order |
| Page.PartialFailureOutcome | client/app/page.tsx:52-76 | for [image returns, video throws, image returns] both images end with their results at 100%, the video ends with no result, not compressing, at 0%, and the list is not all compressed |
| Page.Home.constructor | client/app/page.tsx:25-27 | the page starts with an empty list, quality 75 and no run in progress |
| Page.Home.HandleFilesSelected | client/app/page.tsx:29-35 | appends one fresh entry per selected file, in order, after the existing entries unchanged; ids stay unique |
| Page.Home.HandleRemoveFile | client/app/page.tsx:37-39 | the list becomes the old list without the entries of that id; nothing else changes |
| Page.Home.UpdateFile | client/app/page.tsx:50 | a `setFiles(prev => prev.map(...))` update: the list becomes the update by id of the old list; ids stay unique |
| Page.Home.RemoveWhilePending | client/app/page.tsx:37-39 | Remove clicks applied in order leave the list without every clicked id |
| Page.Home.UpdateLive | client/app/page.tsx:50-75 | one `setFiles` update of the run, seen through the run's bookkeeping: the live list stays the updated snapshot without the removed ids, and ids stay unique |
| Page.Home.AwaitService | client/app/page.tsx:52-76 | one service call sees the entry as it stands in the live list (or its absence) with `isProcessing` set and the page's options; the entry is then completed or failed according to the outcome |
| Page.Home.CompressOne | client/app/page.tsx:45-76 | one loop turn: the snapshot entry's state becomes its processed state; a call is made exactly when the entry awaits a service, with the entry's kind and options |
| Page.Home.HandleCompressAll | client/app/page.tsx:41-80 | leaves the live list equal to the processed snapshot minus the ids removed during pending calls, with `isProcessing` cleared and ids unique; the calls follow the eligible positions in snapshot order |

## Left out

- Rendering is not modelled: the JSX, the file cards, the previews, the slider and the alert. The `handleUploadAll` placeholder and its `alert` are not modelled either.
- The encoders themselves are not modelled: `browser-image-compression`, and FFmpeg loading, `writeFile`, `exec` and `readFile`. Each is an abstract outcome: an output, or an error.
- `URL.createObjectURL` is a parameter. `File` construction is modelled by the name, type and size it records. `console` logging is not modelled.
- `Date.now()` and `Math.random()` become a counter. Entry ids are therefore fresh by construction. The temporary FFmpeg file names are not modelled.
- Floating point is replaced by exact arithmetic:
  - the ratio is an exact floor;
  - `totalSavings` is an exact round-half-up;
  - `formatFileSize` picks its unit by exact powers of 1024.
  The two-decimal number text of `formatFileSize` is not modelled.
- `Compression.FormatFileSize` takes a natural number. The summary line calls `formatFileSize(totalOriginalSize - totalCompressedSize)` (page.tsx:156), which is negative when the outputs grew: `Math.log` then gives `NaN` and the text reads `NaN undefined`. That call with a negative size is not modelled.
- `Compression.CompressionRatio`: the exact floor can be one point above the browser's value. For 50 bytes compressed to 21, the browser computes `Math.floor(57.99999999999999)` = 57, and the model gives 58. For 100 bytes compressed to 71, the browser gives 28 and the model gives 29.
- `Page.RoundedSavings`: `Math.round` in `totalSavings` can drift by one point in the same way, at sizes whose exact savings lie on a half.
- `Page.OptionsFor`: the quality option is the exact real `quality / 100`, not a double.
- `toLowerCase` is modelled for ASCII letters only.
- Asynchrony and React state batching are not modelled as such. The run is a sequential loop, and every `setFiles` functional update is applied in order to the live list. Outcomes and the Remove clicks arriving during each pending call are inputs to the run.
- Files selected during a run are not modelled, because the upload zone is disabled while `isProcessing` holds. A quality change during a run is not modelled, because the slider is disabled while `isProcessing` holds.
- The progress callback passed to `compressVideo` is not modelled. `compressVideo` takes one parameter, so the callback never runs.
- The commented-out canvas implementation at the top of the compression library is not modelled. It is dead code.
- `Page.Home.HandleCompressAll`: a concurrent second invocation is not modelled. The page has no guard beyond the button's enabled state, which `Page.CompressAllEnabled` describes.
