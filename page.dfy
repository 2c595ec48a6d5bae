/**
 * The page's file queue: entries are appended when files are selected, removed
 * by id, and driven through compression by one sequential "compress all" run;
 * the summary statistics are recomputed from the live list.
 */
module Page {
  import opened Common
  import opened Compression

  /** Entry ids. They are drawn from a counter, so every new id is fresh. */
  type Id = nat

  /** `FileWithStatus`: the optional fields are `undefined` until first set. */
  datatype FileWithStatus = FileWithStatus(
    file: MediaFile,
    id: Id,
    result: Option<CompressionResult>,
    isCompressing: Option<bool>,
    progress: Option<int>)

  /** Which branch of the dispatch an entry takes. */
  datatype MediaKind = ImageKind | VideoKind | OtherKind

  /** `isImageFile(f) ? image : isVideoFile(f) ? video : neither`. */
  function KindOf(file: MediaFile): MediaKind {
    if IsImageFile(file) then ImageKind else if IsVideoFile(file) then VideoKind else OtherKind
  }

  /** The dispatch tells the three kinds apart exactly as the two predicates do. */
  lemma KindOfClassifies(file: MediaFile)
    ensures KindOf(file) == ImageKind <==> IsImageFile(file)
    ensures KindOf(file) == VideoKind <==> IsVideoFile(file)
    ensures KindOf(file) == OtherKind <==> !IsImageFile(file) && !IsVideoFile(file)
  {
    ImageAndVideoExclusive(file);
  }

  /** How an awaited compression service call ends: with a result, or by throwing. */
  datatype ServiceOutcome = Returned(result: CompressionResult) | Threw

  /** The three `{ ...f, ... }` updates the run applies to an entry. */
  datatype Change = MarkCompressing | Complete(result: CompressionResult) | MarkFailed

  function Apply(entry: FileWithStatus, change: Change): (r: FileWithStatus)
    ensures r.file == entry.file && r.id == entry.id
  {
    match change
    case MarkCompressing => entry.(isCompressing := Some(true), progress := Some(0))
    case Complete(result) => entry.(result := Some(result), isCompressing := Some(false), progress := Some(100))
    case MarkFailed => entry.(isCompressing := Some(false))
  }

  /** `files.map(f => f.id === id ? { ...f, change } : f)`. */
  function UpdateById(files: seq<FileWithStatus>, id: Id, change: Change): (r: seq<FileWithStatus>)
    ensures |r| == |files|
    ensures forall k :: 0 <= k < |files| ==> r[k] == (if files[k].id == id then Apply(files[k], change) else files[k])
  {
    if files == [] then []
    else [if files[0].id == id then Apply(files[0], change) else files[0]] + UpdateById(files[1..], id, change)
  }

  /** `files.filter(f => !gone.has(f.id))`; with `gone == {id}` this is the filter of `handleRemoveFile`. */
  function Without(files: seq<FileWithStatus>, gone: set<Id>): (r: seq<FileWithStatus>)
    ensures forall e :: e in r <==> e in files && e.id !in gone
    ensures IsSubsequence(r, files)
  {
    if files == [] then []
    else
      var rest := Without(files[1..], gone);
      if files[0].id in gone then rest else [files[0]] + rest
  }

  /** No two entries share an id. */
  predicate UniqueIds(files: seq<FileWithStatus>) {
    forall i, j :: 0 <= i < j < |files| ==> files[i].id != files[j].id
  }

  /** The first entry with the given id, if any. */
  function FindById(files: seq<FileWithStatus>, id: Id): (r: Option<FileWithStatus>)
    ensures r.Some? ==> r.value in files && r.value.id == id
    ensures r.None? ==> forall e :: e in files ==> e.id != id
  {
    if files == [] then None
    else if files[0].id == id then Some(files[0])
    else FindById(files[1..], id)
  }

  /** `newFiles.map(file => ({ file, id }))` with consecutive fresh ids from `firstId`. */
  function NewEntries(newFiles: seq<MediaFile>, firstId: Id): (r: seq<FileWithStatus>)
    ensures |r| == |newFiles|
    ensures forall k :: 0 <= k < |r| ==> r[k] == FileWithStatus(newFiles[k], firstId + k, None, None, None)
  {
    if newFiles == [] then []
    else [FileWithStatus(newFiles[0], firstId, None, None, None)] + NewEntries(newFiles[1..], firstId + 1)
  }

  /** The entry awaits a compression service in a run: it has no result and is an image or a video. */
  predicate Awaits(entry: FileWithStatus) {
    entry.result.None? && KindOf(entry.file) != OtherKind
  }

  /**
   * The state one run leaves an entry in, given the outcome of its service call:
   * an entry with a result is skipped; otherwise it is marked compressing at 0%,
   * then completed or failed; an entry of neither kind stays compressing.
   */
  function Processed(entry: FileWithStatus, outcome: ServiceOutcome): (r: FileWithStatus)
    ensures r.file == entry.file && r.id == entry.id
    ensures entry.result.Some? ==> r == entry
    ensures entry.result.None? ==> (r.result.Some? <==> KindOf(entry.file) != OtherKind && outcome.Returned?)
    ensures entry.result.None? && KindOf(entry.file) == OtherKind ==>
      r.isCompressing == Some(true) && r.progress == Some(0)
    ensures Awaits(entry) && outcome.Returned? ==>
      r.result == Some(outcome.result) && r.isCompressing == Some(false) && r.progress == Some(100)
    ensures Awaits(entry) && outcome.Threw? ==> r.isCompressing == Some(false) && r.progress == Some(0)
  {
    if entry.result.Some? then entry
    else
      var marked := Apply(entry, MarkCompressing);
      if KindOf(entry.file) == OtherKind then marked
      else
        match outcome
        case Returned(result) => Apply(marked, Complete(result))
        case Threw => Apply(marked, MarkFailed)
  }

  /** Every entry of the snapshot processed with its own outcome. */
  function ProcessedAll(snapshot: seq<FileWithStatus>, outcomes: seq<ServiceOutcome>): seq<FileWithStatus>
    requires |snapshot| == |outcomes|
  {
    seq(|snapshot|, k requires 0 <= k < |snapshot| => Processed(snapshot[k], outcomes[k]))
  }

  /** The ids listed in a sequence. */
  function ElementsOf(ids: seq<Id>): set<Id> {
    set x | x in ids
  }

  /** Extending a prefix of the id list by one id adds that id to its set. */
  lemma ElementsOfPrefix(ids: seq<Id>, j: nat)
    requires j < |ids|
    ensures ElementsOf(ids[..j + 1]) == ElementsOf(ids[..j]) + {ids[j]}
  {
    assert ids[..j + 1] == ids[..j] + [ids[j]];
  }

  /**
   * The ids the user removed while one of the first `n` snapshot entries was
   * awaiting its service call (`removals[k]` are the clicks during entry k's call).
   */
  function RemovedDuring(snapshot: seq<FileWithStatus>, removals: seq<seq<Id>>, n: nat): set<Id>
    requires n <= |snapshot| == |removals|
  {
    if n == 0 then {}
    else RemovedDuring(snapshot, removals, n - 1) + (if Awaits(snapshot[n - 1]) then ElementsOf(removals[n - 1]) else {})
  }

  /** The positions below `n` whose entries call a compression service, in increasing order. */
  function EligibleBelow(snapshot: seq<FileWithStatus>, n: nat): seq<nat>
    requires n <= |snapshot|
  {
    if n == 0 then [] else EligibleBelow(snapshot, n - 1) + (if Awaits(snapshot[n - 1]) then [n - 1] else [])
  }

  /**
   * The eligible positions are exactly the awaiting ones, each listed once in
   * increasing order: the run reaches the entries in snapshot order.
   */
  lemma {:induction false} EligibleBelowIsAwaitingInOrder(snapshot: seq<FileWithStatus>, n: nat)
    requires n <= |snapshot|
    ensures var r := EligibleBelow(snapshot, n);
      && (forall k :: 0 <= k < |r| ==> r[k] < n && Awaits(snapshot[r[k]]))
      && (forall k, l :: 0 <= k < l < |r| ==> r[k] < r[l])
      && (forall i :: 0 <= i < n && Awaits(snapshot[i]) ==> i in r)
  {
    if n > 0 {
      EligibleBelowIsAwaitingInOrder(snapshot, n - 1);
    }
  }

  /** The snapshot positions whose entries call a compression service, in increasing order. */
  function Eligible(snapshot: seq<FileWithStatus>): seq<nat> {
    EligibleBelow(snapshot, |snapshot|)
  }

  /** With nothing awaiting a service, nothing is eligible. */
  lemma {:induction false} NothingAwaitingNothingEligible(snapshot: seq<FileWithStatus>, n: nat)
    requires n <= |snapshot|
    requires forall i :: 0 <= i < n ==> !Awaits(snapshot[i])
    ensures EligibleBelow(snapshot, n) == []
  {
    if n > 0 {
      NothingAwaitingNothingEligible(snapshot, n - 1);
    }
  }

  /** When every entry awaits a service, every position is called, in order. */
  lemma {:induction false} AllAwaitingAllEligible(snapshot: seq<FileWithStatus>, n: nat)
    requires n <= |snapshot|
    requires forall i :: 0 <= i < n ==> Awaits(snapshot[i])
    ensures |EligibleBelow(snapshot, n)| == n
    ensures forall k :: 0 <= k < n ==> EligibleBelow(snapshot, n)[k] == k
  {
    if n > 0 {
      AllAwaitingAllEligible(snapshot, n - 1);
      assert Awaits(snapshot[n - 1]);
    }
  }

  /** The options the page passes: `quality / 100`, plus a 1920-pixel bound for images. */
  datatype ServiceOptions = ImageOptions(quality: real, maxWidth: nat, maxHeight: nat) | VideoOptions(quality: real)

  function OptionsFor(kind: MediaKind, quality: nat): ServiceOptions {
    if kind == ImageKind then ImageOptions(quality as real / 100.0, 1920, 1920) else VideoOptions(quality as real / 100.0)
  }

  /**
   * One compression service invocation as the rest of the page sees it: which
   * entry, which service and options, the entry as it stood in the live list at
   * that moment (`None` once removed) and the `isProcessing` flag then.
   */
  datatype ServiceCall = ServiceCall(
    index: nat,
    id: Id,
    kind: MediaKind,
    options: ServiceOptions,
    observed: Option<FileWithStatus>,
    whileProcessing: bool)

  /**
   * The call is made for snapshot entry `index` with that entry's service and
   * options, while `isProcessing` holds, after the entry was marked compressing
   * at 0% (unless the user had already removed it).
   */
  predicate CallMatches(call: ServiceCall, snapshot: seq<FileWithStatus>, removals: seq<seq<Id>>, quality: nat) {
    && |removals| == |snapshot|
    && call.index < |snapshot|
    && call.id == snapshot[call.index].id
    && call.kind == KindOf(snapshot[call.index].file)
    && call.options == OptionsFor(call.kind, quality)
    && call.whileProcessing
    && call.observed ==
         (if call.id in RemovedDuring(snapshot, removals, call.index) then None
          else Some(Apply(snapshot[call.index], MarkCompressing)))
  }

  /** `work` is the snapshot with its first `n` entries processed and the rest untouched. */
  ghost predicate ProcessedUpTo(work: seq<FileWithStatus>, snapshot: seq<FileWithStatus>, outcomes: seq<ServiceOutcome>, n: nat) {
    && |work| == |snapshot| == |outcomes|
    && n <= |snapshot|
    && (forall k :: 0 <= k < n ==> work[k] == Processed(snapshot[k], outcomes[k]))
    && (forall k :: n <= k < |work| ==> work[k] == snapshot[k])
  }

  lemma ProcessedUpToStep(work: seq<FileWithStatus>, snapshot: seq<FileWithStatus>, outcomes: seq<ServiceOutcome>, n: nat)
    requires ProcessedUpTo(work, snapshot, outcomes, n) && n < |snapshot|
    ensures work[n] == snapshot[n]
    ensures ProcessedUpTo(work[n := Processed(snapshot[n], outcomes[n])], snapshot, outcomes, n + 1)
  {
  }

  lemma ProcessedUpToEnd(work: seq<FileWithStatus>, snapshot: seq<FileWithStatus>, outcomes: seq<ServiceOutcome>)
    requires ProcessedUpTo(work, snapshot, outcomes, |snapshot|)
    ensures work == ProcessedAll(snapshot, outcomes)
  {
  }

  /** The calls made so far are those for the `eligible` positions, in that order, each matching its entry. */
  predicate CallsFollow(calls: seq<ServiceCall>, eligible: seq<nat>, snapshot: seq<FileWithStatus>, removals: seq<seq<Id>>, quality: nat) {
    |calls| == |eligible|
    && forall k :: 0 <= k < |calls| ==> calls[k].index == eligible[k] && CallMatches(calls[k], snapshot, removals, quality)
  }

  lemma CallsFollowExtend(
    calls: seq<ServiceCall>, eligible: seq<nat>, snapshot: seq<FileWithStatus>, removals: seq<seq<Id>>, quality: nat,
    call: ServiceCall)
    requires CallsFollow(calls, eligible, snapshot, removals, quality)
    requires CallMatches(call, snapshot, removals, quality)
    ensures CallsFollow(calls + [call], eligible + [call.index], snapshot, removals, quality)
  {
  }

  /** One turn of the run loop keeps the loop's bookkeeping in step with the snapshot. */
  lemma RunStep(
    snapshot: seq<FileWithStatus>, outcomes: seq<ServiceOutcome>, removals: seq<seq<Id>>, quality: nat, i: nat,
    work: seq<FileWithStatus>, removed: set<Id>, calls: seq<ServiceCall>,
    call: Option<ServiceCall>, work': seq<FileWithStatus>, removed': set<Id>)
    requires ProcessedUpTo(work, snapshot, outcomes, i) && i < |snapshot| == |removals|
    requires removed == RemovedDuring(snapshot, removals, i)
    requires CallsFollow(calls, EligibleBelow(snapshot, i), snapshot, removals, quality)
    requires work' == work[i := Processed(snapshot[i], outcomes[i])]
    requires removed' == removed + (if Awaits(snapshot[i]) then ElementsOf(removals[i]) else {})
    requires call.Some? <==> Awaits(snapshot[i])
    requires call.Some? ==> call.value == ServiceCall(
      i, snapshot[i].id, KindOf(snapshot[i].file), OptionsFor(KindOf(snapshot[i].file), quality),
      if snapshot[i].id in removed then None else Some(Apply(snapshot[i], MarkCompressing)), true)
    ensures ProcessedUpTo(work', snapshot, outcomes, i + 1)
    ensures removed' == RemovedDuring(snapshot, removals, i + 1)
    ensures CallsFollow(calls + (if call.Some? then [call.value] else []), EligibleBelow(snapshot, i + 1), snapshot, removals, quality)
  {
    ProcessedUpToStep(work, snapshot, outcomes, i);
    if call.Some? {
      CallsFollowExtend(calls, EligibleBelow(snapshot, i), snapshot, removals, quality, call.value);
    }
  }

  /** With unique ids, updating by an entry's id updates that one position. */
  lemma UpdateAtUniqueId(files: seq<FileWithStatus>, k: nat, change: Change)
    requires UniqueIds(files) && k < |files|
    ensures UpdateById(files, files[k].id, change) == files[k := Apply(files[k], change)]
  {
  }

  /** An update by id never touches an entry that a filter removed, nor brings one back. */
  lemma {:induction false} UpdateCommutesWithWithout(files: seq<FileWithStatus>, gone: set<Id>, id: Id, change: Change)
    ensures UpdateById(Without(files, gone), id, change) == Without(UpdateById(files, id, change), gone)
  {
    if files != [] {
      UpdateCommutesWithWithout(files[1..], gone, id, change);
      var updated := UpdateById(files, id, change);
      assert updated[1..] == UpdateById(files[1..], id, change);
      var rest := Without(files[1..], gone);
      if files[0].id !in gone {
        assert UpdateById([files[0]] + rest, id, change) == [updated[0]] + UpdateById(rest, id, change);
      }
    }
  }

  /** Filtering twice is filtering once by both sets of ids. */
  lemma {:induction false} WithoutTwice(files: seq<FileWithStatus>, a: set<Id>, b: set<Id>)
    ensures Without(Without(files, a), b) == Without(files, a + b)
  {
    if files != [] {
      WithoutTwice(files[1..], a, b);
      var rest := Without(files[1..], a);
      if files[0].id !in a {
        assert ([files[0]] + rest)[1..] == rest;
      }
    }
  }

  /** Filtering keeps ids unique. */
  lemma {:induction false} WithoutKeepsUnique(files: seq<FileWithStatus>, gone: set<Id>)
    requires UniqueIds(files)
    ensures UniqueIds(Without(files, gone))
  {
    if files != [] {
      WithoutKeepsUnique(files[1..], gone);
      var rest := Without(files[1..], gone);
      forall e | e in rest ensures e.id != files[0].id {
        var j :| 0 <= j < |files[1..]| && files[1..][j] == e;
        assert files[j + 1] == e;
      }
    }
  }

  /** Filtering by ids no entry has leaves the list as it was. */
  lemma {:induction false} WithoutAbsent(files: seq<FileWithStatus>, gone: set<Id>)
    requires forall k :: 0 <= k < |files| ==> files[k].id !in gone
    ensures Without(files, gone) == files
  {
    if files != [] {
      WithoutAbsent(files[1..], gone);
      assert [files[0]] + files[1..] == files;
    }
  }

  /** With unique ids, removing a present id removes exactly one entry. */
  lemma {:induction false} WithoutPresentShrinksByOne(files: seq<FileWithStatus>, k: nat)
    requires UniqueIds(files) && k < |files|
    ensures |Without(files, {files[k].id})| == |files| - 1
  {
    var id := files[k].id;
    if k == 0 {
      WithoutAbsent(files[1..], {id});
    } else {
      WithoutPresentShrinksByOne(files[1..], k - 1);
    }
  }

  /** After a filter, looking an entry up by its id finds it unless its id was filtered out. */
  lemma FindInWithout(files: seq<FileWithStatus>, gone: set<Id>, k: nat)
    requires UniqueIds(files) && k < |files|
    ensures FindById(Without(files, gone), files[k].id) == if files[k].id in gone then None else Some(files[k])
  {
    var found := FindById(Without(files, gone), files[k].id);
    if found.Some? {
      var j :| 0 <= j < |files| && files[j] == found.value;
    }
  }

  /** Updating the live list by the id of `work[index]` updates that entry of `work`, and keeps ids unique. */
  lemma UpdateLiveEntry(work: seq<FileWithStatus>, removed: set<Id>, index: nat, change: Change)
    requires UniqueIds(work) && index < |work|
    ensures UpdateById(Without(work, removed), work[index].id, change)
         == Without(work[index := Apply(work[index], change)], removed)
    ensures UniqueIds(work[index := Apply(work[index], change)])
  {
    UpdateCommutesWithWithout(work, removed, work[index].id, change);
    UpdateAtUniqueId(work, index, change);
  }

  /** An update by id keeps every entry's id in place. */
  lemma UpdateKeepsIds(files: seq<FileWithStatus>, id: Id, change: Change)
    ensures forall k :: 0 <= k < |files| ==> UpdateById(files, id, change)[k].id == files[k].id
  {
  }

  /** `totalOriginalSize`: the sum of the file sizes. */
  function TotalOriginalSize(files: seq<FileWithStatus>): nat {
    if files == [] then 0 else files[0].file.size + TotalOriginalSize(files[1..])
  }

  /**
   * What an entry adds to `totalCompressedSize`: `result?.compressedSize || file.size`,
   * so a missing result and a zero-byte output both fall back to the original size.
   */
  function EffectiveCompressedSize(entry: FileWithStatus): (r: nat)
    ensures entry.result.None? ==> r == entry.file.size
    ensures entry.result.Some? && entry.result.value.compressedSize > 0 ==> r == entry.result.value.compressedSize
    ensures entry.result.Some? && entry.result.value.compressedSize == 0 ==> r == entry.file.size
    ensures r == 0 ==> entry.file.size == 0
  {
    match entry.result
    case Some(result) => if result.compressedSize != 0 then result.compressedSize else entry.file.size
    case None => entry.file.size
  }

  /** `totalCompressedSize`: the sum of the effective compressed sizes. */
  function TotalCompressedSize(files: seq<FileWithStatus>): nat {
    if files == [] then 0 else EffectiveCompressedSize(files[0]) + TotalCompressedSize(files[1..])
  }

  /**
   * `Math.round((1 - compressed / original) * 100)`, or 0 for an empty original,
   * in exact arithmetic: the integer nearest to 100 (o - c) / o, halves rounded up.
   */
  function RoundedSavings(original: nat, compressed: nat): (r: int)
    ensures original == 0 ==> r == 0
    ensures original > 0 ==>
      2 * original * r - original <= 200 * (original - compressed) < 2 * original * r + original
  {
    if original == 0 then 0
    else
      var num := 200 * (original - compressed) + original;
      var r := num / (2 * original);
      assert num == r * (2 * original) + num % (2 * original);
      r
  }

  /** `totalSavings` over the live list. */
  function TotalSavings(files: seq<FileWithStatus>): int {
    RoundedSavings(TotalOriginalSize(files), TotalCompressedSize(files))
  }

  /** `files.every(f => f.result)`. */
  function EveryCompressed(files: seq<FileWithStatus>): (r: bool)
    ensures r <==> forall k :: 0 <= k < |files| ==> files[k].result.Some?
  {
    files == [] || (files[0].result.Some? && EveryCompressed(files[1..]))
  }

  /** `allCompressed`: a non-empty list in which every entry has a result. */
  function AllCompressed(files: seq<FileWithStatus>): (r: bool)
    ensures r <==> files != [] && forall k :: 0 <= k < |files| ==> files[k].result.Some?
  {
    files != [] && EveryCompressed(files)
  }

  /** `hasUncompressedFiles`: `files.some(f => !f.result)`. */
  function HasUncompressedFiles(files: seq<FileWithStatus>): (r: bool)
    ensures r <==> exists k :: 0 <= k < |files| && files[k].result.None?
  {
    if files == [] then false
    else if files[0].result.None? then assert files[0].result.None?; true
    else
      var rest := HasUncompressedFiles(files[1..]);
      assert rest ==> exists k :: 1 <= k < |files| && files[k].result.None? by {
        if rest {
          var j :| 0 <= j < |files[1..]| && files[1..][j].result.None?;
          assert files[j + 1].result.None?;
        }
      }
      rest
  }

  /** The Compress All button is enabled: `!(files.length === 0 || isProcessing || !hasUncompressedFiles)`. */
  function CompressAllEnabled(files: seq<FileWithStatus>, isProcessing: bool): (r: bool)
    ensures r <==> !isProcessing && files != [] && !AllCompressed(files)
  {
    !(files == [] || isProcessing || !HasUncompressedFiles(files))
  }

  /** The page component's state. */
  class Home {
    var files: seq<FileWithStatus>
    var quality: nat
    var isProcessing: bool
    var nextId: Id

    /** Ids are unique and all below the next fresh id. */
    ghost predicate Valid()
      reads this
    {
      UniqueIds(files) && forall k :: 0 <= k < |files| ==> files[k].id < nextId
    }

    /** `useState([])`, `useState([75])`, `useState(false)`. */
    constructor ()
      ensures Valid() && files == [] && quality == 75 && !isProcessing
    {
      files := [];
      quality := 75;
      isProcessing := false;
      nextId := 0;
    }

    /** `handleFilesSelected`: one new entry per file, in order, appended after the existing ones. */
    method HandleFilesSelected(newFiles: seq<MediaFile>)
      requires Valid()
      modifies this
      ensures Valid()
      ensures files == old(files) + NewEntries(newFiles, old(nextId))
      ensures nextId == old(nextId) + |newFiles|
      ensures quality == old(quality) && isProcessing == old(isProcessing)
    {
      var added := NewEntries(newFiles, nextId);
      files := files + added;
      nextId := nextId + |newFiles|;
    }

    /** `handleRemoveFile`: keep the entries whose id differs. */
    method HandleRemoveFile(id: Id)
      requires Valid()
      modifies this
      ensures Valid()
      ensures files == Without(old(files), {id})
      ensures nextId == old(nextId) && quality == old(quality) && isProcessing == old(isProcessing)
    {
      WithoutKeepsUnique(files, {id});
      files := Without(files, {id});
    }

    /** `setFiles(prev => prev.map(f => f.id === id ? { ...f, change } : f))`. */
    method UpdateFile(id: Id, change: Change)
      requires Valid()
      modifies this
      ensures Valid()
      ensures files == UpdateById(old(files), id, change)
      ensures nextId == old(nextId) && quality == old(quality) && isProcessing == old(isProcessing)
    {
      UpdateKeepsIds(files, id, change);
      files := UpdateById(files, id, change);
    }

    /** The Remove clicks that arrive while a service call is pending, applied in order. */
    method RemoveWhilePending(ids: seq<Id>)
      requires Valid()
      modifies this
      ensures Valid()
      ensures files == Without(old(files), ElementsOf(ids))
      ensures nextId == old(nextId) && quality == old(quality) && isProcessing == old(isProcessing)
    {
      WithoutAbsent(files, {});
      assert ElementsOf(ids[..0]) == {};
      for j := 0 to |ids|
        invariant Valid()
        invariant files == Without(old(files), ElementsOf(ids[..j]))
        invariant nextId == old(nextId) && quality == old(quality) && isProcessing == old(isProcessing)
      {
        WithoutTwice(old(files), ElementsOf(ids[..j]), {ids[j]});
        ElementsOfPrefix(ids, j);
        HandleRemoveFile(ids[j]);
      }
      assert ids[..|ids|] == ids;
    }

    /**
     * `UpdateFile` for snapshot entry `index`, seen through the run's ghost
     * bookkeeping: `work` is the snapshot with the turns so far applied and
     * `removed` the ids removed so far, and the live list is always `work`
     * without the removed ids.
     */
    method UpdateLive(id: Id, index: nat, change: Change, ghost work: seq<FileWithStatus>, ghost removed: set<Id>)
      returns (ghost work': seq<FileWithStatus>)
      requires Valid() && UniqueIds(work) && index < |work| && work[index].id == id
      requires files == Without(work, removed)
      modifies this
      ensures Valid() && isProcessing == old(isProcessing) && quality == old(quality) && nextId == old(nextId)
      ensures work' == work[index := Apply(work[index], change)] && UniqueIds(work')
      ensures files == Without(work', removed)
    {
      UpdateLiveEntry(work, removed, index, change);
      UpdateFile(id, change);
      work' := work[index := Apply(work[index], change)];
    }

    /**
     * The service call for snapshot entry `index`, already marked compressing:
     * the call sees the entry as it stands in the live list, the Remove clicks
     * in `pending` arrive while it runs, and its outcome then completes or
     * fails the entry.
     */
    method AwaitService(
      entry: FileWithStatus, index: nat, outcome: ServiceOutcome, pending: seq<Id>,
      ghost work: seq<FileWithStatus>, ghost removed: set<Id>)
      returns (call: ServiceCall, ghost work': seq<FileWithStatus>, ghost removed': set<Id>)
      requires Valid() && isProcessing && Awaits(entry)
      requires UniqueIds(work) && index < |work| && work[index] == Apply(entry, MarkCompressing)
      requires files == Without(work, removed)
      modifies this
      ensures Valid() && isProcessing && quality == old(quality) && nextId == old(nextId)
      ensures work' == work[index := Processed(entry, outcome)] && UniqueIds(work')
      ensures removed' == removed + ElementsOf(pending)
      ensures files == Without(work', removed')
      ensures call == ServiceCall(
        index, entry.id, KindOf(entry.file), OptionsFor(KindOf(entry.file), quality),
        if entry.id in removed then None else Some(Apply(entry, MarkCompressing)), true)
    {
      var kind := KindOf(entry.file);
      FindInWithout(work, removed, index);
      call := ServiceCall(index, entry.id, kind, OptionsFor(kind, quality), FindById(files, entry.id), isProcessing);
      WithoutTwice(work, removed, ElementsOf(pending));
      RemoveWhilePending(pending);
      removed' := removed + ElementsOf(pending);
      var change := match outcome case Returned(result) => Complete(result) case Threw => MarkFailed;
      work' := UpdateLive(entry.id, index, change, work, removed');
    }

    /**
     * One turn of the `for` loop of `handleCompressAll`, for snapshot entry
     * `index`: skip it if it has a result; otherwise mark it compressing at 0%,
     * and for an image or a video call the service (`pending` being the Remove
     * clicks while the call runs) and record its outcome.
     */
    method CompressOne(
      entry: FileWithStatus, index: nat, outcome: ServiceOutcome, pending: seq<Id>,
      ghost work: seq<FileWithStatus>, ghost removed: set<Id>)
      returns (call: Option<ServiceCall>, ghost work': seq<FileWithStatus>, ghost removed': set<Id>)
      requires Valid() && isProcessing
      requires UniqueIds(work) && index < |work| && work[index] == entry
      requires files == Without(work, removed)
      modifies this
      ensures Valid() && isProcessing && quality == old(quality) && nextId == old(nextId)
      ensures work' == work[index := Processed(entry, outcome)] && UniqueIds(work')
      ensures removed' == removed + (if Awaits(entry) then ElementsOf(pending) else {})
      ensures files == Without(work', removed')
      ensures call.Some? <==> Awaits(entry)
      ensures call.Some? ==> call.value == ServiceCall(
        index, entry.id, KindOf(entry.file), OptionsFor(KindOf(entry.file), quality),
        if entry.id in removed then None else Some(Apply(entry, MarkCompressing)), true)
    {
      work', removed', call := work, removed, None;
      if entry.result.Some? {
        return;
      }
      work' := UpdateLive(entry.id, index, MarkCompressing, work, removed);
      if KindOf(entry.file) == OtherKind {
        return;
      }
      var made;
      made, work', removed' := AwaitService(entry, index, outcome, pending, work', removed);
      call := Some(made);
    }

    /**
     * `handleCompressAll`, run to completion. `outcomes[i]` is how the service
     * call for snapshot entry i ends, if it is made; `removals[i]` are the ids
     * the user removes while that call is pending (React applies the queued
     * `setFiles` updates in order, so the live list is updated step by step).
     */
    method HandleCompressAll(outcomes: seq<ServiceOutcome>, removals: seq<seq<Id>>) returns (calls: seq<ServiceCall>)
      requires Valid()
      requires |outcomes| == |files| && |removals| == |files|
      modifies this
      ensures Valid()
      ensures !isProcessing && quality == old(quality) && nextId == old(nextId)
      ensures files == Without(ProcessedAll(old(files), outcomes), RemovedDuring(old(files), removals, |old(files)|))
      ensures CallsFollow(calls, Eligible(old(files)), old(files), removals, quality)
    {
      isProcessing := true;
      var snapshot := files;
      ghost var q := quality;
      ghost var work := snapshot;
      ghost var removed: set<Id> := {};
      calls := [];
      WithoutAbsent(work, removed);
      for i := 0 to |snapshot|
        invariant Valid() && isProcessing && quality == q == old(quality) && nextId == old(nextId)
        invariant ProcessedUpTo(work, snapshot, outcomes, i) && UniqueIds(work)
        invariant removed == RemovedDuring(snapshot, removals, i)
        invariant files == Without(work, removed)
        invariant CallsFollow(calls, EligibleBelow(snapshot, i), snapshot, removals, q)
      {
        ProcessedUpToStep(work, snapshot, outcomes, i);
        var call, work', removed' := CompressOne(snapshot[i], i, outcomes[i], removals[i], work, removed);
        RunStep(snapshot, outcomes, removals, q, i, work, removed, calls, call, work', removed');
        calls := calls + (if call.Some? then [call.value] else []);
        work, removed := work', removed';
      }
      isProcessing := false;
      ProcessedUpToEnd(work, snapshot, outcomes);
    }
  }

  // Statistics

  /** The original total of two lists placed end to end is the sum of their totals. */
  lemma {:induction false} TotalOriginalSizeConcat(a: seq<FileWithStatus>, b: seq<FileWithStatus>)
    ensures TotalOriginalSize(a + b) == TotalOriginalSize(a) + TotalOriginalSize(b)
  {
    if a == [] {
      assert a + b == b;
    } else {
      assert (a + b)[0] == a[0];
      assert (a + b)[1..] == a[1..] + b;
      TotalOriginalSizeConcat(a[1..], b);
    }
  }

  /** The same for the compressed total. */
  lemma {:induction false} TotalCompressedSizeConcat(a: seq<FileWithStatus>, b: seq<FileWithStatus>)
    ensures TotalCompressedSize(a + b) == TotalCompressedSize(a) + TotalCompressedSize(b)
  {
    if a == [] {
      assert a + b == b;
    } else {
      assert (a + b)[0] == a[0];
      assert (a + b)[1..] == a[1..] + b;
      TotalCompressedSizeConcat(a[1..], b);
    }
  }

  /** Selecting files adds exactly their sizes to the original total. */
  lemma SelectionAddsSizes(files: seq<FileWithStatus>, newFiles: seq<MediaFile>, firstId: Id)
    ensures TotalOriginalSize(files + NewEntries(newFiles, firstId)) ==
            TotalOriginalSize(files) + TotalOriginalSize(NewEntries(newFiles, firstId))
    ensures TotalCompressedSize(files + NewEntries(newFiles, firstId)) ==
            TotalCompressedSize(files) + TotalOriginalSize(NewEntries(newFiles, firstId))
  {
    TotalOriginalSizeConcat(files, NewEntries(newFiles, firstId));
    TotalCompressedSizeConcat(files, NewEntries(newFiles, firstId));
    UnreducedEntriesSameTotals(NewEntries(newFiles, firstId));
  }

  /** With no results at all, the compressed total is the original total and nothing is saved. */
  lemma NothingCompressedSavesNothing(files: seq<FileWithStatus>)
    requires forall k :: 0 <= k < |files| ==> files[k].result.None?
    ensures TotalCompressedSize(files) == TotalOriginalSize(files)
    ensures TotalSavings(files) == 0
  {
    UnreducedEntriesSameTotals(files);
    UnchangedSizeSavesNothing(TotalOriginalSize(files));
  }

  /**
   * When every entry counts its original size (no result, or a result that
   * reports no reduction), the compressed total is the original total.
   */
  lemma {:induction false} UnreducedEntriesSameTotals(files: seq<FileWithStatus>)
    requires forall k :: 0 <= k < |files| ==> EffectiveCompressedSize(files[k]) == files[k].file.size
    ensures TotalCompressedSize(files) == TotalOriginalSize(files)
  {
    if files != [] {
      assert forall k :: 0 <= k < |files| - 1 ==> files[1..][k] == files[k + 1];
      UnreducedEntriesSameTotals(files[1..]);
    }
  }

  /** Equal totals round to 0% saved. */
  lemma UnchangedSizeSavesNothing(size: nat)
    ensures RoundedSavings(size, size) == 0
  {
    if size > 0 {
      var r := RoundedSavings(size, size);
      ProductOrder(2 * size, 1, r);
      ProductOrder(2 * size, r, -1);
    }
  }

  /** Removing an entry takes its share off both totals. */
  lemma {:induction false} RemovalSubtractsSizes(files: seq<FileWithStatus>, k: nat)
    requires UniqueIds(files) && k < |files|
    ensures TotalOriginalSize(Without(files, {files[k].id})) == TotalOriginalSize(files) - files[k].file.size
    ensures TotalCompressedSize(Without(files, {files[k].id})) == TotalCompressedSize(files) - EffectiveCompressedSize(files[k])
  {
    var id := files[k].id;
    UniqueTail(files);
    if k == 0 {
      WithoutHead(files);
    } else {
      assert files[1..][k - 1] == files[k];
      RemovalSubtractsSizes(files[1..], k - 1);
      var kept := Without(files[1..], {id});
      assert files[0].id != id;
      var w := [files[0]] + kept;
      assert Without(files, {id}) == w;
      assert w[0] == files[0] && w[1..] == kept;
      assert TotalOriginalSize(w) == files[0].file.size + TotalOriginalSize(kept);
      assert TotalCompressedSize(w) == EffectiveCompressedSize(files[0]) + TotalCompressedSize(kept);
    }
  }

  /** Dropping the first entry keeps the ids unique. */
  lemma UniqueTail(files: seq<FileWithStatus>)
    requires UniqueIds(files) && files != []
    ensures UniqueIds(files[1..])
  {
    forall i, j | 0 <= i < j < |files| - 1 ensures files[1..][i].id != files[1..][j].id {
      assert files[1..][i] == files[i + 1] && files[1..][j] == files[j + 1];
    }
  }

  /** With unique ids, removing the first entry's id drops exactly that entry. */
  lemma WithoutHead(files: seq<FileWithStatus>)
    requires UniqueIds(files) && files != []
    ensures Without(files, {files[0].id}) == files[1..]
  {
    forall i | 0 <= i < |files| - 1 ensures files[1..][i].id !in {files[0].id} {
      assert files[1..][i] == files[i + 1];
    }
    WithoutAbsent(files[1..], {files[0].id});
  }

  /** The savings never exceed 100%, and are never negative when the output does not grow. */
  lemma RoundedSavingsBounds(original: nat, compressed: nat)
    ensures RoundedSavings(original, compressed) <= 100
    ensures compressed <= original ==> 0 <= RoundedSavings(original, compressed)
  {
    var r := RoundedSavings(original, compressed);
    if original > 0 {
      ProductOrder(2 * original, 101, r);
      ProductOrder(2 * original, r, -1);
    }
  }

  /** 10 MB of originals compressed to 4 MB saves 60%. */
  lemma SavingsExample()
    ensures RoundedSavings(10000000, 4000000) == 60
  {
  }

  /**
   * The total rounds half up where each file's ratio floors: one 3-byte file
   * compressed to 1 byte shows a 66% ratio and 67% total savings.
   */
  lemma SavingsRoundWhereRatioFloors()
    ensures CompressionRatio(3, 1) == Percent(66)
    ensures RoundedSavings(3, 1) == 67
  {
  }

  /** `allCompressed` and `hasUncompressedFiles` are complementary on a non-empty list. */
  lemma AllCompressedIffNoneUncompressed(files: seq<FileWithStatus>)
    ensures AllCompressed(files) <==> files != [] && !HasUncompressedFiles(files)
    ensures files == [] ==> !AllCompressed(files) && !HasUncompressedFiles(files)
  {
  }

  // Runs of compress-all

  /** Every awaiting entry whose call returned ends with that result; no entry changes file or id. */
  lemma RunRecordsResults(snapshot: seq<FileWithStatus>, outcomes: seq<ServiceOutcome>, k: nat)
    requires |snapshot| == |outcomes| && k < |snapshot|
    ensures ProcessedAll(snapshot, outcomes)[k].id == snapshot[k].id
    ensures ProcessedAll(snapshot, outcomes)[k].file == snapshot[k].file
    ensures snapshot[k].result.Some? ==> ProcessedAll(snapshot, outcomes)[k] == snapshot[k]
    ensures Awaits(snapshot[k]) && outcomes[k].Returned? ==>
      ProcessedAll(snapshot, outcomes)[k].result == Some(outcomes[k].result)
  {
  }

  /** A run leaves no entry of the snapshot without a result unless its kind is unsupported or its call threw. */
  lemma RunCompletesAllMedia(snapshot: seq<FileWithStatus>, outcomes: seq<ServiceOutcome>)
    requires |snapshot| == |outcomes|
    ensures forall k :: 0 <= k < |snapshot| ==>
      (ProcessedAll(snapshot, outcomes)[k].result.None? <==>
       snapshot[k].result.None? && (KindOf(snapshot[k].file) == OtherKind || outcomes[k].Threw?))
  {
  }

  /** A run over a queue in which every entry has a result calls no service and changes nothing. */
  lemma CompletedQueueRunIsNoOp(snapshot: seq<FileWithStatus>, outcomes: seq<ServiceOutcome>)
    requires |snapshot| == |outcomes| && EveryCompressed(snapshot)
    ensures Eligible(snapshot) == []
    ensures ProcessedAll(snapshot, outcomes) == snapshot
  {
    NothingAwaitingNothingEligible(snapshot, |snapshot|);
  }

  /** After a run in which every call returned, a second run calls no service and changes nothing. */
  lemma SecondRunChangesNothing(snapshot: seq<FileWithStatus>, outcomes: seq<ServiceOutcome>, later: seq<ServiceOutcome>)
    requires |snapshot| == |outcomes| == |later|
    requires forall k :: 0 <= k < |outcomes| ==> outcomes[k].Returned?
    ensures Eligible(ProcessedAll(snapshot, outcomes)) == []
    ensures ProcessedAll(ProcessedAll(snapshot, outcomes), later) == ProcessedAll(snapshot, outcomes)
  {
    var once := ProcessedAll(snapshot, outcomes);
    assert forall k :: 0 <= k < |once| ==> !Awaits(once[k]);
    NothingAwaitingNothingEligible(once, |once|);
  }

  /** An entry whose call threw is awaiting again, so the next run retries it. */
  lemma FailedEntriesAreRetried(snapshot: seq<FileWithStatus>, outcomes: seq<ServiceOutcome>, k: nat)
    requires |snapshot| == |outcomes| && k < |snapshot|
    requires Awaits(snapshot[k]) && outcomes[k].Threw?
    ensures k in Eligible(ProcessedAll(snapshot, outcomes))
  {
    var after := ProcessedAll(snapshot, outcomes);
    assert Awaits(after[k]);
    EligibleBelowIsAwaitingInOrder(after, |after|);
  }

  /** An unsupported entry in the list keeps the upload button hidden after any run. */
  lemma UnsupportedEntryBlocksAllCompressed(snapshot: seq<FileWithStatus>, outcomes: seq<ServiceOutcome>, k: nat)
    requires |snapshot| == |outcomes| && k < |snapshot|
    requires snapshot[k].result.None? && KindOf(snapshot[k].file) == OtherKind
    ensures !AllCompressed(ProcessedAll(snapshot, outcomes))
    ensures ProcessedAll(snapshot, outcomes)[k].isCompressing == Some(true)
  {
    assert ProcessedAll(snapshot, outcomes)[k].result.None?;
  }

  /** A run changes results, never files, so the original total stays the same. */
  lemma {:induction false} RunKeepsTotalOriginalSize(snapshot: seq<FileWithStatus>, outcomes: seq<ServiceOutcome>)
    requires |snapshot| == |outcomes|
    ensures TotalOriginalSize(ProcessedAll(snapshot, outcomes)) == TotalOriginalSize(snapshot)
  {
    if snapshot != [] {
      assert ProcessedAll(snapshot, outcomes)[1..] == ProcessedAll(snapshot[1..], outcomes[1..]);
      RunKeepsTotalOriginalSize(snapshot[1..], outcomes[1..]);
    }
  }

  /** An id removed while a call was pending is absent from the list the run leaves. */
  lemma RemovedStayRemoved(snapshot: seq<FileWithStatus>, outcomes: seq<ServiceOutcome>, removals: seq<seq<Id>>, id: Id)
    requires |snapshot| == |outcomes| == |removals|
    requires id in RemovedDuring(snapshot, removals, |snapshot|)
    ensures forall e :: e in Without(ProcessedAll(snapshot, outcomes), RemovedDuring(snapshot, removals, |snapshot|)) ==> e.id != id
  {
  }

  /**
   * An image whose encoder throws: `compressImage` hands back its fallback and
   * the page records it like any result, so the entry is done: not compressing,
   * at 100%, a 0% saving that counts its original size, and skipped by every
   * later run.
   */
  lemma ImageEncoderFailureIsRecorded(entry: FileWithStatus)
    requires Awaits(entry) && IsImageFile(entry.file)
    ensures var after := Processed(entry, Returned(CompressImage(entry.file, ImageEncoderError)));
      && after.result == Some(CompressionResult(entry.file, entry.file.size, entry.file.size, Percent(0), ""))
      && after.isCompressing == Some(false) && after.progress == Some(100)
      && EffectiveCompressedSize(after) == entry.file.size
      && !Awaits(after)
  {
  }

  /** The same for a video whose FFmpeg pipeline throws: `compressVideo` hands back the original file. */
  lemma VideoTranscodeFailureIsRecorded(entry: FileWithStatus, objectUrl: MediaFile -> string)
    requires Awaits(entry) && IsVideoFile(entry.file)
    ensures var after := Processed(entry, Returned(CompressVideo(entry.file, TranscodeError, objectUrl)));
      && after.result == Some(CompressionResult(entry.file, entry.file.size, entry.file.size, Percent(0), objectUrl(entry.file)))
      && after.isCompressing == Some(false) && after.progress == Some(100)
      && EffectiveCompressedSize(after) == entry.file.size
      && !Awaits(after)
  {
  }

  /** What the compression library hands back for a file whose encoder fails. */
  function FallbackResult(file: MediaFile, objectUrl: MediaFile -> string): CompressionResult {
    if IsImageFile(file) then CompressImage(file, ImageEncoderError) else CompressVideo(file, TranscodeError, objectUrl)
  }

  /**
   * A run in which every encoder fails leaves a list that reads as all
   * compressed, with 0% total savings, and that no later run touches again.
   */
  lemma EncoderFailuresCountAsCompressed(
    snapshot: seq<FileWithStatus>, outcomes: seq<ServiceOutcome>, objectUrl: MediaFile -> string)
    requires |snapshot| == |outcomes| && snapshot != []
    requires forall k :: 0 <= k < |snapshot| ==>
      Awaits(snapshot[k]) && outcomes[k] == Returned(FallbackResult(snapshot[k].file, objectUrl))
    ensures var after := ProcessedAll(snapshot, outcomes);
      && AllCompressed(after)
      && TotalCompressedSize(after) == TotalOriginalSize(after)
      && TotalSavings(after) == 0
      && Eligible(after) == []
  {
    var after := ProcessedAll(snapshot, outcomes);
    forall k | 0 <= k < |after|
      ensures after[k].result.Some? && EffectiveCompressedSize(after[k]) == after[k].file.size
    {
      if IsImageFile(snapshot[k].file) {
        ImageEncoderFailureIsRecorded(snapshot[k]);
      } else {
        VideoTranscodeFailureIsRecorded(snapshot[k], objectUrl);
      }
    }
    UnreducedEntriesSameTotals(after);
    UnchangedSizeSavesNothing(TotalOriginalSize(after));
    NothingAwaitingNothingEligible(after, |after|);
  }

  /**
   * Three fresh entries: an image whose call will return, a video whose call
   * will throw, another image whose call will return. The run calls a service
   * for all three, in order.
   */
  lemma PartialFailureCalls(a: MediaFile, b: MediaFile, c: MediaFile)
    requires IsImageFile(a) && IsVideoFile(b) && IsImageFile(c)
    ensures Eligible(NewEntries([a, b, c], 0)) == [0, 1, 2]
  {
    var snapshot := NewEntries([a, b, c], 0);
    assert snapshot[0].file == a && snapshot[1].file == b && snapshot[2].file == c;
    AllAwaitingAllEligible(snapshot, 3);
  }

  /**
   * The same three entries after the run: both images carry their results at
   * 100%, the video is not compressing and has no result, so the list is not
   * all compressed and Compress All stays available.
   */
  lemma PartialFailureOutcome(a: MediaFile, b: MediaFile, c: MediaFile, ra: CompressionResult, rc: CompressionResult)
    requires IsImageFile(a) && IsVideoFile(b) && IsImageFile(c)
    ensures
      var after := ProcessedAll(NewEntries([a, b, c], 0), [Returned(ra), Threw, Returned(rc)]);
      && after[0].result == Some(ra) && after[0].progress == Some(100)
      && after[1].result == None && after[1].isCompressing == Some(false) && after[1].progress == Some(0)
      && after[2].result == Some(rc) && after[2].progress == Some(100)
      && !AllCompressed(after) && HasUncompressedFiles(after)
  {
    var snapshot := NewEntries([a, b, c], 0);
    assert snapshot[0].file == a && snapshot[1].file == b && snapshot[2].file == c;
  }
}
