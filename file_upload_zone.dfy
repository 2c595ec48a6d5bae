/**
 * The two intake handlers of the upload zone: files dropped on it and files
 * chosen through its `<input type="file">`. A handler's effect is the list it
 * hands to `onFilesSelected`, or no call at all.
 */
module UploadZone {
  import opened Common
  import opened JsStrings
  import opened Compression

  /** The drop filter: the declared type starts with `image/` or with `video/`. */
  predicate DropAccepts(file: MediaFile) {
    StartsWith(file.mimeType, "image/") || StartsWith(file.mimeType, "video/")
  }

  /** `Array.from(e.dataTransfer.files).filter(DropAccepts)`. */
  function DroppedMedia(files: seq<MediaFile>): (r: seq<MediaFile>)
    ensures forall f :: f in r <==> f in files && DropAccepts(f)
    ensures IsSubsequence(r, files)
    ensures |r| <= |files|
  {
    if files == [] then []
    else
      var rest := DroppedMedia(files[1..]);
      if DropAccepts(files[0]) then [files[0]] + rest else rest
  }

  /** The filter commutes with concatenation, so it keeps every accepted file in place and order. */
  lemma {:induction false} DroppedMediaConcat(a: seq<MediaFile>, b: seq<MediaFile>)
    ensures DroppedMedia(a + b) == DroppedMedia(a) + DroppedMedia(b)
  {
    if a == [] {
      assert a + b == b;
    } else {
      assert (a + b)[1..] == a[1..] + b;
      DroppedMediaConcat(a[1..], b);
    }
  }

  /** A drop made only of images and videos passes through unchanged. */
  lemma {:induction false} DroppedMediaKeepsAllMedia(files: seq<MediaFile>)
    requires forall k :: 0 <= k < |files| ==> DropAccepts(files[k])
    ensures DroppedMedia(files) == files
  {
    if files != [] {
      DroppedMediaKeepsAllMedia(files[1..]);
      assert [files[0]] + files[1..] == files;
    }
  }

  /**
   * `handleDrop`: nothing when the zone is disabled or nothing dropped is an
   * image or a video; otherwise `onFilesSelected` with the dropped media files.
   */
  function HandleDrop(disabled: bool, dropped: seq<MediaFile>): (call: Option<seq<MediaFile>>)
    ensures call.Some? <==> !disabled && exists f :: f in dropped && DropAccepts(f)
    ensures call.Some? ==> call.value == DroppedMedia(dropped) && call.value != []
  {
    if disabled then None
    else
      var files := DroppedMedia(dropped);
      if |files| > 0 then assert files[0] in files; Some(files) else None
  }

  /**
   * `handleFileInput`: nothing when the zone is disabled or no file was chosen
   * (`e.target.files` may be null); otherwise every chosen file, unfiltered.
   */
  function HandleFileInput(disabled: bool, chosen: Option<seq<MediaFile>>): (call: Option<seq<MediaFile>>)
    ensures call.Some? <==> !disabled && chosen.Some? && chosen.value != []
    ensures call.Some? ==> call.value == chosen.value
  {
    if disabled then None
    else
      var files := if chosen.Some? then chosen.value else [];
      if |files| > 0 then Some(files) else None
  }

  /** Whatever a drop hands on is classified as an image or a video by the compression library. */
  lemma DropPassesOnlyMedia(disabled: bool, dropped: seq<MediaFile>)
    ensures var call := HandleDrop(disabled, dropped);
      call.Some? ==> forall f :: f in call.value ==> IsImageFile(f) || IsVideoFile(f)
  {
  }

  /** The file input is not filtered: a plain-text file reaches `onFilesSelected`. */
  lemma FileInputPassesNonMedia()
    ensures var note := MediaFile("notes.txt", "text/plain", 12);
      && !IsImageFile(note) && !IsVideoFile(note)
      && HandleFileInput(false, Some([note])) == Some([note])
  {
    var note := MediaFile("notes.txt", "text/plain", 12);
    assert note.mimeType[0] == 't';
  }

  /** The same plain-text file dropped on the zone makes no call. */
  lemma DropRejectsNonMedia()
    ensures HandleDrop(false, [MediaFile("notes.txt", "text/plain", 12)]) == None
  {
    var note := MediaFile("notes.txt", "text/plain", 12);
    assert note.mimeType[0] == 't';
    assert !DropAccepts(note);
  }
}
