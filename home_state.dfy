/**
 * The upload view of src/pages/Home.jsx as values: its nine pieces of state,
 * what each event handler does to them, and what the page shows. The class in
 * home_view.dfy runs the handlers on mutable fields and is specified by these
 * functions.
 */
module HomeState {
  import opened Wrappers

  datatype Kind = Image | Video

  /** A browser File: its name and its MIME type (`file.type`). */
  datatype File = File(name: string, mimeType: string)

  /** The opaque URL that `URL.createObjectURL` returns for a file. */
  datatype ObjectUrl = ObjectUrl(id: nat)

  /** How the awaited `fetch` of `handleSubmit` ends: an ok response with
      its JSON fields, a non-ok response with its `error` field, or an
      exception (network failure or a body that is not JSON). */
  datatype SubmitOutcome =
    | Succeeded(analysisResult: string, percentage: int)
    | HttpError(error: string)
    | NetworkError

  /** The nine `useState` values; percentages are in tenths. */
  datatype ViewState = ViewState(
    selectedImage: Option<File>,
    selectedVideo: Option<File>,
    previewUrl: Option<ObjectUrl>,
    uploadType: Kind,
    activeTab: Kind,
    analysisResult: Option<string>,
    isLoading: bool,
    percentage: int,
    isDragOver: bool)

  const Initial := ViewState(None, None, None, Image, Image, None, false, 0, false)

  /** What every handler keeps: at most one file is selected, and a selected
      file has a preview and `uploadType` naming its kind. */
  predicate Consistent(s: ViewState)
    ensures Consistent(s) && HasSelection(s) ==> PreviewPageShown(s)
  {
    && !(s.selectedImage.Some? && s.selectedVideo.Some?)
    && (s.selectedImage.Some? ==> s.uploadType == Image && s.previewUrl.Some?)
    && (s.selectedVideo.Some? ==> s.uploadType == Video && s.previewUrl.Some?)
  }

  predicate HasSelection(s: ViewState)
  {
    s.selectedImage.Some? || s.selectedVideo.Some?
  }

  /** `file.type.startsWith('image/')` and `startsWith('video/')`. */
  predicate IsImageType(mimeType: string)
  {
    "image/" <= mimeType
  }

  predicate IsVideoType(mimeType: string)
  {
    "video/" <= mimeType
  }

  /** The page shown: the preview page exactly when there is a preview URL. */
  predicate PreviewPageShown(s: ViewState)
  {
    s.previewUrl.Some?
  }

  /** The submit and reset buttons are disabled exactly while loading. */
  predicate ButtonsDisabled(s: ViewState)
  {
    s.isLoading
  }

  /** The analysis panel needs a non-empty (truthy) result string. */
  predicate ResultShown(s: ViewState)
  {
    s.analysisResult.Some? && s.analysisResult.value != ""
  }

  /** `handleImageUpload`: a picked image replaces any selection and names the
      preview's kind; the active tab stays as it was. */
  function PickImage(s: ViewState, file: Option<File>, url: ObjectUrl): (t: ViewState)
    ensures file.None? ==> t == s
    ensures file.Some? ==> t.selectedImage == file && t.selectedVideo.None?
                           && t.previewUrl == Some(url) && t.uploadType == Image
                           && Consistent(t)
    ensures t.activeTab == s.activeTab && t.analysisResult == s.analysisResult
    ensures t.isLoading == s.isLoading && t.percentage == s.percentage && t.isDragOver == s.isDragOver
  {
    if file.Some? then
      s.(selectedImage := file, selectedVideo := None, previewUrl := Some(url), uploadType := Image)
    else s
  }

  /** `handleVideoUpload`, the same for a video. */
  function PickVideo(s: ViewState, file: Option<File>, url: ObjectUrl): (t: ViewState)
    ensures file.None? ==> t == s
    ensures file.Some? ==> t.selectedVideo == file && t.selectedImage.None?
                           && t.previewUrl == Some(url) && t.uploadType == Video
                           && Consistent(t)
    ensures t.activeTab == s.activeTab && t.analysisResult == s.analysisResult
    ensures t.isLoading == s.isLoading && t.percentage == s.percentage && t.isDragOver == s.isDragOver
  {
    if file.Some? then
      s.(selectedVideo := file, selectedImage := None, previewUrl := Some(url), uploadType := Video)
    else s
  }

  function DragOver(s: ViewState): (t: ViewState)
    ensures t.isDragOver && t == s.(isDragOver := t.isDragOver)
  {
    s.(isDragOver := true)
  }

  function DragLeave(s: ViewState): (t: ViewState)
    ensures !t.isDragOver && t == s.(isDragOver := t.isDragOver)
  {
    s.(isDragOver := false)
  }

  /** `handleDrop`: an image or video type selects the file and switches both
      the preview kind and the tab; any dropped file, of whatever type,
      replaces the preview URL. */
  function Drop(s: ViewState, file: Option<File>, url: ObjectUrl): (t: ViewState)
    ensures !t.isDragOver
    ensures file.None? ==> t == s.(isDragOver := false)
    ensures file.Some? ==> t.previewUrl == Some(url)
    ensures file.Some? && IsImageType(file.value.mimeType) ==>
              t.selectedImage == file && t.selectedVideo.None? && t.uploadType == Image && t.activeTab == Image
    ensures file.Some? && !IsImageType(file.value.mimeType) && IsVideoType(file.value.mimeType) ==>
              t.selectedVideo == file && t.selectedImage.None? && t.uploadType == Video && t.activeTab == Video
    ensures file.Some? && !IsImageType(file.value.mimeType) && !IsVideoType(file.value.mimeType) ==>
              t == s.(isDragOver := false, previewUrl := Some(url))
    ensures t.analysisResult == s.analysisResult && t.isLoading == s.isLoading && t.percentage == s.percentage
    ensures Consistent(s) ==> Consistent(t)
  {
    var s1 := s.(isDragOver := false);
    match file
    case None => s1
    case Some(f) =>
      var s2 :=
        if IsImageType(f.mimeType) then
          s1.(selectedImage := file, selectedVideo := None, uploadType := Image, activeTab := Image)
        else if IsVideoType(f.mimeType) then
          s1.(selectedVideo := file, selectedImage := None, uploadType := Video, activeTab := Video)
        else s1;
      s2.(previewUrl := Some(url))
  }

  /** The file `handleSubmit` sends (`selectedImage || selectedVideo`), if any. */
  function SubmitRequest(s: ViewState): (r: Option<File>)
    ensures r.None? <==> !HasSelection(s)
    ensures r.Some? ==> r == s.selectedImage || r == s.selectedVideo
  {
    if s.selectedImage.Some? then s.selectedImage else s.selectedVideo
  }

  /** `handleSubmit` up to the awaited request: with a file selected it starts
      loading; without one nothing changes and no request is made. */
  function SubmitStart(s: ViewState): (t: ViewState)
    ensures !HasSelection(s) ==> t == s
    ensures HasSelection(s) ==> t.isLoading && t == s.(isLoading := true)
  {
    if HasSelection(s) then s.(isLoading := true) else s
  }

  /** `handleSubmit` after the request: an ok answer stores the result and
      percentage, a failure keeps the earlier ones; loading stops either way. */
  function SubmitFinish(s: ViewState, outcome: SubmitOutcome): (t: ViewState)
    ensures !t.isLoading
    ensures outcome.Succeeded? ==>
              t.analysisResult == Some(outcome.analysisResult) && t.percentage == outcome.percentage
    ensures !outcome.Succeeded? ==> t.analysisResult == s.analysisResult && t.percentage == s.percentage
    ensures t.selectedImage == s.selectedImage && t.selectedVideo == s.selectedVideo
    ensures t.previewUrl == s.previewUrl && t.uploadType == s.uploadType && t.activeTab == s.activeTab
    ensures t.isDragOver == s.isDragOver
  {
    match outcome
    case Succeeded(result, percentage) =>
      s.(analysisResult := Some(result), percentage := percentage, isLoading := false)
    case _ => s.(isLoading := false)
  }

  /** The text `handleSubmit` shows with `alert`, if any. */
  function SubmitAlert(outcome: SubmitOutcome): (a: Option<string>)
    ensures a.None? <==> outcome.Succeeded?
    ensures outcome.HttpError? ==> a == Some("Upload failed: " + outcome.error)
  {
    match outcome
    case Succeeded(_, _) => None
    case HttpError(error) => Some("Upload failed: " + error)
    case NetworkError => Some("Error uploading file. Please try again.")
  }

  /** `resetUpload`: back to the upload page with the preview kind set to the
      active tab, which itself stays. */
  function Reset(s: ViewState): (t: ViewState)
    ensures !HasSelection(t) && t.previewUrl.None? && t.analysisResult.None? && t.percentage == 0
    ensures !t.isLoading && !t.isDragOver
    ensures t.uploadType == s.activeTab && t.activeTab == s.activeTab
  {
    s.(selectedImage := None, selectedVideo := None, previewUrl := None, uploadType := s.activeTab,
       analysisResult := None, percentage := 0, isLoading := false, isDragOver := false)
  }

  /** The tab buttons' `setActiveTab`. */
  function SelectTab(s: ViewState, kind: Kind): (t: ViewState)
    ensures t.activeTab == kind && t == s.(activeTab := kind)
  {
    s.(activeTab := kind)
  }

  datatype Event =
    | ImagePicked(file: Option<File>, url: ObjectUrl)
    | VideoPicked(file: Option<File>, url: ObjectUrl)
    | DraggedOver
    | DragLeft
    | Dropped(file: Option<File>, url: ObjectUrl)
    | SubmitClicked
    | SubmitSettled(outcome: SubmitOutcome)
    | ResetClicked
    | TabClicked(kind: Kind)

  function Step(s: ViewState, e: Event): ViewState
  {
    match e
    case ImagePicked(file, url) => PickImage(s, file, url)
    case VideoPicked(file, url) => PickVideo(s, file, url)
    case DraggedOver => DragOver(s)
    case DragLeft => DragLeave(s)
    case Dropped(file, url) => Drop(s, file, url)
    case SubmitClicked => SubmitStart(s)
    case SubmitSettled(outcome) => SubmitFinish(s, outcome)
    case ResetClicked => Reset(s)
    case TabClicked(kind) => SelectTab(s, kind)
  }

  function Run(s: ViewState, events: seq<Event>): ViewState
    decreases |events|
  {
    if events == [] then s else Run(Step(s, events[0]), events[1..])
  }

  lemma StepKeepsConsistent(s: ViewState, e: Event)
    requires Consistent(s)
    ensures Consistent(Step(s, e))
  {
  }

  /** Whatever the user does, in whatever order, never are an image and a
      video selected at once. */
  lemma {:induction false} RunKeepsConsistent(s: ViewState, events: seq<Event>)
    requires Consistent(s)
    ensures Consistent(Run(s, events))
    decreases |events|
  {
    if events != [] {
      StepKeepsConsistent(s, events[0]);
      RunKeepsConsistent(Step(s, events[0]), events[1..]);
    }
  }

  lemma ResetIdempotent(s: ViewState)
    ensures Reset(Reset(s)) == Reset(s)
  {
  }

  /** After a reset the upload page is shown, nothing is disabled and no
      analysis is displayed. */
  lemma ResetShowsUploadPage(s: ViewState)
    ensures !PreviewPageShown(Reset(s)) && !ButtonsDisabled(Reset(s)) && !ResultShown(Reset(s))
  {
  }

  /** A full successful submit: the selected file is sent, the buttons are
      disabled while waiting and enabled again after, the answer is stored,
      the selection and preview are untouched, and no alert is raised. */
  lemma SubmitSucceeds(s: ViewState, result: string, percentage: int)
    requires Consistent(s) && HasSelection(s)
    ensures var started := SubmitStart(s);
            var done := SubmitFinish(started, Succeeded(result, percentage));
            && SubmitRequest(s).Some?
            && ButtonsDisabled(started) && !ButtonsDisabled(done)
            && done.analysisResult == Some(result) && done.percentage == percentage
            && done.selectedImage == s.selectedImage && done.selectedVideo == s.selectedVideo
            && PreviewPageShown(done)
            && SubmitAlert(Succeeded(result, percentage)).None?
  {
  }

  /** A failed submit raises an alert, re-enables the buttons and leaves the
      earlier result and percentage on display. */
  lemma SubmitFailureKeepsResult(s: ViewState, outcome: SubmitOutcome)
    requires HasSelection(s) && !outcome.Succeeded?
    ensures var done := SubmitFinish(SubmitStart(s), outcome);
            && done.analysisResult == s.analysisResult && done.percentage == s.percentage
            && !ButtonsDisabled(done) && SubmitAlert(outcome).Some?
  {
  }

  /** Submitting with nothing selected changes nothing and sends nothing. */
  lemma SubmitWithoutFileIsInert(s: ViewState)
    requires !HasSelection(s)
    ensures SubmitStart(s) == s && SubmitRequest(s).None?
  {
  }

  /** Dropping a file of another type on the fresh page opens the preview
      page, yet nothing is selected, so its submit button sends nothing. */
  lemma UnknownDropOpensPreviewWithoutFile(url: ObjectUrl)
    ensures var t := Drop(Initial, Some(File("notes.txt", "text/plain")), url);
            && PreviewPageShown(t) && !HasSelection(t) && SubmitRequest(t).None?
            && t.activeTab == Initial.activeTab
  {
    assert "text/plain"[0] == 't' && "image/"[0] == 'i' && "video/"[0] == 'v';
  }
}
