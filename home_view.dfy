/**
 * The `Home` component of src/pages/Home.jsx: nine state fields that its
 * handlers overwrite one setter at a time. Each method is specified by the
 * matching transition of HomeState and keeps its consistency invariant.
 */
module HomeView {
  import opened Wrappers
  import opened HomeState

  class Home {
    var selectedImage: Option<File>
    var selectedVideo: Option<File>
    var previewUrl: Option<ObjectUrl>
    var uploadType: Kind
    var activeTab: Kind
    var analysisResult: Option<string>
    var isLoading: bool
    var percentage: int
    var isDragOver: bool

    function State(): ViewState
      reads this
    {
      ViewState(selectedImage, selectedVideo, previewUrl, uploadType, activeTab,
                analysisResult, isLoading, percentage, isDragOver)
    }

    ghost predicate Valid()
      reads this
    {
      Consistent(State())
    }

    /** The `useState` initial values. */
    constructor ()
      ensures Valid() && State() == Initial
    {
      selectedImage, selectedVideo, previewUrl := None, None, None;
      uploadType, activeTab := Image, Image;
      analysisResult, isLoading, percentage, isDragOver := None, false, 0, false;
    }

    method HandleImageUpload(file: Option<File>, url: ObjectUrl)
      requires Valid()
      modifies this
      ensures Valid() && State() == PickImage(old(State()), file, url)
    {
      if file.Some? {
        selectedImage := file;
        selectedVideo := None;
        previewUrl := Some(url);
        uploadType := Image;
      }
    }

    method HandleVideoUpload(file: Option<File>, url: ObjectUrl)
      requires Valid()
      modifies this
      ensures Valid() && State() == PickVideo(old(State()), file, url)
    {
      if file.Some? {
        selectedVideo := file;
        selectedImage := None;
        previewUrl := Some(url);
        uploadType := Video;
      }
    }

    method HandleDragOver()
      requires Valid()
      modifies this
      ensures Valid() && State() == DragOver(old(State()))
    {
      isDragOver := true;
    }

    method HandleDragLeave()
      requires Valid()
      modifies this
      ensures Valid() && State() == DragLeave(old(State()))
    {
      isDragOver := false;
    }

    method HandleDrop(file: Option<File>, url: ObjectUrl)
      requires Valid()
      modifies this
      ensures Valid() && State() == Drop(old(State()), file, url)
    {
      isDragOver := false;
      if file.Some? {
        if IsImageType(file.value.mimeType) {
          selectedImage := file;
          selectedVideo := None;
          uploadType := Image;
          activeTab := Image;
        } else if IsVideoType(file.value.mimeType) {
          selectedVideo := file;
          selectedImage := None;
          uploadType := Video;
          activeTab := Video;
        }
        previewUrl := Some(url);
      }
    }

    /** `handleSubmit` up to `await fetch`: returns the file it sends, if any. */
    method HandleSubmitStart() returns (request: Option<File>)
      requires Valid()
      modifies this
      ensures Valid() && State() == SubmitStart(old(State()))
      ensures request == SubmitRequest(old(State()))
    {
      request := None;
      if selectedImage.Some? || selectedVideo.Some? {
        request := if selectedImage.Some? then selectedImage else selectedVideo;
        isLoading := true;
      }
    }

    /** `handleSubmit` from the awaited answer to its `finally`: returns the
        alert text, if any. */
    method HandleSubmitFinish(outcome: SubmitOutcome) returns (alert: Option<string>)
      requires Valid()
      modifies this
      ensures Valid() && State() == SubmitFinish(old(State()), outcome)
      ensures alert == SubmitAlert(outcome)
    {
      alert := None;
      match outcome {
        case Succeeded(result, pct) =>
          analysisResult := Some(result);
          percentage := pct;
        case HttpError(error) =>
          alert := Some("Upload failed: " + error);
        case NetworkError =>
          alert := Some("Error uploading file. Please try again.");
      }
      isLoading := false;
    }

    method ResetUpload()
      requires Valid()
      modifies this
      ensures Valid() && State() == Reset(old(State()))
    {
      selectedImage := None;
      selectedVideo := None;
      previewUrl := None;
      uploadType := activeTab;
      analysisResult := None;
      percentage := 0;
      isLoading := false;
      isDragOver := false;
    }

    /** The "Upload Image" / "Upload Video" tab buttons. */
    method HandleTabClick(kind: Kind)
      requires Valid()
      modifies this
      ensures Valid() && State() == SelectTab(old(State()), kind)
    {
      activeTab := kind;
    }
  }
}
