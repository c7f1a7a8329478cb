/**
 * The checks `upload_file` in backend/app.py makes before it saves
 * anything: the extension allow-list (`allowed_file`) and the fixed order of
 * early returns on a bad request.
 */
module UploadRules {
  import opened Wrappers
  import opened PyText

  /** `ALLOWED_EXTENSIONS`, compared against the lower-cased text after the last '.'. */
  const AllowedExtensions: set<string> := {"png", "jpg", "jpeg", "gif", "mp4", "avi", "mov", "wmv"}

  /** `allowed_file(filename)`: there is a '.', and the text after the last
      one (`filename.rsplit('.', 1)[1]`), lower-cased, is allowed. */
  predicate AllowedFile(filename: string)
    ensures AllowedFile(filename) ==>
              3 <= |filename| - 1 - LastIndexOf(filename, '.') <= 4
  {
    '.' in filename && Lower(filename[LastIndexOf(filename, '.') + 1..]) in AllowedExtensions
  }

  /** A name without a '.' is never allowed. */
  lemma NoDotNotAllowed(filename: string)
    requires '.' !in filename
    ensures !AllowedFile(filename)
  {
  }

  /** Only the text after the last '.' decides, whatever comes before it. */
  lemma AllowedByLastExtension(stem: string, ext: string)
    requires '.' !in ext
    ensures AllowedFile(stem + "." + ext) <==> Lower(ext) in AllowedExtensions
  {
    var f := stem + "." + ext;
    assert f == stem + ("." + ext);
    LastIndexOfIs("." + ext, '.', 0);
    LastIndexOfAppendPresent(stem, "." + ext, '.');
    assert f[|stem| + 1..] == ext;
  }

  lemma AcceptsUpperCaseExtension()
    ensures AllowedFile("a.PNG")
  {
    AllowedByLastExtension("a", "PNG");
    assert "a" + "." + "PNG" == "a.PNG";
    assert Lower("PNG") == "png";
  }

  lemma AcceptsLastOfSeveralExtensions()
    ensures AllowedFile("x.tar.mp4")
  {
    AllowedByLastExtension("x.tar", "mp4");
    assert "x.tar" + "." + "mp4" == "x.tar.mp4";
    assert Lower("mp4") == "mp4";
  }

  lemma RejectsAllowedExtensionNotLast()
    ensures !AllowedFile("a.png.exe")
  {
    AllowedByLastExtension("a.png", "exe");
    assert "a.png" + "." + "exe" == "a.png.exe";
    assert Lower("exe") == "exe";
  }

  lemma RejectsEmptyExtension()
    ensures !AllowedFile("png.")
  {
    AllowedByLastExtension("png", "");
    assert "png" + "." + "" == "png.";
  }

  /** A file part of the multipart body; werkzeug may give no filename. */
  datatype FileStorage = FileStorage(filename: Option<string>)

  /** The part of a request `upload_file` looks at: `request.files`. */
  datatype UploadRequest = UploadRequest(files: map<string, FileStorage>)

  /** An error answer: HTTP status and the JSON `error` text. */
  datatype Rejection = Rejection(status: int, error: string)

  /** The text of the TypeError that `'.' in None` raises inside `allowed_file`;
      the handler's catch-all turns it into a 500 answer. */
  const NoneNotIterable := "argument of type 'NoneType' is not iterable"

  /**
   * The early returns of `upload_file`, in source order. The explicit
   * `file.filename is None` test comes after `allowed_file`, which already
   * raises on a missing filename, so its 400 "Invalid filename" answer can
   * never be given.
   */
  function CheckUpload(req: UploadRequest): (r: Result<string, Rejection>)
    ensures r.Ok? <==> "file" in req.files && req.files["file"].filename.Some?
                       && req.files["file"].filename.value != ""
                       && AllowedFile(req.files["file"].filename.value)
    ensures r.Ok? ==> req.files["file"].filename == Some(r.value)
    ensures r.Err? && r.error.status == 400 ==>
              r.error.error in {"No file provided", "No file selected", "File type not allowed"}
    ensures r.Err? ==> r.error.status == 400 || r.error == Rejection(500, NoneNotIterable)
  {
    if "file" !in req.files then Err(Rejection(400, "No file provided"))
    else
      var file := req.files["file"];
      if file.filename == Some("") then Err(Rejection(400, "No file selected"))
      else if file.filename.None? then Err(Rejection(500, NoneNotIterable))
      else if !AllowedFile(file.filename.value) then Err(Rejection(400, "File type not allowed"))
      else Ok(file.filename.value)
  }

  /** Which check rejects a request: each answer is given exactly when the
      earlier checks passed and this one failed. */
  lemma RejectionOrder(req: UploadRequest)
    ensures CheckUpload(req) == Err(Rejection(400, "No file provided")) <==> "file" !in req.files
    ensures CheckUpload(req) == Err(Rejection(400, "No file selected")) <==>
              "file" in req.files && req.files["file"].filename == Some("")
    ensures CheckUpload(req) == Err(Rejection(400, "File type not allowed")) <==>
              "file" in req.files && req.files["file"].filename.Some?
              && req.files["file"].filename.value != ""
              && !AllowedFile(req.files["file"].filename.value)
    ensures CheckUpload(req) == Err(Rejection(500, NoneNotIterable)) <==>
              "file" in req.files && req.files["file"].filename.None?
  {
  }
}
