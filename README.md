# AI-or-human media checker: upload endpoint and upload page

The system lets a user pick or drag an image or a video in a React page and
send it to a Flask backend. The backend checks the request, saves the file
under a name that does not collide with an existing one, scores it with an
image or video model (or a random number when there is no model), and
answers with a percentage and a sentence such as `73.3% sure this is human`.

This project models the two parts that make those decisions:

- **The `/upload` endpoint** (`backend/app.py`). It covers the extension
  allow-list, the fixed order of the early rejections, the rename loop that
  finds a free path, and the video/image/random dispatch. It also covers the
  rule that turns a percentage into a verdict, and the JSON answer as a whole.
- **The upload page** (`src/pages/Home.jsx`). It covers the nine pieces of
  component state, every event handler, and what the page shows.

## How the model is built

- Percentages are whole numbers of tenths, so `73.3` is `733`. Every
  percentage the backend produces is rounded to one decimal, so this is exact.
- Python's `str.lower`, `str.rsplit('.', 1)`, `os.path.join` and
  `os.path.splitext` are written out for POSIX paths.
  - `splitext` follows Python's rule that leading dots of the last path
    component do not start an extension.
  - The integer in `f"{base_name}_{counter}{extension}"` is rendered in decimal.
- The file system is the finite set of paths that exist before the save.
  The rename loop is a `method` with a `while` loop over that set.
- werkzeug's `secure_filename` is a function parameter. The model promises
  nothing about what it does.
- Loading the model and running it are inputs to the endpoint:
  - `ModelState` says whether `MODEL_AVAILABLE` and `runVideo` are set once
    loading is over.
  - `ModelResult` says whether the model returned a number, returned
    something else, or raised.
  - The random fallback percentage is a parameter.
- The page exists twice:
  - `HomeState` describes it as values: a `ViewState` record and one
    transition function per handler.
  - `HomeView.Home` is a class with the nine fields. Its handler methods
    assign those fields, and each is proved to match its transition function
    and to keep the consistency invariant.
- Behaviours of the code that the model keeps as written:
  - Choosing a file with the picker does not switch the active tab.
  - A failed submit leaves the earlier result and percentage on the page.
  - `resetUpload` sets the preview kind to the active tab.
  - A request whose file part has no filename gets a 500 answer, not the
    400 "Invalid filename". `allowed_file` evaluates `'.' in None` first,
    which raises a `TypeError`, and the catch-all handler turns that into
    a 500. The 400 branch at `backend/app.py:117-119` can never run.

Modules: `Wrappers`, `PyText`, `PosixPath`, `UploadRules`, `SaveName`,
`Scoring`, `UploadHandler`, `HomeState`, `HomeView`.

## Model

| member | source | states |
|---|---|---|
| PyText.LastIndexOf | backend/app.py:86-88 | The position `rsplit('.', 1)` splits at: -1 exactly when the character does not occur; otherwise an index holding it with no occurrence after it. |
| PyText.StringToNatInverts | backend/app.py:134 | The decimal text of the rename counter reads back as the same number. |
| PyText.NatToStringInjective | backend/app.py:134 | Different counters give different decimal texts. |
| PyText.NoSeparatorInDigits | backend/app.py:134 | The counter's text contains no '.' and no '/'. |
| PyText.Lower | backend/app.py:88 | `str.lower()`: the length is kept and no ASCII capital letter is left. |
| PyText.LowerContents | backend/app.py:88 | What `str.lower()` does to each character: an ASCII capital becomes its own small letter, the Kelvin sign becomes `k`, and every other character stays as it is. |
| PyText.LowerIdempotent | backend/app.py:88 | Lower-casing an already lower-cased extension changes nothing. |
| PosixPath.Join | backend/app.py:122 | `os.path.join`: an absolute name is returned unchanged. The result is absolute exactly when the folder or the name is. It is at most one separator longer than both put together. |
| PosixPath.JoinShape | backend/app.py:122 | A relative name is joined after the folder. The result is `folder + name` when the folder is empty or ends in '/', and `folder + "/" + name` otherwise; its length is fixed accordingly. |
| PosixPath.SplitExt | backend/app.py:131 | `os.path.splitext`: the root is a prefix of the name, root and extension add up to its length, and a non-empty extension starts with '.'. |
| PosixPath.JoinInjective | backend/app.py:122 | `os.path.join` with a fixed folder never maps two relative names, or two absolute ones, to the same path. |
| PosixPath.SplitExtFinds | backend/app.py:131 | `splitext` of `stem.e` is `(stem, .e)` when `e` has no '.' and no '/' and the stem does not end in '.' or '/'. |
| PosixPath.SplitExtLeadingDots | backend/app.py:131 | A last component made only of dots before its last '.' (such as `..x`) has no extension: the name is returned whole. |
| PosixPath.SplitExtShape | backend/app.py:131 | `splitext`: root followed by extension gives back the name. The extension is empty, or a '.' followed by text with no '.' and no '/'. |
| PosixPath.ExtensionShape | backend/app.py:131 | When the last '.' comes after the last '/', the text from that '.' on is '.' then no '.' and no '/'. |
| PosixPath.JoinKeepsExt | backend/app.py:135 | Putting the upload folder in front of a name does not change its `splitext` extension. |
| PosixPath.ExtUnderDir | backend/app.py:162 | A directory prefix ending in '/' leaves the extension unchanged. |
| UploadRules.NoDotNotAllowed | backend/app.py:86-88 | A name without '.' is never allowed. |
| UploadRules.AllowedFile | backend/app.py:86-88 | `allowed_file`: an allowed name has 3 or 4 characters after its last '.', the lengths of the allow-listed extensions. |
| UploadRules.AllowedByLastExtension | backend/app.py:86-88 | `stem.ext` with no '.' in `ext` is allowed exactly when lower-cased `ext` is in the allow-list, whatever the stem holds. |
| UploadRules.AcceptsUpperCaseExtension | backend/app.py:86-88 | `a.PNG` is allowed: the check ignores case. |
| UploadRules.AcceptsLastOfSeveralExtensions | backend/app.py:86-88 | `x.tar.mp4` is allowed: only the last extension counts. |
| UploadRules.RejectsAllowedExtensionNotLast | backend/app.py:86-88 | `a.png.exe` is rejected: an allowed extension that is not last does not help. |
| UploadRules.RejectsEmptyExtension | backend/app.py:86-88 | `png.` is rejected: the text after the last '.' is empty. |
| UploadRules.CheckUpload | backend/app.py:98-119 | The request passes exactly when a `file` part exists with a non-empty, allowed filename, and it passes that filename on. Every rejection is a 400 with one of the three messages, or the 500 raised by a missing filename. |
| UploadRules.RejectionOrder | backend/app.py:98-119 | Each rejection happens exactly when the earlier checks pass and its own check fails: no `file` part, empty name, no name (500), extension not allowed. |
| SaveName.CandidateInjective | backend/app.py:134 | Different counters give different renamed files. |
| SaveName.Candidate | backend/app.py:134 | The renamed file `f"{base_name}_{counter}{extension}"` begins with the `splitext` root and then '_'. It is longer than the secured name by the '_' and the counter's digits, so it never equals that name. |
| SaveName.CandidatePathInjective | backend/app.py:134-135 | Different counters give different paths in the upload folder. |
| SaveName.CandidateAbsolute | backend/app.py:134-135 | A renamed file is absolute exactly when the root `splitext` leaves of the secured name is. |
| SaveName.TakenCandidatesBounded | backend/app.py:133-136 | If the first `n` renamed paths all exist, then `n` is at most the number of existing paths, so the loop ends. |
| SaveName.ChooseSavePath | backend/app.py:122-136 | The chosen path does not exist yet. It is the joined name when that is free, otherwise `base_k.ext` for the smallest counter `k >= 1` whose path is free. |
| SaveName.SavePathUnique | backend/app.py:127-136 | Only one path fits that description, so the choice is determined by the name and the existing files. |
| SaveName.CandidateKeepsExt | backend/app.py:131-134 | `base_k.ext` has the same `splitext` extension as the name it was made from. |
| SaveName.SavePathKeepsExt | backend/app.py:127-136 | Whatever path the loop settles on has the secured name's extension. |
| Scoring.ChooseScorer | backend/app.py:154-188 | Random fallback exactly when no model is available. The video scorer exactly when a model is available, `runVideo` is loaded and the lower-cased extension is a video extension. Otherwise the image scorer. |
| Scoring.KelvinSignSelectsVideo | backend/app.py:161-166 | `v.m<KELVIN SIGN>v` goes to the video scorer, because `lower()` turns its extension into `.mkv`. |
| Scoring.ScorePercentage | backend/app.py:173-188 | The percentage is the model's number when the model ran and returned a number. It is the random fallback when there is no model, a non-number or an exception. |
| Scoring.SavedFileScorer | backend/app.py:158-170 | Whatever path the file is saved under, the scorer is the one the secured name's extension selects. |
| Scoring.FormatTenthsRoundTrip | backend/app.py:190-196 | A confidence written with one decimal reads back as the same number of tenths. |
| Scoring.FormatTenths | backend/app.py:193 | A rounded percentage is written as decimal digits with exactly one digit after the '.'. |
| Scoring.MakeVerdict | backend/app.py:190-196 | Below 50% the verdict is AI with confidence 100 minus the percentage; from 50% up it is human with the percentage itself. The confidence is always at least 50%, and the sentence is `<confidence>% sure this is AI/human`. |
| Scoring.VerdictInRange | backend/app.py:190-196 | For a percentage in [0, 100] the confidence is in [50, 100] and the sentence's number reads back exactly. |
| UploadHandler.UploadFile | backend/app.py:90-242 | Status 200 exactly when the checks pass; otherwise the rejection's status and error text. On success the JSON holds the secured name and a path that did not exist and is the rename loop's choice. Its percentage comes from the scorer that name selects, the sentence is the verdict for that percentage, and `model_used` is the model flag. |
| HomeState.PickImage | src/pages/Home.jsx:27-36 | No file changes nothing. A file becomes the only selection, gets the new preview URL and makes the preview kind image. Tab, result, loading and drag state stay. |
| HomeState.PickVideo | src/pages/Home.jsx:38-47 | The same for a video. |
| HomeState.DragOver | src/pages/Home.jsx:95-98 | Only the drag highlight changes, and it turns on. |
| HomeState.DragLeave | src/pages/Home.jsx:100-103 | Only the drag highlight changes, and it turns off. |
| HomeState.Drop | src/pages/Home.jsx:105-124 | The highlight turns off. An `image/` or `video/` type becomes the only selection and sets both kind and tab. Any dropped file replaces the preview URL. A file of another type changes nothing else. Consistency is kept. |
| HomeState.SubmitRequest | src/pages/Home.jsx:51-52 | A file is sent exactly when one is selected, and it is the selected one. |
| HomeState.SubmitStart | src/pages/Home.jsx:49-54 | With a selection, loading starts and nothing else changes. Without one, nothing changes. |
| HomeState.SubmitFinish | src/pages/Home.jsx:77-91 | Loading stops. Success stores the answer's result and percentage; a failure keeps the earlier ones. The selection, preview, kind, tab and highlight stay. |
| HomeState.SubmitAlert | src/pages/Home.jsx:81-88 | An alert is raised exactly when the submit fails. An error answer shows `Upload failed: <error>`. |
| HomeState.Reset | src/pages/Home.jsx:126-135 | Nothing is selected, previewed or shown as a result. Percentage 0, not loading, no highlight. The kind becomes the active tab, which stays. |
| HomeState.SelectTab | src/pages/Home.jsx:144-155 | Only the active tab changes, to the chosen kind. |
| HomeState.Consistent | src/pages/Home.jsx:27-47 | The invariant the handlers keep: at most one file is selected, and a selected file has a preview URL and a matching `uploadType`. So a selection always puts the page on the preview. |
| HomeState.PreviewPageShown | src/pages/Home.jsx:139 | The preview page is shown exactly when there is a preview URL. |
| HomeState.ButtonsDisabled | src/pages/Home.jsx:187-199 | The submit and reset buttons are disabled exactly while loading. |
| HomeState.ResultShown | src/pages/Home.jsx:210 | The analysis panel is shown exactly when the result is a non-empty string. |
| HomeState.StepKeepsConsistent | src/pages/Home.jsx:27-135 | Every handler keeps the invariant: at most one selected file, and a selected file has a preview and a matching kind. |
| HomeState.RunKeepsConsistent | src/pages/Home.jsx:27-155 | Over any sequence of user events from a consistent state, an image and a video are never selected at once. |
| HomeState.ResetIdempotent | src/pages/Home.jsx:126-135 | Resetting twice is the same as resetting once. |
| HomeState.ResetShowsUploadPage | src/pages/Home.jsx:126-135 | After a reset the upload page is shown, the buttons are enabled and no analysis is displayed. |
| HomeState.SubmitSucceeds | src/pages/Home.jsx:49-93 | A successful submit sends the selected file and disables the buttons while waiting, then re-enables them. It stores the answer, keeps the selection and preview, and raises no alert. |
| HomeState.SubmitFailureKeepsResult | src/pages/Home.jsx:81-91 | A failed submit raises an alert, re-enables the buttons and leaves the earlier result and percentage. |
| HomeState.SubmitWithoutFileIsInert | src/pages/Home.jsx:51 | Submitting with nothing selected changes nothing and sends nothing. |
| HomeState.UnknownDropOpensPreviewWithoutFile | src/pages/Home.jsx:105-124 | Dropping a `text/plain` file on the fresh page opens the preview page with nothing selected, so submit sends nothing. |
| HomeView.Home.constructor | src/pages/Home.jsx:7-15 | The fields start at the `useState` initial values, which are consistent. |
| HomeView.Home.HandleImageUpload | src/pages/Home.jsx:27-36 | Updates the fields exactly as `PickImage` and keeps the invariant. |
| HomeView.Home.HandleVideoUpload | src/pages/Home.jsx:38-47 | Updates the fields exactly as `PickVideo` and keeps the invariant. |
| HomeView.Home.HandleDragOver | src/pages/Home.jsx:95-98 | Updates the fields exactly as `DragOver`. |
| HomeView.Home.HandleDragLeave | src/pages/Home.jsx:100-103 | Updates the fields exactly as `DragLeave`. |
| HomeView.Home.HandleDrop | src/pages/Home.jsx:105-124 | Updates the fields exactly as `Drop` and keeps the invariant. |
| HomeView.Home.HandleSubmitStart | src/pages/Home.jsx:49-54 | Updates the fields exactly as `SubmitStart` and returns the file `SubmitRequest` sends. |
| HomeView.Home.HandleSubmitFinish | src/pages/Home.jsx:77-91 | Updates the fields exactly as `SubmitFinish` and returns the alert `SubmitAlert` gives. |
| HomeView.Home.ResetUpload | src/pages/Home.jsx:126-135 | Updates the fields exactly as `Reset`. |
| HomeView.Home.HandleTabClick | src/pages/Home.jsx:144-155 | Updates the fields exactly as `SelectTab`. |

## Left out

- Flask routing, CORS, the `/health` route and the JSON encoding of answers: framework plumbing with no decision in it.
- The console and `print` logging on both sides, and the post-save existence check and directory listing, which only log.
- Saving the file, deleting it afterwards, and the memory clean-up: these are file-system and process effects, and they do not change the answer.
- `load_model`, `runModel`, `runVideo` and the model code under `backend/myEnv`: their outcome is an input (`ModelState`, `ModelResult`). backend/myEnv/sigmaMethod.py is not part of this model.
- Scoring.ScorePercentage: `random.random()` and float rounding are not modelled. The fallback percentage is a parameter, and a model's number is taken as already rounded to tenths.
- Scoring.FormatTenths: Python's float `str` is modelled as `<integer>.<digit>`. It ignores the exponent notation Python uses for values of 10^16 and above, which a percentage never reaches.
- PyText.Lower: changes only ASCII capitals and the Kelvin sign (U+212A, which becomes `k`). Python also lower-cases other non-ASCII letters, and turns U+0130 into two characters. Those results still hold a non-ASCII character, so they match no allowed or video extension, in Python or in the model.
- werkzeug's `secure_filename`: an opaque function parameter. The model does not describe how it cleans names, nor that it can return an empty name.
- The path made absolute for logging (`os.path.abspath`) and the derivation of `UPLOAD_FOLDER` from the module location: the folder is a parameter.
- Exceptions other than the missing filename (for example a failing save): each would give a 500 with the exception text; they come from I/O that is left out.
- Concurrency: a save racing with another request, and page events that arrive while `handleSubmit` awaits `fetch`. The page model treats the start and the end of a submit as two separate events.
- `fetch`, `FormData`, `alert` and `URL.createObjectURL`: outcomes and URLs are inputs (`SubmitOutcome`, `ObjectUrl`). The alert is returned as text.
- The scroll effect, JSX markup, CSS classes, the dark-mode toggle, `App.jsx`, `TopBar.jsx`, `DarkModeToggle.jsx` and `config.js`. The conditions the markup depends on are kept as predicates: preview page, disabled buttons, result panel.
