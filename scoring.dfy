/**
 * How `upload_file` (backend/app.py) picks a scorer for the saved file and
 * turns the resulting percentage into its verdict sentence. Percentages are
 * integer tenths: 73.3 is 733.
 */
module Scoring {
  import opened PyText
  import opened PosixPath
  import opened SaveName

  /** `video_extensions`, compared against the lower-cased `splitext` extension. */
  const VideoExtensions: set<string> := {".mp4", ".avi", ".mov", ".wmv", ".flv", ".mkv", ".webm"}

  datatype Scorer = VideoScorer | ImageScorer | RandomFallback

  /** What loading the model left behind: whether `MODEL_AVAILABLE` holds with
      `runModel` set, and whether `runVideo` is set. */
  datatype ModelState = ModelState(available: bool, videoLoaded: bool)

  /** What the chosen model function gave back. */
  datatype ModelResult = Number(tenths: int) | NotNumber | Raised

  /** The dispatch of `upload_file`: no model means the random fallback; a
      video extension with `runVideo` loaded means the video scorer; any
      other file goes to the image scorer. */
  function ChooseScorer(model: ModelState, filepath: string): (s: Scorer)
    ensures s == RandomFallback <==> !model.available
    ensures s == VideoScorer <==>
              model.available && model.videoLoaded && Lower(Ext(filepath)) in VideoExtensions
  {
    if !model.available then RandomFallback
    else if Lower(Ext(filepath)) in VideoExtensions && model.videoLoaded then VideoScorer
    else ImageScorer
  }

  /** The percentage: the model's number when it gave one, otherwise the
      random fallback value. */
  function ScorePercentage(scorer: Scorer, result: ModelResult, fallback: int): (p: int)
    ensures scorer != RandomFallback && result.Number? ==> p == result.tenths
    ensures scorer == RandomFallback || !result.Number? ==> p == fallback
  {
    if scorer == RandomFallback then fallback
    else match result
      case Number(t) => t
      case _ => fallback
  }

  /** Whatever name the upload is finally saved under, the scorer is the one
      its secured name's extension selects. */
  lemma SavedFileScorer(model: ModelState, folder: string, name: string, existing: set<string>, path: string)
    requires IsSavePath(folder, name, existing, path)
    ensures ChooseScorer(model, path) == ChooseScorer(model, name)
  {
    SavePathKeepsExt(folder, name, existing, path);
  }

  /** A capital Kelvin sign lower-cases to `k`, so `v.m\U{212A}v` is sent to
      the video scorer like `v.mkv`. */
  lemma KelvinSignSelectsVideo()
    ensures ChooseScorer(ModelState(true, true), "v.m\U{212A}v") == VideoScorer
  {
    var p := "v.m\U{212A}v";
    LastIndexOfIs(p, '/', -1);
    LastIndexOfIs(p, '.', 1);
    ExtAt(p, -1, 1);
    assert Ext(p) == p[1..];
    assert Lower(p[1..]) == ".mkv";
  }

  datatype Label = AI | Human

  function LabelText(l: Label): string
  {
    match l
    case AI => "AI"
    case Human => "human"
  }

  /** Python's `str` of a float holding `t` tenths, for `t` below 10^17. */
  function FormatTenths(t: nat): (s: string)
    ensures |s| >= 3 && s[|s| - 2] == '.'
    ensures forall i :: 0 <= i < |s| && i != |s| - 2 ==> IsDigit(s[i])
  {
    NatToString(t / 10) + "." + [DigitChar(t % 10)]
  }

  /** Reading a number written with one decimal back as tenths. */
  function ParseTenths(s: string): nat
  {
    var k := LastIndexOf(s, '.');
    if k < 0 then 10 * StringToNat(s) else 10 * StringToNat(s[..k]) + StringToNat(s[k + 1..])
  }

  /** Writing a confidence and reading it back gives the same tenths. */
  lemma FormatTenthsRoundTrip(t: nat)
    ensures ParseTenths(FormatTenths(t)) == t
  {
    var whole := NatToString(t / 10);
    var s := FormatTenths(t);
    NoSeparatorInDigits(t / 10);
    assert s == whole + ("." + [DigitChar(t % 10)]);
    LastIndexOfIs("." + [DigitChar(t % 10)], '.', 0);
    LastIndexOfAppendPresent(whole, "." + [DigitChar(t % 10)], '.');
    assert s[..|whole|] == whole;
    assert s[|whole| + 1..] == [DigitChar(t % 10)];
    StringToNatInverts(t / 10);
    assert StringToNat([DigitChar(t % 10)]) == t % 10;
  }

  datatype Verdict = Verdict(kind: Label, confidence: nat, sentence: string)

  /** The verdict rule: below 50% the file is called AI with the complement
      as confidence; from 50% up it is called human with the percentage as
      confidence. */
  function MakeVerdict(percentage: int): (v: Verdict)
    ensures v.kind == AI <==> percentage < 500
    ensures v.kind == AI ==> v.confidence == 1000 - percentage
    ensures v.kind == Human ==> v.confidence == percentage
    ensures v.confidence >= 500
    ensures v.sentence == FormatTenths(v.confidence) + "% sure this is " + LabelText(v.kind)
  {
    if percentage < 500 then
      var confidence := 1000 - percentage;
      Verdict(AI, confidence, FormatTenths(confidence) + "% sure this is " + LabelText(AI))
    else
      Verdict(Human, percentage, FormatTenths(percentage) + "% sure this is " + LabelText(Human))
  }

  /** For a percentage in [0, 100] the confidence lies in [50, 100], and the
      verdict sentence states the confidence so that it reads back exactly. */
  lemma VerdictInRange(percentage: int)
    requires 0 <= percentage <= 1000
    ensures 500 <= MakeVerdict(percentage).confidence <= 1000
    ensures ParseTenths(FormatTenths(MakeVerdict(percentage).confidence)) == MakeVerdict(percentage).confidence
  {
    FormatTenthsRoundTrip(MakeVerdict(percentage).confidence);
  }
}
