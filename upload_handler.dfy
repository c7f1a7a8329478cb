/**
 * The `/upload` endpoint of backend/app.py as one method: validate, secure
 * the name, pick the save path, score, and build the JSON answer. Saving,
 * deleting and model loading are I/O; their effect on the answer enters as
 * parameters.
 */
module UploadHandler {
  import opened UploadRules
  import opened SaveName
  import opened Scoring

  datatype Body =
    | ErrorBody(error: string)
    | SuccessBody(message: string, filename: string, filepath: string,
                  percentage: int, analysisResult: string, modelUsed: bool)

  datatype Response = Response(status: int, body: Body)

  /**
   * `upload_file`. `secureFilename` is werkzeug's `secure_filename`;
   * `existing` the paths present before the save; `model` the state after the
   * load attempt; `result` what the chosen model function returned; `fallback`
   * the random percentage used when there is no usable number.
   */
  method UploadFile(req: UploadRequest, secureFilename: string -> string, folder: string,
                    existing: set<string>, model: ModelState, result: ModelResult, fallback: int)
    returns (resp: Response)
    ensures resp.status == 200 <==> CheckUpload(req).Ok?
    ensures CheckUpload(req).Err? ==>
              resp == Response(CheckUpload(req).error.status, ErrorBody(CheckUpload(req).error.error))
    ensures CheckUpload(req).Ok? ==>
              var name := secureFilename(CheckUpload(req).value);
              && resp.body.SuccessBody?
              && resp.body.message == "File uploaded successfully"
              && resp.body.filename == name
              && resp.body.filepath !in existing
              && IsSavePath(folder, name, existing, resp.body.filepath)
              && resp.body.percentage == ScorePercentage(ChooseScorer(model, name), result, fallback)
              && resp.body.analysisResult == MakeVerdict(resp.body.percentage).sentence
              && resp.body.modelUsed == model.available
  {
    var checked := CheckUpload(req);
    if checked.Err? {
      return Response(checked.error.status, ErrorBody(checked.error.error));
    }
    var filename := secureFilename(checked.value);
    var filepath := ChooseSavePath(folder, filename, existing);
    SavedFileScorer(model, folder, filename, existing, filepath);
    var percentage := ScorePercentage(ChooseScorer(model, filepath), result, fallback);
    var verdict := MakeVerdict(percentage);
    resp := Response(200, SuccessBody("File uploaded successfully", filename, filepath,
                                      percentage, verdict.sentence, model.available));
  }
}
