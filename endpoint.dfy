/**
 * `POST /transcribe`: validate, write the upload to `temp_<filename>`, get
 * the model for the requested size, run it on the file, and answer with a
 * payload. Validation failures are raised as HTTP errors before the `try`
 * block; everything that goes wrong inside it is answered with an error
 * payload.
 *
 * Writing the file, loading the model and running it are foreign calls: the
 * model takes what each would do as a field of `Environment`.
 */
module Endpoint {

  import opened Wrappers
  import opened PyStr
  import opened Validation
  import opened ModelCache
  import opened Response

  /** The parts of the request the endpoint reads. */
  datatype Request = Request(filename: string, language: string, modelSize: string, task: string)

  /** What `open(temp_file_path, "wb")` and the write of the uploaded bytes
      do: succeed, fail before a file exists, or fail after it was created. */
  datatype WriteResult = Written | OpenFailed(message: string) | WriteFailed(message: string)

  /** Everything outside the endpoint's own logic that can affect a request. */
  datatype Environment = Environment(
    flavor: Flavor,
    orders: SetOrders,
    cudaAvailable: bool,
    write: WriteResult,
    load: LoadResult,
    inference: Attempt)

  /** The arguments `transcribe_audio` is called with. */
  datatype InferenceCall = InferenceCall(handle: Handle, path: string, language: string, task: string, fp16: bool)

  /** An HTTP 400 raised by validation, or an answered payload. */
  datatype Outcome = Refused(reason: Rejection, detail: string) | Answered(payload: Payload)

  /** What the request did besides answering: the temp file it left on disk
      (nothing ever deletes it), whether it called `get_model`, and the call
      it made to the model. */
  datatype Effects = Effects(tempFile: Option<string>, modelRequested: bool, inference: Option<InferenceCall>)

  const NoEffects := Effects(None, false, None)

  datatype Exchange = Exchange(outcome: Outcome, entries: map<string, Handle>, effects: Effects)

  /** `f"temp_{file.filename}"` */
  function TempPath(filename: string): string
  {
    "temp_" + filename
  }

  /** The temp path is a function of the file name alone: two uploads get the
      same path exactly when their file names are equal. */
  lemma TempPathCollidesIffSameName(a: string, b: string)
    ensures TempPath(a) == TempPath(b) <==> a == b
  {
    if TempPath(a) == TempPath(b) {
      assert a == TempPath(a)[5..];
      assert b == TempPath(b)[5..];
    }
  }

  /** The request once validation has given its verdict `v`. Whatever the
      verdict, the memo only grows, and only a request that calls
      `get_model` changes it. */
  function Respond(entries: map<string, Handle>, req: Request, env: Environment, v: Verdict): (x: Exchange)
    ensures forall k :: k in entries ==> k in x.entries && x.entries[k] == entries[k]
    ensures x.entries != entries ==> x.effects.modelRequested
  {
    match v
    case Rejected(reason, detail) => Exchange(Refused(reason, detail), entries, NoEffects)
    case Ok =>
      var path := TempPath(req.filename);
      match env.write
      case OpenFailed(m) => Exchange(Answered(ShapeResponse(Exception(m))), entries, NoEffects)
      case WriteFailed(m) => Exchange(Answered(ShapeResponse(Exception(m))), entries, Effects(Some(path), false, None))
      case Written =>
        var s := GetOrLoad(entries, Call(req.modelSize, env.cudaAvailable, env.load));
        match s.result
        case Raised(m) => Exchange(Answered(ShapeResponse(Exception(m))), s.entries, Effects(Some(path), true, None))
        case Got(h) =>
          var call := InferenceCall(h, path, req.language, req.task, env.cudaAvailable);
          Exchange(Answered(ShapeResponse(env.inference)), s.entries, Effects(Some(path), true, Some(call)))
  }

  /** One request against the memo `entries`: validation, then the rest. */
  function HandleRequest(entries: map<string, Handle>, req: Request, env: Environment): Exchange {
    Respond(entries, req, env, Validate(req.filename, req.modelSize, req.task, env.flavor, env.orders))
  }

  /** `transcribe_endpoint` against the process-wide memo. Its answer, its
      effects and the new memo are those of HandleRequest; the loader count
      moves only when the model was requested, and then by one exactly when
      `get_model` ran the loader. */
  method TranscribeEndpoint(cache: Cache, req: Request, env: Environment) returns (outcome: Outcome, effects: Effects)
    requires cache.Valid()
    modifies cache
    ensures cache.Valid()
    ensures var x := HandleRequest(old(cache.entries), req, env);
            outcome == x.outcome && effects == x.effects && cache.entries == x.entries
    ensures !effects.modelRequested ==> cache.loadCalls == old(cache.loadCalls)
    ensures effects.modelRequested ==>
            var s := GetOrLoad(old(cache.entries), Call(req.modelSize, env.cudaAvailable, env.load));
            cache.loadCalls == if s.loaded then old(cache.loadCalls)[req.modelSize := old(cache.LoadCount(req.modelSize)) + 1] else old(cache.loadCalls)
  {
    var verdict := Validate(req.filename, req.modelSize, req.task, env.flavor, env.orders);
    outcome, effects := TranscribeValidated(cache, req, env, verdict);
  }

  /** The endpoint from the verdict of validation on: the same answer,
      effects and memo as Respond, with the loader count kept as in
      TranscribeEndpoint. */
  method TranscribeValidated(cache: Cache, req: Request, env: Environment, verdict: Verdict) returns (outcome: Outcome, effects: Effects)
    requires cache.Valid()
    modifies cache
    ensures cache.Valid()
    ensures var x := Respond(old(cache.entries), req, env, verdict);
            outcome == x.outcome && effects == x.effects && cache.entries == x.entries
    ensures !effects.modelRequested ==> cache.loadCalls == old(cache.loadCalls)
    ensures effects.modelRequested ==>
            var s := GetOrLoad(old(cache.entries), Call(req.modelSize, env.cudaAvailable, env.load));
            cache.loadCalls == if s.loaded then old(cache.loadCalls)[req.modelSize := old(cache.LoadCount(req.modelSize)) + 1] else old(cache.loadCalls)
  {
    if verdict.Rejected? {
      return Refused(verdict.reason, verdict.detail), NoEffects;
    }
    var path := TempPath(req.filename);
    match env.write {
      case OpenFailed(m) =>
        return Answered(ShapeResponse(Exception(m))), NoEffects;
      case WriteFailed(m) =>
        return Answered(ShapeResponse(Exception(m))), Effects(Some(path), false, None);
      case Written =>
    }
    var got := cache.GetModel(req.modelSize, env.cudaAvailable, env.load);
    match got {
      case Raised(m) =>
        outcome, effects := Answered(ShapeResponse(Exception(m))), Effects(Some(path), true, None);
      case Got(h) =>
        var fp16 := env.cudaAvailable;
        var call := InferenceCall(h, path, req.language, req.task, fp16);
        outcome, effects := Answered(ShapeResponse(env.inference)), Effects(Some(path), true, Some(call));
    }
  }

  // ---------------------------------------------------------------------------
  // Properties of a request
  // ---------------------------------------------------------------------------

  /** A request is refused exactly when validation rejects it, with
      validation's reason and detail; a refused request writes no file, never
      calls `get_model` and leaves the memo alone. */
  lemma RefusedIffRejected(entries: map<string, Handle>, req: Request, env: Environment, v: Verdict)
    ensures var x := Respond(entries, req, env, v);
            && (x.outcome.Refused? <==> v.Rejected?)
            && (v.Rejected? ==> x.outcome == Refused(v.reason, v.detail) && x.entries == entries && x.effects == NoEffects)
  {
  }

  /** `get_model` is called only with one of the five valid sizes, so the
      call either finds the size cached or runs the loader: its `ValueError`
      branch cannot be reached from the endpoint. */
  lemma ModelRequestedOnlyForValidSize(entries: map<string, Handle>, req: Request, env: Environment)
    ensures HandleRequest(entries, req, env).effects.modelRequested ==>
            && req.modelSize in ValidModels
            && (req.modelSize in entries || GetOrLoad(entries, Call(req.modelSize, env.cudaAvailable, env.load)).loaded)
  {
    var v := Validate(req.filename, req.modelSize, req.task, env.flavor, env.orders);
    if Respond(entries, req, env, v).effects.modelRequested {
      ModelRequestFacts(entries, req, env, v);
    }
  }

  /** Every answered payload carries exactly one of a text and an error. */
  lemma AnsweredHasTextXorError(entries: map<string, Handle>, req: Request, env: Environment, v: Verdict)
    ensures var x := Respond(entries, req, env, v);
            x.outcome.Answered? ==> (x.outcome.payload.transcribedText.Some? != x.outcome.payload.error.Some?)
  {
  }

  /** The model is run on the temp file with the memoised handle of the
      requested size, the request's language and task, and half precision
      exactly when CUDA is available. */
  lemma InferenceUsesCachedHandle(entries: map<string, Handle>, req: Request, env: Environment, v: Verdict)
    requires WellFormed(entries)
    ensures var x := Respond(entries, req, env, v);
            x.effects.inference.Some? ==>
              var c := x.effects.inference.value;
              && c.path == TempPath(req.filename) && x.effects.tempFile == Some(c.path)
              && req.modelSize in x.entries && c.handle == x.entries[req.modelSize] && c.handle.size == req.modelSize
              && c.language == req.language && c.task == req.task && c.fp16 == env.cudaAvailable
  {
    var x := Respond(entries, req, env, v);
    if x.effects.inference.Some? {
      InferenceOnlyAfterModelRequest(entries, req, env, v);
      ModelRequestFacts(entries, req, env, v);
      var s := GetOrLoad(entries, Call(req.modelSize, env.cudaAvailable, env.load));
      assert s.result.Got? && x.entries == s.entries;
    }
  }

  /** A successful answer comes from a model run that returned "text", and
      carries that text stripped. */
  lemma SuccessCarriesStrippedText(entries: map<string, Handle>, req: Request, env: Environment, v: Verdict)
    ensures var x := Respond(entries, req, env, v);
            x.outcome.Answered? && x.outcome.payload.status == "success" ==>
              && x.effects.inference.Some?
              && env.inference.Returned? && env.inference.result.Some? && "text" in env.inference.result.value
              && x.outcome.payload.transcribedText == Some(Strip(env.inference.result.value["text"]))
  {
    var x := Respond(entries, req, env, v);
    if x.outcome.Answered? && x.outcome.payload.status == "success" {
      if env.write.Written? && GetOrLoad(entries, Call(req.modelSize, env.cudaAvailable, env.load)).result.Got? {
        SuccessText(env.inference);
      } else {
        FailureMessages(Exception(if env.write.Written? then GetOrLoad(entries, Call(req.modelSize, env.cudaAvailable, env.load)).result.message else env.write.message));
      }
    }
  }

  /** What a request that passed validation answers: the error of the write
      when the file could not be written, the error of `get_model` when it
      raised, and otherwise the shaped result of the model run. */
  lemma AnswerAfterValidation(entries: map<string, Handle>, req: Request, env: Environment, v: Verdict)
    requires v.Ok?
    ensures var x := Respond(entries, req, env, v);
            var s := GetOrLoad(entries, Call(req.modelSize, env.cudaAvailable, env.load));
            && (!env.write.Written? ==> x.outcome == Answered(ShapeResponse(Exception(env.write.message))))
            && (env.write.Written? && s.result.Raised? ==> x.outcome == Answered(ShapeResponse(Exception(s.result.message))))
            && (env.write.Written? && s.result.Got? ==> x.outcome == Answered(ShapeResponse(env.inference)))
  {
  }

  /** A valid request whose file is written, whose model loads and whose run
      returns a dict with "text" succeeds with that text stripped. */
  lemma SuccessScenario(entries: map<string, Handle>, req: Request, env: Environment, t: string)
    requires Extension(req.filename, env.flavor) == ".wav" && req.modelSize == "tiny" && req.task == "transcribe"
    requires env.write == Written && env.load.Loaded?
    requires env.inference == Returned(Some(map["text" := t]))
    ensures HandleRequest(entries, req, env).outcome == Answered(Payload("success", Some(Strip(t)), None))
  {
    assert ".wav" in AllowedExtensions && "tiny" in ValidModels && "transcribe" in ValidTasks;
  }

  /** A valid request whose file is written but whose model fails to load is
      answered with the loader's error, runs nothing, and caches nothing. */
  lemma LoadFailureScenario(entries: map<string, Handle>, req: Request, env: Environment)
    requires Validate(req.filename, req.modelSize, req.task, env.flavor, env.orders).Ok?
    requires req.modelSize !in entries && env.write == Written && env.load.LoadFailed?
    ensures var x := HandleRequest(entries, req, env);
            && x.outcome == Answered(Payload("error", None, Some(env.load.message)))
            && x.effects == Effects(Some(TempPath(req.filename)), true, None)
            && x.entries == entries
  {
  }

  /** A temp file is left behind exactly when validation passed and the file
      could be opened, and it is `temp_<filename>`. */
  lemma TempFileLeftBehind(entries: map<string, Handle>, req: Request, env: Environment, v: Verdict)
    ensures var x := Respond(entries, req, env, v);
            && (x.effects.tempFile.Some? <==> v.Ok? && !env.write.OpenFailed?)
            && (x.effects.tempFile.Some? ==> x.effects.tempFile == Some(TempPath(req.filename)))
  {
  }

  /** The memo stays well formed across requests. */
  lemma RequestPreservesWellFormed(entries: map<string, Handle>, req: Request, env: Environment, v: Verdict)
    requires WellFormed(entries)
    ensures WellFormed(Respond(entries, req, env, v).entries)
  {
  }

  /** A request that calls `get_model` passed validation and wrote its file;
      the memo it leaves and the handle it runs are those of the call. */
  lemma ModelRequestFacts(entries: map<string, Handle>, req: Request, env: Environment, v: Verdict)
    requires Respond(entries, req, env, v).effects.modelRequested
    ensures v.Ok? && env.write.Written?
    ensures Respond(entries, req, env, v).entries == GetOrLoad(entries, Call(req.modelSize, env.cudaAvailable, env.load)).entries
    ensures var s := GetOrLoad(entries, Call(req.modelSize, env.cudaAvailable, env.load));
            s.result.Got? ==> Respond(entries, req, env, v).effects.inference == Some(InferenceCall(s.result.handle, TempPath(req.filename), req.language, req.task, env.cudaAvailable))
    ensures GetOrLoad(entries, Call(req.modelSize, env.cudaAvailable, env.load)).result.Raised? ==>
            Respond(entries, req, env, v).effects.inference == None
  {
  }

  /** Only a request that called `get_model` runs the model. */
  lemma InferenceOnlyAfterModelRequest(entries: map<string, Handle>, req: Request, env: Environment, v: Verdict)
    ensures Respond(entries, req, env, v).effects.inference.Some? ==> Respond(entries, req, env, v).effects.modelRequested
  {
  }

  /** Two requests for the same size that both reach the model run the same
      handle, and the second loads nothing. */
  lemma SecondRequestReusesModel(entries: map<string, Handle>, r1: Request, e1: Environment, v1: Verdict,
                                  r2: Request, e2: Environment, v2: Verdict)
    requires r1.modelSize == r2.modelSize
    requires Respond(entries, r1, e1, v1).effects.inference.Some?
    requires Respond(Respond(entries, r1, e1, v1).entries, r2, e2, v2).effects.modelRequested
    ensures var x1 := Respond(entries, r1, e1, v1);
            var x2 := Respond(x1.entries, r2, e2, v2);
            && x2.effects.inference.Some? && x2.effects.inference.value.handle == x1.effects.inference.value.handle
            && x2.entries == x1.entries
  {
    var x1 := Respond(entries, r1, e1, v1);
    InferenceOnlyAfterModelRequest(entries, r1, e1, v1);
    ModelRequestFacts(entries, r1, e1, v1);
    var s1 := GetOrLoad(entries, Call(r1.modelSize, e1.cudaAvailable, e1.load));
    assert s1.result.Got?;
    var h := s1.result.handle;
    assert x1.effects.inference.value.handle == h;
    ModelRequestFacts(x1.entries, r2, e2, v2);
    var s2 := GetOrLoad(x1.entries, Call(r2.modelSize, e2.cudaAvailable, e2.load));
    assert r2.modelSize in x1.entries && x1.entries[r2.modelSize] == h;
    assert s2 == Step(x1.entries, Got(h), false);
  }

  // ---------------------------------------------------------------------------
  // Scenarios
  // ---------------------------------------------------------------------------

  /** An upload whose extension is `.ogg` (such as "rec\\x.OGG" under ntpath, see OggExample)
      is refused for that extension, whatever the other parameters, before
      anything is written or loaded; by UnsupportedDetailNamesExtension the
      detail starts with "Unsupported file type: .ogg". */
  lemma OggUploadScenario(entries: map<string, Handle>, req: Request, env: Environment)
    requires Extension(req.filename, env.flavor) == ".ogg"
    ensures var x := HandleRequest(entries, req, env);
            && x.outcome == Refused(UnsupportedFileType(".ogg"), Detail(UnsupportedFileType(".ogg"), env.orders))
            && x.effects == NoEffects && x.entries == entries
  {
    assert ".ogg" !in AllowedExtensions;
  }

  /** A valid file with model size "huge" is refused before any load. */
  lemma HugeModelScenario(entries: map<string, Handle>, req: Request, env: Environment)
    requires Extension(req.filename, env.flavor) in AllowedExtensions && req.modelSize == "huge"
    ensures var x := HandleRequest(entries, req, env);
            && x.outcome == Refused(InvalidModelSize, Detail(InvalidModelSize, env.orders))
            && x.effects == NoEffects && x.entries == entries
  {
    assert "huge" !in ValidModels;
  }
}
