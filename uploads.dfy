/** `upload_file`: the guard clauses on the multipart form, then the life of
    the staged file — saved, analysed, removed on every path the `try`
    covers. */
module Uploads {
  import opened PathExt
  import opened Media
  import opened Safety
  import opened Analysis

  const UploadFolder: string := "uploads"
  const AudioField: string := "audio"
  const NoFilePart: string := "No file part"
  const NoSelectedFile: string := "No selected file"

  /** The JSON object of a response. */
  datatype Body = ErrorBody(error: string) | AnalysisBody(analysis: string)

  datatype Response = Response(status: int, body: Body)

  /** How a call of the handler ends: it returns a response, or an exception
      escapes it and the web framework answers with its own 500 page. */
  datatype Outcome = Handled(response: Response) | Escaped(message: string)

  /** What the guard clauses decide: answer at once, or go on with the
      client's file name. */
  datatype Decision = Reject(response: Response) | Accept(filename: string)

  /** The guard clauses. `files` maps each file field of the form to the
      file name the client sent with it. The field is looked for before its
      name is looked at. */
  function Validate(files: map<string, string>): (d: Decision)
    ensures d.Accept? <==> AudioField in files && files[AudioField] != ""
    ensures d.Accept? ==> d.filename == files[AudioField]
    ensures AudioField !in files ==> d == Reject(Response(400, ErrorBody(NoFilePart)))
    ensures AudioField in files && files[AudioField] == "" ==>
      d == Reject(Response(400, ErrorBody(NoSelectedFile)))
  {
    if AudioField !in files then Reject(Response(400, ErrorBody(NoFilePart)))
    else if files[AudioField] == "" then Reject(Response(400, ErrorBody(NoSelectedFile)))
    else Accept(files[AudioField])
  }

  /** A filesystem step that may raise. */
  datatype Step = Done | Fails(message: string)

  /** `file.save(path)`: it writes the file, or raises, possibly having
      written part of it already. */
  datatype SaveStep = Saved | SaveFails(message: string, leavesFile: bool)

  /** Everything the handler depends on that this model does not compute:
      the sanitiser, the remote model, and how each filesystem or
      serialisation step turns out. `remove` is the removal after the
      analysis, `removeAgain` the one in the `except` clause, `respond`
      the building of the success response. */
  datatype Env = Env(
    secureFilename: string -> string,
    service: Request -> Reply,
    save: SaveStep,
    remove: Step,
    respond: Step,
    removeAgain: Step)

  /** What the sanitiser is trusted to give for an accepted name: a
      non-empty name with no separator in it that is neither `.` nor `..`. */
  predicate Sanitizes(files: map<string, string>, env: Env) {
    AudioField in files && files[AudioField] != "" ==>
      IsFileName(env.secureFilename(files[AudioField]))
  }

  /** A name that denotes a file of the directory it is joined onto. */
  predicate IsFileName(name: string) {
    name != [] && Sep !in name && name != "." && name != ".."
  }

  /** Where the file of an accepted request is staged: the staging folder,
      a separator and the sanitised name, unless that name is absolute. */
  function StagedPath(name: string, env: Env): (p: string)
    ensures env.secureFilename(name) == [] || env.secureFilename(name)[0] != Sep ==>
      p == UploadFolder + [Sep] + env.secureFilename(name)
    ensures env.secureFilename(name) != [] && env.secureFilename(name)[0] == Sep ==>
      p == env.secureFilename(name)
  {
    Join(UploadFolder, env.secureFilename(name))
  }

  /** The staged path is a file directly inside the staging directory, named
      by the sanitiser, and it keeps the extension of that name. */
  lemma StagedPathInFolder(name: string, env: Env)
    requires IsFileName(env.secureFilename(name))
    ensures Basename(StagedPath(name, env)) == env.secureFilename(name)
    ensures Basename(StagedPath(name, env)) !in {".", ".."}
    ensures StagedPath(name, env) == UploadFolder + [Sep] + env.secureFilename(name)
    ensures ExtOf(StagedPath(name, env)) == ExtOf(env.secureFilename(name))
  {
    BasenameOfJoin(UploadFolder, env.secureFilename(name));
    ExtOfJoin(UploadFolder, env.secureFilename(name));
  }

  /** How `os.remove` begins its message for a path that is not there. */
  const NoSuchFilePrefix: string := "[Errno 2] No such file or directory: '"

  /** The message `os.remove` raises for a path that is not there: the
      prefix, then the path in single quotes. Python quotes the path with
      `repr`, which differs from this only for a path holding a quote or a
      backslash; the sanitised names the handler stages hold neither. */
  function NoSuchFile(path: string): (m: string)
    ensures |m| == |NoSuchFilePrefix| + |path| + 1
    ensures m[..|NoSuchFilePrefix|] == NoSuchFilePrefix
    ensures m[|NoSuchFilePrefix|..|m| - 1] == path && m[|m| - 1] == '\''
  {
    NoSuchFilePrefix + path + "'"
  }

  /** How a call ends, together with what the staging directory holds then. */
  datatype Final = Final(outcome: Outcome, staged: set<string>)

  /** The handler as a function of the staging directory's contents before
      the call, the form and the environment. */
  function HandleUpload(staged: set<string>, files: map<string, string>, env: Env): (f: Final)
    requires Sanitizes(files, env)
    // Rejected requests answer 400 and write nothing.
    ensures Validate(files).Reject? ==> f == Final(Handled(Validate(files).response), staged)
    // Only the staged path can change.
    ensures Validate(files).Accept? ==>
      f.staged - {StagedPath(files[AudioField], env)} == staged - {StagedPath(files[AudioField], env)}
    // Cleanup: whenever a response is returned, the staged file is gone.
    ensures Validate(files).Accept? && f.outcome.Handled? ==>
      f.staged == staged - {StagedPath(files[AudioField], env)}
    // An exception escapes only from the save, or from the second removal
    // after the first one failed; in the latter case the file stays.
    ensures Validate(files).Accept? ==>
      (f.outcome.Escaped? <==> env.save.SaveFails? || (env.remove.Fails? && env.removeAgain.Fails?))
    ensures Validate(files).Accept? && env.save.Saved? && f.outcome.Escaped? ==>
      StagedPath(files[AudioField], env) in f.staged
    // Success: the analysis text, whatever it says, with status 200.
    ensures Validate(files).Accept? ==>
      (f.outcome == Handled(Response(200, AnalysisBody(AnalyzeAudio(StagedPath(files[AudioField], env), env.service))))
       <==> env.save.Saved? && env.remove.Done? && env.respond.Done?)
    // Once the file is saved, a failing removal or success response leads
    // into the `except` clause, whose response is a 500 carrying the message
    // of the step that raised.
    ensures (Validate(files).Accept? && env.save.Saved? && !(env.remove.Done? && env.respond.Done?)
             && f.outcome.Handled?) ==>
      f.outcome.response == Response(500, ErrorBody(
        if env.remove.Fails? then env.remove.message else env.respond.message))
    // An escaping exception is the one the save or the second removal raised.
    ensures Validate(files).Accept? && f.outcome.Escaped? ==>
      f.outcome.message == if env.save.SaveFails? then env.save.message else env.removeAgain.message
    ensures f.outcome.Handled? ==> f.outcome.response.status in {200, 400, 500}
  {
    match Validate(files)
    case Reject(response) => Final(Handled(response), staged)
    case Accept(name) =>
      var path := StagedPath(name, env);
      match env.save
      case SaveFails(m, leaves) =>
        Final(Escaped(m), if leaves then staged + {path} else staged)
      case Saved =>
        var analysis := AnalyzeAudio(path, env.service);
        if env.remove.Done? then
          if env.respond.Done? then
            Final(Handled(Response(200, AnalysisBody(analysis))), staged - {path})
          else
            Final(Handled(Response(500, ErrorBody(env.respond.message))), staged - {path})
        else if env.removeAgain.Done? then
          Final(Handled(Response(500, ErrorBody(env.remove.message))), staged - {path})
        else
          Final(Escaped(env.removeAgain.message), staged + {path})
  }

  /** A remote failure still answers 200, with the error text as the analysis. */
  lemma RemoteFailureAnswers200(staged: set<string>, files: map<string, string>, env: Env, m: string)
    requires Sanitizes(files, env) && Validate(files).Accept?
    requires env.save.Saved? && env.remove.Done? && env.respond.Done?
    requires env.service(RequestFor(StagedPath(files[AudioField], env))) == Raised(m)
    ensures HandleUpload(staged, files, env).outcome == Handled(Response(200, AnalysisBody(ErrorText(m))))
  {
  }

  /** A 500 response comes only from a removal or the success response
      failing after the analysis returned; the analysis itself never causes one. */
  lemma ServerErrorOnlyAfterAnalysis(staged: set<string>, files: map<string, string>, env: Env)
    requires Sanitizes(files, env)
    requires HandleUpload(staged, files, env).outcome.Handled?
    requires HandleUpload(staged, files, env).outcome.response.status == 500
    ensures Validate(files).Accept? && env.save.Saved?
    ensures env.remove.Fails? || env.respond.Fails?
  {
  }

  /** Conversely, a saved upload whose removal or success response fails
      answers 500, unless the second removal raises as well. */
  lemma ExceptPathAnswers500(staged: set<string>, files: map<string, string>, env: Env)
    requires Sanitizes(files, env) && Validate(files).Accept? && env.save.Saved?
    requires env.remove.Fails? || env.respond.Fails?
    requires !(env.remove.Fails? && env.removeAgain.Fails?)
    ensures HandleUpload(staged, files, env).outcome.Handled?
    ensures HandleUpload(staged, files, env).outcome.response.status == 500
  {
  }

  /** Uploading `clip.mp3` into an empty staging directory: the model is
      asked once, with the MPEG label and the fixed instruction; its text is
      the 200 answer, and the directory is empty again afterwards. */
  lemma {:induction false} ClipMp3Scenario(env: Env, text: string)
    requires env.secureFilename("clip.mp3") == "clip.mp3"
    requires env.save.Saved? && env.remove.Done? && env.respond.Done?
    requires env.service(RequestFor(Join(UploadFolder, "clip.mp3"))) == Text(text)
    ensures RequestFor(Join(UploadFolder, "clip.mp3")) == Request(MpegMime, Instruction, SafetySettings())
    ensures HandleUpload({}, map[AudioField := "clip.mp3"], env)
         == Final(Handled(Response(200, AnalysisBody(text))), {})
  {
    MimeTypeOfMp3();
    var files := map[AudioField := "clip.mp3"];
    assert Validate(files) == Accept("clip.mp3");
  }

  /** Uploading twice into an empty staging directory, with every step
      succeeding, leaves it empty after each call. */
  lemma RepeatedUploadsLeaveNothing(files: map<string, string>, env: Env)
    requires Sanitizes(files, env)
    requires env.save.Saved? && env.remove.Done? && env.respond.Done?
    ensures HandleUpload({}, files, env).staged == {}
    ensures HandleUpload(HandleUpload({}, files, env).staged, files, env).staged == {}
  {
  }

  /** The staging directory, as the set of paths it holds. */
  class StagingDir {
    var paths: set<string>

    /** `os.makedirs(..., exist_ok=True)` keeps what is already there. */
    constructor (existing: set<string>)
      ensures paths == existing
    {
      paths := existing;
    }

    /** `os.path.exists(path)`. */
    method Exists(path: string) returns (b: bool)
      ensures b <==> path in paths
    {
      b := path in paths;
    }

    /** `file.save(path)`. */
    method Save(path: string, step: SaveStep) returns (err: Step)
      modifies this
      ensures err == if step.Saved? then Done else Fails(step.message)
      ensures paths == if step.Saved? || step.leavesFile then old(paths) + {path} else old(paths)
    {
      match step
      case Saved =>
        paths := paths + {path};
        err := Done;
      case SaveFails(m, leaves) =>
        if leaves {
          paths := paths + {path};
        }
        err := Fails(m);
    }

    /** `os.remove(path)`: a missing path raises; a present one is removed
        unless `step` says the removal fails, in which case it stays. */
    method Remove(path: string, step: Step) returns (err: Step)
      modifies this
      ensures path !in old(paths) ==> err == Fails(NoSuchFile(path)) && paths == old(paths)
      ensures path in old(paths) ==> err == step
      ensures path in old(paths) ==> paths == if step.Done? then old(paths) - {path} else old(paths)
    {
      if path !in paths {
        err := Fails(NoSuchFile(path));
      } else {
        err := step;
        if step.Done? {
          paths := paths - {path};
        }
      }
    }

    /** `upload_file()`, step by step on the staging directory. */
    method UploadFile(files: map<string, string>, env: Env) returns (outcome: Outcome)
      requires Sanitizes(files, env)
      modifies this
      ensures Final(outcome, paths) == HandleUpload(old(paths), files, env)
      ensures Validate(files).Accept? && outcome.Handled? ==>
        StagedPath(files[AudioField], env) !in paths
    {
      var decision := Validate(files);
      if decision.Reject? {
        return Handled(decision.response);
      }
      var filename := env.secureFilename(decision.filename);
      var filepath := Join(UploadFolder, filename);
      var saved := Save(filepath, env.save);
      if saved.Fails? {
        return Escaped(saved.message);
      }
      // The body of the `try` block.
      var analysis := AnalyzeAudio(filepath, env.service);
      var err := Remove(filepath, env.remove);
      if err.Done? {
        if env.respond.Done? {
          return Handled(Response(200, AnalysisBody(analysis)));
        }
        err := env.respond;
      }
      // The `except` clause: remove the file again if it is still there.
      var present := Exists(filepath);
      if present {
        var again := Remove(filepath, env.removeAgain);
        if again.Fails? {
          return Escaped(again.message);
        }
      }
      return Handled(Response(500, ErrorBody(err.message)));
    }
  }
}
