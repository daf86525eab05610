# Audio upload-and-analysis handler, modelled in Dafny

The system is a small web handler. It takes one uploaded audio file and stages it
in an `uploads` directory. It sends the file's bytes, a MIME label, a fixed
instruction and a fixed safety policy to a remote generative model, and answers
with the model's text as JSON. This project models the local logic of that
handler and proves what it guarantees:

- **Media-type classification** (`Strings`, `PathExt`, `Media`). The extension
  is taken as POSIX `os.path.splitext` takes it: the last dot of the final
  component, provided some non-dot character comes before it there. The
  extension is lower-cased (ASCII) and looked up in a three-entry table. Any
  other extension falls back to `audio/mpeg`.
- **Safety policy** (`Safety`). Four settings, one per harm category, each
  at the `BLOCK_NONE` threshold.
- **Analysis wrapper** (`Analysis`). The remote model is a function
  parameter `Request -> Reply`. Its reply is either text or a raised
  exception. A raised exception becomes the string
  `Error analyzing audio: <message>`, so the wrapper never raises.
- **Upload handler** (`Uploads`). The guard clauses come first: a missing
  `audio` field gives 400 `No file part`, and an empty file name gives 400
  `No selected file`, in that order. Then the staged file's life: it is
  saved, analysed, removed, and on the `except` path removed again if it
  still exists. The staging directory is the `StagingDir` class, whose
  `paths: set<string>` field the methods update. `StagingDir.UploadFile`
  follows the handler step by step. It is proved equal to the function
  `HandleUpload`, and the handler's properties are proved about that
  function.

Every step outside the model's control is a field of `Env`: the file-name
sanitiser, the remote model, and the success or failure of `file.save`, of
each `os.remove` and of building the success response. The properties hold
for every choice of these, with a sanitiser that meets `Sanitizes`.

### Where the code falls short of the handler's intent

The handler is meant to guarantee that the staged file never outlives a
request, and that a failed analysis or a failed staging answers with a JSON
error body and status 500. The code does something else, and the model
follows the code:

- `file.save` sits outside the `try`. An exception there escapes the handler
  (`Escaped`). The web framework then answers with its own 500 page, without
  the `{"error": ...}` body, and the file is not cleaned up if it was partly
  written.
- The removal inside the `except` clause can raise too. The exception then
  escapes in the same way, and the file stays.
- `analyze_audio` catches every exception. A failing remote call therefore
  answers 200, with the error text as the analysis. The handler itself
  returns a 500 only when the removal after the analysis or the building of
  the success response fails; every other 500 the client sees is the
  framework's page for an escaped exception.

## Model

| member | source | states |
|---|---|---|
| Strings.LowerChar | app.py:43 | ASCII `lower()` of one character: upper-case letters map to their lower-case form, everything else is unchanged, and the result is never upper-case |
| Strings.LowerEach | app.py:43 | `Lower` is `str.lower()` on ASCII: it keeps the length, turns each upper-case letter into its lower-case form and leaves every other character in place |
| Strings.LowerIdempotent | app.py:43 | lowering twice is the same as lowering once |
| Strings.LastIndexOf | app.py:43 | `rfind` as `splitext` uses it: -1 or an index holding the character (no later occurrence: `LastIndexOfNoLater`) |
| Strings.LastIndexOfNoLater | app.py:43 | the index `rfind` returns is the last occurrence: no later index holds the character |
| Strings.LastIndexOfFound | app.py:43 | `rfind` finds the character exactly when the string contains it |
| Strings.LastIndexOfAppend | app.py:43 | the last occurrence in `a + b` is in `b` when `b` contains the character, otherwise it is in `a` |
| Strings.LastIndexOfLower | app.py:43 | lowering does not move the separator or the dot |
| PathExt.SplitExt | app.py:43 | `os.path.splitext`: root + extension gives back the path, and the extension is empty or one dot followed by no dot and no separator |
| PathExt.Basename | app.py:43 | the final component is the tail of the path after its last separator: it holds no separator, and it is the whole path or is preceded by a separator |
| PathExt.DotsBetweenMeans | app.py:43 | the scan for a leading run of dots succeeds exactly when every scanned character is a dot |
| PathExt.ExtOfIsSuffix | app.py:43 | `ExtOf` is `os.path.splitext(file_path)[1]`: it is a tail of the path, and it is empty or a dot followed by no dot and no separator |
| PathExt.Join | app.py:92 | `os.path.join(folder, name)` starts with the folder when the name is not absolute |
| PathExt.BasenameOfJoin | app.py:91-92 | joining a non-empty name without separators onto a folder gives a path whose final component is that name |
| PathExt.ExtOfBasename | app.py:43 | the extension depends only on the final path component |
| PathExt.ExtOfJoin | app.py:92 | the staged path has the extension of the sanitised name |
| PathExt.ExtOfDottedName | app.py:43 | `stem.x` with a non-dot character in the stem has extension `.x`: only the last suffix counts |
| PathExt.ExtOfJoinDotted | app.py:92 | a dotted name staged in a directory keeps its last suffix as the extension |
| PathExt.ExtOfLeadingDots | app.py:43 | a name made of leading dots and a dotless rest, such as `.wav`, has an empty extension |
| PathExt.ExtOfNoDot | app.py:43 | a name without a dot has an empty extension |
| PathExt.ExtOfLower | app.py:43 | splitting a lowered path gives the lowered extension |
| PathExt.DotsBetweenLower | app.py:43 | lowering a path does not change the outcome of `splitext`'s scan for a leading run of dots |
| Media.MimeFor | app.py:44-49 | the lookup never fails; the result is `audio/mpeg` or `audio/wav`, and it is `audio/wav` exactly for `.wav` |
| Media.MimeTypeOf | app.py:43-49 | the label of a path is one of the two, and it is `audio/wav` exactly when the lowered extension is `.wav` |
| Media.MimeTypeCaseInsensitive | app.py:43-49 | two paths that lower to the same string get the same label |
| Media.MimeTypeOfBasename | app.py:43-49 | the label depends only on the final component |
| Media.MimeTypeOfDottedName | app.py:43-49 | `stem.x` is classified by `.x` alone |
| Media.MimeTypeOfUndotted | app.py:43-49 | a name with no dot, or with only leading dots, takes the `audio/mpeg` default |
| Media.MimeTableEntries | app.py:44-49 | `.mp3` and `.mpeg` map to `audio/mpeg` and `.wav` maps to `audio/wav`; the empty extension, `.xyz` and unlowered `.WAV` get the default |
| Media.MimeTypeOfMp3 | app.py:43-49 | `uploads/clip.mp3` has extension `.mp3` and label `audio/mpeg` |
| Media.MimeTypeOfUpperCaseWav | app.py:43-49 | `uploads/CLIP.WAV` is labelled `audio/wav` |
| Media.MimeTypeOfDoubleSuffix | app.py:43-49 | `uploads/a.wav.mp3` has extension `.mp3` and label `audio/mpeg` |
| Media.MimeTypeOfHiddenWav | app.py:43-49 | `uploads/.wav` has an empty extension and label `audio/mpeg` |
| Media.MimeTypeOfUnknown | app.py:43-49 | `uploads/clip.xyz` is not rejected: it gets `audio/mpeg` |
| Safety.SafetySettings | app.py:18-36 | exactly four settings with pairwise distinct categories that together cover all four harm categories, each at `BlockNone` |
| Analysis.RequestFor | app.py:43-68 | the request carries the path's label, the fixed instruction and the safety policy |
| Analysis.ErrorText | app.py:73 | the error string is the prefix `Error analyzing audio: ` followed by the exception's message, and nothing else |
| Analysis.ErrorMessage | app.py:73 | the message read out of an error text rebuilds that text |
| Analysis.AnalyzeAudio | app.py:38-73 | a text reply is returned unchanged; a raised exception is returned as an error text whose message is the exception's |
| Analysis.ErrorTextRoundTrip | app.py:73 | an error text carries the prefix, and its message reads back unchanged |
| Analysis.FailureIndistinguishable | app.py:70-73 | a service that raises `m` and one that answers `Error analyzing audio: m` give the same result |
| Analysis.RequestCarriesPolicy | app.py:64-68 | every request carries four `BlockNone` settings and one of the two labels |
| Uploads.Validate | app.py:81-87 | a missing field gives 400 `No file part` before the name is looked at; an empty name gives 400 `No selected file`; otherwise the handler goes on with the client's name |
| Uploads.StagedPath | app.py:91-92 | the staged path is `uploads/` followed by the sanitised name, or that name itself when it is absolute |
| Uploads.StagedPathInFolder | app.py:91-92 | for a sanitised name that is a file name (non-empty, no separator, not `.` or `..`), the staged path is `uploads/<name>`, its final component is that name, and it keeps that name's extension |
| Uploads.NoSuchFile | app.py:99-106 | the message a removal of a missing path raises names that path, quoted, after the `[Errno 2]` prefix |
| Uploads.HandleUpload | app.py:80-107 | rejected requests write nothing; only the staged path changes; every returned response leaves the staging set equal to the old set minus the staged path; an exception escapes exactly when the save fails or both removals fail; 200 with the unchanged analysis text exactly when save, removal and response all succeed; once the file is saved, a failing removal or success response gives 500 with the message of the failing step whenever a response is returned; an escaping exception carries the message of the save or of the second removal |
| Uploads.RemoteFailureAnswers200 | app.py:96-101 | a remote failure still answers 200, with `Error analyzing audio: <message>` as the analysis |
| Uploads.ExceptPathAnswers500 | app.py:103-107 | a saved upload whose removal or success response fails answers 500, unless the second removal raises too |
| Uploads.ServerErrorOnlyAfterAnalysis | app.py:103-107 | a 500 the handler returns needs an accepted, saved upload and a failed removal or response; the analysis never causes one |
| Uploads.ClipMp3Scenario | app.py:80-101 | uploading `clip.mp3` into an empty directory asks the model with `audio/mpeg`, the instruction and the policy, answers 200 with its text, and leaves the directory empty |
| Uploads.RepeatedUploadsLeaveNothing | app.py:93-106 | two successful uploads from an empty directory leave it empty after each |
| Uploads.StagingDir.constructor | app.py:12 | the directory starts with whatever it already holds |
| Uploads.StagingDir.Exists | app.py:105 | `os.path.exists` is true exactly for staged paths |
| Uploads.StagingDir.Save | app.py:93 | a save adds the path; a failed save raises, and adds the path only if it wrote part of the file |
| Uploads.StagingDir.Remove | app.py:99 | removing a missing path raises `No such file or directory`; a successful removal deletes exactly the path; a failed removal leaves the set as it was |
| Uploads.StagingDir.UploadFile | app.py:80-107 | the step-by-step handler ends with the outcome and staging set that `HandleUpload` gives, and after any returned response the staged path is absent |

## Left out

- Vertex AI initialisation and `generate_content` (app.py:14-16, 64-70) are a remote call to an opaque model. They are the `service` parameter. Its `Raised` reply stands for any exception inside the `try`, including client set-up and reading `response.text`.
- Reading the file into memory and `Part.from_data` (app.py:52-56) are file I/O and a library constructor. The bytes are not modelled. A read failure is one of the `Raised` replies.
- The generation configuration (app.py:58-62) is fixed floating-point data with no logic.
- `secure_filename` (app.py:91) belongs to a library and is not visible. It is the `secureFilename` parameter. `Uploads.HandleUpload` and `Uploads.StagingDir.UploadFile` require it to return, for an accepted name, a non-empty name without separators that is neither `.` nor `..`, as the library's stripping of separators and surrounding dots gives. This excludes the library's empty-result case, in which the path would name the directory itself.
- Flask routing, `jsonify` formatting, the index page and `app.run` (app.py:7, 75-77, 79, 109-110) are framework glue. A response is a status and a one-field body. An exception that escapes the handler is the `Escaped` outcome; the framework answers it with its own 500 page, whose content is not modelled.
- `Uploads.StagingDir.UploadFile`: the `jsonify` call inside the `except` clause (app.py:107) is assumed not to raise; only the success response's serialisation may fail.
- `Uploads.StagingDir.Remove`: a failing `os.remove` of a present file is taken to leave the file in place, as a permission error does.
- `os.makedirs` (app.py:12) is reduced to the constructor, which keeps the directory's current contents.
- `MAX_CONTENT_LENGTH` (app.py:9) is enforced by the transport layer before the handler runs.
- The truth test `if file:` (app.py:89) is taken as true. For an uploaded file it reduces to a non-empty name, which the guards have already established.
- Two concurrent requests whose names sanitise to the same path can race on it. The model runs one request at a time, and the code has no guard to model.
- Strings.Lower: lowers ASCII letters only. Python's `str.lower` also lowers other Unicode letters; the sanitised names this handler sees are ASCII.
- PathExt.SplitExt: models the POSIX path rules only, with `/` as the separator; the Windows rules (`\` and drive letters) are left out.
