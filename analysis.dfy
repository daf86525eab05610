/** `analyze_audio`: build one request for the remote model from the staged
    path and turn whatever happens into a string, never an exception. */
module Analysis {
  import opened Strings
  import opened PathExt
  import opened Media
  import opened Safety

  /** The fixed instruction that accompanies the audio. */
  const Instruction: string :=
    "Provide a detailed transcript of the audio and perform a comprehensive sentiment analysis."

  /** What a caught exception becomes. */
  const ErrorPrefix: string := "Error analyzing audio: "

  /** The part of the request that the model code decides: the MIME label of
      the audio part, the instruction and the safety policy. */
  datatype Request = Request(mimeType: string, prompt: string, safetySettings: seq<SafetySetting>)

  /** What the remote side does with a request: it answers with text, or some
      step inside the `try` (client set-up, reading the file, the call, reading
      `response.text`) raises an exception with a message. */
  datatype Reply = Text(text: string) | Raised(message: string)

  /** The request built for the file at `path`. */
  function RequestFor(path: string): (r: Request)
    ensures r.mimeType == WavMime <==> Lower(ExtOf(path)) == ".wav"
    ensures r.mimeType == MpegMime || r.mimeType == WavMime
    ensures r.prompt == Instruction
    ensures r.safetySettings == SafetySettings()
  {
    Request(MimeTypeOf(path), Instruction, SafetySettings())
  }

  /** The string an exception message is turned into. */
  function ErrorText(message: string): (s: string)
    ensures |s| == |ErrorPrefix| + |message|
    ensures s[..|ErrorPrefix|] == ErrorPrefix && s[|ErrorPrefix|..] == message
  {
    ErrorPrefix + message
  }

  /** A result that carries the error prefix. */
  predicate IsErrorText(s: string) {
    ErrorPrefix <= s
  }

  /** The message inside an error text. */
  function ErrorMessage(s: string): (m: string)
    requires IsErrorText(s)
    ensures ErrorText(m) == s
  {
    s[|ErrorPrefix|..]
  }

  /** `analyze_audio(path)` against a model `service`: the reply's text is
      returned as it is, and a raised exception comes back as an error text
      from which its message can be read again. */
  function AnalyzeAudio(path: string, service: Request -> Reply): (r: string)
    ensures service(RequestFor(path)).Text? ==> r == service(RequestFor(path)).text
    ensures service(RequestFor(path)).Raised? ==>
      IsErrorText(r) && ErrorMessage(r) == service(RequestFor(path)).message
  {
    match service(RequestFor(path))
    case Text(t) => t
    case Raised(m) => ErrorText(m)
  }

  /** Reading the message back out of an error text gives the message. */
  lemma ErrorTextRoundTrip(m: string)
    ensures IsErrorText(ErrorText(m)) && ErrorMessage(ErrorText(m)) == m
  {
    assert ErrorText(m)[..|ErrorPrefix|] == ErrorPrefix;
  }

  /** Failure and success are not told apart by the result: a service that
      raises `m` and one that answers with the text `Error analyzing audio: m`
      give the same string. */
  lemma FailureIndistinguishable(path: string, m: string)
    ensures AnalyzeAudio(path, _ => Raised(m)) == AnalyzeAudio(path, _ => Text(ErrorText(m)))
  {
  }

  /** The model sees the MIME label of the staged file, the fixed prompt and
      the permissive policy, whatever the extension. */
  lemma RequestCarriesPolicy(path: string)
    ensures |RequestFor(path).safetySettings| == 4
    ensures forall i :: 0 <= i < 4 ==> RequestFor(path).safetySettings[i].threshold == BlockNone
    ensures RequestFor(path).mimeType in {MpegMime, WavMime}
  {
  }
}
