/**
 What pressing the submit button does with the inputs: refuse, or save the
 audio if there is some, send one generation request, and recover the JSON
 from the reply. The model host and the JSON parser are parameters.
 */
module Report {
  import opened Optional
  import opened PyStr
  import opened JsonValue
  import opened Routing
  import opened Prompts
  import opened AudioFile
  import Response

  /** An uploaded recording; only its browser-side name matters here. */
  datatype UploadedFile = UploadedFile(name: string)

  /** One generation request: the system instruction, the uploaded audio (by
      the path it was saved under) if any, and the prompt text. */
  datatype GenerationCall = GenerationCall(instruction: string, audioPath: Option<string>, prompt: string)

  datatype Outcome =
    | Refused                                                    // warning shown, nothing else done
    | AiError                                                    // the model call or the parser raised
    | Extracted(data: Option<Json>, savedPath: Option<string>)   // what parse_json_response returned

  /** The request for a route that is not refused (`process_audio_and_text`,
      `process_audio_only`, `process_text_only`). */
  function CallFor(route: Route, savedPath: Option<string>): (c: GenerationCall)
    requires !route.Rejected?
    ensures c.instruction == SystemInstruction
    ensures c.audioPath == (if route.TextOnly? then None else savedPath)
    ensures route.AudioWithMemo? ==> c.prompt == AudioAndTextPrompt(route.memo)
    ensures route.AudioOnly? ==> c.prompt == AudioOnlyPrompt
    ensures route.TextOnly? ==> c.prompt == TextOnlyPrompt(route.memo)
  {
    match route
    case AudioWithMemo(memo) => GenerationCall(SystemInstruction, savedPath, AudioAndTextPrompt(memo))
    case AudioOnly => GenerationCall(SystemInstruction, savedPath, AudioOnlyPrompt)
    case TextOnly(memo) => GenerationCall(SystemInstruction, None, TextOnlyPrompt(memo))
  }

  /** The audio is saved (under the timestamped name) only when there is some. */
  function SavedPathFor(audio: Option<UploadedFile>, now: DateTime): (p: Option<string>)
    requires ValidDateTime(now)
    ensures p.Some? <==> audio.Some?
    ensures p.Some? ==> p.value == SavedPath(now, audio.value.name)
    ensures p.Some? ==> Name(p.value) == SavedFileName(now, audio.value.name)
  {
    match audio
    case None => None
    case Some(f) => Some(SavedPath(now, f.name))
  }

  /** The submit handler: refuse when there is neither audio nor a non-blank
      memo; otherwise one generation call, then the JSON recovered from its reply.
      An exception that `parse_json_response` does not catch reaches the same
      handler as a failed model call. */
  function Submit(audio: Option<UploadedFile>, memo: string, now: DateTime,
                  generate: GenerationCall -> Option<string>,
                  loads: string -> Loaded): (r: Outcome)
    requires ValidDateTime(now)
    ensures r.Refused? <==> audio.None? && AllSpace(memo)
    ensures r.Extracted? ==> r.savedPath == SavedPathFor(audio, now)
    ensures !r.Refused? ==>
      var call := CallFor(RouteInput(audio.Some?, memo), SavedPathFor(audio, now));
      match generate(call)
      case None => r.AiError?
      case Some(reply) =>
        match loads(Response.Candidate(reply))
        case Parsed(v) => r == Extracted(Some(v), SavedPathFor(audio, now))
        case DecodeError => r == Extracted(None, SavedPathFor(audio, now))
        case Uncaught => r.AiError?
  {
    var route := RouteInput(audio.Some?, memo);
    if route.Rejected? then Refused
    else
      var saved := SavedPathFor(audio, now);
      match generate(CallFor(route, saved))
      case None => AiError
      case Some(reply) =>
        match Response.ParseJsonResponse(reply, loads)
        case Returned(data) => Extracted(data, saved)
        case Raised => AiError
  }

  /** What the model is asked: a non-blank memo appears verbatim in the prompt,
      audio goes along exactly when there is some, and a blank memo next to
      audio is not sent at all. */
  lemma CallCarriesInputs(audio: Option<UploadedFile>, memo: string, now: DateTime)
    requires ValidDateTime(now)
    requires !(audio.None? && AllSpace(memo))
    ensures var call := CallFor(RouteInput(audio.Some?, memo), SavedPathFor(audio, now));
      && (call.audioPath.Some? <==> audio.Some?)
      && (!AllSpace(memo) ==> IsSubstring(memo, call.prompt))
      && (AllSpace(memo) ==> call.prompt == AudioOnlyPrompt)
  {
    PromptsContainMemo(memo);
  }
}
