/**
  The voice narration of `text_to_speech`: the check for the speech
  service's key, the narration text computed from the explanation, the
  request body, and the classification of the service's answer. The key,
  the status code and the response body are inputs.
 */
module Speech {
  import opened WordSplit
  import opened Truncation
  import opened HttpStatus

  datatype Option<T> = None | Some(value: T)

  /** Streaming endpoint of the fixed voice. */
  const SpeechUrl: string := "https://api.elevenlabs.io/v1/text-to-speech/21m00Tcm4TlvDq8ikWAM/stream"

  /** Model identifier sent with every request. */
  const ModelId: string := "eleven_monolingual_v1"

  /** File the audio is written to and returned by name. */
  const AudioPath: string := "narration.mp3"

  /** Python's `not key` for an environment variable: unset or empty. */
  predicate KeyMissing(key: Option<string>) {
    key.None? || key.value == []
  }

  /** The fields of the request that depend on the run: endpoint, the key
      header, the text field of the JSON body and the model identifier. */
  datatype SpeechRequest = SpeechRequest(url: string, apiKey: string, text: string, modelId: string)

  /** How a call ends. A rejected key reports only the response body; any
      other failure reports the status code and the body. */
  datatype SpeechOutcome =
    | MissingKey
    | Audio(path: string)
    | Unauthorized(body: string)
    | ApiError(status: int, body: string)

  /** The narration text computed by the call, the request sent, and the
      outcome. Nothing is computed or sent when the key is missing. */
  datatype SpeechRun = SpeechRun(narration: Option<string>, request: Option<SpeechRequest>, outcome: SpeechOutcome)

  /** One call of `text_to_speech(text)` whose request, if sent, is answered
      with `status` and `body`. */
  function TextToSpeech(text: string, key: Option<string>, status: int, body: string): (r: SpeechRun)
    ensures KeyMissing(key) <==> r.request.None?
    ensures KeyMissing(key) <==> r.outcome.MissingKey?
    ensures r.narration.Some? <==> r.request.Some?
    ensures r.request.Some? ==>
              r.request.value == SpeechRequest(SpeechUrl, key.value, text, ModelId)
    ensures r.narration.Some? ==> r.narration.value == Narration(text)
    ensures r.outcome.Audio? <==> !KeyMissing(key) && status == StatusOk
    ensures r.outcome.Unauthorized? <==> !KeyMissing(key) && status == StatusUnauthorized
    ensures r.outcome.ApiError? <==>
              !KeyMissing(key) && status != StatusOk && status != StatusUnauthorized
    ensures r.outcome.Audio? ==> r.outcome.path == AudioPath
    ensures r.outcome.Unauthorized? ==> r.outcome.body == body
    ensures r.outcome.ApiError? ==> r.outcome.status == status && r.outcome.body == body
  {
    if KeyMissing(key) then
      SpeechRun(None, None, MissingKey)
    else
      var narration := Narration(text);
      var request := SpeechRequest(SpeechUrl, key.value, text, ModelId);
      SpeechRun(Some(narration), Some(request), Classify(status, body))
  }

  /** The answer to a request that was sent, by status code. */
  function Classify(status: int, body: string): SpeechOutcome
  {
    if status == StatusOk then Audio(AudioPath)
    else if status == StatusUnauthorized then Unauthorized(body)
    else ApiError(status, body)
  }

  /** The value `text_to_speech` returns: the audio file name or `None`. */
  function Returned(o: SpeechOutcome): Option<string>
  {
    if o.Audio? then Some(o.path) else None
  }

  /** The call returns a file name exactly when the key is present and the
      service answers 200, and the name is always the audio file. */
  lemma {:induction false} ReturnsAudioIffOk(text: string, key: Option<string>, status: int, body: string)
    ensures Returned(TextToSpeech(text, key, status, body).outcome).Some?
            <==> !KeyMissing(key) && status == StatusOk
    ensures Returned(TextToSpeech(text, key, status, body).outcome) != None
            ==> Returned(TextToSpeech(text, key, status, body).outcome) == Some(AudioPath)
  {
  }

  /** The request body carries the explanation as given, never the narration
      text: once the explanation is over the word limit, the narration
      differs from it, yet the text sent is the explanation. */
  lemma {:induction false} NarrationNeverSent(text: string, key: Option<string>, status: int, body: string)
    requires !KeyMissing(key)
    requires |Split(text)| > WordLimit
    ensures TextToSpeech(text, key, status, body).request.value.text == text
    ensures TextToSpeech(text, key, status, body).request.value.text
            != TextToSpeech(text, key, status, body).narration.value
  {
    var n := Narration(text);
    var words := Split(text);
    var i := WordLimit - 1;
    assert Split(n) == words[..i] + [words[i] + Ellipsis] + ClosingWords;
    assert Split(n)[i] == words[i] + Ellipsis;
    assert |Split(n)[i]| != |words[i]|;
    assert Split(n) != words;
  }

  /** Below the limit the narration equals the explanation, so the request
      body and the narration agree. */
  lemma {:induction false} NarrationSentWithinLimit(text: string, key: Option<string>, status: int, body: string)
    requires !KeyMissing(key)
    requires |Split(text)| <= WordLimit
    ensures TextToSpeech(text, key, status, body).request.value.text
            == TextToSpeech(text, key, status, body).narration.value
  {
  }

  /** An empty key counts as missing, just like an unset one. */
  lemma {:induction false} EmptyKeyIsMissing(text: string, status: int, body: string)
    ensures TextToSpeech(text, Some([]), status, body).outcome == MissingKey
  {
  }

  /** The call as its word limit evidently intends it: the request body
      carries the narration text instead of the explanation. */
  function TextToSpeechIntended(text: string, key: Option<string>, status: int, body: string): (r: SpeechRun)
    ensures KeyMissing(key) <==> r.request.None?
    ensures r.narration.Some? <==> r.request.Some?
    ensures r.request.Some? ==> r.request.value.text == r.narration.value
    ensures r.narration.Some? ==> r.narration.value == Narration(text)
    ensures r.request.Some? ==>
              r.request.value == SpeechRequest(SpeechUrl, key.value, Narration(text), ModelId)
    ensures r.request.Some? ==> |Split(r.request.value.text)| <= WordLimit + |ClosingWords|
    ensures r.outcome == TextToSpeech(text, key, status, body).outcome
  {
    if KeyMissing(key) then
      SpeechRun(None, None, MissingKey)
    else
      var narration := Narration(text);
      var request := SpeechRequest(SpeechUrl, key.value, narration, ModelId);
      SpeechRun(Some(narration), Some(request), Classify(status, body))
  }
}
