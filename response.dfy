/**
 * How `transcribe_endpoint` turns what happened inside its `try` block into
 * the `{status, transcribed_text, error}` payload it answers with.
 */
module Response {

  import opened Wrappers
  import opened PyStr

  /** What the `try` block meets: `transcribe_audio` returned a result (`None`
      or a dict whose values are strings), or a statement of the block raised
      an exception whose `str` is `message`. */
  datatype Attempt = Returned(result: Option<map<string, string>>) | Exception(message: string)

  /** The response body; `None` becomes JSON `null`. */
  datatype Payload = Payload(status: string, transcribedText: Option<string>, error: Option<string>)

  const TranscriptionFailed := "Transcription failed"

  /** Python truthiness of the result: `None` and the empty dict are false. */
  predicate Truthy(result: Option<map<string, string>>) {
    result.Some? && |result.value| > 0
  }

  /** The payload for an attempt. Exactly one of the text and the error is
      present, and the status is "success" exactly when the text is. */
  function ShapeResponse(a: Attempt): (p: Payload)
    ensures p.transcribedText.Some? != p.error.Some?
    ensures p.status == "success" <==> p.transcribedText.Some?
    ensures p.status == "success" || p.status == "error"
  {
    match a
    case Exception(message) => Payload("error", None, Some(message))
    case Returned(result) =>
      if !Truthy(result) || "text" !in result.value then Payload("error", None, Some(TranscriptionFailed))
      else Payload("success", Some(Strip(result.value["text"])), None)
  }

  /** The request succeeds exactly when the model returned a dict holding
      "text"; the truthiness test adds nothing, since such a dict is not empty. */
  lemma SuccessIff(a: Attempt)
    ensures ShapeResponse(a).status == "success" <==> a.Returned? && a.result.Some? && "text" in a.result.value
  {
    if a.Returned? && a.result.Some? && "text" in a.result.value {
      assert "text" in a.result.value.Keys;
      assert a.result.value.Keys != {};
    }
  }

  /** On success the text is the model's "text" with the surrounding white
      space stripped, so it neither starts nor ends with white space. */
  lemma SuccessText(a: Attempt)
    requires ShapeResponse(a).status == "success"
    ensures a.Returned? && a.result.Some? && "text" in a.result.value
    ensures var p := ShapeResponse(a);
            && p.transcribedText == Some(Strip(a.result.value["text"])) && p.error == None
            && (p.transcribedText.value == [] || (!IsSpace(p.transcribedText.value[0]) && !IsSpace(p.transcribedText.value[|p.transcribedText.value| - 1])))
  {
  }

  /** Every failure is reported in `error`: an exception by its message, a
      falsy result or one without "text" by "Transcription failed". */
  lemma FailureMessages(a: Attempt)
    ensures a.Exception? ==> ShapeResponse(a) == Payload("error", None, Some(a.message))
    ensures a.Returned? && (a.result.None? || "text" !in a.result.value) ==>
            ShapeResponse(a) == Payload("error", None, Some(TranscriptionFailed))
  {
  }
}
