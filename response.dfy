/** Decoding of a Manager command's reply body (`handle_response`) into the
    two-variant `Response` of the command-line client. */
module ManagerResponse {
  import opened Wrappers

  /** Outcome of one Manager command, each variant carrying an optional message. */
  datatype Response = Ok(message: Option<string>) | Fail(message: Option<string>)

  /** The body had neither the expected prefix nor the trailing line break;
      the client aborts with "Unexpected response from tomcat" here. */
  datatype DecodeError = UnexpectedResponse(body: string)

  const OK_PREFIX: string := "OK - "
  const FAIL_PREFIX: string := "FAIL - "
  const CRLF: string := "\r\n"

  predicate EndsWithCrlf(s: string) { |s| >= 2 && s[|s| - 2..] == CRLF }

  /** The body Tomcat sends for a response that carries a message. */
  function Render(r: Response): (body: string)
    requires r.message.Some?
    ensures EndsWithCrlf(body) && (r.Ok? <==> OK_PREFIX <= body)
  {
    var prefix := if r.Ok? then OK_PREFIX else FAIL_PREFIX;
    var body := prefix + r.message.value + CRLF;
    assert body[..|prefix|] == prefix && body[0] == prefix[0];
    assert body[|body| - 2..] == CRLF;
    body
  }

  /** `handle_response`: a body starting with "OK - " is a success, anything
      else must be a "FAIL - " body; the message is what lies between the
      prefix and one final "\r\n" of the whole body. */
  function HandleResponse(body: string): (r: Result<Response, DecodeError>)
    ensures r.Success? ==> r.value.message.Some? && Render(r.value) == body
    ensures r.Success? && r.value.Fail? ==> !(OK_PREFIX <= body)
    ensures r.Failure? ==> r.error == UnexpectedResponse(body)
  {
    if OK_PREFIX <= body then
      var rest := body[|OK_PREFIX|..];
      if EndsWithCrlf(rest) then
        var m := rest[..|rest| - 2];
        assert body == OK_PREFIX + m + CRLF;
        Success(Ok(Some(m)))
      else Failure(UnexpectedResponse(body))
    else if FAIL_PREFIX <= body then
      var rest := body[|FAIL_PREFIX|..];
      if EndsWithCrlf(rest) then
        var m := rest[..|rest| - 2];
        assert body == FAIL_PREFIX + m + CRLF;
        Success(Fail(Some(m)))
      else Failure(UnexpectedResponse(body))
    else Failure(UnexpectedResponse(body))
  }

  /** Decoding inverts rendering: any response with a message survives the trip. */
  lemma RoundTrip(r: Response)
    requires r.message.Some?
    ensures HandleResponse(Render(r)) == Success(r)
  {
    var m := r.message.value;
    var body := Render(r);
    if r.Ok? {
      assert body[|OK_PREFIX|..] == m + CRLF;
    } else {
      assert !(OK_PREFIX <= body) by { assert body[0] == 'F'; }
      assert body[|FAIL_PREFIX|..] == m + CRLF;
    }
  }

  lemma OkRoundTrip(m: string)
    ensures HandleResponse("OK - " + m + "\r\n") == Success(Ok(Some(m)))
  {
    RoundTrip(Ok(Some(m)));
  }

  lemma FailRoundTrip(m: string)
    ensures HandleResponse("FAIL - " + m + "\r\n") == Success(Fail(Some(m)))
  {
    RoundTrip(Fail(Some(m)));
  }

  /** Only the last "\r\n" of the body is removed, so a message keeps its interior line breaks. */
  lemma InteriorLineBreaksKept()
    ensures HandleResponse("OK - a\r\n\r\n") == Success(Ok(Some("a\r\n")))
  {
    assert "OK - a\r\n\r\n" == "OK - " + "a\r\n" + "\r\n";
    OkRoundTrip("a\r\n");
  }

  /** Exactly when decoding fails: an "OK - " body without the final "\r\n",
      or any other body that lacks the "FAIL - " prefix or the final "\r\n". */
  lemma DecodeErrorCases(body: string)
    ensures HandleResponse(body).Failure? <==>
      (OK_PREFIX <= body && !EndsWithCrlf(body[|OK_PREFIX|..])) ||
      (!(OK_PREFIX <= body) && (!(FAIL_PREFIX <= body) || !EndsWithCrlf(body[|FAIL_PREFIX|..])))
  {
  }

  /** A bare "OK", and an "OK - " body whose final line break was trimmed,
      are errors rather than a success without a message. */
  lemma BareOkRejected()
    ensures HandleResponse("OK") == Failure(UnexpectedResponse("OK"))
    ensures HandleResponse("OK - done") == Failure(UnexpectedResponse("OK - done"))
  {
    assert !(OK_PREFIX <= "OK") && !(FAIL_PREFIX <= "OK");
    assert OK_PREFIX <= "OK - done" && "OK - done"[|OK_PREFIX|..] == "done";
  }

  /** A body starting with "OK - " never decodes to `Fail`. */
  lemma OkPrefixNeverFails(body: string)
    requires OK_PREFIX <= body
    ensures HandleResponse(body).Success? ==> HandleResponse(body).value.Ok?
  {
  }
}
