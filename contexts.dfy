/** The body-processing half of `get_contexts`: the reply to
    `/manager/text/list` is split into lines, the first (status) line is
    dropped, and each remaining non-empty line becomes one `Context`. */
module Contexts {
  import opened Wrappers
  import opened Text
  import opened NewlineSplit
  import opened ContextPattern

  newtype uint32 = x: int | 0 <= x <= 0xFFFF_FFFF

  /** One deployed web application as the list command reports it. */
  datatype Context = Context(
    contextPath: string,
    status: string,
    aliveSession: uint32,
    contextDirectory: string,
    contextVersion: Option<string>)

  /** Why a list line could not be turned into a Context; the client aborts
      with "Probably regex pattern is wrong." in both cases. */
  datatype LineError =
    | NoMatch(line: string)            // the pattern matches nowhere in the line
    | SessionOverflow(digits: string)  // the session count does not fit in a u32

  /** What the pattern guarantees of every Context it yields. */
  predicate ValidContext(c: Context) {
    |c.contextPath| >= 1 && c.contextPath[0] == '/' && All(c.contextPath[1..], NameChars) &&
    IsStatus(c.status) &&
    |c.contextDirectory| >= 1 && All(c.contextDirectory, NameChars) &&
    (c.contextVersion.Some? ==> |c.contextVersion.value| >= 1 && All(c.contextVersion.value, AlnumChars))
  }

  /** One list line: the first match of the pattern anywhere in the line,
      its session digits read as a u32. */
  function ParseLine(line: string): (r: Result<Context, LineError>)
    ensures r.Success? ==> ValidContext(r.value)
    ensures r.Failure? && r.error.SessionOverflow? ==>
      |r.error.digits| >= 1 && All(r.error.digits, Digits) && DecimalValue(r.error.digits) > U32_MAX
  {
    match Search(line, 0)
    case None => Failure(NoMatch(line))
    case Some((_, caps)) =>
      var n := DecimalValue(caps.sessions);
      if n > U32_MAX then Failure(SessionOverflow(caps.sessions))
      else Success(Context(caps.path, caps.status, n as uint32, caps.directory, caps.version))
  }

  /** The captures a line written for `c` with session numeral `digits` produces. */
  function CapturesOf(c: Context, digits: string): Captures {
    Captures(c.contextPath, c.status, digits, c.contextDirectory, c.contextVersion,
      |MatchedText(Captures(c.contextPath, c.status, digits, c.contextDirectory, c.contextVersion, 0))|)
  }

  /** The line Tomcat writes for a context: `path:status:sessions:directory[##version]`. */
  function FormatLine(c: Context): string {
    MatchedText(CapturesOf(c, DecimalString(c.aliveSession as nat)))
  }

  /** The pattern is not anchored: text before the first '/' and text after
      the match that cannot extend it are ignored, and a zero-padded session
      numeral reads as its value. */
  lemma ParseLineFindsContext(junk: string, c: Context, digits: string, rest: string)
    requires '/' !in junk && ValidContext(c) && StopsBefore(c.contextVersion, rest)
    requires |digits| >= 1 && All(digits, Digits) && DecimalValue(digits) == c.aliveSession as nat
    ensures ParseLine(junk + MatchedText(CapturesOf(c, digits)) + rest) == Success(c)
  {
    var caps := CapturesOf(c, digits);
    FoundAfterJunk(junk, caps, rest);
    ParseLineSuccess(junk + MatchedText(caps) + rest, |junk|, caps, c);
  }

  /** A session numeral too large for a u32 makes the line an error. */
  lemma ParseLineOverflow(junk: string, c: Context, digits: string, rest: string)
    requires '/' !in junk && ValidContext(c) && StopsBefore(c.contextVersion, rest)
    requires |digits| >= 1 && All(digits, Digits) && DecimalValue(digits) > U32_MAX
    ensures ParseLine(junk + MatchedText(CapturesOf(c, digits)) + rest) == Failure(SessionOverflow(digits))
  {
    var caps := CapturesOf(c, digits);
    FoundAfterJunk(junk, caps, rest);
    ParseLineOverflowAt(junk + MatchedText(caps) + rest, |junk|, caps);
  }

  /** Rust's `u32` parser accepts leading zeros: a zero-padded session count
      reads as its value. */
  lemma ParseLineZeroPadded(c: Context, zeros: nat)
    requires ValidContext(c)
    ensures ParseLine(MatchedText(CapturesOf(c, seq(zeros, _ => '0') + DecimalString(c.aliveSession as nat)))) == Success(c)
  {
    var ds := DecimalString(c.aliveSession as nat);
    DecimalRoundTrip(c.aliveSession as nat);
    LeadingZeros(zeros, ds);
    ParseLineFindsContext([], c, seq(zeros, _ => '0') + ds, []);
    assert [] + MatchedText(CapturesOf(c, seq(zeros, _ => '0') + ds)) + [] == MatchedText(CapturesOf(c, seq(zeros, _ => '0') + ds));
  }

  /** What ParseLine makes of the match Search reports. */
  lemma ParseLineSuccess(line: string, k: nat, caps: Captures, c: Context)
    requires k <= |line| && Search(line, 0) == Some((k, caps))
    requires caps.path == c.contextPath && caps.status == c.status && caps.directory == c.contextDirectory
    requires caps.version == c.contextVersion && All(caps.sessions, Digits)
    requires DecimalValue(caps.sessions) == c.aliveSession as nat
    ensures ParseLine(line) == Success(c)
  {
  }

  lemma ParseLineOverflowAt(line: string, k: nat, caps: Captures)
    requires k <= |line| && Search(line, 0) == Some((k, caps)) && All(caps.sessions, Digits)
    requires DecimalValue(caps.sessions) > U32_MAX
    ensures ParseLine(line) == Failure(SessionOverflow(caps.sessions))
  {
  }

  /** Formatting a valid context and parsing the line gives it back. */
  lemma ParseFormatLine(c: Context)
    requires ValidContext(c)
    ensures ParseLine(FormatLine(c)) == Success(c)
  {
    var digits := DecimalString(c.aliveSession as nat);
    DecimalRoundTrip(c.aliveSession as nat);
    ParseLineFindsContext([], c, digits, []);
    assert [] + FormatLine(c) + [] == FormatLine(c);
  }

  /** A line is rejected as unmatched exactly when the pattern matches at no
      position of it. */
  lemma ParseLineNoMatch(line: string)
    ensures ParseLine(line) == Failure(NoMatch(line)) <==> forall k :: 0 <= k < |line| ==> MatchAt(line, k).None?
  {
    if forall k :: 0 <= k < |line| ==> MatchAt(line, k).None? {
      SearchFindsNothing(line, 0);
    } else if Search(line, 0).None? {
      forall k | 0 <= k < |line|
        ensures MatchAt(line, k).None?
      {
        SearchLeftmost(line, 0, k);
      }
    }
  }

  /** Every accepted line holds, somewhere, the text of its Context with a
      session numeral whose value is the session count. */
  lemma ParseLineSound(line: string)
    requires ParseLine(line).Success?
    ensures exists k: nat, digits: string ::
      (k <= |line| && All(digits, Digits) &&
       DecimalValue(digits) == ParseLine(line).value.aliveSession as nat &&
       MatchedText(CapturesOf(ParseLine(line).value, digits)) <= line[k..])
  {
    var (k, caps) := Search(line, 0).value;
    assert MatchPrefix(line[k..]) == Some(caps);
    PathText(line[k..]);
    var c := ParseLine(line).value;
    assert c.aliveSession as nat == DecimalValue(caps.sessions);
    assert MatchedText(CapturesOf(c, caps.sessions)) == MatchedText(caps);
    assert k <= |line| && MatchedText(caps) <= line[k..];
  }

  /** A line without any '/' cannot match. */
  lemma ParseLineNoSlash(line: string)
    requires '/' !in line
    ensures ParseLine(line) == Failure(NoMatch(line))
  {
    SearchFindsNothing(line, 0);
  }

  /** Search skips the junk before the match and stops at the match. */
  lemma FoundAfterJunk(junk: string, caps: Captures, rest: string)
    requires '/' !in junk && WellFormed(caps) && caps.end == |MatchedText(caps)|
    requires StopsBefore(caps.version, rest)
    ensures Search(junk + MatchedText(caps) + rest, 0) == Some((|junk|, caps))
  {
    var line := junk + MatchedText(caps) + rest;
    DropFirst(junk, MatchedText(caps), rest);
    MatchPrefixOfText(caps, rest);
    SearchFinds(line, 0, |junk|);
  }
}
