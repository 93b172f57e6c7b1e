/** Decoding a whole `/manager/text/list` reply: the split, skip, filter and
    push loop of `get_contexts`, and the "version or N/A" cell of `list`. */
module ContextList {
  import opened Wrappers
  import opened Text
  import opened NewlineSplit
  import opened ContextPattern
  import opened Contexts

  /** The lines that carry data: every non-empty line, in order. */
  function NonEmpty(lines: seq<string>): (r: seq<string>)
    ensures |r| <= |lines|
    ensures forall k :: 0 <= k < |r| ==> r[k] != [] && r[k] in lines
  {
    if lines == [] then []
    else if lines[0] == [] then NonEmpty(lines[1..])
    else [lines[0]] + NonEmpty(lines[1..])
  }

  /** No non-empty line is dropped, and lines that are all non-empty are kept whole. */
  lemma {:induction false} NonEmptyKeepsAll(lines: seq<string>)
    ensures forall x :: x in lines && x != [] ==> x in NonEmpty(lines)
    ensures (forall k :: 0 <= k < |lines| ==> lines[k] != []) ==> NonEmpty(lines) == lines
  {
    if lines != [] {
      NonEmptyKeepsAll(lines[1..]);
      assert lines == [lines[0]] + lines[1..];
      assert forall x :: x in lines ==> x == lines[0] || x in lines[1..];
    }
  }

  /** One line is kept exactly when it is non-empty. */
  lemma NonEmptyOne(x: string)
    ensures NonEmpty([x]) == if x == [] then [] else [x]
  {
    assert [x][1..] == [];
  }

  /** Filtering two blocks of lines one after the other filters their
      concatenation: the lines kept stay in input order. */
  lemma {:induction false} NonEmptyAppend(a: seq<string>, b: seq<string>)
    ensures NonEmpty(a + b) == NonEmpty(a) + NonEmpty(b)
    decreases |a|
  {
    if a == [] {
      assert a + b == b;
    } else {
      var ab := a + b;
      assert ab != [] && ab[0] == a[0] && ab[1..] == a[1..] + b;
      NonEmptyAppend(a[1..], b);
      if a[0] != [] {
        calc {
          NonEmpty(ab);
          [a[0]] + NonEmpty(a[1..] + b);
          [a[0]] + (NonEmpty(a[1..]) + NonEmpty(b));
          ([a[0]] + NonEmpty(a[1..])) + NonEmpty(b);
        }
      }
    }
  }

  /** `acc` followed by the decoded rest, or the rest's error. */
  function Prepend(acc: seq<Context>, r: Result<seq<Context>, LineError>): Result<seq<Context>, LineError> {
    match r
    case Success(cs) => Success(acc + cs)
    case Failure(e) => Failure(e)
  }

  /** Decode lines in order with `parse`, skipping empty ones and stopping at
      the first line `parse` rejects. The list reply is decoded with ParseLine;
      the lemmas below hold for any line parser. */
  function DecodeLines(lines: seq<string>, parse: string -> Result<Context, LineError>): Result<seq<Context>, LineError> {
    if lines == [] then Success([])
    else if lines[0] == [] then DecodeLines(lines[1..], parse)
    else match parse(lines[0])
      case Failure(e) => Failure(e)
      case Success(c) => Prepend([c], DecodeLines(lines[1..], parse))
  }

  /** The data lines of a list reply: every piece after the first. */
  function DataLines(body: string): seq<string> {
    Split(body)[1..]
  }

  /** The contexts a list reply describes, or the first line that is not a context. */
  function ContextListOf(body: string): Result<seq<Context>, LineError> {
    DecodeLines(DataLines(body), ParseLine)
  }

  /** `get_contexts` after the reply body has arrived. */
  method GetContexts(body: string) returns (r: Result<seq<Context>, LineError>)
    ensures r == ContextListOf(body)
  {
    var lines := DataLines(body);
    var result: seq<Context> := [];
    var i := 0;
    assert lines[i..] == lines;
    assert forall cs: seq<Context> :: [] + cs == cs;
    while i < |lines|
      invariant 0 <= i <= |lines|
      invariant DecodeLines(lines, ParseLine) == Prepend(result, DecodeLines(lines[i..], ParseLine))
    {
      var it := lines[i];
      DecodeStep(lines, i, ParseLine, result);
      if it != [] {
        var d := ParseLine(it);
        if d.Failure? {
          return Failure(d.error);
        }
        result := result + [d.value];
      }
      i := i + 1;
    }
    assert lines[i..] == [] && result + [] == result;
    return Success(result);
  }

  /** One iteration of the decoding loop: line `i` is skipped when empty,
      ends decoding when rejected, and is appended otherwise. */
  lemma DecodeStep(lines: seq<string>, i: nat, parse: string -> Result<Context, LineError>, acc: seq<Context>)
    requires i < |lines|
    ensures Prepend(acc, DecodeLines(lines[i..], parse)) ==
      if lines[i] == [] then Prepend(acc, DecodeLines(lines[i + 1..], parse))
      else match parse(lines[i])
        case Failure(e) => Failure(e)
        case Success(c) => Prepend(acc + [c], DecodeLines(lines[i + 1..], parse))
  {
    var tail := lines[i..];
    assert tail != [] && tail[0] == lines[i] && tail[1..] == lines[i + 1..];
    if lines[i] != [] && parse(lines[i]).Success? {
      var c := parse(lines[i]).value;
      match DecodeLines(lines[i + 1..], parse)
      case Success(cs) => assert acc + ([c] + cs) == acc + [c] + cs;
      case Failure(_) =>
    }
  }

  /** Decoding succeeds exactly when every non-empty line parses, and then
      yields one Context per non-empty line, in input order. */
  lemma {:induction false} DecodeLinesSuccess(lines: seq<string>, parse: string -> Result<Context, LineError>,
    cs: seq<Context>)
    ensures DecodeLines(lines, parse) == Success(cs) <==>
      |cs| == |NonEmpty(lines)| &&
      forall k :: 0 <= k < |cs| ==> parse(NonEmpty(lines)[k]) == Success(cs[k])
  {
    if lines != [] {
      if lines[0] == [] {
        DecodeLinesSuccess(lines[1..], parse, cs);
      } else if cs == [] {
        assert NonEmpty(lines) != [];
      } else {
        DecodeLinesSuccess(lines[1..], parse, cs[1..]);
        var ne := NonEmpty(lines);
        assert ne == [lines[0]] + NonEmpty(lines[1..]);
        assert forall k :: 1 <= k < |ne| ==> ne[k] == NonEmpty(lines[1..])[k - 1];
        assert cs == [cs[0]] + cs[1..];
        if DecodeLines(lines, parse) == Success(cs) {
          assert parse(lines[0]) == Success(cs[0]);
        }
      }
    }
  }

  /** When decoding fails, the error is that of the first non-empty line that
      does not parse, and every non-empty line before it parsed. */
  lemma {:induction false} DecodeLinesFailure(lines: seq<string>, parse: string -> Result<Context, LineError>,
    e: LineError)
    requires DecodeLines(lines, parse) == Failure(e)
    ensures exists k ::
      (0 <= k < |NonEmpty(lines)| && parse(NonEmpty(lines)[k]) == Failure(e) &&
       forall j :: 0 <= j < k ==> parse(NonEmpty(lines)[j]).Success?)
  {
    var ne := NonEmpty(lines);
    if lines[0] == [] {
      DecodeLinesFailure(lines[1..], parse, e);
    } else if parse(lines[0]).Failure? {
      assert ne[0] == lines[0];
    } else {
      DecodeLinesFailure(lines[1..], parse, e);
      var k :| 0 <= k < |NonEmpty(lines[1..])| && parse(NonEmpty(lines[1..])[k]) == Failure(e) &&
        (forall j :: 0 <= j < k ==> parse(NonEmpty(lines[1..])[j]).Success?);
      assert forall j :: 1 <= j < |ne| ==> ne[j] == NonEmpty(lines[1..])[j - 1];
      assert parse(ne[k + 1]) == Failure(e);
    }
  }

  /** Every Context a list reply yields satisfies the pattern's guarantees. */
  lemma ContextsValid(body: string, cs: seq<Context>)
    requires ContextListOf(body) == Success(cs)
    ensures forall k :: 0 <= k < |cs| ==> ValidContext(cs[k])
  {
    DecodeLinesSuccess(DataLines(body), ParseLine, cs);
  }

  /** The first line is dropped whatever it holds, even a valid context line. */
  lemma HeaderDiscarded(header: string, rest: string)
    requires CR !in header
    ensures ContextListOf(header + "\r\n" + rest) == DecodeLines(Split(rest), ParseLine)
  {
    SplitCrLf(header, rest);
  }

  /** The reply Tomcat sends for `cs`: a status line, then one CR LF terminated line per context. */
  function RenderList(header: string, cs: seq<Context>): string {
    header + "\r\n" + RenderLines(cs)
  }

  function RenderLines(cs: seq<Context>): string {
    if cs == [] then "" else FormatLine(cs[0]) + "\r\n" + RenderLines(cs[1..])
  }

  /** A list reply built from valid contexts decodes to exactly those contexts, in order. */
  lemma ListRoundTrip(header: string, cs: seq<Context>)
    requires CR !in header
    requires forall k :: 0 <= k < |cs| ==> ValidContext(cs[k])
    ensures ContextListOf(RenderList(header, cs)) == Success(cs)
  {
    HeaderDiscarded(header, RenderLines(cs));
    forall k | 0 <= k < |cs|
      ensures ParseLine(FormatLine(cs[k])) == Success(cs[k])
      ensures CR !in FormatLine(cs[k]) && FormatLine(cs[k]) != []
    {
      ParseFormatLine(cs[k]);
      FormatLineNoCr(cs[k]);
    }
    LinesRoundTrip(cs, ParseLine);
  }

  /** The rendered lines decode back to `cs` under any parser that inverts FormatLine. */
  lemma {:induction false} LinesRoundTrip(cs: seq<Context>, parse: string -> Result<Context, LineError>)
    requires forall k :: 0 <= k < |cs| ==> parse(FormatLine(cs[k])) == Success(cs[k])
    requires forall k :: 0 <= k < |cs| ==> CR !in FormatLine(cs[k]) && FormatLine(cs[k]) != []
    ensures DecodeLines(Split(RenderLines(cs)), parse) == Success(cs)
  {
    if cs == [] {
      assert Split("") == [""];
    } else {
      var line, tail := FormatLine(cs[0]), RenderLines(cs[1..]);
      assert CR !in line && line != [];
      assert RenderLines(cs) == line + [CR, LF] + tail;
      SplitCrLf(line, tail);
      var lines := Split(RenderLines(cs));
      assert lines[0] == line && lines[1..] == Split(tail);
      LinesRoundTrip(cs[1..], parse);
      assert DecodeLines(lines, parse) == Prepend([cs[0]], DecodeLines(Split(tail), parse));
      assert cs == [cs[0]] + cs[1..];
    }
  }

  /** A context line holds no CR, so it is a single piece of the split. */
  lemma FormatLineNoCr(c: Context)
    requires ValidContext(c)
    ensures CR !in FormatLine(c) && FormatLine(c) != []
  {
    var caps := CapturesOf(c, DecimalString(c.aliveSession as nat));
    var t := FormatLine(c);
    assert t == c.contextPath + ":" + c.status + ":" + caps.sessions + ":" + c.contextDirectory
      + VersionSuffix(c.contextVersion);
    assert forall k :: 0 <= k < |t| ==> t[k] != CR;
  }

  /** The version column of the list table. */
  function VersionCell(c: Context): (cell: string)
    ensures ValidContext(c) ==> (cell == "N/A" <==> c.contextVersion.None?)
    ensures c.contextVersion.Some? ==> cell == c.contextVersion.value
  {
    assert !All("N/A", AlnumChars) by { assert !InClass(AlnumChars, "N/A"[1]); }
    match c.contextVersion
    case Some(v) => v
    case None => "N/A"
  }
}
