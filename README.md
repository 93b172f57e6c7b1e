# Tomcat Manager text protocol, modelled in Dafny

This project models how the Tomcat Manager command-line client decodes the
plain-text replies of Tomcat's Manager API (`src/tomcat.rs`):

- **Command replies** (`handle_response`). A body that starts with `OK - `
  becomes `Response::Ok` and any other body is read as a `FAIL - ` body. In
  both cases the message lies between the prefix and one final `"\r\n"` of the
  whole body. The client panics at one of its two `expect` calls when a strip
  fails; the model returns `Failure(UnexpectedResponse(body))` instead.
- **List replies** (the body half of `get_contexts`).
  - The body is split on the pattern `(\r\n)|(\r)`.
  - The first piece (the status line) is dropped and empty pieces are skipped.
  - Every other piece is searched with the list-line pattern
    `(/[a-zA-Z0-9-_%]*):(running|stopped):(\d+):([a-zA-Z0-9-_%]+)(##([0-9A-Za-z]+))?`.
    The first match anywhere in the piece becomes one `Context`, in order.
  - A piece with no match, or a session count that does not fit a `u32`,
    aborts the client. The model returns the first such error.

The modules are:

| file | module | contents |
|---|---|---|
| `wrappers.dfy` | `Wrappers` | `Option`, `Result` |
| `text.dfy` | `Text` | character classes, maximal runs, decimal numerals |
| `response.dfy` | `ManagerResponse` | `Response`, `HandleResponse` and its inverse `Render` |
| `newline_split.dfy` | `NewlineSplit` | `Split`, the `(\r\n)\|(\r)` splitter |
| `context_pattern.dfy` | `ContextPattern` | the list-line pattern written out by hand, and the unanchored search |
| `contexts.dfy` | `Contexts` | `Context`, `ParseLine` for one line, and `FormatLine`, the line Tomcat writes for a context |
| `context_list.dfy` | `ContextList` | the decoding loop `GetContexts`, its specification `ContextListOf`, and the version cell of the list table |

### How the pattern is matched

`Regex::captures` is not anchored: it reports the leftmost position where the
pattern matches. `ContextPattern.Search` tries each start in turn, and
`ContextPattern.MatchPrefix` matches from one fixed start.

From one start the pattern can match several texts. On the line
`/a:running:1:dir##v1` it matches `/a:running:1:d`, `/a:running:1:dir` and
`/a:running:1:dir##v1`, among others. The engine reports the match its
preferences reach first:

- The path and the digits are each followed by a `:` that their class cannot
  hold. So only their longest runs can be followed by that `:`.
- The directory's `+` and the version's `?` and `+` are greedy, so the longest
  reading is tried first. It succeeds, because nothing in the pattern follows
  them.

So the reported match takes every run as long as it goes, as `Text.RunEnd`
does. The argument about the engine's preferences is not itself proved. What
is proved is that this greedy reading and the text of its groups agree in both
directions: `MatchPrefixText` shows a match covers exactly its groups' text,
and `MatchPrefixOfText` shows such a text is read back as the same groups.

### Notes on the code

The model follows the code in each case.

- A bare `OK` reply is not a success without a message. It does not start
  with `OK - `, so it takes the `FAIL - ` branch. There `strip_prefix` fails
  and the `expect` at `src/tomcat.rs:154` panics. A body such as `OK - done`,
  with no final CR LF, fails at `strip_suffix` instead, and the `expect` at
  `src/tomcat.rs:146` panics. `ManagerResponse.BareOkRejected` shows the model
  rejects both bodies.
- The client has no version numbering for parallel deployment. `deploy` sends
  only `path` (`src/tomcat.rs:103`), so there is nothing to model.
- `Response` declares `Option<String>` payloads (`src/error.rs:4-7`), but
  `handle_response` passes a plain `String` (`src/tomcat.rs:142-147`,
  `150-155`). That does not type-check as written. The model takes the
  evident intent: a decoded message is always `Some(message)`.

## Model

| member | source | states |
|---|---|---|
| ManagerResponse.HandleResponse | src/tomcat.rs:140-158 | On success, the message is present and re-rendering it with the right prefix and a final CR LF gives back the body. A `Fail` result never comes from a body starting with "OK - ". Every failure reports the body as unexpected. |
| ManagerResponse.Render | src/tomcat.rs:141-156 | The body Tomcat sends for a response ends in CR LF and starts with "OK - " exactly when the response is `Ok`. |
| ManagerResponse.RoundTrip | src/tomcat.rs:140-158 | Decoding the rendered body of any response with a message gives that response back. |
| ManagerResponse.OkRoundTrip | src/tomcat.rs:141-148 | `"OK - " + m + "\r\n"` decodes to `Ok(Some(m))` for every `m`. |
| ManagerResponse.FailRoundTrip | src/tomcat.rs:149-156 | `"FAIL - " + m + "\r\n"` decodes to `Fail(Some(m))` for every `m`. |
| ManagerResponse.InteriorLineBreaksKept | src/tomcat.rs:143-146 | Only the last CR LF of the whole body is removed: `"OK - a\r\n\r\n"` gives the message `"a\r\n"`. |
| ManagerResponse.DecodeErrorCases | src/tomcat.rs:140-158 | Decoding fails exactly in two cases. Either the body starts with "OK - " and the rest lacks a final CR LF, or it does not start with "OK - " and lacks either the "FAIL - " prefix or the final CR LF. |
| ManagerResponse.BareOkRejected | src/tomcat.rs:141-156 | A bare "OK", and an "OK - " body without its final CR LF, are errors, not a success without a message. |
| ManagerResponse.OkPrefixNeverFails | src/tomcat.rs:141-149 | A body starting with "OK - " never decodes to `Fail`. |
| NewlineSplit.Split | src/tomcat.rs:35-36 | Splitting always yields at least one piece, and no piece contains a CR. |
| NewlineSplit.SplitNoSeparator | src/tomcat.rs:35-36 | Text without a CR is one piece, even when it holds LF characters: a bare LF does not separate. |
| NewlineSplit.SplitCrLf | src/tomcat.rs:35-36 | A CR LF pair is one separator, because the alternation prefers `\r\n`. |
| NewlineSplit.SplitLoneCr | src/tomcat.rs:35-36 | A CR not followed by LF is a separator on its own. |
| ContextPattern.MatchPrefix | src/tomcat.rs:37-40 | A match from the start of a text has well-formed groups: path "/" plus name characters, a status word, digits, a non-empty directory, and an optional non-empty alphanumeric version. It ends within the text. |
| ContextPattern.VersionPrefix | src/tomcat.rs:38 | The optional `##<alnum>+` group, when present, is non-empty, alphanumeric and excludes the "##". |
| ContextPattern.MatchPrefixText | src/tomcat.rs:38 | A match covers exactly the text its groups spell out: `path:status:sessions:directory[##version]`. |
| ContextPattern.MatchPrefixOfText | src/tomcat.rs:38 | Any well-formed group text is matched back to those same groups, whatever follows it, as long as what follows cannot extend the last group. |
| ContextPattern.VersionOf | src/tomcat.rs:38 | The version group reads back the version that was written, or none when there is no "##" suffix. |
| ContextPattern.MatchAt | src/tomcat.rs:77-78 | A match at a position has well-formed groups and stays inside the line. No match starts at a character other than "/". |
| ContextPattern.Search | src/tomcat.rs:77-79 | When the search reports a match, it is a genuine match at the reported start. |
| ContextPattern.SearchLeftmost | src/tomcat.rs:77-79 | Nothing matches before the reported start. When nothing is reported, nothing matches anywhere. |
| ContextPattern.SearchFinds | src/tomcat.rs:77-79 | The search reports the first start that matches, with its groups. |
| ContextPattern.SearchFindsNothing | src/tomcat.rs:77-79 | When no start matches, the search reports nothing. |
| Contexts.ParseLine | src/tomcat.rs:77-88 | Every Context produced satisfies the pattern's guarantees: path starts with "/", status is running or stopped, the directory is non-empty over name characters, and the version is absent or non-empty alphanumeric. A session-overflow error carries a numeral whose value exceeds the `u32` maximum. |
| Contexts.ParseLineFindsContext | src/tomcat.rs:77-88 | Take a line made of text without "/", then the text of a valid context with any numeral for its session count, then text that cannot extend the match. It parses to exactly that context, with the session count equal to the numeral's decimal value. |
| Contexts.ParseLineOverflow | src/tomcat.rs:83-85 | A matching line whose session numeral exceeds the `u32` maximum is a `SessionOverflow` error. |
| Contexts.ParseLineZeroPadded | src/tomcat.rs:83-85 | A zero-padded session numeral reads as its value, as Rust's `u32` parser does. |
| Contexts.ParseFormatLine | src/tomcat.rs:77-88 | The line Tomcat writes for a valid context parses back to that context. |
| Contexts.ParseLineNoMatch | src/tomcat.rs:77-79 | A line is rejected as `NoMatch` exactly when the pattern matches at none of its positions. |
| Contexts.ParseLineSound | src/tomcat.rs:77-88 | Every accepted line contains, at some position, the text of its Context with a session numeral whose value is the session count. |
| Contexts.ParseLineNoSlash | src/tomcat.rs:77-79 | A line without "/" is rejected as `NoMatch`. |
| ContextList.NonEmpty | src/tomcat.rs:75-76 | The lines kept are non-empty lines of the input, and there are no more of them than input lines. |
| ContextList.NonEmptyKeepsAll | src/tomcat.rs:75-76 | Every non-empty input line is kept, and a list with no empty line is kept whole. |
| ContextList.NonEmptyOne | src/tomcat.rs:75-76 | A single line is kept exactly when it is non-empty. |
| ContextList.NonEmptyAppend | src/tomcat.rs:75-76 | Filtering a concatenation of lines is filtering each part in turn. With `NonEmptyOne` this fixes the result: the non-empty lines, in input order. |
| ContextList.GetContexts | src/tomcat.rs:71-93 | The loop over the split lines returns exactly `ContextListOf(body)`. That is the decoded contexts in order, or the first line error. |
| ContextList.DecodeLinesSuccess | src/tomcat.rs:73-91 | Decoding succeeds with `cs` exactly when `cs` has one entry per non-empty line and each non-empty line parses to the entry at the same index. So the output is in input order. |
| ContextList.DecodeLinesFailure | src/tomcat.rs:75-85 | A failed decode reports the error of the first non-empty line that does not parse, and every non-empty line before it parsed. |
| ContextList.ContextsValid | src/tomcat.rs:80-88 | Every Context decoded from a list reply is valid. |
| ContextList.HeaderDiscarded | src/tomcat.rs:72 | The first line is dropped whatever it holds, even a valid context line. |
| ContextList.ListRoundTrip | src/tomcat.rs:71-93 | A reply made of a status line and one line per valid context decodes to exactly those contexts, in order. |
| ContextList.LinesRoundTrip | src/tomcat.rs:75-91 | Rendered context lines decode back to their contexts under any line parser that inverts the line format. |
| ContextList.VersionCell | src/tomcat.rs:50-53 | A context's version is shown as itself when present. For a valid context, the column shows "N/A" exactly when the context has no version. |
| Text.DecimalRoundTrip | src/tomcat.rs:83-84 | Reading back the decimal numeral of a number gives the number. |
| Text.LeadingZeros | src/tomcat.rs:83-84 | Leading zeros do not change a numeral's value. |

## Left out

- HTTP: the `reqwest` requests, the URL joins and the basic authentication (`src/tomcat.rs:61-71`, `96-138`). This is network I/O. The model starts from the body text.
- The table printing of `list` (`src/tomcat.rs:42-59`). This is console output. Only the "version or N/A" choice is modelled, as `ContextList.VersionCell`.
- `deploy` and `undeploy` beyond decoding their reply: reading the WAR file and sending the request are file and network I/O.
- `src/host_config.rs`, `src/credential.rs` and `src/main.rs` are not part of this model. They hold environment access, URL parsing, the keyring library and the command-line front end.
- Unicode digits: Rust's `\d` also matches non-ASCII decimal digits, which `str::parse::<u32>` then rejects, so the client panics (`src/tomcat.rs:83-85`). The model's digit class is ASCII `0-9` only. There, a start whose session field holds such a digit does not match, and the search moves on to a later start. So the model can accept a line the client aborts on: `/a:running:٣:d /b:running:1:e` gives the `/b` context here. With no later match, the line is `NoMatch` rather than a parse failure.
- The regular-expression engine in general. The two patterns are written out by hand. The argument under "How the pattern is matched" is why a greedy reading of each run gives the leftmost-first match.
- Panics: the two `expect` calls of `get_contexts` (`src/tomcat.rs:79`, `85`) and the two of `handle_response` (`src/tomcat.rs:146`, `154`) are modelled as error results (`LineError`, `DecodeError`) rather than process aborts.
