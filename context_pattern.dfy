/** The list-line pattern
      (/[a-zA-Z0-9-_%]*):(running|stopped):(\d+):([a-zA-Z0-9-_%]+)(##([0-9A-Za-z]+))?
    written out by hand, with each repetition read as far as it goes.

    From one start the pattern can match several texts. On the line
    `/a:running:1:dir##v1` it matches `/a:running:1:d`, `/a:running:1:dir`
    and `/a:running:1:dir##v1`, among others. The regular-expression engine
    reports the match that its preferences reach first:
    - the path and the digits are each followed by a ':' their class cannot
      hold, so only their longest runs can be followed by that ':';
    - the directory's `+` and the version's `?` and `+` are greedy, so the
      longest reading is tried first, and it succeeds because nothing in the
      pattern follows them.
    Taking every run as long as it goes therefore gives the reported match. */
module ContextPattern {
  import opened Wrappers
  import opened Text

  /** The capture groups 1, 2, 3, 4 and 6 of one match, and where the match ends. */
  datatype Captures = Captures(
    path: string,
    status: string,
    sessions: string,
    directory: string,
    version: Option<string>,
    end: nat)

  predicate IsStatus(s: string) { s == "running" || s == "stopped" }

  /** What the pattern demands of each group. */
  predicate WellFormed(c: Captures) {
    |c.path| >= 1 && c.path[0] == '/' && All(c.path[1..], NameChars) &&
    IsStatus(c.status) &&
    |c.sessions| >= 1 && All(c.sessions, Digits) &&
    |c.directory| >= 1 && All(c.directory, NameChars) &&
    (c.version.Some? ==> |c.version.value| >= 1 && All(c.version.value, AlnumChars))
  }

  function VersionSuffix(v: Option<string>): string {
    if v.Some? then "##" + v.value else ""
  }

  /** The text a match covers, rebuilt from its groups. */
  function MatchedText(c: Captures): string {
    c.path + ":" + c.status + ":" + c.sessions + ":" + c.directory + VersionSuffix(c.version)
  }

  /** The pattern matched at the very start of `t`, greedily, or None. It is
      read in stages, each taking the groups read so far and the text that
      remains. */
  function MatchPrefix(t: string): (r: Option<Captures>)
    ensures r.Some? ==> WellFormed(r.value) && r.value.end <= |t|
  {
    if |t| == 0 || t[0] != '/' then None
    else
      var n := RunEnd(t, 1, NameChars);
      RunEndMaximal(t, 1, NameChars);
      assert t[..n][1..] == t[1..n];
      MatchStatus(t[..n], t[n..])
  }

  /** `:(running|stopped):` after the path. */
  function MatchStatus(path: string, u: string): (r: Option<Captures>)
    requires |path| >= 1 && path[0] == '/' && All(path[1..], NameChars)
    ensures r.Some? ==> WellFormed(r.value) && r.value.end <= |path| + |u|
    ensures r.Some? ==> r.value.path == path
  {
    if |u| < 9 || u[0] != ':' || !IsStatus(u[1..8]) || u[8] != ':' then None
    else MatchSessions(path, u[1..8], u[9..])
  }

  /** `\d+:` after the status. */
  function MatchSessions(path: string, status: string, u: string): (r: Option<Captures>)
    requires |path| >= 1 && path[0] == '/' && All(path[1..], NameChars) && IsStatus(status)
    ensures r.Some? ==> WellFormed(r.value) && r.value.end <= |path| + 9 + |u|
    ensures r.Some? ==> r.value.path == path && r.value.status == status
  {
    var m := RunEnd(u, 0, Digits);
    if m == 0 || m == |u| || u[m] != ':' then None
    else
      RunEndMaximal(u, 0, Digits);
      MatchDirectory(path, status, u[..m], u[m + 1..])
  }

  /** `[a-zA-Z0-9-_%]+` and the optional version after the session count. */
  function MatchDirectory(path: string, status: string, sessions: string, u: string): (r: Option<Captures>)
    requires |path| >= 1 && path[0] == '/' && All(path[1..], NameChars) && IsStatus(status)
    requires |sessions| >= 1 && All(sessions, Digits)
    ensures r.Some? ==> WellFormed(r.value) && r.value.end <= |path| + 9 + |sessions| + 1 + |u|
    ensures r.Some? ==> r.value.path == path && r.value.status == status && r.value.sessions == sessions
    ensures r.Some? ==> r.value.end == |path| + 9 + |sessions| + 1 + |r.value.directory| + |VersionSuffix(r.value.version)|
  {
    var k := RunEnd(u, 0, NameChars);
    if k == 0 then None
    else
      RunEndMaximal(u, 0, NameChars);
      var v := VersionPrefix(u[k..]);
      Some(Captures(path, status, sessions, u[..k], v, |path| + 9 + |sessions| + 1 + k + |VersionSuffix(v)|))
  }

  /** The optional `##<alnum>+` group at the front of `u`. */
  function VersionPrefix(u: string): (v: Option<string>)
    ensures v.Some? ==> |v.value| >= 1 && All(v.value, AlnumChars) && 2 + |v.value| <= |u|
  {
    if |u| >= 2 && u[0] == '#' && u[1] == '#' then
      var e := RunEnd(u, 2, AlnumChars);
      if e > 2 then RunEndMaximal(u, 2, AlnumChars); Some(u[2..e]) else None
    else None
  }

  /** The text of a match after its path, after its status and after its
      session count, each grouped from the right. */
  function AfterPath(c: Captures): string {
    [':'] + (c.status + ([':'] + AfterStatus(c)))
  }

  function AfterStatus(c: Captures): string {
    c.sessions + ([':'] + AfterSessions(c))
  }

  function AfterSessions(c: Captures): string {
    c.directory + VersionSuffix(c.version)
  }

  lemma MatchedTextSplit(c: Captures)
    ensures MatchedText(c) == c.path + AfterPath(c)
  {
    NestedText(c, []);
    assert VersionSuffix(c.version) + [] == VersionSuffix(c.version);
    assert MatchedText(c) + [] == MatchedText(c);
  }

  /** A match covers exactly the text its groups spell out. */
  lemma MatchPrefixText(t: string)
    requires MatchPrefix(t).Some?
    ensures t[..MatchPrefix(t).value.end] == MatchedText(MatchPrefix(t).value)
  {
    var c := MatchPrefix(t).value;
    PathText(t);
    PrefixTake(MatchedText(c), t);
  }

  /** The text of a match from the start of `t` is a prefix of `t`, as long as the match. */
  lemma PathText(t: string)
    requires MatchPrefix(t).Some?
    ensures var c := MatchPrefix(t).value; MatchedText(c) <= t && |MatchedText(c)| == c.end
  {
    var c := MatchPrefix(t).value;
    var n := RunEnd(t, 1, NameChars);
    StatusText(t[..n], t[n..]);
    PrefixJoin(t[..n], AfterPath(c), t[n..]);
    TakeDrop(t, n);
    MatchedTextSplit(c);
  }

  lemma StatusText(path: string, u: string)
    requires |path| >= 1 && path[0] == '/' && All(path[1..], NameChars)
    requires MatchStatus(path, u).Some?
    ensures var c := MatchStatus(path, u).value;
      c.end == |path| + |AfterPath(c)| && AfterPath(c) <= u
  {
    var c := MatchStatus(path, u).value;
    SessionsText(path, u[1..8], u[9..]);
    PrefixJoin([':'], AfterStatus(c), u[9..]);
    PrefixJoin(c.status, [':'] + AfterStatus(c), [':'] + u[9..]);
    PrefixJoin([':'], c.status + ([':'] + AfterStatus(c)), c.status + ([':'] + u[9..]));
    Unfold(u, 0);
    TakeDrop(u[1..], 7);
    Unfold(u, 8);
    assert u[1..][..7] == u[1..8] && u[1..][7..] == u[8..];
  }

  lemma SessionsText(path: string, status: string, u: string)
    requires |path| >= 1 && path[0] == '/' && All(path[1..], NameChars) && IsStatus(status)
    requires MatchSessions(path, status, u).Some?
    ensures var c := MatchSessions(path, status, u).value;
      c.end == |path| + 9 + |AfterStatus(c)| && AfterStatus(c) <= u
  {
    var c := MatchSessions(path, status, u).value;
    var m := RunEnd(u, 0, Digits);
    RunEndMaximal(u, 0, Digits);
    DirectoryText(path, status, u[..m], u[m + 1..]);
    PrefixJoin([':'], AfterSessions(c), u[m + 1..]);
    PrefixJoin(u[..m], [':'] + AfterSessions(c), [':'] + u[m + 1..]);
    TakeDrop(u, m);
    Unfold(u, m);
  }

  lemma DirectoryText(path: string, status: string, sessions: string, u: string)
    requires |path| >= 1 && path[0] == '/' && All(path[1..], NameChars) && IsStatus(status)
    requires |sessions| >= 1 && All(sessions, Digits)
    requires MatchDirectory(path, status, sessions, u).Some?
    ensures AfterSessions(MatchDirectory(path, status, sessions, u).value) <= u
  {
    var k := RunEnd(u, 0, NameChars);
    VersionText(u[k..]);
    PrefixJoin(u[..k], VersionSuffix(VersionPrefix(u[k..])), u[k..]);
    TakeDrop(u, k);
  }

  /** The version group covers the text of VersionSuffix. */
  lemma VersionText(u: string)
    ensures VersionSuffix(VersionPrefix(u)) <= u
  {
    var v := VersionPrefix(u);
    if v.Some? {
      var e := 2 + |v.value|;
      assert u[..e] == [u[0], u[1]] + u[2..e];
    }
  }

  /** The pattern tried at position `k` of `line`. */
  function MatchAt(line: string, k: nat): (r: Option<Captures>)
    requires k <= |line|
    ensures r.Some? ==> WellFormed(r.value) && k + r.value.end <= |line|
    ensures k == |line| || line[k] != '/' ==> r.None?
  {
    MatchPrefix(line[k..])
  }

  /** The pattern tried at every position of `line`, as one function value;
      positions past the end match nothing. */
  function Matcher(line: string): nat -> Option<Captures> {
    (k: nat) => if k <= |line| then MatchAt(line, k) else None
  }

  /** The first position in `from..to` where `f` reports a value, with that value. */
  function First<T>(f: nat -> Option<T>, from: nat, to: nat): (r: Option<(nat, T)>)
    requires from <= to
    ensures r.Some? ==> from <= r.value.0 < to && f(r.value.0) == Some(r.value.1)
    decreases (to as int) - (from as int)
  {
    if from == to then None
    else match f(from)
      case Some(x) => Some((from, x))
      case None => First(f, from + 1, to)
  }

  /** Nothing is reported before the position First returns, and nothing at all
      when it returns None. */
  lemma {:induction false} FirstLeftmost<T>(f: nat -> Option<T>, from: nat, to: nat, k: nat)
    requires from <= k < to
    requires First(f, from, to).Some? ==> k < First(f, from, to).value.0
    ensures f(k).None?
    decreases (to as int) - (from as int)
  {
    if k > from {
      FirstLeftmost(f, from + 1, to, k);
    }
  }

  /** First returns the first position that reports a value. */
  lemma {:induction false} FirstFinds<T>(f: nat -> Option<T>, from: nat, to: nat, s: nat)
    requires from <= s < to && f(s).Some?
    requires forall k :: from <= k < s ==> f(k).None?
    ensures First(f, from, to) == Some((s, f(s).value))
    decreases (s as int) - (from as int)
  {
    if from < s {
      FirstFinds(f, from + 1, to, s);
    }
  }

  /** First returns None when no position reports a value. */
  lemma {:induction false} FirstFindsNothing<T>(f: nat -> Option<T>, from: nat, to: nat)
    requires from <= to
    requires forall k :: from <= k < to ==> f(k).None?
    ensures First(f, from, to).None?
    decreases (to as int) - (from as int)
  {
    if from < to {
      FirstFindsNothing(f, from + 1, to);
    }
  }

  /** The leftmost start at or after `from` where the pattern matches, with
      its captures: what an unanchored `Regex::captures` reports. */
  function Search(line: string, from: nat): (r: Option<(nat, Captures)>)
    requires from <= |line|
    ensures r.Some? ==> from <= r.value.0 < |line| && MatchAt(line, r.value.0) == Some(r.value.1)
  {
    First(Matcher(line), from, |line|)
  }

  /** No match starts before the one Search reports, and when it reports
      none, no start position matches at all. */
  lemma {:induction false} SearchLeftmost(line: string, from: nat, k: nat)
    requires from <= k < |line|
    requires Search(line, from).Some? ==> k < Search(line, from).value.0
    ensures MatchAt(line, k).None?
  {
    FirstLeftmost(Matcher(line), from, |line|, k);
    assert Matcher(line)(k) == MatchAt(line, k);
  }

  /** Search reports the first start that matches. */
  lemma {:induction false} SearchFinds(line: string, from: nat, s: nat)
    requires from <= s < |line| && MatchAt(line, s).Some?
    requires forall k :: from <= k < s ==> MatchAt(line, k).None?
    ensures Search(line, from) == Some((s, MatchAt(line, s).value))
  {
    var f := Matcher(line);
    assert forall k :: from <= k < s ==> f(k) == MatchAt(line, k);
    FirstFinds(f, from, |line|, s);
  }

  /** Search finds nothing when no start position matches. */
  lemma {:induction false} SearchFindsNothing(line: string, from: nat)
    requires from <= |line|
    requires forall k :: from <= k < |line| ==> MatchAt(line, k).None?
    ensures Search(line, from).None?
  {
    var f := Matcher(line);
    assert forall k :: from <= k < |line| ==> f(k) == MatchAt(line, k);
    FirstFindsNothing(f, from, |line|);
  }

  /** `rest` cannot lengthen the last run of a match that ends just before it:
      the directory (or the version, when there is one) stops there and no
      `##<alnum>` group can begin. */
  predicate StopsBefore(version: Option<string>, rest: string) {
    if version.Some? then rest == [] || !IsAlnum(rest[0])
    else rest == [] || (!IsNameChar(rest[0]) && !(|rest| >= 3 && rest[0] == '#' && rest[1] == '#' && IsAlnum(rest[2])))
  }

  /** The pattern recognises the text of any well-formed match, whatever
      follows it as long as that cannot extend the match. */
  lemma MatchPrefixOfText(c: Captures, rest: string)
    requires WellFormed(c) && c.end == |MatchedText(c)|
    requires StopsBefore(c.version, rest)
    ensures MatchPrefix(MatchedText(c) + rest) == Some(c)
  {
    NestedText(c, rest);
    PrefixChain(MatchedText(c) + rest, c, rest);
    MatchedTextLength(c);
  }

  lemma PrefixChain(t: string, c: Captures, rest: string)
    requires WellFormed(c) && StopsBefore(c.version, rest)
    requires t == c.path + ([':'] + (c.status + ([':'] + (c.sessions + ([':'] + (c.directory + (VersionSuffix(c.version) + rest)))))))
    ensures MatchPrefix(t) == Some(Captures(c.path, c.status, c.sessions, c.directory, c.version,
           |c.path| + 9 + |c.sessions| + 1 + |c.directory| + |VersionSuffix(c.version)|))
  {
    var u := [':'] + (c.status + ([':'] + (c.sessions + ([':'] + (c.directory + (VersionSuffix(c.version) + rest))))));
    ReadPath(t, c.path, u);
    MatchPrefixIs(t, c.path, u);
    StatusChain(c, rest);
  }

  lemma StatusChain(c: Captures, rest: string)
    requires WellFormed(c) && StopsBefore(c.version, rest)
    ensures MatchStatus(c.path, [':'] + (c.status + ([':'] + (c.sessions + ([':'] + (c.directory + (VersionSuffix(c.version) + rest)))))))
      == Some(Captures(c.path, c.status, c.sessions, c.directory, c.version,
           |c.path| + 9 + |c.sessions| + 1 + |c.directory| + |VersionSuffix(c.version)|))
  {
    var after := c.directory + (VersionSuffix(c.version) + rest);
    StatusOf(c.path, c.status, c.sessions + ([':'] + after));
    SessionsLayout(c.sessions, after);
    SessionsChain(c, rest, c.sessions + ([':'] + after));
  }

  /** Reading `sessions:` from a text `u` laid out as the session digits, a ':'
      and the directory with its version. */
  lemma {:induction false} SessionsChain(c: Captures, rest: string, u: string)
    requires WellFormed(c) && StopsBefore(c.version, rest)
    requires |c.sessions| < |u| && u[..|c.sessions|] == c.sessions && u[|c.sessions|] == ':'
    requires u[|c.sessions| + 1..] == c.directory + (VersionSuffix(c.version) + rest)
    ensures MatchSessions(c.path, c.status, u)
      == Some(Captures(c.path, c.status, c.sessions, c.directory, c.version,
           |c.path| + 9 + |c.sessions| + 1 + |c.directory| + |VersionSuffix(c.version)|))
  {
    var m := |c.sessions|;
    assert u[0..m] == c.sessions;
    RunEndUnique(u, 0, m, Digits);
    MatchSessionsIs(c.path, c.status, u, m);
    DirectoryOf(c, rest, u[m + 1..]);
  }

  /** Where the pieces of `sessions + ":" + after` sit. */
  lemma {:induction false} SessionsLayout(sessions: string, after: string)
    ensures var u := sessions + ([':'] + after);
      |sessions| < |u| && u[..|sessions|] == sessions && u[|sessions|] == ':' && u[|sessions| + 1..] == after
  {
    var u := sessions + ([':'] + after);
    ReadPiece(u, 0, sessions, [':'] + after);
    ReadPiece(u, |sessions|, [':'], after);
  }

  lemma MatchedTextLength(c: Captures)
    requires IsStatus(c.status)
    ensures |MatchedText(c)| == |c.path| + 9 + |c.sessions| + 1 + |c.directory| + |VersionSuffix(c.version)|
  {
    assert |c.status| == 7;
  }

  /** Once the path is read, what follows it goes to MatchStatus. */
  lemma MatchPrefixIs(t: string, path: string, after: string)
    requires |path| >= 1 && path[0] == '/' && All(path[1..], NameChars)
    requires |path| <= |t| && t[0] == '/' && RunEnd(t, 1, NameChars) == |path|
    requires t[..|path|] == path && t[|path|..] == after
    ensures MatchPrefix(t) == MatchStatus(path, after)
  {
  }

  /** Reading `:status:` after the path. */
  lemma StatusOf(path: string, status: string, after: string)
    requires |path| >= 1 && path[0] == '/' && All(path[1..], NameChars) && IsStatus(status)
    ensures MatchStatus(path, [':'] + (status + ([':'] + after))) == MatchSessions(path, status, after)
  {
    var u := [':'] + (status + ([':'] + after));
    assert |status| == 7;
    ReadPiece(u, 0, [':'], status + ([':'] + after));
    ReadPiece(u, 1, status, [':'] + after);
    ReadPiece(u, 8, [':'], after);
    assert u[1..8] == status && u[9..] == after;
    MatchStatusIs(path, u);
  }

  /** MatchStatus passes the status word and what follows its ':' on to MatchSessions. */
  lemma {:induction false} MatchStatusIs(path: string, u: string)
    requires |path| >= 1 && path[0] == '/' && All(path[1..], NameChars)
    requires |u| >= 9 && u[0] == ':' && IsStatus(u[1..8]) && u[8] == ':'
    ensures MatchStatus(path, u) == MatchSessions(path, u[1..8], u[9..])
  {
  }

  /** MatchSessions hands a digit run that ends at a ':' on to MatchDirectory. */
  lemma {:induction false} MatchSessionsIs(path: string, status: string, u: string, m: nat)
    requires |path| >= 1 && path[0] == '/' && All(path[1..], NameChars) && IsStatus(status)
    requires 0 < m < |u| && RunEnd(u, 0, Digits) == m && u[m] == ':'
    ensures All(u[..m], Digits)
    ensures MatchSessions(path, status, u) == MatchDirectory(path, status, u[..m], u[m + 1..])
  {
    RunEndMaximal(u, 0, Digits);
  }

  /** Reading the directory and the optional version from `u`, the text after
      the sessions' ':'. */
  lemma {:induction false} DirectoryOf(c: Captures, rest: string, u: string)
    requires WellFormed(c) && StopsBefore(c.version, rest)
    requires u == c.directory + (VersionSuffix(c.version) + rest)
    ensures MatchDirectory(c.path, c.status, c.sessions, u)
      == Some(Captures(c.path, c.status, c.sessions, c.directory, c.version,
           |c.path| + 9 + |c.sessions| + 1 + |c.directory| + |VersionSuffix(c.version)|))
  {
    var after := VersionSuffix(c.version) + rest;
    assert after == [] || !IsNameChar(after[0]) by {
      if c.version.Some? { assert after[0] == '#'; }
    }
    ReadRun(u, 0, c.directory, after, NameChars);
    VersionOf(c.version, rest);
  }

  /** The optional version group reads back the version that was written. */
  lemma VersionOf(version: Option<string>, rest: string)
    requires version.Some? ==> |version.value| >= 1 && All(version.value, AlnumChars)
    requires StopsBefore(version, rest)
    ensures VersionPrefix(VersionSuffix(version) + rest) == version
  {
    var u := VersionSuffix(version) + rest;
    if version.Some? {
      var v := version.value;
      assert u == "##" + (v + rest);
      ReadPiece(u, 0, "##", v + rest);
      ReadRun(u, 2, v, rest, AlnumChars);
    } else if |u| >= 2 && u[0] == '#' && u[1] == '#' {
      assert u == rest;
      assert RunEnd(u, 2, AlnumChars) == 2;
    }
  }

  /** The text of a match followed by `rest`, grouped from the right. */
  lemma NestedText(c: Captures, rest: string)
    ensures MatchedText(c) + rest == c.path + ([':'] + (c.status + ([':'] + (c.sessions + ([':'] +
      (c.directory + (VersionSuffix(c.version) + rest)))))))
  {
    var a := c.directory + (VersionSuffix(c.version) + rest);
    var b := c.sessions + ([':'] + a);
    var d := c.status + ([':'] + b);
    calc {
      MatchedText(c) + rest;
      (c.path + ":" + c.status + ":" + c.sessions + ":" + c.directory) + (VersionSuffix(c.version) + rest);
      (c.path + ":" + c.status + ":" + c.sessions + ":") + a;
      (c.path + ":" + c.status + ":" + c.sessions) + ([':'] + a);
      (c.path + ":" + c.status + ":") + b;
      (c.path + ":" + c.status) + ([':'] + b);
      (c.path + ":") + d;
      c.path + ([':'] + d);
    }
  }

  /** Reading a path back from the front of `t`: its run stops at the ':' after it. */
  lemma ReadPath(t: string, path: string, after: string)
    requires t == path + after && |after| >= 1 && after[0] == ':'
    requires |path| >= 1 && path[0] == '/' && All(path[1..], NameChars)
    ensures |path| <= |t| && t[0] == '/' && RunEnd(t, 1, NameChars) == |path|
    ensures t[..|path|] == path && t[|path|..] == after
  {
    assert t == [path[0]] + (path[1..] + after) by {
      assert path == [path[0]] + path[1..];
    }
    ReadPiece(t, 0, [path[0]], path[1..] + after);
    ReadRun(t, 1, path[1..], after, NameChars);
    ReadPiece(t, 0, path, after);
  }
}
