/** Splitting a body on the pattern `(\r\n)|(\r)`: the alternation tries
    "\r\n" first, so a CR LF pair is one separator, a lone CR is another, and
    a bare LF is ordinary text. */
module NewlineSplit {

  const CR: char := '\r'
  const LF: char := '\n'

  /** The pieces between separators, as `Regex::split` yields them. */
  function Split(s: string): (pieces: seq<string>)
    ensures |pieces| >= 1
    ensures forall k :: 0 <= k < |pieces| ==> CR !in pieces[k]
    decreases |s|
  {
    if s == [] then [[]]
    else if s[0] == CR then
      if |s| >= 2 && s[1] == LF then [[]] + Split(s[2..]) else [[]] + Split(s[1..])
    else
      var rest := Split(s[1..]);
      [[s[0]] + rest[0]] + rest[1..]
  }

  /** Text without a CR is a single piece, even when it holds LF characters. */
  lemma {:induction false} SplitNoSeparator(a: string)
    requires CR !in a
    ensures Split(a) == [a]
    decreases |a|
  {
    if a != [] {
      assert CR !in a[1..] by { assert forall k :: 0 <= k < |a| - 1 ==> a[1..][k] == a[k + 1]; }
      SplitNoSeparator(a[1..]);
      assert [a[0]] + a[1..] == a;
    }
  }

  /** A CR LF pair ends the first piece and is consumed as one separator. */
  lemma {:induction false} SplitCrLf(a: string, b: string)
    requires CR !in a
    ensures Split(a + [CR, LF] + b) == [a] + Split(b)
    decreases |a|
  {
    var s := a + [CR, LF] + b;
    if a == [] {
      assert s[2..] == b;
    } else {
      assert s[1..] == a[1..] + [CR, LF] + b;
      assert CR !in a[1..] by { assert forall k :: 0 <= k < |a| - 1 ==> a[1..][k] == a[k + 1]; }
      SplitCrLf(a[1..], b);
      assert [a[0]] + a[1..] == a;
    }
  }

  /** A CR not followed by LF is a separator on its own. */
  lemma {:induction false} SplitLoneCr(a: string, b: string)
    requires CR !in a
    requires b == [] || b[0] != LF
    ensures Split(a + [CR] + b) == [a] + Split(b)
    decreases |a|
  {
    var s := a + [CR] + b;
    if a == [] {
      assert s[1..] == b;
    } else {
      assert s[1..] == a[1..] + [CR] + b;
      assert CR !in a[1..] by { assert forall k :: 0 <= k < |a| - 1 ==> a[1..][k] == a[k + 1]; }
      SplitLoneCr(a[1..], b);
      assert [a[0]] + a[1..] == a;
    }
  }
}
