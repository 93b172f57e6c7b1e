/** Character classes, maximal runs and decimal numerals: the building blocks
    of the hand-written grammar for the Manager's list lines. */
module Text {

  /** The largest value of a Rust `u32`. */
  const U32_MAX: nat := 0xFFFF_FFFF

  predicate IsDigit(c: char) { '0' <= c <= '9' }

  predicate IsAlnum(c: char) { 'a' <= c <= 'z' || 'A' <= c <= 'Z' || IsDigit(c) }

  /** The class `[a-zA-Z0-9-_%]` used for context paths and directories. */
  predicate IsNameChar(c: char) { IsAlnum(c) || c == '-' || c == '_' || c == '%' }

  /** The three character classes of the list-line pattern. */
  datatype CharClass = NameChars | Digits | AlnumChars

  predicate InClass(cls: CharClass, c: char) {
    match cls
    case NameChars => IsNameChar(c)
    case Digits => IsDigit(c)
    case AlnumChars => IsAlnum(c)
  }

  /** Every character of `s` belongs to `cls`. */
  predicate All(s: string, cls: CharClass) { forall k :: 0 <= k < |s| ==> InClass(cls, s[k]) }

  /** End of the longest run of characters of class `cls` that starts at `i`
      (the greedy `[cls]*` of a regular expression). */
  function RunEnd(s: string, i: nat, cls: CharClass): (j: nat)
    requires i <= |s|
    ensures i <= j <= |s|
    decreases |s| - i
  {
    if i == |s| || !InClass(cls, s[i]) then i else RunEnd(s, i + 1, cls)
  }

  /** The run RunEnd finds is all of class `cls`, and cannot be extended. */
  lemma {:induction false} RunEndMaximal(s: string, i: nat, cls: CharClass)
    requires i <= |s|
    ensures All(s[i..RunEnd(s, i, cls)], cls)
    ensures RunEnd(s, i, cls) == |s| || !InClass(cls, s[RunEnd(s, i, cls)])
    decreases |s| - i
  {
    if i < |s| && InClass(cls, s[i]) {
      RunEndMaximal(s, i + 1, cls);
      assert s[i..RunEnd(s, i, cls)] == [s[i]] + s[i + 1..RunEnd(s, i, cls)];
    }
  }

  /** A run is determined by where it starts: any maximal run from `i` ends where RunEnd says. */
  lemma {:induction false} RunEndUnique(s: string, i: nat, j: nat, cls: CharClass)
    requires i <= j <= |s|
    requires All(s[i..j], cls)
    requires j == |s| || !InClass(cls, s[j])
    ensures RunEnd(s, i, cls) == j
    decreases j - i
  {
    if i < j {
      assert InClass(cls, s[i..j][0]);
      assert s[i + 1..j] == s[i..j][1..];
      RunEndUnique(s, i + 1, j, cls);
    }
  }

  /** Dropping the first part of a three-part concatenation leaves the other two. */
  lemma DropFirst(a: string, b: string, c: string)
    ensures (a + b + c)[|a|..] == b + c
    ensures forall k :: 0 <= k < |a| ==> (a + b + c)[k] == a[k]
  {
    assert a + b + c == a + (b + c);
  }

  /** Reading a known piece at position `i`: it sits there, and `after` follows it. */
  lemma ReadPiece(t: string, i: nat, piece: string, after: string)
    requires i <= |t| && t[i..] == piece + after
    ensures i + |piece| <= |t| && t[i..i + |piece|] == piece && t[i + |piece|..] == after
    ensures |piece| >= 1 ==> t[i] == piece[0]
  {
    assert |piece| >= 1 ==> t[i] == t[i..][0];
    assert t[i + |piece|..] == t[i..][|piece|..];
  }

  /** A sequence is its prefix followed by the rest. */
  lemma TakeDrop(t: string, i: nat)
    requires i <= |t|
    ensures t == t[..i] + t[i..]
  {
  }

  /** The suffix from `i` is its first character followed by the suffix from `i + 1`. */
  lemma Unfold(t: string, i: nat)
    requires i < |t|
    ensures t[i..] == [t[i]] + t[i + 1..]
  {
    assert t[i..][1..] == t[i + 1..];
  }

  /** A prefix is what taking its length gives. */
  lemma PrefixTake(a: string, t: string)
    requires a <= t
    ensures t[..|a|] == a
  {
  }

  /** A prefix stays a prefix behind a common head. */
  lemma PrefixJoin(head: string, a: string, u: string)
    requires a <= u
    ensures head + a <= head + u
  {
    assert (head + u)[..|head + a|] == head + a;
  }

  /** A run of class `cls` written at `i` is read back whole when what follows
      it cannot continue it. */
  lemma ReadRun(t: string, i: nat, run: string, after: string, cls: CharClass)
    requires i <= |t| && t[i..] == run + after && All(run, cls)
    requires after == [] || !InClass(cls, after[0])
    ensures RunEnd(t, i, cls) == i + |run| && t[i..i + |run|] == run && t[i + |run|..] == after
  {
    ReadPiece(t, i, run, after);
    assert |after| >= 1 ==> t[i + |run|] == after[0] by {
      if |after| >= 1 { ReadPiece(t, i + |run|, after, []); }
    }
    RunEndUnique(t, i, i + |run|, cls);
  }

  function DigitValue(c: char): (d: nat)
    requires IsDigit(c)
    ensures d < 10
  {
    c as int - '0' as int
  }

  function DigitChar(d: nat): (c: char)
    requires d < 10
    ensures IsDigit(c) && DigitValue(c) == d
  {
    ('0' as int + d) as char
  }

  /** The value of a decimal numeral, read left to right as `str::parse` does. */
  function DecimalValue(ds: string): nat
    requires All(ds, Digits)
  {
    if ds == [] then 0 else DecimalValue(ds[..|ds| - 1]) * 10 + DigitValue(ds[|ds| - 1])
  }

  /** The shortest decimal numeral of `n`, as `Display` prints a `u32`. */
  function DecimalString(n: nat): (ds: string)
    ensures |ds| > 0 && All(ds, Digits)
    ensures |ds| > 1 ==> ds[0] != '0'
  {
    if n < 10 then [DigitChar(n)] else DecimalString(n / 10) + [DigitChar(n % 10)]
  }

  /** Printing a number and parsing it back gives the number. */
  lemma {:induction false} DecimalRoundTrip(n: nat)
    ensures DecimalValue(DecimalString(n)) == n
  {
    if n >= 10 {
      var ds := DecimalString(n);
      assert ds[..|ds| - 1] == DecimalString(n / 10);
      DecimalRoundTrip(n / 10);
    }
  }

  /** Leading zeros do not change a numeral's value. */
  lemma {:induction false} LeadingZeros(z: nat, ds: string)
    requires All(ds, Digits)
    ensures All(seq(z, _ => '0') + ds, Digits)
    ensures DecimalValue(seq(z, _ => '0') + ds) == DecimalValue(ds)
    decreases |ds|
  {
    var zs := seq(z, _ => '0');
    assert All(zs + ds, Digits);
    if ds == [] {
      assert zs + ds == zs;
      ZerosValue(z);
    } else {
      assert (zs + ds)[..|zs + ds| - 1] == zs + ds[..|ds| - 1];
      LeadingZeros(z, ds[..|ds| - 1]);
    }
  }

  lemma {:induction false} ZerosValue(z: nat)
    ensures All(seq(z, _ => '0'), Digits)
    ensures DecimalValue(seq(z, _ => '0')) == 0
  {
    if z > 0 {
      assert seq(z, _ => '0')[..z - 1] == seq(z - 1, _ => '0');
      ZerosValue(z - 1);
    }
  }
}
