/** Option values and the C string routines the models share.
    A C string is modelled by the sequence of characters before its NUL, so a read of the
    terminator is a test for the end of the sequence. */
module Wrappers {
  datatype Option<+T> = None | Some(value: T)
}

module Text {
  type Byte = b: int | 0 <= b < 256

  /** The blank test of src/config.c: space or tab. */
  predicate IsWS(c: char) {
    c == ' ' || c == '\t'
  }

  predicate IsDigit(c: char) {
    '0' <= c <= '9'
  }

  predicate HasChar(s: string, c: char) {
    exists i :: 0 <= i < |s| && s[i] == c
  }

  predicate NoneOf(s: string, bad: set<char>) {
    forall i :: 0 <= i < |s| ==> s[i] !in bad
  }

  predicate StartsWith(s: string, prefix: string) {
    |prefix| <= |s| && s[..|prefix|] == prefix
  }

  /** strchr: the index of the first c, or |s| when there is none. */
  function Find(s: string, c: char): (r: nat)
    ensures r <= |s|
    ensures forall i :: 0 <= i < r ==> s[i] != c
    ensures r < |s| ==> s[r] == c
  {
    FindFrom(s, c, 0)
  }

  function FindFrom(s: string, c: char, from: nat): (r: nat)
    requires from <= |s|
    ensures from <= r <= |s|
    ensures forall i :: from <= i < r ==> s[i] != c
    ensures r < |s| ==> s[r] == c
    decreases |s| - from
  {
    if from == |s| || s[from] == c then from else FindFrom(s, c, from + 1)
  }

  /** Where the text starts once its leading blanks are skipped, and where it ends without the trailing ones. */
  function FirstNonBlank(s: string, from: nat): (r: nat)
    requires from <= |s|
    ensures from <= r <= |s|
    ensures forall i :: from <= i < r ==> IsWS(s[i])
    ensures r < |s| ==> !IsWS(s[r])
    decreases |s| - from
  {
    if from < |s| && IsWS(s[from]) then FirstNonBlank(s, from + 1) else from
  }

  function LastNonBlank(s: string, upTo: nat): (r: nat)
    requires upTo <= |s|
    ensures r <= upTo
    ensures forall i :: r <= i < upTo ==> IsWS(s[i])
    ensures r > 0 ==> !IsWS(s[r - 1])
  {
    if upTo > 0 && IsWS(s[upTo - 1]) then LastNonBlank(s, upTo - 1) else upTo
  }

  function TrimStart(s: string): string {
    s[FirstNonBlank(s, 0)..]
  }

  function TrimEnd(s: string): string {
    s[..LastNonBlank(s, |s|)]
  }

  /** snprintf and strncpy both keep at most size - 1 characters. */
  function Truncate(s: string, size: nat): string
    requires size > 0
  {
    if |s| < size then s else s[..size - 1]
  }

  const LF: char := '\n'

  /** The text with a line feed behind every line. */
  function Joined(lines: seq<string>): string {
    if lines == [] then "" else lines[0] + [LF] + Joined(lines[1..])
  }

  lemma Assoc<T>(a: seq<T>, b: seq<T>, c: seq<T>)
    ensures a + b + c == a + (b + c)
  {
  }

  lemma Nil<T>(s: seq<T>)
    ensures [] + s == s && s + [] == s
  {
  }

  lemma Wrapped<T>(a: T, v: seq<T>, b: T)
    ensures ([a] + v + [b])[1..] == v + [b] && (v + [b])[..|v|] == v
  {
  }

  lemma SliceOfPrefix<T>(s: seq<T>, from: nat, upTo: nat)
    requires from <= upTo <= |s|
    ensures s[..upTo][from..] == s[from..upTo] && s[0..upTo] == s[..upTo]
  {
  }

  lemma FindIs(s: string, c: char, k: nat)
    requires k < |s| && s[k] == c
    requires forall i :: 0 <= i < k ==> s[i] != c
    ensures Find(s, c) == k
  {
  }

  lemma TrimStartIs(s: string, k: nat)
    requires k <= |s|
    requires forall i :: 0 <= i < k ==> IsWS(s[i])
    requires k == |s| || !IsWS(s[k])
    ensures TrimStart(s) == s[k..]
  {
  }

  lemma TrimEndIs(s: string, k: nat)
    requires k <= |s|
    requires forall i :: k <= i < |s| ==> IsWS(s[i])
    requires k == 0 || !IsWS(s[k - 1])
    ensures TrimEnd(s) == s[..k]
  {
  }

  lemma TrimEndAppend(s: string, t: string)
    requires s != "" && !IsWS(s[|s| - 1])
    ensures TrimEnd(s + t) == s + TrimEnd(t)
  {
    var n := |s| + |TrimEnd(t)|;
    forall i | n <= i < |s + t| ensures IsWS((s + t)[i]) { assert (s + t)[i] == t[i - |s|]; }
    TrimEndIs(s + t, n);
  }

  /** The two pointer loops of the source, `while (isWS(*p)) ++p` and `while (isWS(end[-1])) --end`. */
  method SkipBlanks(s: string, from: nat, upTo: nat) returns (p: nat)
    requires from <= upTo <= |s|
    ensures from <= p <= upTo && TrimStart(s[from..upTo]) == s[p..upTo]
  {
    p := from;
    while p < upTo && IsWS(s[p])
      invariant from <= p <= upTo
      invariant forall i :: from <= i < p ==> IsWS(s[i])
    {
      p := p + 1;
    }
    TrimStartIs(s[from..upTo], p - from);
  }

  method BackOverBlanks(s: string, from: nat, upTo: nat) returns (end: nat)
    requires from <= upTo <= |s|
    ensures from <= end <= upTo && TrimEnd(s[from..upTo]) == s[from..end]
  {
    end := upTo;
    while end > from && IsWS(s[end - 1])
      invariant from <= end <= upTo
      invariant forall i :: end <= i < upTo ==> IsWS(s[i])
    {
      end := end - 1;
    }
    TrimEndIs(s[from..upTo], end - from);
  }
}
