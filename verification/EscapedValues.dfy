/** What becomes of a value that the libconfig writer escapes and the reader does not unescape. */
module EscapedValues {
  import opened Text
  import opened Iteration
  import opened ConfigStore
  import opened ConfigFormat

  /** Any value the store can hold, but for line breaks. */
  predicate LibValue(v: string) {
    |v| < KEY_VALUE_LEN && NoneOf(v, {'\n'})
  }

  const ESCAPED: set<char> := {'"', '\\'}

  predicate IsClean(v: string) {
    NoneOf(v, ESCAPED)
  }

  /** What is left of the escaped value in the buffer. */
  function Cut(v: string): string {
    Truncate(Escape(v), KEY_VALUE_LEN)
  }

  /** What a value becomes by one save and load. */
  function Back(v: string): string {
    ReadBool(Cut(v))
  }

  lemma {:induction false} EscapeClean(v: string)
    requires IsClean(v)
    ensures Escape(v) == v
  {
    if v != "" {
      EscapeClean(v[..|v| - 1]);
      assert v == v[..|v| - 1] + [v[|v| - 1]];
    }
  }

  lemma {:induction false} EscapeLonger(v: string)
    ensures |Escape(v)| >= |v|
    ensures !IsClean(v) ==> |Escape(v)| > |v|
  {
    if v != "" {
      var init := v[..|v| - 1];
      EscapeLonger(init);
      if !IsClean(v) && IsClean(init) { assert v[|v| - 1] in ESCAPED; }
    }
  }

  lemma {:induction false} EscapeOneLine(v: string)
    requires NoneOf(v, {'\n'})
    ensures NoneOf(Escape(v), {'\n'})
  {
    if v != "" { EscapeOneLine(v[..|v| - 1]); }
  }

  lemma BackIsValue(v: string)
    requires LibValue(v)
    ensures LibValue(Back(v)) && (Back(v) == "" <==> v == "")
  {
    EscapeOneLine(v);
    EscapeLonger(v);
  }

  // ----- runs of backslashes --------------------------------------------------------------------

  function Slashes(n: nat): (s: string)
    ensures |s| == n
  {
    seq(n, _ => '\\')
  }

  lemma {:induction false} EscapeOfTwo(a: string, b: string)
    ensures Escape(a + b) == Escape(a) + Escape(b)
    decreases |b|
  {
    if b == "" {
      Nil(a);
      Nil(Escape(a));
    } else {
      var init, c := b[..|b| - 1], b[|b| - 1];
      assert (a + b)[..|a + b| - 1] == a + init;
      EscapeOfTwo(a, init);
      Assoc(Escape(a), Escape(init), EscapeChar(c));
    }
  }

  lemma {:induction false} EscapeSlashes(n: nat)
    ensures Escape(Slashes(n)) == Slashes(2 * n)
  {
    if n > 0 {
      EscapeSlashes(n - 1);
      assert Slashes(n)[..n - 1] == Slashes(n - 1);
      assert Slashes(2 * n) == Slashes(2 * (n - 1)) + ['\\', '\\'];
    }
  }

  /** The first quote or backslash, or the length. */
  function FirstEscaped(v: string): (p: nat)
    ensures p <= |v|
  {
    if v == "" || v[0] in ESCAPED then 0 else 1 + FirstEscaped(v[1..])
  }

  lemma {:induction false} FirstEscapedIs(v: string)
    ensures IsClean(v[..FirstEscaped(v)])
    ensures IsClean(v) <==> FirstEscaped(v) == |v|
    ensures FirstEscaped(v) < |v| ==> v[FirstEscaped(v)] in ESCAPED
  {
    if v != "" && v[0] !in ESCAPED {
      var p := FirstEscaped(v[1..]);
      FirstEscapedIs(v[1..]);
      forall i | 0 <= i < p + 1 ensures v[i] !in ESCAPED { if i > 0 { assert v[i] == v[1..][..p][i - 1]; } }
    }
  }

  /** A clean part and k backslashes come first. */
  predicate Starts(v: string, c: string, k: nat) {
    c + Slashes(k) <= v
  }

  lemma EscapeStarts(v: string, c: string, k: nat)
    requires Starts(v, c, k) && IsClean(c)
    ensures Starts(Escape(v), c, 2 * k)
  {
    var rest := v[|c| + k..];
    assert v == c + Slashes(k) + rest;
    EscapeOfTwo(c + Slashes(k), rest);
    EscapeOfTwo(c, Slashes(k));
    EscapeClean(c);
    EscapeSlashes(k);
  }

  lemma StartsLess(v: string, c: string, k: nat, m: nat)
    requires Starts(v, c, k) && m <= k
    ensures Starts(v, c, m)
  {
    assert Slashes(k) == Slashes(m) + Slashes(k - m);
    Assoc(c, Slashes(m), Slashes(k - m));
  }

  lemma CutStarts(v: string, c: string, k: nat)
    requires Starts(v, c, k) && |c| + k < KEY_VALUE_LEN
    ensures Starts(Truncate(v, KEY_VALUE_LEN), c, k)
  {
  }

  lemma EscapeOne(c: char)
    ensures Escape([c]) == EscapeChar(c)
  {
    assert [c][..0] == "" && Escape("") == "";
    Nil(EscapeChar(c));
  }

  lemma OpensWithSlash(c: string, e: string, rest: string)
    requires e != "" && e[0] == '\\'
    ensures Starts(c + e + rest, c, 1)
  {
    assert Slashes(1) == [e[0]];
    assert e == [e[0]] + e[1..];
    assert c + e + rest == c + [e[0]] + (e[1..] + rest);
  }

  lemma EscapeAround(c: string, x: char, rest: string)
    requires IsClean(c)
    ensures Escape(c + [x] + rest) == c + EscapeChar(x) + Escape(rest)
  {
    EscapeOfTwo(c + [x], rest);
    EscapeOfTwo(c, [x]);
    EscapeClean(c);
    EscapeOne(x);
  }

  lemma EscapeAt(v: string, p: nat)
    requires p < |v| && IsClean(v[..p]) && v[p] in ESCAPED
    ensures Starts(Escape(v), v[..p], 1)
  {
    var c, x, rest := v[..p], v[p], v[p + 1..];
    assert v == c + [x] + rest;
    EscapeAround(c, x, rest);
    OpensWithSlash(c, ['\\', x], Escape(rest));
  }

  /** The first escaped character brings a backslash with it. */
  lemma EscapeOpens(v: string)
    requires !IsClean(v)
    ensures Starts(Escape(v), v[..FirstEscaped(v)], 1)
  {
    FirstEscapedIs(v);
    EscapeAt(v, FirstEscaped(v));
  }

  // ----- which values come back -----------------------------------------------------------------

  /** From its first quote or backslash on, nothing but backslashes. */
  predicate EndsInSlashes(v: string) {
    v == v[..FirstEscaped(v)] + Slashes(|v| - FirstEscaped(v))
  }

  lemma StartsInPrefix(v: string, e: string, c: string, k: nat)
    requires v <= e && Starts(e, c, k) && |c| + k <= |v|
    ensures Starts(v, c, k)
  {
    assert e[..|c| + k] == v[..|c| + k];
  }

  /** Agreeing with the escaped value, character by character, means backslashes from the first one on. */
  lemma {:induction false} AgreesBySlashes(v: string, k: nat)
    requires !IsClean(v) && |v| < |Escape(v)| && Escape(v)[..|v|] == v && FirstEscaped(v) + k <= |v|
    ensures Starts(v, v[..FirstEscaped(v)], k)
  {
    var p := FirstEscaped(v);
    var c := v[..p];
    FirstEscapedIs(v);
    if k > 0 {
      AgreesBySlashes(v, k - 1);
      EscapeOpens(v);
      EscapeStarts(v, c, k - 1);
      var more := if k == 1 then 1 else 2 * (k - 1);
      StartsLess(Escape(v), c, more, k);
      StartsInPrefix(v, Escape(v), c, k);
    }
  }

  /** A value is read back as it was written exactly when there is nothing to escape in it, or when it
      fills its buffer and ends in backslashes only, so that all the added ones are cut off. */
  lemma ComesBackIff(v: string)
    requires |v| < KEY_VALUE_LEN
    ensures Cut(v) == v <==> IsClean(v) || (|v| == KEY_VALUE_LEN - 1 && EndsInSlashes(v))
  {
    var p := FirstEscaped(v);
    FirstEscapedIs(v);
    EscapeLonger(v);
    if IsClean(v) {
      EscapeClean(v);
    } else if |v| == KEY_VALUE_LEN - 1 && EndsInSlashes(v) {
      EscapeStarts(v, v[..p], |v| - p);
      StartsLess(Escape(v), v[..p], 2 * (|v| - p), |v| - p);
    } else if Cut(v) == v {
      AgreesBySlashes(v, |v| - p);
    }
  }

  lemma NotABool(v: string, c: string, k: nat)
    requires Starts(v, c, k) && k > 0
    ensures ReadBool(v) == v
  {
    assert v[|c|] == (c + Slashes(k))[|c|] == '\\';
  }

  lemma CutIsNoBool(v: string)
    requires |v| < KEY_VALUE_LEN && !IsClean(v)
    ensures ReadBool(Cut(v)) == Cut(v)
  {
    var c := v[..FirstEscaped(v)];
    FirstEscapedIs(v);
    EscapeOpens(v);
    CutStarts(Escape(v), c, 1);
    NotABool(Cut(v), c, 1);
  }

  /** The same for a whole save and load, which also reads the two booleans as numbers. */
  lemma BackIff(v: string)
    requires |v| < KEY_VALUE_LEN
    ensures Back(v) == v <==>
            v != "true" && v != "false" && (IsClean(v) || (|v| == KEY_VALUE_LEN - 1 && EndsInSlashes(v)))
  {
    ComesBackIff(v);
    if IsClean(v) {
      EscapeClean(v);
    } else {
      CutIsNoBool(v);
      assert IsClean("true") && IsClean("false");
    }
  }

  /** Both ends of it: one backslash becomes two, 255 stay 255. */
  lemma BackslashesComeBackWhenFull()
    ensures Back("\\") == "\\\\" && Back(Slashes(KEY_VALUE_LEN - 1)) == Slashes(KEY_VALUE_LEN - 1)
  {
    EscapeOne('\\');
    var v := Slashes(KEY_VALUE_LEN - 1);
    ComesBackIff(v);
    assert v[0] in ESCAPED;
    assert FirstEscaped(v) == 0;
    assert v[..0] + v == v;
  }

  // ----- over and over --------------------------------------------------------------------------

  /** At least how many backslashes follow the clean part after n cycles. */
  function RunAfter(n: nat): (k: nat)
    ensures k > 0
  {
    if n <= 1 then 1 else if 2 * RunAfter(n - 1) < KEY_VALUE_LEN then 2 * RunAfter(n - 1) else KEY_VALUE_LEN - 1
  }

  function Least(a: int, b: int): int {
    if a <= b then a else b
  }

  lemma RunDoubles(v: string, c: string, k: nat)
    requires LibValue(v) && IsClean(c) && k > 0 && Starts(v, c, k)
    ensures Starts(Back(v), c, Least(2 * k, KEY_VALUE_LEN - 1 - |c|))
  {
    var m := Least(2 * k, KEY_VALUE_LEN - 1 - |c|);
    EscapeStarts(v, c, k);
    StartsLess(Escape(v), c, 2 * k, m);
    CutStarts(Escape(v), c, m);
    NotABool(Cut(v), c, m);
  }

  lemma RunStarts(v: string)
    requires LibValue(v) && !IsClean(v)
    ensures Starts(Back(v), v[..FirstEscaped(v)], 1)
  {
    var c := v[..FirstEscaped(v)];
    FirstEscapedIs(v);
    EscapeOpens(v);
    CutStarts(Escape(v), c, 1);
    CutIsNoBool(v);
  }

  lemma GrowStep(w: string, c: string, n: nat)
    requires LibValue(w) && IsClean(c) && |c| < KEY_VALUE_LEN - 1 && n > 1
    requires Starts(w, c, Least(RunAfter(n - 1), KEY_VALUE_LEN - 1 - |c|))
    ensures Starts(Back(w), c, Least(RunAfter(n), KEY_VALUE_LEN - 1 - |c|))
  {
    var k, room := Least(RunAfter(n - 1), KEY_VALUE_LEN - 1 - |c|), KEY_VALUE_LEN - 1 - |c|;
    RunDoubles(w, c, k);
    StartsLess(Back(w), c, Least(2 * k, room), Least(RunAfter(n), room));
  }

  lemma {:induction false} RunGrows(v: string, n: nat)
    requires LibValue(v) && !IsClean(v) && n > 0
    ensures LibValue(Iterate(Back, n, v))
    ensures Starts(Iterate(Back, n, v), v[..FirstEscaped(v)], Least(RunAfter(n), KEY_VALUE_LEN - 1 - FirstEscaped(v)))
  {
    IterateLast(Back, n - 1, v);
    if n == 1 {
      BackIsValue(v);
      RunStarts(v);
    } else {
      RunGrows(v, n - 1);
      BackIsValue(Iterate(Back, n - 1, v));
      FirstEscapedIs(v);
      GrowStep(Iterate(Back, n - 1, v), v[..FirstEscaped(v)], n);
    }
  }

  /** What a value ends as: itself when there is nothing to escape, and otherwise its clean part filled up
      with backslashes. */
  function Settled(v: string): string {
    if IsClean(v) then ReadBool(v)
    else Truncate(v[..FirstEscaped(v)] + Slashes(KEY_VALUE_LEN - 1), KEY_VALUE_LEN)
  }

  const SETTLES: nat := 9

  lemma {:induction false} RunIsFull(n: nat)
    requires n >= SETTLES
    ensures RunAfter(n) == KEY_VALUE_LEN - 1
  {
    if n == SETTLES {
      assert RunAfter(1) == 1 && RunAfter(2) == 2 && RunAfter(3) == 4 && RunAfter(4) == 8 && RunAfter(5) == 16;
      assert RunAfter(6) == 32 && RunAfter(7) == 64 && RunAfter(8) == 128;
    } else {
      RunIsFull(n - 1);
    }
  }

  lemma FullIsSettled(w: string, v: string)
    requires !IsClean(v) && |v| < KEY_VALUE_LEN && |w| < KEY_VALUE_LEN
    requires Starts(w, v[..FirstEscaped(v)], KEY_VALUE_LEN - 1 - FirstEscaped(v))
    ensures w == Settled(v)
  {
    var c := v[..FirstEscaped(v)];
    var k := KEY_VALUE_LEN - 1 - |c|;
    assert w == c + Slashes(k);
    assert Slashes(KEY_VALUE_LEN - 1)[..k] == Slashes(k);
  }

  /** Nine cycles settle every value. */
  lemma ValueSettles(v: string, n: nat)
    requires LibValue(v) && n >= SETTLES
    ensures Iterate(Back, n, v) == Settled(v)
  {
    if IsClean(v) {
      CleanSettles(v, n);
    } else {
      RunGrows(v, n);
      RunIsFull(n);
      FirstEscapedIs(v);
      FullIsSettled(Iterate(Back, n, v), v);
    }
  }

  /** A value without quotes and backslashes is settled after the first. */
  lemma CleanSettles(v: string, n: nat)
    requires LibValue(v) && IsClean(v) && n > 0
    ensures Iterate(Back, n, v) == ReadBool(v)
  {
    EscapeClean(v);
    EscapeClean(ReadBool(v));
    FixedPoint(Back, n - 1, ReadBool(v));
  }
}
