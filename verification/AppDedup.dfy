/** The duplicate removal of src/appsupport.c: the pointer-walking comparison of startups and the
    in-place compaction of the list. */
module AppDedup {
  import opened Text

  const ARGV1_MAX: nat := 128

  datatype App = App(title: string, startup: string, argv1: string, legacy: bool)

  // ----- comparing startups ---------------------------------------------------------------------

  predicate IsSep(c: char) {
    c == '/' || c == '\\'
  }

  function Fold(c: char): char {
    if c == '\\' then '/' else if 'A' <= c <= 'Z' then c - 'A' + 'a' else c
  }

  /** What character k adds to the normal form: nothing when it continues a run of separators. */
  function Piece(s: string, k: nat): string
    requires k < |s|
  {
    if IsSep(s[k]) && k > 0 && IsSep(s[k - 1]) then "" else [Fold(s[k])]
  }

  function NormTo(s: string, n: nat): string
    requires n <= |s|
  {
    if n == 0 then "" else NormTo(s, n - 1) + Piece(s, n - 1)
  }

  /** Lower case, one kind of separator, runs collapsed. */
  function Norm(s: string): string {
    NormTo(s, |s|)
  }

  /** The same program; an empty startup is no identity at all. */
  predicate Same(a: string, b: string) {
    a != "" && b != "" && Norm(a) == Norm(b)
  }

  lemma {:induction false} NormGrows(s: string, i: nat, n: nat)
    requires i <= n <= |s|
    ensures NormTo(s, i) <= NormTo(s, n)
    decreases n
  {
    if i < n { NormGrows(s, i, n - 1); }
  }

  lemma NextOf(s: string, i: nat)
    requires i < |s| && Piece(s, i) == [Fold(s[i])]
    ensures |NormTo(s, i)| < |Norm(s)| && Norm(s)[|NormTo(s, i)|] == Fold(s[i])
  {
    NormGrows(s, i + 1, |s|);
    assert NormTo(s, i + 1) == NormTo(s, i) + [Fold(s[i])];
  }

  /** Two walks that agree so far and then see different characters have different normal forms. */
  lemma Mismatch(a: string, b: string, i: nat, j: nat)
    requires i <= |a| && j <= |b| && NormTo(a, i) == NormTo(b, j)
    requires i < |a| ==> Piece(a, i) == [Fold(a[i])]
    requires j < |b| ==> Piece(b, j) == [Fold(b[j])]
    requires i < |a| || j < |b|
    requires i < |a| && j < |b| ==> Fold(a[i]) != Fold(b[j])
    ensures Norm(a) != Norm(b)
  {
    if i < |a| { NextOf(a, i); }
    if j < |b| { NextOf(b, j); }
  }

  method SkipRun(s: string, from: nat) returns (to: nat)
    requires 0 < from <= |s| && IsSep(s[from - 1])
    ensures from <= to <= |s| && (to < |s| ==> !IsSep(s[to]))
    ensures NormTo(s, to) == NormTo(s, from)
  {
    to := from;
    while to < |s| && (s[to] == '/' || s[to] == '\\')
      invariant from <= to <= |s| && IsSep(s[to - 1]) && NormTo(s, to) == NormTo(s, from)
    {
      to := to + 1;
    }
  }

  /** appStartupKeyEqual: the walk compares normal forms. */
  method KeyEqual(a: string, b: string) returns (equal: bool)
    ensures equal == Same(a, b)
  {
    if a == "" || b == "" { return false; }
    var i, j := 0, 0;
    while i < |a| && j < |b|
      invariant i <= |a| && j <= |b| && NormTo(a, i) == NormTo(b, j)
      invariant i < |a| ==> Piece(a, i) == [Fold(a[i])]
      invariant j < |b| ==> Piece(b, j) == [Fold(b[j])]
    {
      var ca, cb := Fold(a[i]), Fold(b[j]);
      if ca != cb {
        Mismatch(a, b, i, j);
        return false;
      }
      i, j := i + 1, j + 1;
      if ca == '/' {
        i := SkipRun(a, i);
        j := SkipRun(b, j);
      }
    }
    if i < |a| || j < |b| { Mismatch(a, b, i, j); }
    equal := i == |a| && j == |b|;
  }

  lemma {:induction false} NormOfPrefix(s: string, t: string, n: nat)
    requires n <= |s|
    ensures NormTo(s + t, n) == NormTo(s, n)
  {
    if n > 0 { NormOfPrefix(s, t, n - 1); }
  }

  /** A trailing separator makes a difference, except after another one. */
  lemma TrailingSeparatorIff(s: string)
    requires s != ""
    ensures Same(s, s + "/") <==> IsSep(s[|s| - 1])
  {
    var t := s + "/";
    NormOfPrefix(s, "/", |s|);
    assert Norm(t) == Norm(s) + Piece(t, |s|);
  }

  // ----- what makes two startups the same, in plain words -----------------------------------------

  predicate Slash(c: char) {
    c == '/' || c == '\\'
  }

  /** The same letter in either case, or two separators of either kind. */
  predicate SameChar(a: char, b: char) {
    || a == b
    || (Slash(a) && Slash(b))
    || ('a' <= a <= 'z' && b as int == a as int - 32)
    || ('a' <= b <= 'z' && a as int == b as int - 32)
  }

  lemma FoldIff(a: char, b: char)
    ensures Fold(a) == Fold(b) <==> SameChar(a, b)
  {
  }

  /** Without the separators that follow another one. */
  function Single(s: string): string {
    if s == "" then ""
    else
      var init, c := s[..|s| - 1], s[|s| - 1];
      Single(init) + if Slash(c) && init != "" && Slash(init[|init| - 1]) then "" else [c]
  }

  predicate SameChars(a: string, b: string) {
    |a| == |b| && forall i :: 0 <= i < |a| ==> SameChar(a[i], b[i])
  }

  /** The normal form folds what is left of single separators. */
  lemma {:induction false} NormIsFolded(s: string)
    ensures |Norm(s)| == |Single(s)| && forall i :: 0 <= i < |Norm(s)| ==> Norm(s)[i] == Fold(Single(s)[i])
  {
    if s != "" {
      var init, c := s[..|s| - 1], [s[|s| - 1]];
      NormIsFolded(init);
      assert s == init + c;
      NormOfPrefix(init, c, |init|);
      assert Norm(s) == Norm(init) + Piece(s, |s| - 1);
    }
  }

  /** Two startups are the same program exactly when they differ in nothing but the case of letters, the kind
      of separators, and how often a separator is repeated. */
  lemma SameIff(a: string, b: string)
    ensures Same(a, b) <==> a != "" && b != "" && SameChars(Single(a), Single(b))
  {
    NormIsFolded(a);
    NormIsFolded(b);
    forall i | 0 <= i < |Single(a)| && i < |Single(b)|
      ensures Fold(Single(a)[i]) == Fold(Single(b)[i]) <==> SameChar(Single(a)[i], Single(b)[i])
    {
      FoldIff(Single(a)[i], Single(b)[i]);
    }
    if SameChars(Single(a), Single(b)) { assert Norm(a) == Norm(b); }
  }

  lemma {:induction false} SingleOfSame(a: string, b: string)
    requires SameChars(a, b)
    ensures SameChars(Single(a), Single(b))
  {
    if a != "" {
      SingleOfSame(a[..|a| - 1], b[..|b| - 1]);
      assert a[..|a| - 1] != "" ==> SameChar(a[|a| - 2], b[|b| - 2]);
    }
  }

  /** So the case of letters and the kind of separators do not matter. */
  lemma CaseAndKindDoNotMatter(a: string, b: string)
    requires a != "" && SameChars(a, b)
    ensures Same(a, b)
  {
    SingleOfSame(a, b);
    SameIff(a, b);
  }

  lemma {:induction false} SingleSplits(s: string, c: char, t: string)
    requires IsSep(c)
    ensures Single(s + [c, c] + t) == Single(s + [c] + t)
    decreases |t|
  {
    if t == "" {
      assert (s + [c, c] + t)[..|s| + 1] == s + [c] == s + [c] + t && s + [c, c] + t == (s + [c]) + [c];
    } else {
      var init := t[..|t| - 1];
      SingleSplits(s, c, init);
      assert (s + [c, c] + t)[..|s + [c, c] + t| - 1] == s + [c, c] + init;
      assert (s + [c] + t)[..|s + [c] + t| - 1] == s + [c] + init;
    }
  }

  /** Nor does a separator that is repeated. */
  lemma RepeatsDoNotMatter(s: string, c: char, t: string)
    requires IsSep(c)
    ensures Same(s + [c, c] + t, s + [c] + t)
  {
    SingleSplits(s, c, t);
    SameIff(s + [c, c] + t, s + [c] + t);
  }

  /** Lower case, slashes only, none of them repeated. */
  predicate IsPlain(s: string) {
    forall i :: 0 <= i < |s| ==>
      !('A' <= s[i] <= 'Z') && s[i] != '\\' && (i > 0 && s[i] == '/' ==> s[i - 1] != '/')
  }

  lemma {:induction false} PlainIsSingle(s: string)
    requires IsPlain(s)
    ensures Single(s) == s
  {
    if s != "" {
      var init, c := s[..|s| - 1], s[|s| - 1];
      assert forall i :: 0 <= i < |init| ==> init[i] == s[i];
      PlainIsSingle(init);
      assert !(Slash(c) && init != "" && Slash(init[|init| - 1]));
      assert s == init + [c];
    }
  }

  lemma PlainChars(a: char, b: char)
    requires !('A' <= a <= 'Z') && a != '\\' && !('A' <= b <= 'Z') && b != '\\'
    ensures SameChar(a, b) <==> a == b
  {
  }

  /** And everything else does: two plain startups are the same only when they are equal. */
  lemma PlainSameIff(a: string, b: string)
    requires IsPlain(a) && IsPlain(b) && a != ""
    ensures Same(a, b) <==> a == b
  {
    SameIff(a, b);
    PlainIsSingle(a);
    PlainIsSingle(b);
    forall i | 0 <= i < |a| && i < |b| ensures SameChar(a[i], b[i]) <==> a[i] == b[i] { PlainChars(a[i], b[i]); }
    if SameChars(a, b) { assert a == b; }
  }

  // ----- the list -------------------------------------------------------------------------------

  /** The first of the first n records that is the same program, or n. */
  function FirstSame(apps: seq<App>, startup: string, n: nat): (r: nat)
    requires n <= |apps|
    ensures r <= n
  {
    if n == 0 then 0
    else
      var r := FirstSame(apps, startup, n - 1);
      if r == n - 1 && !Same(apps[n - 1].startup, startup) then n else r
  }

  lemma {:induction false} FirstIs(apps: seq<App>, startup: string, n: nat)
    requires n <= |apps|
    ensures FirstSame(apps, startup, n) < n ==> Same(apps[FirstSame(apps, startup, n)].startup, startup)
    ensures forall i :: 0 <= i < FirstSame(apps, startup, n) ==> !Same(apps[i].startup, startup)
    decreases n
  {
    if n > 0 { FirstIs(apps, startup, n - 1); }
  }

  function Donated(to: App, from: App): App {
    if to.argv1 == "" then to.(argv1 := Truncate(from.argv1, ARGV1_MAX + 1)) else to
  }

  /** One pass of the loop over what has been kept so far. */
  function Step(kept: seq<App>, app: App): seq<App> {
    var dup := FirstSame(kept, app.startup, |kept|);
    if dup < |kept| && !app.legacy then kept[dup := Donated(kept[dup], app)] else kept + [app]
  }

  function DedupTo(apps: seq<App>, n: nat): seq<App>
    requires n <= |apps|
  {
    if n == 0 then [] else Step(DedupTo(apps, n - 1), apps[n - 1])
  }

  method FindSame(a: array<App>, kept: nat, startup: string) returns (dup: nat)
    requires kept <= a.Length
    ensures dup == FirstSame(a[..], startup, kept)
  {
    dup := 0;
    while dup < kept
      invariant dup <= kept && FirstSame(a[..], startup, dup) == dup
    {
      var equal := KeyEqual(a[dup].startup, startup);
      if equal {
        FirstStays(a[..], startup, dup, kept);
        return;
      }
      dup := dup + 1;
    }
  }

  lemma {:induction false} FirstStays(apps: seq<App>, startup: string, r: nat, n: nat)
    requires r < n <= |apps| && FirstSame(apps, startup, r) == r && Same(apps[r].startup, startup)
    ensures FirstSame(apps, startup, n) == r
  {
    if n > r + 1 { FirstStays(apps, startup, r, n - 1); }
  }

  lemma {:induction false} FirstInPrefix(apps: seq<App>, startup: string, k: nat, n: nat)
    requires k <= n <= |apps|
    ensures FirstSame(apps, startup, k) == FirstSame(apps[..n], startup, k)
  {
    if k > 0 { FirstInPrefix(apps, startup, k - 1, n); }
  }

  /** One pass of the loop: record i is dropped, or moved up behind the kept ones. */
  method DedupStep(a: array<App>, kept: nat, i: nat) returns (kept': nat)
    requires kept <= i < a.Length
    modifies a
    ensures kept' <= i + 1 && a[..kept'] == Step(old(a[..kept]), old(a[i]))
    ensures forall j :: i < j < a.Length ==> a[j] == old(a[j])
  {
    var app := a[i];
    FirstInPrefix(a[..], app.startup, kept, kept);
    assert a[..][..kept] == a[..kept];
    var dup := FindSame(a, kept, app.startup);
    ghost var was := a[..kept];
    if dup < kept && !app.legacy {
      if a[dup].argv1 == "" && app.argv1 != "" {
        a[dup] := a[dup].(argv1 := Truncate(app.argv1, ARGV1_MAX + 1));
      }
      assert a[..kept] == was[dup := Donated(was[dup], app)];
      kept' := kept;
    } else {
      if kept != i { a[kept] := app; }
      assert a[..kept + 1] == was + [app];
      kept' := kept + 1;
    }
  }

  /** appDedupList */
  method DedupList(a: array<App>, itemCount: nat) returns (kept: nat)
    requires itemCount <= a.Length
    modifies a
    ensures kept <= itemCount
    ensures a[..kept] == DedupTo(old(a[..]), itemCount)
  {
    ghost var apps := a[..];
    if itemCount <= 1 {
      assert itemCount == 1 ==> a[..1] == Step([], apps[0]);
      return itemCount;
    }
    kept := 0;
    var i := 0;
    while i < itemCount
      invariant kept <= i <= itemCount && a[..kept] == DedupTo(apps, i)
      invariant forall j :: i <= j < a.Length ==> a[j] == apps[j]
    {
      kept := DedupStep(a, kept, i);
      i := i + 1;
    }
  }

  // ----- what the loop computes -----------------------------------------------------------------

  /** Every legacy record stays, and of the scanned ones the first of its kind. */
  predicate Survives(apps: seq<App>, i: nat)
    requires i < |apps|
  {
    apps[i].legacy || FirstSame(apps, apps[i].startup, i) == i
  }

  /** Record k is dropped in favour of record i. */
  predicate DropsFor(apps: seq<App>, k: nat, i: nat)
    requires i < k < |apps|
  {
    !apps[k].legacy && FirstSame(apps, apps[k].startup, k) == i
  }

  /** The argument of record i once the records up to n have been seen: its own, or else the first one
      a record dropped in its favour had. */
  function Argv(apps: seq<App>, i: nat, n: nat): string
    requires i < n <= |apps|
    decreases n
  {
    if n == i + 1 then apps[i].argv1
    else if Argv(apps, i, n - 1) == "" && DropsFor(apps, n - 1, i) then Truncate(apps[n - 1].argv1, ARGV1_MAX + 1)
    else Argv(apps, i, n - 1)
  }

  /** The survivors among the first m records, in order, as they are after n. */
  function Survivors(apps: seq<App>, m: nat, n: nat): seq<App>
    requires m <= n <= |apps|
  {
    if m == 0 then []
    else Survivors(apps, m - 1, n) + if Survives(apps, m - 1) then [Kept(apps, m - 1, n)] else []
  }

  lemma FirstSurvives(apps: seq<App>, startup: string, n: nat)
    requires n <= |apps| && FirstSame(apps, startup, n) < n
    ensures Survives(apps, FirstSame(apps, startup, n))
  {
    FirstIs(apps, startup, n);
    var f := FirstSame(apps, startup, n);
    FirstIs(apps, apps[f].startup, f);
    var e := FirstSame(apps, apps[f].startup, f);
    assert e < f ==> Same(apps[e].startup, startup);
  }

  lemma FirstInAppended(kept: seq<App>, app: App, startup: string)
    ensures FirstSame(kept + [app], startup, |kept| + 1) ==
            var r := FirstSame(kept, startup, |kept|);
            if r < |kept| || Same(app.startup, startup) then r else r + 1
  {
    assert (kept + [app])[..|kept|] == kept;
    FirstInPrefix(kept + [app], startup, |kept|, |kept|);
  }

  function Kept(apps: seq<App>, i: nat, n: nat): App
    requires i < n <= |apps|
  {
    apps[i].(argv1 := Argv(apps, i, n))
  }

  lemma SurvivorsSkip(apps: seq<App>, m: nat, n: nat)
    requires 0 < m <= n <= |apps| && !Survives(apps, m - 1)
    ensures Survivors(apps, m, n) == Survivors(apps, m - 1, n)
  {
  }

  lemma SurvivorsPass(apps: seq<App>, i: nat, n: nat)
    requires i < n <= |apps| && !Survives(apps, i)
    ensures Survivors(apps, i + 1, n) == Survivors(apps, i, n)
  {
    SurvivorsSkip(apps, i + 1, n);
  }

  lemma SurvivorsTake(apps: seq<App>, m: nat, n: nat)
    requires 0 < m <= n <= |apps| && Survives(apps, m - 1)
    ensures Survivors(apps, m, n) == Survivors(apps, m - 1, n) + [Kept(apps, m - 1, n)]
  {
  }

  /** The loop's search of the kept records finds the first record of the whole list. */
  lemma {:induction false} FirstOfSurvivors(apps: seq<App>, startup: string, m: nat, n: nat)
    requires m <= n <= |apps|
    ensures FirstSame(Survivors(apps, m, n), startup, |Survivors(apps, m, n)|) ==
            |Survivors(apps, FirstSame(apps, startup, m), n)|
    ensures FirstSame(apps, startup, m) < m ==>
              |Survivors(apps, FirstSame(apps, startup, m), n)| < |Survivors(apps, m, n)|
    decreases m
  {
    if m > 0 {
      FirstOfSurvivors(apps, startup, m - 1, n);
      FirstStep(apps, startup, m);
      if Survives(apps, m - 1) {
        FirstOfTaken(apps, startup, m, n);
      } else {
        SurvivorsSkip(apps, m, n);
        NotFirst(apps, startup, m);
      }
    }
  }

  lemma FirstStep(apps: seq<App>, startup: string, m: nat)
    requires 0 < m <= |apps|
    ensures var r := FirstSame(apps, startup, m - 1);
            FirstSame(apps, startup, m) == if r < m - 1 || Same(apps[m - 1].startup, startup) then r else m
  {
  }

  lemma FirstOfTaken(apps: seq<App>, startup: string, m: nat, n: nat)
    requires 0 < m <= n <= |apps| && Survives(apps, m - 1)
    requires var kept, r := Survivors(apps, m - 1, n), FirstSame(apps, startup, m - 1);
             && FirstSame(kept, startup, |kept|) == |Survivors(apps, r, n)|
             && (r < m - 1 ==> |Survivors(apps, r, n)| < |kept|)
    ensures FirstSame(Survivors(apps, m, n), startup, |Survivors(apps, m, n)|) ==
            |Survivors(apps, FirstSame(apps, startup, m), n)|
    ensures FirstSame(apps, startup, m) < m ==>
              |Survivors(apps, FirstSame(apps, startup, m), n)| < |Survivors(apps, m, n)|
  {
    SurvivorsTake(apps, m, n);
    FirstInAppended(Survivors(apps, m - 1, n), Kept(apps, m - 1, n), startup);
    FirstStep(apps, startup, m);
  }

  lemma NotFirst(apps: seq<App>, startup: string, m: nat)
    requires 0 < m <= |apps| && !Survives(apps, m - 1)
    ensures FirstSame(apps, startup, m) != m - 1
  {
    if FirstSame(apps, startup, m) == m - 1 { FirstSurvives(apps, startup, m); }
  }

  lemma KeptAfter(apps: seq<App>, i: nat, n: nat)
    requires i < n < |apps|
    ensures Kept(apps, i, n + 1) == if DropsFor(apps, n, i) then Donated(Kept(apps, i, n), apps[n]) else Kept(apps, i, n)
  {
  }

  /** A record that stays changes nothing in front of it. */
  lemma {:induction false} SurvivorsSame(apps: seq<App>, m: nat, n: nat)
    requires m <= n < |apps| && Survives(apps, n)
    ensures Survivors(apps, m, n + 1) == Survivors(apps, m, n)
    decreases m
  {
    if m > 0 {
      SurvivorsSame(apps, m - 1, n);
      KeptAfter(apps, m - 1, n);
    }
  }

  /** `after` is `before` with the record at `at` changed from `was` to `now`. */
  predicate Updated(before: seq<App>, after: seq<App>, at: nat, was: App, now: App) {
    at < |before| && before[at] == was && after == before[at := now]
  }

  lemma UpdatedThenAppended(before: seq<App>, after: seq<App>, at: nat, was: App, now: App, last: App)
    requires Updated(before, after, at, was, now)
    ensures Updated(before + [last], after + [last], at, was, now)
  {
  }

  lemma UpdatedLast(before: seq<App>, was: App, now: App)
    ensures Updated(before + [was], before + [now], |before|, was, now)
  {
  }

  /** A dropped record changes nothing in front of the one it is dropped for... */
  lemma {:induction false} SurvivorsBefore(apps: seq<App>, m: nat, n: nat, f: nat)
    requires m <= f < n < |apps| && DropsFor(apps, n, f)
    ensures Survivors(apps, m, n + 1) == Survivors(apps, m, n)
    decreases m
  {
    if m > 0 {
      SurvivorsBefore(apps, m - 1, n, f);
      KeptAfter(apps, m - 1, n);
    }
  }

  /** ... and behind it, only that one. */
  lemma {:induction false} SurvivorsUpdated(apps: seq<App>, m: nat, n: nat, f: nat)
    requires f < m <= n < |apps| && DropsFor(apps, n, f) && Survives(apps, f)
    ensures Updated(Survivors(apps, m, n), Survivors(apps, m, n + 1), |Survivors(apps, f, n)|,
                    Kept(apps, f, n), Kept(apps, f, n + 1))
    decreases m
  {
    if m - 1 == f {
      SurvivorsBefore(apps, f, n, f);
      SurvivorsTake(apps, m, n);
      SurvivorsTake(apps, m, n + 1);
      UpdatedLast(Survivors(apps, f, n), Kept(apps, f, n), Kept(apps, f, n + 1));
    } else if Survives(apps, m - 1) {
      SurvivorsUpdated(apps, m - 1, n, f);
      KeptAfter(apps, m - 1, n);
      SurvivorsTake(apps, m, n);
      SurvivorsTake(apps, m, n + 1);
      UpdatedThenAppended(Survivors(apps, m - 1, n), Survivors(apps, m - 1, n + 1), |Survivors(apps, f, n)|,
                          Kept(apps, f, n), Kept(apps, f, n + 1), Kept(apps, m - 1, n));
    } else {
      SurvivorsUpdated(apps, m - 1, n, f);
      SurvivorsSkip(apps, m, n);
      SurvivorsSkip(apps, m, n + 1);
    }
  }

  lemma StepKeeps(apps: seq<App>, n: nat)
    requires n < |apps| && Survives(apps, n)
    ensures Step(Survivors(apps, n, n), apps[n]) == Survivors(apps, n + 1, n + 1)
  {
    FirstOfSurvivors(apps, apps[n].startup, n, n);
    SurvivorsSame(apps, n, n);
    SurvivorsTake(apps, n + 1, n + 1);
  }

  lemma DropIsUpdate(kept: seq<App>, app: App, dup: nat, after: seq<App>)
    requires !app.legacy && dup == FirstSame(kept, app.startup, |kept|) < |kept|
    requires Updated(kept, after, dup, kept[dup], Donated(kept[dup], app))
    ensures Step(kept, app) == after
  {
  }

  lemma StepDrops(apps: seq<App>, n: nat)
    requires n < |apps| && !Survives(apps, n)
    ensures Step(Survivors(apps, n, n), apps[n]) == Survivors(apps, n + 1, n + 1)
  {
    var f := FirstSame(apps, apps[n].startup, n);
    FirstOfSurvivors(apps, apps[n].startup, n, n);
    FirstSurvives(apps, apps[n].startup, n);
    SurvivorsUpdated(apps, n, n, f);
    KeptAfter(apps, f, n);
    SurvivorsPass(apps, n, n + 1);
    DropIsUpdate(Survivors(apps, n, n), apps[n], |Survivors(apps, f, n)|, Survivors(apps, n, n + 1));
  }

  /** The loop keeps exactly the legacy records and the first scanned record of every kind, in order. */
  lemma {:induction false} DedupKeepsSurvivors(apps: seq<App>, n: nat)
    requires n <= |apps|
    ensures DedupTo(apps, n) == Survivors(apps, n, n)
    decreases n
  {
    if n > 0 {
      DedupKeepsSurvivors(apps, n - 1);
      if Survives(apps, n - 1) { StepKeeps(apps, n - 1); } else { StepDrops(apps, n - 1); }
    }
  }

  // ----- consequences ---------------------------------------------------------------------------

  function Dedup(apps: seq<App>): seq<App> {
    DedupTo(apps, |apps|)
  }

  lemma {:induction false} KeptStaysItself(apps: seq<App>, i: nat, n: nat)
    requires i < n <= |apps|
    ensures Kept(apps, i, n).(argv1 := apps[i].argv1) == apps[i]
    ensures apps[i].argv1 != "" ==> Kept(apps, i, n) == apps[i]
    decreases n
  {
    if n > i + 1 { KeptStaysItself(apps, i, n - 1); }
  }

  lemma {:induction false} LegacyBlock(apps: seq<App>, m: nat, l: nat)
    requires l <= m <= |apps| && forall i :: 0 <= i < l ==> apps[i].legacy
    ensures |Survivors(apps, m, |apps|)| >= l
    ensures forall i :: 0 <= i < l ==> Survivors(apps, m, |apps|)[i] == Kept(apps, i, |apps|)
    ensures |Survivors(apps, l, |apps|)| == l
    decreases m
  {
    if m > l {
      LegacyBlock(apps, m - 1, l);
    } else if m > 0 {
      LegacyBlock(apps, m - 1, l - 1);
    }
  }

  /** The leading legacy records keep their index, and at most an empty argument of theirs changes. */
  lemma LegacyKeepsIndex(apps: seq<App>, l: nat, i: nat)
    requires i < l <= |apps| && forall j :: 0 <= j < l ==> apps[j].legacy
    ensures i < |Dedup(apps)| && Dedup(apps)[i].(argv1 := apps[i].argv1) == apps[i]
    ensures apps[i].argv1 != "" ==> Dedup(apps)[i] == apps[i]
  {
    DedupKeepsSurvivors(apps, |apps|);
    LegacyBlock(apps, |apps|, l);
    KeptStaysItself(apps, i, |apps|);
  }

  /** Nothing disappears: every record, kept or dropped, is still listed under an equal startup. */
  lemma {:induction false} NothingLost(apps: seq<App>, i: nat)
    requires i < |apps| && apps[i].startup != ""
    ensures FirstSame(Dedup(apps), apps[i].startup, |Dedup(apps)|) < |Dedup(apps)|
  {
    DedupKeepsSurvivors(apps, |apps|);
    FirstOfSurvivors(apps, apps[i].startup, |apps|, |apps|);
    FirstIs(apps, apps[i].startup, |apps|);
    assert Same(apps[i].startup, apps[i].startup);
  }

  /** The kept records are records of the list, in its order. */
  lemma {:induction false} SurvivorComesFrom(apps: seq<App>, m: nat, k: nat) returns (i: nat)
    requires m <= |apps| && k < |Survivors(apps, m, |apps|)|
    ensures i < m && Survives(apps, i) && |Survivors(apps, i, |apps|)| == k
    ensures Survivors(apps, m, |apps|)[k] == Kept(apps, i, |apps|)
    decreases m
  {
    if k < |Survivors(apps, m - 1, |apps|)| {
      i := SurvivorComesFrom(apps, m - 1, k);
    } else {
      i := m - 1;
    }
  }

  lemma {:induction false} SurvivorsGrow(apps: seq<App>, i: nat, m: nat)
    requires i <= m <= |apps|
    ensures |Survivors(apps, i, |apps|)| <= |Survivors(apps, m, |apps|)|
    decreases m
  {
    if i < m {
      SurvivorsGrow(apps, i, m - 1);
      if Survives(apps, m - 1) { SurvivorsTake(apps, m, |apps|); } else { SurvivorsSkip(apps, m, |apps|); }
    }
  }

  /** No scanned record is left behind an equal one. */
  lemma NoScannedRepeat(apps: seq<App>, j: nat, k: nat)
    requires j < k < |Dedup(apps)| && !Dedup(apps)[k].legacy
    ensures !Same(Dedup(apps)[j].startup, Dedup(apps)[k].startup)
  {
    DedupKeepsSurvivors(apps, |apps|);
    var ij := SurvivorComesFrom(apps, |apps|, j);
    var ik := SurvivorComesFrom(apps, |apps|, k);
    if ik <= ij { SurvivorsGrow(apps, ik, ij); }
    FirstIs(apps, apps[ik].startup, ik);
  }
}
