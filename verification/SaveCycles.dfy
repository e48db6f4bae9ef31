/** Saving and loading over and over: does a file ever change its format, and do its values last? */
module SaveCycles {
  import opened Text
  import opened Iteration
  import opened Wrappers
  import opened ConfigStore
  import opened ConfigFormat
  import opened EscapedValues
  import opened LegacyRoundTrips
  import opened LibconfigRoundTrips

  type Store = (Format, seq<Entry>)

  /** One save, and one load into a fresh set. */
  function Cycle(s: Store): Store {
    var r := Load(SaveText(s.0, s.1), Legacy, []);
    (r.format, r.entries)
  }

  /** After n cycles the format is still what it was. */
  predicate KeepsFormat(s: Store, n: nat) {
    Iterate(Cycle, n, s).0 == s.0
  }

  lemma FirstTwo<S>(f: S -> S, s: S)
    ensures Iterate(f, 1, s) == f(s) && Iterate(f, 2, s) == f(f(s))
  {
    assert Iterate(f, 0, f(s)) == f(s);
    assert Iterate(f, 1, f(s)) == Iterate(f, 0, f(f(s))) == f(f(s));
  }

  // ----- legacy ---------------------------------------------------------------------------------

  lemma LegacyCycle(es: seq<Entry>)
    requires LegacyStorable(es)
    ensures if MisreadFirst(es) then Cycle((Legacy, es)).0 == Libconfig
            else Cycle((Legacy, es)) == (Legacy, Reloaded(es))
  {
    LegacyRoundTrip(es);
  }

  lemma {:induction false} AllAreWritten(ws: seq<Entry>)
    requires forall i :: 0 <= i < |ws| ==> Written(ws[i])
    ensures OnlyWritten(ws) == ws
  {
    if ws != [] {
      AllAreWritten(ws[1..]);
      assert ws == [ws[0]] + ws[1..];
    }
  }

  lemma {:induction false} DropsOnce(ws: seq<Entry>)
    requires AllClean(ws) && forall i :: 0 <= i < |ws| ==> Written(ws[i])
    ensures var r := FromFirstKey(ws);
            AllClean(r) && FromFirstKey(r) == r && forall i :: 0 <= i < |r| ==> Written(r[i])
  {
    if ws != [] && IsComment(ws[0].key) {
      assert forall j :: 0 <= j < |ws[1..]| ==> ws[1..][j] == ws[j + 1];
      DropsOnce(ws[1..]);
    }
  }

  /** What a clean set carries over is carried over again. */
  lemma CarriedSettles(es: seq<Entry>)
    requires LegacyClean(es)
    ensures LegacyClean(Carried(es)) && Carried(Carried(es)) == Carried(es)
  {
    CleanCarries(es);
    CleanWritten(es);
    DropsOnce(OnlyWritten(es));
    AllAreWritten(Carried(es));
    CleanCarries(Carried(es));
  }

  lemma CleanNeverFlips(n: nat, es: seq<Entry>)
    requires LegacyClean(es) && !MisreadFirst(es) && n > 0
    ensures Iterate(Cycle, n, (Legacy, es)) == (Legacy, Carried(es))
  {
    CleanCarries(es);
    LegacyCycle(es);
    CarriedSettles(es);
    CleanCarries(Carried(es));
    LegacyCycle(Carried(es));
    FixedPoint(Cycle, n - 1, (Legacy, Carried(es)));
  }

  /** A legacy set whose first line is not taken for libconfig, now and after one save and load, keeps its
      format, and from the second cycle on its pairs. */
  lemma LegacyNeverFlips(n: nat, es: seq<Entry>)
    requires LegacyStorable(es) && SingleReturns(es) && !MisreadFirst(es) && !MisreadFirst(Reloaded(es)) && n > 0
    ensures Iterate(Cycle, n, (Legacy, es)) == (Legacy, if n == 1 then Reloaded(es) else Carried(Reloaded(es)))
  {
    LegacyCycle(es);
    ReloadedIsClean(es);
    if n == 1 { FirstTwo(Cycle, (Legacy, es)); } else { CleanNeverFlips(n - 1, Reloaded(es)); }
  }

  /** And that is exactly when it keeps it. */
  lemma LegacyNeverFlipsIff(es: seq<Entry>)
    requires LegacyStorable(es) && SingleReturns(es)
    ensures (forall n: nat :: KeepsFormat((Legacy, es), n)) <==> !MisreadFirst(es) && !MisreadFirst(Reloaded(es))
  {
    LegacyCycle(es);
    FirstTwo(Cycle, (Legacy, es));
    if MisreadFirst(es) {
      assert !KeepsFormat((Legacy, es), 1);
    } else if MisreadFirst(Reloaded(es)) {
      ReloadedIsClean(es);
      CleanCarries(Reloaded(es));
      LegacyCycle(Reloaded(es));
      assert !KeepsFormat((Legacy, es), 2);
    } else {
      forall n: nat ensures KeepsFormat((Legacy, es), n) { if n > 0 { LegacyNeverFlips(n, es); } }
    }
  }

  lemma TwoLines(x: Entry, a: Entry)
    requires LegacyClean([x, a]) && LegacyClean([a]) && Written(x) && Written(a) && !IsComment(x.key)
    ensures OnlyWritten([a]) == [a] && Carried([x, a]) == [x, a] == Reloaded([x, a])
    ensures LegacyStorable([x, a]) && LegacyStorable([a]) && Carried([a]) == Reloaded([a]) == FromFirstKey([a])
  {
    AllAreWritten([a]);
    AllAreWritten([x, a]);
    CarriedIsAll([x, a]);
    CleanCarries([x, a]);
    CleanCarries([a]);
  }

  lemma RemoveFirst(x: Entry, a: Entry)
    requires x.key == "x" && a.key != "x" && |a.key| < KEY_NAME_LEN
    ensures Remove([x, a], "x") == [a]
  {
    assert [x, a][1..] == [a] && [a][1..] == [];
    SameShortKey(a.key, "x");
    assert Without([a], "x") == [a];
  }

  lemma StatementIsMisread()
    ensures Misread("a ", "b;") && !Misread("x", "1") && !IsComment("a ") && !IsComment("x")
  {
    TrimEndIs("a ", 1);
    TrimEndIs("b;", 2);
  }

  /** A legacy file can hold such a line behind another one; with that one removed, the file flips. */
  lemma LegacyFlips()
    ensures var es := [Entry("x", "1"), Entry("a ", "b;")];
            Cycle((Legacy, es)) == (Legacy, es) && Cycle((Legacy, Remove(es, "x"))).0 == Libconfig
  {
    var x, a := Entry("x", "1"), Entry("a ", "b;");
    StatementIsMisread();
    TwoLines(x, a);
    RemoveFirst(x, a);
    LegacyCycle([x, a]);
    LegacyCycle([a]);
  }

  lemma CommentIsDropped(y: Entry)
    requires IsComment(y.key)
    ensures FromFirstKey([y]) == []
  {
    assert [y][1..] == [];
  }

  /** In the same way a key that looks like a comment is lost. */
  lemma CommentKeyIsLost()
    ensures var es := [Entry("x", "1"), Entry("//y", "2")];
            Cycle((Legacy, es)) == (Legacy, es) && Cycle((Legacy, Remove(es, "x"))) == (Legacy, [])
  {
    var x, y := Entry("x", "1"), Entry("//y", "2");
    assert !Misread(x.key, x.val) && IsComment(y.key);
    TwoLines(x, y);
    RemoveFirst(x, y);
    LegacyCycle([x, y]);
    CommentIsDropped(y);
    LegacyCycle([y]);
  }

  lemma PrefixLineReads(r: Reader, p: string, rest: string)
    requires p != "" && IsWS(p[0]) && !IsWS(p[|p| - 1]) && NoneOf(p, {'\n', '=', ':'}) && |p| < KEY_NAME_LEN
    requires !r.latched && !IsComment(TrimStart(p + ":")) && r.entries == []
    ensures ReadLines(r, Lines(p + ":" + "\n" + rest)) ==
            ReadLines(r.(latched := true, format := Legacy, prefix := p), Lines(rest))
  {
    var line := p + ":";
    assert line[0] == p[0] && line[|line| - 1] == ':' && forall i :: 0 <= i < |p| ==> line[i] == p[i];
    ReadOne(r, line, rest);
    FindIs(line, ':', |p|);
    assert line[..|p|] == p;
    NoAssignment(line);
  }

  lemma NoAssignment(line: string)
    requires NoneOf(line, {'='}) && line != "" && !IsWS(line[|line| - 1])
    ensures SplitAssignment(line) == None && Classify(line) != LibconfigLine && Classify(line) != BlankLine
    ensures !IsComment(TrimStart(line)) ==> Classify(line) == LegacyLine
  {
    var p := TrimStart(line);
    assert p != "" && p[|p| - 1] == line[|line| - 1];
    TrimEndIs(p, |p|);
    assert p[..|p|] == p;
    forall i | 0 <= i < |p| ensures p[i] != '=' { assert p[i] == line[i + |line| - |p|]; }
  }

  lemma IndentedLineReads(r: Reader, k: string, v: string, rest: string)
    requires r.latched && r.format == Legacy && r.prefix != ""
    requires Storable(Entry(k, v)) && IsWS(k[0]) && DropLast(v, '\r') == v
    ensures ReadLines(r, Lines(k + "=" + v + "\n" + rest)) ==
            ReadLines(r.(entries := Set(r.entries, r.prefix + "_" + TrimStart(k), v)), Lines(rest))
  {
    ReadAny(r, Entry(k, v), rest);
    AnyLineSplits(k, v);
    Halves(k, v);
  }

  /** An indented line that opens a prefix, and an indented pair behind it: the pair is stored with the blanks
      of the first line in front of its key. */
  lemma PrefixedKeyIsStored(p: string, k: string, v: string)
    requires p != "" && IsWS(p[0]) && !IsWS(p[|p| - 1]) && NoneOf(p, {'\n', '=', ':'}) && |p| < KEY_NAME_LEN
    requires !IsComment(TrimStart(p + ":"))
    requires Storable(Entry(k, v)) && IsWS(k[0]) && DropLast(v, '\r') == v
    ensures var r := Load(p + ":" + "\n" + (k + "=" + v + "\n"), Legacy, []);
            r.format == Legacy && r.entries == Set([], p + "_" + TrimStart(k), v)
  {
    PrefixLineReads(START, p, k + "=" + v + "\n");
    Nil(k + "=" + v + "\n");
    IndentedLineReads(START.(latched := true, format := Legacy, prefix := p), k, v, "");
  }

  /** So a legacy file can give a set a key with a blank in front. */
  lemma BlankKeyIsStored()
    ensures var r := Load(" b" + ":" + "\n" + (" c" + "=" + "2" + "\n"), Legacy, []);
            r.format == Legacy && r.entries == [Entry(" b_c", "2")]
  {
    TrimStartIs(" b:", 1);
    assert " b:"[1..] == "b:" && " b" + ":" == " b:";
    TrimStartIs(" c", 1);
    PrefixedKeyIsStored(" b", " c", "2");
    BlankName();
    SetNew([], " b_c", "2");
  }

  lemma BlankName()
    ensures " b" + "_" + " c"[1..] == " b_c"
  {
    assert " c"[1..] == "c";
  }

  /** The next save and load takes the blank away. */
  lemma BlankKeyIsTrimmed()
    ensures Cycle((Legacy, [Entry(" b_c", "2")])) == (Legacy, [Entry("b_c", "2")])
  {
    OneBlankKey(Entry(" b_c", "2"), "b_c");
  }

  lemma OneBlankKey(e: Entry, k: string)
    requires Storable(e) && e.key == " " + k && k != "" && !IsWS(k[0]) && !IsComment(k) && !IsWS(k[|k| - 1])
    requires DropLast(e.val, '\r') == e.val && KeyValid(k)
    ensures Cycle((Legacy, [e])) == (Legacy, [Entry(k, e.val)])
  {
    var l := Entry(k, e.val);
    TrimStartIs(e.key, 1);
    assert e.key[1..] == k;
    OneLineRead(e, l);
    MergeOne(l);
    LegacyCycle([e]);
  }

  lemma MergeOne(l: Entry)
    requires KeyValid(l.key) && Fits(l)
    ensures Merge([], [l]) == [l]
  {
    SetNew([], l.key, l.val);
    assert [l] == [l] + [] && [] + [l] == [l];
    MergeFirst([], l, []);
  }

  lemma NamelessFirst(x: Entry, a: Entry, l: Entry, m: Entry)
    requires Storable(x) && Written(x) && LineRead(x) == l && l.key == ""
    requires Written(a) && Storable(a) && LineRead(a) == m && KeyValid(m.key) && Fits(m)
    ensures LegacyStorable([x] + [a]) && !MisreadFirst([x] + [a]) && Reloaded([x] + [a]) == [m]
  {
    OneLineRead(a, m);
    LinesCons(x, [a]);
    FirstStays(l, [m]);
    assert Carried([x] + [a]) == [l] + [m] && ([l] + [m])[0] == l;
    MergeFirst([], l, [m]);
    MergeOne(m);
  }

  lemma OneMisread(a: Entry, m: Entry)
    requires Written(a) && Storable(a) && LineRead(a) == m && !IsComment(m.key) && Misread(m.key, m.val)
    ensures Cycle((Legacy, [a])).0 == Libconfig
  {
    OneLineRead(a, m);
    LegacyCycle([a]);
  }

  /** A pair without a name settles the format once and is gone: what is behind it flips on the second save. */
  lemma LegacyFlipsOnSecondSave()
    ensures var s := (Legacy, [Entry(" ", "")] + [Entry("a ", "b;")]);
            Cycle(s) == (Legacy, [Entry("a ", "b;")]) && Cycle(Cycle(s)).0 == Libconfig
  {
    var x, a := Entry(" ", ""), Entry("a ", "b;");
    StatementIsMisread();
    TrimStartIs(" ", 1);
    KeptIsRead(a);
    NamelessFirst(x, a, Entry("", ""), a);
    LegacyCycle([x] + [a]);
    OneMisread(a, a);
  }

  // ----- libconfig: what is left after n cycles -------------------------------------------------

  /** The non-empty values, each escaped n times. */
  function Stamped(es: seq<Entry>, n: nat): seq<Entry> {
    if es == [] then []
    else if es[0].val == "" then Stamped(es[1..], n)
    else [Entry(es[0].key, Iterate(Back, n, es[0].val))] + Stamped(es[1..], n)
  }

  lemma ValueAfter(v: string, n: nat)
    requires LibValue(v)
    ensures LibValue(Iterate(Back, n, v)) && (Iterate(Back, n, v) == "" <==> v == "")
  {
    var kept := (x: string) => LibValue(x) && (x == "" <==> v == "");
    forall x | kept(x) ensures kept(Back(x)) { BackIsValue(x); }
    IterateKeeps(Back, kept, n, v);
  }

  lemma {:induction false} StampedOnce(es: seq<Entry>)
    ensures Stamped(es, 1) == Keep(es)
  {
    if es != [] {
      StampedOnce(es[1..]);
      FirstTwo(Back, es[0].val);
    }
  }

  lemma {:induction false} KeepStamped(es: seq<Entry>, n: nat)
    requires forall i :: 0 <= i < |es| ==> LibValue(es[i].val)
    ensures Keep(Stamped(es, n)) == Stamped(es, n + 1)
  {
    if es != [] {
      KeepStamped(es[1..], n);
      ValueAfter(es[0].val, n);
      IterateLast(Back, n, es[0].val);
      if es[0].val != "" {
        assert ([Entry(es[0].key, Iterate(Back, n, es[0].val))] + Stamped(es[1..], n))[1..] == Stamped(es[1..], n);
      }
    }
  }

  lemma {:induction false} StampedKeys(es: seq<Entry>, n: nat, k: string)
    requires forall i :: 0 <= i < |es| ==> es[i].key != k
    ensures forall i :: 0 <= i < |Stamped(es, n)| ==> Stamped(es, n)[i].key != k
  {
    if es != [] { StampedKeys(es[1..], n, k); }
  }

  lemma {:induction false} StampedUnique(es: seq<Entry>, n: nat)
    requires Unique(es)
    ensures Unique(Stamped(es, n))
  {
    if es != [] {
      assert forall j :: 0 <= j < |es[1..]| ==> es[1..][j] == es[j + 1];
      StampedUnique(es[1..], n);
      StampedKeys(es[1..], n, es[0].key);
    }
  }

  lemma {:induction false} StampedClean(es: seq<Entry>, n: nat, g: string)
    requires forall e :: e in es ==> Clean(e) && Written(e) && GroupOf(e.key) == g
    ensures forall e :: e in Stamped(es, n) ==> Clean(e) && Written(e) && GroupOf(e.key) == g
  {
    if es != [] {
      StampedClean(es[1..], n, g);
      ValueAfter(es[0].val, n);
    }
  }

  lemma StampedMembers(es: seq<Entry>, n: nat, g: string)
    requires Members(es, g) && forall i :: 0 <= i < |es| ==> Written(es[i])
    ensures Members(Stamped(es, n), g) && forall i :: 0 <= i < |Stamped(es, n)| ==> Written(Stamped(es, n)[i])
  {
    StampedUnique(es, n);
    StampedClean(es, n, g);
  }

  lemma {:induction false} StampedSettles(es: seq<Entry>, n: nat)
    requires n >= SETTLES && forall i :: 0 <= i < |es| ==> LibValue(es[i].val)
    ensures Stamped(es, n) == Stamped(es, SETTLES)
  {
    if es != [] {
      StampedSettles(es[1..], n);
      ValueSettles(es[0].val, n);
      ValueSettles(es[0].val, SETTLES);
    }
  }

  /** The members of one group after n cycles. */
  function Part(es: seq<Entry>, g: string, n: nat): seq<Entry> {
    Stamped(Select(es, g), n)
  }

  lemma PartIs(es: seq<Entry>, g: string, n: nat)
    requires LibClean(es)
    ensures Members(Part(es, g, n), g) && Keep(Part(es, g, n)) == Part(es, g, n + 1)
    ensures forall i :: 0 <= i < |Part(es, g, n)| ==> Written(Part(es, g, n)[i])
  {
    SelectMembers(es, g);
    forall e | e in Select(es, g) ensures Written(e) { SelectSound(es, g, e); }
    StampedMembers(Select(es, g), n, g);
    KeepStamped(Select(es, g), n);
  }

  function GroupsAfter(es: seq<Entry>, gs: seq<string>, n: nat): seq<Entry> {
    if gs == [] then [] else Part(es, gs[0], n) + GroupsAfter(es, gs[1..], n)
  }

  /** Root statements first, then the groups in turn, with every value escaped n times. */
  function LoadedAfter(es: seq<Entry>, n: nat): seq<Entry> {
    Part(es, "", n) + GroupsAfter(es, GROUPS, n)
  }

  lemma {:induction false} SelectSplits(a: seq<Entry>, b: seq<Entry>, g: string)
    ensures Select(a + b, g) == Select(a, g) + Select(b, g)
  {
    if a == [] {
      assert a + b == b;
    } else {
      SelectSplits(a[1..], b, g);
      assert (a + b)[1..] == a[1..] + b;
      Assoc([a[0]], Select(a[1..], g), Select(b, g));
    }
  }

  lemma {:induction false} SelectOwn(es: seq<Entry>, g: string, h: string)
    requires forall i :: 0 <= i < |es| ==> Written(es[i]) && GroupOf(es[i].key) == g
    ensures Select(es, h) == if g == h then es else []
  {
    if es != [] {
      SelectOwn(es[1..], g, h);
      assert es == [es[0]] + es[1..];
    }
  }

  lemma SelectGroupStep(es: seq<Entry>, gs: seq<string>, n: nat, h: string)
    requires LibClean(es) && gs != []
    ensures Select(GroupsAfter(es, gs, n), h) ==
            if gs[0] == h then Part(es, h, n) + Select(GroupsAfter(es, gs[1..], n), h)
            else Select(GroupsAfter(es, gs[1..], n), h)
  {
    PartIs(es, gs[0], n);
    SelectSplits(Part(es, gs[0], n), GroupsAfter(es, gs[1..], n), h);
    SelectOwn(Part(es, gs[0], n), gs[0], h);
    Nil(Select(GroupsAfter(es, gs[1..], n), h));
  }

  ghost predicate Distinct(gs: seq<string>) {
    forall i, j :: 0 <= i < j < |gs| ==> gs[i] != gs[j]
  }

  lemma DistinctTail(gs: seq<string>)
    requires gs != [] && Distinct(gs)
    ensures Distinct(gs[1..]) && gs[0] !in gs[1..] && forall h :: h in gs <==> h == gs[0] || h in gs[1..]
  {
    assert gs == [gs[0]] + gs[1..];
    assert forall j :: 0 <= j < |gs[1..]| ==> gs[1..][j] == gs[j + 1];
  }

  lemma {:induction false} SelectGroups(es: seq<Entry>, gs: seq<string>, n: nat, h: string)
    requires LibClean(es) && Distinct(gs)
    ensures Select(GroupsAfter(es, gs, n), h) == if h in gs then Part(es, h, n) else []
    decreases |gs|
  {
    if gs != [] {
      DistinctTail(gs);
      SelectGroupStep(es, gs, n, h);
      SelectGroups(es, gs[1..], n, h);
      Nil(Part(es, h, n));
    }
  }

  lemma GroupsDistinct()
    ensures Distinct(GROUPS) && "" !in GROUPS
  {
    forall i, j | 0 <= i < j < |GROUPS| ensures GROUPS[i] != GROUPS[j] { GroupsDiffer(i, j); }
    forall i | 0 <= i < |GROUPS| ensures GROUPS[i] != "" { GroupsNamed(i); }
  }

  /** What is selected from a loaded set is what was kept of the saved one. */
  lemma SelectLoaded(es: seq<Entry>, n: nat, h: string)
    requires LibClean(es) && (h == "" || h in GROUPS)
    ensures Select(LoadedAfter(es, n), h) == Part(es, h, n)
  {
    PartIs(es, "", n);
    SelectSplits(Part(es, "", n), GroupsAfter(es, GROUPS, n), h);
    SelectOwn(Part(es, "", n), "", h);
    GroupsDistinct();
    SelectGroups(es, GROUPS, n, h);
    Nil(Part(es, h, n));
  }

  lemma PartNext(es: seq<Entry>, n: nat, g: string)
    requires LibClean(es) && (g == "" || g in GROUPS)
    ensures Keep(Select(LoadedAfter(es, n), g)) == Part(es, g, n + 1)
  {
    SelectLoaded(es, n, g);
    PartIs(es, g, n);
  }

  lemma GroupNext(es: seq<Entry>, i: nat, n: nat)
    requires LibClean(es) && i < |GROUPS|
    ensures LoadedGroups(LoadedAfter(es, n), i) ==
            Part(es, GROUPS[i], n + 1) + LoadedGroups(LoadedAfter(es, n), i + 1)
  {
    PartNext(es, n, GROUPS[i]);
  }

  lemma {:induction false} GroupsNext(es: seq<Entry>, i: nat, n: nat)
    requires LibClean(es) && i <= |GROUPS|
    ensures LoadedGroups(LoadedAfter(es, n), i) == GroupsAfter(es, GROUPS[i..], n + 1)
    decreases |GROUPS| - i
  {
    if i < |GROUPS| {
      GroupNext(es, i, n);
      assert GROUPS[i..][1..] == GROUPS[i + 1..];
      GroupsNext(es, i + 1, n);
    }
  }

  /** One more cycle escapes once more and changes nothing else. */
  lemma LoadedNext(es: seq<Entry>, n: nat)
    requires LibClean(es)
    ensures Loaded(LoadedAfter(es, n)) == LoadedAfter(es, n + 1)
  {
    PartNext(es, n, "");
    GroupsNext(es, 0, n);
    assert GROUPS[0..] == GROUPS;
  }

  lemma {:induction false} GroupsFirst(es: seq<Entry>, i: nat)
    requires i <= |GROUPS|
    ensures GroupsAfter(es, GROUPS[i..], 1) == LoadedGroups(es, i)
    decreases |GROUPS| - i
  {
    if i < |GROUPS| {
      assert GROUPS[i..][1..] == GROUPS[i + 1..];
      StampedOnce(Select(es, GROUPS[i]));
      GroupsFirst(es, i + 1);
    }
  }

  lemma LoadedFirst(es: seq<Entry>)
    ensures LoadedAfter(es, 1) == Loaded(es)
  {
    StampedOnce(Select(es, ""));
    GroupsFirst(es, 0);
    assert GROUPS[0..] == GROUPS;
  }

  /** Keys that come back, none of them in a group that is still to come. */
  ghost predicate ReadSoFar(acc: seq<Entry>, gs: seq<string>) {
    LibClean(acc) && forall a :: 0 <= a < |acc| ==> Written(acc[a]) && GroupOf(acc[a].key) !in gs
  }

  lemma OneGroupMore(acc: seq<Entry>, es: seq<Entry>, gs: seq<string>, n: nat)
    requires LibClean(es) && gs != [] && Distinct(gs) && ReadSoFar(acc, gs)
    ensures ReadSoFar(acc + Part(es, gs[0], n), gs[1..])
  {
    var part := Part(es, gs[0], n);
    PartIs(es, gs[0], n);
    DistinctTail(gs);
    forall a, j | 0 <= a < |acc| && 0 <= j < |part| ensures acc[a].key != part[j].key {
      assert GroupOf(acc[a].key) != gs[0];
    }
  }

  lemma {:induction false} GroupsClean(acc: seq<Entry>, es: seq<Entry>, gs: seq<string>, n: nat)
    requires LibClean(es) && Distinct(gs) && ReadSoFar(acc, gs)
    ensures ReadSoFar(acc + GroupsAfter(es, gs, n), [])
    decreases |gs|
  {
    if gs == [] {
      Nil(acc);
    } else {
      OneGroupMore(acc, es, gs, n);
      DistinctTail(gs);
      Assoc(acc, Part(es, gs[0], n), GroupsAfter(es, gs[1..], n));
      GroupsClean(acc + Part(es, gs[0], n), es, gs[1..], n);
    }
  }

  lemma LoadedClean(es: seq<Entry>, n: nat)
    requires LibClean(es)
    ensures LibClean(LoadedAfter(es, n)) && AllFit(LoadedAfter(es, n))
  {
    PartIs(es, "", n);
    var roots := Part(es, "", n);
    GroupsDistinct();
    GroupsClean(roots, es, GROUPS, n);
  }

  // ----- libconfig: the format ------------------------------------------------------------------

  /** The first written root key with a value. */
  function FirstSolidRoot(es: seq<Entry>): Option<string> {
    if es == [] then None
    else if Written(es[0]) && GroupOf(es[0].key) == "" && es[0].val != "" then Some(es[0].key)
    else FirstSolidRoot(es[1..])
  }

  /** It is written under an identifier. */
  predicate SolidFirst(es: seq<Entry>) {
    FirstSolidRoot(es).Some? && IsIdent(TheirName(FirstSolidRoot(es).value))
  }

  lemma {:induction false} SolidIsKept(es: seq<Entry>, n: nat)
    ensures FirstSolidRoot(es) == if Part(es, "", n) == [] then None else Some(Part(es, "", n)[0].key)
  {
    if es != [] {
      SolidIsKept(es[1..], n);
      if Written(es[0]) && GroupOf(es[0].key) == "" {
        assert ([es[0]] + Select(es[1..], ""))[1..] == Select(es[1..], "");
      }
    }
  }

  lemma RootFirstAfter(es: seq<Entry>, n: nat)
    requires LibClean(es)
    ensures RootFirst(LoadedAfter(es, n)) <==> SolidFirst(es)
  {
    SelectLoaded(es, n, "");
    SolidIsKept(es, n);
  }

  lemma LibconfigCycle(es: seq<Entry>)
    requires LibClean(es)
    ensures Cycle((Libconfig, es)).0 == Libconfig <==> RootFirst(es)
    ensures RootFirst(es) ==> Cycle((Libconfig, es)) == (Libconfig, Loaded(es))
  {
    LibconfigReadAsLibconfigIff(es);
    if RootFirst(es) { LibconfigRoundTrip(es); }
  }

  /** The whole set after n cycles. */
  lemma {:induction false} LibconfigCycles(n: nat, es: seq<Entry>)
    requires LibClean(es) && RootFirst(es) && SolidFirst(es) && n > 0
    ensures Iterate(Cycle, n, (Libconfig, es)) == (Libconfig, LoadedAfter(es, n))
  {
    IterateLast(Cycle, n - 1, (Libconfig, es));
    if n == 1 {
      LibconfigCycle(es);
      LoadedFirst(es);
    } else {
      LibconfigCycles(n - 1, es);
      LoadedClean(es, n - 1);
      RootFirstAfter(es, n - 1);
      LibconfigCycle(LoadedAfter(es, n - 1));
      LoadedNext(es, n - 1);
    }
  }

  /** A libconfig set keeps its format over any number of cycles exactly when the first root statement
      has an identifier for a name, and so has the first one that holds a value. */
  lemma LibconfigNeverFlipsIff(es: seq<Entry>)
    requires LibClean(es)
    ensures (forall n: nat :: KeepsFormat((Libconfig, es), n)) <==> RootFirst(es) && SolidFirst(es)
  {
    if RootFirst(es) && SolidFirst(es) {
      forall n: nat ensures KeepsFormat((Libconfig, es), n) { if n > 0 { LibconfigCycles(n, es); } }
    } else {
      LibconfigFlips(es);
    }
  }

  lemma LibconfigFlips(es: seq<Entry>)
    requires LibClean(es) && !(RootFirst(es) && SolidFirst(es))
    ensures !KeepsFormat((Libconfig, es), 1) || !KeepsFormat((Libconfig, es), 2)
  {
    FirstTwo(Cycle, (Libconfig, es));
    LibconfigCycle(es);
    LoadedFirst(es);
    LoadedClean(es, 1);
    LibconfigCycle(Loaded(es));
    RootFirstAfter(es, 1);
  }

  // ----- libconfig: the values ------------------------------------------------------------------

  function WorthAfter(es: seq<Entry>, k: string, n: nat): Option<string> {
    match Lookup(es, k)
    case Some(v) => if k[0] != '#' && v != "" then Some(Iterate(Back, n, v)) else None
    case None => None
  }

  lemma {:induction false} LookupIsIn(es: seq<Entry>, k: string)
    requires KeyValid(k) && |k| < KEY_NAME_LEN && AllFit(es) && Lookup(es, k).Some?
    ensures Entry(k, Lookup(es, k).value) in es
  {
    var i := IndexOf(es, k);
    SameShortKey(es[i].key, k);
  }

  lemma MapFirst(es: seq<Entry>, k: string)
    requires LibClean(es) && AllFit(es) && RootFirst(es) && KeyValid(k) && |k| < KEY_NAME_LEN
    ensures Lookup(LoadedAfter(es, 1), k) == WorthAfter(es, k, 1)
  {
    LibconfigKeepsTheMap(es, k);
    LibconfigRoundTrip(es);
    LoadedFirst(es);
    if Lookup(es, k).Some? { FirstTwo(Back, Lookup(es, k).value); }
  }

  lemma {:induction false} WorthIs(n: nat, es: seq<Entry>, k: string)
    requires LibClean(es) && AllFit(es) && RootFirst(es) && SolidFirst(es) && n > 0
    requires KeyValid(k) && |k| < KEY_NAME_LEN
    ensures Lookup(LoadedAfter(es, n), k) == WorthAfter(es, k, n)
  {
    if n == 1 {
      MapFirst(es, k);
    } else {
      WorthIs(n - 1, es, k);
      MapNext(n - 1, es, k);
    }
  }

  /** Over the cycles a key keeps its value, escaped once more by each of them. */
  lemma MapAfter(n: nat, es: seq<Entry>, k: string)
    requires LibClean(es) && AllFit(es) && RootFirst(es) && SolidFirst(es) && n > 0
    requires KeyValid(k) && |k| < KEY_NAME_LEN
    ensures Lookup(Iterate(Cycle, n, (Libconfig, es)).1, k) == WorthAfter(es, k, n)
  {
    LibconfigCycles(n, es);
    WorthIs(n, es, k);
  }

  lemma MapNext(n: nat, es: seq<Entry>, k: string)
    requires LibClean(es) && AllFit(es) && SolidFirst(es) && KeyValid(k) && |k| < KEY_NAME_LEN
    requires Lookup(LoadedAfter(es, n), k) == WorthAfter(es, k, n)
    ensures Lookup(LoadedAfter(es, n + 1), k) == WorthAfter(es, k, n + 1)
  {
    LoadedClean(es, n);
    RootFirstAfter(es, n);
    LoadedNext(es, n);
    LibconfigRoundTrip(LoadedAfter(es, n));
    LibconfigKeepsTheMap(LoadedAfter(es, n), k);
    if Lookup(es, k).Some? && k[0] != '#' {
      var v := Lookup(es, k).value;
      LookupIsIn(es, k);
      assert Written(Entry(k, v)) && Clean(Entry(k, v));
      ValueAfter(v, n);
      IterateLast(Back, n, v);
    }
  }

  /** From the ninth cycle on nothing changes any more: a value is what it was, or its part in front of
      the first quote or backslash filled up with backslashes. */
  lemma ValuesSettle(n: nat, es: seq<Entry>, k: string)
    requires LibClean(es) && AllFit(es) && RootFirst(es) && SolidFirst(es) && n >= SETTLES
    requires KeyValid(k) && |k| < KEY_NAME_LEN && k[0] != '#' && Lookup(es, k).Some?
    ensures var v := Lookup(es, k).value;
            Lookup(Iterate(Cycle, n, (Libconfig, es)).1, k) == if v == "" then None else Some(Settled(v))
  {
    MapAfter(n, es, k);
    LookupIsIn(es, k);
    var v := Lookup(es, k).value;
    assert Written(Entry(k, v)) && Clean(Entry(k, v));
    ValueSettles(v, n);
  }

  lemma {:induction false} GroupsSettle(es: seq<Entry>, gs: seq<string>, n: nat)
    requires LibClean(es) && n >= SETTLES
    ensures GroupsAfter(es, gs, n) == GroupsAfter(es, gs, SETTLES)
    decreases |gs|
  {
    if gs != [] {
      SelectMembers(es, gs[0]);
      StampedSettles(Select(es, gs[0]), n);
      GroupsSettle(es, gs[1..], n);
    }
  }

  /** So does the whole list, order included. */
  lemma LoadedSettles(n: nat, es: seq<Entry>)
    requires LibClean(es) && RootFirst(es) && SolidFirst(es) && n >= SETTLES
    ensures Iterate(Cycle, n, (Libconfig, es)) == Iterate(Cycle, SETTLES, (Libconfig, es))
  {
    LibconfigCycles(n, es);
    LibconfigCycles(SETTLES, es);
    SelectMembers(es, "");
    StampedSettles(Select(es, ""), n);
    GroupsSettle(es, GROUPS, n);
  }

  // ----- a set that flips later -----------------------------------------------------------------

  /** A set with a root statement in front that does not survive: two cycles, two formats. */
  lemma FlipsLater(es: seq<Entry>)
    requires LibClean(es) && RootFirst(es) && !SolidFirst(es)
    ensures Cycle((Libconfig, es)).0 == Libconfig && Cycle(Cycle((Libconfig, es))).0 == Legacy
  {
    LibconfigCycle(es);
    LoadedFirst(es);
    LoadedClean(es, 1);
    RootFirstAfter(es, 1);
    LibconfigCycle(Loaded(es));
  }

  /** The second condition is needed: an empty title in front of a '$' key flips on the second save. */
  lemma FlipsOnSecondSave()
    ensures var s := (Libconfig, [Entry("title", ""), Entry("$NeutrinoArgs", "x")]);
            LibClean(s.1) && Cycle(s).0 == Libconfig && Cycle(Cycle(s)).0 == Legacy
  {
    var t, a := Entry("title", ""), Entry("$NeutrinoArgs", "x");
    TitleIsClean();
    ArgsAreClean();
    SelectOwn([t, a], "", "");
    assert [t, a][1..] == [a];
    assert FirstSolidRoot([a]) == Some(a.key);
    FlipsLater([t, a]);
  }

  lemma TitleIsClean()
    ensures var t := Entry("title", ""); Clean(t) && Written(t) && GroupOf(t.key) == "" && IsIdent(TheirName(t.key))
  {
  }

  lemma ArgsAreClean()
    ensures var a := Entry("$NeutrinoArgs", "x");
            Clean(a) && Written(a) && GroupOf(a.key) == "" && !IsIdent(TheirName(a.key))
  {
  }
}
