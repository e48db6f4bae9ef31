/** What a set looks like after it has been saved in the legacy syntax and loaded again. */
module LegacyRoundTrips {
  import opened Wrappers
  import opened Text
  import opened ConfigStore
  import opened ConfigFormat

  // ----- lines of a text ------------------------------------------------------------------------

  predicate OneLine(s: string) {
    NoneOf(s, {'\n'}) && s != "" && s[0] != '#' && s[|s| - 1] != '\r'
  }

  lemma LinesOf(s: string, rest: string)
    requires OneLine(s)
    ensures Lines(s + "\n" + rest) == [s] + Lines(rest)
  {
    var text := s + "\n" + rest;
    FindIs(text, '\n', |s|);
    assert text[..|s|] == s && text[|s| + 1..] == rest;
  }

  lemma ReadOne(r: Reader, s: string, rest: string)
    requires OneLine(s)
    ensures ReadLines(r, Lines(s + "\n" + rest)) == ReadLines(ReadLine(r, s), Lines(rest))
  {
    LinesOf(s, rest);
    assert ([s] + Lines(rest))[1..] == Lines(rest);
  }

  // ----- the legacy syntax ----------------------------------------------------------------------

  predicate LineKey(k: string) {
    KeyValid(k) && |k| < KEY_NAME_LEN && NoneOf(k, {'\n'}) && !IsWS(k[0])
  }

  /** What the store can hold and one line can carry. */
  predicate Storable(e: Entry) {
    KeyValid(e.key) && |e.key| < KEY_NAME_LEN && NoneOf(e.key, {'\n'}) && |e.val| < KEY_VALUE_LEN && NoneOf(e.val, {'\n'})
  }

  predicate LegacyStorable(es: seq<Entry>) {
    forall i :: 0 <= i < |es| && Written(es[i]) ==> Storable(es[i])
  }

  /** How a written pair is read: without the blanks in front of its key, and without a carriage return at the
      end of its value. */
  function LineRead(e: Entry): Entry {
    Entry(TrimStart(e.key), DropLast(e.val, '\r'))
  }

  predicate IsKept(e: Entry) {
    e.key != "" && !IsWS(e.key[0]) && (e.val != "" ==> e.val[|e.val| - 1] != '\r')
  }

  function OnlyWritten(es: seq<Entry>): seq<Entry> {
    if es == [] then []
    else if Written(es[0]) then [es[0]] + OnlyWritten(es[1..])
    else OnlyWritten(es[1..])
  }

  function LinesRead(es: seq<Entry>): seq<Entry> {
    if es == [] then []
    else if Written(es[0]) then [LineRead(es[0])] + LinesRead(es[1..])
    else LinesRead(es[1..])
  }

  /** Without the leading pairs whose keys look like comments. */
  function FromFirstKey(es: seq<Entry>): seq<Entry> {
    if es == [] || !IsComment(es[0].key) then es else FromFirstKey(es[1..])
  }

  /** What a save and a load in the legacy syntax carry over, pair by pair. */
  function Carried(es: seq<Entry>): seq<Entry> {
    FromFirstKey(LinesRead(es))
  }

  /** And the set that becomes of it. */
  function Reloaded(es: seq<Entry>): seq<Entry> {
    Merge([], Carried(es))
  }

  /** The first line that says anything of the format would be taken for libconfig. */
  predicate MisreadFirst(es: seq<Entry>) {
    Carried(es) != [] && Misread(Carried(es)[0].key, Carried(es)[0].val)
  }

  lemma StatementIff(k: string, t: string)
    requires k != "" && !HasChar(k, '=')
    ensures IsStatement(k + "=" + t) <==>
            IsWS(k[|k| - 1]) && IsIdent(TrimEnd(k)) && t != "" && t[|t| - 1] == ';'
  {
    var body := k + "=" + t;
    FindIs(body, '=', |k|);
    assert body[..|k|] == k && body[|k| - 1] == k[|k| - 1];
    assert body[|body| - 1] == if t == "" then '=' else t[|t| - 1];
  }

  lemma TrimmedLine(k: string, v: string)
    requires k != "" && !IsWS(k[0])
    ensures TrimEnd(TrimStart(k + "=" + v)) == k + "=" + TrimEnd(v)
  {
    var head := k + "=";
    TrimEndAppend(head, v);
    TrimStartIs(head + v, 0);
    assert TrimStart(head + v) == head + v;
  }

  lemma NotAComment(k: string, t: string)
    requires k != "" && !IsComment(k)
    ensures !IsComment(k + "=" + t)
  {
    var body := k + "=" + t;
    assert body[0] == k[0] && (|k| > 1 ==> body[1] == k[1]);
  }

  /** The key ends in a blank, the rest of it is an identifier, and the value ends in a semicolon. */
  predicate Misread(k: string, v: string) {
    && k != "" && IsWS(k[|k| - 1]) && IsIdent(TrimEnd(k))
    && TrimEnd(v) != "" && TrimEnd(v)[|TrimEnd(v)| - 1] == ';'
  }

  /** A saved legacy line is taken for libconfig exactly when it looks like a statement. */
  lemma LegacyLineClass(k: string, v: string)
    requires KeyValid(k) && !IsWS(k[0]) && !IsComment(k)
    ensures Classify(k + "=" + v) == if Misread(k, v) then LibconfigLine else LegacyLine
  {
    TrimmedLine(k, v);
    NotAComment(k, TrimEnd(v));
    StatementIff(k, TrimEnd(v));
  }

  lemma CommentKeyClass(k: string, v: string)
    requires KeyValid(k) && IsComment(k)
    ensures Classify(k + "=" + v) == CommentLine
  {
    TrimmedLine(k, v);
    var body := k + "=" + TrimEnd(v);
    assert body[0] == k[0] && (|k| > 1 ==> body[1] == k[1]);
  }

  lemma BlankKeyClass(line: string)
    requires line != "" && line[0] == '='
    ensures Classify(line) == LegacyLine
  {
    NoBlankInFront(line);
    var body := TrimEnd(line);
    assert LastNonBlank(line, |line|) > 0 by { assert !IsWS(line[0]); }
    assert body != "" && body[0] == '=';
    FindIs(body, '=', 0);
    StartsWithEquals(line, body);
  }

  lemma NoBlankInFront(s: string)
    requires s == "" || !IsWS(s[0])
    ensures TrimStart(s) == s
  {
    TrimStartIs(s, 0);
    assert s[0..] == s;
  }

  lemma StartsWithEquals(line: string, body: string)
    requires TrimEnd(TrimStart(line)) == body && body != "" && body[0] == '=' && Find(body, '=') == 0
    ensures Classify(line) == LegacyLine
  {
  }

  lemma SameBodySameClass(a: string, b: string)
    requires TrimStart(a) == TrimStart(b)
    ensures Classify(a) == Classify(b)
  {
  }

  /** Blanks in front of a key stay blanks in front of its line. */
  lemma TrimmedKey(k: string, v: string)
    requires KeyValid(k)
    ensures TrimStart(k + "=" + v) == TrimStart(k) + "=" + v
    ensures TrimStart(k) != "" ==> KeyValid(TrimStart(k)) && !IsWS(TrimStart(k)[0])
  {
    var at, line := FirstNonBlank(k, 0), k + "=" + v;
    forall i | 0 <= i < |k| ensures line[i] == k[i] { }
    assert line[|k|] == '=';
    TrimStartIs(line, at);
    assert line[at..] == k[at..] + "=" + v;
    if at < |k| { assert forall i :: 0 <= i < |k[at..]| ==> k[at..][i] == k[at + i]; }
  }

  lemma TrimmedAgain(s: string)
    ensures TrimStart(TrimStart(s)) == TrimStart(s)
  {
    NoBlankInFront(TrimStart(s));
  }

  /** The class of any written line. */
  lemma AnyLineClass(k: string, v: string)
    requires KeyValid(k)
    ensures var t := TrimStart(k);
            Classify(k + "=" + v) ==
            if t != "" && IsComment(t) then CommentLine else if Misread(t, v) then LibconfigLine else LegacyLine
  {
    var t := TrimStart(k);
    TrimmedKey(k, v);
    TrimmedAgain(k + "=" + v);
    SameBodySameClass(k + "=" + v, t + "=" + v);
    if t == "" {
      BlankKeyClass(t + "=" + v);
    } else if IsComment(t) {
      CommentKeyClass(t, v);
    } else {
      LegacyLineClass(t, v);
    }
  }

  lemma SplitsTrimmed(line: string, t: string, v: string)
    requires TrimStart(line) == t + "=" + v && !HasChar(t, '=') && |t| < KEY_NAME_LEN && |v| < KEY_VALUE_LEN
    ensures SplitAssignment(line) == Some((t, v))
  {
    var p := t + "=" + v;
    Halves(t, v);
    assert forall i :: 0 <= i < |t| ==> p[i] == t[i];
    FindIs(p, '=', |t|);
  }

  lemma Halves(k: string, v: string)
    ensures var line := k + "=" + v;
            line[..|k|] == k && line[|k|] == '=' && line[|k| + 1..] == v && (k != "" ==> line[0] == k[0])
  {
  }

  lemma AnyLineSplits(k: string, v: string)
    requires KeyValid(k) && |k| < KEY_NAME_LEN && |v| < KEY_VALUE_LEN
    ensures SplitAssignment(k + "=" + v) == Some((TrimStart(k), v))
  {
    TrimmedKey(k, v);
    assert !HasChar(TrimStart(k), '=') by { if TrimStart(k) == "" {} }
    SplitsTrimmed(k + "=" + v, TrimStart(k), v);
  }

  /** The line settles the format as legacy, or finds it settled. */
  predicate ReadsLegacy(r: Reader, l: Entry) {
    if r.latched then r.format == Legacy else !IsComment(l.key) && !Misread(l.key, l.val)
  }

  lemma KeyLineReads(r: Reader, k: string, v: string)
    requires KeyValid(k) && |k| < KEY_NAME_LEN && |v| < KEY_VALUE_LEN && r.prefix == ""
    requires ReadsLegacy(r, Entry(TrimStart(k), v))
    ensures ReadLine(r, k + "=" + v) ==
            r.(latched := true, format := Legacy, entries := Set(r.entries, TrimStart(k), v))
  {
    if !r.latched { AnyLineClass(k, v); }
    AnyLineSplits(k, v);
    BodyReads(r.(latched := true, format := Legacy), k + "=" + v, TrimStart(k), v);
  }

  lemma BodyReads(r: Reader, line: string, k: string, v: string)
    requires r.format == Legacy && r.prefix == "" && SplitAssignment(line) == Some((k, v))
    ensures ReadBody(r, line) == r.(entries := Set(r.entries, k, v))
  {
  }

  /** A key that starts like a comment says nothing before the format is settled. */
  lemma CommentKeyIsSkipped(r: Reader, k: string, v: string)
    requires KeyValid(k) && !r.latched && IsComment(TrimStart(k))
    ensures ReadLine(r, k + "=" + v) == r
  {
    AnyLineClass(k, v);
  }

  lemma MisreadLineLatches(r: Reader, k: string, v: string)
    requires KeyValid(k) && !r.latched && !IsComment(TrimStart(k)) && Misread(TrimStart(k), v)
    ensures ReadLine(r, k + "=" + v).latched && ReadLine(r, k + "=" + v).format == Libconfig
  {
    AnyLineClass(k, v);
  }

  lemma SetNew(es: seq<Entry>, k: string, v: string)
    requires AllFit(es) && KeyValid(k) && |k| < KEY_NAME_LEN && |v| < KEY_VALUE_LEN
    requires forall i :: 0 <= i < |es| ==> es[i].key != k
    ensures Set(es, k, v) == es + [Entry(k, v)]
  {
    if IndexOf(es, k) < |es| { SameShortKey(es[IndexOf(es, k)].key, k); }
  }

  ghost predicate Apart(es: seq<Entry>, fs: seq<Entry>) {
    forall i, j :: 0 <= i < |es| && 0 <= j < |fs| ==> es[i].key != fs[j].key
  }

  lemma Advance(acc: seq<Entry>, es: seq<Entry>)
    requires es != [] && Unique(es) && Apart(acc, es)
    ensures Unique(es[1..]) && Apart(acc, es[1..]) && Apart(acc + [es[0]], es[1..])
  {
    assert forall j :: 0 <= j < |es[1..]| ==> es[1..][j] == es[j + 1];
  }

  lemma LinesOfAny(s: string, rest: string)
    requires NoneOf(s, {'\n'}) && s != "" && s[0] != '#'
    ensures Lines(s + "\n" + rest) == [DropLast(s, '\r')] + Lines(rest)
  {
    var text := s + "\n" + rest;
    FindIs(text, '\n', |s|);
    assert text[..|s|] == s && text[|s| + 1..] == rest;
  }

  lemma LineOfAny(e: Entry, rest: string)
    requires Storable(e) && Written(e)
    ensures Lines(e.key + "=" + e.val + "\n" + rest) == [e.key + "=" + DropLast(e.val, '\r')] + Lines(rest)
  {
    var s := e.key + "=" + e.val;
    Halves(e.key, e.val);
    forall i | 0 <= i < |s| ensures s[i] != '\n' {
      assert s[i] == if i < |e.key| then e.key[i] else if i == |e.key| then '=' else e.val[i - |e.key| - 1];
    }
    LinesOfAny(s, rest);
    assert s[|s| - 1] == if e.val == "" then '=' else e.val[|e.val| - 1];
    assert DropLast(s, '\r') == e.key + "=" + DropLast(e.val, '\r');
  }

  lemma ReadAny(r: Reader, e: Entry, rest: string)
    requires Storable(e) && Written(e)
    ensures ReadLines(r, Lines(e.key + "=" + e.val + "\n" + rest)) ==
            ReadLines(ReadLine(r, e.key + "=" + LineRead(e).val), Lines(rest))
  {
    LineOfAny(e, rest);
    assert ([e.key + "=" + LineRead(e).val] + Lines(rest))[1..] == Lines(rest);
  }

  /** Once the format is settled every line is read. */
  lemma {:induction false} SettledReads(r: Reader, es: seq<Entry>)
    requires LegacyStorable(es) && r.prefix == "" && r.latched && r.format == Legacy
    ensures ReadLines(r, Lines(LegacyText(es))) == r.(entries := Merge(r.entries, LinesRead(es)))
    decreases |es|
  {
    if es != [] {
      assert forall j :: 0 <= j < |es[1..]| ==> es[1..][j] == es[j + 1];
      if !Written(es[0]) {
        SettledReads(r, es[1..]);
      } else {
        var l := LineRead(es[0]);
        ReadAny(r, es[0], LegacyText(es[1..]));
        KeyLineReads(r, es[0].key, l.val);
        SettledReads(r.(entries := Set(r.entries, l.key, l.val)), es[1..]);
        MergeFirst(r.entries, l, LinesRead(es[1..]));
      }
    }
  }

  lemma MergeFirst(acc: seq<Entry>, l: Entry, rest: seq<Entry>)
    ensures Merge(acc, [l] + rest) == Merge(Set(acc, l.key, l.val), rest)
  {
    assert ([l] + rest)[1..] == rest;
  }

  /** What is read when the lines up to the first key have been skipped. */
  function AfterLegacy(r: Reader, ls: seq<Entry>): Reader {
    if ls == [] then r else r.(latched := true, format := Legacy, entries := Merge(r.entries, ls))
  }

  lemma {:induction false} LegacyReads(r: Reader, es: seq<Entry>)
    requires LegacyStorable(es) && r.prefix == "" && !r.latched && !MisreadFirst(es)
    ensures ReadLines(r, Lines(LegacyText(es))) == AfterLegacy(r, Carried(es))
    decreases |es|
  {
    if es != [] {
      var e, rest := es[0], LinesRead(es[1..]);
      var l := LineRead(e);
      assert forall j :: 0 <= j < |es[1..]| ==> es[1..][j] == es[j + 1];
      if !Written(e) {
        LegacyReads(r, es[1..]);
      } else {
        assert ([l] + rest)[1..] == rest;
        ReadAny(r, e, LegacyText(es[1..]));
        if IsComment(l.key) {
          CommentKeyIsSkipped(r, e.key, l.val);
          LegacyReads(r, es[1..]);
        } else {
          KeyLineReads(r, e.key, l.val);
          SettledReads(r.(latched := true, format := Legacy, entries := Set(r.entries, l.key, l.val)), es[1..]);
          MergeFirst(r.entries, l, rest);
        }
      }
    }
  }

  lemma {:induction false} FormatStays(r: Reader, lines: seq<string>)
    requires r.latched
    ensures ReadLines(r, lines).format == r.format
    decreases |lines|
  {
    if lines != [] { FormatStays(ReadLine(r, lines[0]), lines[1..]); }
  }

  lemma {:induction false} MisreadLatches(r: Reader, es: seq<Entry>)
    requires LegacyStorable(es) && MisreadFirst(es) && !r.latched && r.prefix == ""
    ensures ReadLines(r, Lines(LegacyText(es))).format == Libconfig
    decreases |es|
  {
    var e, rest := es[0], LinesRead(es[1..]);
    var l := LineRead(e);
    assert forall j :: 0 <= j < |es[1..]| ==> es[1..][j] == es[j + 1];
    if !Written(e) {
      MisreadLatches(r, es[1..]);
    } else {
      assert ([l] + rest)[1..] == rest;
      ReadAny(r, e, LegacyText(es[1..]));
      if IsComment(l.key) {
        CommentKeyIsSkipped(r, e.key, l.val);
        MisreadLatches(r, es[1..]);
      } else {
        MisreadLineLatches(r, e.key, l.val);
        FormatStays(ReadLine(r, e.key + "=" + l.val), Lines(LegacyText(es[1..])));
      }
    }
  }

  /** Saving in the legacy syntax and loading gives the written pairs one after the other, as their lines are
      read, but for the leading ones that look like comments, unless the first other line is taken for
      libconfig. */
  lemma LegacyRoundTrip(es: seq<Entry>)
    requires LegacyStorable(es)
    ensures var r := Load(LegacyText(es), Legacy, []);
            if MisreadFirst(es) then r.format == Libconfig else r.entries == Reloaded(es) && r.format == Legacy
  {
    var r := Reader(false, Legacy, "", "", []);
    if MisreadFirst(es) { MisreadLatches(r, es); } else { LegacyReads(r, es); }
  }

  // ----- when everything comes back -------------------------------------------------------------

  lemma {:induction false} CarriedIsAll(es: seq<Entry>)
    ensures |FromFirstKey(es)| <= |es|
    ensures |FromFirstKey(es)| == |es| <==> es == [] || !IsComment(es[0].key)
    ensures es == [] || !IsComment(es[0].key) ==> FromFirstKey(es) == es
  {
    if es != [] && IsComment(es[0].key) { CarriedIsAll(es[1..]); }
  }

  lemma LineFits(e: Entry)
    requires Storable(e)
    ensures Fits(LineRead(e))
  {
  }

  lemma {:induction false} WrittenAreStorable(es: seq<Entry>)
    requires LegacyStorable(es)
    ensures forall i :: 0 <= i < |OnlyWritten(es)| ==> Written(OnlyWritten(es)[i]) && Storable(OnlyWritten(es)[i])
  {
    if es != [] {
      assert forall j :: 0 <= j < |es[1..]| ==> es[1..][j] == es[j + 1];
      WrittenAreStorable(es[1..]);
    }
  }

  lemma {:induction false} LinesAreRead(es: seq<Entry>)
    ensures |LinesRead(es)| == |OnlyWritten(es)|
    ensures forall i :: 0 <= i < |OnlyWritten(es)| ==> LinesRead(es)[i] == LineRead(OnlyWritten(es)[i])
  {
    if es != [] { LinesAreRead(es[1..]); }
  }

  lemma LinesFit(es: seq<Entry>)
    requires LegacyStorable(es)
    ensures |LinesRead(es)| == |OnlyWritten(es)| && AllFit(LinesRead(es))
    ensures forall i :: 0 <= i < |OnlyWritten(es)| ==> LinesRead(es)[i] == LineRead(OnlyWritten(es)[i])
    ensures forall i :: 0 <= i < |OnlyWritten(es)| ==> Written(OnlyWritten(es)[i]) && Storable(OnlyWritten(es)[i])
  {
    WrittenAreStorable(es);
    LinesAreRead(es);
    forall i | 0 <= i < |OnlyWritten(es)| ensures Fits(LinesRead(es)[i]) { LineFits(OnlyWritten(es)[i]); }
  }

  lemma KeptIsRead(e: Entry)
    requires e.key != ""
    ensures LineRead(e) == e <==> IsKept(e)
  {
    TrimmedIff(e.key);
    DroppedIff(e.val, '\r');
  }

  lemma TrimmedIff(s: string)
    requires s != ""
    ensures TrimStart(s) == s <==> !IsWS(s[0])
  {
    if !IsWS(s[0]) {
      NoBlankInFront(s);
    } else {
      assert |TrimStart(s)| < |s|;
    }
  }

  lemma DroppedIff(s: string, c: char)
    ensures DropLast(s, c) == s <==> (s != "" ==> s[|s| - 1] != c)
  {
    if s != "" && s[|s| - 1] == c { assert |DropLast(s, c)| < |s|; }
  }

  lemma SetLength(es: seq<Entry>, e: Entry)
    requires AllFit(es) && Fits(e)
    ensures AllFit(Set(es, e.key, e.val)) && |Set(es, e.key, e.val)| <= |es| + 1
    ensures |Set(es, e.key, e.val)| == |es| + 1 ==>
              Set(es, e.key, e.val) == es + [e] && forall i :: 0 <= i < |es| ==> es[i].key != e.key
  {
    forall i | 0 <= i < |es| ensures SameKey(es[i].key, e.key) <==> es[i].key == e.key { SameShortKey(es[i].key, e.key); }
  }

  lemma {:induction false} MergeLength(acc: seq<Entry>, ls: seq<Entry>)
    requires AllFit(acc) && AllFit(ls)
    ensures |Merge(acc, ls)| <= |acc| + |ls|
    decreases |ls|
  {
    if ls != [] {
      assert AllFit(ls[1..]);
      SetLength(acc, ls[0]);
      MergeLength(Set(acc, ls[0].key, ls[0].val), ls[1..]);
    }
  }

  /** A merge that loses nothing has merged distinct keys. */
  lemma {:induction false} FullMerge(acc: seq<Entry>, ls: seq<Entry>)
    requires AllFit(acc) && AllFit(ls) && Unique(acc) && |Merge(acc, ls)| == |acc| + |ls|
    ensures Merge(acc, ls) == acc + ls && Unique(acc + ls)
    decreases |ls|
  {
    if ls == [] {
      Nil(acc);
    } else {
      assert AllFit(ls[1..]);
      SetLength(acc, ls[0]);
      MergeLength(Set(acc, ls[0].key, ls[0].val), ls[1..]);
      FullMerge(acc + [ls[0]], ls[1..]);
      Assoc(acc, [ls[0]], ls[1..]);
      assert ls == [ls[0]] + ls[1..];
    }
  }

  lemma {:induction false} MergeApart(acc: seq<Entry>, ls: seq<Entry>)
    requires AllFit(acc) && AllFit(ls) && AllKeysValid(ls) && Unique(ls) && Apart(acc, ls)
    ensures Merge(acc, ls) == acc + ls
    decreases |ls|
  {
    if ls == [] {
      Nil(acc);
    } else {
      Advance(acc, ls);
      SetNew(acc, ls[0].key, ls[0].val);
      MergeApart(acc + [ls[0]], ls[1..]);
      Assoc(acc, [ls[0]], ls[1..]);
      assert ls == [ls[0]] + ls[1..];
    }
  }

  /** The first written pair neither looks like a comment nor is taken for libconfig, the written keys are
      unique, and no line loses anything. */
  ghost predicate KeepsAll(ws: seq<Entry>) {
    ws == [] ||
    (!IsComment(ws[0].key) && !Misread(ws[0].key, ws[0].val) && Unique(ws) && forall i :: 0 <= i < |ws| ==> IsKept(ws[i]))
  }

  lemma AllAreKept(es: seq<Entry>)
    requires LegacyStorable(es)
    ensures LinesRead(es) == OnlyWritten(es) <==> forall i :: 0 <= i < |OnlyWritten(es)| ==> IsKept(OnlyWritten(es)[i])
  {
    LinesFit(es);
    SameWhenKept(OnlyWritten(es), LinesRead(es));
  }

  lemma SameWhenKept(ws: seq<Entry>, ls: seq<Entry>)
    requires |ls| == |ws| && forall i :: 0 <= i < |ws| ==> ws[i].key != "" && ls[i] == LineRead(ws[i])
    ensures ls == ws <==> forall i :: 0 <= i < |ws| ==> IsKept(ws[i])
  {
    if forall i :: 0 <= i < |ws| ==> IsKept(ws[i]) {
      forall i | 0 <= i < |ws| ensures ls[i] == ws[i] { KeptIsRead(ws[i]); }
    }
    if ls == ws {
      forall i | 0 <= i < |ws| ensures IsKept(ws[i]) { KeptIsRead(ws[i]); }
    }
  }

  lemma FirstStays(l: Entry, rest: seq<Entry>)
    requires !IsComment(l.key)
    ensures FromFirstKey([l] + rest) == [l] + rest
  {
  }

  lemma LinesCons(x: Entry, rest: seq<Entry>)
    requires Written(x)
    ensures LinesRead([x] + rest) == [LineRead(x)] + LinesRead(rest)
  {
    assert ([x] + rest)[1..] == rest;
  }

  lemma OneLineRead(a: Entry, l: Entry)
    requires Written(a) && LineRead(a) == l
    ensures LinesRead([a]) == [l] && (!IsComment(l.key) ==> Carried([a]) == [l])
  {
    assert [a] == [a] + [] && [l] + [] == [l];
    LinesCons(a, []);
    if !IsComment(l.key) { FirstStays(l, []); }
  }

  lemma KeptComesBack(es: seq<Entry>)
    requires LegacyStorable(es) && KeepsAll(OnlyWritten(es))
    ensures !MisreadFirst(es) && Reloaded(es) == OnlyWritten(es)
  {
    LinesFit(es);
    AllAreKept(es);
    KeptMerges(OnlyWritten(es));
  }

  lemma KeptMerges(ws: seq<Entry>)
    requires KeepsAll(ws) && forall i :: 0 <= i < |ws| ==> Storable(ws[i])
    ensures FromFirstKey(ws) == ws == Merge([], ws)
  {
    CarriedIsAll(ws);
    if ws != [] { MergeApart([], ws); }
    Nil(ws);
  }

  lemma ComesBackIsKept(es: seq<Entry>)
    requires LegacyStorable(es) && !MisreadFirst(es) && Reloaded(es) == OnlyWritten(es)
    ensures KeepsAll(OnlyWritten(es))
  {
    var ls := LinesRead(es);
    LinesFit(es);
    CarriedIsAll(ls);
    CarriedFit(ls);
    MergeLength([], Carried(es));
    FullMerge([], ls);
    Nil(ls);
    AllAreKept(es);
  }

  lemma {:induction false} CarriedFit(ls: seq<Entry>)
    requires AllFit(ls)
    ensures AllFit(FromFirstKey(ls))
  {
    if ls != [] && IsComment(ls[0].key) { CarriedFit(ls[1..]); }
  }

  /** All the written pairs and the format come back exactly when this is so. */
  lemma LegacyKeepsAllIff(es: seq<Entry>)
    requires LegacyStorable(es)
    ensures var r := Load(LegacyText(es), Legacy, []);
            r.entries == OnlyWritten(es) && r.format == Legacy <==> KeepsAll(OnlyWritten(es))
  {
    LegacyRoundTrip(es);
    if KeepsAll(OnlyWritten(es)) { KeptComesBack(es); }
    if !MisreadFirst(es) && Reloaded(es) == OnlyWritten(es) { ComesBackIsKept(es); }
  }

  // ----- the set that comes back ----------------------------------------------------------------

  /** A set of which every written line is read as it is. */
  ghost predicate LegacyClean(es: seq<Entry>) {
    Unique(es) && forall i :: 0 <= i < |es| && Written(es[i]) ==> Storable(es[i]) && IsKept(es[i])
  }

  /** No value ends in two carriage returns. */
  predicate SingleReturns(es: seq<Entry>) {
    forall i :: 0 <= i < |es| && Written(es[i]) ==> DropLast(DropLast(es[i].val, '\r'), '\r') == DropLast(es[i].val, '\r')
  }

  ghost predicate AllClean(es: seq<Entry>) {
    Unique(es) && forall i :: 0 <= i < |es| ==> Storable(es[i]) && IsKept(es[i])
  }

  predicate CleanLine(l: Entry) {
    l.key == "" || (Storable(l) && IsKept(l))
  }

  lemma SetIsClean(es: seq<Entry>, l: Entry)
    requires AllClean(es) && CleanLine(l)
    ensures AllClean(Set(es, l.key, l.val))
  {
    if l.key != "" {
      forall i | 0 <= i < |es| ensures SameKey(es[i].key, l.key) <==> es[i].key == l.key { SameShortKey(es[i].key, l.key); }
    }
  }

  lemma {:induction false} MergeIsClean(acc: seq<Entry>, ls: seq<Entry>)
    requires AllClean(acc) && forall i :: 0 <= i < |ls| ==> CleanLine(ls[i])
    ensures AllClean(Merge(acc, ls))
    decreases |ls|
  {
    if ls != [] {
      SetIsClean(acc, ls[0]);
      assert forall j :: 0 <= j < |ls[1..]| ==> ls[1..][j] == ls[j + 1];
      MergeIsClean(Set(acc, ls[0].key, ls[0].val), ls[1..]);
    }
  }

  lemma LineIsClean(e: Entry)
    requires Storable(e) && DropLast(DropLast(e.val, '\r'), '\r') == DropLast(e.val, '\r')
    ensures CleanLine(LineRead(e))
  {
    TrimmedKey(e.key, e.val);
    var k := TrimStart(e.key);
    if k != "" {
      forall i | 0 <= i < |k| ensures k[i] != '\n' { assert k[i] == e.key[i + |e.key| - |k|]; }
    }
  }

  lemma {:induction false} LinesAreClean(es: seq<Entry>)
    requires LegacyStorable(es) && SingleReturns(es)
    ensures forall i :: 0 <= i < |LinesRead(es)| ==> CleanLine(LinesRead(es)[i])
  {
    if es != [] {
      assert forall j :: 0 <= j < |es[1..]| ==> es[1..][j] == es[j + 1];
      LinesAreClean(es[1..]);
      if Written(es[0]) { LineIsClean(es[0]); }
    }
  }

  lemma {:induction false} DroppedAreClean(ls: seq<Entry>)
    requires forall i :: 0 <= i < |ls| ==> CleanLine(ls[i])
    ensures forall i :: 0 <= i < |FromFirstKey(ls)| ==> CleanLine(FromFirstKey(ls)[i])
  {
    if ls != [] && IsComment(ls[0].key) { DroppedAreClean(ls[1..]); }
  }

  /** After one save and load, the next ones lose nothing but '#' keys and leading ones like comments. */
  lemma ReloadedIsClean(es: seq<Entry>)
    requires LegacyStorable(es) && SingleReturns(es)
    ensures LegacyClean(Reloaded(es))
  {
    LinesAreClean(es);
    DroppedAreClean(LinesRead(es));
    MergeIsClean([], Carried(es));
  }

  /** What a clean set carries over. */
  lemma CleanCarries(es: seq<Entry>)
    requires LegacyClean(es)
    ensures LegacyStorable(es) && SingleReturns(es)
    ensures Carried(es) == FromFirstKey(OnlyWritten(es)) && Reloaded(es) == Carried(es)
  {
    CleanLines(es);
    CleanWritten(es);
    CleanDropped(OnlyWritten(es));
    MergeApart([], Carried(es));
    Nil(Carried(es));
  }

  lemma {:induction false} CleanLines(es: seq<Entry>)
    requires LegacyClean(es)
    ensures LinesRead(es) == OnlyWritten(es)
  {
    if es != [] {
      assert forall j :: 0 <= j < |es[1..]| ==> es[1..][j] == es[j + 1];
      CleanLines(es[1..]);
      if Written(es[0]) { KeptIsRead(es[0]); }
    }
  }

  lemma {:induction false} OnlyWrittenSound(es: seq<Entry>, e: Entry)
    requires e in OnlyWritten(es)
    ensures e in es && Written(e)
  {
    if e != es[0] || !Written(e) { OnlyWrittenSound(es[1..], e); }
  }

  lemma {:induction false} CleanWritten(es: seq<Entry>)
    requires LegacyClean(es)
    ensures AllClean(OnlyWritten(es)) && forall i :: 0 <= i < |OnlyWritten(es)| ==> Written(OnlyWritten(es)[i])
  {
    if es != [] {
      assert forall j :: 0 <= j < |es[1..]| ==> es[1..][j] == es[j + 1];
      CleanWritten(es[1..]);
      var rest := OnlyWritten(es[1..]);
      forall j | 0 <= j < |rest| ensures rest[j].key != es[0].key { OnlyWrittenSound(es[1..], rest[j]); }
    }
  }

  lemma {:induction false} CleanDropped(es: seq<Entry>)
    requires AllClean(es)
    ensures AllClean(FromFirstKey(es)) && AllFit(FromFirstKey(es)) && AllKeysValid(FromFirstKey(es))
  {
    if es != [] && IsComment(es[0].key) {
      assert forall j :: 0 <= j < |es[1..]| ==> es[1..][j] == es[j + 1];
      CleanDropped(es[1..]);
    }
  }
}
