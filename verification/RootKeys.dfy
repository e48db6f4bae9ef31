/** Root pairs under any keys: what their libconfig lines are read as, and which keys come back. */
module RootKeys {
  import opened Wrappers
  import opened Text
  import opened ConfigStore
  import opened ConfigFormat
  import opened EscapedValues
  import opened LegacyRoundTrips
  import opened LibconfigRoundTrips
  import opened LoadedSets

  /** A pair that is written on a line of its own, in front of all groups. */
  predicate RootPair(e: Entry) {
    Written(e) && Storable(e) && GroupOf(e.key) == ""
  }

  predicate RootPairs(es: seq<Entry>) {
    forall i :: 0 <= i < |es| ==> RootPair(es[i])
  }

  // ----- one line -------------------------------------------------------------------------------

  /** The group in force and the set after such a line: skipped like a comment, the end or the start of a
      group, or a pair stored under the name of its group. */
  function ReadPair(e: Entry, group: string, acc: seq<Entry>): (string, seq<Entry>) {
    (GroupAfter(e, group),
     match StoredAs(e.key, group)
     case Some(name) => if e.val == "" then acc else Set(acc, name, Back(e.val))
     case None => acc)
  }

  predicate Skipped(p: string) {
    p == "" || IsComment(p) || p[0] == '{'
  }

  function GroupAfter(e: Entry, group: string): string {
    var p := TrimStart(TheirName(e.key));
    if Skipped(p) then group
    else if p[0] == '}' then ""
    else if Find(p, ':') < |p| then ReadHeader(TrimEnd(p[..Find(p, ':')]), group)
    else group
  }

  function StoredAs(k: string, group: string): Option<string> {
    var p := TrimStart(TheirName(k));
    if Skipped(p) || p[0] == '}' || Find(p, ':') < |p| then None else Some(OurName(group, TrimEnd(p)))
  }

  lemma LineStart(p: string, rs: string)
    requires p != "" && !IsWS(p[0])
    ensures var line := p + " = " + rs + ";";
            TrimStart(line) == line && line[0] == p[0] && (IsComment(line) <==> IsComment(p))
  {
    var line := p + " = " + rs + ";";
    assert line[0] == p[0] && line[1] == if |p| > 1 then p[1] else ' ';
    NoBlankInFront(line);
  }

  lemma LineMarks(p: string, rs: string)
    requires !HasChar(p, '=')
    ensures var line := p + " = " + rs + ";";
            && Find(line, '=') == |p| + 1
            && (if Find(p, ':') < |p| then Find(line, ':') == Find(p, ':') else Find(line, ':') > |p| + 1)
  {
    var line := p + " = " + rs + ";";
    assert forall i :: 0 <= i < |p| ==> line[i] == p[i];
    assert line[|p|] == ' ';
    FindIs(line, '=', |p| + 1);
    if Find(p, ':') < |p| { FindIs(line, ':', Find(p, ':')); }
  }

  lemma LineFront(p: string, rs: string, n: nat)
    requires n <= |p|
    ensures (p + " = " + rs + ";")[..n] == p[..n]
  {
  }

  lemma LineSides(p: string, rs: string)
    requires SafeRight(rs)
    ensures var line, body := p + " = " + rs + ";", p + " = " + rs;
            TrimEnd(line[..|p| + 1]) == TrimEnd(p) && TrimStart(body[|p| + 2..]) == rs
  {
    var line, body := p + " = " + rs + ";", p + " = " + rs;
    assert line[..|p| + 1] == p + " ";
    BlankBehind(p);
    TrimStartIs(" " + rs, 1);
    assert body[|p| + 2..] == " " + rs && (" " + rs)[1..] == rs;
  }

  lemma BlankBehind(p: string)
    ensures TrimEnd(p + " ") == TrimEnd(p)
  {
    var m := LastNonBlank(p, |p|);
    assert forall i :: 0 <= i < |p| ==> (p + " ")[i] == p[i];
    TrimEndIs(p + " ", m);
    assert (p + " ")[..m] == p[..m];
  }

  lemma HeaderParsed(line: string, name: string, group: string, acc: seq<Entry>)
    requires line != "" && TrimStart(line) == line && !IsComment(line) && line[0] != '{' && line[0] != '}'
    requires Find(line, ':') < Find(line, '=') && TrimEnd(line[..Find(line, ':')]) == name
    ensures ReadLibconfigLine(line, group, acc) == (ReadHeader(name, group), acc)
  {
  }

  lemma NotParsed(line: string, p: string, group: string, acc: seq<Entry>)
    requires TrimStart(line) == p && p != "" && (IsComment(p) || p[0] == '{' || p[0] == '}')
    ensures ReadLibconfigLine(line, group, acc) == (if !IsComment(p) && p[0] == '}' then "" else group, acc)
  {
  }

  lemma AssignParsed(p: string, rs: string, group: string, acc: seq<Entry>)
    requires p != "" && !IsWS(p[0]) && !HasChar(p, '=') && !HasChar(p, ':') && SafeRight(rs)
    requires !IsComment(p) && p[0] != '{' && p[0] != '}'
    ensures ReadLibconfigLine(p + " = " + rs + ";", group, acc) == (group, ReadScalar(TrimEnd(p), rs, group, acc))
  {
    var line, body := p + " = " + rs + ";", p + " = " + rs;
    LineStart(p, rs);
    LineMarks(p, rs);
    StatementBody(p, rs);
    LineSides(p, rs);
    NotFound(p, ':');
    ParsedReads(line, line, body, |p| + 1, group, acc);
  }

  lemma BlankParsed(line: string, rs: string, group: string, acc: seq<Entry>)
    requires TrimStart(line) == "= " + rs + ";"
    ensures ReadLibconfigLine(line, group, acc) == (group, acc)
  {
    var p := "= " + rs + ";";
    FindIs(p, '=', 0);
    assert p[0] == '=' && p[..0] == "";
  }

  /** A trimmed name. */
  lemma NamedLineReads(p: string, v: string, group: string, acc: seq<Entry>)
    requires p != "" && !IsWS(p[0]) && !HasChar(p, '=') && |p| < KEY_NAME_LEN && LibValue(v)
    ensures var r := ReadLibconfigLine(p + " = " + RightSide(v) + ";", group, acc);
            if Skipped(p) then r == (group, acc)
            else if p[0] == '}' then r == ("", acc)
            else if Find(p, ':') < |p| then r == (ReadHeader(TrimEnd(p[..Find(p, ':')]), group), acc)
            else r == (group, ReadScalar(TrimEnd(p), RightSide(v), group, acc))
  {
    var line := p + " = " + RightSide(v) + ";";
    RightSideReads(v);
    LineStart(p, RightSide(v));
    if Skipped(p) || p[0] == '}' {
      NotParsed(line, line, group, acc);
    } else if Find(p, ':') < |p| {
      LineMarks(p, RightSide(v));
      LineFront(p, RightSide(v), Find(p, ':'));
      HeaderParsed(line, TrimEnd(p[..Find(p, ':')]), group, acc);
    } else {
      AssignParsed(p, RightSide(v), group, acc);
    }
  }

  lemma ScalarIsSet(n: string, v: string, group: string, acc: seq<Entry>)
    requires n != "" && |n| < KEY_NAME_LEN && |v| < KEY_VALUE_LEN
    ensures ReadScalar(n, RightSide(v), group, acc) == if v == "" then acc else Set(acc, OurName(group, n), Back(v))
  {
    RightSideReads(v);
    EscapeLonger(v);
  }

  /** Blanks in front of a name do not matter. */
  lemma SameFromFirst(a: string, b: string, group: string, acc: seq<Entry>)
    requires TrimStart(a) == TrimStart(b)
    ensures ReadLibconfigLine(a, group, acc) == ReadLibconfigLine(b, group, acc)
  {
  }

  lemma LineTrimmed(w: string, tail: string)
    requires !HasChar(w, '=') && tail != ""
    ensures TrimStart(w) != "" ==> TrimStart(w + tail) == TrimStart(w) + tail
    ensures TrimStart(w) == "" ==> TrimStart(w + tail) == TrimStart(tail)
  {
    var at := FirstNonBlank(w, 0);
    assert forall i :: 0 <= i < |w| ==> (w + tail)[i] == w[i];
    if at < |w| {
      TrimStartIs(w + tail, at);
      assert (w + tail)[at..] == w[at..] + tail;
    } else {
      var n := FirstNonBlank(tail, 0);
      assert forall i :: 0 <= i < |tail| ==> (w + tail)[|w| + i] == tail[i];
      TrimStartIs(w + tail, |w| + n);
      assert (w + tail)[|w| + n..] == tail[n..];
    }
  }

  lemma LineAssoc(w: string, rs: string)
    ensures w + " = " + rs + ";" == w + (" = " + rs + ";")
    ensures " = " + rs + ";" == " " + ("= " + rs + ";")
  {
  }

  lemma BlankTail(rs: string)
    ensures TrimStart(" = " + rs + ";") == "= " + rs + ";"
  {
    var tail := " = " + rs + ";";
    LineAssoc("", rs);
    TrimStartIs(tail, 1);
    assert tail[1..] == "= " + rs + ";";
  }

  /** What is written of a root pair, with the blanks in front of its name. */
  lemma AnyNameReads(w: string, v: string, group: string, acc: seq<Entry>)
    requires !HasChar(w, '=') && |w| < KEY_NAME_LEN && LibValue(v)
    ensures var p, r := TrimStart(w), ReadLibconfigLine(w + " = " + RightSide(v) + ";", group, acc);
            if p == "" then r == (group, acc)
            else r == ReadLibconfigLine(p + " = " + RightSide(v) + ";", group, acc)
  {
    var p, tail := TrimStart(w), " = " + RightSide(v) + ";";
    LineAssoc(w, RightSide(v));
    LineAssoc(p, RightSide(v));
    LineTrimmed(w, tail);
    if p == "" {
      BlankTail(RightSide(v));
      BlankParsed(w + tail, RightSide(v), group, acc);
    } else {
      NoBlankInFront(p + tail);
      SameFromFirst(w + tail, p + tail, group, acc);
    }
  }

  lemma NameIsLine(e: Entry)
    requires RootPair(e)
    ensures var w := TheirName(e.key); KeyValid(w) && |w| < KEY_NAME_LEN && NoneOf(w, {'\n'}) && w[0] != '#'
  {
    if OursToWopl(e.key).Some? {
      TableInverse(e.key);
      PlainName(TheirName(e.key));
    }
  }

  lemma TrimmedPartOf(w: string)
    requires KeyValid(w)
    ensures var p := TrimStart(w);
            && |p| <= |w| && !HasChar(p, '=') && (p != "" ==> !IsWS(p[0]) && TrimEnd(p) != "" && |TrimEnd(p)| <= |p|)
  {
    TrimmedKey(w, "");
  }

  /** One line of a root pair, whatever its key. */
  lemma PairIsRead(e: Entry, group: string, acc: seq<Entry>)
    requires RootPair(e)
    ensures ReadLibconfigLine(EntryLine(e, ""), group, acc) == ReadPair(e, group, acc)
  {
    var w := TheirName(e.key);
    var p := TrimStart(w);
    NameIsLine(e);
    RootLine(e);
    TrimmedPartOf(w);
    AnyNameReads(w, e.val, group, acc);
    if p != "" {
      NamedLineReads(p, e.val, group, acc);
      ScalarIsSet(TrimEnd(p), e.val, group, acc);
    }
  }

  lemma LineChar(k: string, rs: string, i: nat)
    requires i < |k + " = " + rs + ";"|
    ensures var c := (k + " = " + rs + ";")[i]; c in k || c in rs || c in {' ', '=', ';'}
  {
  }

  lemma PairIsLine(e: Entry)
    requires RootPair(e)
    ensures OneLine(EntryLine(e, ""))
  {
    RightSideReads(e.val);
    NameIsLine(e);
    RootLine(e);
    var k, rs := TheirName(e.key), RightSide(e.val);
    var line := k + " = " + rs + ";";
    assert line[0] == k[0] && line[|line| - 1] == ';';
    forall i | 0 <= i < |line| ensures line[i] != '\n' { LineChar(k, rs, i); }
  }

  // ----- all lines ------------------------------------------------------------------------------

  function ReadPairs(es: seq<Entry>, group: string, acc: seq<Entry>): (string, seq<Entry>) {
    if es == [] then (group, acc)
    else
      var (g, more) := ReadPair(es[0], group, acc);
      ReadPairs(es[1..], g, more)
  }

  lemma {:induction false} PairsAreRead(r: Reader, es: seq<Entry>)
    requires r.latched && r.format == Libconfig && RootPairs(es)
    ensures var (g, more) := ReadPairs(es, r.group, r.entries);
            ReadLines(r, Lines(Emit(es, ""))) == r.(group := g, entries := more)
    decreases |es|
  {
    if es != [] {
      var line := EntryLine(es[0], "");
      var (g, more) := ReadPair(es[0], r.group, r.entries);
      PairIsLine(es[0]);
      PairIsRead(es[0], r.group, r.entries);
      ReadOne(r, line, Emit(es[1..], ""));
      LatchedReads(r, line, g, more);
      PairsAreRead(r.(group := g, entries := more), es[1..]);
    }
  }

  lemma {:induction false} SelectRoots(es: seq<Entry>, g: string)
    requires RootPairs(es)
    ensures Select(es, g) == if g == "" then es else []
  {
    if es != [] {
      assert forall i :: 0 <= i < |es[1..]| ==> es[1..][i] == es[i + 1];
      SelectRoots(es[1..], g);
      assert es == [es[0]] + es[1..];
    }
  }

  lemma RootsText(es: seq<Entry>)
    requires RootPairs(es)
    ensures LibconfigText(es) == Emit(es, "")
  {
    SelectRoots(es, "");
    forall i | 0 <= i < |GROUPS| ensures Select(es, GROUPS[i]) == [] {
      GroupsNamed(i);
      SelectRoots(es, GROUPS[i]);
    }
    NoBlocks(es, 0);
    Nil(Emit(es, ""));
  }

  lemma {:induction false} NoBlocks(es: seq<Entry>, i: nat)
    requires i <= |GROUPS| && forall j :: 0 <= j < |GROUPS| ==> Select(es, GROUPS[j]) == []
    ensures Blocks(es, i) == ""
    decreases |GROUPS| - i
  {
    if i < |GROUPS| { NoBlocks(es, i + 1); }
  }

  /** The first line settles the format. */
  ghost predicate Opener(first: Entry) {
    Clean(first) && GroupOf(first.key) == "" && IsIdent(TheirName(first.key))
  }

  /** What the reader knows behind the first line. */
  function Opened(first: Entry): Reader {
    Reader(true, Libconfig, "", "", Keep([first]))
  }

  lemma OpenerReads(first: Entry, rest: string)
    requires Opener(first)
    ensures ReadLines(START, Lines(EntryLine(first, "") + "\n" + rest)) == ReadLines(Opened(first), Lines(rest))
  {
    var r := START.(latched := true, format := Libconfig);
    FirstStatement(first);
    FirstLineLatches(EntryLine(first, ""), rest);
    EmitHead(r, first, rest);
    Nil(Keep([first]));
  }

  lemma OpenerText(first: Entry, es: seq<Entry>)
    requires Opener(first) && RootPairs(es)
    ensures LibconfigText([first] + es) == EntryLine(first, "") + "\n" + Emit(es, "")
  {
    assert ([first] + es)[1..] == es;
    RootsText([first] + es);
  }

  /** A first line that settles the format, and any root pairs behind it: the exact list that is loaded. */
  lemma RootsComeBack(first: Entry, es: seq<Entry>)
    requires Opener(first) && RootPairs(es)
    ensures var r := Load(LibconfigText([first] + es), Legacy, []);
            r.format == Libconfig && r.entries == ReadPairs(es, "", Keep([first])).1
  {
    OpenerText(first, es);
    OpenerReads(first, Emit(es, ""));
    PairsAreRead(Opened(first), es);
  }

  // ----- the map that comes back ----------------------------------------------------------------

  /** The group in force in front of line i. */
  function GroupAt(es: seq<Entry>, group: string, i: nat): string
    requires i <= |es|
    decreases |es|
  {
    if i == 0 then group else GroupAt(es[1..], GroupAfter(es[0], group), i - 1)
  }

  /** The value of the last line that is stored under k. */
  function LastValue(es: seq<Entry>, group: string, k: string): Option<string>
    decreases |es|
  {
    if es == [] then None
    else
      match LastValue(es[1..], GroupAfter(es[0], group), k)
      case Some(v) => Some(v)
      case None => if StoredAs(es[0].key, group) == Some(k) && es[0].val != "" then Some(Back(es[0].val)) else None
  }

  /** No line of these opens a group. */
  predicate NoHeaders(es: seq<Entry>) {
    forall i :: 0 <= i < |es| ==> GroupAfter(es[i], "") == ""
  }

  /** A name that fills the buffer may be cut, and only groups make one that long. */
  predicate NotCut(es: seq<Entry>, group: string, k: string) {
    KeyValid(k) && (|k| < KEY_NAME_LEN - 1 || (|k| < KEY_NAME_LEN && group == "" && NoHeaders(es)))
  }

  lemma {:induction false} LookupSet(es: seq<Entry>, name: string, v: string, k: string)
    requires AllFit(es) && KeyValid(name) && |name| < KEY_NAME_LEN && |v| < KEY_VALUE_LEN
    requires KeyValid(k) && |k| < KEY_NAME_LEN
    ensures Lookup(Set(es, name, v), k) == if k == name then Some(v) else Lookup(es, k)
    ensures AllFit(Set(es, name, v))
  {
    if es == [] {
      assert Set(es, name, v) == [Entry(name, v)];
      LookupHead([Entry(name, v)], k);
    } else {
      SameShortKey(es[0].key, name);
      LookupHead(es, k);
      LookupHead(Set(es, name, v), k);
      if es[0].key == name {
        assert Set(es, name, v)[1..] == es[1..];
      } else {
        assert Set(es, name, v)[1..] == Set(es[1..], name, v);
        LookupSet(es[1..], name, v, k);
      }
    }
  }

  /** A name that is cut does not change what shorter ones give. */
  lemma LookupLong(es: seq<Entry>, name: string, v: string, k: string)
    requires AllFit(es) && KeyValid(name) && |name| >= KEY_NAME_LEN && KeyValid(k) && |k| < KEY_NAME_LEN - 1
    requires |v| < KEY_VALUE_LEN
    ensures Lookup(Set(es, name, v), k) == Lookup(es, k) && AllFit(Set(es, name, v))
  {
    var cut := Alloc(name, v);
    assert IndexOf(es, name) == |es|;
    LookupSplits(es, [cut], k);
    LookupHead([cut], k);
  }

  /** The trimmed name of a root pair, and its part in front of a colon. */
  lemma NameParts(e: Entry)
    requires RootPair(e)
    ensures var p := TrimStart(TheirName(e.key));
            !Skipped(p) && p[0] != '}' ==>
              && |p| < KEY_NAME_LEN && GroupName(TrimEnd(p[..Find(p, ':')]))
              && (Find(p, ':') == |p| ==> NamePart(TrimEnd(p)) && !IsWS(TrimEnd(p)[|TrimEnd(p)| - 1]))
  {
    var w := TheirName(e.key);
    var p := TrimStart(w);
    NameIsLine(e);
    TrimmedPartOf(w);
    if !Skipped(p) && p[0] != '}' {
      NoFeeds(w);
      NoEquals(p);
      TrimmedPart(p, Find(p, ':'));
      if Find(p, ':') == |p| { assert p[..|p|] == p; }
    }
  }

  lemma GroupFacts(e: Entry, group: string)
    requires RootPair(e) && GroupName(group)
    ensures GroupName(GroupAfter(e, group))
  {
    NameParts(e);
  }

  lemma StoredFacts(e: Entry, group: string)
    requires RootPair(e) && GroupName(group)
    ensures StoredAs(e.key, group).Some? ==> KeyValid(StoredAs(e.key, group).value)
    ensures StoredAs(e.key, group).Some? && group == "" ==> |StoredAs(e.key, group).value| < KEY_NAME_LEN
  {
    NameParts(e);
    if StoredAs(e.key, group).Some? { StoredName(group, TrimEnd(TrimStart(TheirName(e.key)))); }
  }

  lemma NoFeeds(w: string)
    requires NoneOf(w, {'\n'})
    ensures NoneOf(TrimStart(w), {'\n'})
  {
    TrimsHaveNone(w, '\n');
  }

  lemma NoEquals(p: string)
    requires !HasChar(p, '=')
    ensures Find(p, '=') == |p|
  {
    NotFound(p, '=');
  }

  lemma PairLookup(e: Entry, group: string, acc: seq<Entry>, k: string)
    requires RootPair(e) && GroupName(group) && AllFit(acc) && NotCut([e], group, k)
    ensures var r := ReadPair(e, group, acc).1;
            && AllFit(r)
            && Lookup(r, k) ==
               if StoredAs(e.key, group) == Some(k) && e.val != "" then Some(Back(e.val)) else Lookup(acc, k)
  {
    StoredFacts(e, group);
    if StoredAs(e.key, group).Some? && e.val != "" {
      var name := StoredAs(e.key, group).value;
      BackIsValue(e.val);
      if |name| < KEY_NAME_LEN { LookupSet(acc, name, Back(e.val), k); } else { LookupLong(acc, name, Back(e.val), k); }
    }
  }

  lemma {:induction false} PairsLookup(es: seq<Entry>, group: string, acc: seq<Entry>, k: string)
    requires RootPairs(es) && GroupName(group) && AllFit(acc) && NotCut(es, group, k)
    ensures Lookup(ReadPairs(es, group, acc).1, k) ==
            if LastValue(es, group, k).Some? then LastValue(es, group, k) else Lookup(acc, k)
    decreases |es|
  {
    if es != [] {
      assert forall i :: 0 <= i < |es[1..]| ==> es[1..][i] == es[i + 1];
      assert [es[0]][0] == es[0];
      PairLookup(es[0], group, acc, k);
      GroupFacts(es[0], group);
      PairsLookup(es[1..], GroupAfter(es[0], group), ReadPair(es[0], group, acc).1, k);
    }
  }

  /** Under every key: the value of the last pair that is stored under it, or else of the first line. */
  lemma RootMapComesBack(first: Entry, es: seq<Entry>, k: string)
    requires Opener(first) && RootPairs(es) && NotCut(es, "", k)
    ensures Lookup(Load(LibconfigText([first] + es), Legacy, []).entries, k) ==
            if LastValue(es, "", k).Some? then LastValue(es, "", k)
            else if k == first.key && first.val != "" then Some(Back(first.val)) else None
  {
    RootsComeBack(first, es);
    KeepOne(first);
    BackIsValue(first.val);
    PairsLookup(es, "", Keep([first]), k);
    if first.val != "" {
      LookupHead(Keep([first]), k);
      LookupGone([], k);
    }
  }

  // ----- which keys come back -------------------------------------------------------------------

  /** Outside groups, a key is stored under its own name exactly when it is one of those. */
  lemma OwnNameIff(e: Entry)
    requires RootPair(e)
    ensures StoredAs(e.key, "") == Some(e.key) <==> LibKey(e.key)
  {
    if LibKey(e.key) {
      OwnNameKept(e);
    } else {
      LibKeyOrRoot(e.key);
      OtherNameLost(e);
    }
  }

  lemma OwnNameKept(e: Entry)
    requires RootPair(e) && LibKey(e.key)
    ensures StoredAs(e.key, "") == Some(e.key)
  {
    WrittenName(e.key);
    SafeNameIsKept(TheirName(e.key));
    StoredByName(e.key, TheirName(e.key), "");
  }

  lemma SafeNameIsKept(w: string)
    requires SafeName(w)
    ensures TrimStart(w) == w && !Skipped(w) && w[0] != '}' && Find(w, ':') == |w| && TrimEnd(w) == w
  {
    NoBlankInFront(w);
    TrimEndIs(w, |w|);
    assert w[..|w|] == w;
    NoColon(w);
  }

  lemma StoredByName(k: string, w: string, group: string)
    requires TheirName(k) == w && TrimStart(w) == w && !Skipped(w) && w[0] != '}' && Find(w, ':') == |w| && TrimEnd(w) == w
    ensures StoredAs(k, group) == Some(OurName(group, w))
  {
  }

  lemma NoColon(w: string)
    requires NoneOf(w, {'=', ':', '\n'})
    ensures Find(w, ':') == |w|
  {
    NotFound(w, ':');
  }

  /** Any name that is stored outside groups is such a key. */
  lemma OtherNameLost(e: Entry)
    requires RootPair(e) && !LibKey(e.key) && TheirName(e.key) == e.key
    ensures StoredAs(e.key, "") != Some(e.key)
  {
    var p := TrimStart(e.key);
    TrimmedPartOf(e.key);
    if StoredAs(e.key, "").Some? {
      NoFeeds(e.key);
      NoEquals(p);
      TrimmedPart(p, |p|);
      assert p[..|p|] == p;
      StoredName("", TrimEnd(p));
    }
  }

  lemma {:induction false} OnlyLine(es: seq<Entry>, group: string, k: string, i: nat)
    requires i < |es|
    requires forall j :: 0 <= j < |es| && j != i ==> StoredAs(es[j].key, GroupAt(es, group, j)) != Some(k)
    ensures LastValue(es, group, k) ==
            if StoredAs(es[i].key, GroupAt(es, group, i)) == Some(k) && es[i].val != "" then Some(Back(es[i].val)) else None
    decreases |es|
  {
    var g := GroupAfter(es[0], group);
    forall j | 0 <= j < |es[1..]|
      ensures GroupAt(es[1..], g, j) == GroupAt(es, group, j + 1) && es[1..][j] == es[j + 1] { }
    if i == 0 {
      NoLine(es[1..], g, k);
    } else {
      assert StoredAs(es[0].key, GroupAt(es, group, 0)) != Some(k);
      OnlyLine(es[1..], g, k, i - 1);
    }
  }

  lemma {:induction false} NoLine(es: seq<Entry>, group: string, k: string)
    requires forall j :: 0 <= j < |es| ==> StoredAs(es[j].key, GroupAt(es, group, j)) != Some(k)
    ensures LastValue(es, group, k) == None
    decreases |es|
  {
    if es != [] {
      var g := GroupAfter(es[0], group);
      forall j | 0 <= j < |es[1..]|
        ensures GroupAt(es[1..], g, j) == GroupAt(es, group, j + 1) && es[1..][j] == es[j + 1] { }
      assert StoredAs(es[0].key, GroupAt(es, group, 0)) != Some(k);
      NoLine(es[1..], g, k);
    }
  }

  /** Among any root pairs, with no group open in front of it and no other line stored under its name, a key
      comes back exactly when it neither looks like a comment or a brace, nor has a colon in it or blanks
      around it, nor is a name the reader changes. */
  lemma KeyComesBackIff(first: Entry, es: seq<Entry>, i: nat)
    requires Opener(first) && RootPairs(es) && i < |es| && es[i].val != "" && first.key != es[i].key
    requires GroupAt(es, "", i) == "" && NotCut(es, "", es[i].key)
    requires forall j :: 0 <= j < |es| && j != i ==> StoredAs(es[j].key, GroupAt(es, "", j)) != Some(es[i].key)
    ensures Lookup(Load(LibconfigText([first] + es), Legacy, []).entries, es[i].key) ==
            if LibKey(es[i].key) then Some(Back(es[i].val)) else None
  {
    RootMapComesBack(first, es, es[i].key);
    OnlyLine(es, "", es[i].key, i);
    OwnNameIff(es[i]);
  }

  // ----- a key with a colon ---------------------------------------------------------------------

  /** Whatever is behind a key that opens a group is stored under the name of that group. */
  lemma BehindAColon(first: Entry, e: Entry, es: seq<Entry>)
    requires Opener(first) && RootPair(e) && RootPairs(es) && StoredAs(e.key, "") == None
    ensures Load(LibconfigText([first] + ([e] + es)), Legacy, []).entries ==
            ReadPairs(es, GroupAfter(e, ""), Keep([first])).1
  {
    assert ([e] + es)[1..] == es;
    assert RootPairs([e] + es);
    RootsComeBack(first, [e] + es);
  }

  lemma PlainIsKept(e: Entry)
    requires |e.val| < KEY_VALUE_LEN && IsClean(e.val) && e.val != "" && e.val != "true" && e.val != "false"
    ensures Keep([e]) == [e]
  {
    KeepOne(e);
    BackIff(e.val);
  }

  lemma TitleOpens()
    ensures Opener(Entry("title", "x"))
  {
  }

  lemma ColonNamesA(e: Entry)
    requires e == Entry("a:b", "1")
    ensures RootPair(e) && GroupAfter(e, "") == "a" && StoredAs(e.key, "") == None
  {
    NoBlankInFront("a:b");
    FindIs("a:b", ':', 1);
    assert "a:b"[..1] == "a";
    TrimEndIs("a", 1);
    assert "a"[..1] == "a";
  }

  lemma CIsInGroup(e: Entry)
    requires e == Entry("c", "2")
    ensures RootPair(e) && StoredAs(e.key, "a") == Some("a_c")
  {
    SafeNameIsKept("c");
    StoredByName("c", "c", "a");
    assert "a" + "_" + "c" == "a_c";
  }

  lemma OnePair(c: Entry, group: string, acc: seq<Entry>)
    ensures ReadPairs([c], group, acc) == ReadPair(c, group, acc)
  {
    assert [c][1..] == [];
  }

  lemma NextIsRenamed(c: Entry, acc: seq<Entry>)
    requires c == Entry("c", "2") && acc == [Entry("title", "x")]
    ensures ReadPair(c, "a", acc).1 == acc + [Entry("a_c", "2")]
  {
    CIsInGroup(c);
    BackIff("2");
    SetNew(acc, "a_c", "2");
  }

  /** A colon in one key renames the next one. */
  lemma ColonRenamesTheNext()
    ensures Load(LibconfigText([Entry("title", "x")] + ([Entry("a:b", "1")] + [Entry("c", "2")])), Legacy, []).entries ==
            [Entry("title", "x")] + [Entry("a_c", "2")]
  {
    var first, e, c := Entry("title", "x"), Entry("a:b", "1"), Entry("c", "2");
    TitleOpens();
    PlainIsKept(first);
    ColonNamesA(e);
    CIsInGroup(c);
    BehindAColon(first, e, [c]);
    OnePair(c, "a", [first]);
    NextIsRenamed(c, [first]);
  }
}
