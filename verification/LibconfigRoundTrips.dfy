/** What a set looks like after it has been saved in the libconfig syntax and loaded again. */
module LibconfigRoundTrips {
  import opened Wrappers
  import opened Text
  import opened ConfigStore
  import opened ConfigFormat
  import opened EscapedValues
  import opened LegacyRoundTrips

  // ----- one statement line ---------------------------------------------------------------------

  /** A name that survives as the left side of a statement. */
  predicate SafeName(n: string) {
    && n != "" && |n| < KEY_NAME_LEN && NoneOf(n, {'=', ':', '\n'})
    && !IsWS(n[0]) && !IsWS(n[|n| - 1]) && !IsComment(n) && n[0] != '{' && n[0] != '}'
  }

  /** A text that survives as the right side of one. */
  predicate SafeRight(rs: string) {
    rs != "" && !IsWS(rs[0]) && !IsWS(rs[|rs| - 1]) && NoneOf(rs, {'\n'})
  }

  lemma BareReadsBack(v: string)
    requires IsBareScalar(v)
    ensures SafeRight(v) && Unquote(v) == v && IsClean(v)
  {
    if v != "true" && v != "false" {
      var digits := if v[0] == '-' then v[1..] else v;
      assert IsDigit(digits[0]) && IsDigit(digits[|digits| - 1]);
      forall i | 0 <= i < |v| ensures v[i] == '-' || IsDigit(v[i]) {
        if v[0] == '-' && i > 0 { assert digits[i - 1] == v[i]; }
      }
    }
  }

  lemma QuotedReads(e: string)
    ensures Unquote("\"" + e + "\"") == e
  {
    Wrapped('"', e, '"');
  }

  lemma QuotedIsSafe(e: string)
    requires NoneOf(e, {'\n'})
    ensures SafeRight("\"" + e + "\"")
  {
    var rs := "\"" + e + "\"";
    forall i | 0 <= i < |rs| ensures rs[i] != '\n' { if 0 < i < |rs| - 1 { assert rs[i] == e[i - 1]; } }
  }

  /** What the reader finds on the right of a statement is the escaped value. */
  lemma RightSideReads(v: string)
    ensures Unquote(RightSide(v)) == Escape(v)
    ensures NoneOf(v, {'\n'}) ==> SafeRight(RightSide(v))
  {
    if IsBareScalar(v) {
      BareReadsBack(v);
      EscapeClean(v);
    } else {
      QuotedReads(Escape(v));
      if NoneOf(v, {'\n'}) {
        EscapeOneLine(v);
        QuotedIsSafe(Escape(v));
      }
    }
  }

  /** So the reader finds the value itself exactly when it holds no quote and no backslash. */
  lemma RightSideReadsBackIff(v: string)
    ensures Unquote(RightSide(v)) == v <==> IsClean(v)
  {
    RightSideReads(v);
    EscapeLonger(v);
    if IsClean(v) { EscapeClean(v); }
  }

  /** How a statement line falls apart into the pieces the reader takes from it. */
  lemma StatementStart(indent: string, n: string, rs: string)
    requires indent == "" || indent == "  "
    requires SafeName(n)
    ensures TrimStart(indent + n + " = " + rs + ";") == n + " = " + rs + ";"
  {
    var p := n + " = " + rs + ";";
    assert indent + n + " = " + rs + ";" == indent + p;
    TrimStartIs(indent + p, |indent|);
  }

  lemma StatementBody(n: string, rs: string)
    requires SafeRight(rs)
    ensures TrimEnd(n + " = " + rs + ";") == n + " = " + rs + ";"
    ensures TrimEnd(DropLast(n + " = " + rs + ";", ';')) == n + " = " + rs
  {
    var body := n + " = " + rs;
    TrimEndIs(body + ";", |body| + 1);
    assert (body + ";")[..|body|] == body;
    TrimEndIs(body, |body|);
  }

  lemma StatementMarks(n: string, rs: string)
    requires SafeName(n)
    ensures var p := n + " = " + rs + ";";
            Find(p, '=') == |n| + 1 && Find(p, ':') > |n| + 1
  {
    var p := n + " = " + rs + ";";
    assert forall i :: 0 <= i < |n| ==> p[i] == n[i];
    FindIs(p, '=', |n| + 1);
  }

  lemma StatementSides(n: string, rs: string)
    requires SafeName(n) && SafeRight(rs)
    ensures var p, body := n + " = " + rs + ";", n + " = " + rs;
            TrimEnd(p[..|n| + 1]) == n && TrimStart(body[|n| + 2..]) == rs
  {
    var p, body := n + " = " + rs + ";", n + " = " + rs;
    TrimEndIs(n + " ", |n|);
    TrimStartIs(" " + rs, 1);
    assert p[..|n| + 1] == n + " " && (n + " ")[..|n|] == n;
    assert body[|n| + 2..] == " " + rs && (" " + rs)[1..] == rs;
  }

  lemma StatementOpens(n: string, rs: string)
    requires SafeName(n)
    ensures var p := n + " = " + rs + ";"; p[0] == n[0] && !IsComment(p)
  {
    var p := n + " = " + rs + ";";
    assert p[0] == n[0] && (|n| > 1 ==> p[1] == n[1]);
  }

  lemma ParsedReads(line: string, p: string, body: string, eq: nat, group: string, es: seq<Entry>)
    requires TrimStart(line) == p && p != "" && !IsComment(p) && p[0] != '{' && p[0] != '}'
    requires TrimEnd(DropLast(TrimEnd(p), ';')) == body
    requires Find(p, '=') == eq && eq < |body| && eq < |p| && Find(p, ':') > eq
    ensures ReadLibconfigLine(line, group, es) ==
            (group, ReadScalar(TrimEnd(p[..eq]), TrimStart(body[eq + 1..]), group, es))
  {
  }

  lemma StatementReads(indent: string, n: string, rs: string, group: string, es: seq<Entry>)
    requires indent == "" || indent == "  "
    requires SafeName(n) && SafeRight(rs)
    ensures ReadLibconfigLine(indent + n + " = " + rs + ";", group, es) == (group, ReadScalar(n, rs, group, es))
  {
    var p, body := n + " = " + rs + ";", n + " = " + rs;
    StatementStart(indent, n, rs);
    StatementBody(n, rs);
    StatementMarks(n, rs);
    StatementSides(n, rs);
    StatementOpens(n, rs);
    ParsedReads(indent + n + " = " + rs + ";", p, body, |n| + 1, group, es);
  }

  /** A root statement settles the format as libconfig exactly when its name is an identifier. */
  lemma StatementClass(n: string, rs: string)
    requires SafeName(n) && SafeRight(rs)
    ensures Classify(n + " = " + rs + ";") == if IsIdent(n) then LibconfigLine else LegacyLine
  {
    StatementStart("", n, rs);
    StatementBody(n, rs);
    StatementMarks(n, rs);
    StatementSides(n, rs);
    StatementOpens(n, rs);
    var p := n + " = " + rs + ";";
    assert "" + n + " = " + rs + ";" == p;
    assert p[|n|] == ' ';
  }

  lemma StatementIsLine(indent: string, n: string, rs: string)
    requires indent == "" || indent == "  "
    requires SafeName(n) && SafeRight(rs)
    ensures OneLine(indent + n + " = " + rs + ";")
  {
    var line := indent + n + " = " + rs + ";";
    assert line[0] == if indent == "" then n[0] else ' ';
  }

  // ----- names ----------------------------------------------------------------------------------

  predicate LibKey(k: string) {
    && LineKey(k) && !IsComment(k) && !IsWS(k[|k| - 1]) && NoneOf(k, {':'}) && k[0] != '{' && k[0] != '}'
    && WoplToOurs(k).None?
  }

  predicate PlainChar(c: char) {
    'a' <= c <= 'z' || c == '_' || IsDigit(c)
  }

  lemma TableInverse(k: string)
    requires OursToWopl(k).Some?
    ensures WoplToOurs(OursToWopl(k).value) == Some(k)
  {
  }

  lemma TableInverseBack(w: string)
    requires WoplToOurs(w).Some?
    ensures OursToWopl(WoplToOurs(w).value) == Some(w)
  {
  }

  /** The two tables undo each other. */
  lemma TablesAreInverse(k: string, w: string)
    ensures OursToWopl(k) == Some(w) <==> WoplToOurs(w) == Some(k)
  {
    if OursToWopl(k).Some? { TableInverse(k); }
    if WoplToOurs(w).Some? { TableInverseBack(w); }
  }

  lemma TableNames(w: string)
    requires WoplToOurs(w).Some?
    ensures 3 <= |w| < KEY_NAME_LEN && IsAlpha(w[0])
  {
  }

  lemma TableHeads(w: string, i: nat)
    requires WoplToOurs(w).Some? && i < |w|
    ensures i < 4 ==> PlainChar(w[i])
  {
  }

  lemma TableMiddles(w: string, i: nat)
    requires WoplToOurs(w).Some? && i < |w|
    ensures 4 <= i < 8 ==> PlainChar(w[i])
  {
  }

  lemma TableTails(w: string, i: nat)
    requires WoplToOurs(w).Some? && i < |w|
    ensures 8 <= i < 12 ==> PlainChar(w[i])
  {
  }

  lemma TableEnds(w: string, i: nat)
    requires WoplToOurs(w).Some? && i < |w|
    ensures i >= 12 ==> PlainChar(w[i])
  {
  }

  lemma TableChars(w: string, i: nat)
    requires WoplToOurs(w).Some? && i < |w|
    ensures PlainChar(w[i])
  {
    TableHeads(w, i);
    TableMiddles(w, i);
    TableTails(w, i);
    TableEnds(w, i);
  }

  /** The name written for a key is safe on the page and reads back as that key. */
  lemma WrittenName(k: string)
    requires LibKey(k)
    ensures var g := GroupOf(k); SafeName(NameInGroup(k, g)) && OurName(g, NameInGroup(k, g)) == k
  {
    match OursToWopl(k)
    case None =>
      assert forall i :: 0 <= i < |k| ==> k[i] != '=';
    case Some(w) =>
      TableInverse(k);
      PlainName(w);
      var g := GroupOf(k);
      if g != "" {
        GroupSplits(w, g);
      }
  }

  lemma PlainName(w: string)
    requires WoplToOurs(w).Some?
    ensures SafeName(w) && forall i :: 0 <= i < |w| ==> PlainChar(w[i])
  {
    TableNames(w);
    forall i | 0 <= i < |w| ensures PlainChar(w[i]) { TableChars(w, i); }
  }

  lemma GroupSplits(w: string, g: string)
    requires InGroup(w, g) && |w| < KEY_NAME_LEN && forall i :: 0 <= i < |w| ==> PlainChar(w[i])
    ensures var n := w[|g| + 1..]; SafeName(n) && g + "_" + n == w
  {
    var n := w[|g| + 1..];
    assert forall i :: 0 <= i < |n| ==> n[i] == w[|g| + 1 + i];
    assert w == w[..|g|] + [w[|g|]] + n;
  }

  // ----- lists of statements --------------------------------------------------------------------

  /** What a list of statements puts into the set: empty values are dropped, the others come back escaped. */
  function Keep(es: seq<Entry>): seq<Entry> {
    if es == [] then []
    else if es[0].val == "" then Keep(es[1..])
    else [Entry(es[0].key, Back(es[0].val))] + Keep(es[1..])
  }

  predicate Clean(e: Entry) {
    LibKey(e.key) && LibValue(e.val)
  }

  ghost predicate Members(es: seq<Entry>, group: string) {
    Unique(es) && forall i :: 0 <= i < |es| ==> Clean(es[i]) && GroupOf(es[i].key) == group
  }

  function EntryLine(e: Entry, group: string): string {
    LibconfigLineOf(if group == "" then "" else "  ", NameInGroup(e.key, group), e.val)
  }

  lemma KeepOne(e: Entry)
    ensures Keep([e]) == if e.val == "" then [] else [Entry(e.key, Back(e.val))]
  {
    assert [e][1..] == [];
  }

  lemma ScalarReads(e: Entry, n: string, rs: string, g: string, es: seq<Entry>)
    requires Clean(e) && AllFit(es) && forall i :: 0 <= i < |es| ==> es[i].key != e.key
    requires n != "" && |n| < KEY_NAME_LEN && OurName(g, n) == e.key && Unquote(rs) == Escape(e.val)
    ensures ReadScalar(n, rs, g, es) == es + Keep([e])
  {
    BackIsValue(e.val);
    EscapeLonger(e.val);
    SetNew(es, e.key, Back(e.val));
    KeepOne(e);
    Nil(es);
  }

  lemma EntryReads(e: Entry, es: seq<Entry>)
    requires Clean(e) && AllFit(es) && forall i :: 0 <= i < |es| ==> es[i].key != e.key
    ensures var g := GroupOf(e.key);
            ReadLibconfigLine(EntryLine(e, g), g, es) == (g, es + Keep([e])) && OneLine(EntryLine(e, g))
  {
    var g := GroupOf(e.key);
    var indent, n, rs := if g == "" then "" else "  ", NameInGroup(e.key, g), RightSide(e.val);
    WrittenName(e.key);
    RightSideReads(e.val);
    ScalarReads(e, n, rs, g, es);
    StatementReads(indent, n, rs, g, es);
    StatementIsLine(indent, n, rs);
  }

  predicate InLibconfig(r: Reader, group: string) {
    r.latched && r.format == Libconfig && r.group == group && AllFit(r.entries)
  }

  function Plus(r: Reader, more: seq<Entry>): Reader {
    r.(entries := r.entries + more)
  }

  lemma LatchedReads(r: Reader, line: string, group: string, es: seq<Entry>)
    requires r.latched && r.format == Libconfig && ReadLibconfigLine(line, r.group, r.entries) == (group, es)
    ensures ReadLine(r, line) == r.(group := group, entries := es)
  {
  }

  lemma EmitHead(r: Reader, e: Entry, rest: string)
    requires Clean(e) && InLibconfig(r, GroupOf(e.key))
    requires forall i :: 0 <= i < |r.entries| ==> r.entries[i].key != e.key
    ensures ReadLines(r, Lines(EntryLine(e, r.group) + "\n" + rest)) == ReadLines(Plus(r, Keep([e])), Lines(rest))
  {
    var line := EntryLine(e, r.group);
    EntryReads(e, r.entries);
    LatchedReads(r, line, r.group, r.entries + Keep([e]));
    ReadOne(r, line, rest);
  }

  lemma KeepCons(acc: seq<Entry>, es: seq<Entry>)
    requires es != []
    ensures acc + Keep([es[0]]) + Keep(es[1..]) == acc + Keep(es)
  {
    KeepOne(es[0]);
    assert Keep(es) == Keep([es[0]]) + Keep(es[1..]);
    Assoc(acc, Keep([es[0]]), Keep(es[1..]));
  }

  /** The lists of the induction step: what is read so far, and what is still to come. */
  lemma EmitStep(acc: seq<Entry>, es: seq<Entry>, g: string)
    requires es != [] && Members(es, g) && AllFit(acc) && Apart(acc, es)
    ensures Members(es[1..], g) && AllFit(acc + Keep([es[0]])) && Apart(acc + Keep([es[0]]), es[1..])
    ensures forall i :: 0 <= i < |acc| ==> acc[i].key != es[0].key
  {
    KeepOne(es[0]);
    assert forall j :: 0 <= j < |es[1..]| ==> es[1..][j] == es[j + 1];
  }

  lemma {:induction false} EmitReads(r: Reader, es: seq<Entry>, rest: string)
    requires Members(es, r.group) && InLibconfig(r, r.group) && Apart(r.entries, es)
    ensures ReadLines(r, Lines(Emit(es, r.group) + rest)) == ReadLines(Plus(r, Keep(es)), Lines(rest))
    decreases |es|
  {
    if es == [] {
      Nil(rest); Nil(r.entries);
    } else {
      EmitStep(r.entries, es, r.group);
      EmitTail(es, r.group, rest);
      EmitHead(r, es[0], Emit(es[1..], r.group) + rest);
      EmitReads(Plus(r, Keep([es[0]])), es[1..], rest);
      KeepCons(r.entries, es);
    }
  }

  lemma EmitTail(es: seq<Entry>, g: string, rest: string)
    requires es != []
    ensures Emit(es, g) + rest == EntryLine(es[0], g) + "\n" + (Emit(es[1..], g) + rest)
  {
    Assoc(EntryLine(es[0], g) + "\n", Emit(es[1..], g), rest);
  }

  // ----- group blocks ---------------------------------------------------------------------------

  lemma NotFound(s: string, c: char)
    requires !HasChar(s, c)
    ensures Find(s, c) == |s|
  {
  }

  predicate GroupLike(g: string) {
    0 < |g| < KEY_NAME_LEN && forall i :: 0 <= i < |g| ==> 'a' <= g[i] <= 'z'
  }

  lemma GroupNames(g: string)
    requires g in GROUPS
    ensures GroupLike(g)
  {
  }

  lemma HeaderChars(g: string, i: nat)
    requires GroupLike(g) && i < |g| + 2
    ensures (g + " :")[i] == if i < |g| then g[i] else if i == |g| then ' ' else ':'
  {
  }

  lemma HeaderStart(g: string)
    requires GroupLike(g)
    ensures var p := g + " :"; TrimStart(p) == p && !IsComment(p) && p[0] == g[0]
  {
    HeaderChars(g, 0);
    HeaderChars(g, 1);
    TrimStartIs(g + " :", 0);
  }

  lemma HeaderMarks(g: string)
    requires GroupLike(g)
    ensures var p := g + " :"; Find(p, '=') == |p| && Find(p, ':') == |g| + 1 && OneLine(p)
  {
    var p := g + " :";
    forall i | 0 <= i < |p| ensures p[i] != '=' && p[i] != '\n' && (p[i] == ':' ==> i == |g| + 1) { HeaderChars(g, i); }
    NotFound(p, '=');
    HeaderChars(g, |g| + 1);
    FindIs(p, ':', |g| + 1);
  }

  lemma HeaderPieces(g: string)
    requires GroupLike(g)
    ensures var p := g + " :"; TrimStart(p) == p && !IsComment(p) && p[0] == g[0]
    ensures var p := g + " :"; Find(p, '=') == |p| && Find(p, ':') == |g| + 1 && TrimEnd(p[..|g| + 1]) == g
    ensures OneLine(g + " :")
  {
    HeaderStart(g);
    HeaderMarks(g);
    assert (g + " :")[..|g| + 1] == g + " ";
    TrimEndIs(g + " ", |g|);
    assert (g + " ")[..|g|] == g;
  }

  lemma HeaderReads(g: string, group: string, es: seq<Entry>)
    requires GroupLike(g)
    ensures ReadLibconfigLine(g + " :", group, es) == (g, es) && OneLine(g + " :")
  {
    HeaderPieces(g);
  }

  lemma BraceReads(group: string, es: seq<Entry>)
    ensures ReadLibconfigLine("{", group, es) == (group, es) && OneLine("{")
    ensures ReadLibconfigLine("};", group, es) == ("", es) && OneLine("};")
  {
    TrimStartIs("{", 0);
    TrimStartIs("};", 0);
  }

  lemma OpenReads(r: Reader, g: string, rest: string)
    requires GroupLike(g) && InLibconfig(r, "")
    ensures ReadLines(r, Lines(g + " :" + "\n" + ("{" + "\n" + rest))) == ReadLines(r.(group := g), Lines(rest))
  {
    HeaderReads(g, "", r.entries);
    LatchedReads(r, g + " :", g, r.entries);
    ReadOne(r, g + " :", "{" + "\n" + rest);
    BraceReads(g, r.entries);
    LatchedReads(r.(group := g), "{", g, r.entries);
    ReadOne(r.(group := g), "{", rest);
  }

  lemma CloseReads(r: Reader, g: string, rest: string)
    requires InLibconfig(r, g)
    ensures ReadLines(r, Lines("};" + "\n" + rest)) == ReadLines(r.(group := ""), Lines(rest))
  {
    BraceReads(g, r.entries);
    LatchedReads(r, "};", "", r.entries);
    ReadOne(r, "};", rest);
  }

  lemma BlockShape(g: string, body: string, rest: string)
    ensures g + " :\n{\n" + body + "};\n" + rest == g + " :" + "\n" + ("{" + "\n" + (body + ("};" + "\n" + rest)))
  {
  }

  lemma BlockReads(r: Reader, es: seq<Entry>, g: string, rest: string)
    requires g in GROUPS && InLibconfig(r, "") && Members(Select(es, g), g) && Apart(r.entries, Select(es, g))
    ensures ReadLines(r, Lines(Block(es, g) + rest)) == ReadLines(Plus(r, Keep(Select(es, g))), Lines(rest))
  {
    var members := Select(es, g);
    if members == [] {
      Nil(rest); Nil(r.entries);
    } else {
      var body := Emit(members, g);
      GroupNames(g);
      BlockShape(g, body, rest);
      OpenReads(r, g, body + ("};" + "\n" + rest));
      EmitReads(r.(group := g), members, "};" + "\n" + rest);
      KeepFits(members, g);
      CloseReads(Plus(r.(group := g), Keep(members)), g, rest);
    }
  }

  lemma {:induction false} KeepFits(es: seq<Entry>, g: string)
    requires Members(es, g)
    ensures AllFit(Keep(es)) && forall i :: 0 <= i < |Keep(es)| ==> GroupOf(Keep(es)[i].key) == g
  {
    if es != [] {
      assert forall j :: 0 <= j < |es[1..]| ==> es[1..][j] == es[j + 1];
      KeepFits(es[1..], g);
    }
  }

  // ----- the whole file -------------------------------------------------------------------------

  ghost predicate LibClean(es: seq<Entry>) {
    Unique(es) && forall i :: 0 <= i < |es| && Written(es[i]) ==> Clean(es[i])
  }

  lemma {:induction false} SelectSound(es: seq<Entry>, g: string, e: Entry)
    requires e in Select(es, g)
    ensures e in es && Written(e) && GroupOf(e.key) == g
  {
    if !(es[0] == e && Written(e) && GroupOf(e.key) == g) { SelectSound(es[1..], g, e); }
  }

  lemma {:induction false} SelectMembers(es: seq<Entry>, g: string)
    requires LibClean(es)
    ensures Members(Select(es, g), g)
  {
    if es != [] {
      assert forall j :: 0 <= j < |es[1..]| ==> es[1..][j] == es[j + 1];
      SelectMembers(es[1..], g);
      var rest := Select(es[1..], g);
      forall j | 0 <= j < |rest| ensures rest[j].key != es[0].key { SelectSound(es[1..], g, rest[j]); }
    }
  }

  function LoadedGroups(es: seq<Entry>, i: nat): seq<Entry>
    requires i <= |GROUPS|
    decreases |GROUPS| - i
  {
    if i == |GROUPS| then [] else Keep(Select(es, GROUPS[i])) + LoadedGroups(es, i + 1)
  }

  /** The set a libconfig save and load ends in: root statements first, then the groups in turn. */
  function Loaded(es: seq<Entry>): seq<Entry> {
    Keep(Select(es, "")) + LoadedGroups(es, 0)
  }

  /** Nothing read so far belongs to a group that is still to come. */
  ghost predicate Before(acc: seq<Entry>, i: nat) {
    forall a, j :: 0 <= a < |acc| && i <= j < |GROUPS| ==> GroupOf(acc[a].key) != GROUPS[j]
  }

  lemma GroupsDiffer(i: nat, j: nat)
    requires i < j < |GROUPS|
    ensures GROUPS[i] != GROUPS[j]
  {
  }

  lemma BeforeNext(acc: seq<Entry>, more: seq<Entry>, i: nat)
    requires i < |GROUPS| && Before(acc, i)
    requires forall a :: 0 <= a < |more| ==> GroupOf(more[a].key) == GROUPS[i]
    ensures Before(acc + more, i + 1)
  {
    forall a, j | 0 <= a < |acc + more| && i + 1 <= j < |GROUPS|
      ensures GroupOf((acc + more)[a].key) != GROUPS[j]
    {
      GroupsDiffer(i, j);
    }
  }

  lemma ApartFromGroup(acc: seq<Entry>, es: seq<Entry>, i: nat)
    requires i < |GROUPS| && Before(acc, i) && Members(es, GROUPS[i])
    ensures Apart(acc, es)
  {
    forall a, j | 0 <= a < |acc| && 0 <= j < |es| ensures acc[a].key != es[j].key {
      assert GroupOf(acc[a].key) != GROUPS[i];
    }
  }

  /** One group: what it adds is read, and nothing of the later groups is there yet. */
  lemma GroupReads(r: Reader, es: seq<Entry>, i: nat)
    requires i < |GROUPS| && LibClean(es) && InLibconfig(r, "") && Before(r.entries, i)
    ensures var next := Plus(r, Keep(Select(es, GROUPS[i])));
            && ReadLines(r, Lines(Blocks(es, i))) == ReadLines(next, Lines(Blocks(es, i + 1)))
            && InLibconfig(next, "") && Before(next.entries, i + 1)
  {
    var g := GROUPS[i];
    var members := Select(es, g);
    SelectMembers(es, g);
    ApartFromGroup(r.entries, members, i);
    BlockReads(r, es, g, Blocks(es, i + 1));
    KeepFits(members, g);
    BeforeNext(r.entries, Keep(members), i);
  }

  lemma {:induction false} BlocksRead(r: Reader, es: seq<Entry>, i: nat)
    requires i <= |GROUPS| && LibClean(es) && InLibconfig(r, "") && Before(r.entries, i)
    ensures ReadLines(r, Lines(Blocks(es, i))) == Plus(r, LoadedGroups(es, i))
    decreases |GROUPS| - i
  {
    if i == |GROUPS| {
      Nil(r.entries);
    } else {
      var more := Keep(Select(es, GROUPS[i]));
      GroupReads(r, es, i);
      BlocksRead(Plus(r, more), es, i + 1);
      Assoc(r.entries, more, LoadedGroups(es, i + 1));
    }
  }

  /** The first line of the file is a root statement whose name is an identifier. */
  predicate RootFirst(es: seq<Entry>) {
    var roots := Select(es, "");
    roots != [] && IsIdent(TheirName(roots[0].key))
  }

  const START := Reader(false, Legacy, "", "", [])

  lemma RootLine(e: Entry)
    ensures EntryLine(e, "") == TheirName(e.key) + " = " + RightSide(e.val) + ";"
  {
    assert "" + TheirName(e.key) == TheirName(e.key);
  }

  lemma FirstStatement(e: Entry)
    requires Clean(e) && GroupOf(e.key) == ""
    ensures OneLine(EntryLine(e, ""))
    ensures Classify(EntryLine(e, "")) == if IsIdent(TheirName(e.key)) then LibconfigLine else LegacyLine
  {
    EntryReads(e, []);
    RootLine(e);
    WrittenName(e.key);
    RightSideReads(e.val);
    StatementClass(TheirName(e.key), RightSide(e.val));
  }

  lemma FirstLineLatches(line: string, rest: string)
    requires OneLine(line) && Classify(line) == LibconfigLine
    ensures ReadLines(START, Lines(line + "\n" + rest)) ==
            ReadLines(START.(latched := true, format := Libconfig), Lines(line + "\n" + rest))
  {
    ReadOne(START, line, rest);
    ReadOne(START.(latched := true, format := Libconfig), line, rest);
  }

  lemma LibconfigLatches(es: seq<Entry>)
    requires LibClean(es) && RootFirst(es)
    ensures ReadLines(START, Lines(LibconfigText(es))) ==
            ReadLines(START.(latched := true, format := Libconfig), Lines(LibconfigText(es)))
  {
    var roots := Select(es, "");
    SelectMembers(es, "");
    FirstStatement(roots[0]);
    EmitTail(roots, "", Blocks(es, 0));
    FirstLineLatches(EntryLine(roots[0], ""), Emit(roots[1..], "") + Blocks(es, 0));
  }

  lemma GroupsNamed(i: nat)
    requires i < |GROUPS|
    ensures GROUPS[i] != ""
  {
  }

  /** Saving as libconfig and loading: the exact list that comes back. */
  lemma LibconfigRoundTrip(es: seq<Entry>)
    requires LibClean(es) && RootFirst(es)
    ensures Load(LibconfigText(es), Legacy, []) == Reader(true, Libconfig, "", "", Loaded(es))
  {
    var r := START.(latched := true, format := Libconfig);
    var roots := Select(es, "");
    LibconfigLatches(es);
    SelectMembers(es, "");
    EmitReads(r, roots, Blocks(es, 0));
    KeepFits(roots, "");
    Nil(Keep(roots));
    forall a, j | 0 <= a < |Keep(roots)| && 0 <= j < |GROUPS| ensures GroupOf(Keep(roots)[a].key) != GROUPS[j] {
      GroupsNamed(j);
    }
    BlocksRead(Plus(r, Keep(roots)), es, 0);
  }

  // ----- the format comes back, or not ----------------------------------------------------------

  lemma LegacyStart(line: string, rest: string)
    requires OneLine(line) && Classify(line) == LegacyLine
    ensures ReadLines(START, Lines(line + "\n" + rest)).format == Legacy
  {
    ReadOne(START, line, rest);
    FormatStays(ReadLine(START, line), Lines(rest));
  }

  lemma NoEqualsIsLegacy(p: string)
    requires p != "" && TrimStart(p) == p && TrimEnd(p) == p && !IsComment(p) && Find(p, '=') == |p|
    ensures Classify(p) == LegacyLine
  {
  }

  lemma HeaderIsLegacy(g: string)
    requires GroupLike(g)
    ensures OneLine(g + " :") && Classify(g + " :") == LegacyLine
  {
    HeaderPieces(g);
    TrimEndIs(g + " :", |g| + 2);
    assert (g + " :")[..|g| + 2] == g + " :";
    NoEqualsIsLegacy(g + " :");
  }

  lemma BlockIsLegacy(es: seq<Entry>, g: string, rest: string)
    requires g in GROUPS && Select(es, g) != []
    ensures ReadLines(START, Lines(Block(es, g) + rest)).format == Legacy
  {
    var body := Emit(Select(es, g), g);
    GroupNames(g);
    HeaderIsLegacy(g);
    BlockShape(g, body, rest);
    LegacyStart(g + " :", "{" + "\n" + (body + ("};" + "\n" + rest)));
  }

  lemma {:induction false} BlocksAreLegacy(es: seq<Entry>, i: nat)
    requires i <= |GROUPS|
    ensures ReadLines(START, Lines(Blocks(es, i))).format == Legacy
    decreases |GROUPS| - i
  {
    if i < |GROUPS| {
      if Select(es, GROUPS[i]) == [] {
        Nil(Blocks(es, i + 1));
        BlocksAreLegacy(es, i + 1);
      } else {
        BlockIsLegacy(es, GROUPS[i], Blocks(es, i + 1));
      }
    }
  }

  /** A libconfig save is read as libconfig again exactly when its first line is such a statement. */
  lemma LibconfigReadAsLibconfigIff(es: seq<Entry>)
    requires LibClean(es)
    ensures Load(LibconfigText(es), Legacy, []).format == Libconfig <==> RootFirst(es)
  {
    var roots := Select(es, "");
    if RootFirst(es) {
      LibconfigRoundTrip(es);
    } else if roots == [] {
      Nil(Blocks(es, 0));
      BlocksAreLegacy(es, 0);
    } else {
      SelectMembers(es, "");
      FirstStatement(roots[0]);
      EmitTail(roots, "", Blocks(es, 0));
      LegacyStart(EntryLine(roots[0], ""), Emit(roots[1..], "") + Blocks(es, 0));
    }
  }

  // ----- the map comes back ---------------------------------------------------------------------

  lemma {:induction false} LookupSplits(a: seq<Entry>, b: seq<Entry>, k: string)
    ensures Lookup(a + b, k) == if Lookup(a, k).Some? then Lookup(a, k) else Lookup(b, k)
  {
    if a == [] {
      assert a + b == b;
    } else {
      LookupSplits(a[1..], b, k);
      assert (a + b)[1..] == a[1..] + b;
    }
  }

  /** What a key is worth after a libconfig save: nothing when unwritten or empty. */
  function Surviving(es: seq<Entry>, k: string): Option<string> {
    match Lookup(es, k)
    case Some(v) => if k[0] != '#' && v != "" then Some(Back(v)) else None
    case None => None
  }

  lemma {:induction false} LookupKept(es: seq<Entry>, g: string, k: string)
    requires AllFit(es) && Unique(es) && KeyValid(k) && |k| < KEY_NAME_LEN
    ensures Lookup(Keep(Select(es, g)), k) == if GroupOf(k) == g then Surviving(es, k) else None
  {
    if es != [] {
      var e := es[0];
      assert forall j :: 0 <= j < |es[1..]| ==> es[1..][j] == es[j + 1];
      LookupKept(es[1..], g, k);
      SameShortKey(e.key, k);
      LookupHead(es, k);
      if e.key == k { LookupGone(es[1..], k); }
      if Written(e) && GroupOf(e.key) == g {
        assert ([e] + Select(es[1..], g))[1..] == Select(es[1..], g);
        if e.val != "" {
          LookupHead([Entry(e.key, Back(e.val))] + Keep(Select(es[1..], g)), k);
        }
      }
    }
  }

  lemma LookupHead(es: seq<Entry>, k: string)
    requires es != [] && KeyValid(k) && |es[0].key| < KEY_NAME_LEN
    ensures Lookup(es, k) == if es[0].key == k then Some(es[0].val) else Lookup(es[1..], k)
  {
    SameShortKey(es[0].key, k);
  }

  lemma LookupGone(es: seq<Entry>, k: string)
    requires AllFit(es) && |k| < KEY_NAME_LEN && forall i :: 0 <= i < |es| ==> es[i].key != k
    ensures Lookup(es, k) == None
  {
    if IndexOf(es, k) < |es| { SameShortKey(es[IndexOf(es, k)].key, k); }
  }

  lemma {:induction false} LookupLoadedGroups(es: seq<Entry>, i: nat, k: string)
    requires AllFit(es) && Unique(es) && KeyValid(k) && |k| < KEY_NAME_LEN && i <= |GROUPS|
    ensures Lookup(LoadedGroups(es, i), k) == if GroupOf(k) in GROUPS[i..] then Surviving(es, k) else None
    decreases |GROUPS| - i
  {
    if i < |GROUPS| {
      LookupLoadedGroups(es, i + 1, k);
      LookupKept(es, GROUPS[i], k);
      LookupSplits(Keep(Select(es, GROUPS[i])), LoadedGroups(es, i + 1), k);
      assert GROUPS[i..] == [GROUPS[i]] + GROUPS[i + 1..];
    }
  }

  /** Saving as libconfig and loading keeps the key-to-value map, minus '#' keys and empty values, with
      true/false read as 1/0 and quotes and backslashes escaped once more. */
  lemma LibconfigKeepsTheMap(es: seq<Entry>, k: string)
    requires LibClean(es) && AllFit(es) && RootFirst(es) && KeyValid(k) && |k| < KEY_NAME_LEN
    ensures Lookup(Load(LibconfigText(es), Legacy, []).entries, k) == Surviving(es, k)
  {
    LibconfigRoundTrip(es);
    LookupKept(es, "", k);
    LookupLoadedGroups(es, 0, k);
    LookupSplits(Keep(Select(es, "")), LoadedGroups(es, 0), k);
    assert GROUPS[0..] == GROUPS;
    GroupIsNamedOrRoot(k);
  }

  /** A written value comes back as it was exactly when it is not empty, not one of the two booleans, and
      holds nothing to escape, or fills its buffer and ends in backslashes only. */
  lemma ValueComesBackIff(es: seq<Entry>, k: string)
    requires LibClean(es) && AllFit(es) && RootFirst(es) && KeyValid(k) && |k| < KEY_NAME_LEN && k[0] != '#'
    requires Lookup(es, k).Some?
    ensures var v := Lookup(es, k).value;
            Lookup(Load(LibconfigText(es), Legacy, []).entries, k) == Some(v) <==>
            && v != "" && v != "true" && v != "false"
            && (IsClean(v) || (|v| == KEY_VALUE_LEN - 1 && EndsInSlashes(v)))
  {
    LibconfigKeepsTheMap(es, k);
    BackIff(es[IndexOf(es, k)].val);
  }

  lemma GroupIsNamedOrRoot(k: string)
    ensures GroupOf(k) == "" || GroupOf(k) in GROUPS
  {
  }
}
