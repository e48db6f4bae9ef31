/** What a set loaded from libconfig text can hold: which keys a file can give back at all, and that the
    sets the round trip speaks of are the ones that are loaded. */
module LoadedSets {
  import opened Wrappers
  import opened Text
  import opened ConfigStore
  import opened ConfigFormat
  import opened EscapedValues
  import opened LegacyRoundTrips
  import opened LibconfigRoundTrips
  import opened SaveCycles

  // ----- the names a line can give --------------------------------------------------------------

  /** The front of a line from its first visible character on. */
  predicate NamePart(s: string) {
    KeyValid(s) && NoneOf(s, {'\n', ':'}) && !IsWS(s[0]) && !IsComment(s) && s[0] != '{' && s[0] != '}'
  }

  predicate GroupName(g: string) {
    g == "" || NamePart(g)
  }

  lemma FrontIsPart(p: string, m: nat, n: nat)
    requires 0 < m <= n <= |p| && !IsWS(p[0]) && !IsComment(p) && p[0] != '{' && p[0] != '}'
    requires NoneOf(p, {'\n'}) && n <= Find(p, '=') && n <= Find(p, ':')
    ensures NamePart(p[..m])
  {
    var s := p[..m];
    assert s[0] == p[0] && (m > 1 ==> s[1] == p[1]);
    forall i | 0 <= i < m ensures s[i] != '=' && s[i] !in {'\n', ':'} { assert s[i] == p[i]; }
  }

  lemma TrimmedPart(p: string, n: nat)
    requires n <= |p| && p != "" && !IsWS(p[0]) && !IsComment(p) && p[0] != '{' && p[0] != '}'
    requires NoneOf(p, {'\n'}) && n <= Find(p, '=') && n <= Find(p, ':')
    ensures var s := TrimEnd(p[..n]); s != "" ==> NamePart(s) && !IsWS(s[|s| - 1])
  {
    var m := LastNonBlank(p[..n], n);
    if m > 0 {
      assert p[..n][..m] == p[..m];
      FrontIsPart(p, m, n);
    }
  }

  lemma StatementParts(line: string)
    requires NoneOf(line, {'\n'})
    ensures match ParseStatement(line)
            case Assign(key, _) => key != "" ==> NamePart(key) && !IsWS(key[|key| - 1])
            case Header(name) => GroupName(name)
            case _ => true
  {
    var p := TrimStart(line);
    if p != "" && !IsComment(p) && p[0] != '{' && p[0] != '}' {
      var eq, colon := Find(p, '='), Find(p, ':');
      if eq == |p| || colon < eq {
        if colon < |p| { TrimmedPart(p, colon); }
      } else {
        TrimmedPart(p, eq);
      }
    }
  }

  // ----- the right side -------------------------------------------------------------------------

  lemma PartHasNone(s: string, c: char, from: nat, upTo: nat)
    requires from <= upTo <= |s| && NoneOf(s, {c})
    ensures NoneOf(s[from..upTo], {c}) && NoneOf(s[from..], {c}) && NoneOf(s[..upTo], {c})
  {
  }

  lemma TrimsHaveNone(s: string, c: char)
    requires NoneOf(s, {c})
    ensures NoneOf(TrimStart(s), {c}) && NoneOf(TrimEnd(s), {c}) && NoneOf(DropLast(s, c), {c})
  {
  }

  lemma DropHasNone(s: string, c: char, d: char)
    requires NoneOf(s, {c})
    ensures NoneOf(DropLast(s, d), {c})
  {
  }

  lemma BodyHasNone(p: string)
    requires NoneOf(p, {'\n'})
    ensures NoneOf(TrimEnd(DropLast(TrimEnd(p), ';')), {'\n'})
  {
    TrimsHaveNone(p, '\n');
    DropHasNone(TrimEnd(p), '\n', ';');
    TrimsHaveNone(DropLast(TrimEnd(p), ';'), '\n');
  }

  lemma BehindHasNone(body: string, eq: nat)
    requires NoneOf(body, {'\n'}) && eq < |body|
    ensures NoneOf(TrimStart(body[eq + 1..]), {'\n'})
  {
    PartHasNone(body, '\n', eq + 1, |body|);
    TrimsHaveNone(body[eq + 1..], '\n');
  }

  lemma RightHasNone(line: string)
    requires NoneOf(line, {'\n'})
    ensures ParseStatement(line).Assign? ==> NoneOf(ParseStatement(line).rhs, {'\n'})
  {
    var p := TrimStart(line);
    TrimsHaveNone(line, '\n');
    BodyHasNone(p);
    var body, eq := TrimEnd(DropLast(TrimEnd(p), ';')), Find(p, '=');
    if eq < |body| { BehindHasNone(body, eq); }
  }

  lemma StoredValue(rhs: string)
    requires NoneOf(rhs, {'\n'})
    ensures LibValue(ReadBool(Truncate(Unquote(rhs), KEY_VALUE_LEN)))
    ensures Unquote(rhs) != "" ==> ReadBool(Truncate(Unquote(rhs), KEY_VALUE_LEN)) != ""
  {
    if rhs != "" && rhs[0] == '"' {
      PartHasNone(rhs, '\n', 1, |rhs|);
      DropHasNone(rhs[1..], '\n', '"');
    }
    var v := Unquote(rhs);
    if |v| >= KEY_VALUE_LEN { PartHasNone(v, '\n', 0, KEY_VALUE_LEN - 1); }
  }

  // ----- the names that are stored --------------------------------------------------------------

  predicate OursChar(c: char) {
    IsAlpha(c) || IsDigit(c) || c == '_' || c == '$'
  }

  lemma OursHeads(k: string, i: nat)
    requires OursToWopl(k).Some? && i < |k|
    ensures i < 4 ==> OursChar(k[i])
  {
  }

  lemma OursMiddles(k: string, i: nat)
    requires OursToWopl(k).Some? && i < |k|
    ensures 4 <= i < 8 ==> OursChar(k[i])
  {
  }

  lemma OursTails(k: string, i: nat)
    requires OursToWopl(k).Some? && i < |k|
    ensures 8 <= i < 12 ==> OursChar(k[i])
  {
  }

  lemma OursEnds(k: string, i: nat)
    requires OursToWopl(k).Some? && i < |k|
    ensures i >= 12 ==> OursChar(k[i])
  {
  }

  lemma OursNames(k: string)
    requires OursToWopl(k).Some?
    ensures 1 < |k| < KEY_NAME_LEN - 1
  {
  }

  lemma OursStart(k: string)
    requires OursToWopl(k).Some?
    ensures k != "" && k[0] == '$'
  {
  }

  /** Every name of the table is such a key. */
  lemma OursIsLibKey(k: string)
    requires OursToWopl(k).Some?
    ensures LibKey(k) && |k| < KEY_NAME_LEN - 1
  {
    OursNames(k);
    OursStart(k);
    forall i | 0 <= i < |k| ensures OursChar(k[i]) {
      OursHeads(k, i);
      OursMiddles(k, i);
      OursTails(k, i);
      OursEnds(k, i);
    }
    if WoplToOurs(k).Some? { TableNames(k); }
  }

  lemma PartsJoin(g: string, key: string)
    requires NamePart(g) && NamePart(key)
    ensures NamePart(g + "_" + key)
  {
    var s := g + "_" + key;
    assert s[0] == g[0] && s[1] == if |g| > 1 then g[1] else '_';
    forall i | 0 <= i < |s| ensures s[i] != '=' && s[i] !in {'\n', ':'} {
      assert s[i] == if i < |g| then g[i] else if i == |g| then '_' else key[i - |g| - 1];
    }
  }

  /** A name that is short enough to be stored in full is such a key, and without a group every name is. */
  lemma StoredName(group: string, key: string)
    requires GroupName(group) && NamePart(key) && !IsWS(key[|key| - 1])
    ensures var name := OurName(group, key);
            KeyValid(name) && (|name| < KEY_NAME_LEN ==> LibKey(name)) &&
            (group == "" && |key| < KEY_NAME_LEN ==> |name| < KEY_NAME_LEN)
  {
    var composed := if group != "" then group + "_" + key else key;
    if group != "" { PartsJoin(group, key); }
    assert composed[|composed| - 1] == key[|key| - 1];
    if WoplToOurs(composed).Some? {
      TableInverseBack(composed);
      OursIsLibKey(WoplToOurs(composed).value);
    }
  }

  // ----- what every line keeps ------------------------------------------------------------------

  /** Keys that were not cut are the ones that come back, and they are unique. */
  ghost predicate Tidy(es: seq<Entry>) {
    && AllFit(es) && (forall i :: 0 <= i < |es| ==> LibValue(es[i].val) && es[i].val != "")
    && (forall i :: 0 <= i < |es| && |es[i].key| < KEY_NAME_LEN - 1 ==> LibKey(es[i].key))
    && (forall i, j :: 0 <= i < j < |es| && es[i].key == es[j].key ==> |es[i].key| == KEY_NAME_LEN - 1)
  }

  lemma RewriteIsTidy(es: seq<Entry>, at: nat, v: string)
    requires Tidy(es) && at < |es| && LibValue(v) && v != ""
    ensures Tidy(es[at := es[at].(val := v)])
  {
    var r := es[at := es[at].(val := v)];
    assert forall i :: 0 <= i < |r| ==> r[i].key == es[i].key;
  }

  lemma AppendIsTidy(es: seq<Entry>, e: Entry)
    requires Tidy(es) && Fits(e) && LibValue(e.val) && e.val != ""
    requires |e.key| < KEY_NAME_LEN - 1 ==> LibKey(e.key)
    requires forall i :: 0 <= i < |es| && es[i].key == e.key ==> |e.key| == KEY_NAME_LEN - 1
    ensures Tidy(es + [e])
  {
  }

  lemma SetIsTidy(es: seq<Entry>, name: string, v: string)
    requires Tidy(es) && LibValue(v) && v != "" && KeyValid(name) && (|name| < KEY_NAME_LEN ==> LibKey(name))
    ensures Tidy(Set(es, name, v))
  {
    var at := IndexOf(es, name);
    if at < |es| {
      RewriteIsTidy(es, at, v);
    } else {
      if |name| < KEY_NAME_LEN {
        forall i | 0 <= i < |es| ensures es[i].key != name { SameShortKey(es[i].key, name); }
      }
      AppendIsTidy(es, Alloc(name, v));
    }
  }

  lemma LineKeepsTidy(line: string, group: string, es: seq<Entry>)
    requires NoneOf(line, {'\n'}) && GroupName(group) && Tidy(es)
    ensures var (g, r) := ReadLibconfigLine(line, group, es); GroupName(g) && Tidy(r)
  {
    StatementParts(line);
    match ParseStatement(line)
    case Assign(key, rhs) =>
      if key != "" && |key| < KEY_NAME_LEN && Unquote(rhs) != "" {
        RightHasNone(line);
        StoredValue(rhs);
        StoredName(group, key);
        SetIsTidy(es, OurName(group, key), ReadBool(Truncate(Unquote(rhs), KEY_VALUE_LEN)));
      }
    case _ =>
  }

  lemma {:induction false} LinesHaveNone(text: string)
    ensures forall i :: 0 <= i < |Lines(text)| ==> NoneOf(Lines(text)[i], {'\n'})
    decreases |text|
  {
    if text != "" {
      var n := Find(text, '\n');
      DropHasNone(text[..n], '\n', '\r');
      if n < |text| { LinesHaveNone(text[n + 1..]); }
    }
  }

  lemma {:induction false} LinesKeepTidy(r: Reader, lines: seq<string>)
    requires GroupName(r.group) && Tidy(r.entries) && (r.latched ==> r.format == Libconfig)
    requires forall i :: 0 <= i < |lines| ==> NoneOf(lines[i], {'\n'})
    ensures var s := ReadLines(r, lines); s.format == Libconfig ==> Tidy(s.entries)
    decreases |lines|
  {
    if lines != [] {
      var next := ReadLine(r, lines[0]);
      LineKeepsTidy(lines[0], r.group, r.entries);
      if next.latched && next.format == Legacy {
        FormatStays(next, lines[1..]);
      } else {
        LinesKeepTidy(next, lines[1..]);
      }
    }
  }

  // ----- what a file can give -------------------------------------------------------------------

  lemma LoadedIsTidy(text: string)
    ensures var r := Load(text, Legacy, []); r.format == Libconfig ==> Tidy(r.entries)
  {
    LinesHaveNone(text);
    LinesKeepTidy(Reader(false, Legacy, "", "", []), Lines(text));
  }

  /** Whatever is loaded as libconfig is a set the round trip speaks of, unless a key was cut. */
  lemma LoadedIsClean(text: string)
    requires Load(text, Legacy, []).format == Libconfig
    requires forall e :: e in Load(text, Legacy, []).entries ==> |e.key| < KEY_NAME_LEN - 1
    ensures LibClean(Load(text, Legacy, []).entries) && AllFit(Load(text, Legacy, []).entries)
  {
    LoadedIsTidy(text);
    var es := Load(text, Legacy, []).entries;
    forall i | 0 <= i < |es| ensures Clean(es[i]) { assert es[i] in es; }
    forall i, j | 0 <= i < j < |es| ensures es[i].key != es[j].key { assert es[i] in es; }
  }

  /** No file read as libconfig gives back any other key. */
  lemma OnlyLibKeysAreFound(text: string, k: string)
    requires Load(text, Legacy, []).format == Libconfig && |k| < KEY_NAME_LEN - 1
    ensures Lookup(Load(text, Legacy, []).entries, k).Some? ==> LibKey(k)
  {
    LoadedIsTidy(text);
    var es := Load(text, Legacy, []).entries;
    if IndexOf(es, k) < |es| { SameShortKey(es[IndexOf(es, k)].key, k); }
  }

  lemma {:induction false} SolidIsFirst(es: seq<Entry>)
    requires forall i :: 0 <= i < |es| ==> es[i].val != ""
    ensures FirstSolidRoot(es) == if Select(es, "") == [] then None else Some(Select(es, "")[0].key)
  {
    if es != [] {
      assert forall i :: 0 <= i < |es[1..]| ==> es[1..][i] == es[i + 1];
      SolidIsFirst(es[1..]);
    }
  }

  /** So a file read as libconfig stays libconfig, however often it is saved and loaded, exactly when its
      first root pair is stored under the name of an identifier. */
  lemma LoadedFileNeverFlipsIff(text: string)
    requires Load(text, Legacy, []).format == Libconfig
    requires forall e :: e in Load(text, Legacy, []).entries ==> |e.key| < KEY_NAME_LEN - 1
    ensures var es := Load(text, Legacy, []).entries;
            (forall n: nat :: KeepsFormat((Libconfig, es), n)) <==> RootFirst(es)
  {
    var es := Load(text, Legacy, []).entries;
    LoadedIsTidy(text);
    LoadedIsClean(text);
    SolidIsFirst(es);
    LibconfigNeverFlipsIff(es);
  }

  lemma LibKeyOrRoot(k: string)
    requires !LibKey(k)
    ensures GroupOf(k) == "" && TheirName(k) == k
  {
    if OursToWopl(k).Some? { OursIsLibKey(k); }
  }
}
