/** The pointer loops of src/config.c that read and write a file, each proved against the function
    in ConfigFormat that says what it means. */
module ConfigFiles {
  import opened Wrappers
  import opened Text
  import opened ConfigStore
  import opened ConfigFormat

  // ----- classifying a line ---------------------------------------------------------------------

  /** cfgIsLibconfigIdent on [begin, end) */
  method IdentAt(line: string, begin: nat, end: nat) returns (ok: bool)
    requires begin <= end <= |line|
    ensures ok == IsIdent(line[begin..end])
  {
    if begin >= end { return false; }
    if !IsAlpha(line[begin]) && line[begin] != '*' { return false; }
    var p := begin + 1;
    while p < end
      invariant begin < p <= end
      invariant forall i :: begin < i < p ==> IsIdentChar(line[i])
    {
      if !IsIdentChar(line[p]) {
        assert !IsIdentChar(line[begin..end][p - begin]);
        return false;
      }
      p := p + 1;
    }
    return true;
  }

  lemma FindWithin(line: string, p: nat, end: nat, c: char)
    requires p <= end <= |line|
    ensures var eq := p + Find(line[p..], c);
            Find(line[p..end], c) == if eq < end then eq - p else end - p
  {
    var eq := p + Find(line[p..], c);
    if eq < end { FindIs(line[p..end], c, eq - p); }
  }

  /** Is [p, end) an `ident = ...;` statement? */
  method StatementAt(line: string, p: nat, end: nat) returns (ok: bool)
    requires p < end <= |line|
    ensures ok == IsStatement(line[p..end])
  {
    ghost var body := line[p..end];
    var eq := p + Find(line[p..], '=');
    FindWithin(line, p, end, '=');
    if eq >= end { return false; }
    assert body[..eq - p] == line[p..eq];
    if eq > p && IsWS(line[eq - 1]) && line[end - 1] == ';' {
      var kend := BackOverBlanks(line, p, eq);
      ok := IdentAt(line, p, kend);
    } else {
      ok := false;
    }
  }

  method ClassifyLine(line: string) returns (c: LineClass)
    ensures c == Classify(line)
  {
    var p := SkipBlanks(line, 0, |line|);
    assert line[0..|line|] == line && line[p..|line|] == line[p..];
    if p == |line| { return BlankLine; }
    var end := BackOverBlanks(line, p, |line|);
    TrimKeepsComment(line[p..]);
    if line[p] == '#' { return CommentLine; }
    if line[p] == '/' && p + 1 < |line| && (line[p + 1] == '/' || line[p + 1] == '*') { return CommentLine; }
    var statement := StatementAt(line, p, end);
    return if statement then LibconfigLine else LegacyLine;
  }

  lemma TrimKeepsComment(s: string)
    requires s != "" && !IsWS(s[0])
    ensures TrimEnd(s) != "" && (IsComment(TrimEnd(s)) <==> IsComment(s))
  {
  }

  // ----- reading a libconfig line ---------------------------------------------------------------

  /** Trim the tail, drop one terminator, trim again. */
  method StatementEnd(s: string) returns (end: nat)
    ensures end <= |s| && s[..end] == TrimEnd(DropLast(TrimEnd(s), ';'))
  {
    SliceOfPrefix(s, 0, |s|);
    end := BackOverBlanks(s, 0, |s|);
    ghost var once := s[0..end];
    if end > 0 && s[end - 1] == ';' { end := end - 1; }
    assert DropLast(once, ';') == s[0..end];
    end := BackOverBlanks(s, 0, end);
    SliceOfPrefix(s, 0, end);
  }

  /** '=' is neither a blank nor the terminator, so it is inside the trimmed statement. */
  lemma RightStarts(s: string, end: nat, eq: nat)
    requires eq < |s| && end <= |s| && s[eq] == '='
    requires s[..end] == TrimEnd(DropLast(TrimEnd(s), ';'))
    ensures eq < end
  {
  }

  method AssignmentAt(s: string, end: nat, eq: nat) returns (st: Statement)
    requires eq < end <= |s|
    ensures st == Assign(TrimEnd(s[..eq]), TrimStart(s[..end][eq + 1..]))
  {
    SliceOfPrefix(s, eq + 1, end);
    SliceOfPrefix(s, 0, eq);
    var kend := BackOverBlanks(s, 0, eq);
    var v := SkipBlanks(s, eq + 1, end);
    st := Assign(s[0..kend], s[v..end]);
  }

  method HeaderAt(s: string, colon: nat) returns (st: Statement)
    requires colon <= |s|
    ensures st == if colon < |s| then Header(TrimEnd(s[..colon])) else Nothing
  {
    if colon == |s| { return Nothing; }
    SliceOfPrefix(s, 0, colon);
    var kend := BackOverBlanks(s, 0, colon);
    st := Header(s[0..kend]);
  }

  method ParseBodyAt(s: string) returns (st: Statement)
    ensures st == ParseBody(s)
  {
    var end := StatementEnd(s);
    var eq, colon := Find(s, '='), Find(s, ':');
    if eq == |s| || colon < eq {
      st := HeaderAt(s, colon);
    } else {
      RightStarts(s, end, eq);
      st := AssignmentAt(s, end, eq);
    }
  }

  method ParseLine(line: string) returns (st: Statement)
    ensures st == ParseStatement(line)
  {
    var p := SkipBlanks(line, 0, |line|);
    assert line[0..|line|] == line && line[p..|line|] == line[p..];
    if p == |line| || IsComment(line[p..]) { return Nothing; }
    if line[p] == '}' { return Close; }
    if line[p] == '{' { return Nothing; }
    st := ParseBodyAt(line[p..]);
  }

  /** The scalar arm, from the quotes on. */
  method StoreScalar(key: string, rhs: string, group: string, config: ConfigSet)
    requires config.Valid()
    modifies config.repr
    ensures config.Valid() && fresh(config.repr - old(config.repr)) && config.format == old(config.format)
    ensures config.entries == ReadScalar(key, rhs, group, old(config.entries))
    ensures 0 < |key| < 32 && Unquote(rhs) == "true" ==>
              config.entries == Set(old(config.entries), OurName(group, key), "1")
    ensures 0 < |key| < 32 && Unquote(rhs) == "false" ==>
              config.entries == Set(old(config.entries), OurName(group, key), "0")
  {
    if key == "" || |key| >= KEY_NAME_LEN { return; }
    var v, end := 0, |rhs|;
    if v < end && rhs[v] == '"' {
      v := v + 1;
      if end > v && rhs[end - 1] == '"' { end := end - 1; }
    }
    assert Unquote(rhs) == rhs[v..end];
    if end <= v { return; }
    var val := ReadBool(Truncate(rhs[v..end], KEY_VALUE_LEN));
    var _ := config.SetStr(OurName(group, key), val);
  }

  method ReadLibconfigLineInto(line: string, group: string, config: ConfigSet) returns (group': string)
    requires config.Valid()
    modifies config.repr
    ensures config.Valid() && fresh(config.repr - old(config.repr)) && config.format == old(config.format)
    ensures (group', config.entries) == ReadLibconfigLine(line, group, old(config.entries))
  {
    group' := group;
    var st := ParseLine(line);
    match st {
      case Nothing =>
      case Close => group' := "";
      case Header(name) => group' := ReadHeader(name, group);
      case Assign(key, rhs) => StoreScalar(key, rhs, group, config);
    }
  }

  // ----- reading a file -------------------------------------------------------------------------

  method SplitAssignmentAt(line: string) returns (r: Option<(string, string)>)
    ensures r == SplitAssignment(line)
  {
    var p := SkipBlanks(line, 0, |line|);
    assert line[0..|line|] == line && line[p..|line|] == line[p..];
    var eq := p + Find(line[p..], '=');
    if eq == |line| { return None; }
    assert line[p..][..eq - p] == line[p..eq] && line[p..][eq - p + 1..] == line[eq + 1..];
    return Some((Truncate(line[p..eq], KEY_NAME_LEN), Truncate(line[eq + 1..], KEY_VALUE_LEN)));
  }

  method ReadLegacyLineInto(line: string, prefix: string, config: ConfigSet) returns (prefix': string)
    requires config.Valid()
    modifies config.repr
    ensures config.Valid() && fresh(config.repr - old(config.repr)) && config.format == old(config.format)
    ensures (prefix', config.entries) == ReadLegacyLine(line, prefix, old(config.entries))
  {
    prefix' := prefix;
    var split := SplitAssignmentAt(line);
    if split.Some? {
      var (key, val) := split.value;
      if !(line != "" && IsWS(line[0])) { prefix' := ""; }
      var _ := config.SetStr(if prefix' != "" then prefix' + "_" + key else key, val);
    } else {
      var colon := Find(line, ':');
      if 0 < colon < |line| { prefix' := Truncate(line[..colon], KEY_NAME_LEN); }
    }
  }

  /** configReadFileBuffer over the lines that readFileBuffer delivers. */
  method ReadFileBuffer(lines: seq<string>, config: ConfigSet)
    requires config.Valid()
    modifies config.repr
    ensures config.Valid() && fresh(config.repr - old(config.repr)) && !config.modified
    ensures var r := ReadLines(Reader(false, old(config.format), "", "", old(config.entries)), lines);
            config.entries == r.entries && config.format == r.format
  {
    ghost var goal := ReadLines(Reader(false, config.format, "", "", config.entries), lines);
    var latched, group, prefix, at := false, "", "", 0;
    while at < |lines|
      invariant at <= |lines| && config.Valid() && fresh(config.repr - old(config.repr))
      invariant ReadLines(Reader(latched, config.format, group, prefix, config.entries), lines[at..]) == goal
    {
      ghost var before := Reader(latched, config.format, group, prefix, config.entries);
      ReadLinesStep(before, lines, at);
      latched, group, prefix := ReadLineInto(lines[at], latched, group, prefix, config);
      at := at + 1;
    }
    config.modified := false;
  }

  lemma ReadLinesStep(r: Reader, lines: seq<string>, at: nat)
    requires at < |lines|
    ensures ReadLines(r, lines[at..]) == ReadLines(ReadLine(r, lines[at]), lines[at + 1..])
  {
    assert lines[at..][1..] == lines[at + 1..];
  }

  method LatchInto(line: string, latched: bool, config: ConfigSet) returns (skip: bool, latched': bool)
    modifies config`format
    ensures var c := Classify(line);
            skip == (!latched && (c == BlankLine || c == CommentLine)) &&
            if skip then !latched' && config.format == old(config.format)
            else latched' && config.format == Latch(Reader(latched, old(config.format), "", "", []), c).format
  {
    skip, latched' := false, true;
    if !latched {
      var c := ClassifyLine(line);
      if c == BlankLine || c == CommentLine { return true, false; }
      config.format := if c == LibconfigLine then Libconfig else Legacy;
    }
  }

  method ReadBodyInto(line: string, group: string, prefix: string, config: ConfigSet)
    returns (group': string, prefix': string)
    requires config.Valid()
    modifies config.repr
    ensures config.Valid() && fresh(config.repr - old(config.repr)) && config.format == old(config.format)
    ensures Reader(true, config.format, group', prefix', config.entries) ==
            ReadBody(Reader(true, config.format, group, prefix, old(config.entries)), line)
  {
    group', prefix' := group, prefix;
    if config.format == Libconfig {
      group' := ReadLibconfigLineInto(line, group, config);
    } else {
      prefix' := ReadLegacyLineInto(line, prefix, config);
    }
  }

  /** One turn of that loop; the format in force is the set's own once it is latched. */
  method ReadLineInto(line: string, latched: bool, group: string, prefix: string, config: ConfigSet)
    returns (latched': bool, group': string, prefix': string)
    requires config.Valid()
    modifies config.repr
    ensures config.Valid() && fresh(config.repr - old(config.repr))
    ensures Reader(latched', config.format, group', prefix', config.entries) ==
            ReadLine(Reader(latched, old(config.format), group, prefix, old(config.entries)), line)
  {
    group', prefix' := group, prefix;
    var skip;
    skip, latched' := LatchInto(line, latched, config);
    if !skip {
      group', prefix' := ReadBodyInto(line, group, prefix, config);
    }
  }

  // ----- writing --------------------------------------------------------------------------------

  /** cfgWriteLibconfigLine: neither the escape buffer nor the line buffer ever cuts anything off. */
  method WriteLibconfigLine(indent: string, key: string, val: string) returns (line: string)
    requires |indent| <= 2 && |key| < KEY_NAME_LEN && |val| < KEY_VALUE_LEN
    ensures line == LibconfigLineOf(indent, key, val) + "\n"
  {
    if IsBareScalar(val) {
      return Truncate(indent + key + " = " + val + ";" + "\n", LINE_BUFFER);
    }
    var esc, p := "", 0;
    while p < |val| && |esc| + 2 < 2 * KEY_VALUE_LEN
      invariant p <= |val| && |esc| <= 2 * p && esc == Escape(val[..p])
    {
      assert val[..p + 1][..p] == val[..p];
      if val[p] == '\\' || val[p] == '"' { esc := esc + "\\"; }
      esc := esc + [val[p]];
      p := p + 1;
      assert esc == Escape(val[..p - 1]) + EscapeChar(val[p - 1]);
    }
    assert val[..p] == val;
    line := Truncate(indent + key + " = " + ("\"" + esc + "\"") + ";" + "\n", LINE_BUFFER);
  }

  method WriteLegacy(config: ConfigSet) returns (text: string)
    requires config.Valid()
    ensures text == LegacyText(config.entries)
  {
    text := "";
    var cur := config.head;
    ghost var at := 0;
    while cur != null
      invariant at <= |config.nodes| && cur == if at < |config.nodes| then config.nodes[at] else null
      invariant text + LegacyText(config.entries[at..]) == LegacyText(config.entries)
      decreases |config.nodes| - at
    {
      LegacyStep(text, config.entries, at);
      if cur.key != "" && cur.key[0] != '#' {
        text := text + Truncate(cur.key + "=" + cur.val + "\n", 512);
      }
      cur, at := cur.next, at + 1;
    }
  }

  lemma LegacyStep(text: string, es: seq<Entry>, at: nat)
    requires at < |es|
    ensures text + LegacyText(es[at..]) ==
            (if Written(es[at]) then text + (es[at].key + "=" + es[at].val + "\n") else text) + LegacyText(es[at + 1..])
  {
    assert es[at..][1..] == es[at + 1..];
    Assoc(text, es[at].key + "=" + es[at].val + "\n", LegacyText(es[at + 1..]));
  }

  lemma NameFits(key: string, group: string)
    requires |key| < KEY_NAME_LEN
    ensures |NameInGroup(key, group)| < KEY_NAME_LEN
  {
  }

  lemma EmitOne(text: string, es: seq<Entry>, at: nat, group: string)
    requires at < |es|
    ensures text + Emit(Select(es[at..], group), group) ==
            (if Written(es[at]) && GroupOf(es[at].key) == group
             then text + (LibconfigLineOf(if group == "" then "" else "  ", NameInGroup(es[at].key, group), es[at].val) + "\n")
             else text) + Emit(Select(es[at + 1..], group), group)
  {
    var rest := Select(es[at + 1..], group);
    assert es[at..][1..] == es[at + 1..];
    if Written(es[at]) && GroupOf(es[at].key) == group {
      assert ([es[at]] + rest)[1..] == rest;
      Assoc(text, LibconfigLineOf(if group == "" then "" else "  ", NameInGroup(es[at].key, group), es[at].val) + "\n",
            Emit(rest, group));
    }
  }

  /** One walk over the list, writing the statements of one group; `any` tells whether there were some. */
  method WriteStatements(config: ConfigSet, group: string) returns (text: string, any: bool)
    requires config.Valid()
    ensures text == Emit(Select(config.entries, group), group)
    ensures any == (Select(config.entries, group) != [])
  {
    text, any := "", false;
    var cur := config.head;
    ghost var at := 0;
    while cur != null
      invariant at <= |config.nodes| && cur == if at < |config.nodes| then config.nodes[at] else null
      invariant text + Emit(Select(config.entries[at..], group), group) == Emit(Select(config.entries, group), group)
      invariant (any || Select(config.entries[at..], group) != []) == (Select(config.entries, group) != [])
      decreases |config.nodes| - at
    {
      EmitOne(text, config.entries, at, group);
      assert config.entries[at..][1..] == config.entries[at + 1..];
      if cur.key != "" && cur.key[0] != '#' && GroupOf(cur.key) == group {
        NameFits(cur.key, group);
        var line := WriteLibconfigLine(if group == "" then "" else "  ", NameInGroup(cur.key, group), cur.val);
        text, any := text + line, true;
      }
      cur, at := cur.next, at + 1;
    }
  }

  method WriteBlock(config: ConfigSet, i: nat) returns (block: string)
    requires config.Valid() && i < |GROUPS|
    ensures block == Block(config.entries, GROUPS[i])
  {
    var body, any := WriteStatements(config, GROUPS[i]);
    GroupNameShort(i);
    block := if any then Truncate(GROUPS[i] + " :\n{\n", 128) + body + Truncate("};\n", 128) else "";
  }

  /** cfgWriteLibconfig: the root statements, then one block per group that has members. */
  method WriteLibconfig(config: ConfigSet) returns (text: string)
    requires config.Valid()
    ensures text == LibconfigText(config.entries)
  {
    var roots, _ := WriteStatements(config, "");
    text := roots;
    var i := 0;
    while i < |GROUPS|
      invariant i <= |GROUPS|
      invariant text + Blocks(config.entries, i) == LibconfigText(config.entries)
    {
      var block := WriteBlock(config, i);
      BlocksStep(text, config.entries, i, block);
      text, i := text + block, i + 1;
    }
  }

  lemma GroupNameShort(i: nat)
    requires i < |GROUPS|
    ensures |GROUPS[i]| < KEY_NAME_LEN
  {
  }

  lemma BlocksStep(text: string, es: seq<Entry>, i: nat, block: string)
    requires i < |GROUPS| && block == Block(es, GROUPS[i])
    ensures text + Blocks(es, i) == text + block + Blocks(es, i + 1)
  {
    Assoc(text, block, Blocks(es, i + 1));
  }
}
