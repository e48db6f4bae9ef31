/** What a single line of a configuration file means, character by character: its class, a legacy pair or prefix,
    a group that opens or closes, and how a value is written. */
module ConfigLines {
  import opened Wrappers
  import opened Text
  import opened ConfigStore
  import opened ConfigFormat

  predicate Blanks(s: string) {
    forall i :: 0 <= i < |s| ==> s[i] == ' ' || s[i] == '\t'
  }

  predicate Letter(c: char) {
    'a' <= c <= 'z' || 'A' <= c <= 'Z'
  }

  /** A letter or a star, and then letters, digits, underscores, hyphens and stars. */
  predicate Name(s: string) {
    && s != "" && (Letter(s[0]) || s[0] == '*')
    && forall i :: 0 < i < |s| ==> Letter(s[i]) || '0' <= s[i] <= '9' || s[i] == '_' || s[i] == '-' || s[i] == '*'
  }

  // ----- the class of a line --------------------------------------------------------------------

  /** Where the text of a line starts. */
  ghost predicate StartsAt(line: string, k: nat) {
    k < |line| && Blanks(line[..k]) && line[k] != ' ' && line[k] != '\t'
  }

  lemma BodyStarts(line: string, k: nat)
    requires StartsAt(line, k)
    ensures TrimStart(line) == line[k..] && |TrimEnd(line[k..])| > 0
    ensures TrimEnd(line[k..]) == line[k..k + |TrimEnd(line[k..])|] && Blanks(line[k + |TrimEnd(line[k..])|..])
    ensures !IsWS(line[k + |TrimEnd(line[k..])| - 1])
  {
    forall i | 0 <= i < k ensures IsWS(line[i]) { assert line[i] == line[..k][i]; }
    TrimStartIs(line, k);
    var n := LastNonBlank(line[k..], |line| - k);
    var rest := line[k + n..];
    assert line[k..][0] == line[k] && line[k..][..n] == line[k..k + n];
    forall i | 0 <= i < |rest| ensures IsWS(rest[i]) { assert rest[i] == line[k..][n + i]; }
  }

  lemma NothingStarts(line: string)
    requires forall k: nat :: !StartsAt(line, k)
    ensures Blanks(line)
  {
    var k := FirstNonBlank(line, 0);
    if k < |line| { assert StartsAt(line, k); }
  }

  /** A line of blanks says nothing. */
  lemma BlankLineIff(line: string)
    ensures Classify(line) == BlankLine <==> Blanks(line)
  {
    if Blanks(line) {
      TrimStartIs(line, |line|);
    } else {
      var k := FirstNonBlank(line, 0);
      assert StartsAt(line, k);
      BodyStarts(line, k);
    }
  }

  /** Nor does one whose text starts with a hash, two slashes or a slash and a star. */
  lemma CommentLineIff(line: string, k: nat)
    requires StartsAt(line, k)
    ensures Classify(line) == CommentLine <==>
            line[k] == '#' || (line[k] == '/' && k + 1 < |line| && (line[k + 1] == '/' || line[k + 1] == '*'))
  {
    BodyStarts(line, k);
    var body := TrimEnd(line[k..]);
    assert body[0] == line[k];
    if k + 1 < |line| {
      if |body| == 1 { assert line[k + 1..][0] == line[k + 1]; } else { assert body[1] == line[k + 1]; }
    }
  }

  /** A name, a blank, an equal sign and a semicolon at the end. */
  ghost predicate Parts(line: string, lead: string, name: string, gap: string, value: string, tail: string) {
    && Blanks(lead) && Name(name) && gap != "" && Blanks(gap) && Blanks(tail)
    && line == lead + (name + gap + "=" + value + ";") + tail
  }

  ghost predicate IsSetting(line: string) {
    exists lead, name, gap, value, tail :: Parts(line, lead, name, gap, value, tail)
  }

  lemma NameIs(s: string)
    ensures Name(s) <==> IsIdent(s)
  {
  }

  lemma BodyIs(lead: string, body: string, tail: string)
    requires Blanks(lead) && Blanks(tail) && body != "" && !IsWS(body[0]) && !IsWS(body[|body| - 1])
    ensures TrimEnd(TrimStart(lead + body + tail)) == body
  {
    var line := lead + body + tail;
    TrimStartIs(line, |lead|);
    assert line[|lead|..] == body + tail;
    TrimEndIs(body + tail, |body|);
    assert (body + tail)[..|body|] == body;
  }

  lemma StatementIs(name: string, gap: string, value: string)
    requires Name(name) && gap != "" && Blanks(gap)
    ensures var body := name + gap + "=" + value + ";"; IsStatement(body) && !IsComment(body)
  {
    var body, eq := name + gap + "=" + value + ";", |name + gap|;
    assert body[..eq] == name + gap && body[eq - 1] == gap[|gap| - 1];
    forall i | 0 <= i < eq ensures body[i] != '=' {
      if i < |name| { assert body[i] == name[i]; } else { assert body[i] == gap[i - |name|]; }
    }
    FindIs(body, '=', eq);
    TrimEndIs(name + gap, |name|);
    assert (name + gap)[..|name|] == name;
    NameIs(name);
    assert body[0] == name[0];
  }

  lemma SettingIsLibconfig(line: string, lead: string, name: string, gap: string, value: string, tail: string)
    requires Parts(line, lead, name, gap, value, tail)
    ensures Classify(line) == LibconfigLine
  {
    var body := name + gap + "=" + value + ";";
    assert body[0] == name[0] && body[|body| - 1] == ';';
    BodyIs(lead, body, tail);
    StatementIs(name, gap, value);
  }

  lemma StatementParts(body: string) returns (name: string, gap: string, value: string)
    requires IsStatement(body)
    ensures Name(name) && gap != "" && Blanks(gap) && body == name + gap + "=" + value + ";"
  {
    var eq := Find(body, '=');
    name := TrimEnd(body[..eq]);
    NameIs(name);
    gap, value := body[|name|..eq], body[eq + 1..|body| - 1];
    forall i | 0 <= i < |gap| ensures IsWS(gap[i]) { assert gap[i] == body[..eq][|name| + i]; }
    assert body[..eq][eq - 1] == body[eq - 1] && LastNonBlank(body[..eq], eq) < eq;
    assert body == body[..|name|] + gap + [body[eq]] + value + [body[|body| - 1]];
  }

  lemma LibconfigIsSetting(line: string)
    requires Classify(line) == LibconfigLine
    ensures IsSetting(line)
  {
    var k := FirstNonBlank(line, 0);
    assert StartsAt(line, k);
    BodyStarts(line, k);
    var n := k + |TrimEnd(line[k..])|;
    var name, gap, value := StatementParts(line[k..n]);
    SplitTwice(line, k, n);
    assert Parts(line, line[..k], name, gap, value, line[n..]);
  }

  lemma SplitTwice(line: string, k: nat, n: nat)
    requires k <= n <= |line|
    ensures line == line[..k] + line[k..n] + line[n..]
  {
  }

  /** A line is a libconfig setting exactly when it is one character by character. */
  lemma LibconfigLineIff(line: string)
    ensures Classify(line) == LibconfigLine <==> IsSetting(line)
  {
    if IsSetting(line) {
      var lead, name, gap, value, tail :| Parts(line, lead, name, gap, value, tail);
      SettingIsLibconfig(line, lead, name, gap, value, tail);
    }
    if Classify(line) == LibconfigLine { LibconfigIsSetting(line); }
  }

  // ----- a line of a legacy file ----------------------------------------------------------------

  /** A pair: the first 31 characters in front of the equal sign and the first 255 behind it, under the prefix only
      when the line is indented; a line that is not ends the prefix. */
  lemma PairIsRead(lead: string, key: string, val: string, prefix: string, es: seq<Entry>)
    requires Blanks(lead) && NoneOf(key, {'='}) && (key == "" || (key[0] != ' ' && key[0] != '\t'))
    ensures var k := if |key| < 32 then key else key[..31];
            var v := if |val| < 256 then val else val[..255];
            ReadLegacyLine(lead + key + "=" + val, prefix, es) ==
            if lead == "" then ("", Set(es, k, v))
            else (prefix, Set(es, if prefix == "" then k else prefix + "_" + k, v))
  {
    SplitIs(lead, key, val);
    var line := lead + key + "=" + val;
    assert line[0] == if lead != "" then lead[0] else if key != "" then key[0] else '=';
  }

  lemma SplitIs(lead: string, key: string, val: string)
    requires Blanks(lead) && NoneOf(key, {'='}) && (key == "" || (key[0] != ' ' && key[0] != '\t'))
    ensures SplitAssignment(lead + key + "=" + val) ==
            Some((if |key| < 32 then key else key[..31], if |val| < 256 then val else val[..255]))
  {
    var p := key + "=" + val;
    assert lead + key + "=" + val == lead + p;
    LeadGoes(lead, p);
    FindIs(p, '=', |key|);
    assert p[..|key|] == key && p[|key| + 1..] == val;
  }

  /** A line without an equal sign: what is in front of its colon is the prefix of the indented pairs to come; one
      without a colon, or with nothing in front of it, says nothing. */
  lemma PrefixIsRead(line: string, prefix: string, es: seq<Entry>)
    requires NoneOf(line, {'='})
    ensures forall name: string, rest: string :: NoneOf(name, {':'}) && line == name + ":" + rest ==>
              ReadLegacyLine(line, prefix, es) ==
              (if name == "" then prefix else if |name| < 32 then name else name[..31], es)
    ensures NoneOf(line, {':'}) ==> ReadLegacyLine(line, prefix, es) == (prefix, es)
  {
    var p := TrimStart(line);
    forall i | 0 <= i < |p| ensures p[i] != '=' { assert p[i] in line; }
    forall name: string, rest: string | NoneOf(name, {':'}) && line == name + ":" + rest
      ensures ReadLegacyLine(line, prefix, es) ==
              (if name == "" then prefix else if |name| < 32 then name else name[..31], es)
    {
      FindIs(line, ':', |name|);
      assert line[..|name|] == name;
    }
  }

  // ----- a line of a libconfig file -------------------------------------------------------------

  /** A line that opens a group: its name is in force from here on, unless it has more than 31 characters. */
  lemma GroupOpens(lead: string, name: string, gap: string, group: string, es: seq<Entry>)
    requires Blanks(lead) && Blanks(gap) && Name(name)
    ensures ReadLibconfigLine(lead + name + gap + ":", group, es) == (if |name| < 32 then name else group, es)
  {
    var p := name + gap + ":";
    assert lead + name + gap + ":" == lead + p && p[0] == name[0];
    LeadGoes(lead, p);
    HeaderIs(name, gap);
    GroupIsRead(lead + p, p, name, group, es);
  }

  lemma LeadGoes(lead: string, p: string)
    requires Blanks(lead) && p != "" && !IsWS(p[0])
    ensures TrimStart(lead + p) == p
  {
    TrimStartIs(lead + p, |lead|);
    assert (lead + p)[|lead|..] == p;
  }

  lemma GroupIsRead(line: string, p: string, name: string, group: string, es: seq<Entry>)
    requires TrimStart(line) == p && p != "" && (Letter(p[0]) || p[0] == '*') && ParseBody(p) == Header(name)
    requires name != ""
    ensures ReadLibconfigLine(line, group, es) == (if |name| < 32 then name else group, es)
  {
    assert !IsComment(p);
  }

  lemma HeaderIs(name: string, gap: string)
    requires Blanks(gap) && Name(name)
    ensures ParseBody(name + gap + ":") == Header(name)
  {
    var p, n := name + gap + ":", |name + gap|;
    assert p[..n] == name + gap && p[n] == ':';
    forall i | 0 <= i < n ensures p[i] != ':' && p[i] != '=' {
      if i < |name| { assert p[i] == name[i]; } else { assert p[i] == gap[i - |name|]; }
    }
    FindIs(p, ':', n);
    assert Find(p, '=') == |p|;
    TrimEndIs(name + gap, |name|);
    assert (name + gap)[..|name|] == name;
  }

  /** An opening brace says nothing, and a closing one ends the group, whatever follows. */
  lemma BracesAre(lead: string, rest: string, group: string, es: seq<Entry>)
    requires Blanks(lead)
    ensures ReadLibconfigLine(lead + "{" + rest, group, es) == (group, es)
    ensures ReadLibconfigLine(lead + "}" + rest, group, es) == ("", es)
  {
    TrimStartIs(lead + "{" + rest, |lead|);
    TrimStartIs(lead + "}" + rest, |lead|);
    assert (lead + "{" + rest)[|lead|..] == "{" + rest && (lead + "}" + rest)[|lead|..] == "}" + rest;
  }

  // ----- how a value is written -----------------------------------------------------------------

  /** A boolean or a whole number. */
  predicate Bare(v: string) {
    v == "true" || v == "false" || Digits(v) || (v != "" && v[0] == '-' && Digits(v[1..]))
  }

  predicate Digits(s: string) {
    s != "" && forall i :: 0 <= i < |s| ==> '0' <= s[i] <= '9'
  }

  /** Those are written as they are, everything else in quotes. */
  lemma WrittenBareIff(v: string)
    ensures Bare(v) ==> RightSide(v) == v
    ensures !Bare(v) ==> RightSide(v) == "\"" + Escape(v) + "\""
  {
  }

  /** A quote or a backslash has a backslash in front, and nothing else has. */
  lemma EscapedOne(v: string, c: char)
    ensures Escape(v + [c]) == Escape(v) + if c == '"' || c == '\\' then ['\\', c] else [c]
  {
    var w := v + [c];
    assert w[..|w| - 1] == v && w[|w| - 1] == c;
    assert Escape(w) == Escape(w[..|w| - 1]) + EscapeChar(w[|w| - 1]);
  }
}
