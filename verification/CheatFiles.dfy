/** What the lines of a cheat file mean, digit by digit, and that a written table of cheats is read back. */
module CheatFiles {
  import opened Text
  import opened Cheats

  const DIGITS := "0123456789ABCDEF"
  const SMALL_DIGITS := "0123456789abcdef"

  predicate AllHex(s: string) {
    forall i :: 0 <= i < |s| ==> IsHex(s[i])
  }

  predicate Blank(s: string) {
    forall i :: 0 <= i < |s| ==> s[i] == ' ' || 9 <= s[i] as int <= 13
  }

  /** The digits are those of either case, and each has its value. */
  lemma DigitIs(v: nat)
    requires v < 16
    ensures IsHex(DIGITS[v]) && HexValue(DIGITS[v]) == v
    ensures IsHex(SMALL_DIGITS[v]) && HexValue(SMALL_DIGITS[v]) == v
  {
  }

  lemma DigitsOnly(c: char)
    ensures IsHex(c) <==> c in DIGITS || c in SMALL_DIGITS
  {
    if '0' <= c <= '9' { assert DIGITS[c as int - 48] == c; }
    if 'A' <= c <= 'F' { assert DIGITS[c as int - 55] == c; }
    if 'a' <= c <= 'f' { assert SMALL_DIGITS[c as int - 87] == c; }
  }

  lemma {:induction false} HexAppend(a: string, b: string)
    ensures HexDigits(a + b) == HexDigits(a) + HexDigits(b)
  {
    if b == "" {
      Nil(a);
    } else {
      assert (a + b)[..|a + b| - 1] == a + b[..|b| - 1];
      HexAppend(a, b[..|b| - 1]);
      Assoc(HexDigits(a), HexDigits(b[..|b| - 1]), HexDigits([b[|b| - 1]]));
      LastDigit(b);
    }
  }

  lemma LastDigit(b: string)
    requires b != ""
    ensures HexDigits(b) == HexDigits(b[..|b| - 1]) + if IsHex(b[|b| - 1]) then [b[|b| - 1]] else []
  {
  }

  lemma {:induction false} HexOnly(s: string)
    ensures AllHex(s) ==> HexDigits(s) == s
    ensures Blank(s) ==> HexDigits(s) == ""
  {
    if s != "" {
      HexOnly(s[..|s| - 1]);
      assert s[..|s| - 1] + [s[|s| - 1]] == s;
    }
  }

  function Upto(v: seq<nat>, n: nat): nat
    requires n <= |v|
  {
    if n == 0 then 0 else 16 * Upto(v, n - 1) + v[n - 1]
  }

  /** The values of the digits of a text. */
  predicate Spells(s: string, v: seq<nat>) {
    && |s| == |v|
    && forall i :: 0 <= i < |v| ==> v[i] < 16 && (s[i] == DIGITS[v[i]] || s[i] == SMALL_DIGITS[v[i]])
  }

  lemma {:induction false} HexUpto(s: string, v: seq<nat>, n: nat)
    requires Spells(s, v) && n <= |s|
    ensures Hex(s[..n]) == Upto(v, n)
  {
    if n > 0 {
      HexUpto(s, v, n - 1);
      assert s[..n][..n - 1] == s[..n - 1];
      DigitIs(v[n - 1]);
    }
  }

  /** Eight digits of either case are a number, the highest digit first. */
  lemma HexOfEight(s: string, v: seq<nat>)
    requires Spells(s, v) && |s| == 8
    ensures Hex(s) ==
            0x1000_0000 * v[0] + 0x100_0000 * v[1] + 0x10_0000 * v[2] + 0x1_0000 * v[3]
            + 0x1000 * v[4] + 0x100 * v[5] + 0x10 * v[6] + v[7]
  {
    HexUpto(s, v, 8);
    assert s[..8] == s;
    UptoEight(v);
  }

  lemma UptoEight(v: seq<nat>)
    requires |v| == 8
    ensures Upto(v, 8) ==
            0x1000_0000 * v[0] + 0x100_0000 * v[1] + 0x10_0000 * v[2] + 0x1_0000 * v[3]
            + 0x1000 * v[4] + 0x100 * v[5] + 0x10 * v[6] + v[7]
  {
    assert Upto(v, 1) == v[0];
    assert Upto(v, 2) == 0x10 * v[0] + v[1];
    assert Upto(v, 3) == 0x100 * v[0] + 0x10 * v[1] + v[2];
    assert Upto(v, 4) == 0x1000 * v[0] + 0x100 * v[1] + 0x10 * v[2] + v[3];
    assert Upto(v, 6) == 0x100 * Upto(v, 4) + 0x10 * v[4] + v[5];
    assert Upto(v, 8) == 0x100 * Upto(v, 6) + 0x10 * v[6] + v[7];
  }

  // ----- one line -------------------------------------------------------------------------------

  predicate IsComment(s: string) {
    s == "" || s[0] == '#' || StartsWith(s, "//")
  }

  /** No comment starts here. */
  predicate Plain(s: string) {
    && NoneOf(s, {'#'})
    && forall i :: 0 <= i < |s| - 1 ==> s[i] != '/' || s[i + 1] != '/'
  }

  lemma {:induction false} CommentFrom(s: string, comment: string, from: nat)
    requires Plain(s) && IsComment(comment) && from <= |s|
    requires s == "" || s[|s| - 1] != '/' || comment == "" || comment[0] != '/'
    ensures CommentAt(s + comment, from) == |s|
    decreases |s| - from
  {
    var line := s + comment;
    if from < |s| {
      assert line[from] == s[from];
      if StartsWith(line[from..], "//") {
        assert line[from] == line[from..][..2][0] == '/' && line[from + 1] == line[from..][..2][1] == '/';
      }
      CommentFrom(s, comment, from + 1);
    } else if comment != "" {
      assert line[from..] == comment;
    }
  }

  lemma {:induction false} SpacesFromIs(s: string, from: nat, k: nat)
    requires from <= k <= |s| && (forall i :: from <= i < k ==> IsSpace(s[i])) && (k < |s| ==> !IsSpace(s[k]))
    ensures SpacesFrom(s, from) == k
    decreases k - from
  {
    if from < k { SpacesFromIs(s, from + 1, k); }
  }

  lemma {:induction false} SpacesToIs(s: string, upTo: nat, k: nat)
    requires k <= upTo <= |s| && (forall i :: k <= i < upTo ==> IsSpace(s[i])) && (k > 0 ==> !IsSpace(s[k - 1]))
    ensures SpacesTo(s, upTo) == k
  {
    if k < upTo { SpacesToIs(s, upTo - 1, k); }
  }

  /** Blanks around a text go. */
  lemma TrimmedIs(lead: string, s: string, tail: string)
    requires Blank(lead) && Blank(tail) && s != "" && IsGraph(s[0]) && IsGraph(s[|s| - 1])
    ensures Trimmed(lead + s + tail) == s
  {
    var line, n := lead + s + tail, |lead + s|;
    assert line[|lead|] == s[0] && line[n - 1] == s[|s| - 1];
    SpacesFromIs(line, 0, |lead|);
    SpacesToIs(line, |line|, n);
    assert line[|lead|..n] == s;
  }

  /** A line of text in front of a comment, whatever blanks are around it. */
  lemma TokenOfText(lead: string, s: string, tail: string, comment: string)
    requires Blank(lead) && Blank(tail) && s != "" && IsGraph(s[0]) && IsGraph(s[|s| - 1])
    requires Plain(s) && IsComment(comment) && (s[|s| - 1] != '/' || tail != "")
    ensures TokenOf(lead + s + tail + comment) ==
            if IsCode(s) then (if CodeOf(s) == Code(0, 0) then Skip else Line(CodeOf(s)))
            else Name(s[..if |s| < 128 then |s| else 128])
  {
    var front := lead + s + tail;
    assert (front + comment)[|lead|] == s[0];
    PlainInside(lead, s, tail);
    CommentFrom(front, comment, 0);
    assert (front + comment)[..|front|] == front;
    TrimmedIs(lead, s, tail);
  }

  lemma PlainInside(lead: string, s: string, tail: string)
    requires Blank(lead) && Blank(tail) && Plain(s)
    ensures Plain(lead + s + tail)
  {
    var line := lead + s + tail;
    forall i | 0 <= i < |line| - 1 ensures line[i] != '/' || line[i + 1] != '/' {
      if |lead| <= i < |lead + s| - 1 { assert line[i] == s[i - |lead|] && line[i + 1] == s[i + 1 - |lead|]; }
    }
  }

  /** Eight digits, blanks or none, and eight digits: the first eight are the address, the others the value. */
  lemma CodeLine(lead: string, address: string, gap: string, value: string, tail: string, comment: string)
    requires Blank(lead) && Blank(gap) && Blank(tail) && IsComment(comment)
    requires AllHex(address) && AllHex(value) && |address| == 8 == |value|
    ensures TokenOf(lead + (address + gap + value) + tail + comment) ==
            if Hex(address) == 0 == Hex(value) then Skip else Line(Code(Hex(address), Hex(value)))
  {
    var s := address + gap + value;
    assert s[0] == address[0] && s[|s| - 1] == value[7];
    forall i | 0 <= i < |s| ensures IsHex(s[i]) || IsSpace(s[i]) {
      if i < 8 { assert s[i] == address[i]; }
      else if i < 8 + |gap| { assert s[i] == gap[i - 8]; }
      else { assert s[i] == value[i - 8 - |gap|]; }
    }
    DigitsOfCode(address, gap, value);
    TokenOfText(lead, s, tail, comment);
  }

  lemma DigitsOfCode(address: string, gap: string, value: string)
    requires AllHex(address) && Blank(gap) && AllHex(value)
    ensures HexDigits(address + gap + value) == address + value
    ensures |address| == 8 ==> (address + value)[..8] == address && (address + value)[8..] == value
  {
    HexAppend(address + gap, value);
    HexAppend(address, gap);
    HexOnly(address);
    HexOnly(gap);
    HexOnly(value);
    Nil(address);
  }

  /** A single other character makes a line a name, and so does a seventeenth digit or a missing one. */
  lemma OtherwiseName(s: string, i: nat)
    requires i < |s| && s[i] !in DIGITS && s[i] !in SMALL_DIGITS && !Blank([s[i]])
    ensures !IsCode(s)
  {
    DigitsOnly(s[i]);
  }

  lemma WrongCountIsName(a: string, gap: string, b: string)
    requires AllHex(a) && Blank(gap) && AllHex(b)
    ensures IsCode(a + gap + b) ==> |a| + |b| == 16
  {
    DigitsOfCode(a, gap, b);
  }

  /** A line with no character from 33 to 126 is skipped, and any such character alone but a hash is a name. */
  lemma UnseenIsSkipped(s: string)
    requires forall i :: 0 <= i < |s| ==> s[i] as int < 33 || s[i] as int > 126
    ensures TokenOf(s) == Skip
  {
  }

  lemma OneSeenIsName(c: char)
    requires 33 <= c as int <= 126 && c != '#'
    ensures TokenOf([c]) == Name([c])
  {
    var s := [c];
    assert Plain(s);
    CommentFrom(s, "", 0);
    Nil(s);
    TrimmedIs("", s, "");
    assert s[..0] == "" && |HexDigits(s)| <= 1;
    assert IsGraph(s[0]) && s[..1] == s;
  }

  // ----- a written table ------------------------------------------------------------------------

  function Printed(n: nat, width: nat): string {
    if width == 0 then "" else Printed(n / 16, width - 1) + [DIGITS[n % 16]]
  }

  function Limit(width: nat): nat {
    if width == 0 then 1 else 16 * Limit(width - 1)
  }

  lemma {:induction false} PrintedIs(n: nat, width: nat)
    requires n < Limit(width)
    ensures |Printed(n, width)| == width && AllHex(Printed(n, width)) && Hex(Printed(n, width)) == n
  {
    if width > 0 {
      PrintedIs(n / 16, width - 1);
      DigitIs(n % 16);
      var s := Printed(n, width);
      assert s[..width - 1] == Printed(n / 16, width - 1);
    }
  }

  lemma EightDigits()
    ensures Limit(8) == 0x1_0000_0000
  {
    assert Limit(4) == 0x1_0000;
  }

  predicate WordSized(c: Code) {
    c.addr < 0x1_0000_0000 && c.val < 0x1_0000_0000 && c != Code(0, 0)
  }

  function CodeText(c: Code): string {
    Printed(c.addr, 8) + " " + Printed(c.val, 8)
  }

  lemma CodeTextIsRead(c: Code)
    requires WordSized(c)
    ensures TokenOf(CodeText(c)) == Line(c)
    ensures |CodeText(c)| <= LINE_MAX && NoneOf(CodeText(c), {LF})
  {
    EightDigits();
    PrintedIs(c.addr, 8);
    PrintedIs(c.val, 8);
    var a, v := Printed(c.addr, 8), Printed(c.val, 8);
    CodeLine("", a, " ", v, "", "");
    CodeFits(a, v);
    BareText(a + " " + v);
  }

  lemma BareText(s: string)
    ensures "" + s + "" + "" == s
  {
  }

  lemma CodeFits(a: string, v: string)
    requires AllHex(a) && AllHex(v) && |a| == 8 == |v|
    ensures |a + " " + v| <= LINE_MAX && NoneOf(a + " " + v, {LF})
  {
    var s := a + " " + v;
    forall i | 0 <= i < |s| ensures s[i] != LF {
      if i < 8 { assert s[i] == a[i]; } else if i > 8 { assert s[i] == v[i - 9]; }
    }
  }

  /** A name that is not cut, that is not a code and that holds no comment. */
  predicate NameStands(name: string) {
    && 0 < |name| <= 128 && IsGraph(name[0]) && IsGraph(name[|name| - 1]) && Plain(name) && !IsCode(name)
    && NoneOf(name, {LF})
  }

  lemma NameIsRead(name: string)
    requires NameStands(name)
    ensures TokenOf(name) == Name(name)
  {
    TokenOfPlainText(name);
    assert name[..|name|] == name;
  }

  lemma TokenOfPlainText(s: string)
    requires NameStands(s)
    ensures TokenOf(s) == Name(s[..|s|])
  {
    CommentFrom(s, "", 0);
    Nil(s);
    assert s[..|s|] == s;
    TrimmedIs("", s, "");
  }

  function CodeTexts(codes: seq<Code>): seq<string> {
    seq(|codes|, i requires 0 <= i < |codes| => CodeText(codes[i]))
  }

  function CodeTokens(codes: seq<Code>): seq<Token> {
    seq(|codes|, i requires 0 <= i < |codes| => Line(codes[i]))
  }

  /** The lines of a table: every cheat under its name. */
  function Lines(cheats: seq<Cheat>): seq<string> {
    if cheats == [] then []
    else Lines(cheats[..|cheats| - 1]) + [cheats[|cheats| - 1].name] + CodeTexts(cheats[|cheats| - 1].codes)
  }

  predicate AllWords(codes: seq<Code>) {
    forall i :: 0 <= i < |codes| ==> WordSized(codes[i])
  }

  predicate Writable(cheat: Cheat) {
    NameStands(cheat.name) && cheat.enabled && cheat.codes != [] && AllWords(cheat.codes)
  }

  predicate AllWritable(cheats: seq<Cheat>) {
    forall i :: 0 <= i < |cheats| ==> Writable(cheats[i])
  }

  predicate LinesFit(lines: seq<string>) {
    forall i :: 0 <= i < |lines| ==> |lines[i]| <= LINE_MAX && NoneOf(lines[i], {LF})
  }

  lemma MeantMore(tokens: seq<Token>, t: Token)
    ensures var m := Meant(tokens);
            Meant(tokens + [t]) ==
            if t.Skip? then m else if t.Name? then Ideal(m.cheats, t.name) else WithCode(m, t.code)
  {
    assert (tokens + [t])[..|tokens|] == tokens;
  }

  lemma TokensJoin(a: seq<string>, b: seq<string>)
    ensures Tokens(a + b) == Tokens(a) + Tokens(b)
  {
  }

  /** What is meant by a name and some of its codes. */
  function Begun(cheats: seq<Cheat>, name: string, codes: seq<Code>): Ideal {
    if codes == [] then Ideal(cheats, name) else Ideal(cheats + [Cheat(name, codes, true)], "")
  }

  lemma BegunGrows(cheats: seq<Cheat>, name: string, codes: seq<Code>, c: Code)
    requires name != ""
    ensures WithCode(Begun(cheats, name, codes), c) == Begun(cheats, name, codes + [c])
  {
    if codes == [] {
      assert [] + [c] == [c];
    } else {
      assert (cheats + [Cheat(name, codes, true)])[|cheats| := Cheat(name, codes + [c], true)] ==
             cheats + [Cheat(name, codes + [c], true)];
    }
  }

  lemma {:induction false} CodesMean(tokens: seq<Token>, cheats: seq<Cheat>, name: string, codes: seq<Code>, n: nat)
    requires Meant(tokens) == Ideal(cheats, name) && name != "" && n <= |codes|
    ensures Meant(tokens + CodeTokens(codes)[..n]) == Begun(cheats, name, codes[..n])
  {
    if n == 0 {
      Nil(tokens);
    } else {
      CodesMean(tokens, cheats, name, codes, n - 1);
      Assoc(tokens, CodeTokens(codes)[..n - 1], [Line(codes[n - 1])]);
      assert CodeTokens(codes)[..n] == CodeTokens(codes)[..n - 1] + [Line(codes[n - 1])];
      MeantMore(tokens + CodeTokens(codes)[..n - 1], Line(codes[n - 1]));
      BegunGrows(cheats, name, codes[..n - 1], codes[n - 1]);
      assert codes[..n - 1] + [codes[n - 1]] == codes[..n];
    }
  }

  lemma CodeTextsAreRead(codes: seq<Code>)
    requires AllWords(codes)
    ensures LinesFit(CodeTexts(codes)) && Tokens(CodeTexts(codes)) == CodeTokens(codes)
  {
    forall i | 0 <= i < |codes|
      ensures TokenOf(CodeTexts(codes)[i]) == Line(codes[i])
      ensures |CodeTexts(codes)[i]| <= LINE_MAX && NoneOf(CodeTexts(codes)[i], {LF})
    {
      CodeTextIsRead(codes[i]);
    }
  }

  lemma FitJoin(a: seq<string>, b: seq<string>)
    requires LinesFit(a) && LinesFit(b)
    ensures LinesFit(a + b)
  {
  }

  lemma {:induction false} CheatsAreMeant(cheats: seq<Cheat>)
    requires AllWritable(cheats)
    ensures LinesFit(Lines(cheats)) && Meant(Tokens(Lines(cheats))) == Ideal(cheats, "")
  {
    if cheats == [] {
      NothingIsMeant();
    } else {
      var init, cheat := cheats[..|cheats| - 1], cheats[|cheats| - 1];
      LastOf(cheats);
      CheatsAreMeant(init);
      CheatIsMeant(Lines(init), init, cheat);
    }
  }

  lemma LastOf(cheats: seq<Cheat>)
    requires AllWritable(cheats) && cheats != []
    ensures var init, cheat := cheats[..|cheats| - 1], cheats[|cheats| - 1];
            && AllWritable(init) && Writable(cheat) && init + [cheat] == cheats
            && Lines(cheats) == Lines(init) + [cheat.name] + CodeTexts(cheat.codes)
  {
  }

  lemma NothingIsMeant()
    ensures LinesFit([]) && Meant(Tokens([])) == Ideal([], "")
  {
  }

  lemma CheatIsMeant(lines: seq<string>, cheats: seq<Cheat>, cheat: Cheat)
    requires Writable(cheat) && LinesFit(lines) && Meant(Tokens(lines)) == Ideal(cheats, "")
    ensures var more := lines + [cheat.name] + CodeTexts(cheat.codes);
            LinesFit(more) && Meant(Tokens(more)) == Ideal(cheats + [cheat], "")
  {
    CodeTextsAreRead(cheat.codes);
    NameIsRead(cheat.name);
    FitJoin(lines, [cheat.name]);
    FitJoin(lines + [cheat.name], CodeTexts(cheat.codes));
    TokensJoin(lines, [cheat.name]);
    TokensJoin(lines + [cheat.name], CodeTexts(cheat.codes));
    assert Tokens([cheat.name]) == [Name(cheat.name)];
    CheatMeans(Tokens(lines), cheats, cheat);
  }

  lemma CheatMeans(tokens: seq<Token>, cheats: seq<Cheat>, cheat: Cheat)
    requires Meant(tokens) == Ideal(cheats, "") && cheat.name != "" && cheat.codes != [] && cheat.enabled
    ensures Meant(tokens + [Name(cheat.name)] + CodeTokens(cheat.codes)) == Ideal(cheats + [cheat], "")
  {
    MeantMore(tokens, Name(cheat.name));
    CodesMean(tokens + [Name(cheat.name)], cheats, cheat.name, cheat.codes, |cheat.codes|);
    assert cheat.codes[..|cheat.codes|] == cheat.codes;
    assert CodeTokens(cheat.codes)[..|cheat.codes|] == CodeTokens(cheat.codes);
  }

  /** A table of at most 250 cheats with at most 510 codes each comes back from its file as it was written:
      every name, every address and every value. */
  lemma TableComesBack(cheats: seq<Cheat>)
    requires AllWritable(cheats) && |cheats| <= 250
    requires forall i :: 0 <= i < |cheats| ==> |cheats[i].codes| <= 510
    ensures Parsed(Tokens(Chunks(Joined(Lines(cheats))))).cheats == cheats
  {
    CheatsAreMeant(cheats);
    ChunksAreLines(Lines(cheats));
    TokensAreNamed(Lines(cheats));
    ParsedIsMeant(Tokens(Lines(cheats)));
    CapIsAll(cheats);
  }

  // ----- the list -------------------------------------------------------------------------------

  lemma {:induction false} EnabledSkips(cheats: seq<Cheat>, off: Cheat, more: seq<Cheat>, n: nat)
    requires !off.enabled && n <= |more|
    ensures Enabled(cheats + [off] + more, |cheats| + 1 + n) == Enabled(cheats + more, |cheats| + n)
  {
    if n == 0 {
      EnabledIsLocal(cheats + [off] + more, cheats + more, |cheats|);
      Nil(Enabled(cheats + more, |cheats|));
    } else {
      EnabledSkips(cheats, off, more, n - 1);
      assert (cheats + [off] + more)[|cheats| + n] == more[n - 1] == (cheats + more)[|cheats| + n - 1];
    }
  }

  lemma {:induction false} EnabledIsLocal(a: seq<Cheat>, b: seq<Cheat>, n: nat)
    requires n <= |a| && n <= |b| && a[..n] == b[..n]
    ensures Enabled(a, n) == Enabled(b, n)
  {
    if n > 0 {
      assert a[n - 1] == a[..n][n - 1] == b[..n][n - 1] == b[n - 1];
      assert a[..n - 1] == a[..n][..n - 1] == b[..n][..n - 1] == b[..n - 1];
      EnabledIsLocal(a, b, n - 1);
    }
  }

  /** A cheat that the user switched off is as good as not there. */
  lemma SwitchedOffIsAbsent(cheats: seq<Cheat>, off: Cheat, more: seq<Cheat>)
    requires !off.enabled
    ensures FlatList(cheats + [off] + more) == FlatList(cheats + more)
  {
    var codes := Enabled(cheats + more, |cheats + more|);
    EnabledSkips(cheats, off, more, |more|);
    ListOf(cheats + [off] + more, codes);
    ListOf(cheats + more, codes);
  }

  /** The list, word by word: the pairs of all codes of a written table in its order, the address first,
      and zeros behind the last one or behind the 254th. */
  lemma ListHoldsTable(cheats: seq<Cheat>, i: nat)
    requires AllWritable(cheats) && |cheats| <= 250 && i < 255
    requires forall c :: c in AllCodes(cheats) ==> c.addr != 0
    ensures var codes := AllCodes(cheats);
            var list := FlatList(Parsed(Tokens(Chunks(Joined(Lines(cheats))))).cheats);
            && |list| == 510
            && list[2 * i] == (if i < |codes| && i < 254 then codes[i].addr else 0)
            && list[2 * i + 1] == (if i < |codes| && i < 254 then codes[i].val else 0)
  {
    CheatsAreMeant(cheats);
    ChunksAreLines(Lines(cheats));
    TokensAreNamed(Lines(cheats));
    MeantKeepsCodes(Tokens(Lines(cheats)));
    ListOfTokens(Tokens(Lines(cheats)), cheats, AllCodes(cheats));
    PairAt(AllCodes(cheats), i);
  }

  lemma ListOfTokens(tokens: seq<Token>, cheats: seq<Cheat>, codes: seq<Code>)
    requires RealNames(tokens) && Meant(tokens).cheats == cheats && |cheats| <= 250
    requires NamedCodes(tokens) == codes && forall c :: c in codes ==> c.addr != 0
    ensures FlatList(Parsed(tokens).cheats) == Words(Cut(codes)) + Zeros(510 - 2 * |Cut(codes)|)
  {
    AllNamedEnabled(tokens);
    ListIsMeant(tokens);
    ListOf(cheats, codes);
  }

  lemma PairAt(codes: seq<Code>, i: nat)
    requires i < 255
    ensures var list := Words(Cut(codes)) + Zeros(510 - 2 * |Cut(codes)|);
            && list[2 * i] == (if i < |codes| && i < 254 then codes[i].addr else 0)
            && list[2 * i + 1] == (if i < |codes| && i < 254 then codes[i].val else 0)
  {
    if i < |Cut(codes)| { WordsAt(Cut(codes), i); }
  }
}
