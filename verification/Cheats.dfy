/** Cheat files of src/cheatman.c: from text to named cheats, and from enabled cheats to the flat list the
    game core reads. */
module Cheats {
  import opened Text

  const MAX_CODES: nat := 250
  const MAX_LIST: nat := 510
  const NAME_MAX: nat := 128
  const LINE_MAX: nat := 255
  const CODE_DIGITS: nat := 16

  datatype Code = Code(addr: nat, val: nat)
  datatype Cheat = Cheat(name: string, codes: seq<Code>, enabled: bool)

  // ----- lines ----------------------------------------------------------------------------------

  /** How many characters of the rest one pass looks at, and how many it consumes. */
  function LineLength(rest: string): (n: nat)
    ensures n <= |rest| && n <= LINE_MAX
  {
    if Find(rest, LF) > LINE_MAX then LINE_MAX else Find(rest, LF)
  }

  function Consumed(rest: string): (n: nat)
    requires rest != ""
    ensures 0 < n <= |rest|
  {
    if Find(rest, LF) < |rest| then LineLength(rest) + 1 else LineLength(rest)
  }

  function Chunks(rest: string): seq<string>
    decreases |rest|
  {
    if rest == "" then [] else [rest[..LineLength(rest)]] + Chunks(rest[Consumed(rest)..])
  }

  /** Lines that fit are cut exactly at their line feeds. */
  lemma {:induction false} ChunksAreLines(lines: seq<string>)
    requires forall i :: 0 <= i < |lines| ==> |lines[i]| <= LINE_MAX && NoneOf(lines[i], {LF})
    ensures Chunks(Joined(lines)) == lines
  {
    if lines != [] {
      var line, rest := lines[0], Joined(lines[1..]);
      ChunksAreLines(lines[1..]);
      FindIs(line + [LF] + rest, LF, |line|);
      assert (line + [LF] + rest)[..|line|] == line;
      assert (line + [LF] + rest)[|line| + 1..] == rest;
      assert [lines[0]] + lines[1..] == lines;
    }
  }

  // ----- one line -------------------------------------------------------------------------------

  predicate IsSpace(c: char) {
    c == ' ' || '\t' <= c <= '\r'
  }

  predicate IsGraph(c: char) {
    '!' <= c <= '~'
  }

  predicate IsHex(c: char) {
    '0' <= c <= '9' || 'a' <= c <= 'f' || 'A' <= c <= 'F'
  }

  predicate Invisible(s: string) {
    forall i :: 0 <= i < |s| ==> !IsGraph(s[i])
  }

  /** term_str with is_cmt_str: where a comment starts. */
  function CommentAt(s: string, from: nat): (r: nat)
    requires from <= |s|
    ensures from <= r <= |s|
    decreases |s| - from
  {
    if from == |s| || s[from] == '#' || StartsWith(s[from..], "//") then from else CommentAt(s, from + 1)
  }

  function SpacesFrom(s: string, from: nat): (r: nat)
    requires from <= |s|
    ensures from <= r <= |s|
    decreases |s| - from
  {
    if from < |s| && IsSpace(s[from]) then SpacesFrom(s, from + 1) else from
  }

  function SpacesTo(s: string, upTo: nat): (r: nat)
    requires upTo <= |s|
    ensures r <= upTo
  {
    if upTo > 0 && IsSpace(s[upTo - 1]) then SpacesTo(s, upTo - 1) else upTo
  }

  lemma {:induction false} SpacesMeet(s: string, from: nat, upTo: nat, k: nat)
    requires from <= k < upTo <= |s| && !IsSpace(s[k])
    ensures SpacesFrom(s, from) <= k < SpacesTo(s, upTo)
    decreases upTo - from
  {
    if from < k { SpacesMeet(s, from + 1, upTo, k); }
    else if k < upTo - 1 { SpacesMeet(s, from, upTo - 1, k); }
  }

  /** trim_str: a line with nothing to see is left as it is, blanks and all. */
  function Trimmed(s: string): string {
    if Invisible(s) then s
    else
      var k :| 0 <= k < |s| && IsGraph(s[k]);
      SpacesMeet(s, 0, |s|, k);
      s[SpacesFrom(s, 0)..SpacesTo(s, |s|)]
  }

  function HexDigits(s: string): string {
    if s == "" then "" else HexDigits(s[..|s| - 1]) + if IsHex(s[|s| - 1]) then [s[|s| - 1]] else ""
  }

  predicate IsCode(s: string) {
    |HexDigits(s)| == CODE_DIGITS && forall i :: 0 <= i < |s| ==> IsHex(s[i]) || IsSpace(s[i])
  }

  function HexValue(c: char): nat {
    if '0' <= c <= '9' then c as int - '0' as int
    else if 'a' <= c <= 'f' then c as int - 'a' as int + 10
    else if 'A' <= c <= 'F' then c as int - 'A' as int + 10
    else 0
  }

  function Hex(s: string): nat {
    if s == "" then 0 else 16 * Hex(s[..|s| - 1]) + HexValue(s[|s| - 1])
  }

  function CodeOf(s: string): Code
    requires IsCode(s)
  {
    Code(Hex(HexDigits(s)[..8]), Hex(HexDigits(s)[8..]))
  }

  datatype Token = Skip | Name(name: string) | Line(code: Code)

  function TokenOf(chunk: string): Token {
    if Invisible(chunk) then Skip
    else
      var s := Trimmed(chunk[..CommentAt(chunk, 0)]);
      if IsCode(s) then (if CodeOf(s) == Code(0, 0) then Skip else Line(CodeOf(s)))
      else if s != "" then Name(s[..if |s| < NAME_MAX then |s| else NAME_MAX])
      else Skip
  }

  function Tokens(chunks: seq<string>): seq<Token> {
    seq(|chunks|, i requires 0 <= i < |chunks| => TokenOf(chunks[i]))
  }

  lemma {:induction false} InvisibleHasNoDigits(s: string)
    requires Invisible(s)
    ensures HexDigits(s) == ""
  {
    if s != "" { InvisibleHasNoDigits(s[..|s| - 1]); }
  }

  /** A line with nothing to see in front of its comment is skipped exactly when the comment is at its very
      start; otherwise the blanks in front of it become a name. */
  lemma CommentLineIff(s: string)
    requires CommentAt(s, 0) < |s| && !Invisible(s) && Invisible(s[..CommentAt(s, 0)])
    ensures TokenOf(s) == Skip <==> CommentAt(s, 0) == 0
    ensures CommentAt(s, 0) > 0 ==> TokenOf(s).Name?
  {
    InvisibleHasNoDigits(s[..CommentAt(s, 0)]);
  }

  /** One line of either kind. */
  lemma IndentedCommentIsName()
    ensures TokenOf("// a") == Skip && TokenOf("  // a") == Name("  ")
  {
    assert IsGraph("// a"[0]) && CommentAt("// a", 0) == 0;
    assert "  // a"[2..] == "// a" && IsGraph("  // a"[2]);
    assert CommentAt("  // a", 0) == CommentAt("  // a", 1) == CommentAt("  // a", 2) == 2;
    CommentLineIff("// a");
    CommentLineIff("  // a");
  }

  // ----- collecting the cheats ------------------------------------------------------------------

  /** The table so far, where the next code goes in its last entry, and a name waiting for its first code. */
  datatype State = State(cheats: seq<Cheat>, next: nat, pending: string)

  const START := State([], 0, "")

  function Opened(s: State): State {
    if |s.cheats| < MAX_CODES && s.pending != "" then State(s.cheats + [Cheat(s.pending, [], true)], s.next, "") else s
  }

  function Put(codes: seq<Code>, at: nat, c: Code): seq<Code>
    requires at <= |codes|
  {
    if at < |codes| then codes[at := c] else codes + [c]
  }

  predicate Sound(s: State) {
    && |s.cheats| <= MAX_CODES
    && (s.cheats != [] ==> s.next <= |s.cheats[|s.cheats| - 1].codes| <= MAX_LIST)
    && (s.cheats == [] ==> s.next == 0)
    && (s.pending != "" && |s.cheats| < MAX_CODES ==> s.next == 0)
  }

  function Stored(s: State, c: Code): State
    requires Sound(s)
  {
    var o := Opened(s);
    if o.cheats == [] || o.next >= MAX_LIST then o
    else
      var last := |o.cheats| - 1;
      State(o.cheats[last := o.cheats[last].(codes := Put(o.cheats[last].codes, o.next, c))], o.next + 1, o.pending)
  }

  function Step(s: State, t: Token): (s': State)
    requires Sound(s)
    ensures Sound(s')
  {
    match t
    case Skip => s
    case Name(name) => State(s.cheats, 0, name)
    case Line(code) => Stored(s, code)
  }

  function Parsed(tokens: seq<Token>): (s: State)
    ensures Sound(s)
  {
    if tokens == [] then START else Step(Parsed(tokens[..|tokens| - 1]), tokens[|tokens| - 1])
  }

  // ----- what was meant -------------------------------------------------------------------------

  /** The table without any limit: a cheat for every name that is followed by a code, with all its codes. */
  datatype Ideal = Ideal(cheats: seq<Cheat>, pending: string)

  function WithCode(s: Ideal, c: Code): Ideal {
    if s.pending != "" then Ideal(s.cheats + [Cheat(s.pending, [c], true)], "")
    else if s.cheats == [] then s
    else
      var last := |s.cheats| - 1;
      Ideal(s.cheats[last := s.cheats[last].(codes := s.cheats[last].codes + [c])], "")
  }

  function Meant(tokens: seq<Token>): Ideal {
    if tokens == [] then Ideal([], "")
    else
      var s, t := Meant(tokens[..|tokens| - 1]), tokens[|tokens| - 1];
      match t
      case Skip => s
      case Name(name) => Ideal(s.cheats, name)
      case Line(code) => WithCode(s, code)
  }

  function Capped(codes: seq<Code>): seq<Code> {
    if |codes| <= MAX_LIST then codes else codes[..MAX_LIST]
  }

  /** The cheats with no more than 510 codes each. */
  function Cap(cheats: seq<Cheat>): (r: seq<Cheat>)
    ensures |r| == |cheats|
    ensures forall i :: 0 <= i < |r| ==> r[i] == cheats[i].(codes := Capped(cheats[i].codes))
  {
    seq(|cheats|, i requires 0 <= i < |cheats| => cheats[i].(codes := Capped(cheats[i].codes)))
  }

  /** The parser's state is the meant one, up to the limit on codes; the next code goes behind the last one. */
  ghost predicate Agrees(s: State, m: Ideal) {
    && s.cheats == Cap(m.cheats) && s.pending == m.pending
    && (m.cheats != [] && m.pending == "" ==> s.next == |Capped(m.cheats[|m.cheats| - 1].codes)|)
  }

  lemma CappedMore(codes: seq<Code>, c: Code)
    ensures Capped(codes + [c]) ==
            if |Capped(codes)| < MAX_LIST then Put(Capped(codes), |Capped(codes)|, c) else Capped(codes)
  {
    if |codes| >= MAX_LIST { assert (codes + [c])[..MAX_LIST] == codes[..MAX_LIST]; }
  }

  lemma CapOpened(cheats: seq<Cheat>, name: string, c: Code)
    ensures Cap(cheats + [Cheat(name, [c], true)]) == Cap(cheats) + [Cheat(name, [c], true)]
  {
  }

  lemma CapUpdated(cheats: seq<Cheat>, codes: seq<Code>)
    requires cheats != []
    ensures var last := |cheats| - 1;
            Cap(cheats[last := cheats[last].(codes := codes)]) ==
            Cap(cheats)[last := cheats[last].(codes := Capped(codes))]
  {
  }

  lemma NewAgrees(s: State, m: Ideal, c: Code)
    requires Sound(s) && Agrees(s, m) && m.pending != "" && |m.cheats| < MAX_CODES
    ensures Agrees(Stored(s, c), WithCode(m, c))
  {
    var k, o := |m.cheats|, Opened(s);
    assert o.cheats == Cap(m.cheats) + [Cheat(m.pending, [], true)] && o.next == 0;
    assert Put(o.cheats[k].codes, 0, c) == [c];
    assert o.cheats[k := Cheat(m.pending, [c], true)] == Cap(m.cheats) + [Cheat(m.pending, [c], true)];
    CapOpened(m.cheats, m.pending, c);
  }

  lemma NextAgrees(s: State, m: Ideal, c: Code)
    requires Sound(s) && Agrees(s, m) && m.pending == "" && m.cheats != []
    ensures Agrees(Stored(s, c), WithCode(m, c))
  {
    var last := |m.cheats| - 1;
    CappedMore(m.cheats[last].codes, c);
    CapUpdated(m.cheats, m.cheats[last].codes + [c]);
    assert s.cheats[last := s.cheats[last]] == s.cheats;
  }

  lemma CodeAgrees(s: State, m: Ideal, c: Code)
    requires Sound(s) && Agrees(s, m) && |WithCode(m, c).cheats| <= MAX_CODES
    ensures Agrees(Stored(s, c), WithCode(m, c))
  {
    if m.pending != "" {
      assert |WithCode(m, c).cheats| == |m.cheats| + 1;
      NewAgrees(s, m, c);
    } else if m.cheats != [] {
      NextAgrees(s, m, c);
    }
  }

  /** With at most 250 cheats the parser builds what was meant, but for codes behind the 510th of a cheat. */
  lemma {:induction false} ParsedIsMeant(tokens: seq<Token>)
    requires |Meant(tokens).cheats| <= MAX_CODES && RealNames(tokens)
    ensures Agrees(Parsed(tokens), Meant(tokens))
  {
    if tokens != [] {
      var init, t := tokens[..|tokens| - 1], tokens[|tokens| - 1];
      assert |Meant(init).cheats| <= |Meant(tokens).cheats|;
      ParsedIsMeant(init);
      if t.Line? { CodeAgrees(Parsed(init), Meant(init), t.code); }
    }
  }

  /** Behind 250 cheats, a new name sends its codes over those of the last cheat. */
  lemma NameTooManyOverwrites(s: State, name: string, c: Code)
    requires Sound(s) && |s.cheats| == MAX_CODES && s.cheats[MAX_CODES - 1].codes != []
    ensures var last := s.cheats[MAX_CODES - 1];
            Step(Step(s, Name(name)), Line(c)).cheats ==
            s.cheats[MAX_CODES - 1 := last.(codes := last.codes[0 := c])]
  {
  }

  /** All codes of all cheats, in order. */
  function AllCodes(cheats: seq<Cheat>): seq<Code> {
    if cheats == [] then [] else AllCodes(cheats[..|cheats| - 1]) + cheats[|cheats| - 1].codes
  }

  /** The codes behind the first name, in file order. */
  function NamedCodes(tokens: seq<Token>): seq<Code> {
    if tokens == [] then []
    else
      var init, t := tokens[..|tokens| - 1], tokens[|tokens| - 1];
      NamedCodes(init) + if t.Line? && HasName(init) then [t.code] else []
  }

  predicate HasName(tokens: seq<Token>) {
    exists i :: 0 <= i < |tokens| && tokens[i].Name?
  }

  predicate RealNames(tokens: seq<Token>) {
    forall i :: 0 <= i < |tokens| && tokens[i].Name? ==> tokens[i].name != ""
  }

  lemma CodesOfUpdated(cheats: seq<Cheat>, c: Code)
    requires cheats != []
    ensures var last := |cheats| - 1;
            AllCodes(cheats[last := cheats[last].(codes := cheats[last].codes + [c])]) == AllCodes(cheats) + [c]
  {
    var last := |cheats| - 1;
    var changed := cheats[last := cheats[last].(codes := cheats[last].codes + [c])];
    assert changed[..last] == cheats[..last];
    Assoc(AllCodes(cheats[..last]), cheats[last].codes, [c]);
  }

  lemma CodesOfAppended(cheats: seq<Cheat>, cheat: Cheat)
    ensures AllCodes(cheats + [cheat]) == AllCodes(cheats) + cheat.codes
  {
    assert (cheats + [cheat])[..|cheats|] == cheats;
  }

  lemma TokenNamed(init: seq<Token>, t: Token)
    ensures HasName(init + [t]) <==> HasName(init) || t.Name?
  {
    if t.Name? { assert (init + [t])[|init|].Name?; }
    if HasName(init) {
      var i :| 0 <= i < |init| && init[i].Name?;
      assert (init + [t])[i].Name?;
    }
  }

  /** No code behind a name is lost, doubled or moved. */
  lemma {:induction false} MeantKeepsCodes(tokens: seq<Token>)
    requires RealNames(tokens)
    ensures AllCodes(Meant(tokens).cheats) == NamedCodes(tokens)
    ensures HasName(tokens) <==> Meant(tokens).cheats != [] || Meant(tokens).pending != ""
  {
    if tokens != [] {
      var init, t := tokens[..|tokens| - 1], tokens[|tokens| - 1];
      MeantKeepsCodes(init);
      assert tokens == init + [t];
      TokenNamed(init, t);
      if t.Line? {
        var m := Meant(init);
        if m.pending != "" {
          CodesOfAppended(m.cheats, Cheat(m.pending, [t.code], true));
        } else if m.cheats != [] {
          CodesOfUpdated(m.cheats, t.code);
        }
      }
    }
  }

  lemma {:induction false} AllEnabled(tokens: seq<Token>)
    ensures forall i :: 0 <= i < |Meant(tokens).cheats| ==> Meant(tokens).cheats[i].enabled
  {
    if tokens != [] { AllEnabled(tokens[..|tokens| - 1]); }
  }

  // ----- the flat list --------------------------------------------------------------------------

  /** The codes of one cheat, up to the first with address 0. */
  function Usable(codes: seq<Code>, from: nat): (r: seq<Code>)
    requires from <= |codes|
    ensures forall i :: 0 <= i < |r| ==> r[i].addr != 0
    decreases |codes| - from
  {
    if from == |codes| || codes[from].addr == 0 then [] else [codes[from]] + Usable(codes, from + 1)
  }

  function Enabled(cheats: seq<Cheat>, n: nat): (r: seq<Code>)
    requires n <= |cheats|
    ensures forall i :: 0 <= i < |r| ==> r[i].addr != 0
  {
    if n == 0 then []
    else Enabled(cheats, n - 1) + if cheats[n - 1].enabled then Usable(cheats[n - 1].codes, 0) else []
  }

  function Words(codes: seq<Code>): (r: seq<nat>)
    ensures |r| == 2 * |codes|
  {
    if codes == [] then [] else Words(codes[..|codes| - 1]) + [codes[|codes| - 1].addr, codes[|codes| - 1].val]
  }

  function Zeros(n: nat): (r: seq<nat>)
    ensures |r| == n && forall i :: 0 <= i < n ==> r[i] == 0
  {
    if n == 0 then [] else Zeros(n - 1) + [0]
  }

  const MAX_PAIRS: nat := MAX_LIST / 2 - 1

  function Cut(codes: seq<Code>): seq<Code> {
    if |codes| <= MAX_PAIRS then codes else codes[..MAX_PAIRS]
  }

  /** What the game core is to find: the first 254 pairs, and zeros from there on. */
  function FlatList(cheats: seq<Cheat>): (r: seq<nat>)
    ensures |r| == MAX_LIST
  {
    var codes := Cut(Enabled(cheats, |cheats|));
    Words(codes) + Zeros(MAX_LIST - 2 * |codes|)
  }

  lemma {:induction false} WordsAt(codes: seq<Code>, i: nat)
    requires i < |codes|
    ensures Words(codes)[2 * i] == codes[i].addr && Words(codes)[2 * i + 1] == codes[i].val
  {
    if i < |codes| - 1 { WordsAt(codes[..|codes| - 1], i); }
  }

  /** Whatever is enabled, the list ends with a zero address, and no address in front of the first zero
      pair is zero. */
  lemma FlatListEnds(cheats: seq<Cheat>)
    ensures var n := |Cut(Enabled(cheats, |cheats|))|;
            && n <= MAX_PAIRS && FlatList(cheats)[2 * n] == 0 == FlatList(cheats)[2 * n + 1]
            && forall i :: 0 <= i < n ==> FlatList(cheats)[2 * i] != 0
    ensures FlatList(cheats)[MAX_LIST - 2] == 0
  {
    var codes := Cut(Enabled(cheats, |cheats|));
    forall i | 0 <= i < |codes| ensures FlatList(cheats)[2 * i] != 0 { WordsAt(codes, i); }
  }

  lemma {:induction false} AllUsable(codes: seq<Code>, from: nat)
    requires from <= |codes| && forall i :: 0 <= i < |codes| ==> codes[i].addr != 0
    ensures Usable(codes, from) == codes[from..]
    decreases |codes| - from
  {
    if from < |codes| {
      AllUsable(codes, from + 1);
      assert codes[from..] == [codes[from]] + codes[from + 1..];
    }
  }

  lemma {:induction false} EnabledIsAll(cheats: seq<Cheat>, n: nat)
    requires n <= |cheats| && forall i :: 0 <= i < |cheats| ==> cheats[i].enabled
    requires forall i, j :: 0 <= i < |cheats| && 0 <= j < |cheats[i].codes| ==> cheats[i].codes[j].addr != 0
    ensures Enabled(cheats, n) == AllCodes(cheats[..n])
  {
    if n > 0 {
      EnabledIsAll(cheats, n - 1);
      assert cheats[..n][..n - 1] == cheats[..n - 1];
      AllUsable(cheats[n - 1].codes, 0);
      assert cheats[n - 1].codes[0..] == cheats[n - 1].codes;
    }
  }

  lemma {:induction false} CodeOfCheat(cheats: seq<Cheat>, i: nat, j: nat)
    requires i < |cheats| && j < |cheats[i].codes|
    ensures cheats[i].codes[j] in AllCodes(cheats)
  {
    if i < |cheats| - 1 { CodeOfCheat(cheats[..|cheats| - 1], i, j); }
  }

  lemma TokensAreNamed(chunks: seq<string>)
    ensures RealNames(Tokens(chunks))
  {
  }

  // ----- the limit on codes never shows ---------------------------------------------------------

  /** Equal, or at least as far as any list can go. */
  ghost predicate SameFront(a: seq<Code>, b: seq<Code>) {
    a == b || (|a| >= MAX_LIST && |b| >= MAX_LIST && a[..MAX_LIST] == b[..MAX_LIST])
  }

  lemma FrontsJoin(a: seq<Code>, b: seq<Code>, x: seq<Code>, y: seq<Code>)
    requires SameFront(a, b) && SameFront(x, y)
    ensures SameFront(a + x, b + y)
  {
    if a != b {
      assert (a + x)[..MAX_LIST] == a[..MAX_LIST] && (b + y)[..MAX_LIST] == b[..MAX_LIST];
    } else if x != y {
      forall i | 0 <= i < MAX_LIST ensures (a + x)[i] == (b + y)[i] {
        if i >= |a| { assert x[i - |a|] == x[..MAX_LIST][i - |a|] == y[..MAX_LIST][i - |a|]; }
      }
      assert (a + x)[..MAX_LIST] == (b + y)[..MAX_LIST];
    }
  }

  lemma {:induction false} FirstZero(codes: seq<Code>, from: nat) returns (j: nat)
    requires from <= |codes|
    ensures from <= j <= |codes| && (j < |codes| ==> codes[j].addr == 0)
    ensures forall i :: from <= i < j ==> codes[i].addr != 0
    decreases |codes| - from
  {
    j := from;
    if from < |codes| && codes[from].addr != 0 { j := FirstZero(codes, from + 1); }
  }

  lemma UsableOfCapped(codes: seq<Code>)
    ensures SameFront(Usable(Capped(codes), 0), Usable(codes, 0))
  {
    if |codes| > MAX_LIST {
      var j := FirstZero(codes, 0);
      var capped := codes[..MAX_LIST];
      UsableStops(codes, 0, j);
      UsableStops(capped, 0, if j < MAX_LIST then j else MAX_LIST);
      if j < MAX_LIST {
        assert capped[0..j] == codes[0..j];
      } else {
        assert codes[0..j][..MAX_LIST] == capped == capped[0..MAX_LIST][..MAX_LIST];
      }
    }
  }

  lemma {:induction false} EnabledOfCap(cheats: seq<Cheat>, n: nat)
    requires n <= |cheats|
    ensures SameFront(Enabled(Cap(cheats), n), Enabled(cheats, n))
  {
    if n > 0 {
      EnabledOfCap(cheats, n - 1);
      if cheats[n - 1].enabled {
        UsableOfCapped(cheats[n - 1].codes);
        FrontsJoin(Enabled(Cap(cheats), n - 1), Enabled(cheats, n - 1),
                   Usable(Capped(cheats[n - 1].codes), 0), Usable(cheats[n - 1].codes, 0));
      } else {
        Nil(Enabled(Cap(cheats), n - 1));
        Nil(Enabled(cheats, n - 1));
      }
    }
  }

  lemma SameFrontSameCut(a: seq<Code>, b: seq<Code>)
    requires SameFront(a, b)
    ensures Cut(a) == Cut(b)
  {
    if a != b { assert a[..MAX_LIST][..MAX_PAIRS] == a[..MAX_PAIRS] && b[..MAX_LIST][..MAX_PAIRS] == b[..MAX_PAIRS]; }
  }

  /** With at most 250 cheats the list is the one of the table that was meant, whatever the codes are. */
  lemma ListIsMeant(tokens: seq<Token>)
    requires RealNames(tokens) && |Meant(tokens).cheats| <= MAX_CODES
    ensures FlatList(Parsed(tokens).cheats) == FlatList(Meant(tokens).cheats)
  {
    var cheats := Meant(tokens).cheats;
    ParsedIsMeant(tokens);
    EnabledOfCap(cheats, |cheats|);
    SameFrontSameCut(Enabled(Cap(cheats), |cheats|), Enabled(cheats, |cheats|));
  }

  lemma CapIsAll(cheats: seq<Cheat>)
    requires forall cheat :: cheat in cheats ==> |cheat.codes| <= MAX_LIST
    ensures Cap(cheats) == cheats
  {
  }

  /** From the text to the list: with everything enabled, the codes behind the first name in file order,
      cut at 254, and zeros. The table itself has all of them when no cheat has more than 510. */
  lemma FileToList(buf: string, tokens: seq<Token>)
    requires tokens == Tokens(Chunks(buf)) && |Meant(tokens).cheats| <= MAX_CODES
    requires forall c :: c in NamedCodes(tokens) ==> c.addr != 0
    ensures var cheats, codes := Parsed(tokens).cheats, NamedCodes(tokens);
            FlatList(cheats) == Words(Cut(codes)) + Zeros(MAX_LIST - 2 * |Cut(codes)|)
    ensures (forall cheat :: cheat in Meant(tokens).cheats ==> |cheat.codes| <= MAX_LIST) ==>
              Enabled(Parsed(tokens).cheats, |Parsed(tokens).cheats|) == NamedCodes(tokens)
  {
    TokensAreNamed(Chunks(buf));
    ListIsMeant(tokens);
    AllNamedEnabled(tokens);
    ListOf(Meant(tokens).cheats, NamedCodes(tokens));
    if forall cheat :: cheat in Meant(tokens).cheats ==> |cheat.codes| <= MAX_LIST {
      CapIsAll(Meant(tokens).cheats);
      ParsedIsMeant(tokens);
    }
  }

  lemma ListOf(cheats: seq<Cheat>, codes: seq<Code>)
    requires Enabled(cheats, |cheats|) == codes
    ensures FlatList(cheats) == Words(Cut(codes)) + Zeros(MAX_LIST - 2 * |Cut(codes)|)
  {
  }

  lemma AllNamedEnabled(tokens: seq<Token>)
    requires RealNames(tokens) && forall c :: c in NamedCodes(tokens) ==> c.addr != 0
    ensures Enabled(Meant(tokens).cheats, |Meant(tokens).cheats|) == NamedCodes(tokens)
  {
    var cheats := Meant(tokens).cheats;
    MeantKeepsCodes(tokens);
    AllEnabled(tokens);
    forall i, j | 0 <= i < |cheats| && 0 <= j < |cheats[i].codes| ensures cheats[i].codes[j].addr != 0 {
      CodeOfCheat(cheats, i, j);
    }
    EnabledIsAll(cheats, |cheats|);
    assert cheats[..|cheats|] == cheats;
  }

  // ----- the loops ------------------------------------------------------------------------------

  /** is_cheat_code */
  method IsCheatCode(s: string) returns (yes: bool)
    ensures yes == IsCode(s)
  {
    var n, i := 0, 0;
    while i < |s|
      invariant i <= |s| && n == |HexDigits(s[..i])| <= CODE_DIGITS
      invariant forall k :: 0 <= k < i ==> IsHex(s[k]) || IsSpace(s[k])
    {
      assert s[..i + 1][..i] == s[..i];
      if IsHex(s[i]) {
        n := n + 1;
        if n > CODE_DIGITS {
          HexGrows(s, i + 1);
          return false;
        }
      } else if !IsSpace(s[i]) {
        return false;
      }
      i := i + 1;
    }
    assert s[..i] == s;
    yes := n == CODE_DIGITS;
  }

  lemma {:induction false} HexGrows(s: string, n: nat)
    requires n <= |s|
    ensures |HexDigits(s[..n])| <= |HexDigits(s)|
  {
    if n < |s| {
      assert s[..|s| - 1][..n] == s[..n];
      HexGrows(s[..|s| - 1], n);
    } else {
      assert s[..n] == s;
    }
  }

  /** The lines behind `at` are still to come. */
  ghost predicate Scanned(buf: string, at: nat, done: seq<string>) {
    at <= |buf| && done + Chunks(buf[at..]) == Chunks(buf)
  }

  lemma ScanStep(buf: string, at: nat, done: seq<string>, line: string, next: nat)
    requires Scanned(buf, at, done) && at < |buf|
    requires line == buf[at..][..LineLength(buf[at..])] && next == at + Consumed(buf[at..])
    ensures Scanned(buf, next, done + [line])
  {
    ChunksStep(buf, at, done, line, next);
  }

  /** parse_buf: one pass per line, never past the end of the text. */
  method ParseBuf(buf: string) returns (cheats: seq<Cheat>)
    ensures cheats == Parsed(Tokens(Chunks(buf))).cheats
  {
    var at := 0;
    ghost var done: seq<string> := [];
    var s := START;
    Nil(Chunks(buf));
    assert buf[0..] == buf;
    while at < |buf|
      invariant Sound(s) && s == Parsed(Tokens(done)) && Scanned(buf, at, done)
    {
      var line, next := NextLine(buf, at);
      ScanStep(buf, at, done, line, next);
      TokensPush(done, line);
      s := Step(s, TokenOf(line));
      done, at := done + [line], next;
    }
    Nil(done);
    cheats := s.cheats;
  }

  /** The scanner: the next line, cut at LINE_MAX, and where the one after it starts. */
  method NextLine(buf: string, at: nat) returns (line: string, next: nat)
    requires at < |buf|
    ensures line == buf[at..][..LineLength(buf[at..])] && next == at + Consumed(buf[at..]) && at < next <= |buf|
  {
    var lf := Find(buf[at..], LF);
    var length := if lf > LINE_MAX then LINE_MAX else lf;
    line := buf[at..][..length];
    next := if lf < |buf| - at then at + length + 1 else at + length;
  }

  lemma ChunksStep(buf: string, at: nat, done: seq<string>, line: string, next: nat)
    requires at < |buf|
    requires line == buf[at..][..LineLength(buf[at..])] && next == at + Consumed(buf[at..])
    ensures next <= |buf| && done + Chunks(buf[at..]) == done + [line] + Chunks(buf[next..])
  {
    var rest := buf[at..];
    assert rest[Consumed(rest)..] == buf[next..];
    Assoc(done, [line], Chunks(buf[next..]));
  }

  lemma TokensPush(done: seq<string>, line: string)
    ensures Parsed(Tokens(done + [line])) == Step(Parsed(Tokens(done)), TokenOf(line))
  {
    assert Tokens(done + [line])[..|done|] == Tokens(done);
  }

  /** `count` words hold the first pairs, as many as there is room for, and the rest is clear. */
  ghost predicate Filled(list: seq<nat>, count: nat, codes: seq<Code>) {
    && |list| == MAX_LIST && count == 2 * (if |codes| <= MAX_LIST / 2 then |codes| else MAX_LIST / 2)
    && list == Words(codes[..count / 2]) + Zeros(MAX_LIST - count)
  }

  lemma FilledMore(list: seq<nat>, count: nat, codes: seq<Code>, more: seq<Code>)
    requires Filled(list, count, codes) && count == MAX_LIST
    ensures Filled(list, count, codes + more)
  {
    assert (codes + more)[..MAX_LIST / 2] == codes[..MAX_LIST / 2];
  }

  lemma {:induction false} ZerosFrom(n: nat)
    requires n >= 2
    ensures Zeros(n) == [0, 0] + Zeros(n - 2)
  {
    if n > 2 {
      ZerosFrom(n - 1);
      Assoc([0, 0], Zeros(n - 3), [0]);
    }
  }

  function WithPair(list: seq<nat>, at: nat, addr: nat, val: nat): seq<nat>
    requires at + 2 <= |list|
  {
    var half: seq<nat> := list[at := addr];
    half[at + 1 := val]
  }

  lemma FilledPush(list: seq<nat>, count: nat, codes: seq<Code>, c: Code)
    requires Filled(list, count, codes) && count + 2 <= MAX_LIST
    ensures Filled(WithPair(list, count, c.addr, c.val), count + 2, codes + [c])
  {
    ZerosFrom(MAX_LIST - count);
    assert codes[..count / 2] == codes;
    assert (codes + [c])[..count / 2 + 1] == codes + [c];
    assert (codes + [c])[..|codes|] == codes;
    assert Words(codes + [c]) == Words(codes) + [c.addr, c.val];
  }

  lemma {:induction false} UsableStops(codes: seq<Code>, from: nat, j: nat)
    requires from <= j <= |codes| && forall i :: from <= i < j ==> codes[i].addr != 0
    requires j < |codes| ==> codes[j].addr == 0
    ensures Usable(codes, from) == codes[from..j]
    decreases j - from
  {
    if from < j {
      UsableStops(codes, from + 1, j);
      assert codes[from..j] == [codes[from]] + codes[from + 1..j];
    }
  }

  lemma {:induction false} UsableSplits(codes: seq<Code>, from: nat, j: nat)
    requires from <= j <= |codes| && forall i :: from <= i < j ==> codes[i].addr != 0
    ensures Usable(codes, from) == codes[from..j] + Usable(codes, j)
    decreases j - from
  {
    if from < j {
      UsableSplits(codes, from + 1, j);
      assert codes[from..j] == [codes[from]] + codes[from + 1..j];
    }
  }

  method PutPair(list: array<nat>, count: nat, c: Code, ghost before: seq<Code>)
    requires list.Length == MAX_LIST && Filled(list[..], count, before) && count + 2 <= MAX_LIST
    modifies list
    ensures Filled(list[..], count + 2, before + [c])
  {
    ghost var was := list[..];
    FilledPush(was, count, before, c);
    list[count] := c.addr;
    list[count + 1] := c.val;
    assert list[..] == WithPair(was, count, c.addr, c.val);
  }

  lemma NoRoom(list: seq<nat>, count: nat, before: seq<Code>, codes: seq<Code>, j: nat)
    requires j <= |codes| && forall i :: 0 <= i < j ==> codes[i].addr != 0
    requires Filled(list, count, before + codes[..j]) && count == MAX_LIST
    ensures Filled(list, count, before + Usable(codes, 0))
  {
    FilledMore(list, count, before + codes[..j], Usable(codes, j));
    UsableSplits(codes, 0, j);
    assert codes[0..j] == codes[..j];
    Assoc(before, codes[..j], Usable(codes, j));
  }

  lemma OneCodeMore(before: seq<Code>, codes: seq<Code>, j: nat)
    requires j < |codes|
    ensures before + codes[..j] + [codes[j]] == before + codes[..j + 1]
  {
    assert codes[..j] + [codes[j]] == codes[..j + 1];
    Assoc(before, codes[..j], [codes[j]]);
  }

  /** The codes of one enabled cheat, as far as they fit. */
  method AddCodes(list: array<nat>, count: nat, codes: seq<Code>, ghost before: seq<Code>) returns (count': nat)
    requires list.Length == MAX_LIST && Filled(list[..], count, before)
    modifies list
    ensures Filled(list[..], count', before + Usable(codes, 0))
  {
    var j := 0;
    count' := count;
    Nil(before);
    while j < |codes| && codes[j].addr != 0
      invariant j <= |codes| && forall i :: 0 <= i < j ==> codes[i].addr != 0
      invariant Filled(list[..], count', before + codes[..j])
    {
      if count' + 2 > MAX_LIST {
        NoRoom(list[..], count', before, codes, j);
        return;
      }
      PutPair(list, count', codes[j], before + codes[..j]);
      OneCodeMore(before, codes, j);
      count', j := count' + 2, j + 1;
    }
    UsableStops(codes, 0, j);
    assert codes[0..j] == codes[..j];
  }

  lemma LastPair(list: seq<nat>, codes: seq<Code>)
    requires Filled(list, MAX_LIST, codes)
    ensures WithPair(list, MAX_LIST - 2, 0, 0) == Words(codes[..MAX_PAIRS]) + Zeros(2)
  {
    var all := codes[..MAX_LIST / 2];
    assert all[..|all| - 1] == codes[..MAX_PAIRS];
    assert Words(all) == Words(codes[..MAX_PAIRS]) + [all[MAX_PAIRS].addr, all[MAX_PAIRS].val];
    assert Zeros(0) == [];
    ZerosFrom(2);
  }

  /** The terminator: behind the last pair, or over it. */
  method Terminate(list: array<nat>, count: nat, ghost codes: seq<Code>)
    requires list.Length == MAX_LIST && Filled(list[..], count, codes)
    modifies list
    ensures list[..] == Words(Cut(codes)) + Zeros(MAX_LIST - 2 * |Cut(codes)|)
  {
    ghost var was := list[..];
    if count < MAX_LIST {
      assert codes[..count / 2] == codes;
      ZerosFrom(MAX_LIST - count);
      list[count] := 0;
      list[count + 1] := 0;
      assert list[..] == was;
    } else {
      LastPair(was, codes);
      list[count - 2] := 0;
      list[count - 1] := 0;
      assert list[..] == WithPair(was, MAX_LIST - 2, 0, 0);
    }
  }

  lemma EnabledStep(cheats: seq<Cheat>, i: nat)
    requires i < |cheats|
    ensures Enabled(cheats, i + 1) ==
            if cheats[i].enabled then Enabled(cheats, i) + Usable(cheats[i].codes, 0) else Enabled(cheats, i)
  {
    Nil(Enabled(cheats, i));
  }

  method AddCheat(cheats: seq<Cheat>, i: nat, list: array<nat>, count: nat) returns (count': nat)
    requires i < |cheats| && list.Length == MAX_LIST && Filled(list[..], count, Enabled(cheats, i))
    modifies list
    ensures Filled(list[..], count', Enabled(cheats, i + 1))
  {
    EnabledStep(cheats, i);
    count' := count;
    if cheats[i].enabled { count' := AddCodes(list, count, cheats[i].codes, Enabled(cheats, i)); }
  }

  /** set_cheats_list */
  method SetCheatsList(cheats: seq<Cheat>, list: array<nat>)
    requires list.Length == MAX_LIST
    modifies list
    ensures list[..] == FlatList(cheats)
  {
    Clear(list);
    var count, i := 0, 0;
    while i < |cheats|
      invariant i <= |cheats| && Filled(list[..], count, Enabled(cheats, i))
    {
      count := AddCheat(cheats, i, list, count);
      i := i + 1;
    }
    Terminate(list, count, Enabled(cheats, |cheats|));
  }

  method Clear(list: array<nat>)
    requires list.Length == MAX_LIST
    modifies list
    ensures Filled(list[..], 0, [])
  {
    for k := 0 to MAX_LIST
      invariant forall i :: 0 <= i < k ==> list[i] == 0
    {
      list[k] := 0;
    }
    assert list[..] == Zeros(MAX_LIST);
    assert Words([]) == [];
  }
}
