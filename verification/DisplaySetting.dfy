/** The display line of a settings file, as src/cuesupport.c rewrites it before a launch. */
module DisplaySetting {
  import opened Wrappers
  import opened Text

  const BUFFER: nat := 512
  const KEY := "display:"
  const CR: char := '\r'

  datatype Mode = Leave | Low | High

  /** What happens to the file. */
  datatype Outcome = Untouched | Removed | Written(text: string)

  function Lower(c: char): char {
    if 'A' <= c <= 'Z' then c - 'A' + 'a' else c
  }

  /** strncasecmp with the key is 0. */
  predicate IsDisplay(line: string) {
    |line| >= |KEY| && forall i :: 0 <= i < |KEY| ==> Lower(line[i]) == KEY[i]
  }

  function WantOf(mode: Mode): string {
    if mode == High then "display:480" else "display:240"
  }

  function LineOf(mode: Mode): string {
    if mode == Leave then "" else WantOf(mode) + [LF]
  }

  // ----- lines ----------------------------------------------------------------------------------

  function SplitLines(s: string): seq<string>
    decreases |s|
  {
    var lf := Find(s, LF);
    if lf == |s| then [s] else [s[..lf]] + SplitLines(s[lf + 1..])
  }

  /** A carriage return in front of the line feed is dropped, one of them. */
  function Strip(line: string): string {
    if line != "" && line[|line| - 1] == CR then line[..|line| - 1] else line
  }

  predicate Keeps(line: string) {
    Strip(line) != "" && !IsDisplay(line)
  }

  /** The lines that belong to somebody else. */
  function Others(lines: seq<string>): seq<string> {
    if lines == [] then []
    else (if Keeps(lines[0]) then [Strip(lines[0])] else []) + Others(lines[1..])
  }

  function Kept(text: string): string {
    Joined(Others(SplitLines(text)))
  }

  /** cueApplyDisplaySetting, with the file as it is or None. */
  function Apply(file: Option<string>, mode: Mode): Outcome {
    if file.None? && mode == Leave then Untouched
    else
      var before := if file.Some? then file.value else "";
      if |before| >= BUFFER - 1 then Untouched
      else
        var kept := Kept(before);
        var line := LineOf(mode);
        if mode != Leave && |line| >= BUFFER - |kept| then Untouched
        else if kept + line == "" then (if before != "" then Removed else Untouched)
        else if kept + line == before then Untouched
        else Written(kept + line)
  }

  function Result(file: Option<string>, outcome: Outcome): Option<string> {
    match outcome
    case Untouched => file
    case Removed => None
    case Written(text) => Some(text)
  }

  function After(file: Option<string>, mode: Mode): Option<string> {
    Result(file, Apply(file, mode))
  }

  // ----- splitting what was joined --------------------------------------------------------------

  ghost predicate AllLines(lines: seq<string>) {
    forall i :: 0 <= i < |lines| ==> NoneOf(lines[i], {LF})
  }

  lemma {:induction false} SplitIsLines(s: string)
    ensures AllLines(SplitLines(s))
    decreases |s|
  {
    if Find(s, LF) < |s| { SplitIsLines(s[Find(s, LF) + 1..]); }
  }

  lemma {:induction false} OthersAreLines(lines: seq<string>)
    requires AllLines(lines)
    ensures AllLines(Others(lines))
  {
    if lines != [] { OthersAreLines(lines[1..]); }
  }

  lemma SplitOne(line: string, rest: string)
    requires NoneOf(line, {LF})
    ensures SplitLines(line + [LF] + rest) == [line] + SplitLines(rest)
  {
    var s := line + [LF] + rest;
    FindIs(s, LF, |line|);
    assert s[..|line|] == line && s[|line| + 1..] == rest;
  }

  lemma {:induction false} SplitOfJoined(lines: seq<string>, rest: string)
    requires AllLines(lines)
    ensures SplitLines(Joined(lines) + rest) == lines + SplitLines(rest)
  {
    if lines == [] {
      assert Joined(lines) + rest == rest;
    } else {
      SplitOfJoined(lines[1..], rest);
      Assoc(lines[0] + [LF], Joined(lines[1..]), rest);
      SplitOne(lines[0], Joined(lines[1..]) + rest);
      Assoc([lines[0]], lines[1..], SplitLines(rest));
      assert [lines[0]] + lines[1..] == lines;
    }
  }

  lemma {:induction false} OthersOfTwo(a: seq<string>, b: seq<string>)
    ensures Others(a + b) == Others(a) + Others(b)
  {
    if a == [] {
      assert a + b == b;
    } else {
      assert (a + b)[1..] == a[1..] + b;
      OthersOfTwo(a[1..], b);
      Assoc(if Keeps(a[0]) then [Strip(a[0])] else [], Others(a[1..]), Others(b));
    }
  }

  lemma NoOthers()
    ensures Others([""]) == [] && Others(["display:240", ""]) == [] && Others(["display:480", ""]) == []
    ensures SplitLines("") == [""]
  {
    assert IsDisplay("display:240") && IsDisplay("display:480");
    assert Others(["display:240", ""][1..]) == Others([""]);
    assert Others(["display:480", ""][1..]) == Others([""]);
    assert Others([""][1..]) == [];
  }

  lemma KeptOfKept(text: string)
    ensures Kept(Kept(text)) == Joined(Others(Others(SplitLines(text))))
  {
    var lines := Others(SplitLines(text));
    SplitIsLines(text);
    OthersAreLines(SplitLines(text));
    NoOthers();
    SplitOfJoined(lines, "");
    Nil(Joined(lines));
    OthersOfTwo(lines, [""]);
    Nil(Others(lines));
  }

  lemma OwnLines(mode: Mode)
    ensures SplitLines(LineOf(mode)) == if mode == Leave then [""] else [WantOf(mode), ""]
    ensures Others(SplitLines(LineOf(mode))) == []
  {
    NoOthers();
    if mode != Leave {
      WantIsLine(mode);
      SplitOne(WantOf(mode), "");
      Nil(WantOf(mode) + [LF]);
      assert [WantOf(mode)] + [""] == [WantOf(mode), ""];
    }
  }

  lemma WantIsLine(mode: Mode)
    ensures NoneOf(WantOf(mode), {LF})
  {
    var want := WantOf(mode);
    assert want[0] != LF && want[1] != LF && want[2] != LF && want[3] != LF && want[4] != LF && want[5] != LF;
    assert |want| == 11 && want[6] != LF && want[7] != LF && want[8] != LF && want[9] != LF && want[10] != LF;
  }

  /** What is written: the lines of the others in their order, and then the line of the mode. */
  lemma WrittenLines(text: string, mode: Mode)
    ensures SplitLines(Kept(text) + LineOf(mode)) ==
            Others(SplitLines(text)) + (if mode == Leave then [""] else [WantOf(mode), ""])
  {
    SplitIsLines(text);
    OthersAreLines(SplitLines(text));
    OwnLines(mode);
    SplitOfJoined(Others(SplitLines(text)), LineOf(mode));
  }

  /** The line of a mode is not one of the others. */
  lemma ModeIsDropped(text: string, mode: Mode)
    ensures Kept(Kept(text) + LineOf(mode)) == Kept(Kept(text))
  {
    var lines := Others(SplitLines(text));
    KeptOfKept(text);
    WrittenLines(text, mode);
    OwnLines(mode);
    OthersOfTwo(lines, SplitLines(LineOf(mode)));
    Nil(Others(lines));
  }

  // ----- when a second pass changes nothing -----------------------------------------------------

  /** A kept line that still ends in a carriage return would lose another one. */
  predicate Settled(lines: seq<string>) {
    forall i :: 0 <= i < |lines| ==> lines[i] == "" || lines[i][|lines[i]| - 1] != CR
  }

  lemma DisplayLength(line: string)
    ensures IsDisplay(Strip(line)) <==> IsDisplay(line)
  {
    if IsDisplay(line) { assert Lower(line[7]) == KEY[7] == ':'; }
  }

  ghost predicate AllKept(lines: seq<string>) {
    forall i :: 0 <= i < |lines| ==> lines[i] != "" && !IsDisplay(lines[i])
  }

  lemma {:induction false} OthersAreKept(lines: seq<string>)
    ensures AllKept(Others(lines))
  {
    if lines != [] {
      OthersAreKept(lines[1..]);
      DisplayLength(lines[0]);
    }
  }

  lemma {:induction false} SecondPass(lines: seq<string>)
    requires AllKept(lines)
    ensures Settled(lines) ==> Others(lines) == lines
    ensures |Joined(Others(lines))| <= |Joined(lines)|
    ensures !Settled(lines) ==> |Joined(Others(lines))| < |Joined(lines)|
  {
    if lines != [] {
      SecondPass(lines[1..]);
      assert [lines[0]] + lines[1..] == lines;
      if !Settled(lines) && Settled(lines[1..]) { assert lines[0][|lines[0]| - 1] == CR; }
      if Keeps(lines[0]) {
        assert ([Strip(lines[0])] + Others(lines[1..]))[1..] == Others(lines[1..]);
      } else {
        assert [] + Others(lines[1..]) == Others(lines[1..]);
      }
    }
  }

  lemma SettlesIff(text: string)
    ensures |Kept(Kept(text))| <= |Kept(text)|
    ensures Kept(Kept(text)) == Kept(text) <==> Settled(Others(SplitLines(text)))
  {
    KeptOfKept(text);
    OthersAreKept(SplitLines(text));
    SecondPass(Others(SplitLines(text)));
  }

  // ----- two launches in a row ------------------------------------------------------------------

  function TextOf(file: Option<string>): string {
    if file.Some? then file.value else ""
  }

  lemma LengthOfLine(mode: Mode)
    ensures mode != Leave ==> |LineOf(mode)| == 12
  {
  }

  /** What one launch leaves of a file it accepts. */
  lemma AfterIs(file: Option<string>, mode: Mode)
    requires |TextOf(file)| < BUFFER - 1
    ensures var kept := Kept(TextOf(file));
            TextOf(After(file, mode)) ==
            if mode != Leave && |kept| + 12 >= BUFFER then TextOf(file) else kept + LineOf(mode)
  {
    var kept, line := Kept(TextOf(file)), LineOf(mode);
    LengthOfLine(mode);
    NothingKept();
    assert |kept + line| == |kept| + |line|;
    Nil(kept);
    OutcomeIs(file, mode, kept, line);
  }

  lemma NothingKept()
    ensures Kept("") == ""
  {
    NoOthers();
  }

  /** The outcome, once what is kept is known. */
  lemma OutcomeIs(file: Option<string>, mode: Mode, kept: string, line: string)
    requires kept == Kept(TextOf(file)) && line == LineOf(mode) && |TextOf(file)| < BUFFER - 1
    requires file.None? ==> kept == ""
    requires if mode == Leave then line == "" else |line| == 12
    ensures TextOf(After(file, mode)) == if mode != Leave && |kept| + 12 >= BUFFER then TextOf(file) else kept + line
  {
  }

  /** The same setting again changes nothing, exactly when no kept line ended in two carriage returns or
      the result has become too long to be touched again. */
  lemma IdempotentIff(file: Option<string>, mode: Mode)
    requires |TextOf(file)| < BUFFER - 1
    ensures var kept := Kept(TextOf(file));
            TextOf(After(After(file, mode), mode)) == TextOf(After(file, mode)) <==>
            |kept| + |LineOf(mode)| >= BUFFER - 1 || Settled(Others(SplitLines(TextOf(file))))
  {
    var text := TextOf(file);
    LengthOfLine(mode);
    AfterIs(file, mode);
    SettlesIff(text);
    ModeIsDropped(text, mode);
    if mode != Leave && |Kept(text)| + 12 >= BUFFER {
      AfterIs(After(file, mode), mode);
    } else if |Kept(text)| + |LineOf(mode)| < BUFFER - 1 {
      AfterIs(After(file, mode), mode);
      SameTail(Kept(Kept(text)), Kept(text), LineOf(mode));
    }
  }

  lemma SameTail(a: string, b: string, c: string)
    ensures a + c == b + c <==> a == b
  {
    if a + c == b + c {
      assert |a| == |b|;
      assert a == (a + c)[..|a|] == (b + c)[..|b|] == b;
    }
  }

  /** A mode followed by Default is Default alone, exactly when no kept line ended in two carriage returns,
      or there was no room for the mode; and the kept text must not be of the one length that makes the
      file just too long to be read back. */
  lemma ModeThenDefaultIff(file: Option<string>, mode: Mode)
    requires |TextOf(file)| < BUFFER - 1 && mode != Leave
    ensures var kept := Kept(TextOf(file));
            TextOf(After(After(file, mode), Leave)) == TextOf(After(file, Leave)) <==>
            |kept| + 12 >= BUFFER || (|kept| + 12 != BUFFER - 1 && Settled(Others(SplitLines(TextOf(file)))))
  {
    var text := TextOf(file);
    LengthOfLine(mode);
    AfterIs(file, mode);
    AfterIs(file, Leave);
    SettlesIff(text);
    ModeIsDropped(text, mode);
    Nil(Kept(text));
    if |Kept(text)| + 12 >= BUFFER {
      AfterIs(After(file, mode), Leave);
    } else if |Kept(text)| + 12 == BUFFER - 1 {
      assert Apply(After(file, mode), Leave) == Untouched;
    } else {
      AfterIs(After(file, mode), Leave);
      Nil(Kept(Kept(text)));
    }
  }

  /** The one length: a single line of 498 characters, which a mode makes just too long to be read back. */
  lemma OneLineTooLong(line: string, mode: Mode)
    requires |line| == BUFFER - 14 && NoneOf(line, {LF, CR}) && !IsDisplay(line) && mode != Leave
    ensures var file := Some(line + [LF]);
            && |TextOf(file)| < BUFFER - 1 && Settled(Others(SplitLines(TextOf(file))))
            && TextOf(After(file, Leave)) == line + [LF]
            && TextOf(After(After(file, mode), Leave)) == line + [LF] + LineOf(mode)
  {
    var file := Some(line + [LF]);
    KeptLine(line);
    LengthOfLine(mode);
    AfterIs(file, Leave);
    AfterIs(file, mode);
    Nil(line + [LF]);
    assert Apply(After(file, mode), Leave) == Untouched;
  }

  lemma KeptLine(line: string)
    requires line != "" && NoneOf(line, {LF, CR}) && !IsDisplay(line)
    ensures Others(SplitLines(line + [LF])) == [line] && Kept(line + [LF]) == line + [LF]
  {
    NoOthers();
    SplitOne(line, "");
    Nil(line + [LF]);
    assert ([line] + [""])[1..] == [""];
    assert Strip(line) == line && [line] + [] == [line];
    assert [line][1..] == [] && Joined([]) == "";
  }

  /** A file is only removed when it held nothing but the key. */
  lemma RemovedOnlyWhenOwn(file: Option<string>, mode: Mode)
    requires Apply(file, mode) == Removed
    ensures mode == Leave && file.Some? && Others(SplitLines(file.value)) == []
  {
    var lines := Others(SplitLines(TextOf(file)));
    assert lines != [] ==> |Joined(lines)| > 0;
    LengthOfLine(mode);
  }

  // ----- what the file becomes ------------------------------------------------------------------

  /** Lines are kept or dropped one by one, and stay in their order. */
  lemma KeptInOrder(lines: seq<string>, rest: string)
    requires AllLines(lines)
    ensures Kept(Joined(lines) + rest) == Kept(Joined(lines)) + Kept(rest)
  {
    SplitOfJoined(lines, rest);
    SplitOfJoined(lines, "");
    Nil(Joined(lines));
    OthersOfTwo(lines, SplitLines(rest));
    OthersOfTwo(lines, [""]);
    NoOthers();
    Nil(Others(lines));
    JoinedOfTwo(Others(lines), Others(SplitLines(rest)));
  }

  lemma {:induction false} JoinedOfTwo(a: seq<string>, b: seq<string>)
    ensures Joined(a + b) == Joined(a) + Joined(b)
  {
    if a == [] {
      assert a + b == b;
    } else {
      assert (a + b)[1..] == a[1..] + b;
      JoinedOfTwo(a[1..], b);
      Assoc(a[0] + [LF], Joined(a[1..]), Joined(b));
    }
  }

  /** What becomes of one line: one carriage return at its end goes, and a line that is empty without it or
      that starts with the key, in letters of either case, goes altogether. */
  lemma KeptOfOne(line: string)
    requires NoneOf(line, {LF})
    ensures var bare := if line != "" && line[|line| - 1] == '\r' then line[..|line| - 1] else line;
            && Kept(line + [LF]) == (if bare == "" || StartsWithKey(line) then "" else bare + [LF])
            && Kept(line) == Kept(line + [LF])
  {
    NoOthers();
    SplitOne(line, "");
    Nil(line + [LF]);
    KeyInEitherCase(line);
    KeptCons(line, [""]);
    KeptCons(line, []);
    SplitOfOne(line);
    assert [line] + [] == [line];
    assert Joined(Others([])) == "" == Joined(Others([""]));
    Nil(Strip(line) + [LF]);
  }

  lemma SplitOfOne(line: string)
    requires NoneOf(line, {LF})
    ensures SplitLines(line) == [line]
  {
  }

  ghost predicate StartsWithKey(line: string) {
    |line| >= 8 && forall i :: 0 <= i < 8 ==> line[i] == "display:"[i] || line[i] == "DISPLAY:"[i]
  }

  lemma KeyInEitherCase(line: string)
    ensures IsDisplay(line) <==> StartsWithKey(line)
  {
    if |line| >= 8 {
      forall i | 0 <= i < 8
        ensures Lower(line[i]) == KEY[i] <==> line[i] == "display:"[i] || line[i] == "DISPLAY:"[i]
      {
      }
    }
  }

  /** What a launch leaves: a file of 511 characters and more is not touched, nor is one without room for the
      line of the mode; otherwise the file is what is kept of it, and behind it the line of the mode. */
  lemma FileBecomes(file: Option<string>, mode: Mode)
    ensures |TextOf(file)| >= 511 ==> After(file, mode) == file
    ensures |TextOf(file)| < 511 && mode != Leave && |Kept(TextOf(file))| >= 500 ==> After(file, mode) == file
    ensures |TextOf(file)| < 511 && (mode == Leave || |Kept(TextOf(file))| < 500) ==>
              TextOf(After(file, mode)) ==
              Kept(TextOf(file)) + match mode
                                   case Leave => ""
                                   case Low => "display:240\n"
                                   case High => "display:480\n"
  {
    LengthOfLine(mode);
    if |TextOf(file)| < 511 {
      AfterIs(file, mode);
      Nil(Kept(TextOf(file)));
    }
  }

  /** A file is gone or still absent exactly when nothing is left to write. */
  lemma AbsentIff(file: Option<string>, mode: Mode)
    requires |TextOf(file)| < 511
    ensures After(file, mode).None? <==>
            mode == Leave && Kept(TextOf(file)) == "" && file != Some("")
  {
    LengthOfLine(mode);
    NoOthers();
    Nil(Kept(TextOf(file)));
  }

  /** A file as an editor on a PC leaves it: the line in front of the key loses its carriage return, the key
      is replaced. */
  lemma KeyIsReplaced(line: string, key: string)
    requires line != "" && NoneOf(line, {LF, CR}) && !StartsWithKey(line + [CR])
    requires NoneOf(key, {LF}) && StartsWithKey(key) && |line| + |key| < 490
    ensures var file := line + [CR] + [LF] + key;
            TextOf(After(Some(file), High)) == line + [LF] + "display:480\n"
  {
    var first := line + [CR];
    KeptInOrder([first], key);
    assert [first][1..] == [];
    Nil(first + [LF]);
    KeptOfOne(first);
    assert first[..|line|] == line;
    KeptOfOne(key);
    Nil(line + [LF]);
    FileBecomes(Some(first + [LF] + key), High);
  }

  // ----- the loop -------------------------------------------------------------------------------

  method KeyAt(before: string, from: nat, end: nat) returns (yes: bool)
    requires from <= end <= |before|
    ensures yes == IsDisplay(before[from..end])
  {
    if end - from < |KEY| { return false; }
    var i := 0;
    while i < |KEY|
      invariant i <= |KEY| && forall k :: 0 <= k < i ==> Lower(before[from..end][k]) == KEY[k]
    {
      if Lower(before[from + i]) != KEY[i] {
        assert before[from..end][i] == before[from + i];
        return false;
      }
      i := i + 1;
    }
    return true;
  }

  /** One line of the copy: its end, and the text it adds. */
  method CopyLine(before: string, lineStart: nat, i: nat, room: nat) returns (added: string)
    requires lineStart <= i <= |before| && i - lineStart + 1 < room
    ensures added == (if Keeps(before[lineStart..i]) then Strip(before[lineStart..i]) + [LF] else "")
    ensures |added| <= i + 1 - lineStart
  {
    var end := if i > lineStart && before[i - 1] == CR then i - 1 else i;
    var isKey := KeyAt(before, lineStart, i);
    assert before[lineStart..end] == Strip(before[lineStart..i]);
    if end > lineStart && !isKey {
      assert end - lineStart + 1 < room;
      added := before[lineStart..end] + [LF];
    } else {
      added := "";
    }
  }

  function RestOf(before: string, at: nat): string
    requires at <= |before| + 1
  {
    if at <= |before| then Kept(before[at..]) else ""
  }

  /** The copy of every other line into a buffer of BUFFER characters; it never runs out of room. */
  method CopyOthers(before: string) returns (after: string)
    requires |before| < BUFFER - 1
    ensures after == Kept(before)
  {
    after := "";
    var lineStart := 0;
    CopyStarts(before);
    while lineStart <= |before|
      invariant lineStart <= |before| + 1 && |after| <= lineStart && Copied(before, lineStart, after)
    {
      var i := FindFrom(before, LF, lineStart);
      var added := CopyLine(before, lineStart, i, BUFFER - |after|);
      CopyStep(before, lineStart, i, after, added);
      after, lineStart := after + added, i + 1;
    }
    Nil(after);
  }

  /** `after` holds what is kept of the lines in front of `at`. */
  ghost predicate Copied(before: string, at: nat, after: string)
    requires at <= |before| + 1
  {
    after + RestOf(before, at) == Kept(before)
  }

  lemma CopyStarts(before: string)
    ensures Copied(before, 0, "")
  {
    assert before[0..] == before;
    Nil(Kept(before));
  }

  lemma CopyStep(before: string, from: nat, i: nat, after: string, added: string)
    requires from <= |before| && i == FindFrom(before, LF, from) && Copied(before, from, after)
    requires added == (if Keeps(before[from..i]) then Strip(before[from..i]) + [LF] else "")
    ensures Copied(before, i + 1, after + added)
  {
    LineStep(before, from, i);
    Assoc(after, added, RestOf(before, i + 1));
  }

  lemma LineStep(before: string, from: nat, i: nat)
    requires from <= |before| && i == FindFrom(before, LF, from)
    ensures var line := before[from..i];
            RestOf(before, from) == (if Keeps(line) then Strip(line) + [LF] else "") + RestOf(before, i + 1)
  {
    var rest, line := before[from..], before[from..i];
    if i < |before| {
      FindIs(rest, LF, i - from);
      assert rest[..i - from] == line && rest[i - from + 1..] == before[i + 1..];
      assert SplitLines(rest) == [line] + SplitLines(before[i + 1..]);
      KeptCons(line, SplitLines(before[i + 1..]));
    } else {
      assert rest == line && Find(rest, LF) == |rest|;
      assert SplitLines(rest) == [line] + [];
      KeptCons(line, []);
      assert Joined(Others([])) == "";
    }
  }

  lemma KeptCons(line: string, lines: seq<string>)
    ensures Joined(Others([line] + lines)) ==
            (if Keeps(line) then Strip(line) + [LF] else "") + Joined(Others(lines))
  {
    assert ([line] + lines)[1..] == lines;
    if Keeps(line) {
      assert ([Strip(line)] + Others(lines))[1..] == Others(lines);
    } else {
      assert [] + Others(lines) == Others(lines);
    }
  }

  /** The whole decision on a file that was read into the buffer. */
  method Decide(file: Option<string>, mode: Mode) returns (outcome: Outcome)
    ensures outcome == Apply(file, mode)
  {
    if file.None? && mode == Leave { return Untouched; }
    var before := if file.Some? then file.value else "";
    if |before| >= BUFFER - 1 { return Untouched; }
    var after := CopyOthers(before);
    if mode != Leave {
      var line := (if mode == High then "display:480" else "display:240") + [LF];
      if |line| >= BUFFER - |after| { return Untouched; }
      after := after + line;
    }
    if after == "" {
      return if |before| > 0 then Removed else Untouched;
    }
    if after == before { return Untouched; }
    return Written(after);
  }
}
