/** What a libconfig file says in its own characters: the names of its settings, its booleans, and a whole
    file of each format as it is written. */
module WoplFiles {
  import opened Wrappers
  import opened Text
  import opened ConfigStore
  import opened ConfigFormat
  import opened EscapedValues
  import opened LegacyRoundTrips
  import opened LibconfigRoundTrips
  import opened RootKeys

  // ----- the names ------------------------------------------------------------------------------

  /** The name in the file, group and all, and the key of the store. */
  const NAMES: seq<(string, string)> := [
    ("compat", "$Compatibility"), ("dma", "$DMA"), ("core_loader", "$CoreLoader"), ("dnas", "$DNAS"),
    ("alt_startup", "$AltStartup"), ("vmc1", "$VMC_0"), ("vmc2", "$VMC_1"),
    ("gsm_source", "$GSMSource"), ("gsm_enable", "$EnableGSM"), ("gsm_vmode", "$GSMVMode"),
    ("gsm_x_offset", "$GSMXOffset"), ("gsm_y_offset", "$GSMYOffset"), ("gsm_field_fix", "$GSMFIELDFix"),
    ("cheat_source", "$CheatsSource"), ("cheat_enable", "$EnableCheat"), ("cheat_mode", "$CheatMode"),
    ("cheat_enable_image", "$EnableImage"),
    ("pademu_source", "$PADEMUSource"), ("pademu_enable", "$EnablePadEmu"), ("pademu_settings", "$PadEmuSettings"),
    ("padmacro_source", "$PadMacroSource"), ("padmacro_settings", "$PadMacroSettings"),
    ("osd_source", "$CustomLanguageSource"), ("osd_enable", "$OSDSettingsEnable"),
    ("osd_lang_id", "$CustomLanguageValue"), ("osd_tv_aspect", "$OSDAspectRatio"), ("osd_vmode", "$OSDVideoMode")]

  lemma NameAt(i: nat)
    requires i < |NAMES|
    ensures WoplToOurs(NAMES[i].0) == Some(NAMES[i].1)
  {
  }

  lemma NotAmong(w: string)
    requires forall i :: 0 <= i < |NAMES| ==> NAMES[i].0 != w
    ensures WoplToOurs(w).None?
  {
    assert NAMES[0].0 != w;
    assert NAMES[1].0 != w;
    assert NAMES[2].0 != w;
    assert NAMES[3].0 != w;
    assert NAMES[4].0 != w;
    assert NAMES[5].0 != w;
    assert NAMES[6].0 != w;
    assert NAMES[7].0 != w;
    assert NAMES[8].0 != w;
    assert NAMES[9].0 != w;
    assert NAMES[10].0 != w;
    assert NAMES[11].0 != w;
    assert NAMES[12].0 != w;
    assert NAMES[13].0 != w;
    assert NAMES[14].0 != w;
    assert NAMES[15].0 != w;
    assert NAMES[16].0 != w;
    assert NAMES[17].0 != w;
    assert NAMES[18].0 != w;
    assert NAMES[19].0 != w;
    assert NAMES[20].0 != w;
    assert NAMES[21].0 != w;
    assert NAMES[22].0 != w;
    assert NAMES[23].0 != w;
    assert NAMES[24].0 != w;
    assert NAMES[25].0 != w;
    assert NAMES[26].0 != w;
  }

  lemma NoOtherName(w: string)
    requires WoplToOurs(w).Some?
    ensures exists i :: 0 <= i < |NAMES| && NAMES[i].0 == w
  {
    if forall i :: 0 <= i < |NAMES| ==> NAMES[i].0 != w { NotAmong(w); }
  }

  /** The reader renames exactly these names, and the writer names them so. */
  lemma NamesAre(w: string, k: string)
    ensures (w, k) in NAMES <==> WoplToOurs(w) == Some(k)
    ensures (w, k) in NAMES <==> OursToWopl(k) == Some(w)
  {
    TablesAreInverse(k, w);
    if (w, k) in NAMES {
      var i :| 0 <= i < |NAMES| && NAMES[i] == (w, k);
      NameAt(i);
    }
    if WoplToOurs(w).Some? {
      NoOtherName(w);
      var i :| 0 <= i < |NAMES| && NAMES[i].0 == w;
      NameAt(i);
      if WoplToOurs(w) == Some(k) { assert NAMES[i] == (w, k); }
    }
  }

  // ----- the values -----------------------------------------------------------------------------

  /** Any name a line can give, in any group. */
  lemma LineIsRead(key: string, rhs: string, group: string, es: seq<Entry>)
    requires SafeName(key) && SafeRight(rhs)
    ensures ReadLibconfigLine(key + " = " + rhs + ";", group, es) == (group, ReadScalar(key, rhs, group, es))
  {
    assert "" + key + " = " + rhs + ";" == key + " = " + rhs + ";";
    StatementReads("", key, rhs, group, es);
  }

  lemma ScalarIsNumber(key: string, rhs: string, group: string, es: seq<Entry>)
    requires key != "" && |key| < KEY_NAME_LEN
    ensures Unquote(rhs) == "true" ==> ReadScalar(key, rhs, group, es) == Set(es, OurName(group, key), "1")
    ensures Unquote(rhs) == "false" ==> ReadScalar(key, rhs, group, es) == Set(es, OurName(group, key), "0")
  {
  }

  predicate IsTrue(rhs: string) {
    rhs == "true" || rhs == "\"true\""
  }

  predicate IsFalse(rhs: string) {
    rhs == "false" || rhs == "\"false\""
  }

  lemma BooleansAreRead(rhs: string)
    ensures IsTrue(rhs) ==> SafeRight(rhs) && Unquote(rhs) == "true"
    ensures IsFalse(rhs) ==> SafeRight(rhs) && Unquote(rhs) == "false"
  {
    QuotedBooleans();
  }

  /** A boolean is stored as a number, quoted or not. */
  lemma BooleansAreNumbers(key: string, group: string, es: seq<Entry>, rhs: string)
    requires SafeName(key)
    ensures IsTrue(rhs) ==>
              ReadLibconfigLine(key + " = " + rhs + ";", group, es) == (group, Set(es, OurName(group, key), "1"))
    ensures IsFalse(rhs) ==>
              ReadLibconfigLine(key + " = " + rhs + ";", group, es) == (group, Set(es, OurName(group, key), "0"))
  {
    BooleansAreRead(rhs);
    if IsTrue(rhs) || IsFalse(rhs) {
      LineIsRead(key, rhs, group, es);
      ScalarIsNumber(key, rhs, group, es);
    }
  }

  lemma QuotedBooleans()
    ensures Unquote("\"true\"") == "true" && Unquote("\"false\"") == "false"
  {
    assert "\"true\""[1..] == "true\"" && "true\""[..4] == "true";
    assert "\"false\""[1..] == "false\"" && "false\""[..5] == "false";
  }

  /** Any other value stands as it is, without its quotes. */
  lemma OthersStand(key: string, v: string, group: string, es: seq<Entry>)
    requires SafeName(key) && v != "" && v != "true" && v != "false" && |v| < KEY_VALUE_LEN && NoneOf(v, {'\n'})
    ensures ReadLibconfigLine(key + " = " + ("\"" + v + "\"") + ";", group, es) == (group, Set(es, OurName(group, key), v))
    ensures SafeRight(v) && v[0] != '"' ==>
              ReadLibconfigLine(key + " = " + v + ";", group, es) == (group, Set(es, OurName(group, key), v))
  {
    LineIsRead(key, "\"" + v + "\"", group, es);
    Wrapped('"', v, '"');
    assert "\"" + v + "\"" == ['"'] + v + ['"'];
    if SafeRight(v) { LineIsRead(key, v, group, es); }
  }

  /** The name in front of a group is what the table knows, and otherwise joined to it. */
  lemma NameInAGroup(group: string, key: string)
    ensures var name := if group == "" then key else group + "_" + key;
            && (forall k :: (name, k) in NAMES ==> OurName(group, key) == k)
            && ((forall k :: (name, k) !in NAMES) ==> OurName(group, key) == name)
  {
    var name := if group == "" then key else group + "_" + key;
    match WoplToOurs(name) {
      case Some(k) => NamesAre(name, k);
      case None =>
    }
    forall k | (name, k) in NAMES ensures OurName(group, key) == k { NamesAre(name, k); }
  }

  // ----- whole files ----------------------------------------------------------------------------

  lemma TitleLine()
    ensures EntryLine(Entry("title", "x"), "") == "title" + " = " + "\"x\"" + ";"
  {
    RootLine(Entry("title", "x"));
    assert Escape("x") == "x" by { assert "x"[..0] == ""; }
  }

  lemma GsmLine()
    ensures GroupOf("$EnableGSM") == "gsm" && TheirName("$EnableGSM") == "gsm_enable"
    ensures NameInGroup("$EnableGSM", "gsm") == "enable"
    ensures LibconfigLineOf("  ", "enable", "1") == "  enable = 1;"
  {
    assert "gsm_enable"[4..] == "enable";
  }

  lemma OnlyGsm(i: nat)
    requires i < |GROUPS|
    ensures Select([Entry("title", "x"), Entry("$EnableGSM", "1")], GROUPS[i]) ==
            if i == 0 then [Entry("$EnableGSM", "1")] else []
  {
    var title, gsm := Entry("title", "x"), Entry("$EnableGSM", "1");
    assert [title, gsm][1..] == [gsm] && [gsm][1..] == [];
    GsmLine();
    GroupsNamed(i);
    if i > 0 { GroupsDiffer(0, i); }
  }

  lemma {:induction false} BlocksEnd(es: seq<Entry>, i: nat)
    requires i <= |GROUPS| && forall j :: i <= j < |GROUPS| ==> Select(es, GROUPS[j]) == []
    ensures Blocks(es, i) == ""
    decreases |GROUPS| - i
  {
    if i < |GROUPS| { BlocksEnd(es, i + 1); }
  }

  lemma OnlyTitle()
    ensures Select([Entry("title", "x"), Entry("$EnableGSM", "1")], "") == [Entry("title", "x")]
  {
    var title, gsm := Entry("title", "x"), Entry("$EnableGSM", "1");
    assert [title, gsm][1..] == [gsm] && [gsm][1..] == [];
    GsmLine();
    assert Select([gsm], "") == [];
  }

  lemma EmitOne(e: Entry, g: string)
    ensures Emit([e], g) == EntryLine(e, g) + "\n"
  {
    assert [e][1..] == [];
    Nil(EntryLine(e, g) + "\n");
  }

  lemma GsmBlock()
    ensures Blocks([Entry("title", "x"), Entry("$EnableGSM", "1")], 0) ==
            "gsm" + " :\n{\n" + ("  enable = 1;" + "\n") + "};\n"
  {
    var es := [Entry("title", "x"), Entry("$EnableGSM", "1")];
    forall i | 0 <= i < |GROUPS| ensures i > 0 ==> Select(es, GROUPS[i]) == [] { OnlyGsm(i); }
    OnlyGsm(0);
    BlocksEnd(es, 1);
    EmitOne(es[1], "gsm");
    GsmLine();
    Nil(Block(es, "gsm"));
  }

  /** A title and a setting of a group, as they are written. */
  lemma WrittenFile()
    ensures LibconfigText([Entry("title", "x"), Entry("$EnableGSM", "1")]) ==
            ("title" + " = " + "\"x\"" + ";" + "\n") + ("gsm" + " :\n{\n" + ("  enable = 1;" + "\n") + "};\n")
  {
    OnlyTitle();
    GsmBlock();
    TitleLine();
    EmitOne(Entry("title", "x"), "");
  }

  /** The block of a group with one line in it. */
  function OneLineBlock(g: string, line: string): string {
    g + " :" + "\n" + ("{" + "\n" + (line + "\n" + ("};" + "\n" + "")))
  }

  lemma BlockIsRead(r: Reader, g: string, line: string, es: seq<Entry>)
    requires InLibconfig(r, "") && GroupLike(g) && OneLine(line)
    requires ReadLibconfigLine(line, g, r.entries) == (g, es) && AllFit(es)
    ensures ReadLines(r, Lines(OneLineBlock(g, line))) == r.(entries := es)
  {
    OpenReads(r, g, line + "\n" + ("};" + "\n" + ""));
    LatchedReads(r.(group := g), line, g, es);
    ReadOne(r.(group := g), line, "};" + "\n" + "");
    CloseReads(r.(group := g, entries := es), g, "");
  }

  lemma FileIsRead(first: Entry, g: string, line: string, es: seq<Entry>)
    requires Opener(first) && GroupLike(g) && OneLine(line)
    requires ReadLibconfigLine(line, g, Keep([first])) == (g, es) && AllFit(es)
    ensures Load(EntryLine(first, "") + "\n" + OneLineBlock(g, line), Legacy, []) == Reader(true, Libconfig, "", "", es)
  {
    KeepOne(first);
    BackIsValue(first.val);
    OpenerReads(first, OneLineBlock(g, line));
    BlockIsRead(Opened(first), g, line, es);
  }

  lemma SettingLine(g: string, key: string, ours: string, rhs: string, acc: seq<Entry>)
    requires SafeName(key) && OurName(g, key) == ours && (IsTrue(rhs) || IsFalse(rhs))
    ensures var line := "  " + key + " = " + rhs + ";";
            OneLine(line) && ReadLibconfigLine(line, g, acc) == (g, Set(acc, ours, if IsTrue(rhs) then "1" else "0"))
  {
    BooleansAreRead(rhs);
    StatementReads("  ", key, rhs, g, acc);
    StatementIsLine("  ", key, rhs);
    ScalarIsNumber(key, rhs, g, acc);
  }

  lemma SetFits(es: seq<Entry>, k: string, v: string)
    requires AllFit(es)
    ensures AllFit(Set(es, k, v))
  {
  }

  lemma FirstFits(first: Entry)
    requires Opener(first)
    ensures AllFit(Keep([first]))
  {
    KeepOne(first);
    BackIsValue(first.val);
  }

  lemma NameOfSetting(g: string, key: string, ours: string)
    requires g != "" && (g + "_" + key, ours) in NAMES
    ensures OurName(g, key) == ours
  {
    NamesAre(g + "_" + key, ours);
  }

  /** A setting of a group that is a boolean in the file is a number in the store, under our name for it. */
  lemma BooleanInGroup(first: Entry, g: string, key: string, ours: string, rhs: string)
    requires Opener(first) && GroupLike(g) && SafeName(key) && (g + "_" + key, ours) in NAMES
    requires IsTrue(rhs) || IsFalse(rhs)
    ensures Load(EntryLine(first, "") + "\n" + OneLineBlock(g, "  " + key + " = " + rhs + ";"), Legacy, []) ==
            Reader(true, Libconfig, "", "", Set(Keep([first]), ours, if IsTrue(rhs) then "1" else "0"))
  {
    NameOfSetting(g, key, ours);
    SettingLine(g, key, ours, rhs, Keep([first]));
    FirstFits(first);
    SetFits(Keep([first]), ours, if IsTrue(rhs) then "1" else "0");
    FileIsRead(first, g, "  " + key + " = " + rhs + ";", Set(Keep([first]), ours, if IsTrue(rhs) then "1" else "0"));
  }

  /** The same of a legacy file. */
  lemma WrittenLegacyFile()
    ensures LegacyText([Entry("a", "1"), Entry("#b", "2"), Entry("c", "x")]) == "a" + "=" + "1" + "\n" + ("c" + "=" + "x" + "\n")
  {
    var a, b, c := Entry("a", "1"), Entry("#b", "2"), Entry("c", "x");
    assert [a, b, c][1..] == [b, c] && [b, c][1..] == [c] && [c][1..] == [];
    assert LegacyText([c]) == "c" + "=" + "x" + "\n" + "";
    assert LegacyText([b, c]) == LegacyText([c]);
  }
}
