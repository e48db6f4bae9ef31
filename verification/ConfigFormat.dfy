/** The two on-disk syntaxes of src/config.c: what each reader and writer means as a function on
    text, and the pointer loops that compute it. */
module ConfigFormat {
  import opened Wrappers
  import opened Text
  import opened ConfigStore

  const LINE_BUFFER: nat := KEY_NAME_LEN + 2 * KEY_VALUE_LEN + 16

  datatype LineClass = BlankLine | CommentLine | LegacyLine | LibconfigLine

  predicate IsAlpha(c: char) {
    'a' <= c <= 'z' || 'A' <= c <= 'Z'
  }

  predicate IsIdentChar(c: char) {
    IsAlpha(c) || IsDigit(c) || c == '_' || c == '-' || c == '*'
  }

  /** libconfig's identifier grammar */
  predicate IsIdent(s: string) {
    s != "" && (IsAlpha(s[0]) || s[0] == '*') && forall i :: 0 < i < |s| ==> IsIdentChar(s[i])
  }

  predicate IsComment(s: string) {
    s != "" && (s[0] == '#' || (s[0] == '/' && |s| > 1 && (s[1] == '/' || s[1] == '*')))
  }

  /** `ident = ...;` with a blank before the first '=' */
  predicate IsStatement(body: string) {
    var eq := Find(body, '=');
    0 < eq < |body| && IsWS(body[eq - 1]) && body[|body| - 1] == ';' && IsIdent(TrimEnd(body[..eq]))
  }

  function Classify(line: string): LineClass {
    var body := TrimEnd(TrimStart(line));
    if body == "" then BlankLine
    else if IsComment(body) then CommentLine
    else if IsStatement(body) then LibconfigLine
    else LegacyLine
  }

  // ----- wOPL's renamed and grouped keys --------------------------------------------------------

  function WoplToOurs(key: string): Option<string> {
    match key
    case "compat" => Some("$Compatibility")
    case "dma" => Some("$DMA")
    case "core_loader" => Some("$CoreLoader")
    case "dnas" => Some("$DNAS")
    case "alt_startup" => Some("$AltStartup")
    case "vmc1" => Some("$VMC_0")
    case "vmc2" => Some("$VMC_1")
    case "gsm_source" => Some("$GSMSource")
    case "gsm_enable" => Some("$EnableGSM")
    case "gsm_vmode" => Some("$GSMVMode")
    case "gsm_x_offset" => Some("$GSMXOffset")
    case "gsm_y_offset" => Some("$GSMYOffset")
    case "gsm_field_fix" => Some("$GSMFIELDFix")
    case "cheat_source" => Some("$CheatsSource")
    case "cheat_enable" => Some("$EnableCheat")
    case "cheat_mode" => Some("$CheatMode")
    case "cheat_enable_image" => Some("$EnableImage")
    case "pademu_source" => Some("$PADEMUSource")
    case "pademu_enable" => Some("$EnablePadEmu")
    case "pademu_settings" => Some("$PadEmuSettings")
    case "padmacro_source" => Some("$PadMacroSource")
    case "padmacro_settings" => Some("$PadMacroSettings")
    case "osd_source" => Some("$CustomLanguageSource")
    case "osd_enable" => Some("$OSDSettingsEnable")
    case "osd_lang_id" => Some("$CustomLanguageValue")
    case "osd_tv_aspect" => Some("$OSDAspectRatio")
    case "osd_vmode" => Some("$OSDVideoMode")
    case _ => None
  }

  function OursToWopl(key: string): Option<string> {
    match key
    case "$Compatibility" => Some("compat")
    case "$DMA" => Some("dma")
    case "$CoreLoader" => Some("core_loader")
    case "$DNAS" => Some("dnas")
    case "$AltStartup" => Some("alt_startup")
    case "$VMC_0" => Some("vmc1")
    case "$VMC_1" => Some("vmc2")
    case "$GSMSource" => Some("gsm_source")
    case "$EnableGSM" => Some("gsm_enable")
    case "$GSMVMode" => Some("gsm_vmode")
    case "$GSMXOffset" => Some("gsm_x_offset")
    case "$GSMYOffset" => Some("gsm_y_offset")
    case "$GSMFIELDFix" => Some("gsm_field_fix")
    case "$CheatsSource" => Some("cheat_source")
    case "$EnableCheat" => Some("cheat_enable")
    case "$CheatMode" => Some("cheat_mode")
    case "$EnableImage" => Some("cheat_enable_image")
    case "$PADEMUSource" => Some("pademu_source")
    case "$EnablePadEmu" => Some("pademu_enable")
    case "$PadEmuSettings" => Some("pademu_settings")
    case "$PadMacroSource" => Some("padmacro_source")
    case "$PadMacroSettings" => Some("padmacro_settings")
    case "$CustomLanguageSource" => Some("osd_source")
    case "$OSDSettingsEnable" => Some("osd_enable")
    case "$CustomLanguageValue" => Some("osd_lang_id")
    case "$OSDAspectRatio" => Some("osd_tv_aspect")
    case "$OSDVideoMode" => Some("osd_vmode")
    case _ => None
  }

  const GROUPS: seq<string> := ["gsm", "cheat", "pademu", "padmacro", "osd"]

  predicate InGroup(key: string, group: string) {
    |key| > |group| + 1 && StartsWith(key, group) && key[|group|] == '_'
  }

  /** The first group of the schema whose name and an underscore begin the key. */
  function MatchGroup(key: string): Option<string> {
    MatchGroupFrom(key, 0)
  }

  function MatchGroupFrom(key: string, i: nat): (r: Option<string>)
    requires i <= |GROUPS|
    ensures r.Some? ==> r.value in GROUPS && InGroup(key, r.value)
    decreases |GROUPS| - i
  {
    if i == |GROUPS| then None
    else if InGroup(key, GROUPS[i]) then Some(GROUPS[i])
    else MatchGroupFrom(key, i + 1)
  }

  // ----- reading --------------------------------------------------------------------------------

  function DropLast(s: string, c: char): string {
    if s != "" && s[|s| - 1] == c then s[..|s| - 1] else s
  }

  function Unquote(s: string): string {
    if s != "" && s[0] == '"' then DropLast(s[1..], '"') else s
  }

  function ReadBool(v: string): string {
    if v == "true" then "1" else if v == "false" then "0" else v
  }

  function OurName(group: string, key: string): string {
    var composed := if group != "" then group + "_" + key else key;
    match WoplToOurs(composed)
    case Some(ours) => ours
    case None => composed
  }

  function ReadScalar(key: string, rhs: string, group: string, es: seq<Entry>): seq<Entry> {
    var v := Unquote(rhs);
    if key == "" || |key| >= KEY_NAME_LEN || v == "" then es
    else Set(es, OurName(group, key), ReadBool(Truncate(v, KEY_VALUE_LEN)))
  }

  function ReadHeader(name: string, group: string): string {
    if 0 < |name| < KEY_NAME_LEN then name else group
  }

  datatype Statement = Nothing | Close | Header(name: string) | Assign(key: string, rhs: string)

  /** A line with its leading blanks off that is neither a comment nor a brace. */
  function ParseBody(p: string): Statement {
    var body := TrimEnd(DropLast(TrimEnd(p), ';'));
    var eq, colon := Find(p, '='), Find(p, ':');
    if eq == |p| || colon < eq then
      if colon < |p| then Header(TrimEnd(p[..colon])) else Nothing
    else
      Assign(TrimEnd(p[..eq]), if eq < |body| then TrimStart(body[eq + 1..]) else "")
  }

  function ParseStatement(line: string): Statement {
    var p := TrimStart(line);
    if p == "" || IsComment(p) || p[0] == '{' then Nothing
    else if p[0] == '}' then Close
    else ParseBody(p)
  }

  /** cfgReadLibconfigLine: the group in force and the set after one line. */
  function ReadLibconfigLine(line: string, group: string, es: seq<Entry>): (string, seq<Entry>) {
    match ParseStatement(line)
    case Nothing => (group, es)
    case Close => ("", es)
    case Header(name) => (ReadHeader(name, group), es)
    case Assign(key, rhs) => (group, ReadScalar(key, rhs, group, es))
  }

  function SplitAssignment(line: string): Option<(string, string)> {
    var p := TrimStart(line);
    var eq := Find(p, '=');
    if eq < |p| then Some((Truncate(p[..eq], KEY_NAME_LEN), Truncate(p[eq + 1..], KEY_VALUE_LEN))) else None
  }

  function ReadLegacyLine(line: string, prefix: string, es: seq<Entry>): (string, seq<Entry>) {
    match SplitAssignment(line)
    case Some((key, val)) =>
      var prefix' := if line != "" && IsWS(line[0]) then prefix else "";
      (prefix', Set(es, if prefix' != "" then prefix' + "_" + key else key, val))
    case None =>
      var colon := Find(line, ':');
      (if 0 < colon < |line| then Truncate(line[..colon], KEY_NAME_LEN) else prefix, es)
  }

  datatype Reader = Reader(latched: bool, format: Format, group: string, prefix: string, entries: seq<Entry>)

  /** The latch: only a line that carries evidence settles the format. */
  function Latch(r: Reader, c: LineClass): Reader {
    if r.latched then r
    else r.(latched := true, format := if c == LibconfigLine then Libconfig else Legacy)
  }

  function ReadBody(r: Reader, line: string): Reader {
    if r.format == Libconfig then
      var (group, es) := ReadLibconfigLine(line, r.group, r.entries);
      r.(group := group, entries := es)
    else
      var (prefix, es) := ReadLegacyLine(line, r.prefix, r.entries);
      r.(prefix := prefix, entries := es)
  }

  /** One turn of configReadFileBuffer's loop. */
  function ReadLine(r: Reader, line: string): Reader {
    var c := Classify(line);
    if !r.latched && (c == BlankLine || c == CommentLine) then r else ReadBody(Latch(r, c), line)
  }

  function ReadLines(r: Reader, lines: seq<string>): Reader
    decreases |lines|
  {
    if lines == [] then r else ReadLines(ReadLine(r, lines[0]), lines[1..])
  }

  /** readFileBuffer: lines end at a line feed, lose one carriage return, and are skipped on '#'. */
  function Lines(text: string): seq<string>
    decreases |text|
  {
    if text == "" then []
    else
      var n := Find(text, '\n');
      var line := DropLast(text[..n], '\r');
      var rest := if n < |text| then Lines(text[n + 1..]) else [];
      if line != "" && line[0] == '#' then rest else [line] + rest
  }

  function Load(text: string, format: Format, es: seq<Entry>): Reader {
    ReadLines(Reader(false, format, "", "", es), Lines(text))
  }

  // ----- writing --------------------------------------------------------------------------------

  predicate Written(e: Entry) {
    e.key != "" && e.key[0] != '#'
  }

  predicate AllDigits(s: string) {
    s != "" && forall i :: 0 <= i < |s| ==> IsDigit(s[i])
  }

  predicate IsBareScalar(v: string) {
    v == "true" || v == "false" || AllDigits(if v != "" && v[0] == '-' then v[1..] else v)
  }

  function EscapeChar(c: char): string {
    if c == '\\' || c == '"' then ['\\', c] else [c]
  }

  function Escape(v: string): (r: string)
    ensures |r| <= 2 * |v|
  {
    if v == "" then "" else Escape(v[..|v| - 1]) + EscapeChar(v[|v| - 1])
  }

  function RightSide(val: string): string {
    if IsBareScalar(val) then val else "\"" + Escape(val) + "\""
  }

  function LibconfigLineOf(indent: string, key: string, val: string): string {
    indent + key + " = " + RightSide(val) + ";"
  }

  /** The name a key is written under, and the group that name belongs to ("" for the root). */
  function TheirName(key: string): string {
    match OursToWopl(key)
    case Some(w) => w
    case None => key
  }

  function GroupOf(key: string): string {
    match OursToWopl(key)
    case Some(w) => (match MatchGroup(w) case Some(g) => g case None => "")
    case None => ""
  }

  function NameInGroup(key: string, group: string): string {
    var w := TheirName(key);
    if group == "" then w else if |group| < |w| then w[|group| + 1..] else ""
  }

  function Select(es: seq<Entry>, group: string): seq<Entry> {
    if es == [] then []
    else if Written(es[0]) && GroupOf(es[0].key) == group then [es[0]] + Select(es[1..], group)
    else Select(es[1..], group)
  }

  function Emit(es: seq<Entry>, group: string): string {
    if es == [] then ""
    else LibconfigLineOf(if group == "" then "" else "  ", NameInGroup(es[0].key, group), es[0].val) + "\n"
         + Emit(es[1..], group)
  }

  function Block(es: seq<Entry>, group: string): string {
    var members := Select(es, group);
    if members == [] then "" else group + " :\n{\n" + Emit(members, group) + "};\n"
  }

  function Blocks(es: seq<Entry>, i: nat): string
    requires i <= |GROUPS|
    decreases |GROUPS| - i
  {
    if i == |GROUPS| then "" else Block(es, GROUPS[i]) + Blocks(es, i + 1)
  }

  function LibconfigText(es: seq<Entry>): string {
    Emit(Select(es, ""), "") + Blocks(es, 0)
  }

  function LegacyText(es: seq<Entry>): string {
    if es == [] then ""
    else if Written(es[0]) then es[0].key + "=" + es[0].val + "\n" + LegacyText(es[1..])
    else LegacyText(es[1..])
  }

  function SaveText(format: Format, es: seq<Entry>): string {
    if format == Libconfig then LibconfigText(es) else LegacyText(es)
  }
}
