/** The text of an actions file, line by line, in the eyes of its two readers: the
    editor of cgiedit.c and the loader of actions.c. Lines come without comments,
    continuations and surrounding whitespace, as `edit_read_line` delivers them. */
module ActionsFileText {
  import opened Text
  import opened Actions
  import opened ActionParser
  import opened ActionTokens

  /** The FILE_LINE constants of cgiedit.c. */
  datatype LineType =
    | Unprocessed | Blank
    | AliasHeader | AliasEntry
    | ActionHeader | Url
    | SettingsHeader | SettingsEntry
    | DescriptionHeader | DescriptionEntry

  /** The blocks of a file in their order: the modes of the loader. */
  datatype Mode = StartOfFile | InSettings | InDescription | InAliases | InActions {
    function Rank(): nat {
      match this
      case StartOfFile => 1
      case InSettings => 2
      case InDescription => 3
      case InAliases => 4
      case InActions => 5
    }
  }

  /** The aliases defined so far, and the block a line is in. */
  datatype Progress = Progress(mode: Mode, aliases: seq<Alias>)

  // ----- Lines ----------------------------------------------------------------

  function DropBlanksAtEnd(s: string): string {
    if s != [] && IsBlank(s[|s| - 1]) then DropBlanksAtEnd(s[..|s| - 1]) else s
  }

  function TrimBlanks(s: string): string {
    DropBlanksAtEnd(SkipBlanks(s))
  }

  predicate IsHeader(text: string) {
    text != [] && text[0] == '{'
  }

  /** `match_actions_file_header_line` returns 0. */
  predicate HeaderMatches(line: string, name: string) {
    && |line| >= 2 && line[0] == '{' && line[1] == '{'
    && var text := SkipBlanks(line[2..]);
       && |text| >= |name| && EqualsIgnoreCase(text[..|name|], name)
       && SkipBlanks(text[|name|..]) == ['}', '}']
  }

  /** `strchr(s, '=')`; the length of s if there is none. */
  function EqualsSign(s: string): (n: nat)
    ensures n <= |s| && (n < |s| ==> s[n] == '=') && '=' !in s[..n]
  {
    if s == [] || s[0] == '=' then 0 else 1 + EqualsSign(s[1..])
  }

  datatype Setting = Setting(name: string, value: string)

  /** `split_line_on_equals` */
  function SplitOnEquals(line: string): Option<Setting> {
    var n := EqualsSign(line);
    if n == |line| || n == 0 then None
    else Some(Setting(DropBlanksAtEnd(line[..n]), SkipBlanks(line[n + 1..])))
  }

  // ----- The editor --------------------------------------------------------------

  /** A line that has been processed: where the parser stands after it, its type, and for a
      header of a section its actions. */
  datatype Typed = Typed(next: Progress, kind: LineType, action: Spec)

  function Plain(next: Progress, kind: LineType): Option<Typed> {
    Some(Typed(next, kind, Neutral()))
  }

  /** The header of a section: one opening brace, a closing brace, and valid actions between them. */
  function SectionActions(text: string, aliases: seq<Alias>): Option<Spec>
    requires IsHeader(text)
  {
    var n := |text| - 1;
    if n == 0 || text[n] != '}' || text[1] == '{' then None
    else
      match GetActions(Neutral(), TrimBlanks(text[1..n]), aliases)
      case Ok(spec) => Some(spec)
      case _ => None
  }

  function EditAlias(s: Progress, text: string): Option<Typed> {
    match SplitOnEquals(text)
    case None => None
    case Some(setting) =>
      match GetActions(Neutral(), setting.value, s.aliases)
      case Ok(spec) => Plain(s.(aliases := [Alias(setting.name, spec)] + s.aliases), AliasEntry)
      case _ => None
  }

  function EditHeader(s: Progress, text: string): Option<Typed>
    requires IsHeader(text)
  {
    if s.mode.Rank() < InSettings.Rank() && HeaderMatches(text, "settings") then
      Plain(s.(mode := InSettings), SettingsHeader)
    else if s.mode.Rank() < InDescription.Rank() && HeaderMatches(text, "description") then
      Plain(s.(mode := InDescription), DescriptionHeader)
    else if s.mode.Rank() < InAliases.Rank() && HeaderMatches(text, "alias") then
      Plain(s.(mode := InAliases), AliasHeader)
    else
      match SectionActions(text, s.aliases)
      case None => None
      case Some(spec) => Some(Typed(s.(mode := InActions), ActionHeader, spec))
  }

  /** What `edit_parse_actions_file` makes of one line; None on JB_ERR_PARSE. */
  function EditLine(s: Progress, text: string): Option<Typed> {
    if text == [] then Plain(s, Blank)
    else if IsHeader(text) then EditHeader(s, text)
    else
      match s.mode
      case StartOfFile => None
      case InSettings => if SplitOnEquals(text).None? then None else Plain(s, SettingsEntry)
      case InDescription => Plain(s, DescriptionEntry)
      case InAliases => EditAlias(s, text)
      case InActions => Plain(s, Url)
  }

  /** `edit_parse_actions_file` */
  function EditParse(s: Progress, texts: seq<string>): (typed: Option<seq<Typed>>)
    ensures typed.Some? ==> |typed.value| == |texts|
    decreases |texts|
  {
    hide EditLine;
    if texts == [] then Some([])
    else
      match EditLine(s, texts[0])
      case None => None
      case Some(line) =>
        match EditParse(line.next, texts[1..])
        case None => None
        case Some(more) => Some([line] + more)
  }

  const START: Progress := Progress(StartOfFile, [])

  /** Each pattern with the actions of the section it is in. */
  function RulesOf(typed: seq<Typed>, texts: seq<string>, action: Spec): seq<Rule<string>>
    requires |typed| == |texts|
  {
    if typed == [] then []
    else
      var current := if typed[0].kind == ActionHeader then typed[0].action else action;
      (if typed[0].kind == Url then [Rule(texts[0], current)] else []) + RulesOf(typed[1..], texts[1..], current)
  }

  // ----- The loader -----------------------------------------------------------------

  const BUFFER_SIZE: nat := 5000

  /** `strlcpy` into the buffer for the actions of an alias. */
  function Truncated(s: string): string {
    if |s| < BUFFER_SIZE then s else s[..BUFFER_SIZE - 1]
  }

  /** The variables of the loop of `load_one_actions_file`. */
  datatype Loaded = Loaded(progress: Progress, action: Spec, rules: seq<Rule<string>>)

  /** What the loader asks other parts of the program: whether a setting asks for no newer
      version, and whether a pattern can be compiled. */
  datatype Judge = Judge(supported: string -> bool, isPattern: string -> bool)

  function LoadBlock(s: Loaded, name: string): Option<Loaded> {
    var mode :=
      if EqualsIgnoreCase(name, "settings") then InSettings
      else if EqualsIgnoreCase(name, "description") then InDescription
      else if EqualsIgnoreCase(name, "alias") then InAliases
      else StartOfFile;
    if s.progress.mode.Rank() >= mode.Rank() then None else Some(s.(progress := s.progress.(mode := mode)))
  }

  function LoadHeader(s: Loaded, buf: string): Option<Loaded>
    requires IsHeader(buf)
  {
    var n := |buf|;
    if n > 1 && buf[1] == '{' then
      if n < 5 || buf[n - 1] != '}' || buf[n - 2] != '}' then None
      else LoadBlock(s, Chomp(buf[2..n - 2]))
    else if n == 1 || buf[n - 1] != '}' then None
    else
      match GetActions(Neutral(), Chomp(buf[1..n - 1]), s.progress.aliases)
      case Ok(spec) => Some(s.(progress := s.progress.(mode := InActions), action := spec))
      case _ => None
  }

  function LoadAlias(s: Loaded, buf: string): Option<Loaded> {
    match SplitOnEquals(buf)
    case None => None
    case Some(setting) =>
      if setting.value == [] then None
      else
        match GetActions(Neutral(), Truncated(setting.value), s.progress.aliases)
        case Ok(spec) => Some(s.(progress := s.progress.(aliases := [Alias(setting.name, spec)] + s.progress.aliases)))
        case _ => None
  }

  /** One turn of the loop of `load_one_actions_file`; None where the program ends with an error. */
  function LoadLine(s: Loaded, buf: string, judge: Judge): Option<Loaded>
    requires buf != []
  {
    if IsHeader(buf) then LoadHeader(s, buf)
    else
      match s.progress.mode
      case StartOfFile => None
      case InSettings => if judge.supported(buf) then Some(s) else None
      case InDescription => Some(s)
      case InAliases => LoadAlias(s, buf)
      case InActions => if judge.isPattern(buf) then Some(s.(rules := s.rules + [Rule(buf, s.action)])) else None
  }

  /** `load_one_actions_file`; `read_config_line` passes over blank lines. */
  function Load(s: Loaded, texts: seq<string>, judge: Judge): Option<Loaded>
    decreases |texts|
  {
    hide LoadLine;
    if texts == [] then Some(s)
    else if texts[0] == [] then Load(s, texts[1..], judge)
    else
      match LoadLine(s, texts[0], judge)
      case None => None
      case Some(next) => Load(next, texts[1..], judge)
  }

  function NothingLoaded(): Loaded {
    Loaded(START, Neutral(), [])
  }

  /** The loop itself. */
  method LoadOneActionsFile(lines: seq<string>, judge: Judge) returns (loaded: Option<Loaded>)
    ensures loaded == Load(NothingLoaded(), lines, judge)
  {
    hide LoadLine;
    var s, i := NothingLoaded(), 0;
    assert lines[i..] == lines;
    while i < |lines|
      invariant i <= |lines|
      invariant Load(NothingLoaded(), lines, judge) == Load(s, lines[i..], judge)
    {
      assert lines[i..][1..] == lines[i + 1..];
      if lines[i] != [] {
        var next := LoadLine(s, lines[i], judge);
        if next.None? {
          return None;
        }
        s := next.value;
      }
      i := i + 1;
    }
    loaded := Some(s);
  }

  // ----- The two trimmings ------------------------------------------------------------

  lemma {:induction false} SkipBlanksIsSuffix(s: string)
    ensures SkipBlanks(s) == s[|s| - |SkipBlanks(s)|..]
    ensures forall i | 0 <= i < |s| - |SkipBlanks(s)| :: IsBlank(s[i])
  {
    if s != [] && IsBlank(s[0]) {
      var rest, n := s[1..], |SkipBlanks(s)|;
      SkipBlanksIsSuffix(rest);
      assert rest[|rest| - n..] == s[|s| - n..];
      assert forall i | 0 < i < |s| - n :: s[i] == rest[i - 1];
    }
  }

  lemma {:induction false} DropBlanksIsPrefix(s: string)
    ensures |DropBlanksAtEnd(s)| <= |s| && DropBlanksAtEnd(s) == s[..|DropBlanksAtEnd(s)|]
    ensures forall i | |DropBlanksAtEnd(s)| <= i < |s| :: IsBlank(s[i])
  {
    if s != [] && IsBlank(s[|s| - 1]) {
      DropBlanksIsPrefix(s[..|s| - 1]);
    }
  }

  lemma {:induction false} AllSpaces(s: string)
    requires forall i | 0 <= i < |s| :: IsSpace(s[i])
    ensures TrimRight(s) == []
  {
    if s != [] {
      AllSpaces(s[..|s| - 1]);
    }
  }

  /** `chomp` and the editor's trimming agree exactly where the latter leaves no whitespace at the ends. */
  lemma ChompIsTrimBlanks(s: string)
    ensures Chomp(s) == TrimBlanks(s) <==> Trimmed(TrimBlanks(s))
  {
    hide TrimLeft, TrimRight, SkipBlanks, DropBlanksAtEnd;
    SkipBlanksIsSuffix(s);
    DropBlanksIsPrefix(SkipBlanks(s));
    ChompFixpoint(s);
    var k := |s| - |SkipBlanks(s)|;
    var m := k + |TrimBlanks(s)|;
    var middle := s[k..m];
    assert TrimBlanks(s) == middle && s == s[..k] + middle + s[m..];
    assert forall i | m <= i < |s| :: s[i] == SkipBlanks(s)[i - k];
    if middle == [] {
      AllSpaces(s);
      NothingToTrim();
    } else if Trimmed(middle) {
      assert (s[..k] + middle)[m - 1] == middle[|middle| - 1];
      TrimRightOf(s[..k] + middle, s[m..]);
      TrimLeftOf(s[..k], middle);
    }
  }

  lemma NothingToTrim()
    ensures TrimLeft([]) == []
  {}

  ghost predicate LowerCaseWord(name: string) {
    name != [] && forall i | 0 <= i < |name| :: 'a' <= name[i] <= 'z'
  }

  lemma ChompOfWord(before: string, word: string, after: string, name: string)
    requires LowerCaseWord(name) && EqualsIgnoreCase(word, name)
    requires forall i | 0 <= i < |before| :: IsSpace(before[i])
    requires forall i | 0 <= i < |after| :: IsSpace(after[i])
    ensures Chomp(before + word + after) == word
  {
    hide EqualsIgnoreCase, TrimLeft, TrimRight, DropBlanksAtEnd, SkipBlanks;
    assert Lower(word[0]) == Lower(name[0]) && Lower(word[|word| - 1]) == Lower(name[|name| - 1]);
    var n := |before + word| - 1;
    assert (before + word)[n] == word[|word| - 1];
    TrimRightOf(before + word, after);
    TrimLeftOf(before, word);
  }

  lemma BlanksAreSpaces(s: string) returns (blanks: string)
    ensures s == blanks + SkipBlanks(s) && forall i | 0 <= i < |blanks| :: IsSpace(blanks[i])
  {
    hide SkipBlanks;
    SkipBlanksIsSuffix(s);
    blanks := s[..|s| - |SkipBlanks(s)|];
    forall i | 0 <= i < |blanks|
      ensures IsSpace(blanks[i])
    {
      assert IsBlank(s[i]);
    }
  }

  lemma Joined(x: string, before: string, word: string, after: string, y: string)
    ensures x + (before + (word + (after + y))) == x + before + word + after + y
  {}

  /** The parts of a block header. */
  lemma HeaderParts(text: string, name: string) returns (before: string, word: string, after: string)
    requires HeaderMatches(text, name)
    ensures text == ['{', '{'] + before + word + after + ['}', '}'] && EqualsIgnoreCase(word, name)
    ensures forall i | 0 <= i < |before| :: IsSpace(before[i])
    ensures forall i | 0 <= i < |after| :: IsSpace(after[i])
  {
    hide EqualsIgnoreCase, SkipBlanks, IsSpace;
    var named := SkipBlanks(text[2..]);
    before := BlanksAreSpaces(text[2..]);
    word := named[..|name|];
    after := BlanksAreSpaces(named[|name|..]);
    assert named == word + (after + ['}', '}']);
    assert text == ['{', '{'] + text[2..];
    Joined(['{', '{'], before, word, after, ['}', '}']);
  }

  /** A block header in the eyes of the editor is one in the eyes of the loader. */
  lemma HeaderIsBlock(text: string, name: string)
    requires HeaderMatches(text, name) && LowerCaseWord(name)
    ensures |text| >= 5 && text[|text| - 1] == '}' && text[|text| - 2] == '}'
    ensures EqualsIgnoreCase(Chomp(text[2..|text| - 2]), name)
  {
    hide EqualsIgnoreCase, Chomp, HeaderMatches;
    var before, word, after := HeaderParts(text, name);
    ChompOfWord(before, word, after, name);
    assert text[2..|text| - 2] == before + word + after;
  }

  // ----- Editor and loader agree -----------------------------------------------------------

  /** What the loader demands of a line on top of what the editor demands. */
  ghost predicate Loads(line: Typed, text: string, judge: Judge) {
    match line.kind
    case Url => judge.isPattern(text)
    case SettingsEntry => judge.supported(text)
    case AliasEntry => SplitOnEquals(text).Some? && SplitOnEquals(text).value.value != []
    case _ => true
  }

  /** The actions of a header end, once trimmed, in no other whitespace than the editor knows, and the
      loader's buffer holds the actions of an alias. */
  ghost predicate ReadAlike(line: Typed, text: string) {
    match line.kind
    case ActionHeader => |text| >= 2 ==> Trimmed(TrimBlanks(text[1..|text| - 1]))
    case AliasEntry => SplitOnEquals(text).Some? ==> |SplitOnEquals(text).value.value| < BUFFER_SIZE
    case _ => true
  }

  /** That is exactly when both readers give the same text to `get_actions`. */
  lemma SameTextIsParsed(line: Typed, text: string)
    requires line.kind == ActionHeader ==> |text| >= 2
    requires line.kind == AliasEntry ==> SplitOnEquals(text).Some?
    ensures ReadAlike(line, text)
       <==> (line.kind == ActionHeader ==> Chomp(text[1..|text| - 1]) == TrimBlanks(text[1..|text| - 1]))
            && (line.kind == AliasEntry ==>
                 Truncated(SplitOnEquals(text).value.value) == SplitOnEquals(text).value.value)
  {
    hide Chomp, TrimBlanks, SplitOnEquals, Trimmed;
    if line.kind == ActionHeader {
      ChompIsTrimBlanks(text[1..|text| - 1]);
    }
  }

  /** The loader's state after a line. */
  ghost function AfterLine(s: Loaded, line: Typed, text: string): Loaded {
    Loaded(line.next,
           if line.kind == ActionHeader then line.action else s.action,
           if line.kind == Url then s.rules + [Rule(text, s.action)] else s.rules)
  }

  lemma NamesAreWords()
    ensures LowerCaseWord("settings") && LowerCaseWord("description") && LowerCaseWord("alias")
  {}

  lemma BlocksDiffer(name: string)
    ensures !(EqualsIgnoreCase(name, "settings") && EqualsIgnoreCase(name, "description"))
    ensures !(EqualsIgnoreCase(name, "settings") && EqualsIgnoreCase(name, "alias"))
    ensures !(EqualsIgnoreCase(name, "description") && EqualsIgnoreCase(name, "alias"))
  {}

  lemma BlockHeaderAgrees(s: Loaded, text: string)
    requires IsHeader(text) && EditHeader(s.progress, text).Some?
    requires EditHeader(s.progress, text).value.kind != ActionHeader
    ensures LoadHeader(s, text) == Some(AfterLine(s, EditHeader(s.progress, text).value, text))
  {
    hide HeaderMatches, EqualsIgnoreCase, SectionActions, Chomp;
    var name := if |text| >= 4 then Chomp(text[2..|text| - 2]) else [];
    NamesAreWords();
    BlocksDiffer(name);
    match EditHeader(s.progress, text).value.kind
    case SettingsHeader => HeaderIsBlock(text, "settings"); HeaderHasTwoBraces(text, "settings");
    case DescriptionHeader => HeaderIsBlock(text, "description"); HeaderHasTwoBraces(text, "description");
    case AliasHeader => HeaderIsBlock(text, "alias"); HeaderHasTwoBraces(text, "alias");
  }

  lemma HeaderHasTwoBraces(text: string, name: string)
    requires HeaderMatches(text, name)
    ensures |text| >= 2 && text[1] == '{'
  {}

  lemma SectionActionsNeedOneBrace(text: string, aliases: seq<Alias>)
    requires IsHeader(text) && SectionActions(text, aliases).Some?
    ensures |text| >= 2 && text[1] != '{'
  {
    hide GetActions;
  }

  lemma SectionHeaderAgrees(s: Loaded, text: string)
    requires IsHeader(text) && SectionActions(text, s.progress.aliases).Some?
    requires Trimmed(TrimBlanks(text[1..|text| - 1]))
    ensures LoadHeader(s, text) == Some(s.(progress := s.progress.(mode := InActions),
                                           action := SectionActions(text, s.progress.aliases).value))
  {
    hide Chomp, TrimBlanks, GetActions;
    ChompIsTrimBlanks(text[1..|text| - 1]);
  }

  lemma LineAgrees(s: Loaded, text: string, judge: Judge)
    requires text != [] && EditLine(s.progress, text).Some? && ReadAlike(EditLine(s.progress, text).value, text)
    ensures var line := EditLine(s.progress, text).value;
            LoadLine(s, text, judge) == if Loads(line, text, judge) then Some(AfterLine(s, line, text)) else None
  {
    hide LoadHeader, SectionActions, GetActions, HeaderMatches, SplitOnEquals;
    if IsHeader(text) {
      if EditHeader(s.progress, text).value.kind == ActionHeader {
        SectionActionsNeedOneBrace(text, s.progress.aliases);
        SectionHeaderAgrees(s, text);
      } else {
        BlockHeaderAgrees(s, text);
      }
    }
  }

  lemma BlankLine(s: Progress, text: string)
    requires text == []
    ensures EditLine(s, text) == Some(Typed(s, Blank, Neutral()))
  {}

  /** A file that the editor accepts is loaded exactly if its patterns can be compiled, its settings are
      supported and no alias is empty, and the loader then has the editor's rules in the editor's order. */
  lemma {:induction false} LoaderAgrees(s: Loaded, texts: seq<string>, judge: Judge)
    requires EditParse(s.progress, texts).Some?
    requires forall i | 0 <= i < |texts| :: ReadAlike(EditParse(s.progress, texts).value[i], texts[i])
    ensures var typed := EditParse(s.progress, texts).value;
            && (Load(s, texts, judge).Some? <==> forall i | 0 <= i < |texts| :: Loads(typed[i], texts[i], judge))
            && (Load(s, texts, judge).Some? ==>
                 Load(s, texts, judge).value.rules == s.rules + RulesOf(typed, texts, s.action))
    decreases |texts|
  {
    hide LoadLine, EditLine, Loads, ReadAlike;
    if texts != [] {
      var typed := EditParse(s.progress, texts).value;
      var line, text := typed[0], texts[0];
      var next := AfterLine(s, line, text);
      if text == [] {
        BlankLine(s.progress, text);
        BlankLoads(line, text, judge);
      } else {
        LineAgrees(s, text, judge);
      }
      if text == [] || Loads(line, text, judge) {
        LoaderAgrees(next, texts[1..], judge);
        assert typed[1..] == EditParse(next.progress, texts[1..]).value;
      }
    }
  }

  lemma BlankLoads(line: Typed, text: string, judge: Judge)
    requires line.kind == Blank
    ensures Loads(line, text, judge)
  {}

  // ----- The mode of the loader ---------------------------------------------------------------

  lemma LineKeepsMode(s: Loaded, buf: string, judge: Judge)
    requires buf != [] && LoadLine(s, buf, judge).Some?
    ensures s.progress.mode.Rank() <= LoadLine(s, buf, judge).value.progress.mode.Rank()
  {
    hide GetActions, SplitOnEquals, Chomp, EqualsIgnoreCase;
  }

  lemma {:induction false} LoadInTwo(s: Loaded, front: seq<string>, back: seq<string>, judge: Judge)
    ensures Load(s, front + back, judge)
         == if Load(s, front, judge).None? then None else Load(Load(s, front, judge).value, back, judge)
    decreases |front|
  {
    hide LoadLine;
    if front == [] {
      assert front + back == back;
    } else {
      assert (front + back)[1..] == front[1..] + back;
      if front[0] == [] {
        LoadInTwo(s, front[1..], back, judge);
      } else if LoadLine(s, front[0], judge).Some? {
        LoadInTwo(LoadLine(s, front[0], judge).value, front[1..], back, judge);
      }
    }
  }

  /** The mode never decreases while a file is loaded. */
  lemma {:induction false} ModeNeverDecreases(s: Loaded, texts: seq<string>, i: nat, judge: Judge)
    requires i <= |texts| && Load(s, texts, judge).Some?
    ensures Load(s, texts[..i], judge).Some?
    ensures s.progress.mode.Rank() <= Load(s, texts[..i], judge).value.progress.mode.Rank()
         <= Load(s, texts, judge).value.progress.mode.Rank()
    decreases |texts|, i
  {
    hide LoadLine;
    assert texts[..i] + texts[i..] == texts;
    LoadInTwo(s, texts[..i], texts[i..], judge);
    LoadKeepsMode(s, texts[..i], judge);
    LoadKeepsMode(Load(s, texts[..i], judge).value, texts[i..], judge);
  }

  lemma {:induction false} LoadKeepsMode(s: Loaded, texts: seq<string>, judge: Judge)
    requires Load(s, texts, judge).Some?
    ensures s.progress.mode.Rank() <= Load(s, texts, judge).value.progress.mode.Rank()
    decreases |texts|
  {
    hide LoadLine;
    if texts != [] {
      if texts[0] == [] {
        LoadKeepsMode(s, texts[1..], judge);
      } else {
        LineKeepsMode(s, texts[0], judge);
        LoadKeepsMode(LoadLine(s, texts[0], judge).value, texts[1..], judge);
      }
    }
  }
}
