/** Two files that editor and loader both accept and read differently: one with an
    alias too long for the loader's buffer, one with whitespace that only the
    loader trims. */
module ActionsFileDisagreement {
  import opened Text
  import opened StringLists
  import opened Bits
  import opened Actions
  import opened ActionTable
  import opened ActionParser
  import opened ActionTokens
  import opened ActionText
  import opened ActionsFileText

  // ----- Lines of one or two names -----------------------------------------------

  function Blanks(n: nat): string {
    seq(n, _ => ' ')
  }

  lemma {:induction false} BlanksAreSkipped(n: nat, s: string)
    ensures SkipBlanks(Blanks(n) + s) == SkipBlanks(s)
  {
    if n == 0 {
      assert Blanks(0) + s == s;
    } else {
      BlanksAreSkipped(n - 1, s);
      assert (Blanks(n) + s)[1..] == Blanks(n - 1) + s;
    }
  }

  lemma BlanksBefore(n: nat, s: string)
    ensures NextToken(Blanks(n) + s) == NextToken(s)
  {
    hide SkipBlanks, ScanValue, NameLength;
    BlanksAreSkipped(n, s);
  }

  ghost predicate Word(name: string) {
    name != [] && forall i | 0 <= i < |name| :: !EndsName(name[i])
  }

  /** A name at the start of a line, with nothing or a blank behind it. */
  lemma WordComesFirst(name: string, rest: string)
    requires Word(name) && (rest == [] || IsBlank(rest[0]))
    ensures NextToken(name + rest) == Got(Token(name, None), if rest == [] then [] else rest[1..])
  {
    hide ScanValue;
    var s := name + rest;
    assert SkipBlanks(s) == s;
    NameLengthIs(s, |name|);
    assert s[..|name|] == name && (rest == [] ==> s == name);
    if rest != [] {
      assert s[|name| + 1..] == rest[1..];
    }
  }

  lemma OneWord(spec: Spec, name: string, aliases: seq<Alias>)
    requires Word(name)
    ensures GetActions(spec, name, aliases) == ParseToken(spec, Token(name, None), aliases)
  {
    hide NextToken, ParseToken;
    WordComesFirst(name, []);
    assert name + [] == name;
    NothingIsLeft();
  }

  lemma NothingIsLeft()
    ensures NextToken([]) == End
  {}

  /** A flag that is switched on or off by name. */
  lemma FlagWord(spec: Spec, i: nat, plus: bool, aliases: seq<Alias>)
    requires i < DEFINITION_COUNT && DefinitionAt(i).BoolLine?
    ensures Word(SignedName(i, plus))
    ensures ParseToken(spec, Token(SignedName(i, plus), None), aliases)
         == Ok(UpdateFlags(spec, if plus then PlusEntry(DefinitionAt(i)) else MinusEntry(DefinitionAt(i))))
  {
    hide DefinitionAt, FindEntry, EqualsIgnoreCase, UpdateFlags;
    PrintedNameIsClean(i);
    FindFrom(i, plus, 0);
  }

  /** The flag of a line after its name with either sign. */
  lemma FlagAfter(spec: Spec, i: nat, plus: bool)
    requires i < DEFINITION_COUNT && DefinitionAt(i).BoolLine?
    ensures var entry := if plus then PlusEntry(DefinitionAt(i)) else MinusEntry(DefinitionAt(i));
            On(UpdateFlags(spec, entry).add, DefinitionAt(i).bit) == plus
  {
    hide DefinitionAt, On, MergeAdd, MergeMask, Flag, Complement;
    var bit := DefinitionAt(i).bit;
    OnFlag(bit, bit);
    OnMerge(spec.add, if plus then MASK_ALL else Complement(Flag(bit)), if plus then Flag(bit) else 0, bit);
  }

  /** A flag switched off and, after some blanks, on again. */
  function OffAndOn(i: nat, n: nat): string
    requires i < DEFINITION_COUNT
  {
    SignedName(i, false) + (Blanks(n) + SignedName(i, true))
  }

  lemma OffAndOnIsOn(i: nat, n: nat, aliases: seq<Alias>)
    requires i < DEFINITION_COUNT && DefinitionAt(i).BoolLine? && n > 0
    ensures var result := GetActions(Neutral(), OffAndOn(i, n), aliases);
            result.Ok? && On(result.value.add, DefinitionAt(i).bit)
  {
    hide DefinitionAt, SignedName, NextToken, ParseToken, UpdateFlags, On;
    var off, on, rest := SignedName(i, false), SignedName(i, true), Blanks(n) + SignedName(i, true);
    FlagWord(Neutral(), i, false, aliases);
    WordComesFirst(off, rest);
    assert rest[1..] == Blanks(n - 1) + on;
    var spec := UpdateFlags(Neutral(), MinusEntry(DefinitionAt(i)));
    FlagWord(spec, i, true, aliases);
    BlanksBefore(n - 1, on);
    SameFirstToken(spec, Blanks(n - 1) + on, on, aliases);
    OneWord(spec, on, aliases);
    FlagAfter(spec, i, true);
  }

  lemma SameFirstToken(spec: Spec, line: string, other: string, aliases: seq<Alias>)
    requires NextToken(line) == NextToken(other)
    ensures GetActions(spec, line, aliases) == GetActions(spec, other, aliases)
  {
    hide NextToken, ParseToken;
  }

  lemma OffIsOff(i: nat, n: nat, aliases: seq<Alias>)
    requires i < DEFINITION_COUNT && DefinitionAt(i).BoolLine? && n > 0
    ensures var result := GetActions(Neutral(), SignedName(i, false) + Blanks(n), aliases);
            result.Ok? && !On(result.value.add, DefinitionAt(i).bit)
  {
    hide DefinitionAt, SignedName, NextToken, ParseToken, UpdateFlags, On;
    var spec := UpdateFlags(Neutral(), MinusEntry(DefinitionAt(i)));
    FlagWord(Neutral(), i, false, aliases);
    WordComesFirst(SignedName(i, false), Blanks(n));
    assert Blanks(n)[1..] == Blanks(n - 1) + [];
    BlanksBefore(n - 1, []);
    NothingIsLeft();
    FlagAfter(Neutral(), i, false);
  }

  // ----- Aliases ------------------------------------------------------------------------

  lemma {:induction false} UnsignedIsNoEntry(option: string, k: nat)
    requires option != [] && option[0] != '+' && option[0] != '-' && k <= ENTRY_COUNT
    ensures FindEntry(option, k).None?
    decreases ENTRY_COUNT - k
  {
    hide EntryAt, EqualsIgnoreCase;
    if k < ENTRY_COUNT {
      EntryIsSigned(k);
      assert EntryAt(k).name[0] == Lower(EntryAt(k).name[0]) != Lower(option[0]);
      UnsignedIsNoEntry(option, k + 1);
    }
  }

  lemma EntryIsSigned(k: nat)
    requires k < ENTRY_COUNT
    ensures EntryAt(k).name != [] && EntryAt(k).name[0] in {'+', '-'}
  {
    hide LineAt, Flag, Complement;
  }

  /** A line that is the name of an alias. */
  lemma AliasWord(name: string, aliases: seq<Alias>)
    requires Word(name) && name[0] != '+' && name[0] != '-' && FindAlias(aliases, name).Some?
    ensures GetActions(Neutral(), name, aliases) == Ok(Merge(Neutral(), FindAlias(aliases, name).value))
  {
    hide FindEntry, Merge, EqualsIgnoreCase, FindAlias;
    OneWord(Neutral(), name, aliases);
    UnsignedIsNoEntry(name, 0);
  }

  lemma MergedFlag(spec: Spec, bit: nat)
    requires bit < BITS
    ensures On(Merge(Neutral(), spec).add, bit) == On(spec.add, bit)
  {
    hide On, MergeAdd, MergeMask;
    OnMerge(0, spec.mask, spec.add, bit);
    OnFlag(bit, bit);
  }

  lemma {:induction false} SignIsAt(name: string, value: string)
    requires '=' !in name
    ensures EqualsSign(name + ['='] + value) == |name|
  {
    if name != [] {
      assert (name + ['='] + value)[1..] == name[1..] + ['='] + value;
      SignIsAt(name[1..], value);
    }
  }

  lemma SettingIsSplit(name: string, value: string)
    requires name != [] && '=' !in name && !IsBlank(name[|name| - 1]) && (value != [] ==> !IsBlank(value[0]))
    ensures SplitOnEquals(name + ['='] + value) == Some(Setting(name, value))
  {
    hide EqualsSign;
    var line := name + ['='] + value;
    SignIsAt(name, value);
    assert line[..|name|] == name && line[|name| + 1..] == value;
  }

  // ----- Files with an alias block and one section -----------------------------------------

  const ALIAS_HEADER: string := ['{', '{', 'a', 'l', 'i', 'a', 's', '}', '}']

  lemma AliasHeaderMatches()
    ensures HeaderMatches(ALIAS_HEADER, "alias")
    ensures !HeaderMatches(ALIAS_HEADER, "settings") && !HeaderMatches(ALIAS_HEADER, "description")
  {
    assert SkipBlanks(ALIAS_HEADER[2..]) == ALIAS_HEADER[2..];
    assert ALIAS_HEADER[2..][5..] == ['}', '}'];
  }

  lemma AliasHeaderIsRead(judge: Judge)
    ensures EditLine(START, ALIAS_HEADER) == Plain(Progress(InAliases, []), AliasHeader)
    ensures LoadLine(NothingLoaded(), ALIAS_HEADER, judge) == Some(Loaded(Progress(InAliases, []), Neutral(), []))
  {
    hide HeaderMatches;
    AliasHeaderMatches();
    LineAgrees(NothingLoaded(), ALIAS_HEADER, judge);
  }

  /** How the editor reads the definition of an alias. */
  lemma AliasIsEdited(s: Progress, d: Setting, spec: Spec)
    requires s.mode == InAliases && PlainSetting(d) && GetActions(Neutral(), d.value, s.aliases) == Ok(spec)
    ensures EditLine(s, LineOf(d)) == Plain(s.(aliases := [Alias(d.name, spec)] + s.aliases), AliasEntry)
  {
    hide GetActions, SplitOnEquals;
  }

  /** How the loader reads it. */
  lemma AliasIsLoaded(s: Loaded, d: Setting, spec: Spec, judge: Judge)
    requires s.progress.mode == InAliases && PlainSetting(d)
    requires GetActions(Neutral(), Truncated(d.value), s.progress.aliases) == Ok(spec)
    ensures LoadLine(s, LineOf(d), judge)
         == Some(s.(progress := s.progress.(aliases := [Alias(d.name, spec)] + s.progress.aliases)))
  {
    hide GetActions, SplitOnEquals, Truncated;
  }

  ghost predicate SectionHeader(header: string) {
    |header| >= 2 && header[0] == '{' && header[1] != '{' && header[|header| - 1] == '}'
  }

  function Inner(header: string): string
    requires |header| >= 2
  {
    header[1..|header| - 1]
  }

  const PATTERN: string := ['x']

  lemma SectionIsEdited(s: Progress, header: string, spec: Spec)
    requires SectionHeader(header) && GetActions(Neutral(), TrimBlanks(Inner(header)), s.aliases) == Ok(spec)
    ensures var next := s.(mode := InActions);
            EditParse(s, [header, PATTERN]) == Some([Typed(next, ActionHeader, spec), Typed(next, Url, Neutral())])
  {
    hide GetActions, TrimBlanks, HeaderMatches, SplitOnEquals;
    var next := s.(mode := InActions);
    NoBlockHeader(header);
    assert EditLine(s, header) == Some(Typed(next, ActionHeader, spec));
    assert EditLine(next, PATTERN) == Some(Typed(next, Url, Neutral()));
    OneMoreLine(next, PATTERN, Typed(next, Url, Neutral()), []);
    OneMoreLine(s, header, Typed(next, ActionHeader, spec), [PATTERN]);
    var first, second := Typed(next, ActionHeader, spec), Typed(next, Url, Neutral());
    assert [second] + [] == [second] && [first] + [second] == [first, second];
    assert [PATTERN] + [] == [PATTERN] && [header] + [PATTERN] == [header, PATTERN];
  }

  lemma NoBlockHeader(header: string)
    requires SectionHeader(header)
    ensures !HeaderMatches(header, "settings") && !HeaderMatches(header, "description")
    ensures !HeaderMatches(header, "alias")
  {}

  lemma SectionIsLoaded(s: Loaded, header: string, spec: Spec, judge: Judge)
    requires SectionHeader(header) && GetActions(Neutral(), Chomp(Inner(header)), s.progress.aliases) == Ok(spec)
    requires judge.isPattern(PATTERN)
    ensures var next := Loaded(s.progress.(mode := InActions), spec, s.rules + [Rule(PATTERN, spec)]);
            Load(s, [header, PATTERN], judge) == Some(next)
  {
    hide GetActions, Chomp, SplitOnEquals;
    var next := Loaded(s.progress.(mode := InActions), spec, s.rules);
    assert LoadLine(s, header, judge) == Some(next);
    assert LoadLine(next, PATTERN, judge) == Some(next.(rules := s.rules + [Rule(PATTERN, spec)]));
    OneMoreLoaded(next, PATTERN, next.(rules := s.rules + [Rule(PATTERN, spec)]), [], judge);
    OneMoreLoaded(s, header, next, [PATTERN], judge);
    assert [PATTERN] + [] == [PATTERN] && [header] + [PATTERN] == [header, PATTERN];
  }

  lemma OneMoreLine(s: Progress, text: string, line: Typed, rest: seq<string>)
    requires EditLine(s, text) == Some(line) && EditParse(line.next, rest).Some?
    ensures EditParse(s, [text] + rest) == Some([line] + EditParse(line.next, rest).value)
  {
    hide EditLine;
    assert ([text] + rest)[1..] == rest;
  }

  lemma OneMoreLoaded(s: Loaded, text: string, next: Loaded, rest: seq<string>, judge: Judge)
    requires text != [] && LoadLine(s, text, judge) == Some(next)
    ensures Load(s, [text] + rest, judge) == Load(next, rest, judge)
  {
    hide LoadLine;
    assert ([text] + rest)[1..] == rest;
  }

  lemma RulesOfOneMore(line: Typed, text: string, typed: seq<Typed>, texts: seq<string>, action: Spec)
    requires |typed| == |texts| && line.kind != ActionHeader && line.kind != Url
    ensures RulesOf([line] + typed, [text] + texts, action) == RulesOf(typed, texts, action)
  {
    assert ([line] + typed)[1..] == typed && ([text] + texts)[1..] == texts;
  }

  lemma RulesOfSection(s: Progress, header: string, spec: Spec, action: Spec)
    ensures RulesOf([Typed(s, ActionHeader, spec), Typed(s, Url, Neutral())], [header, PATTERN], action)
         == [Rule(PATTERN, spec)]
  {
    var typed, texts := [Typed(s, ActionHeader, spec), Typed(s, Url, Neutral())], [header, PATTERN];
    assert typed[1..] == [Typed(s, Url, Neutral())] && texts[1..] == [PATTERN];
    assert typed[1..][1..] == [] && texts[1..][1..] == [];
    assert RulesOf(typed[1..], texts[1..], spec) == [Rule(PATTERN, spec)];
  }

  const ALIAS: string := ['a']
  const VT: char := '\U{0B}'

  /** A name between braces, as the editor and the loader trim it. */
  lemma NamesAreTrimmed()
    ensures TrimBlanks(ALIAS) == ALIAS && Chomp(ALIAS) == ALIAS
    ensures TrimBlanks(ALIAS + [VT]) == ALIAS + [VT] && Chomp(ALIAS + [VT]) == ALIAS
    ensures Word(ALIAS) && Word(ALIAS + [VT])
  {
    assert (ALIAS + [VT])[..1] == ALIAS;
  }

  function Braced(name: string): string {
    ['{'] + name + ['}']
  }

  lemma BracedIsHeader(name: string)
    requires name != [] && name[0] != '{'
    ensures SectionHeader(Braced(name)) && Inner(Braced(name)) == name
  {}

  // ----- A file with an alias block and one section --------------------------------------------

  ghost predicate PlainSetting(d: Setting) {
    && d.name != [] && d.name[0] != '{' && d.name[0] != '=' && d.value != []
    && SplitOnEquals(LineOf(d)) == Some(d)
  }

  function LineOf(d: Setting): string {
    d.name + ['='] + d.value
  }

  function LinesOf(defs: seq<Setting>): seq<string> {
    if defs == [] then [] else [LineOf(defs[0])] + LinesOf(defs[1..])
  }

  /** The aliases after some definitions, whose values may be cut to the loader's buffer. */
  function DefineAll(aliases: seq<Alias>, defs: seq<Setting>, cut: bool): Option<seq<Alias>>
    decreases |defs|
  {
    if defs == [] then Some(aliases)
    else
      match GetActions(Neutral(), if cut then Truncated(defs[0].value) else defs[0].value, aliases)
      case Ok(spec) => DefineAll([Alias(defs[0].name, spec)] + aliases, defs[1..], cut)
      case _ => None
  }

  /** The rules the editor finds in a block of aliases and one section. */
  lemma {:induction false} BlockIsEdited(s: Progress, defs: seq<Setting>, header: string, result: Spec, action: Spec)
    requires s.mode == InAliases && SectionHeader(header) && forall i | 0 <= i < |defs| :: PlainSetting(defs[i])
    requires DefineAll(s.aliases, defs, false).Some?
    requires GetActions(Neutral(), TrimBlanks(Inner(header)), DefineAll(s.aliases, defs, false).value) == Ok(result)
    ensures var texts := LinesOf(defs) + [header, PATTERN];
            && EditParse(s, texts).Some?
            && RulesOf(EditParse(s, texts).value, texts, action) == [Rule(PATTERN, result)]
    decreases |defs|
  {
    hide GetActions, SplitOnEquals, EditLine, EditParse, RulesOf, TrimBlanks, HeaderMatches, SectionHeader, LineOf;
    if defs == [] {
      SectionIsEdited(s, header, result);
      RulesOfSection(s.(mode := InActions), header, result, action);
      assert LinesOf(defs) + [header, PATTERN] == [header, PATTERN];
    } else {
      var d, rest := defs[0], LinesOf(defs[1..]) + [header, PATTERN];
      var spec := GetActions(Neutral(), d.value, s.aliases).value;
      var next := s.(aliases := [Alias(d.name, spec)] + s.aliases);
      AliasIsEdited(s, d, spec);
      BlockIsEdited(next, defs[1..], header, result, action);
      OneMoreLine(s, LineOf(d), Typed(next, AliasEntry, Neutral()), rest);
      RulesOfOneMore(Typed(next, AliasEntry, Neutral()), LineOf(d), EditParse(next, rest).value, rest, action);
      assert LinesOf(defs) + [header, PATTERN] == [LineOf(d)] + rest;
    }
  }

  /** The rules the loader finds in it. */
  lemma {:induction false} BlockIsLoaded(s: Loaded, defs: seq<Setting>, header: string, result: Spec, judge: Judge)
    requires s.progress.mode == InAliases && SectionHeader(header)
    requires forall i | 0 <= i < |defs| :: PlainSetting(defs[i])
    requires DefineAll(s.progress.aliases, defs, true).Some? && judge.isPattern(PATTERN)
    requires GetActions(Neutral(), Chomp(Inner(header)), DefineAll(s.progress.aliases, defs, true).value) == Ok(result)
    ensures var texts := LinesOf(defs) + [header, PATTERN];
            Load(s, texts, judge).Some? && Load(s, texts, judge).value.rules == s.rules + [Rule(PATTERN, result)]
    decreases |defs|
  {
    hide GetActions, SplitOnEquals, LoadLine, Load, Chomp, Truncated, SectionHeader, LineOf;
    if defs == [] {
      SectionIsLoaded(s, header, result, judge);
      assert LinesOf(defs) + [header, PATTERN] == [header, PATTERN];
    } else {
      var d, rest := defs[0], LinesOf(defs[1..]) + [header, PATTERN];
      var spec := GetActions(Neutral(), Truncated(d.value), s.progress.aliases).value;
      var next := s.(progress := s.progress.(aliases := [Alias(d.name, spec)] + s.progress.aliases));
      AliasIsLoaded(s, d, spec, judge);
      BlockIsLoaded(next, defs[1..], header, result, judge);
      LineIsNotBlank(d);
      OneMoreLoaded(s, LineOf(d), next, rest, judge);
      assert LinesOf(defs) + [header, PATTERN] == [LineOf(d)] + rest;
    }
  }

  lemma LineIsNotBlank(d: Setting)
    ensures LineOf(d) != []
  {}

  /** A whole file: the header of the alias block, the definitions, a section with one pattern. */
  function AliasFile(defs: seq<Setting>, header: string): seq<string> {
    [ALIAS_HEADER] + (LinesOf(defs) + [header, PATTERN])
  }

  lemma FileIsReadTwice(defs: seq<Setting>, header: string, edited: Spec, loaded: Spec, judge: Judge)
    requires SectionHeader(header) && (forall i | 0 <= i < |defs| :: PlainSetting(defs[i])) && judge.isPattern(PATTERN)
    requires DefineAll([], defs, false).Some? && DefineAll([], defs, true).Some?
    requires GetActions(Neutral(), TrimBlanks(Inner(header)), DefineAll([], defs, false).value) == Ok(edited)
    requires GetActions(Neutral(), Chomp(Inner(header)), DefineAll([], defs, true).value) == Ok(loaded)
    ensures var texts := AliasFile(defs, header);
            && EditParse(START, texts).Some? && Load(NothingLoaded(), texts, judge).Some?
            && RulesOf(EditParse(START, texts).value, texts, Neutral()) == [Rule(PATTERN, edited)]
            && Load(NothingLoaded(), texts, judge).value.rules == [Rule(PATTERN, loaded)]
  {
    hide GetActions, EditLine, EditParse, RulesOf, TrimBlanks, LoadLine, Load, Chomp, DefineAll, PlainSetting;
    hide SectionHeader;
    var first, rest := Progress(InAliases, []), LinesOf(defs) + [header, PATTERN];
    AliasHeaderIsRead(judge);
    BlockIsEdited(first, defs, header, edited, Neutral());
    OneMoreLine(START, ALIAS_HEADER, Typed(first, AliasHeader, Neutral()), rest);
    RulesOfOneMore(Typed(first, AliasHeader, Neutral()), ALIAS_HEADER, EditParse(first, rest).value, rest, Neutral());
    BlockIsLoaded(Loaded(first, Neutral(), []), defs, header, loaded, judge);
    OneMoreLoaded(NothingLoaded(), ALIAS_HEADER, Loaded(first, Neutral(), []), rest, judge);
  }

  // ----- An alias that is too long for the loader ---------------------------------------------

  /** The line of "force-text-mode". */
  const FLAG_LINE: nat := 19

  lemma FlagLine()
    ensures DefinitionAt(FLAG_LINE).BoolLine? && |DefinitionAt(FLAG_LINE).name| == 15
  {}

  /** An alias that switches a flag off and, 5000 blanks later, on. */
  function LongAlias(): Setting {
    Setting(ALIAS, OffAndOn(FLAG_LINE, BUFFER_SIZE))
  }

  lemma SignedIsPlain(name: string, i: nat, plus: bool, rest: string)
    requires i < DEFINITION_COUNT && name != [] && '=' !in name && name[0] != '{' && !IsBlank(name[|name| - 1])
    ensures PlainSetting(Setting(name, SignedName(i, plus) + rest))
  {
    hide DefinitionAt, SplitOnEquals;
    SettingIsSplit(name, SignedName(i, plus) + rest);
  }

  lemma LongAliasIsCut() returns (whole: Spec, cut: Spec)
    ensures DefinitionAt(FLAG_LINE).BoolLine? && PlainSetting(LongAlias())
    ensures GetActions(Neutral(), LongAlias().value, []) == Ok(whole) && On(whole.add, DefinitionAt(FLAG_LINE).bit)
    ensures GetActions(Neutral(), Truncated(LongAlias().value), []) == Ok(cut)
    ensures !On(cut.add, DefinitionAt(FLAG_LINE).bit)
  {
    hide DefinitionAt, GetActions, On, PlainSetting;
    FlagLine();
    var value, name := LongAlias().value, SignedName(FLAG_LINE, false);
    SignedIsPlain(ALIAS, FLAG_LINE, false, Blanks(BUFFER_SIZE) + SignedName(FLAG_LINE, true));
    OffAndOnIsOn(FLAG_LINE, BUFFER_SIZE, []);
    whole := GetActions(Neutral(), value, []).value;
    var n := BUFFER_SIZE - 1 - |name|;
    assert Truncated(value) == name + Blanks(n);
    OffIsOff(FLAG_LINE, n, []);
    cut := GetActions(Neutral(), name + Blanks(n), []).value;
  }

  lemma OneDefinition(aliases: seq<Alias>, d: Setting, cut: bool, spec: Spec)
    requires GetActions(Neutral(), if cut then Truncated(d.value) else d.value, aliases) == Ok(spec)
    ensures DefineAll(aliases, [d], cut) == Some([Alias(d.name, spec)] + aliases)
  {
    hide GetActions, Truncated;
    assert [d][1..] == [];
  }

  /** The loader cuts the alias: both readers accept the file and give its only pattern different actions. */
  lemma LongAliasIsReadDifferently(judge: Judge) returns (edited: Spec, loaded: Spec)
    requires judge.isPattern(PATTERN)
    ensures DefinitionAt(FLAG_LINE).BoolLine?
    ensures var texts, bit := AliasFile([LongAlias()], Braced(ALIAS)), DefinitionAt(FLAG_LINE).bit;
            && EditParse(START, texts).Some? && Load(NothingLoaded(), texts, judge).Some?
            && RulesOf(EditParse(START, texts).value, texts, Neutral()) == [Rule(PATTERN, edited)]
            && Load(NothingLoaded(), texts, judge).value.rules == [Rule(PATTERN, loaded)]
            && On(edited.add, bit) && !On(loaded.add, bit)
  {
    hide DefinitionAt, GetActions, On, EditParse, Load, RulesOf, LongAlias, Truncated, Merge, TrimBlanks, Chomp;
    hide DefineAll;
    hide SectionHeader, Word, PlainSetting, FindAlias;
    var whole, cut := LongAliasIsCut();
    NamesAreTrimmed();
    BracedIsHeader(ALIAS);
    edited, loaded := Merge(Neutral(), whole), Merge(Neutral(), cut);
    LongAliasName();
    OneDefinition([], LongAlias(), false, whole);
    OneDefinition([], LongAlias(), true, cut);
    NamedFirst(ALIAS, whole, []);
    NamedFirst(ALIAS, cut, []);
    AliasWord(ALIAS, [Alias(ALIAS, whole)] + []);
    AliasWord(ALIAS, [Alias(ALIAS, cut)] + []);
    FileIsReadTwice([LongAlias()], Braced(ALIAS), edited, loaded, judge);
    MergedFlag(whole, DefinitionAt(FLAG_LINE).bit);
    MergedFlag(cut, DefinitionAt(FLAG_LINE).bit);
  }

  lemma LongAliasName()
    ensures LongAlias().name == ALIAS
  {}

  lemma NamedFirst(name: string, spec: Spec, others: seq<Alias>)
    ensures FindAlias([Alias(name, spec)] + others, name) == Some(spec)
  {
    SameName(name);
  }

  // ----- Whitespace that only the loader trims ---------------------------------------------------

  /** Two aliases, one with a vertical tab at the end of its name. */
  function TabbedAliases(): seq<Setting> {
    [Setting(ALIAS + [VT], SignedName(FLAG_LINE, true)), Setting(ALIAS, SignedName(FLAG_LINE, false))]
  }

  lemma TabbedIsDefined(cut: bool) returns (on: Spec, off: Spec)
    ensures DefinitionAt(FLAG_LINE).BoolLine? && forall i | 0 <= i < 2 :: PlainSetting(TabbedAliases()[i])
    ensures DefineAll([], TabbedAliases(), cut) == Some([Alias(ALIAS, off)] + [Alias(ALIAS + [VT], on)])
    ensures On(on.add, DefinitionAt(FLAG_LINE).bit) && !On(off.add, DefinitionAt(FLAG_LINE).bit)
  {
    hide DefinitionAt, GetActions, On, PlainSetting, DefineAll, Word, ParseToken, UpdateFlags;
    FlagLine();
    var defs, d := TabbedAliases(), DefinitionAt(FLAG_LINE);
    on, off := UpdateFlags(Neutral(), PlusEntry(d)), UpdateFlags(Neutral(), MinusEntry(d));
    var first := [Alias(ALIAS + [VT], on)];
    FlagWord(Neutral(), FLAG_LINE, true, []);
    FlagWord(Neutral(), FLAG_LINE, false, first);
    OneWord(Neutral(), SignedName(FLAG_LINE, true), []);
    OneWord(Neutral(), SignedName(FLAG_LINE, false), first);
    FlagAfter(Neutral(), FLAG_LINE, true);
    FlagAfter(Neutral(), FLAG_LINE, false);
    assert SignedName(FLAG_LINE, true) + [] == SignedName(FLAG_LINE, true);
    assert SignedName(FLAG_LINE, false) + [] == SignedName(FLAG_LINE, false);
    SignedIsPlain(ALIAS + [VT], FLAG_LINE, true, []);
    SignedIsPlain(ALIAS, FLAG_LINE, false, []);
    OneDefinition(first, defs[1], cut, off);
    assert first + [] == first && defs[1..] == [defs[1]];
    FirstDefinition([], defs, cut, on);
  }

  lemma FirstDefinition(aliases: seq<Alias>, defs: seq<Setting>, cut: bool, spec: Spec)
    requires defs != []
    requires GetActions(Neutral(), if cut then Truncated(defs[0].value) else defs[0].value, aliases) == Ok(spec)
    ensures DefineAll(aliases, defs, cut) == DefineAll([Alias(defs[0].name, spec)] + aliases, defs[1..], cut)
  {
    hide GetActions, Truncated;
  }

  /** The loader trims the vertical tab: both readers accept the file and give its only pattern different actions. */
  lemma TabbedNameIsReadDifferently(judge: Judge) returns (edited: Spec, loaded: Spec)
    requires judge.isPattern(PATTERN)
    ensures DefinitionAt(FLAG_LINE).BoolLine?
    ensures var texts, bit := AliasFile(TabbedAliases(), Braced(ALIAS + [VT])), DefinitionAt(FLAG_LINE).bit;
            && EditParse(START, texts).Some? && Load(NothingLoaded(), texts, judge).Some?
            && RulesOf(EditParse(START, texts).value, texts, Neutral()) == [Rule(PATTERN, edited)]
            && Load(NothingLoaded(), texts, judge).value.rules == [Rule(PATTERN, loaded)]
            && On(edited.add, bit) && !On(loaded.add, bit)
  {
    hide DefinitionAt, GetActions, On, EditParse, Load, RulesOf, Merge, TrimBlanks, Chomp, DefineAll, TabbedAliases;
    hide SectionHeader, Word, PlainSetting, FindAlias;
    var on, off := TabbedIsDefined(false);
    var on', off' := TabbedIsDefined(true);
    NamesAreTrimmed();
    BracedIsHeader(ALIAS + [VT]);
    edited, loaded := Merge(Neutral(), on), Merge(Neutral(), off');
    NamedSecond(off, on);
    NamedFirst(ALIAS, off', [Alias(ALIAS + [VT], on')]);
    AliasWord(ALIAS + [VT], [Alias(ALIAS, off)] + [Alias(ALIAS + [VT], on)]);
    AliasWord(ALIAS, [Alias(ALIAS, off')] + [Alias(ALIAS + [VT], on')]);
    TwoTabbed();
    FileIsReadTwice(TabbedAliases(), Braced(ALIAS + [VT]), edited, loaded, judge);
    MergedFlag(on, DefinitionAt(FLAG_LINE).bit);
    MergedFlag(off', DefinitionAt(FLAG_LINE).bit);
  }

  lemma TwoTabbed()
    ensures |TabbedAliases()| == 2
  {}

  lemma NamedSecond(first: Spec, second: Spec)
    ensures FindAlias([Alias(ALIAS, first)] + [Alias(ALIAS + [VT], second)], ALIAS + [VT]) == Some(second)
  {
    SameName(ALIAS + [VT]);
    assert ([Alias(ALIAS, first)] + [Alias(ALIAS + [VT], second)])[1..] == [Alias(ALIAS + [VT], second)];
  }
}
