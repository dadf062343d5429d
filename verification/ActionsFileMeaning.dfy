/** From the text of an actions file to its effect: a section of a file that the
    parser accepts does what its actions do one by one, with every alias of the
    file written out. */
module ActionsFileMeaning {
  import opened Text
  import opened Actions
  import opened ActionParser
  import opened ActionTokens
  import opened ActionAliases
  import opened ActionsFileText

  /** The tokens of a line, or none if it is malformed. */
  function TokensOf(line: string): seq<Token> {
    if Tokenize(line).Some? then Tokenize(line).value else []
  }

  /** The definitions in the alias block. */
  function AliasLinesOf(texts: seq<string>, typed: seq<Typed>): seq<AliasLine>
    requires |texts| == |typed|
  {
    if texts == [] then []
    else
      var n := |texts| - 1;
      var before := AliasLinesOf(texts[..n], typed[..n]);
      if typed[n].kind != AliasEntry || SplitOnEquals(texts[n]).None? then before
      else before + [AliasLine(SplitOnEquals(texts[n]).value.name, TokensOf(SplitOnEquals(texts[n]).value.value))]
  }

  /** Where the parser stands before a line. */
  function Before(typed: seq<Typed>, i: nat): Progress
    requires i <= |typed|
  {
    if i == 0 then START else typed[i - 1].next
  }

  lemma {:induction false} EachLineIsParsed(s: Progress, texts: seq<string>, i: nat)
    requires EditParse(s, texts).Some? && i < |texts|
    ensures var typed := EditParse(s, texts).value;
            EditLine(if i == 0 then s else typed[i - 1].next, texts[i]) == Some(typed[i])
    decreases |texts|
  {
    hide EditLine;
    if i > 0 {
      var next := EditLine(s, texts[0]).value.next;
      var typed := EditParse(s, texts).value;
      EachLineIsParsed(next, texts[1..], i - 1);
      assert typed[1..] == EditParse(next, texts[1..]).value;
      assert texts[1..][i - 1] == texts[i] && typed[1..][i - 1] == typed[i];
      if i > 1 {
        assert typed[1..][i - 2] == typed[i - 1];
      }
    }
  }

  /** What a line does to the aliases. */
  lemma LineDefines(s: Progress, text: string)
    requires EditLine(s, text).Some?
    ensures var line := EditLine(s, text).value;
            if line.kind == AliasEntry then
              && SplitOnEquals(text).Some? && GetActions(Neutral(), SplitOnEquals(text).value.value, s.aliases).Ok?
              && line.next.aliases == [Alias(SplitOnEquals(text).value.name,
                                             GetActions(Neutral(), SplitOnEquals(text).value.value, s.aliases).value)]
                                       + s.aliases
            else line.next.aliases == s.aliases
  {
    hide GetActions, SplitOnEquals, HeaderMatches, SectionActions;
  }

  /** The aliases the parser knows before a line are those defined above it. */
  lemma {:induction false} AliasesAreDefined(texts: seq<string>, i: nat)
    requires EditParse(START, texts).Some? && i <= |texts|
    ensures var typed := EditParse(START, texts).value;
            DefineAliases(AliasLinesOf(texts[..i], typed[..i])) == Ok(Before(typed, i).aliases)
    decreases i
  {
    hide EditLine, EditParse, GetActions, SplitOnEquals, ParseTokens, Tokenize, DefineAliases;
    var typed := EditParse(START, texts).value;
    if i == 0 {
      NothingDefined(texts, typed);
    } else {
      var n := i - 1;
      AliasesAreDefined(texts, n);
      EachLineIsParsed(START, texts, n);
      LineDefines(Before(typed, n), texts[n]);
      assert texts[..i][..n] == texts[..n] && typed[..i][..n] == typed[..n];
      if typed[n].kind == AliasEntry {
        var setting := SplitOnEquals(texts[n]).value;
        GetActionsOfTokens(Neutral(), setting.value, Before(typed, n).aliases);
        OneMoreAlias(AliasLinesOf(texts[..n], typed[..n]), AliasLine(setting.name, TokensOf(setting.value)));
      }
    }
  }

  lemma NothingDefined(texts: seq<string>, typed: seq<Typed>)
    ensures DefineAliases(AliasLinesOf(texts[..0], typed[..0])) == Ok([])
  {}

  lemma OneMoreAlias(lines: seq<AliasLine>, line: AliasLine)
    requires DefineAliases(lines).Ok? && ParseTokens(Neutral(), line.tokens, DefineAliases(lines).value).Ok?
    ensures DefineAliases(lines + [line])
         == Ok([Alias(line.name, ParseTokens(Neutral(), line.tokens, DefineAliases(lines).value).value)]
             + DefineAliases(lines).value)
  {
    hide ParseTokens;
    assert (lines + [line])[..|lines|] == lines;
  }

  /** Applying the actions of a section is performing the actions its header names, one by one,
      with the aliases that the file defines above it written out. */
  lemma SectionMeansItsExpansion(texts: seq<string>, i: nat, current: Current)
    requires EditParse(START, texts).Some? && i < |texts| && EditParse(START, texts).value[i].kind == ActionHeader
    ensures |texts[i]| >= 2
    ensures var typed := EditParse(START, texts).value;
            var tokens := TokensOf(TrimBlanks(texts[i][1..|texts[i]| - 1]));
            var written := Expand(tokens, AliasLinesOf(texts[..i], typed[..i]));
            && PerformInTurn(current, written).Some?
            && Similar(Apply(current, typed[i].action), PerformInTurn(current, written).value)
  {
    hide EditLine, EditParse, GetActions, Apply, Similar, Expand, TrimBlanks, Tokenize, ParseTokens, DefineAliases;
    var typed := EditParse(START, texts).value;
    EachLineIsParsed(START, texts, i);
    HeaderHasActions(Before(typed, i), texts[i]);
    AliasesAreDefined(texts, i);
    var line, aliases := TrimBlanks(texts[i][1..|texts[i]| - 1]), Before(typed, i).aliases;
    GetActionsOfTokens(Neutral(), line, aliases);
    AliasesAreMacros(current, TokensOf(line), AliasLinesOf(texts[..i], typed[..i]), aliases, typed[i].action);
  }

  lemma HeaderHasActions(s: Progress, text: string)
    requires EditLine(s, text).Some? && EditLine(s, text).value.kind == ActionHeader
    ensures |text| >= 2
    ensures GetActions(Neutral(), TrimBlanks(text[1..|text| - 1]), s.aliases) == Ok(EditLine(s, text).value.action)
  {
    hide GetActions, SplitOnEquals, HeaderMatches, TrimBlanks;
  }
}
