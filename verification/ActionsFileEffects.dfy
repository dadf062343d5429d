/** What the edits of an actions file do, by the numbers of its lines, and how a setting or an alias is
    cut into name and value. */
module ActionsFileEffects {
  import opened Text
  import opened Actions
  import opened ActionParser
  import opened ActionTokens
  import opened ActionAcceptance
  import opened ActionsFileText
  import opened ActionsFileEdits
  import EditableFiles

  // ----- Settings and aliases ------------------------------------------------------------

  /** `split_line_on_equals` fails exactly if there is no equals sign or nothing stands before it. */
  lemma WhenSplit(line: string)
    ensures SplitOnEquals(line).None? <==> '=' !in line || line[0] == '='
  {
    assert line[..|line|] == line;
  }

  /** It cuts at the first equals sign and drops the blanks on both sides of it. */
  lemma SplitMeans(name: string, before: string, after: string, value: string)
    requires Blanks(before) && Blanks(after) && '=' !in name + before && name + before != []
    requires (name != [] ==> !IsBlank(name[|name| - 1])) && (value != [] ==> !IsBlank(value[0]))
    ensures SplitOnEquals(name + before + ['='] + (after + value)) == Some(Setting(name, value))
  {
    hide IsBlank, DropBlanksAtEnd, SkipBlanks, EqualsSign;
    var line, n := name + before + ['='] + (after + value), |name + before|;
    FirstEquals(name + before, after + value);
    assert line[..n] == name + before && line[n + 1..] == after + value;
    DropBlanksOf(name, before);
    SkipBlanksOf(after, value);
  }

  /** Every line that is split has such parts. */
  lemma SplitParts(line: string) returns (before: string, after: string)
    requires SplitOnEquals(line).Some?
    ensures var Setting(name, value) := SplitOnEquals(line).value;
            && line == name + before + ['='] + (after + value)
            && Blanks(before) && Blanks(after) && '=' !in name + before && name + before != []
            && (name != [] ==> !IsBlank(name[|name| - 1])) && (value != [] ==> !IsBlank(value[0]))
  {
    hide IsBlank, DropBlanksAtEnd, SkipBlanks;
    var n := EqualsSign(line);
    var front, back := line[..n], line[n + 1..];
    before := EndsTrimmed(front);
    after := StartsTrimmed(back);
    assert line == front + ['='] + back;
  }

  ghost predicate Blanks(s: string) {
    forall i | 0 <= i < |s| :: IsBlank(s[i])
  }

  lemma {:induction false} FirstEquals(front: string, rest: string)
    requires '=' !in front
    ensures EqualsSign(front + ['='] + rest) == |front|
  {
    if front != [] {
      assert (front + ['='] + rest)[1..] == front[1..] + ['='] + rest;
      FirstEquals(front[1..], rest);
    }
  }

  lemma EndsTrimmed(s: string) returns (blanks: string)
    ensures var r := DropBlanksAtEnd(s);
            s == r + blanks && Blanks(blanks) && (r != [] ==> !IsBlank(r[|r| - 1]))
  {
    hide DropBlanksAtEnd, IsBlank;
    DropBlanksIsPrefix(s);
    NoBlankAtEnd(s);
    blanks := s[|DropBlanksAtEnd(s)|..];
  }

  lemma {:induction false} NoBlankAtEnd(s: string)
    ensures DropBlanksAtEnd(s) != [] ==> !IsBlank(DropBlanksAtEnd(s)[|DropBlanksAtEnd(s)| - 1])
  {
    if s != [] {
      NoBlankAtEnd(s[..|s| - 1]);
    }
  }

  lemma StartsTrimmed(s: string) returns (blanks: string)
    ensures var r := SkipBlanks(s);
            s == blanks + r && Blanks(blanks) && (r != [] ==> !IsBlank(r[0]))
  {
    hide SkipBlanks, IsBlank;
    SkipBlanksIsSuffix(s);
    NoBlankAtStart(s);
    blanks := s[..|s| - |SkipBlanks(s)|];
  }

  lemma {:induction false} NoBlankAtStart(s: string)
    ensures SkipBlanks(s) != [] ==> !IsBlank(SkipBlanks(s)[0])
  {
    if s != [] {
      NoBlankAtStart(s[1..]);
    }
  }

  lemma {:induction false} DropBlanksOf(s: string, blanks: string)
    requires Blanks(blanks) && (s != [] ==> !IsBlank(s[|s| - 1]))
    ensures DropBlanksAtEnd(s + blanks) == s
  {
    if blanks == [] {
      assert s + blanks == s;
    } else {
      var n := |blanks| - 1;
      assert (s + blanks)[..|s| + n] == s + blanks[..n];
      DropBlanksOf(s, blanks[..n]);
    }
  }

  lemma {:induction false} SkipBlanksOf(blanks: string, s: string)
    requires Blanks(blanks) && (s != [] ==> !IsBlank(s[0]))
    ensures SkipBlanks(blanks + s) == s
  {
    if blanks == [] {
      assert blanks + s == s;
    } else {
      assert (blanks + s)[1..] == blanks[1..] + s;
      SkipBlanksOf(blanks[1..], s);
    }
  }

  // ----- Which lines are accepted ----------------------------------------------------------

  /** A text of actions is accepted exactly if each of its tokens is. */
  ghost predicate AcceptedText(text: string, aliases: seq<Alias>) {
    Tokenize(text).Some? && AllAccepted(Tokenize(text).value, aliases)
  }

  /** A line without a brace at its start: an entry of the block it is in. */
  lemma EntryMeans(s: Progress, text: string)
    requires text != "" && text[0] != '{'
    ensures var line, setting := EditLine(s, text), '=' in text && text[0] != '=';
            match s.mode
            case StartOfFile => line.None?
            case InSettings => if setting then line == Some(Typed(s, SettingsEntry, Neutral())) else line.None?
            case InDescription => line == Some(Typed(s, DescriptionEntry, Neutral()))
            case InAliases =>
              (line.Some? <==> setting && AcceptedText(SplitOnEquals(text).value.value, s.aliases))
              && (line.Some? ==> line.value.kind == AliasEntry && line.value.next.mode == InAliases
                                 && |line.value.next.aliases| == |s.aliases| + 1)
            case InActions => line == Some(Typed(s, Url, Neutral()))
  {
    hide GetActions, SplitOnEquals, Accepted;
    WhenSplit(text);
    if SplitOnEquals(text).Some? {
      WhenAccepted(Neutral(), SplitOnEquals(text).value.value, s.aliases);
    }
  }

  /** A header of a block that may still come, or of a section with accepted actions. */
  lemma HeaderMeans(s: Progress, text: string)
    requires text != "" && text[0] == '{'
    ensures var line := EditLine(s, text);
            if HeaderMatches(text, "settings") && s.mode == StartOfFile then
              line == Some(Typed(Progress(InSettings, s.aliases), SettingsHeader, Neutral()))
            else if HeaderMatches(text, "description") && s.mode in {StartOfFile, InSettings} then
              line == Some(Typed(Progress(InDescription, s.aliases), DescriptionHeader, Neutral()))
            else if HeaderMatches(text, "alias") && s.mode in {StartOfFile, InSettings, InDescription} then
              line == Some(Typed(Progress(InAliases, s.aliases), AliasHeader, Neutral()))
            else if |text| > 1 && text[1] != '{' && text[|text| - 1] == '}'
                    && AcceptedText(TrimBlanks(text[1..|text| - 1]), s.aliases) then
              && line.Some? && line.value.kind == ActionHeader && line.value.next == Progress(InActions, s.aliases)
              && GetActions(Neutral(), TrimBlanks(text[1..|text| - 1]), s.aliases) == Ok(line.value.action)
            else line.None?
  {
    hide GetActions, HeaderMatches, Accepted, TrimBlanks;
    if |text| > 1 {
      WhenAccepted(Neutral(), TrimBlanks(text[1..|text| - 1]), s.aliases);
    }
  }

  /** A header of a block is its name in double braces, in any case and with blanks around it. */
  lemma BlockNameMeans(before: string, word: string, after: string, name: string)
    requires Blanks(before) && Blanks(after) && EqualsIgnoreCase(word, name)
    requires name != "" && forall i | 0 <= i < |name| :: 'a' <= name[i] <= 'z'
    ensures HeaderMatches("{{" + (before + (word + (after + "}}"))), name)
  {
    hide SkipBlanks, IsBlank;
    var text := word + (after + "}}");
    var line := "{{" + (before + text);
    assert Lower(word[0]) == Lower(name[0]) == name[0];
    LetterIsNoBlank(word[0]);
    SkipBlanksOf(before, text);
    SkipBlanksOf(after, "}}");
    assert line[2..] == before + text && text[..|name|] == word && text[|name|..] == after + "}}";
  }

  lemma LetterIsNoBlank(c: char)
    ensures 'a' <= Lower(c) <= 'z' ==> !IsBlank(c)
    ensures !IsBlank('}')
  {}

  /** And nothing else is one. */
  lemma BlockNameParts(line: string, name: string) returns (before: string, word: string, after: string)
    requires HeaderMatches(line, name)
    ensures Blanks(before) && Blanks(after) && EqualsIgnoreCase(word, name)
    ensures line == "{{" + (before + (word + (after + "}}")))
  {
    hide SkipBlanks, IsBlank, EqualsIgnoreCase;
    var text := SkipBlanks(line[2..]);
    before := StartsTrimmed(line[2..]);
    after := StartsTrimmed(text[|name|..]);
    word := text[..|name|];
    assert text == word + text[|name|..];
    assert line == "{{" + line[2..];
  }

  // ----- Patterns from the user ----------------------------------------------------------

  /** The trimmed parameter is taken if it can stand on a line of its own; one that ends with a backslash is
      given an ending that matches the same; everything else is refused. */
  lemma UrlSpecMeans(param: string, isPattern: string -> bool)
    ensures var text := Chomp(param);
            var longer := text + if '/' in text then "(?:)" else "/";
            var taken := PatternText(text) && isPattern(text);
            var completed := text != "" && text[|text| - 1] == '\\' && isPattern(text)
                             && PatternText(longer) && isPattern(longer);
            UrlSpec(param, isPattern) == if taken then Some(text) else if completed then Some(longer) else None
  {
    hide Chomp;
    ChompFixpoint(param);
    var text := Chomp(param);
    if text != "" {
      assert (text + "/")[0] == text[0] && (text + "(?:)")[0] == text[0];
      assert (text + "/")[|text|] == '/' && (text + "(?:)")[|text| + 3] == ')';
    }
  }

  // ----- What each edit does, by the numbers of lines ---------------------------------------

  /** A pattern goes right behind the header that has the number, or nothing is done. */
  lemma AddUrlMeans(lines: seq<Line>, section: nat, pattern: string)
    ensures Edited(lines, AddUrl(section, pattern))
         == if 1 <= section <= |lines| && lines[section - 1].kind == ActionHeader
            then Some(lines[..section] + [Line(pattern, Url)] + lines[section..]) else None
  {}

  /** The pattern that has the number is dropped, unless it is the first line of the file. */
  lemma RemoveUrlMeans(lines: seq<Line>, line: nat)
    ensures Edited(lines, RemoveUrl(line))
         == if 2 <= line <= |lines| && lines[line - 1].kind == Url
            then Some(lines[..line - 1] + lines[line..]) else None
  {}

  /** The header that has the number, or the first line for 0, is dropped if no pattern follows it. */
  lemma RemoveSectionMeans(lines: seq<Line>, section: nat)
    ensures var n := if section == 0 then 1 else section;
            var found := n <= |lines| && lines[n - 1].kind == ActionHeader && (n < |lines| ==> lines[n].kind != Url);
            Edited(lines, RemoveSection(section)) == if found then Some(lines[..n - 1] + lines[n..]) else None
  {}

  /** An empty section goes in front of the first header behind the one that has the number, or to the end;
      for 0 and 1 in front of all headers. */
  lemma AddSectionMeans(lines: seq<Line>, section: nat, k: nat)
    requires k <= |lines| && (k < |lines| ==> lines[k].kind == ActionHeader)
    requires forall i | (if section <= 1 then 0 else section) <= i < k :: lines[i].kind != ActionHeader
    requires section >= 2 ==> section <= k && lines[section - 1].kind == ActionHeader
    ensures Edited(lines, AddSection(section)) == Some(lines[..k] + [Line(['{', '}'], ActionHeader)] + lines[k..])
  {
    hide KindsOf;
    EditableFiles.NextHeaderIs(KindsOf(lines), if section <= 1 then 0 else section, k);
    if section <= 1 && lines != [] && k > 0 {
      EditableFiles.NextHeaderIs(KindsOf(lines), 1, k);
    }
  }

  lemma NoSectionToAddTo(lines: seq<Line>, section: nat)
    requires section >= 2 && (section > |lines| || lines[section - 1].kind != ActionHeader)
    ensures Edited(lines, AddSection(section)).None?
  {}

  /** Only patterns. */
  ghost predicate Patterns(lines: seq<Line>) {
    forall i | 0 <= i < |lines| :: lines[i].kind == Url
  }

  /** A header with all the patterns that follow it, of which what comes next is none. */
  ghost predicate WholeSection(lines: seq<Line>, next: seq<Line>) {
    && lines != [] && lines[0].kind == ActionHeader && Patterns(lines[1..])
    && (next != [] ==> next[0].kind != Url)
  }

  /** Two sections change places, given the numbers of their headers in any order. */
  lemma SwapMeans(pre: seq<Line>, s1: seq<Line>, mid: seq<Line>, s2: seq<Line>, post: seq<Line>)
    requires WholeSection(s1, mid + s2) && WholeSection(s2, post)
    ensures var first, second := |pre| + 1, |pre + s1 + mid| + 1;
            var lines, swapped := pre + s1 + mid + s2 + post, pre + s2 + mid + s1 + post;
            && Edited(lines, SwapSections(first, second)) == Some(swapped)
            && Edited(lines, SwapSections(second, first)) == Some(swapped)
            && Edited(lines, SwapSections(first, first)) == Some(lines)
  {
    hide KindsOf, PatternsEnd, Swapped, WholeSection, Edited;
    var lines := pre + s1 + mid + s2 + post;
    SectionIsThere(s1, mid + s2);
    SectionIsThere(s2, post);
    assert pre + s1 + mid + s2 == pre + s1 + (mid + s2);
    SectionEnds(pre, s1, mid + s2, lines);
    SectionEnds(pre + s1 + mid, s2, post, lines);
    SwapAt(lines, |pre|, |pre + s1|, |pre + s1 + mid|, |pre + s1 + mid + s2|);
    SwappedIs(pre, s1, mid, s2, post);
  }

  lemma SwapAt(lines: seq<Line>, a: nat, b: nat, c: nat, d: nat)
    requires a < b <= c < d <= |lines| && HeaderAt(KindsOf(lines), a) && HeaderAt(KindsOf(lines), c)
    requires PatternsEnd(KindsOf(lines), a + 1) == b && PatternsEnd(KindsOf(lines), c + 1) == d
    ensures Edited(lines, SwapSections(a + 1, c + 1)) == Some(Swapped(lines, a, b, c, d))
    ensures Edited(lines, SwapSections(c + 1, a + 1)) == Some(Swapped(lines, a, b, c, d))
    ensures Edited(lines, SwapSections(a + 1, a + 1)) == Some(lines)
  {
    hide KindsOf, PatternsEnd, Swapped;
    var kinds := KindsOf(lines);
    assert SwapPlaces(kinds, a + 1, c + 1) == Some(Sections(a, b, c, d));
  }

  lemma SectionIsThere(section: seq<Line>, next: seq<Line>)
    requires WholeSection(section, next)
    ensures section != []
  {}

  lemma SectionEnds(front: seq<Line>, section: seq<Line>, next: seq<Line>, lines: seq<Line>)
    requires WholeSection(section, next) && |front + section + next| <= |lines|
    requires lines[..|front + section + next|] == front + section + next
    requires |lines| > |front + section| ==> next != []
    ensures HeaderAt(KindsOf(lines), |front|) && PatternsEnd(KindsOf(lines), |front| + 1) == |front + section|
  {
    hide WholeSection, KindsOf, PatternsEnd;
    SectionIsThere(section, next);
    SectionKinds(front, section, next, lines);
    PatternsEndIs(KindsOf(lines), |front| + 1, |front + section|);
  }

  lemma SectionKinds(front: seq<Line>, section: seq<Line>, next: seq<Line>, lines: seq<Line>)
    requires WholeSection(section, next) && |front + section + next| <= |lines|
    requires lines[..|front + section + next|] == front + section + next
    requires |lines| > |front + section| ==> next != []
    ensures var kinds, a, b := KindsOf(lines), |front|, |front + section|;
            && kinds[a] == ActionHeader && (forall i | a < i < b :: kinds[i] == Url)
            && (b < |lines| ==> kinds[b] != Url)
  {
    var all := front + section + next;
    forall i | |front| <= i < |all|
      ensures lines[i] == if i < |front + section| then section[i - |front|] else next[i - |front + section|]
    {
      assert lines[i] == lines[..|all|][i] == all[i];
    }
    forall i | |front| < i < |front + section|
      ensures lines[i].kind == Url
    {
      assert section[1..][i - |front| - 1] == section[i - |front|];
    }
  }

  lemma Slice<T>(front: seq<T>, middle: seq<T>, back: seq<T>)
    ensures (front + middle + back)[..|front|] == front
    ensures (front + middle + back)[|front|..|front + middle|] == middle
    ensures (front + middle + back)[|front + middle|..] == back
  {}

  lemma SwappedIs(pre: seq<Line>, s1: seq<Line>, mid: seq<Line>, s2: seq<Line>, post: seq<Line>)
    ensures var lines, a, b := pre + s1 + mid + s2 + post, |pre|, |pre + s1|;
            Swapped(lines, a, b, |pre + s1 + mid|, |pre + s1 + mid + s2|) == pre + s2 + mid + s1 + post
  {
    var lines := pre + s1 + mid + s2 + post;
    Slice(pre + s1 + mid, s2, post);
    Slice(pre + s1, mid, s2 + post);
    Slice(pre, s1, mid + s2 + post);
    assert lines == pre + s1 + mid + (s2 + post);
    assert lines == pre + s1 + (mid + s2 + post);
  }

  /** The numbers of two headers always stand for sections that can be swapped. */
  lemma HeadersAreSwapped(lines: seq<Line>, first: nat, second: nat)
    requires 1 <= first <= |lines| && lines[first - 1].kind == ActionHeader
    requires 1 <= second <= |lines| && lines[second - 1].kind == ActionHeader
    ensures Edited(lines, SwapSections(first, second)).Some?
  {}

  /** The number of a pattern in the section whose header has the smaller number stands for the next section. */
  lemma PatternStandsForNext(pre: seq<Line>, s1: seq<Line>, s2: seq<Line>, post: seq<Line>, number: nat)
    requires WholeSection(s1, s2) && WholeSection(s2, post) && |pre| + 1 < number <= |pre + s1|
    ensures Edited(pre + s1 + s2 + post, SwapSections(|pre| + 1, number)) == Some(pre + s2 + s1 + post)
  {
    hide KindsOf, PatternsEnd, Swapped, WholeSection;
    var lines := pre + s1 + s2 + post;
    assert pre + s1 + [] == pre + s1 && pre + s2 + [] == pre + s2;
    SectionIsThere(s2, post);
    SectionEnds(pre, s1, s2, lines);
    SectionEnds(pre + s1, s2, post, lines);
    SwappedIs(pre, s1, [], s2, post);
  }
}
