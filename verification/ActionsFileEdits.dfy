/** The edits of cgiedit.c on the lines of an actions file, as sequences. */
module ActionsFileEdits {
  import opened Text
  import opened Actions
  import opened ActionParser
  import opened ActionTokens
  import opened ActionsFileText

  /** What matters of a `struct file_line`. */
  datatype Line = Line(text: string, kind: LineType)

  // ----- Places ----------------------------------------------------------------

  function KindsOf(lines: seq<Line>): (kinds: seq<LineType>)
    ensures |kinds| == |lines| && forall i | 0 <= i < |lines| :: kinds[i] == lines[i].kind
  {
    seq(|lines|, i requires 0 <= i < |lines| => lines[i].kind)
  }

  /** The place of the line with a number; the loops stop at the first line for 0 as for 1. */
  function Place(number: nat): nat {
    if number == 0 then 0 else number - 1
  }

  predicate HeaderAt(kinds: seq<LineType>, k: nat) {
    k < |kinds| && kinds[k] == ActionHeader
  }

  /** Where the patterns that start at i end. */
  function PatternsEnd(kinds: seq<LineType>, i: nat): (end: nat)
    requires i <= |kinds|
    ensures i <= end <= |kinds|
    ensures forall j | i <= j < end :: kinds[j] == Url
    ensures end < |kinds| ==> kinds[end] != Url
    decreases |kinds| - i
  {
    if i < |kinds| && kinds[i] == Url then PatternsEnd(kinds, i + 1) else i
  }

  /** The next section header from i on, or the end of the file. */
  function NextHeader(kinds: seq<LineType>, i: nat): (end: nat)
    requires i <= |kinds|
    ensures i <= end <= |kinds|
    ensures forall j | i <= j < end :: kinds[j] != ActionHeader
    ensures end < |kinds| ==> kinds[end] == ActionHeader
    decreases |kinds| - i
  {
    if i < |kinds| && kinds[i] != ActionHeader then NextHeader(kinds, i + 1) else i
  }

  // ----- The edits ---------------------------------------------------------------

  function Inserted<T>(xs: seq<T>, k: nat, x: T): seq<T>
    requires k <= |xs|
  {
    xs[..k] + [x] + xs[k..]
  }

  function Dropped<T>(xs: seq<T>, k: nat): seq<T>
    requires k < |xs|
  {
    xs[..k] + xs[k + 1..]
  }

  /** Two sections, from a to b and from c to d, change places. */
  function Swapped<T>(xs: seq<T>, a: nat, b: nat, c: nat, d: nat): seq<T>
    requires a <= b <= c <= d <= |xs|
  {
    xs[..a] + xs[c..d] + xs[b..c] + xs[a..b] + xs[d..]
  }

  /** The changes the editor offers, with the numbers of lines it is given. */
  datatype Edit =
    | AddUrl(section: nat, pattern: string)
    | RemoveUrl(line: nat)
    | AddSection(section: nat)
    | RemoveSection(section: nat)
    | SwapSections(first: nat, second: nat)

  /** `cgi_edit_actions_add_url` */
  function AddUrlPlace(kinds: seq<LineType>, section: nat): Option<nat> {
    if section >= 1 && HeaderAt(kinds, section - 1) then Some(section) else None
  }

  /** `cgi_edit_actions_remove_url` */
  function RemoveUrlPlace(kinds: seq<LineType>, line: nat): Option<nat> {
    var k := Place(line);
    if 0 < k < |kinds| && kinds[k] == Url then Some(k) else None
  }

  /** `cgi_edit_actions_section_add`: after a section, or before all of them. */
  function AddSectionPlace(kinds: seq<LineType>, section: nat): (k: Option<nat>)
    ensures k.Some? ==> k.value <= |kinds|
  {
    if section <= 1 then
      Some(if kinds == [] || kinds[0] == ActionHeader then 0 else NextHeader(kinds, 1))
    else if HeaderAt(kinds, section - 1) then Some(NextHeader(kinds, section))
    else None
  }

  /** `cgi_edit_actions_section_remove`: the section must have no patterns. */
  function RemoveSectionPlace(kinds: seq<LineType>, section: nat): Option<nat> {
    var k := Place(section);
    if HeaderAt(kinds, k) && !(k + 1 < |kinds| && kinds[k + 1] == Url) then Some(k) else None
  }

  /** Where two sections start and end. */
  datatype Sections = Sections(start1: nat, end1: nat, start2: nat, end2: nat)

  /** `cgi_edit_actions_section_swap`, for line numbers in order. */
  function SwapPlaces(kinds: seq<LineType>, first: nat, second: nat): (p: Option<Sections>)
    ensures p.Some? ==> p.value.start1 < p.value.end1 <= p.value.start2 < p.value.end2 <= |kinds|
  {
    var a := Place(first);
    if !HeaderAt(kinds, a) then None
    else
      var b := PatternsEnd(kinds, a + 1);
      var c := if Place(second) < b then b else Place(second);
      if !HeaderAt(kinds, c) then None else Some(Sections(a, b, c, PatternsEnd(kinds, c + 1)))
  }

  function SwapInOrder(lines: seq<Line>, first: nat, second: nat): Option<seq<Line>> {
    if first == second then
      if HeaderAt(KindsOf(lines), Place(first)) then Some(lines) else None
    else
      match SwapPlaces(KindsOf(lines), first, second)
      case None => None
      case Some(p) => Some(Swapped(lines, p.start1, p.end1, p.start2, p.end2))
  }

  const NEW_SECTION: Line := Line(['{', '}'], ActionHeader)

  /** The lines after an edit; None on JB_ERR_CGI_PARAMS. */
  function Edited(lines: seq<Line>, e: Edit): Option<seq<Line>> {
    match e
    case AddUrl(section, pattern) =>
      (match AddUrlPlace(KindsOf(lines), section)
       case None => None
       case Some(k) => Some(Inserted(lines, k, Line(pattern, Url))))
    case RemoveUrl(line) =>
      (match RemoveUrlPlace(KindsOf(lines), line)
       case None => None
       case Some(k) => Some(Dropped(lines, k)))
    case AddSection(section) =>
      (match AddSectionPlace(KindsOf(lines), section)
       case None => None
       case Some(k) => Some(Inserted(lines, k, NEW_SECTION)))
    case RemoveSection(section) =>
      (match RemoveSectionPlace(KindsOf(lines), section)
       case None => None
       case Some(k) => Some(Dropped(lines, k)))
    case SwapSections(first, second) =>
      if first > second then SwapInOrder(lines, second, first) else SwapInOrder(lines, first, second)
  }

  // ----- Patterns from the user ------------------------------------------------------

  /** `get_url_spec_param`, for a parameter that may be empty. */
  function UrlSpec(param: string, isPattern: string -> bool): Option<string> {
    var text := Chomp(param);
    if text == [] || text[0] == '{' || CR in text || LF in text || !isPattern(text) then None
    else if text[|text| - 1] != '\\' then Some(text)
    else
      var longer := if '/' in text then text + ['(', '?', ':', ')'] else text + ['/'];
      if isPattern(longer) then Some(longer) else None
  }

  /** A line that can only be read as a pattern. */
  ghost predicate PatternText(text: string) {
    && text != [] && text[0] != '{' && Trimmed(text)
    && CR !in text && LF !in text && text[|text| - 1] != '\\'
  }

  lemma UrlSpecIsPatternText(param: string, isPattern: string -> bool)
    requires UrlSpec(param, isPattern).Some?
    ensures PatternText(UrlSpec(param, isPattern).value) && isPattern(UrlSpec(param, isPattern).value)
  {
    hide Chomp;
    ChompFixpoint(param);
  }

  // ----- The grammar ---------------------------------------------------------------------

  /** The parser accepts the lines from a state on, with exactly the types they have. */
  ghost predicate Tracks(s: Progress, lines: seq<Line>)
    decreases |lines|
  {
    lines != [] ==>
      && EditLine(s, lines[0].text).Some? && EditLine(s, lines[0].text).value.kind == lines[0].kind
      && Tracks(EditLine(s, lines[0].text).value.next, lines[1..])
  }

  /** Where the parser stands after the lines. */
  ghost function Ahead(s: Progress, lines: seq<Line>): Progress
    requires Tracks(s, lines)
    decreases |lines|
  {
    if lines == [] then s else Ahead(EditLine(s, lines[0].text).value.next, lines[1..])
  }

  /** Patterns follow a header or a pattern: blank lines end a section. */
  ghost predicate Sectioned(before: LineType, lines: seq<Line>)
    decreases |lines|
  {
    lines != [] ==>
      && (lines[0].kind == Url ==> before == ActionHeader || before == Url)
      && Sectioned(lines[0].kind, lines[1..])
  }

  ghost predicate InGrammar(lines: seq<Line>) {
    Tracks(START, lines) && Sectioned(Blank, lines)
  }

  function TextsOf(lines: seq<Line>): (texts: seq<string>)
    ensures |texts| == |lines| && forall i | 0 <= i < |lines| :: texts[i] == lines[i].text
  {
    seq(|lines|, i requires 0 <= i < |lines| => lines[i].text)
  }

  /** Tracking says what it should about `edit_parse_actions_file`. */
  lemma {:induction false} TracksIsParse(s: Progress, lines: seq<Line>)
    ensures Tracks(s, lines)
       <==> EditParse(s, TextsOf(lines)).Some?
            && forall i | 0 <= i < |lines| :: EditParse(s, TextsOf(lines)).value[i].kind == lines[i].kind
    decreases |lines|
  {
    hide EditLine;
    if lines != [] {
      var texts := TextsOf(lines);
      assert texts[1..] == TextsOf(lines[1..]);
      if EditLine(s, texts[0]).Some? {
        var next := EditLine(s, texts[0]).value.next;
        TracksIsParse(next, lines[1..]);
        if EditParse(s, texts).Some? {
          var typed, rest := EditParse(s, texts).value, EditParse(next, texts[1..]).value;
          assert forall i | 0 < i < |lines| :: typed[i] == rest[i - 1] && lines[i] == lines[1..][i - 1];
          assert forall i | 0 <= i < |rest| :: rest[i] == typed[1..][i];
        }
      }
    }
  }

  lemma {:induction false} TracksInTwo(s: Progress, front: seq<Line>, back: seq<Line>)
    ensures Tracks(s, front + back) <==> Tracks(s, front) && Tracks(Ahead(s, front), back)
    ensures Tracks(s, front + back) ==> Ahead(s, front + back) == Ahead(Ahead(s, front), back)
    decreases |front|
  {
    hide EditLine;
    if front == [] {
      assert front + back == back;
    } else {
      assert (front + back)[1..] == front[1..] + back;
      if EditLine(s, front[0].text).Some? {
        TracksInTwo(EditLine(s, front[0].text).value.next, front[1..], back);
      }
    }
  }

  ghost function LastKind(before: LineType, lines: seq<Line>): LineType {
    if lines == [] then before else lines[|lines| - 1].kind
  }

  lemma {:induction false} SectionedInTwo(before: LineType, front: seq<Line>, back: seq<Line>)
    ensures Sectioned(before, front + back) <==> Sectioned(before, front) && Sectioned(LastKind(before, front), back)
    decreases |front|
  {
    if front == [] {
      assert front + back == back;
    } else {
      assert (front + back)[1..] == front[1..] + back;
      SectionedInTwo(front[0].kind, front[1..], back);
      assert front[1..] != [] ==> front[1..][|front| - 2] == front[|front| - 1];
    }
  }

  // ----- Among the sections the parser's state stays the same --------------------------------

  function InBody(s: Progress): Progress {
    s.(mode := InActions)
  }

  lemma HeaderMatchesNeedsTwoBraces(text: string, name: string)
    ensures HeaderMatches(text, name) ==> |text| >= 2 && text[1] == '{'
  {}

  /** What a line's type says about the parser's state. */
  lemma OneLine(s: Progress, text: string)
    requires EditLine(s, text).Some?
    ensures var line := EditLine(s, text).value;
            && (line.kind == ActionHeader ==> line.next == InBody(s))
            && (line.kind == Url ==> s.mode == InActions)
            && (line.kind == Blank ==> text == [] && line.next == s)
            && (s.mode == InActions ==> line.next == s && line.kind in {ActionHeader, Url, Blank})
  {
    hide HeaderMatches, SectionActions, SplitOnEquals, GetActions;
  }

  /** A section header is one in any block. */
  lemma HeaderAnywhere(s: Progress, text: string)
    ensures EditLine(s, text).Some? && EditLine(s, text).value.kind == ActionHeader
       <==> EditLine(InBody(s), text).Some? && EditLine(InBody(s), text).value.kind == ActionHeader
  {
    hide HeaderMatches, SectionActions, SplitOnEquals, GetActions;
    if IsHeader(text) {
      HeaderMatchesNeedsTwoBraces(text, "settings");
      HeaderMatchesNeedsTwoBraces(text, "description");
      HeaderMatchesNeedsTwoBraces(text, "alias");
      if SectionActions(text, s.aliases).Some? {
        SectionActionsNeedOneBrace(text, s.aliases);
      }
    }
  }

  lemma {:induction false} BodyStays(s: Progress, lines: seq<Line>)
    requires Tracks(s, lines) && s.mode == InActions
    ensures Ahead(s, lines) == s
    ensures forall i | 0 <= i < |lines| :: lines[i].kind in {ActionHeader, Url, Blank}
    decreases |lines|
  {
    hide EditLine;
    if lines != [] {
      OneLine(s, lines[0].text);
      BodyStays(s, lines[1..]);
      assert forall i | 0 < i < |lines| :: lines[i] == lines[1..][i - 1];
    }
  }

  /** Lines that start with a section header can stand in any block. */
  lemma StartsAnywhere(s: Progress, lines: seq<Line>)
    requires lines != [] ==> lines[0].kind == ActionHeader
    ensures Tracks(s, lines) <==> Tracks(InBody(s), lines)
    ensures Tracks(s, lines) && lines != [] ==> Ahead(s, lines) == InBody(s)
  {
    hide EditLine;
    if lines != [] {
      HeaderAnywhere(s, lines[0].text);
      if EditLine(s, lines[0].text).Some? && EditLine(InBody(s), lines[0].text).Some? {
        OneLine(s, lines[0].text);
        OneLine(InBody(s), lines[0].text);
        if Tracks(s, lines) {
          BodyStays(InBody(s), lines[1..]);
        }
      }
    }
  }

  /** So can blank lines with such lines after them. */
  lemma {:induction false} BlanksStartAnywhere(s: Progress, lines: seq<Line>)
    requires Tracks(InBody(s), lines) && Sectioned(Blank, lines)
    ensures Tracks(s, lines)
    decreases |lines|
  {
    hide EditLine;
    if lines != [] {
      BodyStays(InBody(s), lines);
      OneLine(InBody(s), lines[0].text);
      if lines[0].kind == Blank {
        BlankLine(s, lines[0].text);
        BlanksStartAnywhere(s, lines[1..]);
      } else {
        StartsAnywhere(s, lines);
      }
    }
  }

  lemma {:induction false} EndsInBody(s: Progress, lines: seq<Line>)
    requires Tracks(s, lines) && lines != [] && lines[|lines| - 1].kind in {ActionHeader, Url}
    ensures Ahead(s, lines).mode == InActions
    decreases |lines|
  {
    hide EditLine;
    OneLine(s, lines[0].text);
    if |lines| > 1 {
      EndsInBody(EditLine(s, lines[0].text).value.next, lines[1..]);
    }
  }

  // ----- Each edit stays in the grammar -----------------------------------------------------------

  ghost predicate NoPatternFirst(lines: seq<Line>) {
    lines != [] ==> lines[0].kind != Url
  }

  lemma SectionedAfterAll(before: LineType, other: LineType, lines: seq<Line>)
    requires Sectioned(before, lines)
    ensures NoPatternFirst(lines) || other == ActionHeader || other == Url ==> Sectioned(other, lines)
  {}

  lemma PatternIsUrl(s: Progress, pattern: string)
    requires PatternText(pattern) && s.mode == InActions
    ensures Tracks(s, [Line(pattern, Url)]) && Ahead(s, [Line(pattern, Url)]) == s
  {
    hide SplitOnEquals, GetActions;
    assert [Line(pattern, Url)][1..] == [];
    assert EditLine(s, pattern) == Some(Typed(s, Url, Neutral()));
  }

  lemma NewSectionIsHeader(s: Progress)
    ensures Tracks(s, [NEW_SECTION]) && Ahead(s, [NEW_SECTION]) == InBody(s)
  {
    hide GetActions, HeaderMatches;
    EmptyActions(s.aliases);
    HeaderMatchesNeedsTwoBraces(['{', '}'], "settings");
    HeaderMatchesNeedsTwoBraces(['{', '}'], "description");
    HeaderMatchesNeedsTwoBraces(['{', '}'], "alias");
    assert EditLine(s, ['{', '}']) == Some(Typed(InBody(s), ActionHeader, Neutral()));
    assert [NEW_SECTION][1..] == [];
  }

  lemma EmptyActions(aliases: seq<Alias>)
    ensures GetActions(Neutral(), TrimBlanks([]), aliases) == Ok(Neutral())
  {}

  /** Lines in the grammar, cut in two: s is where the parser stands between the parts. */
  ghost predicate Cut(front: seq<Line>, s: Progress, back: seq<Line>) {
    && Tracks(START, front) && Ahead(START, front) == s && Tracks(s, back)
    && Sectioned(Blank, front) && Sectioned(LastKind(Blank, front), back)
  }

  lemma CutIsGrammar(front: seq<Line>, s: Progress, back: seq<Line>)
    requires Cut(front, s, back)
    ensures InGrammar(front + back)
  {
    hide EditLine;
    TracksInTwo(START, front, back);
    SectionedInTwo(Blank, front, back);
  }

  lemma GrammarIsCut(front: seq<Line>, back: seq<Line>) returns (s: Progress)
    requires InGrammar(front + back)
    ensures Cut(front, s, back)
    ensures front != [] && front[|front| - 1].kind in {ActionHeader, Url} ==> s.mode == InActions
  {
    hide EditLine;
    TracksInTwo(START, front, back);
    SectionedInTwo(Blank, front, back);
    s := Ahead(START, front);
    if front != [] && front[|front| - 1].kind in {ActionHeader, Url} {
      EndsInBody(START, front);
    }
  }

  /** More lines at the end of the front part. */
  lemma CutLater(front: seq<Line>, s: Progress, middle: seq<Line>, next: Progress, back: seq<Line>)
    requires Cut(front, s, middle) && Ahead(s, middle) == next
    requires Tracks(next, back) && Sectioned(LastKind(Blank, front + middle), back)
    ensures Cut(front + middle, next, back)
  {
    hide EditLine;
    TracksInTwo(START, front, middle);
    SectionedInTwo(Blank, front, middle);
  }

  lemma OneIsSectioned(before: LineType, line: Line)
    requires line.kind == Url ==> before == ActionHeader
    ensures Sectioned(before, [line]) && LastKind(before, [line]) == line.kind
  {
    assert [line][1..] == [];
  }

  lemma AddUrlKeepsGrammar(lines: seq<Line>, k: nat, pattern: string)
    requires InGrammar(lines) && 0 < k <= |lines| && lines[k - 1].kind == ActionHeader && PatternText(pattern)
    ensures InGrammar(Inserted(lines, k, Line(pattern, Url)))
  {
    hide EditLine, Tracks, Ahead, PatternText;
    var front, back := lines[..k], lines[k..];
    assert lines == front + back;
    var s := GrammarIsCut(front, back);
    PatternIsUrl(s, pattern);
    SectionedAfterAll(ActionHeader, Url, back);
    OneIsSectioned(ActionHeader, Line(pattern, Url));
    CutLater(front, s, [Line(pattern, Url)], s, back);
    CutIsGrammar(front + [Line(pattern, Url)], s, back);
  }

  lemma AddSectionKeepsGrammar(lines: seq<Line>, k: nat)
    requires InGrammar(lines) && k <= |lines| && (k < |lines| ==> lines[k].kind == ActionHeader)
    ensures InGrammar(Inserted(lines, k, NEW_SECTION))
  {
    hide EditLine, Tracks, Ahead;
    var front, back := lines[..k], lines[k..];
    assert lines == front + back;
    var s := GrammarIsCut(front, back);
    NewSectionIsHeader(s);
    StartsAnywhere(s, back);
    SectionedAfterAll(LastKind(Blank, front), ActionHeader, back);
    OneIsSectioned(LastKind(Blank, front), NEW_SECTION);
    CutLater(front, s, [NEW_SECTION], InBody(s), back);
    CutIsGrammar(front + [NEW_SECTION], InBody(s), back);
  }

  lemma RemoveUrlKeepsGrammar(lines: seq<Line>, k: nat)
    requires InGrammar(lines) && 0 < k < |lines| && lines[k].kind == Url
    ensures InGrammar(Dropped(lines, k))
  {
    hide EditLine;
    var front, line, back := lines[..k], lines[k..k + 1], lines[k + 1..];
    assert lines == front + (line + back);
    var s := GrammarIsCut(front, line + back);
    OneLine(s, lines[k].text);
    SectionedInTwo(LastKind(Blank, front), line, back);
    SectionedAfterAll(Url, LastKind(Blank, front), back);
    CutIsGrammar(front, s, back);
  }

  lemma RemoveSectionKeepsGrammar(lines: seq<Line>, k: nat)
    requires InGrammar(lines) && k < |lines| && lines[k].kind == ActionHeader && NoPatternFirst(lines[k + 1..])
    ensures InGrammar(Dropped(lines, k))
  {
    hide EditLine;
    var front, line, back := lines[..k], lines[k..k + 1], lines[k + 1..];
    assert lines == front + (line + back);
    var s := GrammarIsCut(front, line + back);
    OneLine(s, lines[k].text);
    SectionedInTwo(LastKind(Blank, front), line, back);
    SectionedAfterAll(ActionHeader, LastKind(Blank, front), back);
    SectionedAfterAll(ActionHeader, Blank, back);
    BlanksStartAnywhere(s, back);
    CutIsGrammar(front, s, back);
  }

  /** A piece that can follow any line and is tracked among the sections. */
  ghost predicate Piece(s: Progress, lines: seq<Line>) {
    NoPatternFirst(lines) && Tracks(InBody(s), lines) && Sectioned(Blank, lines)
  }

  lemma PieceInTwo(s: Progress, front: seq<Line>, back: seq<Line>)
    requires NoPatternFirst(front) && NoPatternFirst(back)
    ensures Piece(s, front + back) <==> Piece(s, front) && Piece(s, back)
  {
    hide EditLine;
    TracksInTwo(InBody(s), front, back);
    if Tracks(InBody(s), front) {
      BodyStays(InBody(s), front);
    }
    SectionedInTwo(Blank, front, back);
    if Sectioned(Blank, back) {
      SectionedAfterAll(Blank, LastKind(Blank, front), back);
    }
    if Sectioned(LastKind(Blank, front), back) {
      SectionedAfterAll(LastKind(Blank, front), Blank, back);
    }
  }

  /** A piece that starts with a section header can follow any block. */
  lemma PieceIsCut(front: seq<Line>, s: Progress, back: seq<Line>)
    requires Tracks(START, front) && Ahead(START, front) == s && Sectioned(Blank, front)
    requires back != [] && back[0].kind == ActionHeader
    ensures Cut(front, s, back) <==> Piece(s, back)
  {
    hide EditLine;
    StartsAnywhere(s, back);
    if Sectioned(Blank, back) {
      SectionedAfterAll(Blank, LastKind(Blank, front), back);
    }
    if Sectioned(LastKind(Blank, front), back) {
      SectionedAfterAll(LastKind(Blank, front), Blank, back);
    }
  }

  /** The parts of a swap. */
  lemma SwapPieces(s: Progress, s1: seq<Line>, mid: seq<Line>, s2: seq<Line>, post: seq<Line>)
    requires NoPatternFirst(s1) && NoPatternFirst(mid) && NoPatternFirst(s2) && NoPatternFirst(post)
    ensures Piece(s, s1 + (mid + (s2 + post))) <==> Piece(s, s1) && Piece(s, mid) && Piece(s, s2) && Piece(s, post)
  {
    hide EditLine, Piece;
    PieceInTwo(s, s2, post);
    PieceInTwo(s, mid, s2 + post);
    PieceInTwo(s, s1, mid + (s2 + post));
  }

  lemma SwapKeepsGrammar(lines: seq<Line>, a: nat, b: nat, c: nat, d: nat)
    requires InGrammar(lines) && a < b <= c < d <= |lines| && lines[a].kind == lines[c].kind == ActionHeader
    requires NoPatternFirst(lines[b..]) && NoPatternFirst(lines[d..])
    ensures InGrammar(Swapped(lines, a, b, c, d))
  {
    hide EditLine, Piece, Tracks, Ahead, Sectioned;
    var pre, s1, mid, s2, post := lines[..a], lines[a..b], lines[b..c], lines[c..d], lines[d..];
    assert lines == pre + (s1 + (mid + (s2 + post)));
    assert Swapped(lines, a, b, c, d) == pre + (s2 + (mid + (s1 + post)));
    var s := GrammarIsCut(pre, s1 + (mid + (s2 + post)));
    PieceIsCut(pre, s, s1 + (mid + (s2 + post)));
    PieceIsCut(pre, s, s2 + (mid + (s1 + post)));
    SwapPieces(s, s1, mid, s2, post);
    SwapPieces(s, s2, mid, s1, post);
    CutIsGrammar(pre, s, s2 + (mid + (s1 + post)));
  }

  ghost predicate EditOk(e: Edit) {
    e.AddUrl? ==> PatternText(e.pattern)
  }

  /** Every edit keeps the file in the grammar, with the types of the lines as the editor tracks them. */
  lemma EditKeepsGrammar(lines: seq<Line>, e: Edit)
    requires InGrammar(lines) && EditOk(e) && Edited(lines, e).Some?
    ensures InGrammar(Edited(lines, e).value)
  {
    hide InGrammar, PatternText;
    var kinds := KindsOf(lines);
    match e
    case AddUrl(section, pattern) => AddUrlKeepsGrammar(lines, section, pattern);
    case RemoveUrl(line) => RemoveUrlKeepsGrammar(lines, Place(line));
    case AddSection(section) => AddSectionKeepsGrammar(lines, AddSectionPlace(kinds, section).value);
    case RemoveSection(section) => RemoveSectionKeepsGrammar(lines, Place(section));
    case SwapSections(first, second) =>
      if first != second {
        var lower, upper := if first < second then first else second, if first < second then second else first;
        var p := SwapPlaces(kinds, lower, upper).value;
        SwapKeepsGrammar(lines, p.start1, p.end1, p.start2, p.end2);
      }
  }

  function EditedBy(lines: seq<Line>, edits: seq<Edit>): Option<seq<Line>>
    decreases |edits|
  {
    if edits == [] then Some(lines)
    else
      match Edited(lines, edits[0])
      case None => None
      case Some(next) => EditedBy(next, edits[1..])
  }

  /** After any sequence of edits the parser accepts the file again, and finds the types the editor tracked. */
  lemma {:induction false} EditsKeepGrammar(lines: seq<Line>, edits: seq<Edit>)
    requires InGrammar(lines) && (forall i | 0 <= i < |edits| :: EditOk(edits[i])) && EditedBy(lines, edits).Some?
    ensures var result := EditedBy(lines, edits).value;
            && InGrammar(result) && EditParse(START, TextsOf(result)).Some?
            && forall i | 0 <= i < |result| :: EditParse(START, TextsOf(result)).value[i].kind == result[i].kind
    decreases |edits|
  {
    hide Edited, EditOk, EditParse;
    if edits == [] {
      TracksIsParse(START, lines);
    } else {
      EditKeepsGrammar(lines, edits[0]);
      EditsKeepGrammar(Edited(lines, edits[0]).value, edits[1..]);
    }
  }

  // ----- Swapping twice -----------------------------------------------------------------------

  lemma {:induction false} PatternsEndIs(kinds: seq<LineType>, i: nat, end: nat)
    requires i <= end <= |kinds| && (forall j | i <= j < end :: kinds[j] == Url)
    requires end < |kinds| ==> kinds[end] != Url
    ensures PatternsEnd(kinds, i) == end
    decreases end - i
  {
    if i < end {
      PatternsEndIs(kinds, i + 1, end);
    }
  }

  lemma KindsOfSwapped(lines: seq<Line>, a: nat, b: nat, c: nat, d: nat)
    requires a <= b <= c <= d <= |lines|
    ensures KindsOf(Swapped(lines, a, b, c, d)) == Swapped(KindsOf(lines), a, b, c, d)
  {}

  /** Two sections with their patterns, and no more patterns behind them. */
  ghost predicate AreSections(kinds: seq<LineType>, p: Sections) {
    && p.start1 < p.end1 <= p.start2 < p.end2 <= |kinds|
    && kinds[p.start1] == ActionHeader && kinds[p.start2] == ActionHeader
    && (forall j | p.start1 < j < p.end1 :: kinds[j] == Url) && kinds[p.end1] != Url
    && (forall j | p.start2 < j < p.end2 :: kinds[j] == Url) && (p.end2 < |kinds| ==> kinds[p.end2] != Url)
  }

  lemma SectionsAreFound(kinds: seq<LineType>, p: Sections)
    requires AreSections(kinds, p)
    ensures SwapPlaces(kinds, p.start1 + 1, p.start2 + 1) == Some(p)
  {
    PatternsEndIs(kinds, p.start1 + 1, p.end1);
    PatternsEndIs(kinds, p.start2 + 1, p.end2);
  }

  lemma FoundAreSections(kinds: seq<LineType>, first: nat, second: nat)
    requires 0 < first < second && HeaderAt(kinds, first - 1) && HeaderAt(kinds, second - 1)
    ensures SwapPlaces(kinds, first, second).Some? && AreSections(kinds, SwapPlaces(kinds, first, second).value)
    ensures SwapPlaces(kinds, first, second).value.start1 == first - 1
    ensures SwapPlaces(kinds, first, second).value.start2 == second - 1
  {}

  /** Where the sections are after the swap. */
  function Moved(p: Sections): Sections
    requires p.start1 < p.end1 <= p.start2 < p.end2
  {
    var end := p.start1 + (p.end2 - p.start2);
    Sections(p.start1, end, end + (p.start2 - p.end1), p.end2)
  }

  lemma SectionsAfterSwap(kinds: seq<LineType>, p: Sections)
    requires AreSections(kinds, p)
    ensures AreSections(Swapped(kinds, p.start1, p.end1, p.start2, p.end2), Moved(p))
  {
    SwappedAt(kinds, p.start1, p.end1, p.start2, p.end2);
    hide Swapped;
  }

  lemma SwappedAt<T>(xs: seq<T>, a: nat, b: nat, c: nat, d: nat)
    requires a <= b <= c <= d <= |xs|
    ensures |Swapped(xs, a, b, c, d)| == |xs|
    ensures forall i | a <= i < a + (d - c) :: Swapped(xs, a, b, c, d)[i] == xs[c + (i - a)]
    ensures forall i | a + (d - c) <= i < a + (d - c) + (c - b) ::
              Swapped(xs, a, b, c, d)[i] == xs[i - (a + (d - c)) + b]
    ensures forall i | a + (d - c) + (c - b) <= i < d ::
              Swapped(xs, a, b, c, d)[i] == xs[i - (a + (d - c) + (c - b)) + a]
    ensures forall i | 0 <= i < a || d <= i < |xs| :: Swapped(xs, a, b, c, d)[i] == xs[i]
  {}

  /** Swapping two sections again, at the lines where they now start, restores the file. */
  lemma SwapTwice(lines: seq<Line>, first: nat, second: nat)
    requires 0 < first < second && HeaderAt(KindsOf(lines), first - 1) && HeaderAt(KindsOf(lines), second - 1)
    ensures SwapPlaces(KindsOf(lines), first, second).Some? && Edited(lines, SwapSections(first, second)).Some?
    ensures var now := Moved(SwapPlaces(KindsOf(lines), first, second).value);
            Edited(Edited(lines, SwapSections(first, second)).value, SwapSections(now.start1 + 1, now.start2 + 1))
            == Some(lines)
  {
    hide SwapPlaces, Swapped, KindsOf, AreSections;
    FoundAreSections(KindsOf(lines), first, second);
    var p := SwapPlaces(KindsOf(lines), first, second).value;
    SectionsAfterSwap(KindsOf(lines), p);
    KindsOfSwapped(lines, p.start1, p.end1, p.start2, p.end2);
    SwappedAt(lines, p.start1, p.end1, p.start2, p.end2);
    SectionsAreFound(KindsOf(Swapped(lines, p.start1, p.end1, p.start2, p.end2)), Moved(p));
    SwappedBack(lines, p.start1, p.end1, p.start2, p.end2);
  }

  lemma SwappedBack<T>(xs: seq<T>, a: nat, b: nat, c: nat, d: nat)
    requires a <= b <= c <= d <= |xs|
    ensures Swapped(Swapped(xs, a, b, c, d), a, a + (d - c), a + (d - c) + (c - b), d) == xs
  {
    hide Swapped;
    var ys, b2, c2 := Swapped(xs, a, b, c, d), a + (d - c), a + (d - c) + (c - b);
    SwappedAt(xs, a, b, c, d);
    SwappedAt(ys, a, b2, c2, d);
    forall i | 0 <= i < |xs|
      ensures Swapped(ys, a, b2, c2, d)[i] == xs[i]
    {}
  }
}
