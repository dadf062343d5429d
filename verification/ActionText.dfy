/** `actions_to_text` and what `get_actions` reads back from its output. */
module ActionText {
  import opened Text
  import opened StringLists
  import opened Bits
  import opened Actions
  import opened ActionTable
  import opened ActionParser
  import opened ActionTokens
  import opened ActionAliases

  // ----- Printing -----------------------------------------------------------

  /** The tokens that one of the DEFINE_ACTION macros of `actions_to_text` prints. */
  function PrintLine(spec: Spec, d: Definition): seq<Token> {
    match d
    case BoolLine(name, bit) =>
      if !On(Union(spec.mask, spec.add), bit) then [Token("-" + name, None)]
      else if On(spec.add, bit) then [Token("+" + name, None)]
      else []
    case StringLine(name, bit, index) =>
      if !On(Union(spec.mask, spec.add), bit) then [Token("-" + name, None)]
      else if On(spec.add, bit) then [Token("+" + name, spec.strings[index])]
      else []
    case MultiLine(name, index) =>
      (if spec.multiRemoveAll[index] then [Token("-" + name, None)]
       else WithOption("-" + name, spec.multiRemove[index]))
      + WithOption("+" + name, spec.multiAdd[index])
  }

  function WithOption(option: string, values: seq<string>): (r: seq<Token>)
    ensures |r| == |values| && forall i | 0 <= i < |r| :: r[i] == Token(option, Some(values[i]))
  {
    seq(|values|, i requires 0 <= i < |values| => Token(option, Some(values[i])))
  }

  /** The tokens for the first lines of actionlist.h. */
  function PrintUpTo(spec: Spec, count: nat): seq<Token>
    requires count <= DEFINITION_COUNT
  {
    if count == 0 then [] else PrintUpTo(spec, count - 1) + PrintLine(spec, DefinitionAt(count - 1))
  }

  /** A token as it is printed, without the continuation at the end of its line. */
  function Piece(token: Token): string {
    " " + token.option + (if token.value.Some? then "{" + token.value.value + "}" else "") + " "
  }

  /** One line per token, each continued on the next. */
  function Render(tokens: seq<Token>): string {
    if tokens == [] then "" else Piece(tokens[0]) + "\\\n" + Render(tokens[1..])
  }

  /** `actions_to_text` */
  function ActionsToText(spec: Spec): string {
    Render(PrintUpTo(spec, DEFINITION_COUNT))
  }

  // ----- Reading lines with continuations ---------------------------------

  /** A backslash at the end of a line joins it with the next one. */
  function JoinLines(s: string): string {
    if |s| < 2 then s
    else if s[0] == '\\' && s[1] == '\n' then JoinLines(s[2..])
    else [s[0]] + JoinLines(s[1..])
  }

  function Pieces(tokens: seq<Token>): string {
    if tokens == [] then "" else Piece(tokens[0]) + Pieces(tokens[1..])
  }

  predicate OneLine(s: string) {
    '\n' !in s
  }

  lemma {:induction false} JoinOneLine(s: string, rest: string)
    requires OneLine(s)
    ensures JoinLines(s + "\\\n" + rest) == s + JoinLines(rest)
  {
    var all := s + "\\\n" + rest;
    if s == [] {
      assert all == "\\\n" + rest;
      assert all[2..] == rest;
    } else {
      var tail := s[1..];
      assert all[1..] == tail + "\\\n" + rest;
      assert |s| > 1 ==> s[1] in s && all[1] == s[1];
      JoinOneLine(tail, rest);
      assert [s[0]] + (tail + JoinLines(rest)) == s + JoinLines(rest);
    }
  }

  // ----- Values and names that survive ------------------------------------

  /** The value reads back as itself: no whitespace around it, no brace in it and no backslash at its end. */
  predicate Survives(v: string) {
    && Trimmed(v)
    && '}' !in v
    && (v != "" ==> v[|v| - 1] != '\\')
  }

  predicate CleanName(option: string) {
    option != "" && forall i | 0 <= i < |option| :: !EndsName(option[i]) && option[i] != '\n'
  }

  predicate CleanToken(t: Token) {
    && CleanName(t.option)
    && (t.value.Some? ==> Survives(t.value.value) && OneLine(t.value.value))
  }

  lemma {:induction false} BraceIsAt(s: string, n: nat)
    requires n < |s| && s[n] == '}' && forall i | 0 <= i < n :: s[i] != '}'
    ensures BracePosition(s) == n
  {
    if n > 0 {
      BraceIsAt(s[1..], n - 1);
    }
  }

  /** Trimming never moves the first brace to the right. */
  lemma ChompKeepsBrace(s: string, n: nat)
    requires n < |s| && s[n] == '}'
    ensures BracePosition(Chomp(s)) <= n && BracePosition(Chomp(s)) < |Chomp(s)|
  {
    var k, m := ChompIsSlice(s);
    assert Chomp(s)[n - k] == '}';
  }

  lemma EscapedBraceStays(s: string)
    requires var n := BracePosition(s); 0 < n < |s| && s[n - 1] == '\\' && ScanValue(s).Some?
    ensures |ScanValue(s).value.0| >= BracePosition(s) && ScanValue(s).value.0[BracePosition(s) - 1] == '}'
  {}

  lemma UnescapedValue(s: string)
    ensures var n := BracePosition(s);
            n < |s| && !(n > 0 && s[n - 1] == '\\') ==> ScanValue(s) == Some((s[..n], s[n + 1..]))
  {}

  /** A value printed between braces reads back as itself exactly when it survives. */
  lemma ValueRoundTrip(v: string, rest: string)
    ensures (ScanValue(v + "}" + rest).Some? && Chomp(ScanValue(v + "}" + rest).value.0) == v) <==> Survives(v)
    ensures Survives(v) ==> ScanValue(v + "}" + rest) == Some((v, rest))
  {
    hide ScanValue, Chomp, Trimmed, BracePosition;
    var s := v + "}" + rest;
    var n := BracePosition(s);
    assert s[|v|] == '}' && n <= |v|;
    UnescapedValue(s);
    if n < |v| {
      assert v[n] == s[n] && v[n] in v;
      assert forall i | 0 <= i < n :: v[i] == s[i];
    }
    if n > 0 && s[n - 1] == '\\' {
      EscapedValueIsLost(v, s, n);
      assert s[n - 1] == v[n - 1];
    } else if n < |v| {
      ChompIsShorter(s[..n]);
    } else {
      assert s[..n] == v && s[n + 1..] == rest;
      ChompFixpoint(v);
      assert '}' !in v;
    }
  }

  lemma ChompIsShorter(s: string)
    ensures |Chomp(s)| <= |s|
  {
    var k, m := ChompIsSlice(s);
  }

  lemma EscapedValueIsLost(v: string, s: string, n: nat)
    requires n == BracePosition(s) && 0 < n <= |v| && n < |s| && s[n - 1] == '\\'
    requires forall i | 0 <= i < n :: v[i] == s[i]
    ensures ScanValue(s).None? || Chomp(ScanValue(s).value.0) != v
  {
    if ScanValue(s).Some? {
      EscapedBraceStays(s);
      ChompKeepsBrace(ScanValue(s).value.0, n - 1);
      assert forall i | 0 <= i < n :: v[i] != '}';
    }
  }

  // ----- Tokens of the printed text ----------------------------------------

  lemma PieceIsOneLine(t: Token)
    requires CleanToken(t)
    ensures OneLine(Piece(t))
  {}

  lemma {:induction false} JoinRendered(tokens: seq<Token>)
    requires forall i | 0 <= i < |tokens| :: CleanToken(tokens[i])
    ensures JoinLines(Render(tokens)) == Pieces(tokens)
  {
    hide CleanToken, OneLine, Piece;
    if tokens != [] {
      PieceIsOneLine(tokens[0]);
      JoinOneLine(Piece(tokens[0]), Render(tokens[1..]));
      JoinRendered(tokens[1..]);
    }
  }

  /** The first token of a line that starts with a printed one. */
  lemma PieceComesFirst(t: Token, rest: string)
    requires CleanToken(t)
    ensures NextToken(Piece(t) + rest) == Got(t, if t.value.None? then rest else " " + rest)
  {
    hide ScanValue, Chomp, Trimmed, BracePosition, OneLine;
    var line := Piece(t) + rest;
    var s := t.option + (if t.value.Some? then "{" + t.value.value + "}" else "") + " " + rest;
    assert line[0] == ' ' && line[1..] == s;
    SkipOneBlank(line);
    SkipNoBlank(s);
    var n := |t.option|;
    NameLengthIs(s, n);
    assert s[..n] == t.option;
    if t.value.None? {
      assert s[n + 1..] == rest;
    } else {
      assert s[n + 1..] == t.value.value + "}" + (" " + rest);
      ValueRoundTrip(t.value.value, " " + rest);
      ChompFixpoint(t.value.value);
    }
  }

  lemma BlankBeforeToken(line: string)
    ensures Tokenize(" " + line) == Tokenize(line)
  {
    SkipOneBlank(" " + line);
    assert (" " + line)[1..] == line;
    assert NextToken(" " + line) == NextToken(line);
  }

  lemma {:induction false} TokenizePieces(tokens: seq<Token>)
    requires forall i | 0 <= i < |tokens| :: CleanToken(tokens[i])
    ensures Tokenize(Pieces(tokens)) == Some(tokens)
  {
    hide CleanToken, Piece, NextToken;
    if tokens == [] {
      EmptyLine();
    } else {
      var rest := Pieces(tokens[1..]);
      TokenizePieces(tokens[1..]);
      PieceComesFirst(tokens[0], rest);
      BlankBeforeToken(rest);
      assert Pieces(tokens) == Piece(tokens[0]) + rest;
      assert [tokens[0]] + tokens[1..] == tokens;
    }
  }

  lemma EmptyLine()
    ensures NextToken("") == End
  {}

  // ----- What the printed tokens mean ---------------------------------------

  /** A specification that can be printed: coherent, and every value it prints survives. */
  predicate Printable(spec: Spec) {
    && Coherent(spec)
    && (forall k | 0 <= k < STRING_COUNT :: On(spec.add, StringBit(k)) ==> PrintableValue(spec.strings[k].value))
    && (forall k, i | 0 <= k < MULTI_COUNT && 0 <= i < |spec.multiAdd[k]| :: PrintableValue(spec.multiAdd[k][i]))
    && (forall k, i | 0 <= k < MULTI_COUNT && 0 <= i < |spec.multiRemove[k]| ::
          PrintableValue(spec.multiRemove[k][i]) && spec.multiRemove[k][i] != "*")
  }

  predicate PrintableValue(v: string) {
    v != "" && Survives(v) && OneLine(v)
  }

  /** What a list update becomes when it is printed and read again. */
  function ReadBackMulti(m: Multi): Multi {
    var add := AddAllUnique([], m.add);
    if m.removeAll then Multi(true, [], add)
    else Multi(false, WithoutAll(AddAllUnique([], m.remove), m.add), add)
  }

  lemma {:induction false} ParseTokensAppend(spec: Spec, front: seq<Token>, back: seq<Token>, aliases: seq<Alias>)
    requires ParseTokens(spec, front, aliases).Ok?
    ensures ParseTokens(spec, front + back, aliases)
         == ParseTokens(ParseTokens(spec, front, aliases).value, back, aliases)
    decreases |front|
  {
    hide ParseToken;
    if front == [] {
      assert front + back == back;
    } else {
      assert (front + back)[1..] == front[1..] + back;
      ParseTokensAppend(ParseToken(spec, front[0], aliases).value, front[1..], back, aliases);
    }
  }

  lemma ParseOne(spec: Spec, t: Token, aliases: seq<Alias>)
    ensures ParseTokens(spec, [t], aliases) == ParseToken(spec, t, aliases)
  {
    hide ParseToken;
    assert [t][1..] == [];
  }

  // The printed names are found again, before any alias is looked at.

  lemma SignedNamesDiffer(a: string, b: string)
    ensures !EqualsIgnoreCase("+" + a, "-" + b) && !EqualsIgnoreCase("-" + a, "+" + b)
    ensures EqualsIgnoreCase("+" + a, "+" + b) <==> EqualsIgnoreCase(a, b)
    ensures EqualsIgnoreCase("-" + a, "-" + b) <==> EqualsIgnoreCase(a, b)
  {
    assert ("+" + a)[1..] == a && ("+" + b)[1..] == b;
    assert ("-" + a)[1..] == a && ("-" + b)[1..] == b;
  }

  function SignedName(i: nat, plus: bool): string
    requires i < DEFINITION_COUNT
  {
    (if plus then "+" else "-") + DefinitionAt(i).name
  }

  function EntryIndex(i: nat, plus: bool): nat {
    if plus then 2 * i else 2 * i + 1
  }

  lemma OneEntryMatches(i: nat, plus: bool, k: nat)
    requires i < DEFINITION_COUNT && k <= EntryIndex(i, plus)
    ensures EqualsIgnoreCase(EntryAt(k).name, SignedName(i, plus)) <==> k == EntryIndex(i, plus)
  {
    hide DefinitionAt, EqualsIgnoreCase;
    var name := DefinitionAt(i).name;
    SignedNamesDiffer(DefinitionAt(k / 2).name, name);
    if k / 2 == i {
      SameName(SignedName(i, plus));
    } else {
      NamesDiffer(k / 2, i);
    }
  }

  lemma {:induction false} FindFrom(i: nat, plus: bool, k: nat)
    requires i < DEFINITION_COUNT && k <= EntryIndex(i, plus)
    ensures FindEntry(SignedName(i, plus), k) == Some(EntryAt(EntryIndex(i, plus)))
    decreases 2 * i + 1 - k
  {
    hide DefinitionAt, EqualsIgnoreCase, EntryAt, SignedName;
    OneEntryMatches(i, plus, k);
    if k < EntryIndex(i, plus) {
      FindFrom(i, plus, k + 1);
    }
  }

  lemma SameName(name: string)
    ensures EqualsIgnoreCase(name, name)
  {}

  lemma PrintedNameIsClean(i: nat)
    requires i < DEFINITION_COUNT
    ensures CleanName("+" + DefinitionAt(i).name) && CleanName("-" + DefinitionAt(i).name)
  {
    hide DefinitionAt;
    AboutTheLine(i);
  }

  // ----- Lists -----------------------------------------------------------------

  lemma NoFlagChange(spec: Spec, entry: ActionName)
    requires entry.mask == MASK_ALL && entry.add == 0
    ensures UpdateFlags(spec, entry) == spec
  {
    hide MergeMask, MergeAdd;
    MaskAllKeeps(spec.add);
    MaskAllMerges(spec.mask);
  }

  lemma SetMultiTwice(spec: Spec, k: nat, m: Multi, n: Multi)
    requires k < MULTI_COUNT
    ensures SetMulti(SetMulti(spec, k, m), k, n) == SetMulti(spec, k, n)
    ensures SetMulti(spec, k, m).MultiAt(k) == m
  {}

  lemma SetMultiSame(spec: Spec, k: nat)
    requires k < MULTI_COUNT
    ensures SetMulti(spec, k, spec.MultiAt(k)) == spec
  {}

  lemma ParseMultiToken(spec: Spec, i: nat, plus: bool, value: Option<string>, aliases: seq<Alias>)
    requires i < DEFINITION_COUNT && DefinitionAt(i).MultiLine? && (plus ==> !NoText(value))
    ensures var d := DefinitionAt(i);
            ParseToken(spec, Token((if plus then "+" else "-") + d.name, value), aliases)
            == Ok(SetMulti(spec, d.index, if plus then AddToMulti(spec.MultiAt(d.index), value.value)
                                          else RemoveFromMulti(spec.MultiAt(d.index), value)))
  {
    hide DefinitionAt, EqualsIgnoreCase, FindEntry, AddToMulti, RemoveFromMulti, SetMulti;
    FindFrom(i, plus, 0);
    NoFlagChange(spec, if plus then PlusEntry(DefinitionAt(i)) else MinusEntry(DefinitionAt(i)));
  }

  lemma WithOptionLast(option: string, values: seq<string>)
    requires values != []
    ensures WithOption(option, values)
         == WithOption(option, values[..|values| - 1]) + [Token(option, Some(values[|values| - 1]))]
  {}

  lemma {:induction false} RemovesParse(spec: Spec, i: nat, values: seq<string>, aliases: seq<Alias>)
    requires i < DEFINITION_COUNT && DefinitionAt(i).MultiLine? && !spec.multiRemoveAll[DefinitionAt(i).index]
    requires forall j | 0 <= j < |values| :: values[j] != "" && values[j] != "*"
    ensures var k := DefinitionAt(i).index;
            ParseTokens(spec, WithOption("-" + DefinitionAt(i).name, values), aliases)
            == Ok(SetMulti(spec, k,
                Multi(false, AddAllUnique(spec.multiRemove[k], values), WithoutAll(spec.multiAdd[k], values))))
    decreases |values|
  {
    hide DefinitionAt, ParseToken, SetMulti, WithOption;
    var k, option := DefinitionAt(i).index, "-" + DefinitionAt(i).name;
    if values == [] {
      assert WithOption(option, []) == [];
      SetMultiSame(spec, k);
    } else {
      var n := |values| - 1;
      RemovesParse(spec, i, values[..n], aliases);
      WithOptionLast(option, values);
      var before := ParseTokens(spec, WithOption(option, values[..n]), aliases).value;
      ParseTokensAppend(spec, WithOption(option, values[..n]), [Token(option, Some(values[n]))], aliases);
      ParseOne(before, Token(option, Some(values[n])), aliases);
      ParseMultiToken(before, i, false, Some(values[n]), aliases);
      SetMultiTwice(spec, k,
          Multi(false, AddAllUnique(spec.multiRemove[k], values[..n]), WithoutAll(spec.multiAdd[k], values[..n])),
                    RemoveFromMulti(before.MultiAt(k), Some(values[n])));
    }
  }

  lemma {:induction false} AddsParse(spec: Spec, i: nat, values: seq<string>, aliases: seq<Alias>)
    requires i < DEFINITION_COUNT && DefinitionAt(i).MultiLine? && forall j | 0 <= j < |values| :: values[j] != ""
    ensures var k := DefinitionAt(i).index;
            ParseTokens(spec, WithOption("+" + DefinitionAt(i).name, values), aliases)
            == Ok(SetMulti(spec, k,
                Multi(spec.multiRemoveAll[k], WithoutAll(spec.multiRemove[k], values),
                    AddAllUnique(spec.multiAdd[k], values))))
    decreases |values|
  {
    hide DefinitionAt, ParseToken, SetMulti, WithOption;
    var k, option := DefinitionAt(i).index, "+" + DefinitionAt(i).name;
    if values == [] {
      assert WithOption(option, []) == [];
      SetMultiSame(spec, k);
    } else {
      var n := |values| - 1;
      AddsParse(spec, i, values[..n], aliases);
      WithOptionLast(option, values);
      var before := ParseTokens(spec, WithOption(option, values[..n]), aliases).value;
      ParseTokensAppend(spec, WithOption(option, values[..n]), [Token(option, Some(values[n]))], aliases);
      ParseOne(before, Token(option, Some(values[n])), aliases);
      ParseMultiToken(before, i, true, Some(values[n]), aliases);
      SetMultiTwice(spec, k,
          Multi(spec.multiRemoveAll[k], WithoutAll(spec.multiRemove[k], values[..n]),
              AddAllUnique(spec.multiAdd[k], values[..n])),
                    AddToMulti(before.MultiAt(k), values[n]));
    }
  }

  // ----- The whole specification -------------------------------------------

  /** `s` is what has been read back after the first `count` lines of actionlist.h were printed. */
  ghost predicate ReadBackUpTo(a: Spec, count: nat, s: Spec) {
    && (forall bit | 0 <= bit < BITS :: BitReadBack(a, count, s, bit))
    && (forall k | 0 <= k < STRING_COUNT :: StringReadBack(a, count, s, k))
    && (forall k | 0 <= k < MULTI_COUNT :: MultiReadBack(a, count, s, k))
  }

  predicate BitReadBack(a: Spec, count: nat, s: Spec, bit: nat)
    requires bit < BITS
  {
    if BitPosition(bit) < count then
      On(s.mask, bit) == On(Union(a.mask, a.add), bit) && On(s.add, bit) == On(a.add, bit)
    else
      On(s.mask, bit) && !On(s.add, bit)
  }

  predicate StringReadBack(a: Spec, count: nat, s: Spec, k: nat)
    requires k < STRING_COUNT
  {
    s.strings[k] == if BitPosition(StringBit(k)) < count && On(a.add, StringBit(k)) then a.strings[k] else None
  }

  predicate MultiReadBack(a: Spec, count: nat, s: Spec, k: nat)
    requires k < MULTI_COUNT
  {
    s.MultiAt(k) == if MultiPosition(k) < count then ReadBackMulti(a.MultiAt(k)) else Multi(false, [], [])
  }

  lemma ListsReadBack(a: Spec, i: nat, s: Spec, aliases: seq<Alias>)
    requires Printable(a) && i < DEFINITION_COUNT && DefinitionAt(i).MultiLine? && ReadBackUpTo(a, i, s)
    ensures ParseTokens(s, PrintLine(a, DefinitionAt(i)), aliases)
         == Ok(SetMulti(s, DefinitionAt(i).index, ReadBackMulti(a.MultiAt(DefinitionAt(i).index))))
  {
    hide DefinitionAt, ParseToken, SetMulti, On, Coherent;
    var k, name := DefinitionAt(i).index, DefinitionAt(i).name;
    AboutTheLine(i);
    assert MultiReadBack(a, i, s, k);
    assert s.MultiAt(k) == Multi(false, [], []);
    var m := a.MultiAt(k);
    var removes := if m.removeAll then [Token("-" + name, None)] else WithOption("-" + name, m.remove);
    if m.removeAll {
      ParseOne(s, removes[0], aliases);
      ParseMultiToken(s, i, false, None, aliases);
    } else {
      RemovesParse(s, i, m.remove, aliases);
    }
    var before := ParseTokens(s, removes, aliases).value;
    AddsParse(before, i, m.add, aliases);
    ParseTokensAppend(s, removes, WithOption("+" + name, m.add), aliases);
    SetMultiTwice(s, k, before.MultiAt(k), ReadBackMulti(m));
    NothingToRemove([], m.remove);
    NothingToRemove([], m.add);
    SetMultiTwice(s, k, Multi(true, [], []), before.MultiAt(k));
    SetMultiTwice(s, k, Multi(false, AddAllUnique([], m.remove), []), before.MultiAt(k));
  }

  lemma {:induction false} NothingToRemove(xs: seq<string>, ys: seq<string>)
    requires xs == []
    ensures WithoutAll(xs, ys) == []
  {
    if ys != [] {
      NothingToRemove(xs, ys[..|ys| - 1]);
    }
  }

  /** Printing a flag line and reading it back sets that flag and no other. */
  lemma FlagsReadBack(a: Spec, i: nat, s: Spec, bit: nat)
    requires i < DEFINITION_COUNT && !DefinitionAt(i).MultiLine? && bit < BITS && BitReadBack(a, i, s, bit)
    ensures var d := DefinitionAt(i);
            if !On(Union(a.mask, a.add), d.bit) then BitReadBack(a, i + 1, UpdateFlags(s, MinusEntry(d)), bit)
            else if On(a.add, d.bit) then BitReadBack(a, i + 1, UpdateFlags(s, PlusEntry(d)), bit)
            else BitReadBack(a, i + 1, s, bit)
  {
    hide DefinitionAt, On, Flag, Complement, MergeMask, MergeAdd, Union, BitPosition, StringOf, StringBit;
    var d := DefinitionAt(i);
    AboutTheLine(i);
    BitPositionIsInverse(bit);
    OnUnion(a.mask, a.add, d.bit);
    OnFlag(d.bit, bit);
    OnMerge(s.mask, MASK_ALL, 0, bit);
    OnMerge(s.mask, Complement(Flag(d.bit)), 0, bit);
    OnMerge(s.add, MASK_ALL, Flag(d.bit), bit);
    OnMerge(s.add, Complement(Flag(d.bit)), 0, bit);
  }

  /** What a flag line adds to the specification when it is read back. */
  function FlagLineRead(a: Spec, d: Definition, s: Spec): Spec
    requires !d.MultiLine?
  {
    if !On(Union(a.mask, a.add), d.bit) then
      var t := UpdateFlags(s, MinusEntry(d));
      if d.StringLine? then t.(strings := t.strings[d.index := None]) else t
    else if On(a.add, d.bit) then
      var t := UpdateFlags(s, PlusEntry(d));
      if d.StringLine? then t.(strings := t.strings[d.index := a.strings[d.index]]) else t
    else s
  }

  lemma FlagLineParses(a: Spec, i: nat, s: Spec, aliases: seq<Alias>)
    requires Printable(a) && i < DEFINITION_COUNT && !DefinitionAt(i).MultiLine?
    ensures ParseTokens(s, PrintLine(a, DefinitionAt(i)), aliases) == Ok(FlagLineRead(a, DefinitionAt(i), s))
  {
    hide DefinitionAt, On, Flag, Complement, MergeMask, MergeAdd, Union, StringOf, EqualsIgnoreCase, FindEntry;
    hide EntryOk, StringBit, Survives, UpdateFlags;
    var d := DefinitionAt(i);
    LineEntriesOk(d);
    FindFrom(i, true, 0);
    FindFrom(i, false, 0);
    if d.StringLine? {
      StringBitIsInverse(d.bit);
      assert CoherentAt(a.mask, a.add, a.strings[d.index], StringBit(d.index));
    }
    var tokens := PrintLine(a, d);
    if tokens != [] {
      ParseOne(s, tokens[0], aliases);
      assert tokens == [tokens[0]];
    }
  }

  lemma StringsReadBack(a: Spec, i: nat, s: Spec, k: nat)
    requires i < DEFINITION_COUNT && !DefinitionAt(i).MultiLine? && k < STRING_COUNT
    requires StringReadBack(a, i, s, k)
    ensures StringReadBack(a, i + 1, FlagLineRead(a, DefinitionAt(i), s), k)
  {
    hide DefinitionAt, On, Flag, Complement, MergeMask, MergeAdd, Union, BitPosition, StringOf, StringBit;
    var d := DefinitionAt(i);
    AboutTheLine(i);
    BitPositionIsInverse(StringBit(k));
    OnUnion(a.mask, a.add, d.bit);
    if d.StringLine? {
      StringBitIsInverse(d.bit);
    }
  }

  lemma OneLineReadBack(a: Spec, i: nat, s: Spec, aliases: seq<Alias>)
    requires Printable(a) && i < DEFINITION_COUNT && ReadBackUpTo(a, i, s)
    ensures ParseTokens(s, PrintLine(a, DefinitionAt(i)), aliases).Ok?
    ensures ReadBackUpTo(a, i + 1, ParseTokens(s, PrintLine(a, DefinitionAt(i)), aliases).value)
  {
    hide DefinitionAt, On, Flag, Complement, Union, MergeMask, MergeAdd, StringBit, StringOf, BitPosition;
    hide MultiPosition, ParseTokens, PrintLine, Printable;
    var d, next := DefinitionAt(i), i + 1;
    AboutTheLine(i);
    var t := if d.MultiLine? then SetMulti(s, d.index, ReadBackMulti(a.MultiAt(d.index))) else FlagLineRead(a, d, s);
    if d.MultiLine? {
      ListsReadBack(a, i, s, aliases);
    } else {
      FlagLineParses(a, i, s, aliases);
    }
    forall bit | 0 <= bit < BITS
      ensures BitReadBack(a, next, t, bit)
    {
      assert BitReadBack(a, i, s, bit);
      BitPositionIsInverse(bit);
      if !d.MultiLine? {
        FlagsReadBack(a, i, s, bit);
      }
    }
    forall k | 0 <= k < STRING_COUNT
      ensures StringReadBack(a, next, t, k)
    {
      assert StringReadBack(a, i, s, k);
      BitPositionIsInverse(StringBit(k));
      if !d.MultiLine? {
        StringsReadBack(a, i, s, k);
      }
    }
    forall k | 0 <= k < MULTI_COUNT
      ensures MultiReadBack(a, next, t, k)
    {
      assert MultiReadBack(a, i, s, k);
      MultiPositionIsInverse(k);
    }
  }

  lemma NothingReadBackYet(a: Spec)
    ensures ReadBackUpTo(a, 0, Neutral())
  {
    hide On, Flag, StringBit, BitPosition, MultiPosition;
    forall bit | 0 <= bit < BITS
      ensures BitReadBack(a, 0, Neutral(), bit)
    {
      OnFlag(0, bit);
    }
  }

  lemma {:induction false} LinesReadBack(a: Spec, count: nat, aliases: seq<Alias>)
    requires Printable(a) && count <= DEFINITION_COUNT
    ensures ParseTokens(Neutral(), PrintUpTo(a, count), aliases).Ok?
    ensures ReadBackUpTo(a, count, ParseTokens(Neutral(), PrintUpTo(a, count), aliases).value)
  {
    hide DefinitionAt, ParseToken, PrintLine, Printable, ReadBackUpTo;
    if count == 0 {
      NothingReadBackYet(a);
    } else {
      LinesReadBack(a, count - 1, aliases);
      var front := PrintUpTo(a, count - 1);
      ParseTokensAppend(Neutral(), front, PrintLine(a, DefinitionAt(count - 1)), aliases);
      OneLineReadBack(a, count - 1, ParseTokens(Neutral(), front, aliases).value, aliases);
    }
  }

  lemma LineIsClean(a: Spec, i: nat)
    requires Printable(a) && i < DEFINITION_COUNT
    ensures forall j | 0 <= j < |PrintLine(a, DefinitionAt(i))| :: CleanToken(PrintLine(a, DefinitionAt(i))[j])
  {
    hide DefinitionAt, On, Union, StringBit, StringOf, CleanName, Survives, OneLine;
    PrintedNameIsClean(i);
    var d := DefinitionAt(i);
    if d.StringLine? {
      StringBitIsInverse(d.bit);
    }
  }

  lemma {:induction false} PrintedIsClean(a: Spec, count: nat)
    requires Printable(a) && count <= DEFINITION_COUNT
    ensures forall j | 0 <= j < |PrintUpTo(a, count)| :: CleanToken(PrintUpTo(a, count)[j])
  {
    hide DefinitionAt, PrintLine, Printable, CleanToken;
    if count > 0 {
      PrintedIsClean(a, count - 1);
      LineIsClean(a, count - 1);
    }
  }

  /** What printing and parsing make of a specification. */
  function ReadBack(a: Spec): Spec {
    SpecRecord(
      Union(a.mask, a.add),
      a.add,
      seq(STRING_COUNT, k requires 0 <= k < STRING_COUNT => if On(a.add, StringBit(k)) then a.strings[k] else None),
      a.multiRemoveAll,
      seq(MULTI_COUNT, k requires 0 <= k < MULTI_COUNT => ReadBackMulti(a.MultiAt(k)).remove),
      seq(MULTI_COUNT, k requires 0 <= k < MULTI_COUNT => ReadBackMulti(a.MultiAt(k)).add))
  }

  lemma AllLinesReadBack(a: Spec, s: Spec)
    requires ReadBackUpTo(a, DEFINITION_COUNT, s)
    ensures s == ReadBack(a)
  {
    hide On, StringBit, Union, BitPosition, MultiPosition, DefinitionAt, ReadBackMulti;
    var expected := ReadBack(a);
    forall bit | 0 <= bit < BITS
      ensures On(s.mask, bit) == On(expected.mask, bit) && On(s.add, bit) == On(expected.add, bit)
    {
      assert BitReadBack(a, DEFINITION_COUNT, s, bit);
      BitPositionIsInverse(bit);
    }
    SameFlags(s.mask, expected.mask);
    SameFlags(s.add, expected.add);
    forall k | 0 <= k < STRING_COUNT
      ensures s.strings[k] == expected.strings[k]
    {
      assert StringReadBack(a, DEFINITION_COUNT, s, k);
      BitPositionIsInverse(StringBit(k));
    }
    forall k | 0 <= k < MULTI_COUNT
      ensures s.multiRemoveAll[k] == expected.multiRemoveAll[k]
      ensures s.multiRemove[k] == expected.multiRemove[k] && s.multiAdd[k] == expected.multiAdd[k]
    {
      assert MultiReadBack(a, DEFINITION_COUNT, s, k);
      MultiPositionIsInverse(k);
      ReadBackKeepsRemoveAll(a.MultiAt(k));
    }
    assert s.strings == expected.strings && s.multiRemoveAll == expected.multiRemoveAll;
    assert s.multiRemove == expected.multiRemove && s.multiAdd == expected.multiAdd;
  }

  lemma ReadBackKeepsRemoveAll(m: Multi)
    ensures ReadBackMulti(m).removeAll == m.removeAll
  {}

  /** Printing a specification, joining the continued lines and parsing the result gives the
      specification with its mask widened by the add bits, its unused strings dropped and its
      lists in normal form, whatever aliases are defined. */
  lemma PrintThenParse(a: Spec, aliases: seq<Alias>)
    requires Printable(a)
    ensures GetActions(Neutral(), JoinLines(ActionsToText(a)), aliases) == Ok(ReadBack(a))
  {
    hide Printable, CleanToken, Piece, Tokenize, GetActions, ParseTokens, PrintLine, DefinitionAt, ReadBackUpTo;
    hide ReadBack;
    var tokens := PrintUpTo(a, DEFINITION_COUNT);
    PrintedIsClean(a, DEFINITION_COUNT);
    JoinRendered(tokens);
    TokenizePieces(tokens);
    GetActionsOfTokens(Neutral(), Pieces(tokens), aliases);
    LinesReadBack(a, DEFINITION_COUNT, aliases);
    AllLinesReadBack(a, ParseTokens(Neutral(), tokens, aliases).value);
  }

  lemma ReadBackMultiMembers(values: seq<string>, m: Multi)
    ensures SameMembers(ApplyMulti(values, m), ApplyMulti(values, ReadBackMulti(m)))
  {
    ApplyMultiMembers(values, m);
    ApplyMultiMembers(values, ReadBackMulti(m));
    AddAllUniqueMembers([], m.add);
    AddAllUniqueMembers([], m.remove);
    WithoutAllMembers(AddAllUnique([], m.remove), m.add);
  }

  /** What is read back has the same effect on all current actions, and on each list with the
      order of its values where nothing is both removed and added. */
  lemma ReadBackHasSameEffect(current: Current, a: Spec)
    requires Coherent(a)
    ensures Similar(Apply(current, a), Apply(current, ReadBack(a)))
    ensures forall k | 0 <= k < MULTI_COUNT && Orderly(a.MultiAt(k)) && Disjoint(a.MultiAt(k)) ::
              Apply(current, a).multis[k] == Apply(current, ReadBack(a)).multis[k]
  {
    hide On, StringBit, Union, MergeAdd, ApplyMulti, ReadBackMulti;
    var left, right := Apply(current, a), Apply(current, ReadBack(a));
    forall bit | 0 <= bit < BITS
      ensures On(left.flags, bit) == On(right.flags, bit)
    {
      OnMerge(current.flags, a.mask, a.add, bit);
      OnMerge(current.flags, Union(a.mask, a.add), a.add, bit);
      OnUnion(a.mask, a.add, bit);
    }
    SameFlags(left.flags, right.flags);
    forall k | 0 <= k < STRING_COUNT && On(left.flags, StringBit(k))
      ensures left.strings[k] == right.strings[k]
    {
      assert CoherentAt(a.mask, a.add, a.strings[k], StringBit(k));
      OnMerge(current.flags, a.mask, a.add, StringBit(k));
    }
    forall k | 0 <= k < MULTI_COUNT
      ensures SameMembers(left.multis[k], right.multis[k])
    {
      ReadBackMultiMembers(current.multis[k], a.MultiAt(k));
      ReadBackKeepsRemoveAll(a.MultiAt(k));
    }
    forall k | 0 <= k < MULTI_COUNT && Orderly(a.MultiAt(k)) && Disjoint(a.MultiAt(k))
      ensures left.multis[k] == right.multis[k]
    {
      ReadBackIsExact(a.MultiAt(k));
      ReadBackAt(a, k);
    }
  }

  lemma ReadBackAt(a: Spec, k: nat)
    requires k < MULTI_COUNT
    ensures ReadBack(a).MultiAt(k) == ReadBackMulti(a.MultiAt(k))
  {
    hide ReadBackMulti;
    ReadBackKeepsRemoveAll(a.MultiAt(k));
  }

  // ----- When the lists come back unchanged --------------------------------

  /** Lists without repetitions, and nothing listed next to a "remove all". */
  ghost predicate Orderly(m: Multi) {
    && NoDuplicates(m.remove) && NoDuplicates(m.add)
    && (m.removeAll ==> m.remove == [])
  }

  ghost predicate Disjoint(m: Multi) {
    forall v | v in m.add :: v !in m.remove
  }

  lemma {:induction false} WithoutAllDisjoint(xs: seq<string>, ys: seq<string>)
    requires forall y | y in ys :: y !in xs
    ensures WithoutAll(xs, ys) == xs
  {
    if ys != [] {
      var n := |ys| - 1;
      WithoutAllDisjoint(xs, ys[..n]);
      WithoutAbsent(xs, ys[n]);
    }
  }

  /** An orderly list update comes back unchanged exactly when nothing is both removed and added. */
  lemma ReadBackIsExact(m: Multi)
    requires Orderly(m)
    ensures ReadBackMulti(m) == m <==> Disjoint(m)
  {
    AddAllUniqueDisjoint([], m.add);
    AddAllUniqueDisjoint([], m.remove);
    WithoutAllMembers(m.remove, m.add);
    if Disjoint(m) {
      WithoutAllDisjoint(m.remove, m.add);
    }
    assert [] + m.add == m.add && [] + m.remove == m.remove;
  }

  lemma {:induction false} AddAllUniqueExtends(xs: seq<string>, ys: seq<string>)
    ensures |AddAllUnique(xs, ys)| >= |xs| && AddAllUnique(xs, ys)[..|xs|] == xs
  {
    if ys != [] {
      AddAllUniqueExtends(xs, ys[..|ys| - 1]);
    }
  }

  /** A string that is longer than all of a list. */
  lemma {:induction false} LongerString(xs: seq<string>) returns (w: string)
    ensures forall x | x in xs :: |x| < |w|
  {
    if xs == [] {
      w := [];
    } else {
      var n := |xs| - 1;
      var longer := LongerString(xs[..n]);
      w := longer + xs[n] + [NUL];
      assert xs == xs[..n] + [xs[n]];
    }
  }

  /** Of two values only the second is left. */
  lemma OnlySecondIsLeft(v: string, w: string, rs: seq<string>)
    requires v != w && v in rs && w !in rs
    ensures WithoutAll([v, w], rs) == [w]
  {
    hide WithoutAll;
    WithoutAllMembers([v, w], rs);
    WithoutAllKeepsUnique([v, w], rs);
    var left := WithoutAll([v, w], rs);
    assert w in [v, w] && w in left;
    forall i | 0 <= i < |left|
      ensures left[i] == w
    {
      assert left[i] in left;
    }
    assert left[0] == left[|left| - 1] == w;
  }

  /** A value that is both removed and added moves behind other values, but not after printing. */
  lemma OverlapChangesOrder(m: Multi, v: string, w: string)
    requires Orderly(m) && v in m.add && v in m.remove && w !in m.add && w !in m.remove
    ensures ApplyMulti([v, w], m) != ApplyMulti([v, w], ReadBackMulti(m))
  {
    hide WithoutAll, AddAllUnique;
    var kept := WithoutAll(AddAllUnique([], m.remove), m.add);
    OnlySecondIsLeft(v, w, m.remove);
    AddAllUniqueMembers([], m.remove);
    WithoutAllMembers(AddAllUnique([], m.remove), m.add);
    WithoutAllDisjoint([v, w], kept);
    AddAllUniqueExtends([w], m.add);
    AddAllUniqueExtends([v, w], AddAllUnique([], m.add));
    var left, right := ApplyMulti([v, w], m), ApplyMulti([v, w], ReadBackMulti(m));
    assert left[..1][0] == w && right[..2][0] == v;
  }

  /** An orderly list update has the same effect after printing and reading, order included, on all
      lists exactly when nothing is both removed and added. */
  lemma ReadBackKeepsEffect(m: Multi)
    requires Orderly(m)
    ensures Disjoint(m)
       <==> forall values | NoDuplicates(values) :: ApplyMulti(values, m) == ApplyMulti(values, ReadBackMulti(m))
  {
    hide ApplyMulti, ReadBackMulti;
    ReadBackIsExact(m);
    if !Disjoint(m) {
      var v :| v in m.add && v in m.remove;
      var w := LongerString(m.add + m.remove);
      assert v in m.add + m.remove && |v| < |w|;
      assert forall x | x in m.add || x in m.remove :: x in m.add + m.remove;
      assert w !in m.add && w !in m.remove;
      OverlapChangesOrder(m, v, w);
      assert NoDuplicates([v, w]);
    }
  }

  /** Parsing keeps list updates orderly, and disjoint as long as no alias is merged in. */
  lemma PerformKeepsOrder(spec: Spec, entry: ActionName, value: Option<string>, k: nat)
    requires EntryOk(entry) && Perform(spec, entry, value).Ok? && k < MULTI_COUNT && Orderly(spec.MultiAt(k))
    ensures Orderly(Perform(spec, entry, value).value.MultiAt(k))
    ensures Disjoint(spec.MultiAt(k)) ==> Disjoint(Perform(spec, entry, value).value.MultiAt(k))
  {
    hide Perform, EntryOk;
    PerformMultiAt(spec, entry, value, k);
    var m := spec.MultiAt(k);
    if value.Some? {
      WithoutKeepsUnique(m.remove, value.value);
      WithoutKeepsUnique(m.add, value.value);
      WithoutMembers(m.remove, value.value);
      WithoutMembers(m.add, value.value);
    }
  }

  lemma MergeKeepsOrder(a: Multi, b: Multi)
    requires Orderly(a) && Orderly(b)
    ensures Orderly(MergeMulti(a, b))
  {
    WithoutAllKeepsUnique(a.add, b.remove);
    AddAllUniqueMembers(WithoutAll(a.add, b.remove), b.add);
    AddAllUniqueMembers(a.remove, b.remove);
  }

  ghost predicate AllOrderly(spec: Spec) {
    forall k | 0 <= k < MULTI_COUNT :: Orderly(spec.MultiAt(k))
  }

  ghost predicate AllDisjoint(spec: Spec) {
    forall k | 0 <= k < MULTI_COUNT :: Disjoint(spec.MultiAt(k))
  }

  /** The name of a standard action, or of nothing that is merged in. */
  ghost predicate NoAlias(token: Token, aliases: seq<Alias>) {
    FindEntry(token.option, 0).Some? || FindAlias(aliases, token.option).None?
  }

  lemma {:induction false} FoundAliasIsOrderly(aliases: seq<Alias>, option: string)
    requires forall i | 0 <= i < |aliases| :: AllOrderly(aliases[i].action)
    ensures FindAlias(aliases, option).Some? ==> AllOrderly(FindAlias(aliases, option).value)
  {
    hide EqualsIgnoreCase, AllOrderly;
    if aliases != [] {
      FoundAliasIsOrderly(aliases[1..], option);
    }
  }

  lemma MergeIsOrderly(a: Spec, b: Spec)
    requires AllOrderly(a) && AllOrderly(b)
    ensures AllOrderly(Merge(a, b))
  {
    hide MergeMulti, MergeMask, MergeAdd, Orderly;
    forall k | 0 <= k < MULTI_COUNT
      ensures Orderly(Merge(a, b).MultiAt(k))
    {
      MergeKeepsOrder(a.MultiAt(k), b.MultiAt(k));
      assert Merge(a, b).MultiAt(k) == MergeMulti(a.MultiAt(k), b.MultiAt(k));
    }
  }

  lemma PerformIsOrderly(spec: Spec, entry: ActionName, value: Option<string>)
    requires EntryOk(entry) && Perform(spec, entry, value).Ok? && AllOrderly(spec)
    ensures AllOrderly(Perform(spec, entry, value).value)
    ensures AllDisjoint(spec) ==> AllDisjoint(Perform(spec, entry, value).value)
  {
    hide Perform, EntryOk, Orderly, Disjoint;
    forall k | 0 <= k < MULTI_COUNT
      ensures Orderly(Perform(spec, entry, value).value.MultiAt(k))
      ensures Disjoint(spec.MultiAt(k)) ==> Disjoint(Perform(spec, entry, value).value.MultiAt(k))
    {
      PerformKeepsOrder(spec, entry, value, k);
    }
  }

  lemma TokenKeepsOrder(spec: Spec, token: Token, aliases: seq<Alias>)
    requires ParseToken(spec, token, aliases).Ok? && AllOrderly(spec)
    requires forall i | 0 <= i < |aliases| :: AllOrderly(aliases[i].action)
    ensures AllOrderly(ParseToken(spec, token, aliases).value)
    ensures NoAlias(token, aliases) && AllDisjoint(spec) ==> AllDisjoint(ParseToken(spec, token, aliases).value)
  {
    hide FindEntry, FindAlias, Perform, EntryOk, Merge, AllOrderly, AllDisjoint, UsedToBeValid, EqualsIgnoreCase;
    if FindEntry(token.option, 0).Some? {
      FoundEntryOk(token.option, 0);
      PerformIsOrderly(spec, FindEntry(token.option, 0).value, token.value);
    } else if FindAlias(aliases, token.option).Some? {
      FoundAliasIsOrderly(aliases, token.option);
      MergeIsOrderly(spec, FindAlias(aliases, token.option).value);
    }
  }

  lemma {:induction false} TokensKeepOrder(spec: Spec, tokens: seq<Token>, aliases: seq<Alias>)
    requires ParseTokens(spec, tokens, aliases).Ok? && AllOrderly(spec)
    requires forall i | 0 <= i < |aliases| :: AllOrderly(aliases[i].action)
    ensures AllOrderly(ParseTokens(spec, tokens, aliases).value)
    ensures (forall i | 0 <= i < |tokens| :: NoAlias(tokens[i], aliases)) && AllDisjoint(spec)
        ==> AllDisjoint(ParseTokens(spec, tokens, aliases).value)
    decreases |tokens|
  {
    hide ParseToken, AllOrderly, AllDisjoint, NoAlias;
    if tokens != [] {
      TokenKeepsOrder(spec, tokens[0], aliases);
      TokensKeepOrder(ParseToken(spec, tokens[0], aliases).value, tokens[1..], aliases);
    }
  }

  lemma NeutralIsOrderly()
    ensures AllOrderly(Neutral()) && AllDisjoint(Neutral())
  {}

  lemma {:induction false} AliasesAreOrderly(lines: seq<AliasLine>)
    requires DefineAliases(lines).Ok?
    ensures forall i | 0 <= i < |DefineAliases(lines).value| :: AllOrderly(DefineAliases(lines).value[i].action)
    decreases |lines|
  {
    hide ParseTokens, AllOrderly;
    if lines != [] {
      var n := |lines| - 1;
      AliasesAreOrderly(lines[..n]);
      NeutralIsOrderly();
      TokensKeepOrder(Neutral(), lines[n].tokens, DefineAliases(lines[..n]).value);
    }
  }

  /** Every list of a parsed specification is orderly, whatever aliases it uses. A line without aliases
      removes nothing that it adds, so printing and reading gives back exactly its lists. */
  lemma ParsedIsOrderly(lines: seq<AliasLine>, tokens: seq<Token>, aliases: seq<Alias>, spec: Spec)
    requires DefineAliases(lines) == Ok(aliases) && ParseTokens(Neutral(), tokens, aliases) == Ok(spec)
    ensures AllOrderly(spec)
    ensures (forall i | 0 <= i < |tokens| :: NoAlias(tokens[i], aliases)) ==>
              forall k | 0 <= k < MULTI_COUNT ::
                Disjoint(spec.MultiAt(k)) && ReadBack(spec).MultiAt(k) == spec.MultiAt(k)
  {
    hide ParseTokens, NoAlias, ReadBack, ReadBackMulti, Orderly, Disjoint;
    AliasesAreOrderly(lines);
    NeutralIsOrderly();
    TokensKeepOrder(Neutral(), tokens, aliases);
    forall k | 0 <= k < MULTI_COUNT
      ensures Disjoint(spec.MultiAt(k)) ==> ReadBack(spec).MultiAt(k) == spec.MultiAt(k)
    {
      ReadBackIsExact(spec.MultiAt(k));
      ReadBackAt(spec, k);
    }
  }

  /** Merging can leave a value both removed and added. Printing then drops the removal, and a
      list that had the value keeps it in its old place instead of moving it to the end. */
  lemma OverlapLosesItsOrder(v: string, w: string)
    requires v != w
    ensures var overlap := MergeMulti(Multi(false, [v], []), Multi(false, [], [v]));
            && Orderly(overlap) && !Disjoint(overlap)
            && ApplyMulti([v, w], overlap) == [w, v]
            && ApplyMulti([v, w], ReadBackMulti(overlap)) == [v, w]
  {
    hide Without, WithoutAll, AddUnique, AddAllUnique;
    OneValueLists(v);
    MoveToTheEnd(v, w);
    var overlap := MergeMulti(Multi(false, [v], []), Multi(false, [], [v]));
    assert overlap == Multi(false, [v], [v]);
    assert v in overlap.add && v in overlap.remove;
  }

  lemma OneValueLists(v: string)
    ensures AddAllUnique([], [v]) == [v] && AddAllUnique([v], []) == [v] && AddAllUnique([], []) == []
    ensures WithoutAll([v], [v]) == [] && WithoutAll([], []) == []
  {
    assert [v][..0] == [];
    assert Without([v], v) == [];
  }

  lemma MoveToTheEnd(v: string, w: string)
    requires v != w
    ensures AddAllUnique(WithoutAll([v, w], [v]), [v]) == [w, v]
    ensures AddAllUnique(WithoutAll([v, w], []), [v]) == [v, w]
  {
    assert [v][..0] == [];
    assert [v, w][..1] == [v] && [v, w][..0] == [];
    assert Without([v], v) == [];
    assert Without([v, w], v) == [w];
    assert WithoutAll([v, w], [v]) == [w];
  }
}
