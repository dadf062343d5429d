/** Aliases are macros: a line that uses aliases has the same effect as the
    line with every alias replaced by its definition, one action at a time. */
module ActionAliases {
  import opened Text
  import opened StringLists
  import opened Bits
  import opened Actions
  import opened ActionTable
  import opened ActionParser

  // ----- Coherent specifications and similar current actions --------------

  /** A string that is switched on exists, and a string that exists is switched on or switched off. */
  predicate Coherent(spec: Spec) {
    forall i | 0 <= i < STRING_COUNT :: CoherentAt(spec.mask, spec.add, spec.strings[i], StringBit(i))
  }

  predicate CoherentAt(mask: bv31, add: bv31, s: Option<string>, bit: nat)
    requires bit < BITS
  {
    && (On(add, bit) ==> s.Some?)
    && (s.Some? ==> On(add, bit) || !On(mask, bit))
  }

  /** The same flags, the same string wherever its flag is set, and the same set of values in every list. */
  ghost predicate Similar(a: Current, b: Current) {
    && a.flags == b.flags
    && (forall i | 0 <= i < STRING_COUNT :: On(a.flags, StringBit(i)) ==> a.strings[i] == b.strings[i])
    && (forall i | 0 <= i < MULTI_COUNT :: SameMembers(a.multis[i], b.multis[i]))
  }

  ghost predicate SameMembers(xs: seq<string>, ys: seq<string>) {
    forall v :: v in xs <==> v in ys
  }

  lemma NeutralIsCoherent()
    ensures Coherent(Neutral())
  {
    forall i | 0 <= i < STRING_COUNT
      ensures CoherentAt(Neutral().mask, Neutral().add, Neutral().strings[i], StringBit(i))
    {
      OnFlag(0, StringBit(i));
    }
  }

  lemma MergeIsCoherent(a: Spec, b: Spec)
    requires Coherent(a) && Coherent(b)
    ensures Coherent(Merge(a, b))
  {
    hide On, MergeMask, MergeAdd, StringBit;
    forall i | 0 <= i < STRING_COUNT
      ensures CoherentAt(Merge(a, b).mask, Merge(a, b).add, Merge(a, b).strings[i], StringBit(i))
    {
      assert CoherentAt(a.mask, a.add, a.strings[i], StringBit(i));
      assert CoherentAt(b.mask, b.add, b.strings[i], StringBit(i));
      OnMerge(a.add, b.mask, b.add, StringBit(i));
      OnMerge(a.mask, b.mask, b.add, StringBit(i));
    }
  }

  /** What one action leaves of a string. */
  function StringAfter(s: Option<string>, entry: ActionName, value: Option<string>, i: nat): Option<string> {
    if entry.valueType == AddString && entry.index == i then StringValue(entry, value)
    else if entry.valueType == RemString && entry.index == i then None
    else s
  }

  lemma IndexFits(entry: ActionName)
    requires EntryOk(entry)
    ensures entry.valueType in {AddString, RemString} ==> entry.index < STRING_COUNT
    ensures entry.valueType in {AddMulti, RemMulti} ==> entry.index < MULTI_COUNT
  {
    hide On;
  }

  lemma SetMultiKeeps(s: Spec, i: nat, m: Multi)
    requires i < MULTI_COUNT
    ensures SetMulti(s, i, m).strings == s.strings && SetMulti(s, i, m).mask == s.mask && SetMulti(s, i, m).add == s.add
  {}

  lemma PerformStringAt(spec: Spec, entry: ActionName, value: Option<string>, i: nat)
    requires EntryOk(entry) && Perform(spec, entry, value).Ok? && i < STRING_COUNT
    ensures var result := Perform(spec, entry, value).value;
            && result.strings[i] == StringAfter(spec.strings[i], entry, value, i)
            && result.mask == MergeMask(spec.mask, entry.mask)
            && result.add == MergeAdd(spec.add, entry.mask, entry.add)
    ensures Single(entry, value).Ok?
  {
    hide EntryOk, On, MergeMask, MergeAdd, StringValue, AddToMulti, RemoveFromMulti, SetMulti;
    IndexFits(entry);
    var s := UpdateFlags(spec, entry);
    match entry.valueType
    case AddMulti => SetMultiKeeps(s, entry.index, AddToMulti(s.MultiAt(entry.index), value.value));
    case RemMulti => SetMultiKeeps(s, entry.index, RemoveFromMulti(s.MultiAt(entry.index), value));
    case _ =>
  }

  /** A string is set by the action whose flag stands for it, and by no other. */
  lemma EntryTouches(entry: ActionName, value: Option<string>, i: nat)
    requires EntryOk(entry) && i < STRING_COUNT && Perform(Neutral(), entry, value).Ok?
    ensures On(entry.add, StringBit(i)) <==> entry.valueType == AddString && entry.index == i
    ensures On(entry.mask, StringBit(i)) <==> !(entry.valueType == RemString && entry.index == i)
    ensures entry.valueType == AddString && entry.index == i ==> StringValue(entry, value).Some?
  {
    OnFlag(0, StringBit(i));
    hide On, MergeMask, MergeAdd, StringBit, StringValue, AddToMulti, RemoveFromMulti;
  }

  lemma PerformIsCoherent(spec: Spec, entry: ActionName, value: Option<string>)
    requires Coherent(spec) && EntryOk(entry) && Perform(spec, entry, value).Ok?
    ensures Coherent(Perform(spec, entry, value).value)
  {
    hide On, MergeMask, MergeAdd, StringBit, Perform, EntryOk, StringValue;
    var result := Perform(spec, entry, value).value;
    forall i | 0 <= i < STRING_COUNT
      ensures CoherentAt(result.mask, result.add, result.strings[i], StringBit(i))
    {
      assert CoherentAt(spec.mask, spec.add, spec.strings[i], StringBit(i));
      PerformStringAt(spec, entry, value, i);
      EntryTouches(entry, value, i);
      OnMerge(spec.add, entry.mask, entry.add, StringBit(i));
      OnMerge(spec.mask, entry.mask, entry.add, StringBit(i));
    }
  }

  lemma SimilarIsTransitive(a: Current, b: Current, c: Current)
    requires Similar(a, b) && Similar(b, c)
    ensures Similar(a, c)
  {
    hide On, StringBit;
    forall i | 0 <= i < MULTI_COUNT
      ensures SameMembers(a.multis[i], c.multis[i])
    {
      assert SameMembers(a.multis[i], b.multis[i]) && SameMembers(b.multis[i], c.multis[i]);
    }
  }

  lemma ApplyMultiMembers(values: seq<string>, m: Multi)
    ensures forall v :: v in ApplyMulti(values, m) <==> v in m.add || (!m.removeAll && v in values && v !in m.remove)
  {
    WithoutAllMembers(values, m.remove);
    AddAllUniqueMembers(WithoutAll(values, m.remove), m.add);
  }

  /** Similar actions stay similar under the same coherent update. */
  lemma ApplyRespectsSimilar(a: Current, b: Current, spec: Spec)
    requires Similar(a, b) && Coherent(spec)
    ensures Similar(Apply(a, spec), Apply(b, spec))
  {
    hide On, MergeMask, MergeAdd, StringBit, ApplyMulti;
    forall i | 0 <= i < STRING_COUNT && On(Apply(a, spec).flags, StringBit(i))
      ensures Apply(a, spec).strings[i] == Apply(b, spec).strings[i]
    {
      assert CoherentAt(spec.mask, spec.add, spec.strings[i], StringBit(i));
      OnMerge(a.flags, spec.mask, spec.add, StringBit(i));
    }
    forall i | 0 <= i < MULTI_COUNT
      ensures SameMembers(Apply(a, spec).multis[i], Apply(b, spec).multis[i])
    {
      assert SameMembers(a.multis[i], b.multis[i]);
      ApplyMultiMembers(a.multis[i], spec.MultiAt(i));
      ApplyMultiMembers(b.multis[i], spec.MultiAt(i));
    }
  }

  // ----- One standard action at a time ------------------------------------

  lemma AddToMultiMembers(values: seq<string>, m: Multi, v: string)
    ensures SameMembers(ApplyMulti(values, AddToMulti(m, v)),
                        ApplyMulti(ApplyMulti(values, m), AddToMulti(Multi(false, [], []), v)))
  {
    hide ApplyMulti;
    ApplyMultiMembers(values, AddToMulti(m, v));
    ApplyMultiMembers(values, m);
    ApplyMultiMembers(ApplyMulti(values, m), AddToMulti(Multi(false, [], []), v));
    WithoutMembers(m.remove, v);
  }

  lemma RemoveFromMultiMembers(values: seq<string>, m: Multi, v: Option<string>)
    ensures SameMembers(ApplyMulti(values, RemoveFromMulti(m, v)),
                        ApplyMulti(ApplyMulti(values, m), RemoveFromMulti(Multi(false, [], []), v)))
  {
    hide ApplyMulti;
    ApplyMultiMembers(values, RemoveFromMulti(m, v));
    ApplyMultiMembers(values, m);
    ApplyMultiMembers(ApplyMulti(values, m), RemoveFromMulti(Multi(false, [], []), v));
    if v.Some? {
      WithoutMembers(m.add, v.value);
    }
  }

  lemma PerformStrings(current: Current, spec: Spec, entry: ActionName, value: Option<string>, i: nat)
    requires EntryOk(entry) && Perform(spec, entry, value).Ok? && i < STRING_COUNT
    ensures Single(entry, value).Ok?
    ensures var left := Apply(current, Perform(spec, entry, value).value);
            var right := Apply(Apply(current, spec), Single(entry, value).value);
            left.flags == right.flags && (On(left.flags, StringBit(i)) ==> left.strings[i] == right.strings[i])
  {
    hide On, MergeMask, MergeAdd, StringBit, StringValue, Perform, EntryOk;
    PerformStringAt(spec, entry, value, i);
    PerformStringAt(Neutral(), entry, value, i);
    EntryTouches(entry, value, i);
    AddComposes(current.flags, spec.mask, spec.add, entry.mask, entry.add);
    OnMerge(Apply(current, spec).flags, entry.mask, entry.add, StringBit(i));
    NothingToKeep(entry.mask, entry.add);
    MaskAllKeeps(entry.mask);
  }

  lemma PerformMultiAt(spec: Spec, entry: ActionName, value: Option<string>, i: nat)
    requires EntryOk(entry) && Perform(spec, entry, value).Ok? && i < MULTI_COUNT
    ensures entry.valueType == AddMulti && entry.index == i ==> value.Some?
    ensures Perform(spec, entry, value).value.MultiAt(i) ==
            if entry.valueType == AddMulti && entry.index == i then AddToMulti(spec.MultiAt(i), value.value)
            else if entry.valueType == RemMulti && entry.index == i then RemoveFromMulti(spec.MultiAt(i), value)
            else spec.MultiAt(i)
  {
    hide On, MergeMask, MergeAdd, StringBit, StringValue, AddToMulti, RemoveFromMulti;
  }

  lemma PerformMultis(current: Current, spec: Spec, entry: ActionName, value: Option<string>, i: nat)
    requires EntryOk(entry) && Perform(spec, entry, value).Ok? && Single(entry, value).Ok? && i < MULTI_COUNT
    ensures SameMembers(Apply(current, Perform(spec, entry, value).value).multis[i],
                        Apply(Apply(current, spec), Single(entry, value).value).multis[i])
  {
    hide EntryOk, Perform, ApplyMulti, AddToMulti, RemoveFromMulti, WithoutAll, AddAllUnique;
    PerformMultiAt(spec, entry, value, i);
    PerformMultiAt(Neutral(), entry, value, i);
    var values, m := current.multis[i], spec.MultiAt(i);
    ApplyMultiMembers(ApplyMulti(values, m), Multi(false, [], []));
    if entry.valueType == AddMulti && entry.index == i {
      AddToMultiMembers(values, m, value.value);
    } else if entry.valueType == RemMulti && entry.index == i {
      RemoveFromMultiMembers(values, m, value);
    }
  }

  /** Adding an action to a specification has the effect of performing it afterwards. */
  lemma PerformIsApply(current: Current, spec: Spec, entry: ActionName, value: Option<string>)
    requires EntryOk(entry) && Perform(spec, entry, value).Ok?
    ensures Single(entry, value).Ok?
    ensures Similar(Apply(current, Perform(spec, entry, value).value),
                    Apply(Apply(current, spec), Single(entry, value).value))
  {
    hide On, StringBit, Perform, Single, Apply, SameMembers;
    var left := Apply(current, Perform(spec, entry, value).value);
    PerformStrings(current, spec, entry, value, 0);
    var right := Apply(Apply(current, spec), Single(entry, value).value);
    forall i | 0 <= i < STRING_COUNT && On(left.flags, StringBit(i))
      ensures left.strings[i] == right.strings[i]
    {
      PerformStrings(current, spec, entry, value, i);
    }
    forall i | 0 <= i < MULTI_COUNT
      ensures SameMembers(left.multis[i], right.multis[i])
    {
      PerformMultis(current, spec, entry, value, i);
    }
  }

  // ----- Aliases -----------------------------------------------------------

  /** A line of the {{alias}} block. */
  datatype AliasLine = AliasLine(name: string, tokens: seq<Token>)

  /** The alias list after the {{alias}} block: newest first; a line may use the aliases above it. */
  function DefineAliases(lines: seq<AliasLine>): Parsed<seq<Alias>> {
    if lines == [] then Ok([])
    else
      var n := |lines| - 1;
      var earlier := DefineAliases(lines[..n]);
      if !earlier.Ok? then earlier
      else
        match ParseTokens(Neutral(), lines[n].tokens, earlier.value)
        case Ok(spec) => Ok([Alias(lines[n].name, spec)] + earlier.value)
        case ParseError => ParseError
        case Exit => Exit
  }

  function LatestLine(lines: seq<AliasLine>, option: string): (k: Option<nat>)
    ensures k.Some? ==> k.value < |lines|
  {
    if lines == [] then None
    else if EqualsIgnoreCase(lines[|lines| - 1].name, option) then Some(|lines| - 1)
    else LatestLine(lines[..|lines| - 1], option)
  }

  /** The tokens with every alias written out; names that are no longer valid disappear. */
  function Expand(tokens: seq<Token>, lines: seq<AliasLine>): seq<Token>
    decreases |lines|, |tokens|
  {
    if tokens == [] then [] else ExpandToken(tokens[0], lines) + Expand(tokens[1..], lines)
  }

  function ExpandToken(token: Token, lines: seq<AliasLine>): seq<Token>
    decreases |lines|, 0
  {
    var k := LatestLine(lines, token.option);
    if FindEntry(token.option, 0).Some? then [token]
    else if k.Some? then Expand(lines[k.value].tokens, lines[..k.value])
    else []
  }

  /** Standard actions performed one by one; None if one of them is not a standard action or is malformed. */
  function PerformInTurn(current: Current, tokens: seq<Token>): Option<Current>
    decreases |tokens|
  {
    if tokens == [] then Some(current)
    else
      var entry := FindEntry(tokens[0].option, 0);
      if entry.None? then None
      else
        FoundEntryOk(tokens[0].option, 0);
        var single := Single(entry.value, tokens[0].value);
        if single.Ok? then PerformInTurn(Apply(current, single.value), tokens[1..]) else None
  }

  lemma {:induction false} PerformInTurnAppend(current: Current, front: seq<Token>, back: seq<Token>)
    requires PerformInTurn(current, front).Some?
    ensures PerformInTurn(current, front + back) == PerformInTurn(PerformInTurn(current, front).value, back)
    decreases |front|
  {
    if front == [] {
      assert front + back == back;
    } else {
      FoundEntryOk(front[0].option, 0);
      assert (front + back)[1..] == front[1..] + back;
      var first := Single(FindEntry(front[0].option, 0).value, front[0].value).value;
      PerformInTurnAppend(Apply(current, first), front[1..], back);
    }
  }

  /** Looking an alias up in the list finds the latest line of that name, parsed under the lines above it. */
  lemma {:induction false} AliasIsLatestLine(lines: seq<AliasLine>, aliases: seq<Alias>, option: string)
    requires DefineAliases(lines) == Ok(aliases)
    ensures LatestLine(lines, option).None? ==> FindAlias(aliases, option).None?
    ensures LatestLine(lines, option).Some? ==>
      var k := LatestLine(lines, option).value;
      && DefineAliases(lines[..k]).Ok?
      && ParseTokens(Neutral(), lines[k].tokens, DefineAliases(lines[..k]).value).Ok?
      && FindAlias(aliases, option)
         == Some(ParseTokens(Neutral(), lines[k].tokens, DefineAliases(lines[..k]).value).value)
  {
    if lines != [] {
      var n := |lines| - 1;
      assert aliases[1..] == DefineAliases(lines[..n]).value;
      AliasIsLatestLine(lines[..n], aliases[1..], option);
      if !EqualsIgnoreCase(lines[n].name, option) && LatestLine(lines, option).Some? {
        assert lines[..n][..LatestLine(lines, option).value] == lines[..LatestLine(lines, option).value];
      }
    }
  }

  /** `next` follows from `spec`: it is coherent, and on top of `current` it achieves
      what `tokens` achieve on top of `done`. */
  ghost predicate Achieves(current: Current, next: Spec, done: Current, tokens: seq<Token>) {
    && Coherent(next)
    && PerformInTurn(done, tokens).Some?
    && Similar(Apply(current, next), PerformInTurn(done, tokens).value)
  }

  lemma StandardStep(current: Current, spec: Spec, done: Current, token: Token, entry: ActionName)
    requires Coherent(spec) && Similar(Apply(current, spec), done)
    requires FindEntry(token.option, 0) == Some(entry) && EntryOk(entry) && Perform(spec, entry, token.value).Ok?
    ensures Achieves(current, Perform(spec, entry, token.value).value, done, [token])
  {
    hide Coherent, Similar, Apply, Perform, FindEntry, EntryOk;
    PerformIsCoherent(spec, entry, token.value);
    PerformIsApply(current, spec, entry, token.value);
    var single := Single(entry, token.value).value;
    NeutralIsCoherent();
    PerformIsCoherent(Neutral(), entry, token.value);
    ApplyRespectsSimilar(Apply(current, spec), done, single);
    SimilarIsTransitive(Apply(current, Perform(spec, entry, token.value).value), Apply(Apply(current, spec), single),
        Apply(done, single));
    assert [token][1..] == [];
    assert PerformInTurn(Apply(done, single), []) == Some(Apply(done, single));
  }

  lemma AliasStep(current: Current, spec: Spec, done: Current, alias: Spec, body: seq<Token>)
    requires Coherent(spec) && Similar(Apply(current, spec), done)
    requires Achieves(done, alias, done, body)
    ensures Achieves(current, Merge(spec, alias), done, body)
  {
    hide Coherent, Similar, Apply, Merge;
    MergeIsCoherent(spec, alias);
    ApplyMerge(current, spec, alias);
    ApplyRespectsSimilar(Apply(current, spec), done, alias);
    SimilarIsTransitive(Apply(current, Merge(spec, alias)), Apply(done, alias), PerformInTurn(done, body).value);
  }

  lemma {:induction false} TokenExpansion(current: Current, spec: Spec, done: Current,
                                          token: Token, lines: seq<AliasLine>, aliases: seq<Alias>)
    requires DefineAliases(lines) == Ok(aliases)
    requires Coherent(spec) && Similar(Apply(current, spec), done)
    requires ParseToken(spec, token, aliases).Ok?
    ensures Achieves(current, ParseToken(spec, token, aliases).value, done, ExpandToken(token, lines))
    decreases |lines|, 0
  {
    hide Coherent, Similar, Apply, Merge, Perform, FindEntry, FindAlias, UsedToBeValid, DefineAliases, EntryOk;
    hide Achieves, LatestLine, Expand;
    var entry := FindEntry(token.option, 0);
    if entry.Some? {
      FoundEntryOk(token.option, 0);
      StandardStep(current, spec, done, token, entry.value);
    } else {
      AliasIsLatestLine(lines, aliases, token.option);
      var k := LatestLine(lines, token.option);
      if k.Some? {
        var earlier, body := DefineAliases(lines[..k.value]).value, lines[k.value].tokens;
        NeutralIsCoherent();
        NeutralChangesNothing(done);
        SimilarIsReflexive(done);
        Expansion(done, Neutral(), done, body, lines[..k.value], earlier);
        AliasStep(current, spec, done, ParseTokens(Neutral(), body, earlier).value, Expand(body, lines[..k.value]));
      } else {
        NothingAchieved(current, spec, done);
      }
    }
  }

  lemma NothingAchieved(current: Current, spec: Spec, done: Current)
    requires Coherent(spec) && Similar(Apply(current, spec), done)
    ensures Achieves(current, spec, done, [])
  {}

  /** The induction behind AliasesAreMacros: `done` is what `spec` has achieved so far. */
  lemma {:induction false} Expansion(current: Current, spec: Spec, done: Current,
                                     tokens: seq<Token>, lines: seq<AliasLine>, aliases: seq<Alias>)
    requires DefineAliases(lines) == Ok(aliases)
    requires Coherent(spec) && Similar(Apply(current, spec), done)
    requires ParseTokens(spec, tokens, aliases).Ok?
    ensures Achieves(current, ParseTokens(spec, tokens, aliases).value, done, Expand(tokens, lines))
    decreases |lines|, |tokens|
  {
    hide Coherent, Similar, Apply, DefineAliases, ParseToken, ExpandToken;
    if tokens == [] {
      NothingAchieved(current, spec, done);
    } else {
      var expansion := ExpandToken(tokens[0], lines);
      TokenExpansion(current, spec, done, tokens[0], lines, aliases);
      PerformInTurnAppend(done, expansion, Expand(tokens[1..], lines));
      Expansion(current, ParseToken(spec, tokens[0], aliases).value, PerformInTurn(done, expansion).value,
          tokens[1..], lines, aliases);
    }
  }

  lemma SimilarIsReflexive(current: Current)
    ensures Similar(current, current)
  {}

  /** A line that uses aliases acts like its macro expansion: for every current actions the flags
      agree, the strings whose flag is set agree, and every list has the same members. */
  lemma AliasesAreMacros(current: Current, tokens: seq<Token>, lines: seq<AliasLine>, aliases: seq<Alias>, spec: Spec)
    requires DefineAliases(lines) == Ok(aliases)
    requires ParseTokens(Neutral(), tokens, aliases) == Ok(spec)
    ensures Coherent(spec)
    ensures PerformInTurn(current, Expand(tokens, lines)).Some?
    ensures Similar(Apply(current, spec), PerformInTurn(current, Expand(tokens, lines)).value)
  {
    NeutralIsCoherent();
    NeutralChangesNothing(current);
    SimilarIsReflexive(current);
    Expansion(current, Neutral(), current, tokens, lines, aliases);
  }
}
