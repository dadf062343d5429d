/** What each standard action does to the actions in force. */
module ActionEffects {
  import opened Text
  import opened StringLists
  import opened Bits
  import opened Actions
  import opened ActionTable
  import opened ActionParser
  import opened ActionText

  ghost predicate HasText(value: Option<string>) {
    value.Some? && value.value != ""
  }

  /** The flag: on behind a plus, off behind a minus; actions with lists have none. */
  ghost predicate FlagsAfter(d: Definition, plus: bool, before: bv31, after: bv31) {
    forall bit | 0 <= bit < BITS ::
      On(after, bit) <==> if !d.MultiLine? && bit == d.bit then plus else On(before, bit)
  }

  /** The string: replaced behind a plus, and left behind when the flag goes off. */
  ghost predicate StringsAfter(d: Definition, plus: bool, value: Option<string>, before: Current, after: Current) {
    forall k | 0 <= k < STRING_COUNT ::
      after.strings[k] == if d.StringLine? && plus && k == d.index
                          then Some(if HasText(value) then value.value else "No reason specified.")
                          else before.strings[k]
  }

  /** The list: one more value unless it is there already, one value less, or nothing. */
  ghost predicate ListAfter(plus: bool, value: Option<string>, before: seq<string>, after: seq<string>) {
    if plus then HasText(value) && after == if value.value in before then before else before + [value.value]
    else if !HasText(value) || value.value == "*" then after == []
    else
      && (forall v :: v in after <==> v in before && v != value.value)
      && (forall front, back | before == front + [value.value] + back && value.value !in front + back ::
            after == front + back)
  }

  ghost predicate ListsAfter(d: Definition, plus: bool, value: Option<string>, before: Current, after: Current) {
    forall k | 0 <= k < MULTI_COUNT ::
      if d.MultiLine? && k == d.index then ListAfter(plus, value, before.multis[k], after.multis[k])
      else after.multis[k] == before.multis[k]
  }

  /** The value is one the action takes. */
  ghost predicate Fits(d: Definition, plus: bool, value: Option<string>) {
    match d
    case BoolLine(_, _) => value.None?
    case StringLine(name, _, _) => plus ==> HasText(value) || name == "block"
    case MultiLine(_, _) => plus ==> HasText(value)
  }

  /** What the text of one action does to the actions in force: its own flag, string and list, and nothing else. */
  lemma ActionDoes(i: nat, plus: bool, value: Option<string>, aliases: seq<Alias>, before: Current)
    requires i < DEFINITION_COUNT && Fits(DefinitionAt(i), plus, value)
    ensures var d := DefinitionAt(i);
            var parsed := ParseToken(Neutral(), Token((if plus then "+" else "-") + d.name, value), aliases);
            && parsed.Ok?
            && var after := Apply(before, parsed.value);
               && FlagsAfter(d, plus, before.flags, after.flags)
               && StringsAfter(d, plus, value, before, after)
               && ListsAfter(d, plus, value, before, after)
  {
    hide DefinitionAt, FindEntry, EqualsIgnoreCase, Perform, Apply, FlagsAfter, StringsAfter, ListsAfter, Fits;
    var d := DefinitionAt(i);
    var entry := if plus then PlusEntry(d) else MinusEntry(d);
    FindFrom(i, plus, 0);
    LineEntriesOk(d);
    match d
    case BoolLine(_, _) => FlagDoes(d, plus, value, before);
    case StringLine(_, _, _) => StringDoes(d, plus, value, before);
    case MultiLine(_, _) => ListDoes(d, plus, value, before);
  }

  lemma FlagsMerged(d: Definition, plus: bool, before: bv31)
    requires !d.MultiLine?
    ensures var entry := if plus then PlusEntry(d) else MinusEntry(d);
            && MergeAdd(0, entry.mask, entry.add) == entry.add && MergeMask(MASK_ALL, entry.mask) == entry.mask
            && FlagsAfter(d, plus, before, MergeAdd(before, entry.mask, entry.add))
  {
    hide MergeAdd, MergeMask, Flag, Complement, On;
    var entry := if plus then PlusEntry(d) else MinusEntry(d);
    NothingToKeep(entry.mask, entry.add);
    MaskAllKeeps(entry.mask);
    forall bit | 0 <= bit < BITS
      ensures On(MergeAdd(before, entry.mask, entry.add), bit) <==> if bit == d.bit then plus else On(before, bit)
    {
      OnMerge(before, entry.mask, entry.add, bit);
      OnFlag(d.bit, bit);
    }
  }

  /** Without lists or a string to add, an update leaves them as they are. */
  lemma NothingElse(before: Current, spec: Spec)
    requires spec.multiRemoveAll == Neutral().multiRemoveAll
    requires spec.multiRemove == NO_LISTS && spec.multiAdd == NO_LISTS
    ensures Apply(before, spec).multis == before.multis
    ensures forall k | 0 <= k < STRING_COUNT && spec.strings[k].None? ::
              Apply(before, spec).strings[k] == before.strings[k]
  {
    hide MergeAdd;
  }

  lemma FlagDoes(d: Definition, plus: bool, value: Option<string>, before: Current)
    requires d.BoolLine? && Fits(d, plus, value)
    ensures var entry := if plus then PlusEntry(d) else MinusEntry(d);
            && EntryOk(entry) && Perform(Neutral(), entry, value).Ok?
            && var after := Apply(before, Perform(Neutral(), entry, value).value);
               && FlagsAfter(d, plus, before.flags, after.flags)
               && StringsAfter(d, plus, value, before, after) && ListsAfter(d, plus, value, before, after)
  {
    hide MergeAdd, MergeMask, FlagsAfter, EntryOk;
    LineEntriesOk(d);
    FlagsMerged(d, plus, before.flags);
    var entry := if plus then PlusEntry(d) else MinusEntry(d);
    NothingElse(before, Perform(Neutral(), entry, value).value);
  }

  lemma StringDoes(d: Definition, plus: bool, value: Option<string>, before: Current)
    requires d.StringLine? && Fits(d, plus, value)
    ensures var entry := if plus then PlusEntry(d) else MinusEntry(d);
            && EntryOk(entry) && Perform(Neutral(), entry, value).Ok?
            && var after := Apply(before, Perform(Neutral(), entry, value).value);
               && FlagsAfter(d, plus, before.flags, after.flags)
               && StringsAfter(d, plus, value, before, after) && ListsAfter(d, plus, value, before, after)
  {
    hide MergeAdd, MergeMask, FlagsAfter;
    LineEntriesOk(d);
    FlagsMerged(d, plus, before.flags);
    var entry := if plus then PlusEntry(d) else MinusEntry(d);
    NothingElse(before, Perform(Neutral(), entry, value).value);
  }

  lemma ListDoes(d: Definition, plus: bool, value: Option<string>, before: Current)
    requires d.MultiLine? && Fits(d, plus, value)
    ensures var entry := if plus then PlusEntry(d) else MinusEntry(d);
            && EntryOk(entry) && Perform(Neutral(), entry, value).Ok?
            && var after := Apply(before, Perform(Neutral(), entry, value).value);
               && FlagsAfter(d, plus, before.flags, after.flags)
               && StringsAfter(d, plus, value, before, after) && ListsAfter(d, plus, value, before, after)
  {
    hide MergeAdd, MergeMask, ListAfter, SetMulti, AddToMulti, RemoveFromMulti, ApplyMulti;
    LineEntriesOk(d);
    var entry := if plus then PlusEntry(d) else MinusEntry(d);
    NoFlagChange(Neutral(), entry);
    MaskAllKeeps(before.flags);
    ListChange(d, plus, value, before);
  }

  /** What one action on a list makes of an update without lists. */
  function Change(plus: bool, value: Option<string>): Multi
    requires plus ==> HasText(value)
  {
    if plus then AddToMulti(Multi(false, [], []), value.value) else RemoveFromMulti(Multi(false, [], []), value)
  }

  lemma ListChange(d: Definition, plus: bool, value: Option<string>, before: Current)
    requires d.MultiLine? && (plus ==> HasText(value))
    ensures var after := Apply(before, SetMulti(Neutral(), d.index, Change(plus, value)));
            && after.flags == before.flags
            && StringsAfter(d, plus, value, before, after) && ListsAfter(d, plus, value, before, after)
  {
    hide ListAfter, Change, MergeAdd;
    MaskAllKeeps(before.flags);
    OneListChanges(plus, value, before.multis[d.index]);
  }

  lemma OneListChanges(plus: bool, value: Option<string>, before: seq<string>)
    requires plus ==> HasText(value)
    ensures ListAfter(plus, value, before, ApplyMulti(before, Change(plus, value)))
  {
    if value.Some? {
      var v := value.value;
      assert Without([], v) == [] && WithoutAll(before, []) == before && AddAllUnique(before, []) == before;
      assert AddAllUnique(before, [v]) == AddUnique(before, v) by {
        assert [v][..0] == [];
      }
      assert WithoutAll(before, [v]) == Without(before, v) by {
        assert [v][..0] == [];
      }
      if !plus && HasText(value) && v != "*" {
        OneValueLess(before, v);
      }
    }
  }

  lemma OneValueLess(before: seq<string>, v: string)
    ensures forall w :: w in Without(before, v) <==> w in before && w != v
    ensures forall front, back | before == front + [v] + back && v !in front + back ::
              Without(before, v) == front + back
  {
    WithoutMembers(before, v);
    forall front, back | before == front + [v] + back && v !in front + back
      ensures Without(before, v) == front + back
    {
      WithoutLast(front, back, v);
    }
  }

  lemma {:induction false} WithoutLast(front: seq<string>, back: seq<string>, v: string)
    requires v !in front && v !in back
    ensures Without(front + [v] + back, v) == front + back
  {
    var all := front + [v] + back;
    if back == [] {
      assert all[..|all| - 1] == front && front + [] == front;
      WithoutAbsent(front, v);
    } else {
      var n := |back| - 1;
      assert all[..|all| - 1] == front + [v] + back[..n];
      WithoutLast(front, back[..n], v);
      assert front + back == front + back[..n] + [back[n]];
    }
  }

  /** Among the rules that match, a rule counts once if its pattern matches the URL, and once more if it matches
      a client tag; the rules before it come first. */
  lemma RuleCounts<P>(front: seq<Rule<P>>, rule: Rule<P>, back: seq<Rule<P>>, urlMatches: P -> bool,
                      tagMatches: P -> bool)
    ensures var u, t, once := urlMatches(rule.pattern), tagMatches(rule.pattern), [rule.action];
            var counted := if u && t then once + once else if u || t then once else [];
            Matching(front + ([rule] + back), urlMatches, tagMatches)
            == Matching(front, urlMatches, tagMatches) + (counted + Matching(back, urlMatches, tagMatches))
  {
    MatchingAppend(front, [rule] + back, urlMatches, tagMatches);
    assert ([rule] + back)[1..] == back;
  }
}
