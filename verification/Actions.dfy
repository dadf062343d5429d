/** The action algebra of actions.c, on values: an action specification is a
    partial update, `Merge` composes two updates (`merge_actions`) and `Apply`
    performs one on the current actions (`merge_current_action`). */
module Actions {
  import opened Text
  import opened StringLists
  import opened Bits

  const STRING_COUNT: nat := 20
  const MULTI_COUNT: nat := 10

  /** The part of a `struct action_spec` that concerns one multi action. */
  datatype Multi = Multi(removeAll: bool, remove: seq<string>, add: seq<string>)

  /** `struct action_spec`: a clear mask bit removes, a set add bit adds. */
  datatype SpecRecord = SpecRecord(mask: bv31, add: bv31, strings: seq<Option<string>>,
                                   multiRemoveAll: seq<bool>, multiRemove: seq<seq<string>>,
                                   multiAdd: seq<seq<string>>) {
    predicate Sized() {
      && |strings| == STRING_COUNT
      && |multiRemoveAll| == |multiRemove| == |multiAdd| == MULTI_COUNT
    }

    function MultiAt(i: nat): Multi
      requires Sized() && i < MULTI_COUNT
    {
      Multi(multiRemoveAll[i], multiRemove[i], multiAdd[i])
    }
  }

  const NO_STRINGS: seq<Option<string>> := seq(STRING_COUNT, _ => None)
  const NO_LISTS: seq<seq<string>> := seq(MULTI_COUNT, _ => [])

  type Spec = s: SpecRecord | s.Sized()
    witness SpecRecord(0, 0, NO_STRINGS, seq(MULTI_COUNT, _ => false), NO_LISTS, NO_LISTS)

  /** The specification that changes nothing: the starting point of `get_actions`. */
  function Neutral(): Spec {
    SpecRecord(MASK_ALL, 0, NO_STRINGS, seq(MULTI_COUNT, _ => false), NO_LISTS, NO_LISTS)
  }

  /** `struct current_action_spec`: the actions in force for a request. */
  datatype CurrentRecord = CurrentRecord(flags: bv31, strings: seq<Option<string>>, multis: seq<seq<string>>)

  type Current = c: CurrentRecord | |c.strings| == STRING_COUNT && |c.multis| == MULTI_COUNT
    witness CurrentRecord(0, NO_STRINGS, NO_LISTS)

  /** `init_current_action` */
  const INITIAL: Current := CurrentRecord(0, NO_STRINGS, NO_LISTS)

  // ----- Composition and application --------------------------------------

  function MergeMulti(dest: Multi, src: Multi): Multi {
    if src.removeAll then
      Multi(true, [], src.add)
    else if dest.removeAll then
      Multi(true, dest.remove, AddAllUnique(WithoutAll(dest.add, src.remove), src.add))
    else
      Multi(false, AddAllUnique(dest.remove, src.remove), AddAllUnique(WithoutAll(dest.add, src.remove), src.add))
  }

  function MergeString(dest: Option<string>, src: Option<string>): Option<string> {
    if src.Some? then src else dest
  }

  /** `merge_actions`: first `dest`, then `src`. */
  function Merge(dest: Spec, src: Spec): Spec {
    SpecRecord(
      MergeMask(dest.mask, src.mask),
      MergeAdd(dest.add, src.mask, src.add),
      seq(STRING_COUNT, i requires 0 <= i < STRING_COUNT => MergeString(dest.strings[i], src.strings[i])),
      seq(MULTI_COUNT, i requires 0 <= i < MULTI_COUNT => MergeMulti(dest.MultiAt(i), src.MultiAt(i)).removeAll),
      seq(MULTI_COUNT, i requires 0 <= i < MULTI_COUNT => MergeMulti(dest.MultiAt(i), src.MultiAt(i)).remove),
      seq(MULTI_COUNT, i requires 0 <= i < MULTI_COUNT => MergeMulti(dest.MultiAt(i), src.MultiAt(i)).add))
  }

  /** `Merge` seen one entry at a time. */
  lemma MergedPointwise(dest: Spec, src: Spec, merged: Spec)
    requires merged.mask == MergeMask(dest.mask, src.mask) && merged.add == MergeAdd(dest.add, src.mask, src.add)
    requires forall i | 0 <= i < STRING_COUNT :: merged.strings[i] == MergeString(dest.strings[i], src.strings[i])
    requires forall i | 0 <= i < MULTI_COUNT :: merged.MultiAt(i) == MergeMulti(dest.MultiAt(i), src.MultiAt(i))
    ensures merged == Merge(dest, src)
  {
    var expected := Merge(dest, src);
    forall i | 0 <= i < MULTI_COUNT
      ensures merged.multiRemoveAll[i] == expected.multiRemoveAll[i]
      ensures merged.multiRemove[i] == expected.multiRemove[i] && merged.multiAdd[i] == expected.multiAdd[i]
    {
      assert merged.MultiAt(i) == MergeMulti(dest.MultiAt(i), src.MultiAt(i));
    }
    assert merged.strings == expected.strings;
    assert merged.multiRemoveAll == expected.multiRemoveAll;
    assert merged.multiRemove == expected.multiRemove;
    assert merged.multiAdd == expected.multiAdd;
  }

  function ApplyMulti(values: seq<string>, src: Multi): seq<string> {
    if src.removeAll then src.add else AddAllUnique(WithoutAll(values, src.remove), src.add)
  }

  /** `merge_current_action` */
  function Apply(current: Current, src: Spec): Current {
    CurrentRecord(
      MergeAdd(current.flags, src.mask, src.add),
      seq(STRING_COUNT, i requires 0 <= i < STRING_COUNT => MergeString(current.strings[i], src.strings[i])),
      seq(MULTI_COUNT, i requires 0 <= i < MULTI_COUNT => ApplyMulti(current.multis[i], src.MultiAt(i))))
  }

  /** `Apply` seen one entry at a time. */
  lemma AppliedPointwise(current: Current, src: Spec, applied: Current)
    requires applied.flags == MergeAdd(current.flags, src.mask, src.add)
    requires forall i | 0 <= i < STRING_COUNT :: applied.strings[i] == MergeString(current.strings[i], src.strings[i])
    requires forall i | 0 <= i < MULTI_COUNT :: applied.multis[i] == ApplyMulti(current.multis[i], src.MultiAt(i))
    ensures applied == Apply(current, src)
  {
    assert applied.strings == Apply(current, src).strings;
    assert applied.multis == Apply(current, src).multis;
  }

  function ApplyAll(current: Current, specs: seq<Spec>): Current
    decreases |specs|
  {
    if specs == [] then current else ApplyAll(Apply(current, specs[0]), specs[1..])
  }

  function MergeAll(first: Spec, rest: seq<Spec>): Spec
    decreases |rest|
  {
    if rest == [] then first else MergeAll(Merge(first, rest[0]), rest[1..])
  }

  lemma BitsAssociate(a: Spec, b: Spec, c: Spec)
    ensures Merge(Merge(a, b), c).mask == Merge(a, Merge(b, c)).mask
    ensures Merge(Merge(a, b), c).add == Merge(a, Merge(b, c)).add
  {
    hide MergeMask, MergeAdd;
    MasksAssociate(a.mask, b.mask, c.mask);
    AddComposes(a.add, b.mask, b.add, c.mask, c.add);
  }

  lemma ApplyMergeMulti(values: seq<string>, a: Multi, b: Multi)
    ensures ApplyMulti(ApplyMulti(values, a), b) == ApplyMulti(values, MergeMulti(a, b))
  {
    if !a.removeAll && !b.removeAll {
      var kept := WithoutAll(values, a.remove);
      WithoutAllDistributes(kept, a.add, b.remove);
      WithoutAllTwice(values, a.remove, b.remove);
      AddAllUniqueAssociative(WithoutAll(kept, b.remove), WithoutAll(a.add, b.remove), b.add);
    }
  }

  lemma MergeMultiAssociative(a: Multi, b: Multi, c: Multi)
    ensures MergeMulti(MergeMulti(a, b), c) == MergeMulti(a, MergeMulti(b, c))
  {
    if !b.removeAll && !c.removeAll {
      var kept := WithoutAll(a.add, b.remove);
      WithoutAllDistributes(kept, b.add, c.remove);
      WithoutAllTwice(a.add, b.remove, c.remove);
      AddAllUniqueAssociative(WithoutAll(kept, c.remove), WithoutAll(b.add, c.remove), c.add);
      AddAllUniqueAssociative(a.remove, b.remove, c.remove);
    }
  }

  /** Applying `a` and then `b` is applying their merge, down to the order of every multi list. */
  lemma ApplyMerge(current: Current, a: Spec, b: Spec)
    ensures Apply(Apply(current, a), b) == Apply(current, Merge(a, b))
  {
    hide MergeMask, MergeAdd;
    assert Apply(Apply(current, a), b).flags == Apply(current, Merge(a, b)).flags by {
      AddComposes(current.flags, a.mask, a.add, b.mask, b.add);
    }
    forall i | 0 <= i < MULTI_COUNT
      ensures Apply(Apply(current, a), b).multis[i] == Apply(current, Merge(a, b)).multis[i]
    {
      ApplyMergeMulti(current.multis[i], a.MultiAt(i), b.MultiAt(i));
    }
    assert Apply(Apply(current, a), b).strings == Apply(current, Merge(a, b)).strings;
    assert Apply(Apply(current, a), b).multis == Apply(current, Merge(a, b)).multis;
  }

  lemma MergeAssociative(a: Spec, b: Spec, c: Spec)
    ensures Merge(Merge(a, b), c) == Merge(a, Merge(b, c))
  {
    var left, right := Merge(Merge(a, b), c), Merge(a, Merge(b, c));
    hide MergeMask, MergeAdd;
    BitsAssociate(a, b, c);
    forall i | 0 <= i < MULTI_COUNT
      ensures left.multiRemoveAll[i] == right.multiRemoveAll[i]
      ensures left.multiRemove[i] == right.multiRemove[i] && left.multiAdd[i] == right.multiAdd[i]
    {
      MergeMultiAssociative(a.MultiAt(i), b.MultiAt(i), c.MultiAt(i));
    }
    assert left.strings == right.strings;
    assert left.multiRemoveAll == right.multiRemoveAll;
    assert left.multiRemove == right.multiRemove;
    assert left.multiAdd == right.multiAdd;
  }

  /** Any number of specifications applied in turn is one application of their merge. */
  lemma {:induction false} ApplyAllIsOneMerge(current: Current, first: Spec, rest: seq<Spec>)
    ensures ApplyAll(current, [first] + rest) == Apply(current, MergeAll(first, rest))
    decreases |rest|
  {
    assert ([first] + rest)[1..] == rest;
    if rest != [] {
      ApplyMerge(current, first, rest[0]);
      ApplyAllIsOneMerge(current, Merge(first, rest[0]), rest[1..]);
      assert ([Merge(first, rest[0])] + rest[1..])[1..] == rest[1..];
    }
  }

  lemma NeutralChangesNothing(current: Current)
    ensures Apply(current, Neutral()) == current
  {
    hide MergeMask, MergeAdd;
    MaskAllKeeps(current.flags);
    assert Apply(current, Neutral()).strings == current.strings;
    assert Apply(current, Neutral()).multis == current.multis;
  }

  /** The actions for a request are one application of the merge of every matching rule. */
  lemma ActionsAreOneMerge(current: Current, specs: seq<Spec>)
    ensures ApplyAll(current, specs) == Apply(current, MergeAll(Neutral(), specs))
  {
    NeutralChangesNothing(current);
    ApplyAllIsOneMerge(current, Neutral(), specs);
    assert ([Neutral()] + specs)[1..] == specs;
  }

  lemma {:induction false} ApplyAllAppend(current: Current, front: seq<Spec>, back: seq<Spec>)
    ensures ApplyAll(current, front + back) == ApplyAll(ApplyAll(current, front), back)
    decreases |front|
  {
    if front == [] {
      assert front + back == back;
    } else {
      assert (front + back)[1..] == front[1..] + back;
      ApplyAllAppend(Apply(current, front[0]), front[1..], back);
    }
  }

  // ----- The rules that match a request -----------------------------------

  /** `struct url_actions` without its list link; patterns stay uninterpreted. */
  datatype Rule<P> = Rule(pattern: P, action: Spec)

  /** A rule counts once when its pattern matches the URL and once more when it matches a client tag. */
  function Matching<P>(rules: seq<Rule<P>>, urlMatches: P -> bool, tagMatches: P -> bool): seq<Spec> {
    if rules == [] then []
    else
      (if urlMatches(rules[0].pattern) then [rules[0].action] else [])
      + (if tagMatches(rules[0].pattern) then [rules[0].action] else [])
      + Matching(rules[1..], urlMatches, tagMatches)
  }

  lemma NoRulesMatch<P>(rules: seq<Rule<P>>, urlMatches: P -> bool, tagMatches: P -> bool, start: Current)
    ensures ApplyAll(start, Matching(rules[..0], urlMatches, tagMatches)) == start
  {}

  lemma {:induction false} MatchingAppend<P>(front: seq<Rule<P>>, back: seq<Rule<P>>, urlMatches: P -> bool,
                                             tagMatches: P -> bool)
    ensures Matching(front + back, urlMatches, tagMatches)
         == Matching(front, urlMatches, tagMatches) + Matching(back, urlMatches, tagMatches)
  {
    if front == [] {
      assert front + back == back;
    } else {
      assert (front + back)[1..] == front[1..] + back;
      MatchingAppend(front[1..], back, urlMatches, tagMatches);
    }
  }

  /** What one rule does to the current actions. */
  function OneRule<P>(current: Current, rule: Rule<P>, urlMatches: P -> bool, tagMatches: P -> bool): Current {
    var byUrl := if urlMatches(rule.pattern) then Apply(current, rule.action) else current;
    if tagMatches(rule.pattern) then Apply(byUrl, rule.action) else byUrl
  }

  lemma MatchOneMore<P>(rules: seq<Rule<P>>, i: nat, urlMatches: P -> bool, tagMatches: P -> bool, start: Current)
    requires i < |rules|
    ensures ApplyAll(start, Matching(rules[..i + 1], urlMatches, tagMatches))
         == OneRule(ApplyAll(start, Matching(rules[..i], urlMatches, tagMatches)), rules[i], urlMatches, tagMatches)
  {
    var action := rules[i].action;
    var now := Matching([rules[i]], urlMatches, tagMatches);
    assert rules[..i + 1] == rules[..i] + [rules[i]];
    MatchingAppend(rules[..i], [rules[i]], urlMatches, tagMatches);
    ApplyAllAppend(start, Matching(rules[..i], urlMatches, tagMatches), now);
    assert Matching([rules[i]][1..], urlMatches, tagMatches) == [];
    assert now == (if urlMatches(rules[i].pattern) then [action] else [])
           + (if tagMatches(rules[i].pattern) then [action] else []);
    var before := ApplyAll(start, Matching(rules[..i], urlMatches, tagMatches));
    assert ApplyAll(before, [action]) == Apply(before, action);
    assert [action, action][1..] == [action];
    assert ApplyAll(before, [action, action]) == Apply(Apply(before, action), action) by {
      assert ApplyAll(Apply(before, action), [action]) == Apply(Apply(before, action), action);
    }
  }

  /** `get_url_actions` stops at the first missing actions file. */
  function RulesInForce<P>(files: seq<Option<seq<Rule<P>>>>): seq<Rule<P>> {
    if files == [] || files[0].None? then [] else files[0].value + RulesInForce(files[1..])
  }

  /** The actions after one file after another. */
  function ApplyFiles<P>(start: Current, files: seq<Option<seq<Rule<P>>>>, urlMatches: P -> bool,
                         tagMatches: P -> bool): Current
    decreases |files|
  {
    if files == [] || files[0].None? then start
    else ApplyFiles(ApplyAll(start, Matching(files[0].value, urlMatches, tagMatches)), files[1..], urlMatches,
        tagMatches)
  }

  lemma {:induction false} FilesInTurn<P>(start: Current, files: seq<Option<seq<Rule<P>>>>, urlMatches: P -> bool,
                                          tagMatches: P -> bool)
    ensures ApplyFiles(start, files, urlMatches, tagMatches)
         == ApplyAll(start, Matching(RulesInForce(files), urlMatches, tagMatches))
    decreases |files|
  {
    if files != [] && files[0].Some? {
      var matching := Matching(files[0].value, urlMatches, tagMatches);
      FilesInTurn(ApplyAll(start, matching), files[1..], urlMatches, tagMatches);
      MatchingAppend(files[0].value, RulesInForce(files[1..]), urlMatches, tagMatches);
      ApplyAllAppend(start, matching, Matching(RulesInForce(files[1..]), urlMatches, tagMatches));
    }
  }
}
