/** The mutable action structures of actions.c: specifications and current
    actions as objects whose lists are updated in place. Every operation is
    proved equal to the algebra of module Actions. */
module ActionObjects {
  import opened Text
  import opened StringLists
  import opened Bits
  import opened Actions

  /** `struct list x[ACTION_MULTI_COUNT][1]`: lists that share no entries, updated one at a time. */
  class ListArray {
    const lists: seq<StringList>
    ghost var values: seq<seq<string>>
    ghost var Repr: set<object>

    ghost predicate Valid()
      reads this, Repr
      ensures Valid() ==> this in Repr && |lists| == |values| == MULTI_COUNT
    {
      && this in Repr && |lists| == |values| == MULTI_COUNT
      && (forall i | 0 <= i < |lists| ::
           lists[i] in Repr && lists[i].Repr <= Repr && this !in lists[i].Repr && lists[i].Valid())
      && (forall i, j | 0 <= i < j < |lists| :: lists[i].Repr !! lists[j].Repr)
      && (forall i | 0 <= i < |lists| :: values[i] == lists[i].Contents())
    }

    /** The last loop of `merge_current_action`. */
    method ApplyUpdates(src: MultiUpdates)
      requires Valid() && src.Valid() && Repr !! src.Repr
      modifies Repr
      ensures Valid() && fresh(Repr - old(Repr))
      ensures forall j | 0 <= j < MULTI_COUNT :: values[j] == ApplyMulti(old(values)[j], src.At(j))
    {
      hide Valid, ApplyMulti;
      var i := 0;
      while i < MULTI_COUNT
        invariant 0 <= i <= MULTI_COUNT
        invariant Valid() && fresh(Repr - old(Repr))
        invariant forall j | 0 <= j < i :: values[j] == ApplyMulti(old(values)[j], src.At(j))
        invariant forall j | i <= j < MULTI_COUNT :: values[j] == old(values)[j]
      {
        ApplyListUpdate(i, src);
        i := i + 1;
      }
    }

    /** One round of the last loop of `merge_current_action`. */
    method ApplyListUpdate(i: nat, src: MultiUpdates)
      requires Valid() && src.Valid() && Repr !! src.Repr && i < MULTI_COUNT
      modifies Repr
      ensures Valid() && fresh(Repr - old(Repr))
      ensures values == old(values)[i := ApplyMulti(old(values)[i], src.At(i))]
    {
      hide Valid;
      if src.removeAll[i] {
        Copy(i, src.add);
      } else {
        DropAll(i, src.remove);
        Append(i, src.add);
      }
    }

    constructor ()
      ensures Valid() && fresh(Repr) && values == NO_LISTS
    {
      var made: seq<StringList> := [];
      ghost var repr: set<object> := {};
      while |made| < MULTI_COUNT
        invariant |made| <= MULTI_COUNT && fresh(repr)
        invariant forall i | 0 <= i < |made| ::
                  made[i] in repr && made[i].Repr <= repr && made[i].Valid() && made[i].Contents() == []
        invariant forall i, j | 0 <= i < j < |made| :: made[i].Repr !! made[j].Repr
      {
        var list := new StringList();
        made, repr := made + [list], repr + list.Repr;
      }
      lists := made;
      values := NO_LISTS;
      Repr := repr + {this};
    }

    /** After one list changed within its own entries, everything else is as before. */
    twostate lemma OneListChanged(i: nat)
      requires old(Valid()) && i < MULTI_COUNT
      requires lists[i].Valid() && fresh(lists[i].Repr - old(lists[i].Repr))
      requires Repr == old(Repr) + lists[i].Repr && values == old(values)[i := lists[i].Contents()]
      requires forall o: object | o in old(Repr) && o !in old(lists[i].Repr) && o != this :: unchanged(o)
      ensures Valid()
    {
      hide StringList.Valid, StringList.Contents;
    }

    /** `list_remove_all` on one list. */
    method Clear(i: nat)
      requires Valid() && i < MULTI_COUNT
      modifies Repr
      ensures Valid() && fresh(Repr - old(Repr))
      ensures values == old(values)[i := []]
    {
      lists[i].RemoveAll();
      Repr, values := Repr + lists[i].Repr, values[i := lists[i].Contents()];
      OneListChanged(i);
    }

    /** `enlist_unique` on one list. */
    method Enlist(i: nat, str: string)
      requires Valid() && i < MULTI_COUNT
      modifies Repr
      ensures Valid() && fresh(Repr - old(Repr))
      ensures values == old(values)[i := AddUnique(old(values)[i], str)]
    {
      lists[i].EnlistUnique(str, 0);
      Repr, values := Repr + lists[i].Repr, values[i := lists[i].Contents()];
      OneListChanged(i);
    }

    /** `list_remove_item` on one list. */
    method Drop(i: nat, str: string)
      requires Valid() && i < MULTI_COUNT
      modifies Repr
      ensures Valid() && fresh(Repr - old(Repr))
      ensures values == old(values)[i := Without(old(values)[i], str)]
    {
      var _ := lists[i].RemoveItem(str);
      Repr, values := Repr + lists[i].Repr, values[i := lists[i].Contents()];
      OneListChanged(i);
    }

    /** `list_remove_list` on one list. */
    method DropAll(i: nat, src: ListArray)
      requires Valid() && i < MULTI_COUNT && src.Valid() && Repr !! src.Repr
      modifies Repr
      ensures Valid() && fresh(Repr - old(Repr))
      ensures values == old(values)[i := WithoutAll(old(values)[i], src.values[i])]
    {
      var _ := lists[i].RemoveList(src.lists[i]);
      Repr, values := Repr + lists[i].Repr, values[i := lists[i].Contents()];
      OneListChanged(i);
    }

    /** `list_append_list_unique` on one list. */
    method Append(i: nat, src: ListArray)
      requires Valid() && i < MULTI_COUNT && src.Valid() && Repr !! src.Repr
      modifies Repr
      ensures Valid() && fresh(Repr - old(Repr))
      ensures values == old(values)[i := AddAllUnique(old(values)[i], src.values[i])]
    {
      lists[i].AppendListUnique(src.lists[i]);
      Repr, values := Repr + lists[i].Repr, values[i := lists[i].Contents()];
      OneListChanged(i);
    }

    /** `list_duplicate` on one list. */
    method Copy(i: nat, src: ListArray)
      requires Valid() && i < MULTI_COUNT && src.Valid() && Repr !! src.Repr
      modifies Repr
      ensures Valid() && fresh(Repr - old(Repr))
      ensures values == old(values)[i := src.values[i]]
    {
      lists[i].Duplicate(src.lists[i]);
      Repr, values := Repr + lists[i].Repr, values[i := lists[i].Contents()];
      OneListChanged(i);
    }
  }

  /** The loop over the strings in `merge_actions` and `merge_current_action`. */
  method MergeStrings(dest: array<Option<string>>, src: array<Option<string>>)
    requires dest.Length == src.Length && dest != src
    modifies dest
    ensures forall j | 0 <= j < dest.Length :: dest[j] == MergeString(old(dest[j]), src[j])
  {
    var i := 0;
    while i < dest.Length
      invariant 0 <= i <= dest.Length
      invariant forall j | 0 <= j < i :: dest[j] == MergeString(old(dest[j]), src[j])
      invariant forall j | i <= j < dest.Length :: dest[j] == old(dest[j])
    {
      if src[i].Some? {
        dest[i] := src[i];
      }
      i := i + 1;
    }
  }

  /** `struct current_action_spec` */
  class CurrentActions {
    var flags: bv31
    const strings: array<Option<string>>
    const multi: ListArray
    ghost var Repr: set<object>

    ghost predicate Valid()
      reads this, Repr
      ensures Valid() ==> this in Repr
    {
      && this in Repr && strings in Repr && strings.Length == STRING_COUNT
      && multi in Repr && multi.Repr <= Repr && {this, strings} !! multi.Repr && multi.Valid()
    }

    ghost function Value(): Current
      requires Valid()
      reads this, Repr
    {
      CurrentRecord(flags, strings[..], multi.values)
    }

    /** `init_current_action` */
    constructor ()
      ensures Valid() && fresh(Repr) && Value() == INITIAL
    {
      flags := 0;
      strings := new Option<string>[STRING_COUNT](_ => None);
      multi := new ListArray();
      new;
      Repr := {this, strings} + multi.Repr;
      assert strings[..] == NO_STRINGS;
    }

    /** The first two statements of `merge_current_action`. */
    method MergeFlags(src: ActionSpec)
      modifies this`flags
      ensures flags == MergeAdd(old(flags), src.mask, src.add)
    {
      hide MergeMask, MergeAdd;
      InPlace(flags, src.mask, src.add);
      flags := flags & src.mask;
      flags := flags | src.add;
    }
  }

  /** The multi part of a `struct action_spec`: `multi_remove_all`, `multi_remove` and `multi_add`. */
  class MultiUpdates {
    const removeAll: array<bool>
    const remove: ListArray
    const add: ListArray
    ghost var Repr: set<object>

    ghost predicate Valid()
      reads this, Repr
      ensures Valid() ==> this in Repr
    {
      && this in Repr && removeAll in Repr && removeAll.Length == MULTI_COUNT
      && remove in Repr && remove.Repr <= Repr && remove.Valid()
      && add in Repr && add.Repr <= Repr && add.Valid()
      && {this} !! {removeAll} !! remove.Repr !! add.Repr
    }

    ghost function At(i: nat): Multi
      requires Valid() && i < MULTI_COUNT
      reads this, Repr
    {
      Multi(removeAll[i], remove.values[i], add.values[i])
    }

    constructor ()
      ensures Valid() && fresh(Repr)
      ensures forall i | 0 <= i < MULTI_COUNT :: At(i) == Multi(false, [], [])
    {
      hide ListArray.Valid;
      removeAll := new bool[MULTI_COUNT](_ => false);
      remove := new ListArray();
      add := new ListArray();
      new;
      Repr := {this, removeAll} + remove.Repr + add.Repr;
    }

    /** One round of the second loop of `merge_actions`. */
    static method MergeLists(i: nat, remove: ListArray, add: ListArray, removeAll: bool,
                             srcRemove: ListArray, srcAdd: ListArray, srcRemoveAll: bool)
      returns (allRemoved: bool)
      requires i < MULTI_COUNT && remove.Valid() && add.Valid() && srcRemove.Valid() && srcAdd.Valid()
      requires remove.Repr !! add.Repr !! srcRemove.Repr !! srcAdd.Repr
      modifies remove.Repr, add.Repr
      ensures remove.Valid() && fresh(remove.Repr - old(remove.Repr))
      ensures add.Valid() && fresh(add.Repr - old(add.Repr)) && remove.Repr !! add.Repr
      ensures var m := MergeMulti(Multi(removeAll, old(remove.values)[i], old(add.values)[i]),
                                  Multi(srcRemoveAll, srcRemove.values[i], srcAdd.values[i]));
              && allRemoved == m.removeAll
              && remove.values == old(remove.values)[i := m.remove]
              && add.values == old(add.values)[i := m.add]
    {
      hide ListArray.Valid;
      allRemoved := removeAll;
      if srcRemoveAll {
        remove.Clear(i);
        allRemoved := true;
        add.Copy(i, srcAdd);
      } else if removeAll {
        add.DropAll(i, srcRemove);
        add.Append(i, srcAdd);
      } else {
        add.DropAll(i, srcRemove);
        remove.Append(i, srcRemove);
        add.Append(i, srcAdd);
      }
    }

    /** The second loop of `copy_action`; `list_duplicate` empties a list before it fills it. */
    method CopyFrom(src: MultiUpdates)
      requires Valid() && src.Valid() && Repr !! src.Repr
      modifies Repr
      ensures Valid() && fresh(Repr - old(Repr))
      ensures forall j | 0 <= j < MULTI_COUNT :: At(j) == src.At(j)
    {
      hide ListArray.Valid;
      var i := 0;
      while i < MULTI_COUNT
        invariant 0 <= i <= MULTI_COUNT
        invariant Valid() && fresh(Repr - old(Repr))
        invariant forall j | 0 <= j < i :: At(j) == src.At(j)
      {
        removeAll[i] := src.removeAll[i];
        remove.Copy(i, src.remove);
        add.Copy(i, src.add);
        Repr := Repr + remove.Repr + add.Repr;
        i := i + 1;
      }
    }

    /** AV_ADD_MULTI in `get_actions` */
    method AddValue(i: nat, v: string)
      requires Valid() && i < MULTI_COUNT
      modifies Repr
      ensures Valid() && fresh(Repr - old(Repr))
      ensures At(i) == Multi(old(At(i)).removeAll, Without(old(At(i)).remove, v), AddUnique(old(At(i)).add, v))
      ensures forall j | 0 <= j < MULTI_COUNT && j != i :: At(j) == old(At(j))
    {
      hide ListArray.Valid;
      remove.Drop(i, v);
      add.Enlist(i, v);
      Repr := Repr + remove.Repr + add.Repr;
    }

    /** AV_REM_MULTI in `get_actions`, for one value */
    method RemoveValue(i: nat, v: string)
      requires Valid() && i < MULTI_COUNT
      modifies Repr
      ensures Valid() && fresh(Repr - old(Repr))
      ensures At(i) == Multi(old(At(i)).removeAll,
                             if old(At(i)).removeAll then old(At(i)).remove else AddUnique(old(At(i)).remove, v),
                             Without(old(At(i)).add, v))
      ensures forall j | 0 <= j < MULTI_COUNT && j != i :: At(j) == old(At(j))
    {
      hide ListArray.Valid;
      if !removeAll[i] {
        remove.Enlist(i, v);
      }
      add.Drop(i, v);
      Repr := Repr + remove.Repr + add.Repr;
    }

    /** AV_REM_MULTI in `get_actions`, for all values */
    method RemoveAllValues(i: nat)
      requires Valid() && i < MULTI_COUNT
      modifies Repr
      ensures Valid() && fresh(Repr - old(Repr))
      ensures At(i) == Multi(true, [], [])
      ensures forall j | 0 <= j < MULTI_COUNT && j != i :: At(j) == old(At(j))
    {
      hide ListArray.Valid;
      remove.Clear(i);
      add.Clear(i);
      removeAll[i] := true;
      Repr := Repr + remove.Repr + add.Repr;
    }

    /** The second loop of `merge_actions`. */
    method Merge(src: MultiUpdates)
      requires Valid() && src.Valid() && Repr !! src.Repr
      modifies Repr
      ensures Valid() && fresh(Repr - old(Repr))
      ensures forall j | 0 <= j < MULTI_COUNT :: At(j) == MergeMulti(old(At(j)), src.At(j))
    {
      hide ListArray.Valid, MergeMulti;
      var i := 0;
      while i < MULTI_COUNT
        invariant 0 <= i <= MULTI_COUNT
        invariant Valid() && fresh(Repr - old(Repr))
        invariant forall j | 0 <= j < i :: At(j) == MergeMulti(old(At(j)), src.At(j))
        invariant forall j | i <= j < MULTI_COUNT :: At(j) == old(At(j))
      {
        assert At(i) == old(At(i));
        removeAll[i] := MergeLists(i, remove, add, removeAll[i], src.remove, src.add, src.removeAll[i]);
        Repr := Repr + remove.Repr + add.Repr;
        i := i + 1;
      }
    }
  }

  /** `struct action_spec` */
  class ActionSpec {
    var mask: bv31
    var add: bv31
    const strings: array<Option<string>>
    const multi: MultiUpdates
    ghost var Repr: set<object>

    ghost predicate Valid()
      reads this, Repr
      ensures Valid() ==> this in Repr
    {
      && this in Repr && strings in Repr && strings.Length == STRING_COUNT
      && multi in Repr && multi.Repr <= Repr && multi.Valid()
      && {this} !! {strings} !! multi.Repr
    }

    ghost function Value(): Spec
      requires Valid()
      reads this, Repr
    {
      SpecRecord(mask, add, strings[..], multi.removeAll[..], multi.remove.values, multi.add.values)
    }

    /** `init_action`: all zero, which also means an all-clear mask. */
    constructor ()
      ensures Valid() && fresh(Repr) && Value() == Neutral().(mask := 0)
    {
      hide ListArray.Valid;
      mask, add := 0, 0;
      strings := new Option<string>[STRING_COUNT](_ => None);
      multi := new MultiUpdates();
      new;
      Repr := {this, strings} + multi.Repr;
      assert strings[..] == NO_STRINGS;
      forall i | 0 <= i < MULTI_COUNT
        ensures multi.removeAll[i] == false && multi.remove.values[i] == [] && multi.add.values[i] == []
      {
        assert multi.At(i) == Multi(false, [], []);
      }
    }

    /** The first three statements of `merge_actions`. */
    method MergeFlags(srcMask: bv31, srcAdd: bv31)
      modifies this`mask, this`add
      ensures mask == MergeMask(old(mask), srcMask) && add == MergeAdd(old(add), srcMask, srcAdd)
    {
      InPlace(add, srcMask, srcAdd);
      hide MergeAdd;
      mask := mask & srcMask;
      add := add & srcMask;
      add := add | srcAdd;
    }

    /** `copy_action` */
    method CopyAction(src: ActionSpec)
      requires Valid() && src.Valid() && Repr !! src.Repr
      modifies Repr
      ensures Valid() && fresh(Repr - old(Repr))
      ensures Value() == src.Value()
    {
      hide ListArray.Valid;
      mask, add := src.mask, src.add;
      var i := 0;
      while i < STRING_COUNT
        invariant 0 <= i <= STRING_COUNT && Valid() && Repr == old(Repr) && mask == src.mask && add == src.add
        invariant forall j | 0 <= j < i :: strings[j] == src.strings[j]
      {
        strings[i] := src.strings[i];
        i := i + 1;
      }
      multi.CopyFrom(src.multi);
      Repr := Repr + multi.Repr;
      assert strings[..] == src.strings[..];
      SameUpdates(src);
    }

    lemma SameUpdates(src: ActionSpec)
      requires Valid() && src.Valid() && forall j | 0 <= j < MULTI_COUNT :: multi.At(j) == src.multi.At(j)
      ensures multi.removeAll[..] == src.multi.removeAll[..]
      ensures multi.remove.values == src.multi.remove.values && multi.add.values == src.multi.add.values
    {
      forall j | 0 <= j < MULTI_COUNT
        ensures multi.removeAll[j] == src.multi.removeAll[j]
        ensures multi.remove.values[j] == src.multi.remove.values[j] && multi.add.values[j] == src.multi.add.values[j]
      {
        assert multi.At(j) == src.multi.At(j);
      }
    }

    /** `merge_actions`: this specification becomes "this, then src". */
    method MergeActions(src: ActionSpec)
      requires Valid() && src.Valid() && Repr !! src.Repr
      modifies Repr
      ensures Valid() && fresh(Repr - old(Repr))
      ensures Value() == Merge(old(Value()), src.Value())
    {
      hide ListArray.Valid, MergeMulti, Merge, MergeMask, MergeAdd;
      ghost var was, other := Value(), src.Value();
      MergeFlags(src.mask, src.add);
      MergeStrings(strings, src.strings);
      multi.Merge(src.multi);
      Repr := Repr + multi.Repr;
      ghost var now := Value();
      forall j | 0 <= j < MULTI_COUNT
        ensures now.MultiAt(j) == MergeMulti(was.MultiAt(j), other.MultiAt(j))
      {
        assert now.MultiAt(j) == multi.At(j);
      }
      MergedPointwise(was, other, now);
    }
  }

  /** `merge_current_action`, with the fields of the destination passed by the object. */
  method MergeCurrentAction(dest: CurrentActions, src: ActionSpec)
    requires dest.Valid() && src.Valid() && dest.Repr !! src.Repr
    modifies dest.Repr
    ensures dest.Valid() && fresh(dest.Repr - old(dest.Repr))
    ensures dest.Value() == Apply(old(dest.Value()), src.Value())
  {
    hide ListArray.Valid, ApplyMulti, Apply, MergeAdd;
    ghost var was, other := dest.Value(), src.Value();
    dest.MergeFlags(src);
    MergeStrings(dest.strings, src.strings);
    dest.multi.ApplyUpdates(src.multi);
    dest.Repr := dest.Repr + dest.multi.Repr;
    AppliedPointwise(was, other, dest.Value());
  }

  /** `struct url_actions` without its list link: a pattern and the specification, possibly
      shared with other rules, that it selects. */
  datatype RuleNode<P> = RuleNode(pattern: P, action: ActionSpec)

  /** The specifications of the rules live inside `frozen`. */
  ghost predicate RulesIn<P>(rules: seq<RuleNode<P>>, frozen: set<object>)
    reads frozen
  {
    forall i | 0 <= i < |rules| ::
      rules[i].action in frozen && rules[i].action.Repr <= frozen && rules[i].action.Valid()
  }

  ghost function RuleValues<P>(rules: seq<RuleNode<P>>, frozen: set<object>): (r: seq<Rule<P>>)
    requires RulesIn(rules, frozen)
    reads frozen
    ensures |r| == |rules|
    ensures forall i | 0 <= i < |rules| :: r[i] == Rule(rules[i].pattern, rules[i].action.Value())
  {
    if rules == [] then []
    else
      var n := |rules| - 1;
      RuleValues(rules[..n], frozen) + [Rule(rules[n].pattern, rules[n].action.Value())]
  }

  ghost predicate FilesIn<P>(files: seq<Option<seq<RuleNode<P>>>>, frozen: set<object>)
    reads frozen
  {
    forall i | 0 <= i < |files| :: files[i].Some? ==> RulesIn(files[i].value, frozen)
  }

  ghost function FileValues<P>(files: seq<Option<seq<RuleNode<P>>>>,
                               frozen: set<object>): (r: seq<Option<seq<Rule<P>>>>)
    requires FilesIn(files, frozen)
    reads frozen
    ensures |r| == |files|
    ensures forall i | 0 <= i < |files| ::
              r[i] == if files[i].None? then None else Some(RuleValues(files[i].value, frozen))
  {
    if files == [] then []
    else
      var n := |files| - 1;
      FileValues(files[..n], frozen) + [if files[n].None? then None else Some(RuleValues(files[n].value, frozen))]
  }

  /** One round of the loop in `apply_url_actions`. */
  method ApplyRule<P>(action: CurrentActions, rule: RuleNode<P>, urlMatches: P -> bool, tagMatches: P -> bool)
    requires action.Valid() && rule.action.Valid() && action.Repr !! rule.action.Repr
    modifies action.Repr
    ensures action.Valid() && fresh(action.Repr - old(action.Repr))
    ensures action.Value()
         == OneRule(old(action.Value()), Rule(rule.pattern, rule.action.Value()), urlMatches, tagMatches)
  {
    hide CurrentActions.Valid, CurrentActions.Value, ActionSpec.Valid, ActionSpec.Value, Apply;
    if urlMatches(rule.pattern) {
      MergeCurrentAction(action, rule.action);
    }
    if tagMatches(rule.pattern) {
      MergeCurrentAction(action, rule.action);
    }
  }

  /** `apply_url_actions`: every rule that matches is merged into the current actions, in order. */
  method ApplyUrlActions<P>(action: CurrentActions, rules: seq<RuleNode<P>>, ghost frozen: set<object>,
                            urlMatches: P -> bool, tagMatches: P -> bool)
    requires action.Valid() && RulesIn(rules, frozen) && action.Repr !! frozen
    modifies action.Repr
    ensures action.Valid() && fresh(action.Repr - old(action.Repr)) && RulesIn(rules, frozen)
    ensures action.Value() == ApplyAll(old(action.Value()), Matching(RuleValues(rules, frozen), urlMatches, tagMatches))
  {
    hide CurrentActions.Valid, CurrentActions.Value, ActionSpec.Valid, ActionSpec.Value, ApplyAll, Matching, OneRule;
    var i := 0;
    ghost var values, start := RuleValues(rules, frozen), action.Value();
    NoRulesMatch(values, urlMatches, tagMatches, start);
    while i < |rules|
      invariant 0 <= i <= |rules|
      invariant action.Valid() && fresh(action.Repr - old(action.Repr)) && RulesIn(rules, frozen)
      invariant values == RuleValues(rules, frozen)
      invariant action.Value() == ApplyAll(start, Matching(values[..i], urlMatches, tagMatches))
    {
      MatchOneMore(values, i, urlMatches, tagMatches, start);
      ApplyRule(action, rules[i], urlMatches, tagMatches);
      i := i + 1;
    }
    assert values[..i] == values;
  }

  const MAX_AF_FILES: nat := 100

  /** `get_url_actions`: the actions for a request, from the loaded actions files. */
  method GetUrlActions<P>(files: seq<Option<seq<RuleNode<P>>>>, ghost frozen: set<object>,
                          urlMatches: P -> bool, tagMatches: P -> bool)
    returns (action: CurrentActions)
    requires |files| <= MAX_AF_FILES && FilesIn(files, frozen)
    ensures action.Valid() && fresh(action.Repr) && FilesIn(files, frozen)
    ensures var matching := Matching(RulesInForce(FileValues(files, frozen)), urlMatches, tagMatches);
            action.Value() == ApplyAll(INITIAL, matching) == Apply(INITIAL, MergeAll(Neutral(), matching))
  {
    hide CurrentActions.Valid, CurrentActions.Value, ActionSpec.Valid, ActionSpec.Value, RulesIn, ApplyAll;
    hide Matching, Apply, MergeAll;
    ghost var values := FileValues(files, frozen);
    action := new CurrentActions();
    FilesInTurn(INITIAL, values, urlMatches, tagMatches);
    ActionsAreOneMerge(INITIAL, Matching(RulesInForce(values), urlMatches, tagMatches));
    var i := 0;
    while i < |files|
      invariant 0 <= i <= |files| && action.Valid() && fresh(action.Repr)
      invariant FilesIn(files, frozen) && FileValues(files, frozen) == values
      invariant ApplyFiles(action.Value(), values[i..], urlMatches, tagMatches)
           == ApplyFiles(INITIAL, values, urlMatches, tagMatches)
    {
      if files[i].None? {
        return;
      }
      ApplyUrlActions(action, files[i].value, frozen, urlMatches, tagMatches);
      i := i + 1;
    }
  }
}
