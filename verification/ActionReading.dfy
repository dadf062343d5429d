/** `get_actions` on the mutable specification of actions.c, proved equal to the
    function of module ActionTokens. */
module ActionReading {
  import opened Text
  import opened StringLists
  import opened Bits
  import opened Actions
  import opened ActionTable
  import opened ActionParser
  import opened ActionTokens
  import opened ActionObjects

  /** `struct action_alias` without its list link. */
  datatype AliasNode = AliasNode(name: string, action: ActionSpec)

  /** The specifications of the aliases live inside `frozen`. */
  ghost predicate AliasesIn(aliases: seq<AliasNode>, frozen: set<object>)
    reads frozen
  {
    forall i | 0 <= i < |aliases| ::
      aliases[i].action in frozen && aliases[i].action.Repr <= frozen && aliases[i].action.Valid()
  }

  ghost function AliasValues(aliases: seq<AliasNode>, frozen: set<object>): (r: seq<Alias>)
    requires AliasesIn(aliases, frozen)
    reads frozen
    ensures |r| == |aliases|
    ensures forall i | 0 <= i < |aliases| :: r[i] == Alias(aliases[i].name, aliases[i].action.Value())
  {
    if aliases == [] then []
    else
      var n := |aliases| - 1;
      AliasValues(aliases[..n], frozen) + [Alias(aliases[n].name, aliases[n].action.Value())]
  }

  /** The search through the table of standard actions. */
  method FindActionName(option: string) returns (entry: Option<ActionName>)
    ensures entry == FindEntry(option, 0)
  {
    hide EntryAt, EqualsIgnoreCase;
    var k := 0;
    while k < ENTRY_COUNT && !EqualsIgnoreCase(EntryAt(k).name, option)
      invariant k <= ENTRY_COUNT && FindEntry(option, 0) == FindEntry(option, k)
    {
      k := k + 1;
    }
    entry := if k < ENTRY_COUNT then Some(EntryAt(k)) else None;
  }

  /** One list update, seen on the whole specification. */
  lemma OneMultiSet(was: Spec, now: Spec, i: nat, m: Multi)
    requires i < MULTI_COUNT && now.MultiAt(i) == m
    requires forall j | 0 <= j < MULTI_COUNT && j != i :: now.MultiAt(j) == was.MultiAt(j)
    requires now.mask == was.mask && now.add == was.add && now.strings == was.strings
    ensures now == SetMulti(was, i, m)
  {
    forall j | 0 <= j < MULTI_COUNT
      ensures now.multiRemoveAll[j] == SetMulti(was, i, m).multiRemoveAll[j]
      ensures now.multiRemove[j] == SetMulti(was, i, m).multiRemove[j]
      ensures now.multiAdd[j] == SetMulti(was, i, m).multiAdd[j]
    {
      assert now.MultiAt(j) == if j == i then m else was.MultiAt(j);
    }
    assert now.multiRemoveAll == SetMulti(was, i, m).multiRemoveAll;
    assert now.multiRemove == SetMulti(was, i, m).multiRemove;
    assert now.multiAdd == SetMulti(was, i, m).multiAdd;
  }

  method UpdateFlagsOf(spec: ActionSpec, entry: ActionName)
    requires spec.Valid()
    modifies spec`mask, spec`add
    ensures spec.Valid() && spec.Repr == old(spec.Repr)
    ensures spec.Value() == UpdateFlags(old(spec.Value()), entry)
  {
    hide ListArray.Valid, MergeMask, MergeAdd;
    spec.MergeFlags(entry.mask, entry.add);
  }

  method SetString(spec: ActionSpec, i: nat, value: Option<string>)
    requires spec.Valid() && i < STRING_COUNT
    modifies spec.Repr
    ensures spec.Valid() && spec.Repr == old(spec.Repr)
    ensures spec.Value() == old(spec.Value()).(strings := old(spec.Value()).strings[i := value])
  {
    hide ListArray.Valid;
    spec.strings[i] := value;
  }

  method AddMultiValue(spec: ActionSpec, i: nat, v: string)
    requires spec.Valid() && i < MULTI_COUNT
    modifies spec.Repr
    ensures spec.Valid() && fresh(spec.Repr - old(spec.Repr))
    ensures spec.Value() == SetMulti(old(spec.Value()), i, AddToMulti(old(spec.Value()).MultiAt(i), v))
  {
    hide ListArray.Valid, SetMulti;
    ghost var was := spec.Value();
    spec.multi.AddValue(i, v);
    spec.Repr := spec.Repr + spec.multi.Repr;
    AllAt(spec);
    OneMultiSet(was, spec.Value(), i, AddToMulti(was.MultiAt(i), v));
  }

  method RemoveMultiValue(spec: ActionSpec, i: nat, value: Option<string>)
    requires spec.Valid() && i < MULTI_COUNT
    modifies spec.Repr
    ensures spec.Valid() && fresh(spec.Repr - old(spec.Repr))
    ensures spec.Value() == SetMulti(old(spec.Value()), i, RemoveFromMulti(old(spec.Value()).MultiAt(i), value))
  {
    hide ListArray.Valid, SetMulti;
    ghost var was := spec.Value();
    if NoText(value) || value == Some("*") {
      spec.multi.RemoveAllValues(i);
    } else {
      spec.multi.RemoveValue(i, value.value);
    }
    spec.Repr := spec.Repr + spec.multi.Repr;
    AllAt(spec);
    OneMultiSet(was, spec.Value(), i, RemoveFromMulti(was.MultiAt(i), value));
  }

  lemma AllAt(spec: ActionSpec)
    requires spec.Valid()
    ensures forall j | 0 <= j < MULTI_COUNT :: spec.Value().MultiAt(j) == spec.multi.At(j)
  {}

  /** The `switch` of `get_actions`, after a standard action has been found. */
  method PerformEntry(spec: ActionSpec, entry: ActionName, value: Option<string>) returns (ok: bool)
    requires spec.Valid() && EntryOk(entry)
    modifies spec.Repr
    ensures spec.Valid() && fresh(spec.Repr - old(spec.Repr))
    ensures Perform(old(spec.Value()), entry, value) == if ok then Ok(spec.Value()) else ParseError
  {
    hide ActionSpec.Valid, ActionSpec.Value, UpdateFlags, SetMulti, AddToMulti, RemoveFromMulti;
    UpdateFlagsOf(spec, entry);
    ok := true;
    match entry.valueType
    case NoValue =>
      ok := value.None?;
    case AddString =>
      var v := StringValue(entry, value);
      if v.None? {
        return false;
      }
      SetString(spec, entry.index, v);
    case RemString =>
      SetString(spec, entry.index, None);
    case AddMulti =>
      if NoText(value) {
        return false;
      }
      AddMultiValue(spec, entry.index, value.value);
    case RemMulti =>
      RemoveMultiValue(spec, entry.index, value);
  }

  /** The search through the aliases. */
  method FindAliasNode(aliases: seq<AliasNode>, ghost frozen: set<object>, option: string)
    returns (node: Option<AliasNode>)
    requires AliasesIn(aliases, frozen)
    ensures node.Some? ==> node.value.action in frozen && node.value.action.Repr <= frozen && node.value.action.Valid()
    ensures FindAlias(AliasValues(aliases, frozen), option)
         == if node.None? then None else Some(node.value.action.Value())
  {
    hide EqualsIgnoreCase, ActionSpec.Valid, ActionSpec.Value, AliasValues;
    ghost var values := AliasValues(aliases, frozen);
    var i := 0;
    assert values[i..] == values;
    while i < |aliases| && !EqualsIgnoreCase(aliases[i].name, option)
      invariant i <= |aliases| && FindAlias(values, option) == FindAlias(values[i..], option)
    {
      assert values[i..][1..] == values[i + 1..];
      i := i + 1;
    }
    node := if i < |aliases| then Some(aliases[i]) else None;
  }

  /** How reading a line ends: `Fatal` is a fatal log message, after which the program ends. */
  datatype Ending = Done | Malformed | Fatal

  /** What an ending says about the specification that was read. */
  ghost function Result(ending: Ending, spec: Spec): Parsed<Spec> {
    match ending
    case Done => Ok(spec)
    case Malformed => ParseError
    case Fatal => Exit
  }

  /** One turn of the loop of `get_actions`. */
  method PerformToken(spec: ActionSpec, token: Token, aliases: seq<AliasNode>, ghost frozen: set<object>)
    returns (ending: Ending)
    requires spec.Valid() && AliasesIn(aliases, frozen) && spec.Repr !! frozen
    modifies spec.Repr
    ensures spec.Valid() && fresh(spec.Repr - old(spec.Repr))
    ensures ParseToken(old(spec.Value()), token, old(AliasValues(aliases, frozen))) == Result(ending, spec.Value())
  {
    hide ActionSpec.Valid, ActionSpec.Value, FindEntry, EntryOk, Perform, Merge, UsedToBeValid;
    hide EqualsIgnoreCase, AliasesIn, AliasValues;
    var entry := FindActionName(token.option);
    if entry.Some? {
      FoundEntryOk(token.option, 0);
      var ok := PerformEntry(spec, entry.value, token.value);
      return if ok then Done else Malformed;
    }
    var alias := FindAliasNode(aliases, frozen, token.option);
    if alias.Some? {
      spec.MergeActions(alias.value.action);
      return Done;
    }
    if |token.option| > 2 && UsedToBeValid(token.option[1..]) {
      return Done;
    }
    var fatal := |token.option| > 2 && EqualsIgnoreCase(token.option[1..], "hide-forwarded-for-headers");
    ending := if fatal then Fatal else Malformed;
  }

  /** `get_actions`, on a specification that `init_action` has cleared. */
  method ReadActions(spec: ActionSpec, line: string, aliases: seq<AliasNode>, ghost frozen: set<object>)
    returns (ending: Ending)
    requires spec.Valid() && spec.Value() == Neutral().(mask := 0)
    requires AliasesIn(aliases, frozen) && spec.Repr !! frozen
    modifies spec.Repr
    ensures spec.Valid() && fresh(spec.Repr - old(spec.Repr)) && AliasesIn(aliases, frozen)
    ensures GetActions(Neutral(), line, AliasValues(aliases, frozen)) == Result(ending, spec.Value())
  {
    hide ListArray.Valid, NextToken, ParseToken, AliasesIn, AliasValues;
    ghost var known := AliasValues(aliases, frozen);
    spec.mask := MASK_ALL;
    assert spec.Value() == Neutral();
    ending := ReadTokens(spec, line, aliases, frozen);
  }

  /** The loop of `get_actions`. */
  method ReadTokens(spec: ActionSpec, line: string, aliases: seq<AliasNode>, ghost frozen: set<object>)
    returns (ending: Ending)
    requires spec.Valid() && AliasesIn(aliases, frozen) && spec.Repr !! frozen
    modifies spec.Repr
    ensures spec.Valid() && fresh(spec.Repr - old(spec.Repr)) && AliasesIn(aliases, frozen)
    ensures AliasValues(aliases, frozen) == old(AliasValues(aliases, frozen))
    ensures GetActions(old(spec.Value()), line, AliasValues(aliases, frozen)) == Result(ending, spec.Value())
  {
    hide ActionSpec.Valid, ActionSpec.Value, NextToken, ParseToken, AliasesIn, AliasValues;
    ghost var known := AliasValues(aliases, frozen);
    var rest := line;
    while true
      invariant spec.Valid() && fresh(spec.Repr - old(spec.Repr)) && AliasesIn(aliases, frozen)
      invariant AliasValues(aliases, frozen) == known
      invariant GetActions(old(spec.Value()), line, known) == GetActions(spec.Value(), rest, known)
      decreases |rest|
    {
      var token := GetActionToken(rest);
      if token.End? {
        return Done;
      }
      if token.Bad? {
        return Malformed;
      }
      ending := PerformToken(spec, token.token, aliases, frozen);
      if ending != Done {
        return;
      }
      rest := token.rest;
    }
  }
}
