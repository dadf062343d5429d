/** `get_actions` on tokens: standard actions update the specification bit by
    bit and list by list, aliases are merged into it. The main result is that
    an alias means the same as its definition written out. */
module ActionParser {
  import opened Text
  import opened StringLists
  import opened Bits
  import opened Actions
  import opened ActionTable

  /** What `get_action_token` finds: an action name and, in braces, its value. */
  datatype Token = Token(option: string, value: Option<string>)

  /** `Exit` stands for a fatal log message, after which the program ends. */
  datatype Parsed<+T> = Ok(value: T) | ParseError | Exit

  /** `struct action_alias` without its list link. */
  datatype Alias = Alias(name: string, action: Spec)

  // ----- The table of standard actions ------------------------------------

  const ENTRY_COUNT: nat := 2 * (DEFINITION_COUNT + SPELLING_COUNT)

  function LineAt(i: nat): Definition
    requires i < DEFINITION_COUNT + SPELLING_COUNT
  {
    if i < DEFINITION_COUNT then DefinitionAt(i) else SpellingAt(i - DEFINITION_COUNT)
  }

  /** `action_names[k]` */
  function EntryAt(k: nat): ActionName
    requires k < ENTRY_COUNT
  {
    if k % 2 == 0 then PlusEntry(LineAt(k / 2)) else MinusEntry(LineAt(k / 2))
  }

  /** The first entry from k on whose name is the option, whatever its case. */
  function FindEntry(option: string, k: nat): Option<ActionName>
    requires k <= ENTRY_COUNT
    decreases ENTRY_COUNT - k
  {
    if k == ENTRY_COUNT then None
    else if EqualsIgnoreCase(EntryAt(k).name, option) then Some(EntryAt(k))
    else FindEntry(option, k + 1)
  }

  function FindAlias(aliases: seq<Alias>, option: string): Option<Spec> {
    if aliases == [] then None
    else if EqualsIgnoreCase(aliases[0].name, option) then Some(aliases[0].action)
    else FindAlias(aliases[1..], option)
  }

  predicate UsedToBeValid(name: string) {
    || EqualsIgnoreCase(name, "inspect-jpegs")
    || EqualsIgnoreCase(name, "kill-popups")
    || EqualsIgnoreCase(name, "send-vanilla-wafer")
    || EqualsIgnoreCase(name, "send-wafer")
    || EqualsIgnoreCase(name, "treat-forbidden-connects-like-blocks")
    || EqualsIgnoreCase(name, "vanilla-wafer")
    || EqualsIgnoreCase(name, "wafer")
  }

  // ----- One token ---------------------------------------------------------

  function UpdateFlags(spec: Spec, entry: ActionName): Spec {
    spec.(mask := MergeMask(spec.mask, entry.mask), add := MergeAdd(spec.add, entry.mask, entry.add))
  }

  function SetMulti(spec: Spec, i: nat, m: Multi): Spec
    requires i < MULTI_COUNT
  {
    spec.(multiRemoveAll := spec.multiRemoveAll[i := m.removeAll],
          multiRemove := spec.multiRemove[i := m.remove],
          multiAdd := spec.multiAdd[i := m.add])
  }

  predicate NoText(value: Option<string>) {
    value.None? || value.value == ""
  }

  /** The value that ends up as the string of an action, if it may be used. */
  function StringValue(entry: ActionName, value: Option<string>): Option<string> {
    if !NoText(value) then value
    else if EqualsIgnoreCase(entry.name, "+block") then Some("No reason specified.")
    else None
  }

  function AddToMulti(m: Multi, v: string): Multi {
    Multi(m.removeAll, Without(m.remove, v), AddUnique(m.add, v))
  }

  function RemoveFromMulti(m: Multi, value: Option<string>): Multi {
    if NoText(value) || value == Some("*") then Multi(true, [], [])
    else Multi(m.removeAll,
               if m.removeAll then m.remove else AddUnique(m.remove, value.value),
               Without(m.add, value.value))
  }

  /** The `switch` of `get_actions`. */
  function Perform(spec: Spec, entry: ActionName, value: Option<string>): Parsed<Spec>
    requires EntryOk(entry)
  {
    var s := UpdateFlags(spec, entry);
    match entry.valueType
    case NoValue =>
      if value.Some? then ParseError else Ok(s)
    case AddString =>
      var v := StringValue(entry, value);
      if v.None? then ParseError else Ok(s.(strings := s.strings[entry.index := v]))
    case RemString =>
      Ok(s.(strings := s.strings[entry.index := None]))
    case AddMulti =>
      if NoText(value) then ParseError
      else Ok(SetMulti(s, entry.index, AddToMulti(s.MultiAt(entry.index), value.value)))
    case RemMulti =>
      Ok(SetMulti(s, entry.index, RemoveFromMulti(s.MultiAt(entry.index), value)))
  }

  /** The specification of a single action. */
  function Single(entry: ActionName, value: Option<string>): Parsed<Spec>
    requires EntryOk(entry)
  {
    Perform(Neutral(), entry, value)
  }

  /** One round of the loop in `get_actions`. */
  function ParseToken(spec: Spec, token: Token, aliases: seq<Alias>): Parsed<Spec> {
    var entry := FindEntry(token.option, 0);
    if entry.Some? then
      FoundEntryOk(token.option, 0);
      Perform(spec, entry.value, token.value)
    else
      var alias := FindAlias(aliases, token.option);
      if alias.Some? then Ok(Merge(spec, alias.value))
      else if |token.option| > 2 && UsedToBeValid(token.option[1..]) then Ok(spec)
      else if |token.option| > 2 && EqualsIgnoreCase(token.option[1..], "hide-forwarded-for-headers") then Exit
      else ParseError
  }

  function ParseTokens(spec: Spec, tokens: seq<Token>, aliases: seq<Alias>): Parsed<Spec>
    decreases |tokens|
  {
    if tokens == [] then Ok(spec)
    else
      var first := ParseToken(spec, tokens[0], aliases);
      if first.Ok? then ParseTokens(first.value, tokens[1..], aliases) else first
  }

  // ----- What the flags of an entry do -------------------------------------

  /** An entry touches at most the flag of its own string, and only in the direction of its sign. */
  predicate EntryOk(entry: ActionName) {
    match entry.valueType
    case NoValue =>
      forall i | 0 <= i < STRING_COUNT :: On(entry.mask, StringBit(i)) && !On(entry.add, StringBit(i))
    case AddString =>
      && entry.index < STRING_COUNT
      && forall i | 0 <= i < STRING_COUNT ::
           On(entry.mask, StringBit(i)) && (On(entry.add, StringBit(i)) <==> i == entry.index)
    case RemString =>
      && entry.index < STRING_COUNT
      && forall i | 0 <= i < STRING_COUNT ::
           !On(entry.add, StringBit(i)) && (On(entry.mask, StringBit(i)) <==> i != entry.index)
    case AddMulti => entry.index < MULTI_COUNT && entry.mask == MASK_ALL && entry.add == 0
    case RemMulti => entry.index < MULTI_COUNT && entry.mask == MASK_ALL && entry.add == 0
  }

  lemma LineEntriesOk(d: Definition)
    ensures EntryOk(PlusEntry(d)) && EntryOk(MinusEntry(d))
  {
    hide Flag, Complement, On, StringOf, StringBit;
    if d.StringLine? {
      StringBitIsInverse(d.bit);
    }
    forall i | 0 <= i < STRING_COUNT
      ensures On(MASK_ALL, StringBit(i)) && !On(0, StringBit(i))
      ensures d.BoolLine? || d.StringLine? ==> (On(Flag(d.bit), StringBit(i)) <==> d.bit == StringBit(i))
      ensures d.BoolLine? || d.StringLine? ==> (On(Complement(Flag(d.bit)), StringBit(i)) <==> d.bit != StringBit(i))
    {
      OnFlag(if d.MultiLine? then 0 else d.bit, StringBit(i));
    }
  }

  lemma {:induction false} FoundEntryOk(option: string, k: nat)
    requires k <= ENTRY_COUNT && FindEntry(option, k).Some?
    ensures EntryOk(FindEntry(option, k).value)
    decreases ENTRY_COUNT - k
  {
    hide EntryOk, LineAt, PlusEntry, MinusEntry;
    if k < ENTRY_COUNT {
      LineEntriesOk(LineAt(k / 2));
      if !EqualsIgnoreCase(EntryAt(k).name, option) {
        FoundEntryOk(option, k + 1);
      }
    }
  }
}
