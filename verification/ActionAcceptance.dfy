/** Which lines of actions `get_actions` accepts, and which end the program. */
module ActionAcceptance {
  import opened Text
  import opened Actions
  import opened ActionTable
  import opened ActionParser
  import opened ActionTokens

  /** Actions of earlier versions, behind their sign; lines with them are still read. */
  const OBSOLETE: seq<string> :=
    ["inspect-jpegs", "kill-popups", "send-vanilla-wafer", "send-wafer", "treat-forbidden-connects-like-blocks",
     "vanilla-wafer", "wafer"]

  /** The entry of the table takes the value: none for a flag, some text for what sets a string other than the
      reason for blocking or adds to a list, anything for what removes. */
  ghost predicate Takes(entry: ActionName, value: Option<string>) {
    match entry.valueType
    case NoValue => value.None?
    case AddString => (value.Some? && value.value != "") || EqualsIgnoreCase(entry.name, "+block")
    case AddMulti => value.Some? && value.value != ""
    case RemString => true
    case RemMulti => true
  }

  /** The option is the name of an entry, in any case. */
  ghost predicate Standard(option: string) {
    exists k | 0 <= k < ENTRY_COUNT :: EqualsIgnoreCase(EntryAt(k).name, option)
  }

  /** The first entry with that name takes the value. */
  ghost predicate StandardWithValue(token: Token) {
    exists k | 0 <= k < ENTRY_COUNT ::
      && EqualsIgnoreCase(EntryAt(k).name, token.option) && Takes(EntryAt(k), token.value)
      && forall j | 0 <= j < k :: !EqualsIgnoreCase(EntryAt(j).name, token.option)
  }

  ghost predicate NamesAlias(option: string, aliases: seq<Alias>) {
    exists i | 0 <= i < |aliases| :: EqualsIgnoreCase(aliases[i].name, option)
  }

  ghost predicate Obsolete(option: string) {
    |option| > 2 && exists i | 0 <= i < |OBSOLETE| :: EqualsIgnoreCase(option[1..], OBSOLETE[i])
  }

  /** A standard action with a value that it takes, an alias, or an obsolete action. */
  ghost predicate Accepted(token: Token, aliases: seq<Alias>) {
    || StandardWithValue(token)
    || (!Standard(token.option) && (NamesAlias(token.option, aliases) || Obsolete(token.option)))
  }

  /** An action that was renamed and must not be read any more. */
  ghost predicate Renamed(token: Token, aliases: seq<Alias>) {
    && !Standard(token.option) && !NamesAlias(token.option, aliases)
    && |token.option| > 2 && EqualsIgnoreCase(token.option[1..], "hide-forwarded-for-headers")
  }

  /** The tokens up to the end of the line or its first syntax error. */
  function LeadingTokens(line: string): seq<Token>
    decreases |line|
  {
    match NextToken(line)
    case Got(token, rest) => [token] + LeadingTokens(rest)
    case _ => []
  }

  /** Names are equal in any case if each letter is the same, or one the capital of the other. */
  lemma SameInAnyCase(s: string, t: string)
    ensures EqualsIgnoreCase(s, t)
       <==> && |s| == |t|
            && forall i | 0 <= i < |s| ::
                 || s[i] == t[i]
                 || ('A' <= s[i] <= 'Z' && t[i] as int == s[i] as int + 32)
                 || ('A' <= t[i] <= 'Z' && s[i] as int == t[i] as int + 32)
  {}

  // ----- One token ----------------------------------------------------------------

  lemma {:induction false} FirstEntry(option: string, k: nat)
    requires k <= ENTRY_COUNT
    ensures FindEntry(option, k).None? ==> forall i | k <= i < ENTRY_COUNT :: !EqualsIgnoreCase(EntryAt(i).name, option)
    ensures FindEntry(option, k).Some? ==>
              exists i | k <= i < ENTRY_COUNT ::
                && EqualsIgnoreCase(EntryAt(i).name, option) && FindEntry(option, k) == Some(EntryAt(i))
                && forall j | k <= j < i :: !EqualsIgnoreCase(EntryAt(j).name, option)
    decreases ENTRY_COUNT - k
  {
    hide EntryAt, EqualsIgnoreCase;
    if k < ENTRY_COUNT && !EqualsIgnoreCase(EntryAt(k).name, option) {
      FirstEntry(option, k + 1);
    }
  }

  lemma StandardIsFound(token: Token)
    ensures Standard(token.option) <==> FindEntry(token.option, 0).Some?
    ensures StandardWithValue(token) <==>
              FindEntry(token.option, 0).Some? && Takes(FindEntry(token.option, 0).value, token.value)
  {
    hide EntryAt, EqualsIgnoreCase, Takes;
    FirstEntry(token.option, 0);
  }

  lemma {:induction false} AliasIsFound(option: string, aliases: seq<Alias>)
    ensures NamesAlias(option, aliases) <==> FindAlias(aliases, option).Some?
  {
    hide EqualsIgnoreCase;
    if aliases != [] {
      AliasIsFound(option, aliases[1..]);
      if NamesAlias(option, aliases) && !EqualsIgnoreCase(aliases[0].name, option) {
        var i :| 0 <= i < |aliases| && EqualsIgnoreCase(aliases[i].name, option);
        assert aliases[1..][i - 1] == aliases[i];
      }
    }
  }

  lemma ObsoleteWasValid(name: string)
    ensures UsedToBeValid(name) <==> exists i | 0 <= i < |OBSOLETE| :: EqualsIgnoreCase(name, OBSOLETE[i])
  {
    hide EqualsIgnoreCase;
    assert OBSOLETE[0] == "inspect-jpegs" && OBSOLETE[1] == "kill-popups" && OBSOLETE[2] == "send-vanilla-wafer";
    assert OBSOLETE[3] == "send-wafer" && OBSOLETE[4] == "treat-forbidden-connects-like-blocks";
    assert OBSOLETE[5] == "vanilla-wafer" && OBSOLETE[6] == "wafer";
  }

  lemma PerformedIfTaken(spec: Spec, entry: ActionName, value: Option<string>)
    requires EntryOk(entry)
    ensures Perform(spec, entry, value) == ParseError || Perform(spec, entry, value).Ok?
    ensures Perform(spec, entry, value).Ok? <==> Takes(entry, value)
  {
    hide EqualsIgnoreCase, SetMulti, UpdateFlags;
  }

  /** How one round of the loop ends. */
  lemma TokenOutcome(spec: Spec, token: Token, aliases: seq<Alias>)
    ensures ParseToken(spec, token, aliases).Ok? <==> Accepted(token, aliases)
    ensures ParseToken(spec, token, aliases).Exit? <==> Renamed(token, aliases) && !Accepted(token, aliases)
  {
    hide FindEntry, FindAlias, Perform, EntryOk, Takes, Standard, StandardWithValue, NamesAlias, UsedToBeValid;
    hide EqualsIgnoreCase;
    StandardIsFound(token);
    AliasIsFound(token.option, aliases);
    if |token.option| > 2 {
      ObsoleteWasValid(token.option[1..]);
    }
    var entry := FindEntry(token.option, 0);
    if entry.Some? {
      FoundEntryOk(token.option, 0);
      PerformedIfTaken(spec, entry.value, token.value);
    }
  }

  lemma RenamedIsNotObsolete(token: Token, aliases: seq<Alias>)
    requires Renamed(token, aliases)
    ensures !Accepted(token, aliases)
  {
    hide EqualsIgnoreCase, EntryAt, Takes, NamesAlias;
    assert |"hide-forwarded-for-headers"| == 26;
    assert forall i | 0 <= i < |OBSOLETE| :: |OBSOLETE[i]| != 26;
  }

  // ----- A whole line ---------------------------------------------------------------

  ghost predicate AllAccepted(tokens: seq<Token>, aliases: seq<Alias>) {
    forall i | 0 <= i < |tokens| :: Accepted(tokens[i], aliases)
  }

  /** A renamed action comes before anything that is not accepted. */
  ghost predicate RenamedFirst(tokens: seq<Token>, aliases: seq<Alias>) {
    exists i | 0 <= i < |tokens| :: Renamed(tokens[i], aliases) && AllAccepted(tokens[..i], aliases)
  }

  lemma OneMoreAccepted(token: Token, more: seq<Token>, aliases: seq<Alias>)
    ensures AllAccepted([token] + more, aliases) <==> Accepted(token, aliases) && AllAccepted(more, aliases)
  {
    hide Accepted;
    var all := [token] + more;
    assert all[0] == token && forall i | 0 <= i < |more| :: all[i + 1] == more[i];
  }

  lemma OneMoreToken(token: Token, more: seq<Token>, aliases: seq<Alias>)
    ensures AllAccepted([token] + more, aliases) <==> Accepted(token, aliases) && AllAccepted(more, aliases)
    ensures RenamedFirst([token] + more, aliases) <==>
              Renamed(token, aliases) || (Accepted(token, aliases) && RenamedFirst(more, aliases))
  {
    hide Accepted, Renamed, AllAccepted;
    OneMoreAccepted(token, more, aliases);
    var all := [token] + more;
    assert all[..0] == [];
    NoTokens(aliases);
    forall i | 0 <= i < |more|
      ensures all[i + 1] == more[i]
      ensures AllAccepted(all[..i + 1], aliases) <==> Accepted(token, aliases) && AllAccepted(more[..i], aliases)
    {
      assert all[..i + 1] == [token] + more[..i];
      OneMoreAccepted(token, more[..i], aliases);
    }
    if RenamedFirst(all, aliases) {
      var i :| 0 <= i < |all| && Renamed(all[i], aliases) && AllAccepted(all[..i], aliases);
      assert i > 0 ==> all[i] == more[i - 1] && all[..i] == all[..i - 1 + 1];
    }
  }

  lemma {:induction false} TokensLead(line: string)
    ensures Tokenize(line).Some? ==> Tokenize(line).value == LeadingTokens(line)
    decreases |line|
  {
    hide NextToken;
    match NextToken(line)
    case Got(token, rest) => TokensLead(rest);
    case _ =>
  }

  /** A line is accepted exactly if it has no syntax error and each token is accepted. It ends the program
      exactly if a renamed action comes before anything that is not accepted. Other lines are errors. */
  lemma {:induction false} WhenAccepted(spec: Spec, line: string, aliases: seq<Alias>)
    ensures GetActions(spec, line, aliases).Ok? <==>
              Tokenize(line).Some? && AllAccepted(Tokenize(line).value, aliases)
    ensures GetActions(spec, line, aliases).Exit? <==> RenamedFirst(LeadingTokens(line), aliases)
    decreases |line|
  {
    hide NextToken, ParseToken, Accepted, Renamed, AllAccepted, RenamedFirst;
    match NextToken(line)
    case End => NoTokens(aliases);
    case Bad => NoTokens(aliases);
    case Got(token, rest) =>
      TokensLead(rest);
      OneMoreToken(token, LeadingTokens(rest), aliases);
      TokenOutcome(spec, token, aliases);
      if Renamed(token, aliases) {
        RenamedIsNotObsolete(token, aliases);
      }
      var next := ParseToken(spec, token, aliases);
      if next.Ok? {
        WhenAccepted(next.value, rest, aliases);
      }
  }

  lemma NoTokens(aliases: seq<Alias>)
    ensures AllAccepted([], aliases) && !RenamedFirst([], aliases)
  {}
}
