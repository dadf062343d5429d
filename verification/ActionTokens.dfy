/** `get_action_token`: cutting a line of actions into names and values. */
module ActionTokens {
  import opened Text
  import opened Actions
  import opened ActionParser

  predicate IsBlank(c: char) {
    c == ' ' || c == '\t'
  }

  /** The characters that end an action name. */
  predicate EndsName(c: char) {
    IsBlank(c) || c == '{' || c == '}'
  }

  /** `End` is the end of the line, `Bad` is JB_ERR_PARSE. */
  datatype TokenResult = End | Bad | Got(token: Token, rest: string)

  function SkipBlanks(s: string): (r: string)
    ensures |r| <= |s|
  {
    if s != [] && IsBlank(s[0]) then SkipBlanks(s[1..]) else s
  }

  function NameLength(s: string): (n: nat)
    ensures n <= |s|
    ensures forall i | 0 <= i < n :: !EndsName(s[i])
    ensures n < |s| ==> EndsName(s[n])
  {
    if s != [] && !EndsName(s[0]) then 1 + NameLength(s[1..]) else 0
  }

  /** `strchr(s, '}')` */
  function BracePosition(s: string): (n: nat)
    ensures n <= |s|
    ensures forall i | 0 <= i < n :: s[i] != '}'
    ensures n < |s| ==> s[n] == '}'
  {
    if s != [] && s[0] != '}' then 1 + BracePosition(s[1..]) else 0
  }

  /** The value up to the first closing brace that no backslash precedes, with the escaping
      backslashes dropped, and what follows that brace. */
  function ScanValue(s: string): (r: Option<(string, string)>)
    ensures r.Some? ==> |r.value.1| < |s|
    decreases |s|
  {
    var n := BracePosition(s);
    if n == |s| then None
    else if n > 0 && s[n - 1] == '\\' then
      var more := ScanValue(s[n + 1..]);
      if more.None? then None else Some((s[..n - 1] + "}" + more.value.0, more.value.1))
    else Some((s[..n], s[n + 1..]))
  }

  /** `get_action_token` */
  function NextToken(line: string): (r: TokenResult)
    ensures r.Got? ==> |r.rest| < |line|
  {
    var s := SkipBlanks(line);
    var n := NameLength(s);
    if s == [] then End
    else if n == 0 then Bad
    else if n == |s| then Got(Token(s, None), [])
    else if s[n] == '}' then Bad
    else if s[n] != '{' then Got(Token(s[..n], None), s[n + 1..])
    else
      var value := ScanValue(s[n + 1..]);
      if value.None? then Bad
      else Got(Token(s[..n], Some(Chomp(value.value.0))), value.value.1)
  }

  /** `get_actions`: tokens are performed as they are found. */
  function GetActions(spec: Spec, line: string, aliases: seq<Alias>): Parsed<Spec>
    decreases |line|
  {
    match NextToken(line)
    case End => Ok(spec)
    case Bad => ParseError
    case Got(token, rest) =>
      var next := ParseToken(spec, token, aliases);
      if next.Ok? then GetActions(next.value, rest, aliases) else next
  }

  /** All tokens of a line, if it is well formed. */
  function Tokenize(line: string): Option<seq<Token>>
    decreases |line|
  {
    match NextToken(line)
    case End => Some([])
    case Bad => None
    case Got(token, rest) =>
      var more := Tokenize(rest);
      if more.None? then None else Some([token] + more.value)
  }

  lemma {:induction false} GetActionsOfTokens(spec: Spec, line: string, aliases: seq<Alias>)
    ensures Tokenize(line).Some? ==> GetActions(spec, line, aliases) == ParseTokens(spec, Tokenize(line).value, aliases)
    ensures GetActions(spec, line, aliases).Ok? ==> Tokenize(line).Some?
    decreases |line|
  {
    hide ParseToken;
    match NextToken(line)
    case End =>
    case Bad =>
    case Got(token, rest) =>
      var next := ParseToken(spec, token, aliases);
      if next.Ok? {
        GetActionsOfTokens(next.value, rest, aliases);
      }
      if Tokenize(rest).Some? {
        assert ([token] + Tokenize(rest).value)[1..] == Tokenize(rest).value;
      }
  }

  // ----- In place, as the source does it ------------------------------------

  /** `get_action_token`: walks over its line buffer and drops escaping backslashes from it. */
  method GetActionToken(line: string) returns (r: TokenResult)
    ensures r == NextToken(line)
  {
    hide SkipBlanks, NameLength, ScanValue, Chomp;
    var p := 0;
    assert line[p..] == line;
    while p < |line| && IsBlank(line[p])
      invariant 0 <= p <= |line|
      invariant SkipBlanks(line) == SkipBlanks(line[p..])
    {
      SkipOneBlank(line[p..]);
      assert line[p..][1..] == line[p + 1..];
      p := p + 1;
    }
    SkipNoBlank(line[p..]);
    if p == |line| {
      return End;
    }
    var str := line[p..];
    if str[0] == '{' {
      NameLengthIs(str, 0);
      return Bad;
    }
    p := 0;
    while p < |str| && !IsBlank(str[p]) && str[p] != '{'
      invariant 0 <= p <= |str|
      invariant forall i | 0 <= i < p :: !EndsName(str[i])
    {
      if str[p] == '}' {
        NameLengthIs(str, p);
        return Bad;
      }
      p := p + 1;
    }
    NameLengthIs(str, p);
    var option := str[..p];
    if p == |str| {
      assert option == str;
      return Got(Token(option, None), []);
    }
    if str[p] != '{' {
      return Got(Token(option, None), str[p + 1..]);
    }
    var value := UnescapeValue(str[p + 1..]);
    r := if value.None? then Bad else Got(Token(option, Some(Chomp(value.value.0))), value.value.1);
  }

  lemma SkipOneBlank(s: string)
    requires s != [] && IsBlank(s[0])
    ensures SkipBlanks(s) == SkipBlanks(s[1..])
  {}

  lemma SkipNoBlank(s: string)
    requires s != [] ==> !IsBlank(s[0])
    ensures SkipBlanks(s) == s
  {}

  lemma {:induction false} NameLengthIs(s: string, n: nat)
    requires n <= |s| && (forall i | 0 <= i < n :: !EndsName(s[i])) && (n < |s| ==> EndsName(s[n]))
    ensures NameLength(s) == n
  {}

  /** The value loop of `get_action_token`; `line` starts behind the opening brace. */
  method UnescapeValue(line: string) returns (r: Option<(string, string)>)
    ensures r == ScanValue(line)
  {
    var buf := line;
    var p := 0;
    hide ScanValue, Prefixed, BracePosition;
    PrefixedNothing(line);
    assert buf[p..] == line && buf[..p] == [];
    while true
      invariant p <= |buf|
      invariant ScanValue(line) == Prefixed(buf[..p], ScanValue(buf[p..]))
      decreases |buf| - p
    {
      var n := BracePosition(buf[p..]);
      UnescapeStop(buf, p, n);
      if n == |buf| - p {
        return None;
      }
      if n > 0 && buf[p + n - 1] == '\\' {
        UnescapeStep(buf, p, n);
        buf := buf[..p + n - 1] + buf[p + n..];
        p := p + n;
      } else {
        return Some((buf[..p + n], buf[p + n + 1..]));
      }
    }
  }

  lemma PrefixedNothing(s: string)
    ensures Prefixed([], ScanValue(s)) == ScanValue(s)
  {
    if ScanValue(s).Some? {
      assert [] + ScanValue(s).value.0 == ScanValue(s).value.0;
    }
  }

  /** No brace at all, or one that ends the value. */
  lemma UnescapeStop(buf: string, p: nat, n: nat)
    requires p <= |buf| && n == BracePosition(buf[p..])
    ensures n == |buf| - p ==> Prefixed(buf[..p], ScanValue(buf[p..])) == None
    ensures n < |buf| - p && (n == 0 || buf[p + n - 1] != '\\') ==>
      Prefixed(buf[..p], ScanValue(buf[p..])) == Some((buf[..p + n], buf[p + n + 1..]))
  {
    if n < |buf| - p {
      assert buf[p..][..n] == buf[p..p + n] && buf[p..][n + 1..] == buf[p + n + 1..];
      assert buf[..p] + buf[p..p + n] == buf[..p + n];
    }
  }

  /** Moving the text over an escaping backslash keeps what is scanned so far. */
  lemma UnescapeStep(buf: string, p: nat, n: nat)
    requires p <= |buf| && n == BracePosition(buf[p..]) && 0 < n < |buf| - p && buf[p + n - 1] == '\\'
    ensures var moved := buf[..p + n - 1] + buf[p + n..];
            Prefixed(buf[..p], ScanValue(buf[p..])) == Prefixed(moved[..p + n], ScanValue(moved[p + n..]))
  {
    var rest, moved := buf[p..], buf[..p + n - 1] + buf[p + n..];
    var more := ScanValue(rest[n + 1..]);
    assert moved[p + n..] == buf[p + n + 1..] == rest[n + 1..];
    assert moved[..p + n] == buf[..p] + (rest[..n - 1] + "}");
    assert ScanValue(rest) == Prefixed(rest[..n - 1] + "}", more);
    PrefixedTwice(buf[..p], rest[..n - 1] + "}", more);
  }

  ghost function Prefixed(front: string, r: Option<(string, string)>): Option<(string, string)> {
    if r.None? then None else Some((front + r.value.0, r.value.1))
  }

  lemma PrefixedTwice(a: string, b: string, r: Option<(string, string)>)
    ensures Prefixed(a, Prefixed(b, r)) == Prefixed(a + b, r)
  {
    if r.Some? {
      assert a + (b + r.value.0) == (a + b) + r.value.0;
    }
  }
}
