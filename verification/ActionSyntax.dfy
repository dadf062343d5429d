/** The syntax of a line of actions: blanks, a name, and a value in braces. */
module ActionSyntax {
  import opened Text
  import opened ActionParser
  import opened ActionTokens

  ghost predicate OnlyBlanks(s: string) {
    forall i | 0 <= i < |s| :: s[i] in {' ', '\t'}
  }

  ghost predicate NameText(s: string) {
    s != "" && forall i | 0 <= i < |s| :: s[i] !in {' ', '\t', '{', '}'}
  }

  /** A backslash in front of every closing brace. */
  function Escaped(v: string): string {
    if v == "" then "" else (if v[0] == '}' then "\\}" else [v[0]]) + Escaped(v[1..])
  }

  /** Every closing brace has a backslash in front of it. */
  ghost predicate Unclosed(s: string) {
    forall i | 0 <= i < |s| && s[i] == '}' :: i > 0 && s[i - 1] == '\\'
  }

  lemma {:induction false} BlanksAreSkipped(blanks: string, s: string)
    requires OnlyBlanks(blanks) && (s != "" ==> s[0] !in {' ', '\t'})
    ensures SkipBlanks(blanks + s) == s
  {
    if blanks == "" {
      assert blanks + s == s;
    } else {
      assert (blanks + s)[1..] == blanks[1..] + s;
      BlanksAreSkipped(blanks[1..], s);
    }
  }

  lemma NameIsFound(name: string, rest: string)
    requires NameText(name) && (rest != "" ==> rest[0] in {' ', '\t', '{', '}'})
    ensures NameLength(name + rest) == |name|
  {
    NameLengthIs(name + rest, |name|);
  }

  /** A name ends the line, or at the first blank behind it; a closing brace behind it is an error. */
  lemma NameIsRead(blanks: string, name: string, rest: string)
    requires OnlyBlanks(blanks) && NameText(name) && (rest != "" ==> rest[0] in {' ', '\t', '}'})
    ensures NextToken(blanks + (name + rest))
         == if rest == "" then Got(Token(name, None), "")
            else if rest[0] == '}' then Bad
            else Got(Token(name, None), rest[1..])
  {
    hide SkipBlanks, NameLength, ScanValue;
    var s := name + rest;
    BlanksAreSkipped(blanks, s);
    NameIsFound(name, rest);
    assert s[..|name|] == name && (rest != "" ==> s[|name|] == rest[0] && s[|name| + 1..] == rest[1..]);
    assert rest == "" ==> s == name;
  }

  /** A value goes up to the first closing brace without a backslash, loses the backslashes in front of the
      others, and whitespace at its ends. */
  lemma ValueIsRead(blanks: string, name: string, value: string, rest: string)
    requires OnlyBlanks(blanks) && NameText(name) && (value != "" ==> value[|value| - 1] != '\\')
    ensures NextToken(blanks + (name + ("{" + (Escaped(value) + ("}" + rest)))))
         == Got(Token(name, Some(Chomp(value))), rest)
  {
    hide NextToken, ScanValue, Chomp, Escaped;
    NameAndBrace(blanks, name, Escaped(value) + ("}" + rest));
    EscapedIsScanned(value, rest);
  }

  lemma NameAndBrace(blanks: string, name: string, text: string)
    requires OnlyBlanks(blanks) && NameText(name)
    ensures NextToken(blanks + (name + ("{" + text)))
         == if ScanValue(text).None? then Bad
            else Got(Token(name, Some(Chomp(ScanValue(text).value.0))), ScanValue(text).value.1)
  {
    hide SkipBlanks, NameLength, ScanValue, Chomp;
    var s := name + ("{" + text);
    BlanksAreSkipped(blanks, s);
    NameIsFound(name, "{" + text);
    assert s[..|name|] == name && s[|name|] == '{' && s[|name| + 1..] == text;
  }

  /** Without such a brace the value is an error. */
  lemma UnclosedIsBad(blanks: string, name: string, text: string)
    requires OnlyBlanks(blanks) && NameText(name) && Unclosed(text)
    ensures NextToken(blanks + (name + ("{" + text))) == Bad
  {
    hide NextToken, ScanValue, Unclosed;
    NameAndBrace(blanks, name, text);
    NothingScanned(text);
  }

  /** Blanks alone are the end of the line, and a brace without a name is an error. */
  lemma NoNameIsRead(blanks: string, rest: string)
    requires OnlyBlanks(blanks) && (rest != "" ==> rest[0] in {'{', '}'})
    ensures NextToken(blanks + rest) == if rest == "" then End else Bad
  {
    hide SkipBlanks, ScanValue;
    BlanksAreSkipped(blanks, rest);
  }

  lemma {:induction false} FirstBrace(front: string, rest: string)
    requires '}' !in front
    ensures BracePosition(front + ("}" + rest)) == |front|
  {
    var s := front + ("}" + rest);
    if front != "" {
      assert s[1..] == front[1..] + ("}" + rest);
      FirstBrace(front[1..], rest);
    }
  }

  /** A value starts with some text without a closing brace, which the rest of it follows. */
  lemma {:induction false} EscapedInTwo(v: string) returns (front: string, more: Option<string>)
    ensures '}' !in front && (more.None? ==> v == front && Escaped(v) == front)
    ensures more.Some? ==> v == front + ("}" + more.value) && Escaped(v) == front + ("\\}" + Escaped(more.value))
  {
    if v == "" {
      front, more := "", None;
    } else if v[0] == '}' {
      front, more := "", Some(v[1..]);
    } else {
      front, more := EscapedInTwo(v[1..]);
      front := [v[0]] + front;
      assert v == [v[0]] + v[1..];
    }
  }

  lemma {:induction false} EscapedIsScanned(v: string, rest: string)
    requires v != "" ==> v[|v| - 1] != '\\'
    ensures ScanValue(Escaped(v) + ("}" + rest)) == Some((v, rest))
    decreases |v|
  {
    hide Escaped, BracePosition, ScanValue;
    var front, more := EscapedInTwo(v);
    if more.None? {
      FirstBrace(front, rest);
      ScanStops(front, rest);
    } else {
      EscapedIsScanned(more.value, rest);
      ScanGoesOn(front, more.value, Escaped(more.value) + ("}" + rest), rest);
      assert front + ("\\}" + Escaped(more.value)) + ("}" + rest)
          == front + "\\" + ("}" + (Escaped(more.value) + ("}" + rest)));
    }
  }

  lemma ScanStops(front: string, rest: string)
    requires '}' !in front && (front != "" ==> front[|front| - 1] != '\\')
    ensures ScanValue(front + ("}" + rest)) == Some((front, rest))
  {
    hide BracePosition;
    var s, n := front + ("}" + rest), |front|;
    FirstBrace(front, rest);
    assert s[..n] == front && s[n + 1..] == rest;
  }

  lemma ScanGoesOn(front: string, v: string, behind: string, rest: string)
    requires '}' !in front && ScanValue(behind) == Some((v, rest))
    ensures ScanValue(front + "\\" + ("}" + behind)) == Some((front + ("}" + v), rest))
  {
    hide BracePosition;
    var s, n := front + "\\" + ("}" + behind), |front| + 1;
    FirstBrace(front + "\\", behind);
    assert s[..n - 1] == front && s[n - 1] == '\\' && s[n + 1..] == behind;
    assert front + "}" + v == front + ("}" + v);
  }

  lemma {:induction false} NothingScanned(s: string)
    requires Unclosed(s)
    ensures ScanValue(s).None?
    decreases |s|
  {
    var n := BracePosition(s);
    if n < |s| {
      assert s[n] == '}';
      var more := s[n + 1..];
      assert forall i | 0 <= i < |more| :: more[i] == s[n + 1 + i];
      NothingScanned(more);
    }
  }
}
