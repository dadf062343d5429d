/** Character and string helpers shared by the other modules: miscutil.c's
    `chomp` and `strcmpic`, on strings without NUL characters, and a few
    functions on numbers and sequences. */
module Text {

  datatype Option<+T> = None | Some(value: T)

  const NUL: char := '\0'
  const CR: char := '\r'
  const LF: char := '\n'

  /** `isspace` in the C locale. */
  predicate IsSpace(c: char) {
    c == ' ' || c == '\t' || c == '\n' || c == '\U{0B}' || c == '\U{0C}' || c == '\r'
  }

  /** `tolower` in the C locale. */
  function Lower(c: char): char {
    if 'A' <= c <= 'Z' then c + 'a' - 'A' else c
  }

  /** `strcmpic(s, t) == 0` */
  predicate EqualsIgnoreCase(s: string, t: string)
    ensures EqualsIgnoreCase(s, t) <==> |s| == |t| && forall i | 0 <= i < |s| :: Lower(s[i]) == Lower(t[i])
  {
    if s == [] || t == [] then s == t
    else Lower(s[0]) == Lower(t[0]) && EqualsIgnoreCase(s[1..], t[1..])
  }

  function TrimLeft(s: string): string {
    if s != [] && IsSpace(s[0]) then TrimLeft(s[1..]) else s
  }

  function TrimRight(s: string): string {
    if s != [] && IsSpace(s[|s| - 1]) then TrimRight(s[..|s| - 1]) else s
  }

  /** `chomp`: trailing whitespace goes first, then leading whitespace. */
  function Chomp(s: string): string {
    TrimLeft(TrimRight(s))
  }

  /** No whitespace at either end. */
  predicate Trimmed(s: string) {
    s == [] || (!IsSpace(s[0]) && !IsSpace(s[|s| - 1]))
  }

  lemma {:induction false} TrimLeftIsSuffix(s: string)
    ensures |TrimLeft(s)| <= |s| && TrimLeft(s) == s[|s| - |TrimLeft(s)|..]
    ensures TrimLeft(s) != [] ==> !IsSpace(TrimLeft(s)[0])
    ensures forall i | 0 <= i < |s| - |TrimLeft(s)| :: IsSpace(s[i])
  {
    if s != [] && IsSpace(s[0]) {
      var rest, n := s[1..], |TrimLeft(s)|;
      TrimLeftIsSuffix(rest);
      assert rest[|rest| - n..] == s[|s| - n..];
      assert forall i | 0 < i < |s| - n :: s[i] == rest[i - 1];
    }
  }

  lemma {:induction false} TrimRightIsPrefix(s: string)
    ensures |TrimRight(s)| <= |s| && TrimRight(s) == s[..|TrimRight(s)|]
    ensures TrimRight(s) != [] ==> !IsSpace(TrimRight(s)[|TrimRight(s)| - 1])
    ensures forall i | |TrimRight(s)| <= i < |s| :: IsSpace(s[i])
  {
    if s != [] && IsSpace(s[|s| - 1]) {
      TrimRightIsPrefix(s[..|s| - 1]);
    }
  }

  /** `chomp` cuts off nothing but whitespace. */
  lemma ChompIsSlice(s: string) returns (k: nat, m: nat)
    ensures k <= m <= |s| && Chomp(s) == s[k..m]
    ensures forall i | 0 <= i < |s| && !IsSpace(s[i]) :: k <= i < m
  {
    TrimRightIsPrefix(s);
    TrimLeftIsSuffix(TrimRight(s));
    m := |TrimRight(s)|;
    k := m - |Chomp(s)|;
    assert forall i | 0 <= i < k :: s[i] == TrimRight(s)[i];
  }

  /** `chomp` leaves a string alone exactly when it has no whitespace at its ends. */
  lemma ChompFixpoint(s: string)
    ensures Chomp(s) == s <==> Trimmed(s)
    ensures Trimmed(Chomp(s))
  {
    TrimRightIsPrefix(s);
    TrimLeftIsSuffix(TrimRight(s));
  }

  lemma {:induction false} TrimRightOf(s: string, spaces: string)
    requires s != [] && !IsSpace(s[|s| - 1]) && forall i | 0 <= i < |spaces| :: IsSpace(spaces[i])
    ensures TrimRight(s + spaces) == s
  {
    if spaces == [] {
      assert s + spaces == s;
    } else {
      var n := |spaces| - 1;
      assert (s + spaces)[..|s| + n] == s + spaces[..n];
      TrimRightOf(s, spaces[..n]);
    }
  }

  lemma {:induction false} TrimLeftOf(spaces: string, s: string)
    requires s != [] && !IsSpace(s[0]) && forall i | 0 <= i < |spaces| :: IsSpace(spaces[i])
    ensures TrimLeft(spaces + s) == s
  {
    if spaces == [] {
      assert spaces + s == s;
    } else {
      assert (spaces + s)[1..] == spaces[1..] + s;
      TrimLeftOf(spaces[1..], s);
    }
  }

  // ----- Shared by several modules ----------------------------------------------------

  /** 2^n */
  function Power(n: nat): (p: nat)
    ensures p > 0
  {
    if n == 0 then 1 else 2 * Power(n - 1)
  }

  /** How many characters at the front satisfy a predicate. */
  function RunLength(s: string, p: char -> bool): (n: nat)
    ensures n <= |s| && (forall i | 0 <= i < n :: p(s[i])) && (n < |s| ==> !p(s[n]))
  {
    if s != [] && p(s[0]) then 1 + RunLength(s[1..], p) else 0
  }

  lemma {:induction false} RunLengthOf(front: string, rest: string, p: char -> bool)
    requires (forall i | 0 <= i < |front| :: p(front[i])) && (rest == [] || !p(rest[0]))
    ensures RunLength(front + rest, p) == |front|
  {
    if front == [] {
      assert front + rest == rest;
    } else {
      assert (front + rest)[1..] == front[1..] + rest;
      RunLengthOf(front[1..], rest, p);
    }
  }

  lemma Regroup<T>(x: seq<T>, y: seq<T>, z: seq<T>)
    ensures (x + y) + z == x + (y + z)
  {}
}
