/** Resuming the scan of chunked data when more of it has arrived. */
module ChunkedResume {
  import opened Text
  import opened Chunked

  // ----- Numbers that later bytes do not change --------------------------------------

  /** The digits of the number at the front of a text, after whitespace, sign and prefix. */
  function NumberOf(s: seq<char>): seq<char> {
    Digits(TrimLeft(s))
  }

  /** The number at the front ends before the text does. */
  predicate EndedNumber(s: seq<char>) {
    RunLength(NumberOf(s), IsHexDigit) < |NumberOf(s)|
  }

  /** The value of the number at the front of a text. */
  function NumberValue(s: seq<char>): nat {
    HexValue(NumberOf(s)[..RunLength(NumberOf(s), IsHexDigit)])
  }

  /** Later bytes do not change the size that is read: it ends, or is too large for an `unsigned long`. */
  predicate FixedNumber(s: seq<char>) {
    EndedNumber(s) || NumberValue(s) >= WORD * WORD
  }

  lemma {:induction false} LineEndIsStable(s: seq<char>, more: seq<char>)
    requires LineEnd(s).Some?
    ensures LineEnd(s + more) == LineEnd(s)
  {
    if !(s[0] == CR && s[1] == LF) {
      LineEndIsStable(s[1..], more);
      assert (s + more)[1..] == s[1..] + more;
    }
  }

  lemma {:induction false} TrimLeftIsStable(s: seq<char>, more: seq<char>)
    requires TrimLeft(s) != []
    ensures TrimLeft(s + more) == TrimLeft(s) + more
  {
    if IsSpace(s[0]) {
      assert (s + more)[1..] == s[1..] + more;
      TrimLeftIsStable(s[1..], more);
    }
  }

  /** More text is more digits, unless it turns a lone zero into a prefix. */
  lemma NumberGrows(s: seq<char>, more: seq<char>)
    requires NumberOf(s) != []
    requires |NumberOf(s)| >= 2 || NumberOf(s)[0] != '0' || (more != [] && more[0] !in {'x', 'X'})
    ensures NumberOf(s + more) == NumberOf(s) + more
    ensures TrimLeft(s) != [] && TrimLeft(s + more) == TrimLeft(s) + more
  {
    hide TrimLeft;
    TrimLeftIsStable(s, more);
    var text := TrimLeft(s);
    var signed := text[0] in {'-', '+'};
    var number := if signed then text[1..] else text;
    assert (text + more)[1..] == text[1..] + more;
    UnprefixedGrows(number, more);
  }

  lemma UnprefixedGrows(number: seq<char>, more: seq<char>)
    requires number != []
    requires |number| >= 2 || number[0] != '0' || (more != [] && more[0] !in {'x', 'X'})
    ensures Unprefixed(number + more) == Unprefixed(number) + more
  {
    if |number| >= 2 {
      assert (number + more)[2..] == number[2..] + more;
    }
  }

  lemma EndedNumberStays(s: seq<char>, more: seq<char>)
    requires EndedNumber(s)
    ensures ScanHex(s + more) == ScanHex(s)
  {
    hide TrimLeft, Digits, HexValue, RunLength, Stored;
    var digits := NumberOf(s);
    assert !IsHexDigit(digits[RunLength(digits, IsHexDigit)]);
    NumberGrows(s, more);
    var n := RunLength(digits, IsHexDigit);
    RunLengthOf(digits[..n], digits[n..] + more, IsHexDigit);
    assert digits[..n] + (digits[n..] + more) == digits + more;
    assert (digits + more)[..n] == digits[..n];
  }

  lemma {:induction false} MoreDigitsAreMore(digits: seq<char>, more: seq<char>)
    requires forall i | 0 <= i < |digits| :: IsHexDigit(digits[i])
    requires forall i | 0 <= i < |more| :: IsHexDigit(more[i])
    ensures forall i | 0 <= i < |digits + more| :: IsHexDigit((digits + more)[i])
    ensures HexValue(digits + more) >= HexValue(digits)
  {
    if more == [] {
      assert digits + more == digits;
    } else {
      var n := |more| - 1;
      assert (digits + more)[..|digits| + n] == digits + more[..n];
      MoreDigitsAreMore(digits, more[..n]);
    }
  }

  lemma ScanHexOf(s: seq<char>, digits: seq<char>, rest: seq<char>)
    requires NumberOf(s) == digits + rest && digits != [] && (rest == [] || !IsHexDigit(rest[0]))
    requires forall i | 0 <= i < |digits| :: IsHexDigit(digits[i])
    ensures TrimLeft(s) != [] && ScanHex(s) == Some(Stored(HexValue(digits), TrimLeft(s)[0] == '-'))
  {
    hide RunLength, HexValue, Stored;
    RunLengthOf(digits, rest, IsHexDigit);
    assert (digits + rest)[..|digits|] == digits;
  }

  lemma ShortIsSmall(digits: seq<char>)
    requires |digits| < 2 && forall i | 0 <= i < |digits| :: IsHexDigit(digits[i])
    ensures HexValue(digits) < 16
  {}

  lemma HugeNumberStays(s: seq<char>, more: seq<char>)
    requires !EndedNumber(s) && NumberValue(s) >= WORD * WORD
    ensures ScanHex(s + more) == ScanHex(s)
  {
    hide TrimLeft, Digits, HexValue, RunLength, ScanHex;
    var digits, n := NumberOf(s), RunLength(more, IsHexDigit);
    assert digits[..|digits|] == digits == digits + [];
    if |digits| < 2 {
      ShortIsSmall(digits);
    }
    NumberGrows(s, more);
    MoreDigitsAreMore(digits, more[..n]);
    assert digits + more == digits + more[..n] + more[n..];
    ScanHexOf(s, digits, []);
    ScanHexOf(s + more, digits + more[..n], more[n..]);
  }

  /** More text does not change the size that is read from such a number. */
  lemma ScanHexIsStable(s: seq<char>, more: seq<char>)
    requires FixedNumber(s)
    ensures ScanHex(s + more) == ScanHex(s)
  {
    hide ScanHex, EndedNumber, NumberValue;
    if EndedNumber(s) {
      EndedNumberStays(s, more);
    } else {
      HugeNumberStays(s, more);
    }
  }

  /** Bytes that arrive later do not change a step of the scan. */
  lemma StepIsStable(b: seq<char>, more: seq<char>, offset: nat)
    requires BytesToNextChunk(b, offset) >= 0 && FixedNumber(b[offset..])
    ensures BytesToNextChunk(b + more, offset) == BytesToNextChunk(b, offset)
  {
    hide LineEnd, ScanHex, FixedNumber;
    var rest := b[offset..];
    LineEndIsStable(rest, more);
    ScanHexIsStable(rest, more);
    assert (b + more)[offset..] == rest + more;
  }

  // ----- Numbers that run to the end of the buffer --------------------------------------

  lemma OpenTextHasNoCr(s: seq<char>)
    requires !EndedNumber(s)
    ensures CR !in TrimLeft(s)
  {
    hide TrimLeft;
    var text := TrimLeft(s);
    var digits := NumberOf(s);
    assert forall i | 0 <= i < |digits| :: IsHexDigit(digits[i]);
    if text != [] {
      var signed := text[0] in {'-', '+'};
      var number := if signed then text[1..] else text;
      UnprefixedHasNoCr(number);
      assert text == if signed then [text[0]] + number else number;
    }
  }

  lemma UnprefixedHasNoCr(number: seq<char>)
    requires forall i | 0 <= i < |Unprefixed(number)| :: IsHexDigit(Unprefixed(number)[i])
    ensures CR !in number
  {
    var rest := Unprefixed(number);
    forall i | 0 <= i < |number|
      ensures number[i] != CR
    {
      var k := i - (|number| - |rest|);
      if k >= 0 {
        assert IsHexDigit(rest[k]) && rest[k] == number[i];
      }
    }
  }

  lemma {:induction false} TrimLeftOfRest(s: seq<char>, k: nat)
    requires k + |TrimLeft(s)| <= |s|
    ensures TrimLeft(s[k..]) == TrimLeft(s)
  {
    if k > 0 {
      TrimLeftIsSuffix(s);
      TrimLeftOfRest(s[1..], k - 1);
      assert s[1..][k - 1..] == s[k..];
    }
  }

  lemma LineHasCr(s: seq<char>, start: nat, k: nat)
    requires start <= |s| && k <= |s|
    ensures start <= k && LineEnd(s[k..]).Some? ==> CR in s[start..]
  {
    hide LineEnd;
    if start <= k && LineEnd(s[k..]).Some? {
      assert s[start..][k + LineEnd(s[k..]).value - start] == CR;
    }
  }

  /** Behind such a number no line ends: a line that ends starts before it, and reads the same number. */
  lemma OpenRest(s: seq<char>, k: nat)
    requires !EndedNumber(s) && k <= |s| && LineEnd(s[k..]).Some?
    ensures TrimLeft(s[k..]) == TrimLeft(s)
  {
    hide TrimLeft, LineEnd, EndedNumber;
    OpenTextHasNoCr(s);
    TrimLeftIsSuffix(s);
    LineHasCr(s, |s| - |TrimLeft(s)|, k);
    TrimLeftOfRest(s, k);
  }

  /** The scan from a number that is not zero and runs to the end of the buffer does not report completeness. */
  lemma {:induction false} OpenNeverCompletes(b: seq<char>, offset: nat, lastValid: int)
    requires |b| < INT_LIMIT && lastValid != 0 && offset <= |b|
    requires !EndedNumber(b[offset..]) && ScanHex(b[offset..]) != Some(0)
    ensures ScanFrom(b, offset, lastValid) != 0
    decreases |b| - offset
  {
    hide LineEnd, EndedNumber, TrimLeft, BytesToNextChunk, ToInt;
    StepIsSmall(b, offset);
    var skip := BytesToNextChunk(b, offset);
    if skip >= 0 {
      SizeOfStep(b, offset);
      NotZeroInt(offset + skip);
      if offset + skip < |b| {
        var rest, last := b[offset..], if offset != 0 then offset else lastValid;
        assert rest[skip..] == b[offset + skip..];
        if LineEnd(rest[skip..]).Some? {
          OpenRest(rest, skip);
          SameText(rest, rest[skip..]);
          OpenNeverCompletes(b, offset + skip, last);
        } else {
          NoLineNoStep(b, offset + skip);
        }
      }
    }
  }

  lemma SizeOfStep(b: seq<char>, offset: nat)
    requires BytesToNextChunk(b, offset) >= 0
    ensures offset < |b| && ScanHex(b[offset..]).Some?
    ensures BytesToNextChunk(b, offset) == 0 <==> ScanHex(b[offset..]) == Some(0)
  {
    hide LineEnd, ScanHex;
  }

  lemma SameText(s: seq<char>, t: seq<char>)
    requires TrimLeft(s) == TrimLeft(t)
    ensures ScanHex(s) == ScanHex(t) && EndedNumber(s) == EndedNumber(t) && FixedOrBelowWord(s) == FixedOrBelowWord(t)
  {
    hide TrimLeft, Digits, HexValue, RunLength, Stored;
  }

  lemma NoLineNoStep(b: seq<char>, offset: nat)
    requires offset < |b| && LineEnd(b[offset..]).None?
    ensures BytesToNextChunk(b, offset) == -1
  {
    hide LineEnd, ScanHex;
  }

  lemma NotZeroInt(n: nat)
    requires 0 < n < WORD
    ensures ToInt(n) != 0 && (ToInt(n) > 0 ==> ToInt(n) == n)
  {}

  // ----- Completeness --------------------------------------------------------------------

  /** The scan from an offset reports completeness. */
  predicate Complete(b: seq<char>, offset: nat) {
    BytesMissing(b, offset) == 0
  }

  /** Whether the scan reports completeness does not depend on the valid offsets it has seen. */
  lemma {:induction false} LastValidIsIrrelevant(b: seq<char>, offset: nat, x: int, y: int)
    requires x != 0 && y != 0
    ensures ScanFrom(b, offset, x) == 0 <==> ScanFrom(b, offset, y) == 0
    decreases |b| - offset
  {
    hide BytesToNextChunk;
    var skip := BytesToNextChunk(b, offset);
    if skip > 0 && offset + skip < |b| {
      LastValidIsIrrelevant(b, offset + skip, if offset != 0 then offset else x, if offset != 0 then offset else y);
    }
  }

  /** A step of the scan does not change whether it ends well. */
  lemma CompleteAfterStep(b: seq<char>, offset: nat)
    requires |b| < INT_LIMIT && BytesToNextChunk(b, offset) > 0
    ensures Complete(b, offset) <==> Complete(b, offset + BytesToNextChunk(b, offset))
  {
    hide BytesToNextChunk;
    StepIsSmall(b, offset);
    var next := offset + BytesToNextChunk(b, offset);
    if next < |b| {
      LastValidIsIrrelevant(b, next, -1, if offset != 0 then offset else -1);
    } else {
      PastTheEnd(b, next);
    }
  }

  lemma PastTheEnd(b: seq<char>, offset: nat)
    requires |b| <= offset
    ensures !Complete(b, offset)
  {}

  lemma CompleteHasStep(b: seq<char>, offset: nat)
    requires Complete(b, offset)
    ensures BytesToNextChunk(b, offset) >= 0
  {
    hide BytesToNextChunk;
  }

  /** A complete buffer has passed only numbers that have ended. */
  lemma PassedIsEnded(b: seq<char>, offset: nat)
    requires |b| < INT_LIMIT && Complete(b, offset) && BytesToNextChunk(b, offset) > 0
    ensures EndedNumber(b[offset..])
  {
    hide EndedNumber, BytesToNextChunk, ScanHex;
    SizeOfStep(b, offset);
    if !EndedNumber(b[offset..]) {
      OpenNeverCompletes(b, offset, -1);
    }
  }

  /** The number of the last size line ends before the buffer does. */
  ghost predicate LastNumberEnds(b: seq<char>, offset: nat)
    decreases |b| - offset
  {
    var skip := BytesToNextChunk(b, offset);
    if skip > 0 then LastNumberEnds(b, offset + skip)
    else offset <= |b| ==> EndedNumber(b[offset..])
  }

  lemma LastStepCompletes(b: seq<char>, offset: nat)
    requires BytesToNextChunk(b, offset) == 0
    ensures Complete(b, offset) && offset < |b|
  {
    hide LineEnd, ScanHex;
  }

  lemma {:induction false} EndedStaysComplete(b: seq<char>, more: seq<char>, offset: nat)
    requires |b + more| < INT_LIMIT && Complete(b, offset) && LastNumberEnds(b, offset)
    ensures Complete(b + more, offset)
    decreases |b| - offset
  {
    hide BytesToNextChunk, EndedNumber, Complete;
    CompleteHasStep(b, offset);
    SizeOfStep(b, offset);
    if BytesToNextChunk(b, offset) > 0 {
      PassedIsEnded(b, offset);
      StepIsStable(b, more, offset);
      CompleteAfterStep(b, offset);
      EndedStaysComplete(b, more, offset + BytesToNextChunk(b, offset));
      CompleteAfterStep(b + more, offset);
    } else {
      StepIsStable(b, more, offset);
      LastStepCompletes(b + more, offset);
    }
  }

  /** One more digit behind a zero that runs to the end of the buffer. */
  lemma OpenZeroGrows(s: seq<char>)
    requires !EndedNumber(s) && ScanHex(s) == Some(0)
    ensures !EndedNumber(s + ['1']) && ScanHex(s + ['1']) != Some(0)
  {
    hide TrimLeft, Digits;
    var digits := NumberOf(s);
    assert digits[..|digits|] == digits;
    NumberGrows(s, ['1']);
    assert forall i | 0 <= i < |digits| + 1 :: IsHexDigit((digits + ['1'])[i]);
    RunLengthOf(digits + ['1'], [], IsHexDigit);
    assert digits + ['1'] + [] == digits + ['1'];
    assert (digits + ['1'])[..|digits|] == digits;
    assert (digits + ['1'])[..|digits| + 1] == digits + ['1'];
    OddIsStored(HexValue(digits), TrimLeft(s)[0] == '-');
  }

  lemma OddIsStored(value: nat, negative: bool)
    ensures Stored(16 * value + 1, negative) != 0
  {}

  lemma {:induction false} OpenLastNumber(b: seq<char>, offset: nat)
    requires |b| + 1 < INT_LIMIT && Complete(b, offset) && !LastNumberEnds(b, offset)
    ensures !Complete(b + ['1'], offset)
    decreases |b| - offset
  {
    hide BytesToNextChunk, EndedNumber, Complete, ScanHex, LineEnd;
    CompleteHasStep(b, offset);
    SizeOfStep(b, offset);
    var more := ['1'];
    if BytesToNextChunk(b, offset) > 0 {
      PassedIsEnded(b, offset);
      StepIsStable(b, more, offset);
      CompleteAfterStep(b, offset);
      OpenLastNumber(b, offset + BytesToNextChunk(b, offset));
      CompleteAfterStep(b + more, offset);
    } else {
      OpenZeroGrows(b[offset..]);
      assert (b + more)[offset..] == b[offset..] + more;
      OpenIsNotComplete(b + more, offset);
    }
  }

  lemma OpenIsNotComplete(b: seq<char>, offset: nat)
    requires |b| < INT_LIMIT && offset <= |b| && !EndedNumber(b[offset..]) && ScanHex(b[offset..]) != Some(0)
    ensures !Complete(b, offset)
  {
    hide EndedNumber, ScanHex;
    OpenNeverCompletes(b, offset, -1);
  }

  /** A complete buffer stays complete whatever is appended, exactly if the number of its last size line has ended. */
  lemma CompleteStays(b: seq<char>, offset: nat)
    requires |b| + 1 < INT_LIMIT && Complete(b, offset)
    ensures (forall more | |b + more| < INT_LIMIT :: Complete(b + more, offset)) <==> LastNumberEnds(b, offset)
  {
    hide Complete, LastNumberEnds;
    if LastNumberEnds(b, offset) {
      forall more | |b + more| < INT_LIMIT
        ensures Complete(b + more, offset)
      {
        EndedStaysComplete(b, more, offset);
      }
    } else {
      OpenLastNumber(b, offset);
      assert |b + ['1']| < INT_LIMIT;
    }
  }

  // ----- Resuming ------------------------------------------------------------------------

  /** The scan passes from one offset to another. */
  ghost predicate PassesTo(b: seq<char>, offset: nat, end: nat)
    decreases |b| - offset
  {
    var skip := BytesToNextChunk(b, offset);
    offset == end || (offset < end && skip > 0 && PassesTo(b, offset + skip, end))
  }

  /** Every size line the scan passes before an offset has a property. */
  ghost predicate PassedBefore(b: seq<char>, offset: nat, end: nat, p: seq<char> -> bool)
    decreases |b| - offset
  {
    var skip := BytesToNextChunk(b, offset);
    offset < end && skip > 0 ==> p(b[offset..]) && PassedBefore(b, offset + skip, end, p)
  }

  /** A positive answer of the scan is an offset it has passed to: the end, or a line it has passed. */
  lemma {:induction false} ScanReaches(b: seq<char>, offset: nat, lastValid: int)
    requires |b| < INT_LIMIT && ScanFrom(b, offset, lastValid) > 0
    ensures var r := ScanFrom(b, offset, lastValid);
            r == lastValid || (PassesTo(b, offset, r) && (r >= |b| || BytesToNextChunk(b, r) > 0))
    decreases |b| - offset
  {
    hide BytesToNextChunk, ToInt;
    StepIsSmall(b, offset);
    var skip, r := BytesToNextChunk(b, offset), ScanFrom(b, offset, lastValid);
    if skip > 0 {
      NotZeroInt(offset + skip);
      if offset + skip < |b| {
        ScanReaches(b, offset + skip, if offset != 0 then offset else lastValid);
      }
      if PassesTo(b, offset + skip, r) {
        PassesForward(b, offset + skip, r);
      }
    }
  }

  lemma PassesForward(b: seq<char>, offset: nat, end: nat)
    requires PassesTo(b, offset, end)
    ensures offset <= end
  {}

  /** Where no number passed can change, it makes no difference where the scan is taken up. */
  lemma {:induction false} FixedNumbersResume(b: seq<char>, more: seq<char>, offset: nat, end: nat)
    requires |b + more| < INT_LIMIT && PassesTo(b, offset, end) && PassedBefore(b, offset, end, FixedNumber)
    ensures Complete(b + more, end) <==> Complete(b + more, offset)
    decreases |b| - offset
  {
    hide BytesToNextChunk, FixedNumber, Complete;
    if offset != end {
      StepIsStable(b, more, offset);
      CompleteAfterStep(b + more, offset);
      FixedNumbersResume(b, more, offset + BytesToNextChunk(b, offset), end);
    }
  }

  // A number that has not ended can be given any value by eight more digits, which leads the scan
  // past the offset that it has returned.

  function HexDigit(n: nat): (c: char)
    requires n < 16
    ensures IsHexDigit(c) && DigitValue(c) == n
  {
    if n < 10 then '0' + n as char else 'A' + (n - 10) as char
  }

  /** The last n hexadecimal digits of a number. */
  function HexDigits(value: nat, n: nat): (digits: seq<char>)
    ensures |digits| == n && forall i | 0 <= i < n :: IsHexDigit(digits[i])
  {
    if n == 0 then [] else HexDigits(value / 16, n - 1) + [HexDigit(value % 16)]
  }

  /** A number followed by n zeros. */
  function Shifted(value: nat, n: nat): nat {
    if n == 0 then value else 16 * Shifted(value, n - 1)
  }

  lemma {:induction false} DigitsAppended(digits: seq<char>, value: nat, n: nat)
    requires value < Shifted(1, n) && forall i | 0 <= i < |digits| :: IsHexDigit(digits[i])
    ensures forall i | 0 <= i < |digits| + n :: IsHexDigit((digits + HexDigits(value, n))[i])
    ensures HexValue(digits + HexDigits(value, n)) == Shifted(HexValue(digits), n) + value
  {
    if n == 0 {
      assert digits + HexDigits(value, n) == digits;
    } else {
      DigitsAppended(digits, value / 16, n - 1);
      var all := digits + HexDigits(value, n);
      assert all[..|all| - 1] == digits + HexDigits(value / 16, n - 1);
    }
  }

  lemma EightZeros(value: nat)
    ensures Shifted(value, 7) == 0x1000_0000 * value && Shifted(value, 8) == WORD * value
  {
    assert Shifted(value, 1) == 0x10 * value;
    assert Shifted(value, 2) == 0x100 * value;
    assert Shifted(value, 4) == 0x1_0000 * value;
    assert Shifted(value, 6) == 0x100_0000 * value;
  }

  lemma {:induction false} HexValueIsBelow(digits: seq<char>, n: nat)
    requires |digits| <= n && forall i | 0 <= i < |digits| :: IsHexDigit(digits[i])
    ensures HexValue(digits) < Shifted(1, n)
  {
    if digits != [] {
      HexValueIsBelow(digits[..|digits| - 1], n - 1);
    } else if n > 0 {
      HexValueIsBelow(digits, n - 1);
    }
  }

  /** A number that later bytes can change is below 2^32. */
  predicate FixedOrBelowWord(s: seq<char>) {
    FixedNumber(s) || NumberValue(s) < WORD
  }

  /** The eight digits that turn a number, with its sign, into a size. */
  function DigitsFor(s: seq<char>, size: nat): (digits: seq<char>)
    requires 0 < size < WORD
    ensures |digits| == 8 && forall i | 0 <= i < 8 :: IsHexDigit(digits[i])
  {
    HexDigits(AddendFor(s, size), 8)
  }

  function AddendFor(s: seq<char>, size: nat): nat
    requires 0 < size < WORD
  {
    if TrimLeft(s) != [] && TrimLeft(s)[0] == '-' then WORD - size else size
  }

  lemma StoredIs(value: nat, s: seq<char>, size: nat)
    requires value < WORD && 0 < size < WORD && TrimLeft(s) != []
    ensures Stored(WORD * value + AddendFor(s, size), TrimLeft(s)[0] == '-') == size
  {
    hide TrimLeft;
    if TrimLeft(s)[0] == '-' {
      var high: int := -1 - value;
      LowWord(high, size);
      assert WORD * high + size == -1 * (WORD * value + (WORD - size));
    } else {
      LowWord(value, size);
    }
  }

  lemma LowWord(high: int, low: nat)
    requires low < WORD
    ensures (WORD * high + low) % WORD == low
  {}

  lemma AddendIsSize(s: seq<char>, size: nat)
    requires 0 < size < INT_LIMIT && size % 16 != 0
    ensures var value := AddendFor(s, size);
            0 < value < WORD && value % 16 != 0 && (ToInt(value) == size || ToInt(value) + size == 0)
  {
    hide TrimLeft;
  }

  /** More digits give a number that has not ended any size. */
  lemma OpenNumberGrows(s: seq<char>, size: nat, rest: seq<char>)
    requires !FixedNumber(s) && NumberOf(s) != [] && FixedOrBelowWord(s) && 0 < size < WORD
    requires rest != [] && !IsHexDigit(rest[0])
    ensures ScanHex(s + (DigitsFor(s, size) + rest)) == Some(size)
  {
    hide TrimLeft, Digits, RunLength, HexValue, ScanHex, Stored, HexDigits, Shifted, NumberOf;
    var digits, more := NumberOf(s), DigitsFor(s, size);
    assert digits[..|digits|] == digits;
    NumberGrows(s, more + rest);
    EightZeros(HexValue(digits));
    EightZeros(1);
    DigitsAppended(digits, AddendFor(s, size), 8);
    StoredIs(HexValue(digits), s, size);
    Regroup(digits, more, rest);
    ScanHexOf(s + (more + rest), digits + more, rest);
  }

  /** One step of the scan, given what the library calls find. */
  lemma StepFound(b: seq<char>, offset: nat, rest: seq<char>, length: nat, size: nat)
    requires 5 <= |b| < INT_LIMIT && offset < |b| && rest == b[offset..]
    requires LineEnd(rest) == Some(length) && ScanHex(rest) == Some(size) && length + size + 4 < INT_LIMIT
    ensures BytesToNextChunk(b, offset)
         == if size != 0 then length + size + 4 else if offset + length + 4 <= |b| then 0 else -1
  {
    hide LineEnd, ScanHex;
  }

  /** The last size line and what follows it. */
  const LAST: seq<char> := ['0', CR, LF, CR, LF]

  lemma LastIsComplete(b: seq<char>, at: nat)
    requires |b| < INT_LIMIT && at <= |b| && b[at..] == LAST
    ensures Complete(b, at)
  {
    hide LineEnd, ScanHex;
    assert LAST == ['0'] + [CR, LF] + [CR, LF] == ['0'] + [CR, LF, CR, LF];
    LineEndOf(['0'], [CR, LF]);
    ZeroSize();
    StepFound(b, at, LAST, 1, 0);
  }

  lemma NothingBehindLast(b: seq<char>, at: nat, x: nat)
    requires |b| < INT_LIMIT && at <= |b| && b[at..] == LAST && at < x
    ensures !Complete(b, x)
  {
    hide LineEnd, TrimLeft;
    if x < |b| {
      var rest := b[x..];
      assert rest == LAST[x - at..];
      TrimLeftIsSuffix(rest);
      assert forall i | 0 <= i < |rest| :: IsSpace(rest[i]);
    }
  }

  lemma NoSizeIsIncomplete(b: seq<char>, x: nat)
    requires x < |b| && !IsSpace(b[x]) && b[x] !in {'-', '+'} && !IsHexDigit(b[x])
    ensures !Complete(b, x)
  {
    hide LineEnd, RunLength;
    assert TrimLeft(b[x..]) == b[x..];
    assert Digits(b[x..]) == b[x..];
  }

  /** A step over a number that is not zero. */
  lemma StepOver(b: seq<char>, x: nat, length: nat, size: nat)
    requires |b| < INT_LIMIT && x < |b| && 0 < size < WORD
    requires LineEnd(b[x..]) == Some(length) && ScanHex(b[x..]) == Some(size)
    ensures BytesToNextChunk(b, x) == -1 || BytesToNextChunk(b, x) == length + ToInt(size) + 4 > 0
  {
    hide LineEnd, ScanHex;
  }

  lemma IncompleteFrom(b: seq<char>, x: nat, length: nat, size: nat)
    requires |b| < INT_LIMIT && x < |b| && 0 < size < WORD
    requires LineEnd(b[x..]) == Some(length) && ScanHex(b[x..]) == Some(size)
    requires var next := x + length + ToInt(size) + 4; next > x ==> !Complete(b, next)
    ensures !Complete(b, x)
  {
    hide LineEnd, ScanHex, ToInt, BytesToNextChunk;
    StepOver(b, x, length, size);
    if BytesToNextChunk(b, x) > 0 {
      CompleteAfterStep(b, x);
    } else if Complete(b, x) {
      CompleteHasStep(b, x);
    }
  }

  lemma {:induction false} LineEndsInOrder(s: seq<char>, k: nat)
    requires k <= |s| && LineEnd(s).Some? && LineEnd(s[k..]).Some?
    ensures LineEnd(s).value <= k + LineEnd(s[k..]).value
  {
    if k > 0 && LineEnd(s).value > 0 {
      assert s[1..][k - 1..] == s[k..];
      LineEndsInOrder(s[1..], k - 1);
    }
  }

  /** A line further on that is passed ends at another line end. */
  lemma PassedLinesDiffer(b: seq<char>, x: nat, y: nat)
    requires |b| < INT_LIMIT && BytesToNextChunk(b, x) > 0 && BytesToNextChunk(b, y) > 0
    requires x + BytesToNextChunk(b, x) <= y && ScanHex(b[x..]) == ScanHex(b[y..])
    requires LineEnd(b[x..]).Some? && LineEnd(b[y..]).Some?
    ensures x + LineEnd(b[x..]).value < y + LineEnd(b[y..]).value
  {
    hide LineEnd, ScanHex, BytesToNextChunk;
    assert b[x..][y - x..] == b[y..];
    LineEndsInOrder(b[x..], y - x);
    SizeOfStep(b, x);
    SizeOfStep(b, y);
    StepOver(b, x, LineEnd(b[x..]).value, ScanHex(b[x..]).value);
    StepOver(b, y, LineEnd(b[y..]).value, ScanHex(b[y..]).value);
  }

  /** More digits of a number, other characters, and a last chunk. */
  function Detour(digits: seq<char>, n: nat): seq<char> {
    digits + seq(n, i => 'z') + LAST
  }

  /** Behind the offset where the last chunk starts, or among the characters before it. */
  lemma OutsideDigits(b: seq<char>, digits: seq<char>, n: nat, x: nat)
    requires |b + Detour(digits, n)| < INT_LIMIT && x != |b| + |digits| + n && x >= |b| + |digits|
    ensures !Complete(b + Detour(digits, n), x)
  {
    hide Complete;
    var all, at := b + Detour(digits, n), |b| + |digits| + n;
    if x < at {
      assert all[x] == 'z';
      NoSizeIsIncomplete(all, x);
    } else {
      assert all[at..] == LAST;
      NothingBehindLast(all, at, x);
    }
  }

  /** The line from an offset among the digits. */
  lemma LineFromDigits(b: seq<char>, digits: seq<char>, n: nat, k: nat)
    requires n > 0 && k < |digits| <= 8 && forall i | 0 <= i < |digits| :: IsHexDigit(digits[i])
    ensures var rest := (b + Detour(digits, n))[|b| + k..];
            LineEnd(rest) == Some(|digits| - k + n + 1) && ScanHex(rest) == Some(HexValue(digits[k..]))
  {
    hide LineEnd, ScanHex, HexValue;
    var rest, filler := (b + Detour(digits, n))[|b| + k..], seq(n, i => 'z');
    var text := digits[k..] + filler + ['0'];
    assert rest == text + [CR, LF] + [CR, LF];
    assert forall i | 0 <= i < |text| :: text[i] != CR && text[i] != NUL;
    LineEndOf(text, [CR, LF]);
    assert rest == digits[k..] + (filler + LAST);
    HexValueIsBelow(digits[k..], 8);
    EightZeros(1);
    SizeOf(digits[k..], filler + LAST);
  }

  /** From an offset among fewer than eight digits that do not end in zero, the scan walks past the end. */
  lemma FewDigits(b: seq<char>, digits: seq<char>, n: nat, k: nat)
    requires |b + Detour(digits, n)| < INT_LIMIT
    requires n > 0 && k < |digits| <= k + 7 && |digits| <= 8 && forall i | 0 <= i < |digits| :: IsHexDigit(digits[i])
    requires digits[|digits| - 1] != '0'
    ensures !Complete(b + Detour(digits, n), |b| + k)
  {
    hide LineEnd, ScanHex, Complete;
    LineFromDigits(b, digits, n, k);
    HexValueIsBelow(digits[k..], 7);
    EightZeros(1);
    var all, size := b + Detour(digits, n), HexValue(digits[k..]);
    OutsideDigits(b, digits, n, |b| + k + (|digits| - k + n + 1) + size + 4);
    IncompleteFrom(all, |b| + k, |digits| - k + n + 1, size);
  }

  lemma ValueOfDigits(value: nat)
    requires value < WORD
    ensures HexValue(HexDigits(value, 8)) == value
    ensures value % 16 != 0 ==> HexDigits(value, 8)[7] != '0'
  {
    EightZeros(0);
    EightZeros(1);
    DigitsAppended([], value, 8);
    assert [] + HexDigits(value, 8) == HexDigits(value, 8);
  }

  lemma AmongDigits(b: seq<char>, s: seq<char>, size: nat, n: nat, k: nat)
    requires k < 8 && 0 < n && n + 6 <= size < INT_LIMIT && size % 16 != 0
    requires |b + Detour(DigitsFor(s, size), n)| < INT_LIMIT
    ensures !Complete(b + Detour(DigitsFor(s, size), n), |b| + k)
  {
    hide LineEnd, ScanHex, Complete, TrimLeft, HexDigits, HexValue, Detour, ToInt, AddendFor;
    var digits, value := DigitsFor(s, size), AddendFor(s, size);
    AddendIsSize(s, size);
    ValueOfDigits(value);
    if k > 0 {
      FewDigits(b, digits, n, k);
    } else {
      LineFromDigits(b, digits, n, 0);
      assert digits[0..] == digits;
      var next := |b| + (8 + n + 1) + ToInt(value) + 4;
      if next >= |b| + 8 {
        OutsideDigits(b, digits, n, next);
      } else if next > |b| {
        FewDigits(b, digits, n, next - |b|);
      }
      IncompleteFrom(b + Detour(digits, n), |b|, 8 + n + 1, value);
    }
  }

  lemma SizeHasDigits(s: seq<char>)
    requires ScanHex(s).Some?
    ensures NumberOf(s) != []
  {
    hide TrimLeft, Digits;
  }

  lemma LineGrows(b: seq<char>, x: nat, s: seq<char>, size: nat, n: nat)
    requires x <= |b| && !FixedNumber(b[x..]) && FixedOrBelowWord(b[x..]) && 0 < size < WORD && n > 0
    requires LineEnd(b[x..]).Some? && ScanHex(b[x..]).Some? && TrimLeft(s) == TrimLeft(b[x..])
    ensures var rest := (b + Detour(DigitsFor(s, size), n))[x..];
            LineEnd(rest) == LineEnd(b[x..]) && ScanHex(rest) == Some(size)
  {
    hide LineEnd, ScanHex, TrimLeft, HexDigits, EndedNumber, FixedOrBelowWord, NumberOf;
    var digits, filler := DigitsFor(s, size), seq(n, i => 'z');
    assert (b + Detour(digits, n))[x..] == b[x..] + Detour(digits, n);
    assert Detour(digits, n) == digits + (filler + LAST);
    LineEndIsStable(b[x..], Detour(digits, n));
    SizeHasDigits(b[x..]);
    OpenNumberGrows(b[x..], size, filler + LAST);
  }

  /** A later line with the same number is led past the last chunk. */
  lemma LaterLineMisses(b: seq<char>, x: nat, y: nat, size: nat, n: nat)
    requires |b| + 16 < INT_LIMIT && BytesToNextChunk(b, x) > 0 && !FixedNumber(b[x..]) && FixedOrBelowWord(b[x..])
    requires LineEnd(b[x..]).Some? && x + LineEnd(b[x..]).value + size + 4 == |b| + 8 + n
    requires 0 < n <= 3 && 0 < size < INT_LIMIT
    requires BytesToNextChunk(b, y) > 0 && x + BytesToNextChunk(b, x) <= y
    ensures !Complete(b + Detour(DigitsFor(b[x..], size), n), y)
  {
    hide LineEnd, ScanHex, TrimLeft, EndedNumber, FixedOrBelowWord, Complete, BytesToNextChunk, HexDigits, AddendFor;
    SizeOfStep(b, y);
    StepIsSmall(b, y);
    var s := b[x..];
    assert s[y - x..] == b[y..];
    OpenRest(s, y - x);
    SameText(s, b[y..]);
    PassedLinesDiffer(b, x, y);
    LineGrows(b, y, s, size, n);
    OutsideDigits(b, DigitsFor(s, size), n, y + LineEnd(b[y..]).value + size + 4);
    IncompleteFrom(b + Detour(DigitsFor(s, size), n), y, LineEnd(b[y..]).value, size);
  }

  /** From a line with a number that has not ended, a scan can be led to a last chunk that it does not meet
      from an offset further on. */
  lemma OpenNumberMisleads(b: seq<char>, x: nat, end: nat) returns (more: seq<char>)
    requires |b| + 16 < INT_LIMIT && BytesToNextChunk(b, x) > 0 && !FixedNumber(b[x..]) && FixedOrBelowWord(b[x..])
    requires x + BytesToNextChunk(b, x) <= end && (end >= |b| || BytesToNextChunk(b, end) > 0)
    ensures |b + more| < INT_LIMIT && Complete(b + more, x) && !Complete(b + more, end)
  {
    hide LineEnd, ScanHex, TrimLeft, EndedNumber, FixedOrBelowWord, Complete, BytesToNextChunk, DigitsFor, ToInt;
    SizeOfStep(b, x);
    StepIsSmall(b, x);
    var s, length := b[x..], LineEnd(b[x..]).value;
    var n := if |b| + 9 != end && (|b| + 5 - x - length) % 16 != 0 then 1
             else if |b| + 10 != end && (|b| + 6 - x - length) % 16 != 0 then 2 else 3;
    var at := |b| + 8 + n;
    var size := at - x - length - 4;
    more := Detour(DigitsFor(s, size), n);
    LineGrows(b, x, s, size, n);
    StepFound(b + more, x, (b + more)[x..], length, size);
    LastIsComplete(b + more, at);
    CompleteAfterStep(b + more, x);
    if end >= |b| + 8 {
      OutsideDigits(b, DigitsFor(s, size), n, end);
    } else if end >= |b| {
      AmongDigits(b, s, size, n, end - |b|);
    } else {
      LaterLineMisses(b, x, end, size, n);
    }
  }

  lemma {:induction false} OpenNumberBefore(b: seq<char>, offset: nat, end: nat) returns (more: seq<char>)
    requires |b| + 16 < INT_LIMIT && PassesTo(b, offset, end) && PassedBefore(b, offset, end, FixedOrBelowWord)
    requires !PassedBefore(b, offset, end, FixedNumber) && (end >= |b| || BytesToNextChunk(b, end) > 0)
    ensures |b + more| < INT_LIMIT && Complete(b + more, offset) && !Complete(b + more, end)
    decreases |b| - offset
  {
    hide BytesToNextChunk, FixedNumber, FixedOrBelowWord, Complete;
    var next := offset + BytesToNextChunk(b, offset);
    if FixedNumber(b[offset..]) {
      more := OpenNumberBefore(b, next, end);
      StepIsStable(b, more, offset);
      CompleteAfterStep(b + more, offset);
    } else {
      PassesForward(b, next, end);
      more := OpenNumberMisleads(b, offset, end);
    }
  }

  /** Whatever is appended, the scan gives the same verdict from two offsets. */
  ghost predicate SameVerdicts(b: seq<char>, offset: nat, end: nat) {
    forall more | |b + more| < INT_LIMIT :: Complete(b + more, end) <==> Complete(b + more, offset)
  }

  /** Resuming at the offset that the scan has returned is sound exactly if later bytes can change no number
      that was passed before it. Where such a number has 2^32 or more, the condition is sufficient. */
  lemma ResumeIsSound(b: seq<char>, offset: nat)
    requires |b| < INT_LIMIT && BytesMissing(b, offset) > 0
    ensures var end := BytesMissing(b, offset);
            && (PassedBefore(b, offset, end, FixedNumber) ==> SameVerdicts(b, offset, end))
            && (|b| + 16 < INT_LIMIT && PassedBefore(b, offset, end, FixedOrBelowWord) ==>
                 (SameVerdicts(b, offset, end) <==> PassedBefore(b, offset, end, FixedNumber)))
  {
    hide PassedBefore, PassesTo, Complete, ScanFrom, BytesToNextChunk;
    var end := BytesMissing(b, offset);
    ScanReaches(b, offset, -1);
    if PassedBefore(b, offset, end, FixedNumber) {
      forall more | |b + more| < INT_LIMIT
        ensures Complete(b + more, end) <==> Complete(b + more, offset)
      {
        FixedNumbersResume(b, more, offset, end);
      }
    } else if |b| + 16 < INT_LIMIT && PassedBefore(b, offset, end, FixedOrBelowWord) {
      var more := OpenNumberBefore(b, offset, end);
    }
  }

  /** What the scan answers: 0 at a last chunk; the end of the last chunk if that is further on; or, where
      it cannot go on, the line passed last, if that is not at the start of the buffer. */
  lemma {:induction false} Answer(b: seq<char>, offset: nat, x: nat, lastValid: int)
    requires |b| < INT_LIMIT && PassesTo(b, offset, x)
    ensures var skip := BytesToNextChunk(b, x);
            && (skip == 0 ==> ScanFrom(b, offset, lastValid) == 0)
            && (|b| <= x && offset < x ==> ScanFrom(b, offset, lastValid) == ToInt(x))
            && (0 < x < |b| && 0 < skip && x + skip < |b| && BytesToNextChunk(b, x + skip) == -1 ==>
                 ScanFrom(b, offset, lastValid) == x)
    decreases |b| - offset
  {
    hide BytesToNextChunk, ToInt;
    StepIsSmall(b, offset);
    if offset != x {
      var next := offset + BytesToNextChunk(b, offset);
      PassesForward(b, next, x);
      if next < |b| {
        Answer(b, next, x, if offset != 0 then offset else lastValid);
      }
    } else if BytesToNextChunk(b, x) > 0 && x + BytesToNextChunk(b, x) < |b| {
      assert x > 0 && BytesToNextChunk(b, x + BytesToNextChunk(b, x)) == -1 ==>
        ScanFrom(b, x + BytesToNextChunk(b, x), x) == x;
    }
  }

  /** There is no answer if the first line cannot be passed, or the second when the first starts the buffer. */
  lemma NoAnswer(b: seq<char>, offset: nat)
    requires |b| < INT_LIMIT
    ensures BytesToNextChunk(b, offset) == -1 ==> BytesMissing(b, offset) == -1
    ensures var skip := BytesToNextChunk(b, 0);
            0 < skip < |b| && BytesToNextChunk(b, skip) == -1 ==> BytesMissing(b, 0) == -1
  {
    hide BytesToNextChunk;
    var skip := BytesToNextChunk(b, 0);
    if 0 < skip < |b| && BytesToNextChunk(b, skip) == -1 {
      assert ScanFrom(b, skip, -1) == -1;
    }
  }

  // ----- Why numbers that have not ended matter ------------------------------------------

  lemma SizeAfterSpaces(spaces: seq<char>, s: seq<char>)
    requires s != [] && IsHexDigit(s[0]) && forall i | 0 <= i < |spaces| :: IsSpace(spaces[i])
    ensures ScanHex(spaces + s) == ScanHex(s)
  {
    hide TrimLeft, Digits, HexValue, RunLength, Stored;
    TrimLeftOf(spaces, s);
    TrimLeftOf([], s);
    assert [] + s == s;
  }

  lemma OneAndSixteen()
    ensures HexValue(['1']) == 1 && HexValue(['1', '0']) == 16
  {
    assert ['1'][..0] == [] && ['1', '0'][..1] == ['1'];
  }

  /** Two blanks and a line end. */
  const BLANK: seq<char> := [' ', ' ', CR, LF]

  lemma BlankPrefix(b: seq<char>)
    requires b == BLANK + ['1']
    ensures BytesMissing(b, 0) == 7
  {
    hide LineEnd, ScanHex;
    LineEndOf([' ', ' '], ['1']);
    assert b[0..] == [' ', ' '] + [CR, LF] + ['1'];
    SizeAfterSpaces(BLANK, ['1']);
    OneAndSixteen();
    DigitsAlone(['1']);
    StepFound(b, 0, BLANK + ['1'], 2, 1);
  }

  lemma BlankExtended(b: seq<char>)
    requires b == BLANK + (['1', '0'] + ([';'] + LAST))
    ensures BytesMissing(b, 0) != 0 && Complete(b, 7)
  {
    hide LineEnd, ScanHex, HexValue;
    assert b[7..] == LAST;
    LastIsComplete(b, 7);
    LineEndOf([' ', ' '], ['1', '0'] + ([';'] + LAST));
    assert b[0..] == [' ', ' '] + [CR, LF] + (['1', '0'] + ([';'] + LAST)) == b;
    SizeAfterSpaces(BLANK, ['1', '0'] + ([';'] + LAST));
    OneAndSixteen();
    SizeOf(['1', '0'], [';'] + LAST);
    StepFound(b, 0, b, 2, 16);
  }

  /** Behind a blank line `sscanf` reads on, and the number it finds grows with the next byte: the scan
      of the longer buffer is complete from the returned offset, but not from the start. */
  lemma BlankLineMisleadsResume() returns (b: seq<char>, more: seq<char>)
    ensures BytesMissing(b, 0) > 0 && Complete(b + more, BytesMissing(b, 0)) && !Complete(b + more, 0)
  {
    hide BytesMissing;
    b, more := BLANK + ['1'], ['0', ';'] + LAST;
    assert b + more == BLANK + (['1', '0'] + ([';'] + LAST));
    BlankPrefix(b);
    BlankExtended(b + more);
  }

  /** A buffer with blank lines in front of a zero is complete, and with one more digit it is not. */
  lemma BlankLineUndoesComplete() returns (b: seq<char>)
    ensures Complete(b, 0) && !Complete(b + ['5'], 0)
  {
    hide LineEnd, ScanHex, HexValue;
    b := [CR, LF, CR, LF, '0'];
    LineEndOf([], [CR, LF, '0']);
    LineEndOf([], [CR, LF, '0', '5']);
    assert b[0..] == [] + [CR, LF] + [CR, LF, '0'] == [CR, LF, CR, LF] + ['0'];
    assert (b + ['5'])[0..] == [] + [CR, LF] + [CR, LF, '0', '5'] == [CR, LF, CR, LF] + ['0', '5'];
    SizeAfterSpaces([CR, LF, CR, LF], ['0']);
    SizeAfterSpaces([CR, LF, CR, LF], ['0', '5']);
    ZeroAndFive();
    DigitsAlone(['0']);
    DigitsAlone(['0', '5']);
    StepFound(b, 0, b[0..], 0, 0);
    StepFound(b + ['5'], 0, (b + ['5'])[0..], 0, 5);
  }

  lemma ZeroAndFive()
    ensures HexValue(['0']) == 0 && HexValue(['0', '5']) == 5
  {
    assert ['0'][..0] == [] && ['0', '5'][..1] == ['0'];
  }

  lemma DigitsAlone(digits: seq<char>)
    requires digits != [] && (forall i | 0 <= i < |digits| :: IsHexDigit(digits[i])) && HexValue(digits) < WORD
    ensures ScanHex(digits) == Some(HexValue(digits))
  {
    hide ScanHex, HexValue, RunLength;
    ScanHexOfDigits(digits);
    RunLengthOf(digits, [], IsHexDigit);
    assert digits + [] == digits && digits[..|digits|] == digits;
  }

  // Where a number has 2^32 or more, all further digits can lead both scans the same way.

  /** Two lines of whitespace. */
  const LINES: seq<char> := [CR, LF, ' ', ' ', ' ', ' ', ' ', ' ', ' ', CR, LF]

  /** 2^60 + 5, in sixteen digits */
  function LargeNumber(): (digits: seq<char>)
    ensures |digits| == 16 && forall i | 0 <= i < 16 :: IsHexDigit(digits[i])
  {
    ['1'] + HexDigits(5, 15)
  }

  lemma LargeValue()
    ensures HexValue(LargeNumber()) == 0x1000_0000 * WORD + 5
  {
    assert Shifted(1, 15) == 0x1000_0000 * WORD by {
      EightZeros(1);
      assert Shifted(1, 10) == 0x100 * WORD;
      assert Shifted(1, 12) == 0x1_0000 * WORD;
      assert Shifted(1, 14) == 0x100_0000 * WORD;
    }
    OneAndSixteen();
    DigitsAppended(['1'], 5, 15);
  }

  /** What is read from one of the lines on. */
  lemma LargeSize(k: nat, more: seq<char>)
    requires k < |LINES|
    ensures var s := (LINES + LargeNumber() + more)[k..];
            && NumberOf(s) == LargeNumber() + more
            && ScanHex(s) == Some(if more == [] || !IsHexDigit(more[0]) then 5 else WORD - 1)
  {
    hide RunLength, HexValue, ScanHex, Stored, HexDigits, TrimLeft;
    var digits := LargeNumber();
    var s := (LINES + digits + more)[k..];
    assert s == LINES[k..] + (digits + more);
    TrimLeftOf(LINES[k..], digits + more);
    LargeValue();
    if more == [] || !IsHexDigit(more[0]) {
      ScanHexOf(s, digits, more);
      assert digits + [] == digits;
      LargeIsStored([]);
    } else {
      var n := RunLength(more, IsHexDigit);
      assert n > 0;
      MoreDigitsAreMore(digits, more[..n]);
      assert digits + more == digits + more[..n] + more[n..];
      ScanHexOf(s, digits + more[..n], more[n..]);
      LargeIsStored(more[..n]);
    }
  }

  lemma LargeIsStored(more: seq<char>)
    requires forall i | 0 <= i < |more| :: IsHexDigit(more[i])
    ensures forall i | 0 <= i < |LargeNumber() + more| :: IsHexDigit((LargeNumber() + more)[i])
    ensures Stored(HexValue(LargeNumber() + more), false) == if more == [] then 5 else WORD - 1
  {
    hide HexDigits, LargeNumber, HexValue;
    var digits := LargeNumber();
    LargeValue();
    if more == [] {
      assert digits + more == digits;
      LowWord(0x1000_0000, 5);
    } else {
      OneMoreDigit(digits, more[0]);
      assert digits + more == digits + [more[0]] + more[1..];
      MoreDigitsAreMore(digits + [more[0]], more[1..]);
    }
  }

  lemma OneMoreDigit(digits: seq<char>, c: char)
    requires IsHexDigit(c) && forall i | 0 <= i < |digits| :: IsHexDigit(digits[i])
    ensures forall i | 0 <= i < |digits| + 1 :: IsHexDigit((digits + [c])[i])
    ensures HexValue(digits + [c]) >= 16 * HexValue(digits)
  {
    assert (digits + [c])[..|digits|] == digits;
  }

  /** The ends of the lines, from the start and from inside. */
  lemma LargeLines(more: seq<char>)
    ensures var b := LINES + LargeNumber() + more;
            LineEnd(b[0..]) == Some(0) && LineEnd(b[3..]) == Some(6) && LineEnd(b[9..]) == Some(0)
  {
    hide LineEnd, HexDigits, LargeNumber;
    var text := LargeNumber() + more;
    var b := LINES + LargeNumber() + more;
    LineEndOf([], LINES[2..] + text);
    LineEndOf(LINES[3..9], text);
    LineEndOf([], text);
    assert b[0..] == [] + [CR, LF] + (LINES[2..] + text);
    assert b[3..] == LINES[3..9] + [CR, LF] + text;
    assert b[9..] == [] + [CR, LF] + text;
  }

  lemma LargeSteps(more: seq<char>)
    requires |LINES + LargeNumber() + more| < INT_LIMIT
    ensures var b, grows := LINES + LargeNumber() + more, more != [] && IsHexDigit(more[0]);
            && BytesToNextChunk(b, 0) == (if grows then 3 else 9)
            && BytesToNextChunk(b, 3) == (if grows then 9 else 15)
            && BytesToNextChunk(b, 9) == (if grows then 3 else 9)
  {
    hide LineEnd, ScanHex, HexDigits, LargeNumber, NumberOf;
    LargeLines(more);
    LargeSize(0, more);
    LargeSize(3, more);
    LargeSize(9, more);
  }

  /** A number above 2^32 that runs to the end of the buffer, and no way to tell the two scans apart. */
  lemma LargeNumbersMayGrow() returns (b: seq<char>)
    ensures BytesMissing(b, 0) == 9 && SameVerdicts(b, 0, 9) && !PassedBefore(b, 0, 9, FixedNumber)
  {
    hide LargeNumber, BytesToNextChunk, Complete, NumberOf;
    b := LINES + LargeNumber();
    assert b + [] == b;
    LargeSteps([]);
    LargeIsOpen(b);
    LargeAnswer(b);
    forall more | |b + more| < INT_LIMIT
      ensures Complete(b + more, 9) <==> Complete(b + more, 0)
    {
      LargeSteps(more);
      CompleteAfterStep(b + more, 0);
      CompleteAfterStep(b + more, 3);
      CompleteAfterStep(b + more, 9);
    }
  }

  lemma LargeIsOpen(b: seq<char>)
    requires b == LINES + LargeNumber()
    ensures !FixedNumber(b[0..])
  {
    hide LargeNumber, HexValue, RunLength, NumberOf;
    assert LINES + LargeNumber() + [] == b;
    var digits := LargeNumber();
    LargeSize(0, []);
    LargeValue();
    assert digits + [] == digits && digits[..16] == digits;
    RunLengthOf(digits, [], IsHexDigit);
  }

  lemma LargeAnswer(b: seq<char>)
    requires b == LINES + LargeNumber() && BytesToNextChunk(b, 0) == 9 && BytesToNextChunk(b, 9) == 9
    ensures BytesMissing(b, 0) == 9
  {
    hide LargeNumber, BytesToNextChunk;
    assert CR !in b[18..];
    LineHasCr(b, 18, 18);
    NoLineNoStep(b, 18);
    assert ScanFrom(b, 18, 9) == 9;
    assert ScanFrom(b, 9, -1) == 9;
  }
}
