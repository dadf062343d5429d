/** Chunked transfer coding in filters.c (section 4.1 of RFC 7230): the scan for
    completeness, which can be resumed, and the decoder that works in place.
    A buffer is the bytes up to its terminating NUL; other NULs may occur in it. */
module Chunked {
  import opened Text

  const WORD: nat := 0x1_0000_0000
  const INT_LIMIT: nat := 0x8000_0000

  /** The value of an `int` that is given the bits of an integer. */
  function ToInt(n: int): int {
    var low := n % WORD;
    if low < INT_LIMIT then low else low - WORD
  }

  // ----- The two library calls --------------------------------------------------

  /** `strstr(s, "\r\n")` */
  function LineEnd(s: seq<char>): (end: Option<nat>)
    ensures end.Some? ==> end.value + 2 <= |s| && s[end.value] == CR && s[end.value + 1] == LF
  {
    if |s| < 2 || s[0] == NUL then None
    else if s[0] == CR && s[1] == LF then Some(0)
    else match LineEnd(s[1..]) case None => None case Some(n) => Some(n + 1)
  }

  predicate IsHexDigit(c: char) {
    '0' <= c <= '9' || 'a' <= c <= 'f' || 'A' <= c <= 'F'
  }

  function DigitValue(c: char): (v: nat)
    requires IsHexDigit(c)
    ensures v < 16
  {
    if c <= '9' then (c - '0') as nat else if c <= 'F' then (c - 'A') as nat + 10 else (c - 'a') as nat + 10
  }

  function HexValue(digits: seq<char>): nat
    requires forall i | 0 <= i < |digits| :: IsHexDigit(digits[i])
  {
    if digits == [] then 0
    else 16 * HexValue(digits[..|digits| - 1]) + DigitValue(digits[|digits| - 1])
  }

  /** The 32 bits `sscanf` stores for a number: it reads an `unsigned long`. */
  function Stored(value: nat, negative: bool): nat {
    if value >= WORD * WORD then WORD - 1 else (if negative then -(value as int) else value) % WORD
  }

  /** A number without the prefix that `%x` allows. */
  function Unprefixed(number: seq<char>): seq<char> {
    if |number| >= 2 && number[0] == '0' && number[1] in {'x', 'X'} then number[2..] else number
  }

  /** The digits of a number at the front of a text. */
  function Digits(text: seq<char>): seq<char> {
    var number := if text != [] && text[0] in {'-', '+'} then text[1..] else text;
    Unprefixed(number)
  }

  /** `sscanf(s, "%x", &size)`; None unless it returns 1. */
  function ScanHex(s: seq<char>): (size: Option<nat>)
    ensures size.Some? ==> size.value < WORD
  {
    var text := TrimLeft(s);
    var n := RunLength(Digits(text), IsHexDigit);
    if n == 0 then None else Some(Stored(HexValue(Digits(text)[..n]), text[0] == '-'))
  }

  // ----- What numbers mean ---------------------------------------------------------

  const LOWER_DIGITS: string := "0123456789abcdef"
  const UPPER_DIGITS: string := "0123456789ABCDEF"

  /** The digits write a value in base 16, in either case and with any number of zeros in front. */
  predicate Spells(digits: string, value: nat) {
    if digits == [] then value == 0
    else
      && digits[|digits| - 1] in {LOWER_DIGITS[value % 16], UPPER_DIGITS[value % 16]}
      && Spells(digits[..|digits| - 1], value / 16)
  }

  lemma DigitIs(v: nat)
    requires v < 16
    ensures IsHexDigit(LOWER_DIGITS[v]) && DigitValue(LOWER_DIGITS[v]) == v
    ensures IsHexDigit(UPPER_DIGITS[v]) && DigitValue(UPPER_DIGITS[v]) == v
  {}

  lemma DigitOf(c: char)
    requires IsHexDigit(c)
    ensures c in {LOWER_DIGITS[DigitValue(c)], UPPER_DIGITS[DigitValue(c)]}
  {}

  lemma {:induction false} SpelledValue(digits: string, value: nat)
    requires Spells(digits, value)
    ensures (forall i | 0 <= i < |digits| :: IsHexDigit(digits[i])) && HexValue(digits) == value
  {
    hide IsHexDigit;
    if digits != [] {
      DigitIs(value % 16);
      SpelledValue(digits[..|digits| - 1], value / 16);
    }
  }

  lemma {:induction false} ValueIsSpelled(digits: string)
    requires forall i | 0 <= i < |digits| :: IsHexDigit(digits[i])
    ensures Spells(digits, HexValue(digits))
  {
    hide IsHexDigit, DigitValue;
    if digits != [] {
      var front, last := digits[..|digits| - 1], digits[|digits| - 1];
      DigitOf(last);
      ValueIsSpelled(front);
      LastDigit(HexValue(front), DigitValue(last));
    }
  }

  lemma LastDigit(high: nat, low: nat)
    requires low < 16
    ensures (16 * high + low) % 16 == low && (16 * high + low) / 16 == high
  {}

  predicate WritesDigit(c: char) {
    c in LOWER_DIGITS || c in UPPER_DIGITS
  }

  predicate WritesSpace(c: char) {
    c in " \t\n\U{0B}\U{0C}\r"
  }

  /** The parts of a text that `sscanf` reads a number from, and what follows them. */
  datatype Parts = Parts(spaces: string, sign: string, prefix: string, digits: string, rest: string) {
    predicate Valid() {
      && (forall i | 0 <= i < |spaces| :: WritesSpace(spaces[i]))
      && sign in {"", "+", "-"} && prefix in {"", "0x", "0X"}
      && digits != [] && (forall i | 0 <= i < |digits| :: WritesDigit(digits[i]))
      && (rest != [] ==> !WritesDigit(rest[0]))
      && (prefix == "" && digits == "0" && rest != [] ==> rest[0] !in {'x', 'X'})
    }

    function Text(): string {
      spaces + (sign + (prefix + (digits + rest)))
    }
  }

  /** The same parts, in terms of the character classes of the library. */
  ghost predicate Readable(p: Parts) {
    && (forall i | 0 <= i < |p.spaces| :: IsSpace(p.spaces[i]))
    && (p.sign == [] || p.sign == ['+'] || p.sign == ['-'])
    && (p.prefix == [] || p.prefix == ['0', 'x'] || p.prefix == ['0', 'X'])
    && p.digits != [] && (forall i | 0 <= i < |p.digits| :: IsHexDigit(p.digits[i]))
    && (p.rest != [] ==> !IsHexDigit(p.rest[0]))
    && (p.prefix == [] && p.digits == ['0'] && p.rest != [] ==> p.rest[0] !in {'x', 'X'})
  }

  lemma ValidIsReadable(p: Parts)
    ensures p.Valid() <==> Readable(p)
  {
    hide WritesDigit, IsHexDigit, WritesSpace, IsSpace;
    assert forall c :: IsHexDigit(c) <==> WritesDigit(c) by {
      forall c ensures IsHexDigit(c) <==> WritesDigit(c) { HexDigitsAre(c); }
    }
    assert forall c :: IsSpace(c) <==> WritesSpace(c) by {
      forall c ensures IsSpace(c) <==> WritesSpace(c) { SpacesAre(c); }
    }
  }

  lemma HexDigitsAre(c: char)
    ensures IsHexDigit(c) <==> WritesDigit(c)
  {
    if IsHexDigit(c) {
      DigitOf(c);
    }
    if c in LOWER_DIGITS {
      var i :| 0 <= i < 16 && LOWER_DIGITS[i] == c;
      DigitIs(i);
    }
    if c in UPPER_DIGITS {
      var i :| 0 <= i < 16 && UPPER_DIGITS[i] == c;
      DigitIs(i);
    }
  }

  lemma SpacesAre(c: char)
    ensures IsSpace(c) <==> WritesSpace(c)
  {}

  lemma UnprefixedParts(p: Parts)
    requires Readable(p)
    ensures Unprefixed(p.prefix + (p.digits + p.rest)) == p.digits + p.rest
  {
    var number := p.prefix + (p.digits + p.rest);
    if p.prefix == [] {
      assert number == p.digits + p.rest;
      if |p.digits| == 1 {
        assert p.digits == [number[0]];
      } else {
        assert IsHexDigit(p.digits[1]) && number[1] == p.digits[1];
      }
    }
  }

  lemma TextOfParts(p: Parts)
    requires Readable(p)
    ensures var text := TrimLeft(p.Text());
            text != [] && (text[0] == '-' <==> p.sign == ['-']) && Digits(text) == p.digits + p.rest
  {
    hide Unprefixed;
    var number := p.prefix + (p.digits + p.rest);
    var text := p.sign + number;
    assert IsHexDigit(p.digits[0]);
    TrimLeftOf(p.spaces, text);
    UnprefixedParts(p);
    assert p.sign == [] ==> text == number;
    assert p.sign != [] ==> text[1..] == number;
  }

  /** `%x` reads the value that the digits write, negated modulo 2^64 behind a minus sign; of a value of
      2^64 or more all that is left is ULONG_MAX; and `unsigned int` keeps the lowest 32 bits. */
  lemma NumberIsRead(p: Parts, value: nat)
    requires p.Valid() && Spells(p.digits, value)
    ensures ScanHex(p.Text()) == Some(if value >= 0x1_0000_0000_0000_0000 then 0xFFFF_FFFF
                                      else if p.sign == "-" then (0x1_0000_0000 - value % 0x1_0000_0000) % 0x1_0000_0000
                                      else value % 0x1_0000_0000)
  {
    hide HexValue, RunLength, IsHexDigit, Spells, TrimLeft, Digits, Stored, Parts.Valid, Parts.Text;
    ValidIsReadable(p);
    TextOfParts(p);
    SpelledValue(p.digits, value);
    RunLengthOf(p.digits, p.rest, IsHexDigit);
    assert (p.digits + p.rest)[..|p.digits|] == p.digits;
    StoredMeans(value, p.sign == "-");
  }

  lemma StoredMeans(value: nat, negative: bool)
    ensures Stored(value, negative) == if value >= 0x1_0000_0000_0000_0000 then 0xFFFF_FFFF
                                       else if negative then (0x1_0000_0000 - value % 0x1_0000_0000) % 0x1_0000_0000
                                       else value % 0x1_0000_0000
  {}

  /** A text is read exactly if it has these parts. */
  lemma WhenNumberIsRead(s: string)
    ensures ScanHex(s).Some? <==> exists p: Parts :: p.Valid() && p.Text() == s
  {
    hide ScanHex, Spells, Parts.Valid, Parts.Text;
    if ScanHex(s).Some? {
      var p := PartsOf(s);
      ValidIsReadable(p);
    }
    if p: Parts :| p.Valid() && p.Text() == s {
      ValidIsReadable(p);
      ValueIsSpelled(p.digits);
      NumberIsRead(p, HexValue(p.digits));
    }
  }

  lemma PartsOf(s: string) returns (p: Parts)
    requires ScanHex(s).Some?
    ensures Readable(p) && p.Text() == s
  {
    hide ScanHex, TrimLeft, RunLength, Unprefixed, Readable, IsSpace;
    TrimLeftIsSuffix(s);
    TextIsThere(s);
    var text := TrimLeft(s);
    var start, at := |s| - |text|, if text[0] in {'-', '+'} then 1 else 0;
    var prefix, digits, rest := NumberParts(text[at..]);
    p := Parts(s[..start], text[..at], prefix, digits, rest);
    SplitAt(s, start);
    SplitAt(text, at);
    SignedParts(p, text[0]);
  }

  lemma SplitAt(s: string, k: nat)
    requires k <= |s|
    ensures s == s[..k] + s[k..]
  {}

  lemma SignedParts(p: Parts, c: char)
    requires Readable(Parts([], [], p.prefix, p.digits, p.rest))
    requires forall i | 0 <= i < |p.spaces| :: IsSpace(p.spaces[i])
    requires p.sign == [] || (p.sign == [c] && c in {'-', '+'})
    ensures Readable(p)
  {}

  lemma TextIsThere(s: string)
    requires ScanHex(s).Some?
    ensures var text := TrimLeft(s);
            text != [] && RunLength(Unprefixed(text[if text[0] in {'-', '+'} then 1 else 0..]), IsHexDigit) > 0
  {
    hide TrimLeft;
    assert TrimLeft(s)[0..] == TrimLeft(s);
  }

  lemma NumberParts(number: string) returns (prefix: string, digits: string, rest: string)
    requires RunLength(Unprefixed(number), IsHexDigit) > 0
    ensures number == prefix + (digits + rest) && Readable(Parts([], [], prefix, digits, rest))
  {
    hide IsHexDigit, RunLength;
    var unprefixed := Unprefixed(number);
    var n := RunLength(unprefixed, IsHexDigit);
    digits, rest := unprefixed[..n], unprefixed[n..];
    SplitAt(unprefixed, n);
    if unprefixed == number {
      prefix := [];
      assert [] + number == number;
      if n == 1 {
        assert digits == [number[0]] && (rest != [] ==> rest[0] == number[1]);
      }
    } else {
      prefix := number[..2];
      SplitAt(number, 2);
    }
  }

  // ----- The scan ------------------------------------------------------------------

  /** `get_bytes_to_next_chunk_start` */
  function BytesToNextChunk(b: seq<char>, offset: nat): (r: int)
    ensures r >= -1
    ensures r >= 0 ==> offset < |b|
  {
    if |b| <= offset || |b| < 5 then -1
    else
      match (LineEnd(b[offset..]), ScanHex(b[offset..]))
      case (Some(length), Some(size)) =>
        var skip := ToInt(length + 2 + ToInt(size) + 2);
        if skip <= 0 then -1
        else if size == 0 then if skip <= |b| - offset then 0 else -1
        else skip
      case _ => -1
  }

  function ScanFrom(b: seq<char>, offset: nat, lastValid: int): int
    decreases |b| - offset
  {
    var skip := BytesToNextChunk(b, offset);
    if skip == -1 then lastValid
    else if skip == 0 then 0
    else if offset + skip < |b| then ScanFrom(b, offset + skip, if offset != 0 then offset else lastValid)
    else ToInt(offset + skip)
  }

  /** What `get_bytes_missing_from_chunked_data` returns. */
  function BytesMissing(b: seq<char>, offset: nat): int {
    if |b| < offset || |b| < 5 then -1 else ScanFrom(b, offset, -1)
  }

  method GetBytesMissingFromChunkedData(b: seq<char>, from: nat) returns (r: int)
    ensures r == BytesMissing(b, from)
  {
    hide BytesToNextChunk;
    var lastValid, offset := -1, from;
    if |b| < offset || |b| < 5 {
      return -1;
    }
    while true
      invariant ScanFrom(b, offset, lastValid) == ScanFrom(b, from, -1)
      decreases |b| - offset
    {
      r := BytesToNextChunk(b, offset);
      if r == -1 {
        return lastValid;
      }
      if r == 0 {
        return 0;
      }
      if offset != 0 {
        lastValid := offset;
      }
      offset := offset + r;
      if offset >= |b| {
        return ToInt(offset);
      }
    }
  }

  // ----- What the scan means ---------------------------------------------------------

  /** A size line: where it ends and the size it gives. */
  datatype Line = NoLine | Line(length: nat, size: nat) {
    function Skip(): nat {
      if NoLine? then 0 else length + 2 + size + 2
    }
  }

  function LineAt(b: seq<char>, offset: nat): Line {
    if offset >= |b| then NoLine
    else match (LineEnd(b[offset..]), ScanHex(b[offset..]))
      case (Some(length), Some(size)) => Line(length, size)
      case _ => NoLine
  }

  /** Well-formed chunked data from an offset on: chunks below 2^31 bytes up to one of size zero
      that is followed by two more bytes. */
  ghost predicate WellChunked(b: seq<char>, offset: nat)
    decreases |b| - offset
  {
    var line := LineAt(b, offset);
    && line.Line? && offset + line.Skip() <= |b|
    && (line.size != 0 ==> WellChunked(b, offset + line.Skip()))
  }

  /** The chunk data, without the size lines. */
  ghost function Body(b: seq<char>, offset: nat): seq<char>
    requires WellChunked(b, offset)
    decreases |b| - offset
  {
    hide LineAt;
    var line := LineAt(b, offset);
    var start := offset + line.length + 2;
    if line.size == 0 then [] else b[start..start + line.size] + Body(b, offset + line.Skip())
  }

  /** The sum of the chunk sizes. */
  ghost function BodySize(b: seq<char>, offset: nat): nat
    requires WellChunked(b, offset)
    decreases |b| - offset
  {
    var line := LineAt(b, offset);
    if line.size == 0 then 0 else line.size + BodySize(b, offset + line.Skip())
  }

  lemma {:induction false} BodyHasItsSize(b: seq<char>, offset: nat)
    requires WellChunked(b, offset)
    ensures |Body(b, offset)| == BodySize(b, offset)
    decreases |b| - offset
  {
    hide LineAt;
    if LineAt(b, offset).size != 0 {
      BodyHasItsSize(b, offset + LineAt(b, offset).Skip());
    }
  }

  /** One step of the scan: sizes below 2^31 are what they seem. */
  lemma StepMeans(b: seq<char>, offset: nat)
    requires 5 <= |b| < INT_LIMIT && offset < |b|
    ensures var line, skip := LineAt(b, offset), BytesToNextChunk(b, offset);
            if line.NoLine? then skip == -1
            else line.size < INT_LIMIT ==>
              skip == if line.Skip() >= INT_LIMIT then -1
                      else if line.size != 0 then line.Skip()
                      else if offset + line.Skip() <= |b| then 0 else -1
  {
    hide LineEnd, ScanHex, ToInt;
    var line := LineAt(b, offset);
    if line.Line? && line.size < INT_LIMIT {
      IntOf(line.size);
      IntOf(line.length + 2 + line.size + 2);
    }
  }

  lemma IntOf(n: nat)
    requires n <= WORD
    ensures if n < INT_LIMIT then ToInt(n) == n else ToInt(n) <= 0
  {}

  lemma StepIsSmall(b: seq<char>, offset: nat)
    ensures BytesToNextChunk(b, offset) < INT_LIMIT
    ensures BytesToNextChunk(b, offset) >= 0 ==> |b| >= 5 && LineAt(b, offset).Line? && LineEnd(b[offset..]).Some?
    ensures BytesToNextChunk(b, offset) == 0 ==> LineAt(b, offset).size == 0
    ensures BytesToNextChunk(b, offset) > 0 ==> LineAt(b, offset).size != 0
  {
    hide LineEnd, ScanHex;
  }

  /** A scan that reports completeness has reached a last chunk further on. */
  lemma {:induction false} CompleteHasRoom(b: seq<char>, offset: nat, lastValid: int)
    requires |b| < INT_LIMIT && lastValid != 0 && ScanFrom(b, offset, lastValid) == 0
    ensures offset + 4 <= |b| && LineAt(b, offset).Line?
    decreases |b| - offset
  {
    hide BytesToNextChunk, LineAt;
    StepIsSmall(b, offset);
    var skip := BytesToNextChunk(b, offset);
    if skip > 0 {
      CompleteHasRoom(b, offset + skip, if offset != 0 then offset else lastValid);
    } else {
      StepMeans(b, offset);
    }
  }

  /** The scan reports completeness for all well-formed data. */
  lemma {:induction false} WellChunkedIsComplete(b: seq<char>, offset: nat, lastValid: int)
    requires 5 <= |b| < INT_LIMIT && WellChunked(b, offset)
    ensures ScanFrom(b, offset, lastValid) == 0
    decreases |b| - offset
  {
    hide BytesToNextChunk, LineAt;
    NoLineAtTheEnd(b, offset);
    StepMeans(b, offset);
    var line := LineAt(b, offset);
    if line.size != 0 {
      NoLineAtTheEnd(b, offset + line.Skip());
      WellChunkedIsComplete(b, offset + line.Skip(), if offset != 0 then offset else lastValid);
    }
  }

  lemma NoLineAtTheEnd(b: seq<char>, offset: nat)
    ensures LineAt(b, offset).Line? ==> offset < |b|
  {}

  // ----- The decoder -------------------------------------------------------------------

  /** `Fatal` stands for a fatal log message, after which the program ends. */
  datatype Outcome = Decoded(text: seq<char>) | ParseError | Fatal

  /** `memmove` to lower addresses within one buffer */
  method MoveDown(buffer: array<char>, to: nat, from: nat, count: nat)
    requires to <= from && from + count <= buffer.Length
    modifies buffer
    ensures buffer[..to + count] == old(buffer[..to]) + old(buffer[from..from + count])
    ensures forall i | from + count <= i < buffer.Length :: buffer[i] == old(buffer[i])
  {
    forall i | 0 <= i < count {
      buffer[to + i] := buffer[from + i];
    }
    assert buffer[..to] == old(buffer[..to]);
    assert buffer[to..to + count] == old(buffer[from..from + count]);
    assert buffer[..to + count] == buffer[..to] + buffer[to..to + count];
  }

  /** Where the data starts in what is left to read, or None if a check fails before it is moved. */
  function ChunkStart(rest: seq<char>, size: nat, room: int): (start: Option<nat>)
    ensures start.Some? ==> 2 <= start.value && start.value + size + 2 < |rest|
  {
    if (size + 5) % WORD >= room then None
    else
      match LineEnd(rest)
      case None => None
      case Some(length) => if length + 2 + size + 2 >= |rest| then None else Some(length + 2)
  }

  /** The loop of `remove_chunked_transfer_coding`, on a buffer that stays as it was. */
  function DecodeFrom(b: seq<char>, from: nat, size: nat, done: seq<char>): Outcome
    requires from <= |b|
    decreases |b| - from
  {
    if size == 0 then Decoded(done)
    else
      match ChunkStart(b[from..], size, |b| - |done|)
      case None => ParseError
      case Some(start) =>
        var data := from + start;
        var next, text := data + size + 2, done + b[data..data + size];
        match ScanHex(b[next..])
        case None => Decoded(text)
        case Some(nextSize) => DecodeFrom(b, next, nextSize, text)
  }

  function Decode(b: seq<char>): Outcome {
    if b == [] then Fatal
    else if BytesMissing(b, 0) != 0 then ParseError
    else match ScanHex(b) case None => ParseError case Some(size) => DecodeFrom(b, 0, size, [])
  }

  /** The decoder's answer when it has looked for a size at an offset. */
  function DecodeRest(b: seq<char>, from: nat, size: Option<nat>, done: seq<char>): Outcome
    requires from <= |b|
  {
    if size.None? then Decoded(done) else DecodeFrom(b, from, size.value, done)
  }

  lemma DecodeStarts(b: seq<char>)
    ensures Decode(b) == if b == [] then Fatal
                         else if BytesMissing(b, 0) != 0 || ScanHex(b).None? then ParseError
                         else DecodeRest(b, 0, ScanHex(b), [])
  {
    hide ScanHex, BytesMissing, DecodeFrom;
  }

  lemma DecodeOneChunk(b: seq<char>, from: nat, size: nat, done: seq<char>)
    requires from <= |b| && size > 0
    ensures var start := ChunkStart(b[from..], size, |b| - |done|);
            DecodeRest(b, from, Some(size), done)
            == if start.None? then ParseError
               else var data := from + start.value;
                    DecodeRest(b, data + size + 2, ScanHex(b[data + size + 2..]), done + b[data..data + size])
  {
    hide ScanHex, ChunkStart;
  }

  /** The decoder works in place, and still reads what was there to begin with. */
  method RemoveChunkedTransferCoding(buffer: array<char>, size: nat) returns (outcome: Outcome, newSize: nat)
    requires size <= buffer.Length
    modifies buffer
    ensures outcome == Decode(old(buffer[..size]))
    ensures outcome.Decoded? ==> newSize <= size && buffer[..newSize] == outcome.text
    ensures forall i | size <= i < buffer.Length :: buffer[i] == old(buffer[i])
  {
    hide LineEnd, ScanHex, BytesMissing, ChunkStart, DecodeFrom, DecodeRest, Decode;
    newSize := 0;
    ghost var b := buffer[..size];
    DecodeStarts(b);
    if size == 0 {
      return Fatal, newSize;
    }
    var missing := GetBytesMissingFromChunkedData(buffer[..size], 0);
    if missing != 0 {
      return ParseError, newSize;
    }
    var from := 0;
    assert buffer[..size] == b[from..];
    var chunk := ScanHex(buffer[..size]);
    if chunk.None? {
      return ParseError, newSize;
    }
    while chunk.Some? && chunk.value > 0
      invariant newSize <= from <= size
      invariant forall i | from <= i < size :: buffer[i] == b[i]
      invariant forall i | size <= i < buffer.Length :: buffer[i] == old(buffer[i])
      invariant Decode(b) == DecodeRest(b, from, chunk, buffer[..newSize])
      decreases size - from
    {
      var length := chunk.value;
      SameSlice(buffer, b, from, size);
      DecodeOneChunk(b, from, length, buffer[..newSize]);
      var start := FindChunk(buffer, size, from, length, newSize);
      if start.None? {
        return ParseError, newSize;
      }
      from := from + start.value;
      SameSlice(buffer, b, from, from + length);
      MoveDown(buffer, newSize, from, length);
      newSize := newSize + length;
      from := from + length + 2;
      SameSlice(buffer, b, from, size);
      chunk := ScanHex(buffer[from..size]);
    }
    outcome := Decoded(buffer[..newSize]);
    NothingToDecode(b, from, chunk, buffer[..newSize]);
  }

  lemma SameSlice(buffer: array<char>, b: seq<char>, from: nat, to: nat)
    requires from <= to <= |b| <= buffer.Length && forall i | from <= i < to :: buffer[i] == b[i]
    ensures buffer[from..to] == b[from..to] && (to == |b| ==> buffer[from..to] == b[from..])
  {}

  lemma NothingToDecode(b: seq<char>, from: nat, size: Option<nat>, done: seq<char>)
    requires from <= |b| && (size.Some? ==> size.value == 0)
    ensures DecodeRest(b, from, size, done) == Decoded(done)
  {}

  /** The checks before a chunk is moved. */
  method FindChunk(buffer: array<char>, size: nat, from: nat, length: nat, newSize: nat) returns (start: Option<nat>)
    requires newSize <= from <= size <= buffer.Length
    ensures start == ChunkStart(buffer[from..size], length, size - newSize)
  {
    if (length + 5) % WORD >= size - newSize {
      return None;
    }
    var lineEnd := LineEnd(buffer[from..size]);
    if lineEnd.None? {
      return None;
    }
    var data := from + lineEnd.value + 2;
    if data + length >= size || data + length + 2 >= size {
      return None;
    }
    start := Some(lineEnd.value + 2);
  }

  /** The decoder's checks pass where a whole chunk is followed by at least four more bytes. */
  lemma ChunkIsFound(b: seq<char>, offset: nat, line: Line, done: nat)
    requires offset < |b| && done <= offset && line.Line? && 0 < line.size < INT_LIMIT
    requires offset + line.Skip() + 4 <= |b| && LineEnd(b[offset..]) == Some(line.length)
    ensures ChunkStart(b[offset..], line.size, |b| - done) == Some(line.length + 2)
  {
    hide LineEnd;
    assert (line.size + 5) % WORD == line.size + 5;
  }

  lemma LineIsBoth(b: seq<char>, offset: nat, line: Line)
    requires line == LineAt(b, offset) && line.Line?
    ensures offset < |b| && LineEnd(b[offset..]) == Some(line.length) && ScanHex(b[offset..]) == Some(line.size)
  {
    hide LineEnd, ScanHex;
  }

  lemma ChunkIsDecoded(b: seq<char>, offset: nat, line: Line, nextLine: Line, done: seq<char>)
    requires line.Line? && 0 < line.size < INT_LIMIT && nextLine.Line?
    requires |done| <= offset && offset + line.Skip() + 4 <= |b|
    requires line == LineAt(b, offset) && nextLine == LineAt(b, offset + line.Skip())
    ensures var start := offset + line.length + 2;
            DecodeFrom(b, offset, line.size, done)
            == DecodeFrom(b, offset + line.Skip(), nextLine.size, done + b[start..start + line.size])
  {
    hide LineEnd, ScanHex, LineAt, ChunkStart, DecodeFrom;
    LineIsBoth(b, offset, line);
    LineIsBoth(b, offset + line.Skip(), nextLine);
    ChunkIsFound(b, offset, line, |done|);
    DecodeOneChunk(b, offset, line.size, done);
  }

  lemma HugeChunkFails(b: seq<char>, offset: nat, done: seq<char>)
    requires LineAt(b, offset).Line? && |b| < INT_LIMIT <= LineAt(b, offset).size
    ensures DecodeFrom(b, offset, LineAt(b, offset).size, done) == ParseError
  {
    hide LineEnd, ScanHex;
  }

  /** A chunk in front of others does not change whether they are well formed. */
  lemma WellChunkedStep(b: seq<char>, offset: nat, line: Line, next: nat)
    requires line == LineAt(b, offset) && line.Line? && line.size != 0 && next == offset + line.Skip() <= |b|
    ensures WellChunked(b, offset) <==> WellChunked(b, next)
  {
    hide LineAt;
  }

  /** A size of 2^31 or more cannot be followed by as many bytes. */
  lemma HugeIsNotWellChunked(b: seq<char>, offset: nat)
    requires LineAt(b, offset).Line? && |b| < INT_LIMIT <= LineAt(b, offset).size
    ensures !WellChunked(b, offset)
  {
    hide LineAt;
  }

  /** Scan and decoder walk in step: where the scan from an offset reports completeness, the
      decoder fails exactly if it meets a size of 2^31 or more, and yields the chunk data if not. */
  lemma {:induction false} DecoderKeepsStep(b: seq<char>, offset: nat, lastValid: int, done: seq<char>)
    requires |b| < INT_LIMIT && lastValid != 0 && ScanFrom(b, offset, lastValid) == 0 && |done| <= offset
    ensures LineAt(b, offset).Line?
    ensures DecodeFrom(b, offset, LineAt(b, offset).size, done)
         == if WellChunked(b, offset) then Decoded(done + Body(b, offset)) else ParseError
    decreases |b| - offset
  {
    hide BytesToNextChunk, LineAt, DecodeFrom, WellChunked, Body;
    CompleteHasRoom(b, offset, lastValid);
    StepIsSmall(b, offset);
    StepMeans(b, offset);
    var line, skip := LineAt(b, offset), BytesToNextChunk(b, offset);
    if line.size >= INT_LIMIT {
      HugeChunkFails(b, offset, done);
      HugeIsNotWellChunked(b, offset);
    } else if line.size == 0 {
      NothingLeft(b, offset, done);
      LastChunk(b, offset, line);
    } else {
      var next, start := offset + skip, offset + line.length + 2;
      var last := if offset != 0 then offset else lastValid;
      CompleteHasRoom(b, next, last);
      ChunkIsDecoded(b, offset, line, LineAt(b, next), done);
      var data := b[start..start + line.size];
      DecoderKeepsStep(b, next, last, done + data);
      WellChunkedStep(b, offset, line, next);
      if WellChunked(b, next) {
        OneMoreChunk(b, offset, line, next);
        Regroup(done, data, Body(b, next));
      }
    }
  }

  lemma NothingLeft(b: seq<char>, offset: nat, done: seq<char>)
    requires offset <= |b|
    ensures DecodeFrom(b, offset, 0, done) == Decoded(done) && done == done + []
  {}

  /** Every size the scan meets is below 2^31. */
  ghost predicate SizesFit(b: seq<char>, offset: nat)
    decreases |b| - offset
  {
    var line := LineAt(b, offset);
    line.Line? ==> line.size < INT_LIMIT && (line.size != 0 ==> SizesFit(b, offset + line.Skip()))
  }

  /** A buffer that the scan calls complete is well formed exactly if the sizes fit. */
  lemma {:induction false} CompleteIsWellChunked(b: seq<char>, offset: nat, lastValid: int)
    requires |b| < INT_LIMIT && lastValid != 0 && ScanFrom(b, offset, lastValid) == 0
    ensures WellChunked(b, offset) <==> SizesFit(b, offset)
    decreases |b| - offset
  {
    hide BytesToNextChunk, LineAt;
    CompleteHasRoom(b, offset, lastValid);
    StepIsSmall(b, offset);
    StepMeans(b, offset);
    var line, skip := LineAt(b, offset), BytesToNextChunk(b, offset);
    if 0 < line.size < INT_LIMIT {
      var last := if offset != 0 then offset else lastValid;
      CompleteHasRoom(b, offset + skip, last);
      CompleteIsWellChunked(b, offset + skip, last);
    }
  }

  /** A buffer that the scan calls complete is decoded exactly if no size of 2^31 or more occurs in it,
      and then to its chunk data, as long as the sum of the chunk sizes. */
  lemma CompleteIsDecoded(b: seq<char>)
    requires |b| < INT_LIMIT && BytesMissing(b, 0) == 0
    ensures SizesFit(b, 0) <==> WellChunked(b, 0)
    ensures SizesFit(b, 0) ==> Decode(b) == Decoded(Body(b, 0)) && |Body(b, 0)| == BodySize(b, 0)
    ensures !SizesFit(b, 0) ==> Decode(b) == ParseError
  {
    hide LineAt, ScanHex, ScanFrom, SizesFit, WellChunked, Body, BodySize, DecodeFrom;
    DecoderKeepsStep(b, 0, -1, []);
    CompleteIsWellChunked(b, 0, -1);
    FirstSize(b);
    if WellChunked(b, 0) {
      BodyHasItsSize(b, 0);
      assert [] + Body(b, 0) == Body(b, 0);
    }
  }

  lemma FirstSize(b: seq<char>)
    requires LineAt(b, 0).Line?
    ensures ScanHex(b) == Some(LineAt(b, 0).size) && b != []
  {
    hide LineEnd, ScanHex;
    assert b[0..] == b;
  }

  // ----- Encoding ------------------------------------------------------------------------

  /** A chunk of section 4.1 of RFC 7230: its size in base 16, an extension, the data. */
  datatype Chunk = Chunk(digits: seq<char>, extension: seq<char>, data: seq<char>) {
    ghost predicate Valid() {
      && digits != [] && Spells(digits, |data|)
      && (extension == [] || extension[0] == ';') && OnOneLine(extension)
    }

    function Encoded(): seq<char> {
      digits + extension + [CR, LF] + data + [CR, LF]
    }
  }

  ghost predicate OnOneLine(s: seq<char>) {
    && (forall i | 0 <= i < |s| :: s[i] != NUL)
    && (forall i | 0 < i < |s| :: !(s[i - 1] == CR && s[i] == LF))
  }

  /** All chunks, a last chunk of size zero, and whatever follows its size line. */
  function Encode(chunks: seq<Chunk>, last: Chunk, trailer: seq<char>): seq<char> {
    if chunks == [] then last.digits + last.extension + [CR, LF] + trailer
    else chunks[0].Encoded() + Encode(chunks[1..], last, trailer)
  }

  function Data(chunks: seq<Chunk>): seq<char> {
    if chunks == [] then [] else chunks[0].data + Data(chunks[1..])
  }

  lemma {:induction false} LineEndOf(text: seq<char>, rest: seq<char>)
    requires OnOneLine(text)
    ensures LineEnd(text + [CR, LF] + rest) == Some(|text|)
  {
    var s := text + [CR, LF] + rest;
    if text != [] {
      var tail := text[1..];
      assert forall i | 0 <= i < |tail| :: tail[i] == text[i + 1];
      LineEndOf(tail, rest);
      assert s[1..] == tail + [CR, LF] + rest;
    }
  }

  /** What `sscanf` reads when the text starts with a digit. */
  lemma ScanHexOfDigits(s: seq<char>)
    requires s != [] && IsHexDigit(s[0])
    ensures var n := RunLength(Unprefixed(s), IsHexDigit);
            ScanHex(s) == if n == 0 then None else Some(Stored(HexValue(Unprefixed(s)[..n]), false))
  {
    hide HexValue, RunLength, Stored, Unprefixed;
    assert TrimLeft(s) == s;
  }

  /** A number in base 16, with the digits given. */
  function Printed(n: nat, digits: string): string
    requires |digits| == 16
  {
    if n < 16 then [digits[n]] else Printed(n / 16, digits) + [digits[n % 16]]
  }

  lemma {:induction false} PrintedIsSpelled(n: nat, digits: string)
    requires digits == LOWER_DIGITS || digits == UPPER_DIGITS
    ensures Printed(n, digits) != [] && Spells(Printed(n, digits), n)
  {
    if n >= 16 {
      PrintedIsSpelled(n / 16, digits);
      assert Printed(n, digits)[..|Printed(n, digits)| - 1] == Printed(n / 16, digits);
    } else {
      assert Printed(n, digits)[..0] == [];
    }
  }

  /** A printed size is read back. */
  lemma PrintedSizeIsRead(n: nat, digits: string, rest: string)
    requires digits == LOWER_DIGITS || digits == UPPER_DIGITS
    requires n < WORD && rest != [] && rest[0] in {CR, ';'}
    ensures ScanHex(Printed(n, digits) + rest) == Some(n)
  {
    hide ScanHex, Spells, Printed, HexValue;
    PrintedIsSpelled(n, digits);
    SpelledValue(Printed(n, digits), n);
    SizeOf(Printed(n, digits), rest);
  }

  lemma SizeOf(digits: seq<char>, rest: seq<char>)
    requires digits != [] && forall i | 0 <= i < |digits| :: IsHexDigit(digits[i])
    requires rest != [] && !IsHexDigit(rest[0]) && rest[0] !in {'x', 'X'} && HexValue(digits) < WORD
    ensures ScanHex(digits + rest) == Some(HexValue(digits))
  {
    hide ScanHex, HexValue, RunLength;
    var s := digits + rest;
    ScanHexOfDigits(s);
    RunLengthOf(digits, rest, IsHexDigit);
    assert s[..|digits|] == digits;
  }

  /** The size line of a chunk is read back. */
  lemma SizeLineIsRead(before: seq<char>, c: Chunk, rest: seq<char>)
    requires c.Valid() && |c.data| < WORD
    ensures var b := before + (c.digits + c.extension + [CR, LF] + rest);
            LineAt(b, |before|) == Line(|c.digits| + |c.extension|, |c.data|)
  {
    hide LineEnd, ScanHex, HexValue, Spells;
    SpelledValue(c.digits, |c.data|);
    var text := c.digits + c.extension;
    var line := text + [CR, LF] + rest;
    assert (before + line)[|before|..] == line;
    LineEndOf(text, rest);
    assert line == c.digits + (c.extension + [CR, LF] + rest);
    SizeOf(c.digits, c.extension + [CR, LF] + rest);
  }

  lemma OneMoreChunk(b: seq<char>, offset: nat, line: Line, next: nat)
    requires line.Line? && line.size != 0 && next == offset + line.Skip() <= |b|
    requires line == LineAt(b, offset) && WellChunked(b, next)
    ensures WellChunked(b, offset)
    ensures var start := offset + line.length + 2;
            Body(b, offset) == b[start..start + line.size] + Body(b, next)
  {
    hide LineAt;
  }

  lemma LastChunk(b: seq<char>, offset: nat, line: Line)
    requires line == LineAt(b, offset) && line.Line? && line.size == 0 && offset + line.Skip() <= |b|
    ensures WellChunked(b, offset) && Body(b, offset) == []
  {
    hide LineAt;
  }

  lemma ChunkBeforeOthers(before: seq<char>, c: Chunk, rest: seq<char>, b: seq<char>, next: nat)
    requires c.Valid() && c.data != [] && |c.data| < WORD
    requires b == before + (c.Encoded() + rest) && next == |before + c.Encoded()| && WellChunked(b, next)
    ensures WellChunked(b, |before|) && Body(b, |before|) == c.data + Body(b, next)
  {
    hide LineAt, Body, WellChunked, HexValue, LineEnd, ScanHex;
    EncodedLater(before, c, rest);
    SizeLineIsRead(before, c, c.data + [CR, LF] + rest);
    OneMoreChunk(b, |before|, LineAt(b, |before|), next);
  }

  lemma {:induction false} EncodedIsWellChunked(before: seq<char>, chunks: seq<Chunk>, last: Chunk, trailer: seq<char>)
    requires forall i | 0 <= i < |chunks| :: chunks[i].Valid() && chunks[i].data != []
    requires last.Valid() && last.data == [] && |trailer| >= 2
    requires |before + Encode(chunks, last, trailer)| < INT_LIMIT
    ensures var b := before + Encode(chunks, last, trailer);
            WellChunked(b, |before|) && Body(b, |before|) == Data(chunks)
    decreases |chunks|
  {
    hide LineAt, Body, WellChunked, HexValue;
    var b := before + Encode(chunks, last, trailer);
    if chunks == [] {
      SizeLineIsRead(before, last, trailer);
      LastChunk(b, |before|, LineAt(b, |before|));
    } else {
      var c, rest := chunks[0], Encode(chunks[1..], last, trailer);
      EncodedLater(before, c, rest);
      EncodedIsWellChunked(before + c.Encoded(), chunks[1..], last, trailer);
      ChunkBeforeOthers(before, c, rest, b, |before + c.Encoded()|);
    }
  }

  lemma EncodedLater(before: seq<char>, c: Chunk, rest: seq<char>)
    ensures before + (c.Encoded() + rest) == before + c.Encoded() + rest
    ensures c.Encoded() + rest == c.digits + c.extension + [CR, LF] + (c.data + [CR, LF] + rest)
    ensures var start := |before| + |c.digits| + |c.extension| + 2;
            (before + (c.Encoded() + rest))[start..start + |c.data|] == c.data
  {}

  /** Decoding undoes chunked encoding. */
  lemma DecodeUndoesEncode(chunks: seq<Chunk>, last: Chunk, trailer: seq<char>)
    requires forall i | 0 <= i < |chunks| :: chunks[i].Valid() && chunks[i].data != []
    requires last.Valid() && last.data == [] && |trailer| >= 2
    requires |Encode(chunks, last, trailer)| < INT_LIMIT
    ensures BytesMissing(Encode(chunks, last, trailer), 0) == 0
    ensures Decode(Encode(chunks, last, trailer)) == Decoded(Data(chunks))
  {
    hide ScanFrom, LineAt, Decode;
    var b := Encode(chunks, last, trailer);
    assert [] + b == b;
    EncodedIsWellChunked([], chunks, last, trailer);
    EncodedIsLong(chunks, last, trailer);
    WellChunkedIsComplete(b, 0, -1);
    CompleteIsDecoded(b);
  }

  lemma {:induction false} EncodedIsLong(chunks: seq<Chunk>, last: Chunk, trailer: seq<char>)
    requires last.digits != [] && |trailer| >= 2
    ensures |Encode(chunks, last, trailer)| >= 5
  {
    if chunks != [] {
      EncodedIsLong(chunks[1..], last, trailer);
    }
  }

  // ----- Why sizes of 2^31 and more matter ---------------------------------------------

  lemma EightDigits() returns (digits: seq<char>)
    ensures |digits| == 8 && (forall i | 0 <= i < |digits| :: IsHexDigit(digits[i])) && HexValue(digits) == WORD - 1
  {
    digits := "FFFFFFFF";
    assert HexValue(digits[..1]) == 0xF && HexValue(digits[..2]) == 0xFF && HexValue(digits[..3]) == 0xFFF by {
      assert digits[..1][..0] == [] && digits[..2][..1] == digits[..1] && digits[..3][..2] == digits[..2];
    }
    assert HexValue(digits[..4]) == 0xFFFF && HexValue(digits[..5]) == 0xF_FFFF by {
      assert digits[..4][..3] == digits[..3] && digits[..5][..4] == digits[..4];
    }
    assert HexValue(digits[..6]) == 0xFF_FFFF && HexValue(digits[..7]) == 0xFFF_FFFF by {
      assert digits[..6][..5] == digits[..5] && digits[..7][..6] == digits[..6];
    }
  }

  /** The scan takes 0xFFFFFFFF for -1, walks on and finds a last chunk; the decoder does not follow. */
  lemma HugeSizeMisleadsTheScan() returns (b: seq<char>)
    ensures |b| == 16 && BytesMissing(b, 0) == 0 && Decode(b) == ParseError
  {
    hide LineEnd, ScanHex, HexValue, Decode, Body, BodySize;
    var digits := EightDigits();
    var line := digits + [CR, LF];
    var rest := ['0', CR, LF, CR, LF];
    b := line + ['.'] + rest;
    LineEndOf(digits, ['.'] + rest);
    SizeOf(digits, [CR, LF] + (['.'] + rest));
    assert b[0..] == digits + [CR, LF] + (['.'] + rest) == digits + ([CR, LF] + (['.'] + rest));
    LineEndOf(['0'], [CR, LF]);
    ZeroSize();
    assert b[11..] == ['0'] + [CR, LF] + [CR, LF] == ['0'] + [CR, LF, CR, LF];
    assert BytesToNextChunk(b, 0) == 11 && BytesToNextChunk(b, 11) == 0;
    TwoSteps(b, 11);
    CompleteIsDecoded(b);
  }

  lemma TwoSteps(b: seq<char>, skip: nat)
    requires 5 <= |b| && 0 < skip < |b| && BytesToNextChunk(b, 0) == skip && BytesToNextChunk(b, skip) == 0
    ensures BytesMissing(b, 0) == 0
  {
    hide BytesToNextChunk;
    assert ScanFrom(b, skip, -1) == 0;
  }

  lemma ZeroSize()
    ensures ScanHex(['0'] + [CR, LF, CR, LF]) == Some(0)
  {
    hide ScanHex;
    assert ['0'][..0] == [];
    assert HexValue(['0']) == 0;
    SizeOf(['0'], [CR, LF, CR, LF]);
  }
}
