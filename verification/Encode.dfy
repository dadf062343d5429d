/** The encoders and decoders of encode.c, on C strings: bytes other than NUL. */
module Encode {
  import opened Text

  ghost predicate CString(s: string) {
    forall i | 0 <= i < |s| :: 0 < s[i] as int < 256
  }

  function HexDigit(n: nat): (c: char)
    requires n < 16
  {
    if n < 10 then (48 + n) as char else (55 + n) as char
  }

  /** '%' and the code of a byte, as in `url_code_map`. */
  function Percent(c: char): string
    requires c as int < 256
  {
    ['%', HexDigit(c as int / 16), HexDigit(c as int % 16)]
  }

  predicate Alphanumeric(c: char) {
    '0' <= c <= '9' || 'A' <= c <= 'Z' || 'a' <= c <= 'z'
  }

  // ----- Replacements: the empty string stands for none ------------------------------

  /** `url_code_map` */
  function UrlCode(c: char): string {
    if Alphanumeric(c) || c in {'*', '-', '.', '@', '_', NUL} || c as int >= 256 then [] else Percent(c)
  }

  /** `allowed_characters` */
  predicate Allowed(c: char) {
    || Alphanumeric(c)
    || c in {'!', '#', '$', '%', '&', '\'', '(', ')', '*', '+', ',', '-', '.', '/'}
    || c in {':', ';', '=', '?', '@', '[', ']', '_', '~'}
  }

  /** What `percent_encode_url` puts in place of a byte. */
  function AllowedCode(c: char): string {
    if Allowed(c) then [] else UrlCode(c)
  }

  /** `html_code_map` */
  function HtmlCode(c: char): string {
    match c
    case '\"' => "&quot;"
    case '&' => "&amp;"
    case '\'' => "&#39;"
    case '<' => "&lt;"
    case '>' => "&gt;"
    case _ => []
  }

  /** What comes out for one byte. */
  function OneOrCode(c: char, code: char -> string): string {
    if code(c) == [] then [c] else code(c)
  }

  function Encoded(s: string, code: char -> string): string {
    if s == [] then [] else OneOrCode(s[0], code) + Encoded(s[1..], code)
  }

  ghost predicate CodesFit(s: string, code: char -> string, factor: nat) {
    factor > 0 && forall i | 0 <= i < |s| :: |code(s[i])| <= factor
  }

  /** What comes out for one byte, copied to a place in the buffer. */
  method Put(buf: array<char>, n: nat, text: string) returns (after: nat)
    requires n + |text| <= buf.Length
    modifies buf
    ensures after == n + |text| && buf[..after] == old(buf[..n]) + text
  {
    forall j | 0 <= j < |text| {
      buf[n + j] := text[j];
    }
    after := n + |text|;
  }

  /** The loop of the three encoders, into a buffer for `factor` times as many bytes and a NUL:
      every write stays within it. */
  method EncodeWith(s: string, code: char -> string, factor: nat) returns (buf: array<char>, n: nat)
    requires CodesFit(s, code, factor)
    ensures fresh(buf) && n < buf.Length == |s| * factor + 1
    ensures buf[..n] == Encoded(s, code) && buf[n] == NUL
  {
    var room := |s| * factor;
    buf := new char[room + 1](_ => NUL);
    n := 0;
    var i := 0;
    ghost var used := 0;
    assert s[i..] == s;
    while i < |s|
      invariant i <= |s| && n <= used == i * factor <= room && buf.Length == room + 1
      invariant Encoded(s, code) == buf[..n] + Encoded(s[i..], code)
    {
      ghost var before := buf[..n];
      var c := s[i];
      Room(i, |s|, factor);
      n := Put(buf, n, OneOrCode(c, code));
      assert s[i..][1..] == s[i + 1..];
      Regroup(before, OneOrCode(c, code), Encoded(s[i + 1..], code));
      used := used + factor;
      i := i + 1;
    }
    buf[n] := NUL;
  }

  lemma Room(i: nat, length: nat, factor: nat)
    requires i < length
    ensures i * factor + factor == (i + 1) * factor <= length * factor
  {
    Spread(i + 1, length - (i + 1), factor);
    Spread(i, 1, factor);
  }

  lemma {:induction false} Spread(x: nat, y: nat, factor: nat)
    ensures x * factor + y * factor == (x + y) * factor && y * factor >= 0
  {}

  /** `url_encode` */
  method UrlEncode(s: string) returns (buf: array<char>, n: nat)
    ensures fresh(buf) && n < buf.Length == 3 * |s| + 1
    ensures buf[..n] == Encoded(s, UrlCode) && buf[n] == NUL
  {
    buf, n := EncodeWith(s, UrlCode, 3);
  }

  /** `percent_encode_url` */
  method PercentEncodeUrl(s: string) returns (buf: array<char>, n: nat)
    ensures fresh(buf) && n < buf.Length == 3 * |s| + 1
    ensures buf[..n] == Encoded(s, AllowedCode) && buf[n] == NUL
  {
    buf, n := EncodeWith(s, AllowedCode, 3);
  }

  /** `html_encode` */
  method HtmlEncode(s: string) returns (buf: array<char>, n: nat)
    ensures fresh(buf) && n < buf.Length == 6 * |s| + 1
    ensures buf[..n] == Encoded(s, HtmlCode) && buf[n] == NUL
  {
    buf, n := EncodeWith(s, HtmlCode, 6);
  }

  // ----- Decoding ---------------------------------------------------------------------------

  /** `xdtoi` */
  function Xdtoi(c: char): (v: int)
    ensures -1 <= v < 16
  {
    if '0' <= c <= '9' then c as int - '0' as int
    else if 'a' <= c <= 'f' then c as int - 'a' as int + 10
    else if 'A' <= c <= 'F' then c as int - 'A' as int + 10
    else -1
  }

  /** `xtoi` on the rest of a string */
  function Xtoi(s: string): (v: nat)
    ensures v < 256 && (v != 0 ==> |s| >= 2)
  {
    if |s| >= 2 && Xdtoi(s[0]) >= 0 && Xdtoi(s[1]) >= 0 then Xdtoi(s[0]) * 16 + Xdtoi(s[1]) else 0
  }

  /** `url_decode` */
  function UrlDecoded(s: string): (r: string)
    ensures |r| <= |s|
  {
    if s == [] then []
    else if s[0] == '+' then [' '] + UrlDecoded(s[1..])
    else if s[0] == '%' && Xtoi(s[1..]) != 0 then [Xtoi(s[1..]) as char] + UrlDecoded(s[3..])
    else [s[0]] + UrlDecoded(s[1..])
  }

  method UrlDecode(s: string) returns (buf: array<char>, n: nat)
    ensures fresh(buf) && n < buf.Length == |s| + 1
    ensures buf[..n] == UrlDecoded(s) && buf[n] == NUL
  {
    hide Xtoi, UrlDecoded;
    buf := new char[|s| + 1](_ => NUL);
    n := 0;
    var i := 0;
    assert s[i..] == s;
    while i < |s|
      invariant n <= i <= |s| && buf.Length == |s| + 1
      invariant UrlDecoded(s) == buf[..n] + UrlDecoded(s[i..])
    {
      ghost var before, rest := buf[..n], s[i..];
      DecodedStep(rest);
      assert rest[1..] == s[i + 1..];
      var code := if s[i] == '%' then Xtoi(s[i + 1..]) else 0;
      var step := 1;
      if s[i] == '+' {
        buf[n] := ' ';
      } else if code != 0 {
        buf[n] := code as char;
        step := 3;
      } else {
        buf[n] := s[i];
      }
      assert rest[step..] == s[i + step..];
      n := n + 1;
      assert buf[..n] == before + [buf[n - 1]];
      Regroup(before, [buf[n - 1]], UrlDecoded(s[i + step..]));
      i := i + step;
    }
    NothingDecoded();
    buf[n] := NUL;
  }

  lemma NothingDecoded()
    ensures UrlDecoded([]) == []
  {}

  lemma CodeIsRead(c: char, rest: string)
    requires 0 < c as int < 256
    ensures (Percent(c) + rest)[0] == '%' && Xtoi((Percent(c) + rest)[1..]) == c as nat
    ensures (Percent(c) + rest)[3..] == rest
  {}

  /** Decoding undoes URL encoding. */
  lemma {:induction false} DecodeUndoesEncode(s: string)
    requires CString(s)
    ensures UrlDecoded(Encoded(s, UrlCode)) == s
  {
    hide Percent, Xtoi;
    if s != [] {
      var c, rest := s[0], Encoded(s[1..], UrlCode);
      DecodeUndoesEncode(s[1..]);
      PercentIsLong(c);
      assert s == [c] + s[1..];
      if UrlCode(c) == [] {
        assert ([c] + rest)[1..] == rest;
      } else {
        CodeIsRead(c, rest);
      }
    }
  }

  /** `url_decode` reads a plus sign as a space, a percent sign with two digits that are not zero as the
      byte they write, and everything else as itself. */
  lemma UrlDecodedByte(c: char, high: nat, low: nat, rest: string)
    requires high < 16 && low < 16
    ensures UrlDecoded(['+'] + rest) == [' '] + UrlDecoded(rest)
    ensures c !in {'+', '%'} ==> UrlDecoded([c] + rest) == [c] + UrlDecoded(rest)
    ensures 16 * high + low != 0 ==>
              UrlDecoded(['%', UPPER_DIGITS[high], UPPER_DIGITS[low]] + rest)
              == UrlDecoded(['%', LOWER_DIGITS[high], LOWER_DIGITS[low]] + rest)
              == [(16 * high + low) as char] + UrlDecoded(rest)
    ensures Xtoi(rest) == 0 ==> UrlDecoded(['%'] + rest) == ['%'] + UrlDecoded(rest)
  {
    hide UrlDecoded, Xtoi;
    DecodedStep(['+'] + rest);
    DecodedStep([c] + rest);
    DecodedStep(['%'] + rest);
    assert (['+'] + rest)[1..] == rest;
    assert ([c] + rest)[1..] == rest;
    assert (['%'] + rest)[1..] == rest;
    DigitsMean(high, low, rest);
    CodeIsDecoded(UPPER_DIGITS[high], UPPER_DIGITS[low], rest);
    CodeIsDecoded(LOWER_DIGITS[high], LOWER_DIGITS[low], rest);
  }

  lemma CodeIsDecoded(x: char, y: char, rest: string)
    ensures Xtoi([x, y] + rest) != 0 ==>
              UrlDecoded(['%', x, y] + rest) == [Xtoi([x, y] + rest) as char] + UrlDecoded(rest)
  {
    hide UrlDecoded, Xtoi;
    DecodedStep(['%', x, y] + rest);
    assert (['%', x, y] + rest)[1..] == [x, y] + rest;
    assert (['%', x, y] + rest)[3..] == rest;
  }

  // ----- What the tables and digits say -----------------------------------------------------

  const LOWER_DIGITS: string := "0123456789abcdef"
  const UPPER_DIGITS: string := "0123456789ABCDEF"

  /** Percent codes have two upper-case digits; both cases are read. */
  lemma DigitsMean(high: nat, low: nat, rest: string)
    requires high < 16 && low < 16
    ensures Percent((16 * high + low) as char) == ['%', UPPER_DIGITS[high], UPPER_DIGITS[low]]
    ensures forall x, y | x in {UPPER_DIGITS[high], LOWER_DIGITS[high]}
                          && y in {UPPER_DIGITS[low], LOWER_DIGITS[low]} ::
              Xtoi([x, y] + rest) == 16 * high + low
  {
    OneDigitMeans(high);
    OneDigitMeans(low);
    assert (16 * high + low) / 16 == high && (16 * high + low) % 16 == low;
  }

  lemma OneDigitMeans(d: nat)
    requires d < 16
    ensures HexDigit(d) == UPPER_DIGITS[d] && Xdtoi(UPPER_DIGITS[d]) == d && Xdtoi(LOWER_DIGITS[d]) == d
  {}

  /** `url_encode` works on one byte after the other: letters, digits and five marks stay as they are, the
      others become their codes. */
  lemma UrlEncodedByte(c: char, rest: string)
    requires 0 < c as int < 256
    ensures var stays := '0' <= c <= '9' || 'A' <= c <= 'Z' || 'a' <= c <= 'z' || c in "*-.@_";
            Encoded([c] + rest, UrlCode) == (if stays then [c] else Percent(c)) + Encoded(rest, UrlCode)
  {
    hide Percent;
    PercentIsLong(c);
    assert ([c] + rest)[1..] == rest;
  }

  /** What a URL may hold: what can be printed, without spaces and nine delimiters. */
  lemma AllowedMeans(c: char)
    ensures Allowed(c) <==> ' ' < c <= '~' && c !in {'"', '<', '>', '\\', '^', '`', '{', '|', '}'}
  {}

  /** `html_encode` works on one byte after the other as well. */
  lemma HtmlEncodedByte(c: char, rest: string)
    ensures Encoded([c] + rest, HtmlCode)
         == (if c == '<' then "&lt;" else if c == '>' then "&gt;" else if c == '&' then "&amp;"
             else if c == '"' then "&quot;" else if c == '\'' then "&#39;" else [c]) + Encoded(rest, HtmlCode)
  {
    assert ([c] + rest)[1..] == rest;
  }

  // ----- URLs ------------------------------------------------------------------------------------

  lemma CodeIsAllowed(c: char)
    requires 0 < c as int < 256
    ensures forall i | 0 <= i < 3 :: Allowed(Percent(c)[i])
    ensures !Allowed(c) ==> UrlCode(c) == Percent(c)
  {}

  ghost predicate AllAllowed(s: string) {
    forall i | 0 <= i < |s| :: Allowed(s[i])
  }

  /** Only allowed characters come out. */
  lemma {:induction false} EncodedIsAllowed(s: string)
    requires CString(s)
    ensures AllAllowed(Encoded(s, AllowedCode))
  {
    hide Allowed, UrlCode, Percent;
    if s != [] {
      CodeIsAllowed(s[0]);
      PercentIsLong(s[0]);
      EncodedIsAllowed(s[1..]);
    }
  }

  /** A URL stays as it is exactly if all its characters are allowed. */
  lemma {:induction false} FixedPoints(s: string)
    requires CString(s)
    ensures Encoded(s, AllowedCode) == s <==> AllAllowed(s)
    ensures |Encoded(s, AllowedCode)| >= |s|
  {
    hide Allowed, UrlCode, Percent;
    if s != [] {
      CodeIsAllowed(s[0]);
      PercentIsLong(s[0]);
      FixedPoints(s[1..]);
      assert AllAllowed(s) <==> Allowed(s[0]) && AllAllowed(s[1..]) by {
        assert forall i | 0 < i < |s| :: s[i] == s[1..][i - 1];
      }
      assert s == [s[0]] + s[1..];
    }
  }

  lemma PercentIsLong(c: char)
    requires c as int < 256
    ensures |Percent(c)| == 3
  {}

  /** `percent_encode_url` changes nothing the second time, and emits allowed characters only. */
  lemma EncodingOnceIsEnough(s: string)
    requires CString(s)
    ensures Encoded(Encoded(s, AllowedCode), AllowedCode) == Encoded(s, AllowedCode)
    ensures AllAllowed(Encoded(s, AllowedCode))
  {
    hide Allowed;
    EncodedIsAllowed(s);
    AllowedIsCString(Encoded(s, AllowedCode));
    FixedPoints(Encoded(s, AllowedCode));
  }

  lemma AllowedIsCString(s: string)
    requires AllAllowed(s)
    ensures CString(s)
  {}

  /** What stands for two digits after a percent sign is the same before and after encoding. */
  lemma CodeStays(t: string)
    requires CString(t)
    ensures Xtoi(Encoded(t, AllowedCode)) == Xtoi(t)
    ensures Xtoi(t) != 0 ==> Encoded(t, AllowedCode) == [t[0], t[1]] + Encoded(t[2..], AllowedCode)
  {
    hide Percent;
    if t != [] {
      HeadOfEncoded(t);
      if |t| >= 2 {
        HeadOfEncoded(t[1..]);
        assert t[1..][1..] == t[2..];
      }
    }
  }

  lemma HeadOfEncoded(t: string)
    requires CString(t) && t != []
    ensures var out := Encoded(t, AllowedCode);
            && out != [] && Xdtoi(out[0]) == Xdtoi(t[0])
            && (Xdtoi(t[0]) >= 0 ==> out == [t[0]] + Encoded(t[1..], AllowedCode))
  {
    PercentIsLong(t[0]);
  }

  lemma DecodedStep(s: string)
    requires s != []
    ensures s[0] == '%' && Xtoi(s[1..]) != 0 ==> UrlDecoded(s) == [Xtoi(s[1..]) as char] + UrlDecoded(s[3..])
    ensures s[0] == '+' ==> UrlDecoded(s) == [' '] + UrlDecoded(s[1..])
    ensures s[0] != '+' && !(s[0] == '%' && Xtoi(s[1..]) != 0) ==> UrlDecoded(s) == [s[0]] + UrlDecoded(s[1..])
  {
    hide Xtoi;
  }

  /** An allowed character comes out as it is. */
  lemma AllowedComesFirst(s: string)
    requires s != [] && Allowed(s[0])
    ensures var out := Encoded(s, AllowedCode);
            out != [] && out[0] == s[0] && out[1..] == Encoded(s[1..], AllowedCode)
  {
    hide Allowed, UrlCode;
  }

  /** Another one comes out as its code, which is read back. */
  lemma OtherIsReadBack(s: string)
    requires CString(s) && s != [] && !Allowed(s[0])
    ensures UrlDecoded(Encoded(s, AllowedCode)) == [s[0]] + UrlDecoded(Encoded(s[1..], AllowedCode))
  {
    hide Allowed, UrlCode, Percent, Xtoi, UrlDecoded;
    CodeIsAllowed(s[0]);
    PercentIsLong(s[0]);
    CodeIsRead(s[0], Encoded(s[1..], AllowedCode));
    DecodedStep(Encoded(s, AllowedCode));
  }

  /** Encoding a URL does not change what it decodes to. */
  lemma {:induction false} EncodingKeepsMeaning(s: string)
    requires CString(s)
    ensures UrlDecoded(Encoded(s, AllowedCode)) == UrlDecoded(s)
    decreases |s|
  {
    hide Allowed, UrlDecoded, Xtoi, Encoded;
    if s == [] {
      NothingEncoded();
    } else {
      var out := Encoded(s, AllowedCode);
      EncodingKeepsMeaning(s[1..]);
      DecodedStep(s);
      if Allowed(s[0]) {
        AllowedComesFirst(s);
        DecodedStep(out);
        CodeStays(s[1..]);
        if s[0] == '%' && Xtoi(s[1..]) != 0 {
          EncodingKeepsMeaning(s[3..]);
          assert s[1..][2..] == s[3..] && out[1..][2..] == out[3..] == Encoded(s[3..], AllowedCode);
        }
      } else {
        OtherIsReadBack(s);
        PlainIsAllowed(s[0]);
      }
    }
  }

  lemma NothingEncoded()
    ensures Encoded([], AllowedCode) == []
  {}

  lemma PlainIsAllowed(c: char)
    requires !Allowed(c)
    ensures c != '+' && c != '%'
  {}

  // ----- HTML ---------------------------------------------------------------------------------------

  predicate StartsWith(s: string, prefix: string) {
    |s| >= |prefix| && forall i | 0 <= i < |prefix| :: s[i] == prefix[i]
  }

  /** The entities of `html_code_map`, read back. */
  function HtmlDecoded(s: string): string {
    if s == [] then []
    else if StartsWith(s, "&quot;") then ['"'] + HtmlDecoded(s[6..])
    else if StartsWith(s, "&amp;") then ['&'] + HtmlDecoded(s[5..])
    else if StartsWith(s, "&#39;") then ['\''] + HtmlDecoded(s[5..])
    else if StartsWith(s, "&lt;") then ['<'] + HtmlDecoded(s[4..])
    else if StartsWith(s, "&gt;") then ['>'] + HtmlDecoded(s[4..])
    else [s[0]] + HtmlDecoded(s[1..])
  }

  lemma OneIsReadBack(c: char, rest: string)
    ensures HtmlDecoded(OneOrCode(c, HtmlCode) + rest) == [c] + HtmlDecoded(rest)
  {
    var code := HtmlCode(c);
    if code == [] {
      assert ([c] + rest)[1..] == rest;
    } else {
      var s := code + rest;
      assert s[|code|..] == rest && s[1] == code[1];
    }
  }

  lemma {:induction false} HtmlIsReadBack(s: string)
    ensures HtmlDecoded(Encoded(s, HtmlCode)) == s
  {
    hide HtmlCode, HtmlDecoded, OneOrCode;
    if s == [] {
      NothingToDecode();
    } else {
      HtmlIsReadBack(s[1..]);
      OneIsReadBack(s[0], Encoded(s[1..], HtmlCode));
    }
  }

  lemma NothingToDecode()
    ensures HtmlDecoded([]) == []
  {}

  /** Encoding for HTML loses nothing, and leaves no character that starts or ends a tag or a quoted value. */
  lemma {:induction false} HtmlIsHarmless(s: string)
    ensures HtmlDecoded(Encoded(s, HtmlCode)) == s
    ensures forall i | 0 <= i < |Encoded(s, HtmlCode)| :: Encoded(s, HtmlCode)[i] !in {'<', '>', '"', '\''}
  {
    hide HtmlDecoded;
    HtmlIsReadBack(s);
    if s != [] {
      HtmlIsHarmless(s[1..]);
    }
  }
}
