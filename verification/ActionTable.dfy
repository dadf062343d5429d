/** The table of known actions: actionlist.h expanded the way actions.c does,
    with every optional feature compiled in. */
module ActionTable {
  import opened Text
  import opened Bits
  import opened Actions

  /** `enum action_value_type` */
  datatype ValueType = NoValue | AddString | RemString | AddMulti | RemMulti

  /** `struct action_name` */
  datatype ActionName = ActionName(name: string, mask: bv31, add: bv31, valueType: ValueType, index: nat)

  /** A line of actionlist.h: the flag is given by its bit number, the index says which string or list it uses. */
  datatype Line =
    | BoolLine(name: string, bit: nat)
    | StringLine(name: string, bit: nat, index: nat)
    | MultiLine(name: string, index: nat)

  /** The index of the string that a bit enables, if there is one. */
  function StringOf(bit: nat): Option<nat> {
    match bit
    case 0 => Some(16)
    case 1 => Some(0)
    case 3 => Some(14)
    case 4 => Some(17)
    case 5 => Some(1)
    case 6 => Some(3)
    case 7 => Some(4)
    case 9 => Some(2)
    case 14 => Some(15)
    case 16 => Some(5)
    case 17 => Some(13)
    case 18 => Some(11)
    case 19 => Some(9)
    case 20 => Some(6)
    case 21 => Some(7)
    case 24 => Some(10)
    case 25 => Some(12)
    case 26 => Some(8)
    case 27 => Some(18)
    case 28 => Some(19)
    case _ => None
  }

  /** The bit that enables a string. */
  function StringBit(index: nat): (bit: nat)
    requires index < STRING_COUNT
    ensures bit < BITS && StringOf(bit) == Some(index)
  {
    match index
    case 0 => 1
    case 1 => 5
    case 2 => 9
    case 3 => 6
    case 4 => 7
    case 5 => 16
    case 6 => 20
    case 7 => 21
    case 8 => 26
    case 9 => 19
    case 10 => 24
    case 11 => 18
    case 12 => 25
    case 13 => 17
    case 14 => 3
    case 15 => 14
    case 16 => 0
    case 17 => 4
    case 18 => 27
    case _ => 28
  }

  lemma StringBitIsInverse(bit: nat)
    requires StringOf(bit).Some?
    ensures StringOf(bit).value < STRING_COUNT && StringBit(StringOf(bit).value) == bit
  {}

  /** Bits and indexes are in range, and every string has one bit of its own. */
  predicate LineOk(line: Line) {
    match line
    case BoolLine(_, bit) => bit < BITS && StringOf(bit) == None
    case StringLine(_, bit, index) => bit < BITS && StringOf(bit) == Some(index)
    case MultiLine(_, index) => index < MULTI_COUNT
  }

  type Definition = line: Line | LineOk(line) witness MultiLine("filter", 1)

  /** The two entries that the DEFINE_ACTION macros make of a line. */
  function PlusEntry(d: Definition): ActionName {
    match d
    case BoolLine(name, bit) => ActionName("+" + name, MASK_ALL, Flag(bit), NoValue, 0)
    case StringLine(name, bit, index) => ActionName("+" + name, MASK_ALL, Flag(bit), AddString, index)
    case MultiLine(name, index) => ActionName("+" + name, MASK_ALL, 0, AddMulti, index)
  }

  function MinusEntry(d: Definition): ActionName {
    match d
    case BoolLine(name, bit) => ActionName("-" + name, Complement(Flag(bit)), 0, NoValue, 0)
    case StringLine(name, bit, index) => ActionName("-" + name, Complement(Flag(bit)), 0, RemString, index)
    case MultiLine(name, index) => ActionName("-" + name, MASK_ALL, 0, RemMulti, index)
  }

  // The lines of actionlist.h in order.

  const DEFINITION_COUNT: nat := 41

  function LinesFrom0(i: nat): Definition
    requires 0 <= i < 6
  {
    match i
    case 0 => MultiLine("add-header", 0)
    case 1 => StringLine("block", 0, 16)
    case 2 => StringLine("change-x-forwarded-for", 4, 17)
    case 3 => MultiLine("client-body-filter", 8)
    case 4 => MultiLine("client-body-tagger", 9)
    case _ => MultiLine("client-header-filter", 3)
  }

  function LinesFrom6(i: nat): Definition
    requires 6 <= i < 12
  {
    match i
    case 6 => MultiLine("client-header-tagger", 4)
    case 7 => StringLine("content-type-overwrite", 19, 9)
    case 8 => StringLine("crunch-client-header", 21, 7)
    case 9 => BoolLine("crunch-if-none-match", 23)
    case 10 => BoolLine("crunch-incoming-cookies", 13)
    case _ => BoolLine("crunch-outgoing-cookies", 12)
  }

  function LinesFrom12(i: nat): Definition
    requires 12 <= i < 18
  {
    match i
    case 12 => StringLine("crunch-server-header", 20, 6)
    case 13 => StringLine("deanimate-gifs", 1, 0)
    case 14 => StringLine("delay-response", 28, 19)
    case 15 => BoolLine("downgrade-http-version", 2)
    case 16 => MultiLine("external-filter", 6)
    case _ => StringLine("fast-redirects", 3, 14)
  }

  function LinesFrom18(i: nat): Definition
    requires 18 <= i < 24
  {
    match i
    case 18 => MultiLine("filter", 1)
    case 19 => BoolLine("force-text-mode", 22)
    case 20 => StringLine("forward-override", 14, 15)
    case 21 => BoolLine("handle-as-empty-document", 15)
    case 22 => BoolLine("handle-as-image", 8)
    case _ => StringLine("hide-accept-language", 26, 8)
  }

  function LinesFrom24(i: nat): Definition
    requires 24 <= i < 30
  {
    match i
    case 24 => StringLine("hide-content-disposition", 24, 10)
    case 25 => StringLine("hide-from-header", 5, 1)
    case 26 => StringLine("hide-if-modified-since", 18, 11)
    case 27 => StringLine("hide-referrer", 6, 3)
    case 28 => StringLine("hide-user-agent", 7, 4)
    case _ => BoolLine("https-inspection", 29)
  }

  function LinesFrom30(i: nat): Definition
    requires 30 <= i < 36
  {
    match i
    case 30 => BoolLine("ignore-certificate-errors", 30)
    case 31 => StringLine("limit-connect", 16, 5)
    case 32 => StringLine("limit-cookie-lifetime", 27, 18)
    case 33 => StringLine("overwrite-last-modified", 25, 12)
    case 34 => BoolLine("prevent-compression", 10)
    case _ => StringLine("redirect", 17, 13)
  }

  function LinesFrom36(i: nat): Definition
    requires 36 <= i < 41
  {
    match i
    case 36 => MultiLine("server-header-filter", 2)
    case 37 => MultiLine("server-header-tagger", 5)
    case 38 => BoolLine("session-cookies-only", 11)
    case 39 => StringLine("set-image-blocker", 9, 2)
    case _ => MultiLine("suppress-tag", 7)
  }

  function DefinitionAt(i: nat): Definition
    requires i < DEFINITION_COUNT
  {
    if i < 6 then LinesFrom0(i)
    else if i < 12 then LinesFrom6(i)
    else if i < 18 then LinesFrom12(i)
    else if i < 24 then LinesFrom18(i)
    else if i < 30 then LinesFrom24(i)
    else if i < 36 then LinesFrom30(i)
    else LinesFrom36(i)
  }

  // Alternative spellings: understood by the parser, never printed.

  const SPELLING_COUNT: nat := 4

  function SpellingAt(i: nat): Definition
    requires i < SPELLING_COUNT
  {
    match i
    case 0 => StringLine("hide-referer", 6, 3)
    case 1 => BoolLine("prevent-keeping-cookies", 11)
    case 2 => MultiLine("filter-client-headers", 3)
    case _ => MultiLine("filter-server-headers", 2)
  }

  /** Tells the names apart by their lengths and a few characters. */
  function Position(name: string): nat {
    if |name| == 5 then 1 else
    if |name| == 6 then 18 else
    if |name| == 8 then 35 else
    if |name| == 10 then 0 else
    if |name| == 12 then 40 else
    if |name| == 13 then if Lower(name[0]) == 'h' then 27 else 31 else
    if |name| == 14 then if Lower(name[2]) == 'a' then 13 else if Lower(name[2]) == 'l' then 14 else 17 else
    if |name| == 15 then
      if Lower(name[1]) == 'a' then 22
      else if Lower(name[1]) == 'i' then 28
      else if Lower(name[1]) == 'o' then 19
      else 16 else
    if |name| == 16 then if Lower(name[1]) == 'i' then 25 else if Lower(name[1]) == 'o' then 20 else 29 else
    if |name| == 17 then 39 else
    if |name| == 18 then if Lower(name[12]) == 'f' then 3 else 4 else
    if |name| == 19 then 34 else
    if |name| == 20 then
      if Lower(name[9]) == '-' then 9
      else if Lower(name[9]) == 'a' then
        if Lower(name[0]) == 'c' then if Lower(name[14]) == 'f' then 5 else 6
        else if Lower(name[14]) == 'f' then 36 else 37
      else if Lower(name[9]) == 'i' then 8
      else if Lower(name[9]) == 'o' then 38
      else if Lower(name[9]) == 'p' then 23
      else 12 else
    if |name| == 21 then 32 else
    if |name| == 22 then
      if Lower(name[2]) == 'a' then 2
      else if Lower(name[2]) == 'd' then 26
      else if Lower(name[2]) == 'n' then 7
      else 15 else
    if |name| == 23 then if Lower(name[7]) == 'i' then 10 else if Lower(name[7]) == 'o' then 11 else 33 else
    if |name| == 24 then if Lower(name[1]) == 'a' then 21 else 24 else
    if |name| == 25 then 30 else
    41
  }

  lemma PositionIgnoresCase(a: string, b: string)
    requires EqualsIgnoreCase(a, b)
    ensures Position(a) == Position(b)
  {}

  /** Names consist of lower-case letters and hyphens. */
  predicate PlainName(name: string) {
    name != "" && forall i | 0 <= i < |name| :: 'a' <= name[i] <= 'z' || name[i] == '-'
  }

  /** The only line that uses a given list. */
  function MultiPosition(index: nat): nat {
    match index
    case 0 => 0
    case 1 => 18
    case 2 => 36
    case 3 => 5
    case 4 => 6
    case 5 => 37
    case 6 => 16
    case 7 => 40
    case 8 => 3
    case _ => 4
  }

  /** The only line that uses a given flag. */
  function BitPosition(bit: nat): nat {
    match bit
    case 0 => 1
    case 1 => 13
    case 2 => 15
    case 3 => 17
    case 4 => 2
    case 5 => 25
    case 6 => 27
    case 7 => 28
    case 8 => 22
    case 9 => 39
    case 10 => 34
    case 11 => 38
    case 12 => 11
    case 13 => 10
    case 14 => 20
    case 15 => 21
    case 16 => 31
    case 17 => 35
    case 18 => 26
    case 19 => 7
    case 20 => 12
    case 21 => 8
    case 22 => 19
    case 23 => 9
    case 24 => 24
    case 25 => 33
    case 26 => 23
    case 27 => 32
    case 28 => 14
    case 29 => 29
    case _ => 30
  }

  lemma AboutLinesFrom0(i: nat)
    requires 0 <= i < 6
    ensures Position(LinesFrom0(i).name) == i
    ensures !LinesFrom0(i).MultiLine? ==> BitPosition(LinesFrom0(i).bit) == i
    ensures LinesFrom0(i).MultiLine? ==> MultiPosition(LinesFrom0(i).index) == i
  {
    hide LineOk, StringOf, StringBit;
  }

  lemma PlainLinesFrom0(i: nat)
    requires 0 <= i < 3
    ensures PlainName(LinesFrom0(i).name)
  {
    hide LineOk, StringOf, StringBit;
  }

  lemma PlainLinesFrom3(i: nat)
    requires 3 <= i < 6
    ensures PlainName(LinesFrom0(i).name)
  {
    hide LineOk, StringOf, StringBit;
  }

  lemma NamesFrom6(i: nat)
    requires 6 <= i < 9
    ensures Position(LinesFrom6(i).name) == i
  {
    hide LineOk, StringOf, StringBit, BitPosition, MultiPosition;
  }

  lemma NamesFrom9(i: nat)
    requires 9 <= i < 12
    ensures Position(LinesFrom6(i).name) == i
  {
    hide LineOk, StringOf, StringBit, BitPosition, MultiPosition;
  }

  lemma AboutLinesFrom6(i: nat)
    requires 6 <= i < 12
    ensures Position(LinesFrom6(i).name) == i
    ensures !LinesFrom6(i).MultiLine? ==> BitPosition(LinesFrom6(i).bit) == i
    ensures LinesFrom6(i).MultiLine? ==> MultiPosition(LinesFrom6(i).index) == i
  {
    hide LineOk, StringOf, StringBit, Position;
    if i < 9 {
      NamesFrom6(i);
    } else {
      NamesFrom9(i);
    }
  }

  lemma PlainLinesFrom6(i: nat)
    requires 6 <= i < 9
    ensures PlainName(LinesFrom6(i).name)
  {
    hide LineOk, StringOf, StringBit;
  }

  lemma PlainLine9()
    ensures PlainName(LinesFrom6(9).name)
  {
    hide LineOk, StringOf, StringBit;
  }

  lemma PlainLine10()
    ensures PlainName(LinesFrom6(10).name)
  {
    hide LineOk, StringOf, StringBit;
  }

  lemma PlainLine11()
    ensures PlainName(LinesFrom6(11).name)
  {
    hide LineOk, StringOf, StringBit;
  }

  lemma PlainLinesFrom9(i: nat)
    requires 9 <= i < 12
    ensures PlainName(LinesFrom6(i).name)
  {
    hide LinesFrom6, PlainName;
    if i == 9 {
      PlainLine9();
    } else if i == 10 {
      PlainLine10();
    } else {
      PlainLine11();
    }
  }

  lemma AboutLinesFrom12(i: nat)
    requires 12 <= i < 18
    ensures Position(LinesFrom12(i).name) == i
    ensures !LinesFrom12(i).MultiLine? ==> BitPosition(LinesFrom12(i).bit) == i
    ensures LinesFrom12(i).MultiLine? ==> MultiPosition(LinesFrom12(i).index) == i
  {
    hide LineOk, StringOf, StringBit;
  }

  lemma PlainLinesFrom12(i: nat)
    requires 12 <= i < 15
    ensures PlainName(LinesFrom12(i).name)
  {
    hide LineOk, StringOf, StringBit;
  }

  lemma PlainLine15()
    ensures PlainName(LinesFrom12(15).name)
  {
    hide LineOk, StringOf, StringBit;
  }

  lemma PlainLine16()
    ensures PlainName(LinesFrom12(16).name)
  {
    hide LineOk, StringOf, StringBit;
  }

  lemma PlainLine17()
    ensures PlainName(LinesFrom12(17).name)
  {
    hide LineOk, StringOf, StringBit;
  }

  lemma PlainLinesFrom15(i: nat)
    requires 15 <= i < 18
    ensures PlainName(LinesFrom12(i).name)
  {
    hide LinesFrom12, PlainName;
    if i == 15 {
      PlainLine15();
    } else if i == 16 {
      PlainLine16();
    } else {
      PlainLine17();
    }
  }

  lemma AboutLinesFrom18(i: nat)
    requires 18 <= i < 24
    ensures Position(LinesFrom18(i).name) == i
    ensures !LinesFrom18(i).MultiLine? ==> BitPosition(LinesFrom18(i).bit) == i
    ensures LinesFrom18(i).MultiLine? ==> MultiPosition(LinesFrom18(i).index) == i
  {
    hide LineOk, StringOf, StringBit;
  }

  lemma PlainLinesFrom18(i: nat)
    requires 18 <= i < 21
    ensures PlainName(LinesFrom18(i).name)
  {
    hide LineOk, StringOf, StringBit;
  }

  lemma PlainLinesFrom21(i: nat)
    requires 21 <= i < 24
    ensures PlainName(LinesFrom18(i).name)
  {
    hide LineOk, StringOf, StringBit;
  }

  lemma AboutLinesFrom24(i: nat)
    requires 24 <= i < 30
    ensures Position(LinesFrom24(i).name) == i
    ensures !LinesFrom24(i).MultiLine? ==> BitPosition(LinesFrom24(i).bit) == i
    ensures LinesFrom24(i).MultiLine? ==> MultiPosition(LinesFrom24(i).index) == i
  {
    hide LineOk, StringOf, StringBit;
  }

  lemma PlainLinesFrom24(i: nat)
    requires 24 <= i < 27
    ensures PlainName(LinesFrom24(i).name)
  {
    hide LineOk, StringOf, StringBit;
  }

  lemma PlainLinesFrom27(i: nat)
    requires 27 <= i < 30
    ensures PlainName(LinesFrom24(i).name)
  {
    hide LineOk, StringOf, StringBit;
  }

  lemma AboutLinesFrom30(i: nat)
    requires 30 <= i < 36
    ensures Position(LinesFrom30(i).name) == i
    ensures !LinesFrom30(i).MultiLine? ==> BitPosition(LinesFrom30(i).bit) == i
    ensures LinesFrom30(i).MultiLine? ==> MultiPosition(LinesFrom30(i).index) == i
  {
    hide LineOk, StringOf, StringBit;
  }

  lemma PlainLine30()
    ensures PlainName(LinesFrom30(30).name)
  {
    hide LineOk, StringOf, StringBit;
  }

  lemma PlainLine31()
    ensures PlainName(LinesFrom30(31).name)
  {
    hide LineOk, StringOf, StringBit;
  }

  lemma PlainLine32()
    ensures PlainName(LinesFrom30(32).name)
  {
    hide LineOk, StringOf, StringBit;
  }

  lemma PlainLinesFrom30(i: nat)
    requires 30 <= i < 33
    ensures PlainName(LinesFrom30(i).name)
  {
    hide LinesFrom30, PlainName;
    if i == 30 {
      PlainLine30();
    } else if i == 31 {
      PlainLine31();
    } else {
      PlainLine32();
    }
  }

  lemma PlainLinesFrom33(i: nat)
    requires 33 <= i < 36
    ensures PlainName(LinesFrom30(i).name)
  {
    hide LineOk, StringOf, StringBit;
  }

  lemma AboutLinesFrom36(i: nat)
    requires 36 <= i < 41
    ensures Position(LinesFrom36(i).name) == i
    ensures !LinesFrom36(i).MultiLine? ==> BitPosition(LinesFrom36(i).bit) == i
    ensures LinesFrom36(i).MultiLine? ==> MultiPosition(LinesFrom36(i).index) == i
  {
    hide LineOk, StringOf, StringBit;
  }

  lemma PlainLinesFrom36(i: nat)
    requires 36 <= i < 39
    ensures PlainName(LinesFrom36(i).name)
  {
    hide LineOk, StringOf, StringBit;
  }

  lemma PlainLinesFrom39(i: nat)
    requires 39 <= i < 41
    ensures PlainName(LinesFrom36(i).name)
  {
    hide LineOk, StringOf, StringBit;
  }

  lemma BitPositionIsInverse(bit: nat)
    requires bit < BITS
    ensures BitPosition(bit) < DEFINITION_COUNT
    ensures !DefinitionAt(BitPosition(bit)).MultiLine? && DefinitionAt(BitPosition(bit)).bit == bit
  {
    hide LineOk, StringOf, StringBit;
  }

  lemma MultiPositionIsInverse(index: nat)
    requires index < MULTI_COUNT
    ensures MultiPosition(index) < DEFINITION_COUNT
    ensures DefinitionAt(MultiPosition(index)).MultiLine? && DefinitionAt(MultiPosition(index)).index == index
  {
    hide LineOk, StringOf, StringBit;
  }

  lemma AboutTheLine(i: nat)
    requires i < DEFINITION_COUNT
    ensures Position(DefinitionAt(i).name) == i
    ensures !DefinitionAt(i).MultiLine? ==> BitPosition(DefinitionAt(i).bit) == i
    ensures DefinitionAt(i).MultiLine? ==> MultiPosition(DefinitionAt(i).index) == i
    ensures PlainName(DefinitionAt(i).name)
  {
    hide Position, BitPosition, MultiPosition, PlainName, LinesFrom0, LinesFrom6, LinesFrom12, LinesFrom18;
    hide LinesFrom24, LinesFrom30, LinesFrom36;
    if i < 6 {
      AboutLinesFrom0(i);
      if i < 3 {
        PlainLinesFrom0(i);
      } else {
        PlainLinesFrom3(i);
      }
    } else if i < 12 {
      AboutLinesFrom6(i);
      if i < 9 {
        PlainLinesFrom6(i);
      } else {
        PlainLinesFrom9(i);
      }
    } else if i < 18 {
      AboutLinesFrom12(i);
      if i < 15 {
        PlainLinesFrom12(i);
      } else {
        PlainLinesFrom15(i);
      }
    } else if i < 24 {
      AboutLinesFrom18(i);
      if i < 21 {
        PlainLinesFrom18(i);
      } else {
        PlainLinesFrom21(i);
      }
    } else if i < 30 {
      AboutLinesFrom24(i);
      if i < 27 {
        PlainLinesFrom24(i);
      } else {
        PlainLinesFrom27(i);
      }
    } else if i < 36 {
      AboutLinesFrom30(i);
      if i < 33 {
        PlainLinesFrom30(i);
      } else {
        PlainLinesFrom33(i);
      }
    } else {
      AboutLinesFrom36(i);
      if i < 39 {
        PlainLinesFrom36(i);
      } else {
        PlainLinesFrom39(i);
      }
    }
  }

  /** No two lines name the same action, whatever the case. */
  lemma NamesDiffer(i: nat, j: nat)
    requires i < j < DEFINITION_COUNT
    ensures !EqualsIgnoreCase(DefinitionAt(i).name, DefinitionAt(j).name)
  {
    hide Position, DefinitionAt;
    AboutTheLine(i);
    AboutTheLine(j);
    if EqualsIgnoreCase(DefinitionAt(i).name, DefinitionAt(j).name) {
      PositionIgnoresCase(DefinitionAt(i).name, DefinitionAt(j).name);
    }
  }
}
