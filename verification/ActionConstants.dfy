/** The constants of project.h in their order, next to the names of the actions they stand for. */
module ActionConstants {
  import opened Text
  import opened Bits
  import opened Actions
  import opened ActionTable

  /** The actions with flags, from 0x1 on. */
  function FlagName(bit: nat): string {
    match bit
    case 0 => "block"
    case 1 => "deanimate-gifs"
    case 2 => "downgrade-http-version"
    case 3 => "fast-redirects"
    case 4 => "change-x-forwarded-for"
    case 5 => "hide-from-header"
    case 6 => "hide-referrer"
    case 7 => "hide-user-agent"
    case 8 => "handle-as-image"
    case 9 => "set-image-blocker"
    case 10 => "prevent-compression"
    case 11 => "session-cookies-only"
    case 12 => "crunch-outgoing-cookies"
    case 13 => "crunch-incoming-cookies"
    case 14 => "forward-override"
    case 15 => "handle-as-empty-document"
    case 16 => "limit-connect"
    case 17 => "redirect"
    case 18 => "hide-if-modified-since"
    case 19 => "content-type-overwrite"
    case 20 => "crunch-server-header"
    case 21 => "crunch-client-header"
    case 22 => "force-text-mode"
    case 23 => "crunch-if-none-match"
    case 24 => "hide-content-disposition"
    case 25 => "overwrite-last-modified"
    case 26 => "hide-accept-language"
    case 27 => "limit-cookie-lifetime"
    case 28 => "delay-response"
    case 29 => "https-inspection"
    case _ => "ignore-certificate-errors"
  }

  /** The actions with strings, by string index. */
  function StringName(index: nat): string {
    match index
    case 0 => "deanimate-gifs"
    case 1 => "hide-from-header"
    case 2 => "set-image-blocker"
    case 3 => "hide-referrer"
    case 4 => "hide-user-agent"
    case 5 => "limit-connect"
    case 6 => "crunch-server-header"
    case 7 => "crunch-client-header"
    case 8 => "hide-accept-language"
    case 9 => "content-type-overwrite"
    case 10 => "hide-content-disposition"
    case 11 => "hide-if-modified-since"
    case 12 => "overwrite-last-modified"
    case 13 => "redirect"
    case 14 => "fast-redirects"
    case 15 => "forward-override"
    case 16 => "block"
    case 17 => "change-x-forwarded-for"
    case 18 => "limit-cookie-lifetime"
    case _ => "delay-response"
  }

  /** The actions with lists, by list index. */
  function ListName(index: nat): string {
    match index
    case 0 => "add-header"
    case 1 => "filter"
    case 2 => "server-header-filter"
    case 3 => "client-header-filter"
    case 4 => "client-header-tagger"
    case 5 => "server-header-tagger"
    case 6 => "external-filter"
    case 7 => "suppress-tag"
    case 8 => "client-body-filter"
    case _ => "client-body-tagger"
  }

  /** Each flag belongs to the action of that name. */
  lemma FlagsAreNamed(bit: nat)
    requires bit < BITS
    ensures var d := DefinitionAt(BitPosition(bit)); !d.MultiLine? && d.bit == bit && d.name == FlagName(bit)
  {
    hide FlagName, DefinitionAt, BitPosition, LineOk, StringOf, StringBit;
    if bit < 8 {
      FlagsBelow8(bit);
    } else if bit < 16 {
      FlagsBelow16(bit);
    } else if bit < 24 {
      FlagsBelow24(bit);
    } else {
      FlagsBelow31(bit);
    }
  }

  lemma FlagsBelow8(bit: nat)
    requires bit < 8
    ensures var d := DefinitionAt(BitPosition(bit)); !d.MultiLine? && d.bit == bit && d.name == FlagName(bit)
  {
    hide LineOk, StringOf, StringBit;
  }

  lemma FlagsBelow16(bit: nat)
    requires 8 <= bit < 16
    ensures var d := DefinitionAt(BitPosition(bit)); !d.MultiLine? && d.bit == bit && d.name == FlagName(bit)
  {
    hide LineOk, StringOf, StringBit;
  }

  lemma FlagsBelow24(bit: nat)
    requires 16 <= bit < 24
    ensures var d := DefinitionAt(BitPosition(bit)); !d.MultiLine? && d.bit == bit && d.name == FlagName(bit)
  {
    hide LineOk, StringOf, StringBit;
  }

  lemma FlagsBelow31(bit: nat)
    requires 24 <= bit < 31
    ensures var d := DefinitionAt(BitPosition(bit)); !d.MultiLine? && d.bit == bit && d.name == FlagName(bit)
  {
    hide LineOk, StringOf, StringBit;
  }

  /** Each string belongs to the action of that name. */
  lemma StringsAreNamed(index: nat)
    requires index < STRING_COUNT
    ensures var d := DefinitionAt(BitPosition(StringBit(index)));
            d.StringLine? && d.index == index && d.name == StringName(index)
  {
    hide StringName, DefinitionAt, BitPosition, StringBit, LineOk, StringOf;
    if index < 7 {
      StringsBelow7(index);
    } else if index < 14 {
      StringsBelow14(index);
    } else {
      StringsBelow20(index);
    }
  }

  lemma StringsBelow7(index: nat)
    requires index < 7
    ensures var d := DefinitionAt(BitPosition(StringBit(index)));
            d.StringLine? && d.index == index && d.name == StringName(index)
  {
    hide LineOk, StringOf;
  }

  lemma StringsBelow14(index: nat)
    requires 7 <= index < 14
    ensures var d := DefinitionAt(BitPosition(StringBit(index)));
            d.StringLine? && d.index == index && d.name == StringName(index)
  {
    hide LineOk, StringOf;
  }

  lemma StringsBelow20(index: nat)
    requires 14 <= index < 20
    ensures var d := DefinitionAt(BitPosition(StringBit(index)));
            d.StringLine? && d.index == index && d.name == StringName(index)
  {
    hide LineOk, StringOf;
  }

  /** Each list belongs to the action of that name. */
  lemma ListsAreNamed(index: nat)
    requires index < MULTI_COUNT
    ensures var d := DefinitionAt(MultiPosition(index));
            d.MultiLine? && d.index == index && d.name == ListName(index)
  {
    hide LineOk, StringOf, StringBit;
  }

  /** A line that does the same under another name. */
  ghost predicate SameBut(d: Definition, other: string, e: Definition, name: string) {
    && d.name == other && e.name == name
    && PlusEntry(d).(name := "") == PlusEntry(e).(name := "")
    && MinusEntry(d).(name := "") == MinusEntry(e).(name := "")
  }

  /** The alternative spellings do what the actions do that they stand for. */
  lemma SpellingsMean()
    ensures SameBut(SpellingAt(0), "hide-referer", DefinitionAt(27), "hide-referrer")
    ensures SameBut(SpellingAt(1), "prevent-keeping-cookies", DefinitionAt(38), "session-cookies-only")
    ensures SameBut(SpellingAt(2), "filter-client-headers", DefinitionAt(5), "client-header-filter")
    ensures SameBut(SpellingAt(3), "filter-server-headers", DefinitionAt(36), "server-header-filter")
  {
    hide LineOk, StringOf, StringBit, Flag, Complement;
  }
}
