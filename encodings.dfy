/**
 * The supported source encodings, their command-line names and their
 * conversion tables. The table contents live in header files that are not
 * part of this model, so every table is a parameter: any 128 entries of
 * 16 bits each.
 */
module Encodings {
  import opened Wrappers
  import opened Utf8

  /** A 128-entry conversion table of 16-bit code points. */
  type Table = t: seq<CodePoint> | |t| == 128 witness seq(128, _ => 0)

  /** The three single-byte encodings the converters accept. */
  datatype Encoding = CP1251 | KOI8R | ISO8859_5

  /** The exact name that selects each encoding on the command line. */
  function Name(e: Encoding): string
  {
    match e
    case CP1251 => "CP1251"
    case KOI8R => "KOI8-R"
    case ISO8859_5 => "ISO-8859-5"
  }

  /**
   * The `strcmp` ladder: a name selects an encoding only when it equals
   * that encoding's name exactly (case-sensitive); anything else selects none.
   */
  function Parse(name: string): (r: Option<Encoding>)
    ensures r.Some? ==> Name(r.value) == name
    ensures r.None? ==> forall e: Encoding :: Name(e) != name
  {
    if name == "CP1251" then Some(CP1251)
    else if name == "KOI8-R" then Some(KOI8R)
    else if name == "ISO-8859-5" then Some(ISO8859_5)
    else None
  }

  /** Every encoding is selected by its own name, so the ladder misses none. */
  lemma ParseName(e: Encoding)
    ensures Parse(Name(e)) == Some(e)
  {
  }

  /** The high-half tables (bytes 0x80-0xFF) of the three encodings. */
  datatype CodePages = CodePages(cp1251: Table, koi8r: Table, iso8859_5: Table)
  {
    function Of(e: Encoding): Table
    {
      match e
      case CP1251 => cp1251
      case KOI8R => koi8r
      case ISO8859_5 => iso8859_5
    }
  }

  /** Where a high byte (0x80-0xFF) is looked up: `ch - 0x80`, always within the table. */
  function HighIndex(ch: Byte): (i: nat)
    requires 0x80 <= ch
    ensures i < 128 && i == ch as int - 0x80
  {
    (ch - 0x80) as int
  }
}
