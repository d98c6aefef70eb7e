/**
 * main_only_UTF.c: the second variant of the converter. Every input byte
 * goes through a table, the low half through `ascii_table` and the high half
 * through the table of the selected `Encoding`; `main` opens both files
 * before it checks the encoding name and has no empty-input check.
 */
module MainOnlyUtf {
  import opened Wrappers
  import opened Utf8
  import opened Encodings
  import opened Stdio
  import EncodingMain

  /** `ascii_table` (bytes 0x00-0x7F) and `extended_tables` (bytes 0x80-0xFF, one per encoding). */
  datatype UnicodeTables = UnicodeTables(ascii: Table, extended: CodePages)

  /** `ascii_table[ch]` for a low byte. */
  function AsciiEntry(tables: UnicodeTables, ch: Byte): CodePoint
    requires ch < 0x80
  {
    tables.ascii[ch as int]
  }

  /** The code point one input byte stands for under an encoding. */
  function CodePointOf(tables: UnicodeTables, enc: Encoding, ch: Byte): (r: CodePoint)
    ensures ch < 0x80 ==> r == tables.ascii[ch as int]
    ensures 0x80 <= ch ==> r == tables.extended.Of(enc)[ch as int - 0x80]
  {
    if ch < 0x80 then AsciiEntry(tables, ch) else tables.extended.Of(enc)[HighIndex(ch)]
  }

  /** The code points of an input, one per byte, in order. */
  function CodePoints(tables: UnicodeTables, enc: Encoding, input: seq<Byte>): (r: seq<CodePoint>)
    ensures |r| == |input|
    ensures forall i :: 0 <= i < |input| ==> r[i] == CodePointOf(tables, enc, input[i])
  {
    if input == [] then []
    else CodePoints(tables, enc, input[..|input| - 1]) + [CodePointOf(tables, enc, input[|input| - 1])]
  }

  /** What `convert_to_utf8` appends to the output for an input. */
  function Converted(tables: UnicodeTables, enc: Encoding, input: seq<Byte>): (r: seq<Byte>)
    ensures |input| <= |r| <= 3 * |input|
    ensures input == [] ==> r == []
  {
    EncodeAll(CodePoints(tables, enc, input))
  }

  /** One more input byte adds exactly its own encoding at the end. */
  lemma ConvertedSnoc(tables: UnicodeTables, enc: Encoding, input: seq<Byte>, ch: Byte)
    ensures Converted(tables, enc, input + [ch]) == Converted(tables, enc, input) + Encode(CodePointOf(tables, enc, ch))
  {
    var cps := CodePoints(tables, enc, input + [ch]);
    assert (input + [ch])[..|input|] == input;
    assert cps[..|cps| - 1] == CodePoints(tables, enc, input);
  }

  /** The loop's step: reading the byte at `pos` extends the written output by its encoding. */
  lemma ConvertedStep(tables: UnicodeTables, enc: Encoding, written: seq<Byte>, data: seq<Byte>, start: nat, pos: nat)
    requires start <= pos < |data|
    ensures written + Converted(tables, enc, data[start..pos + 1]) ==
      (written + Converted(tables, enc, data[start..pos])) + Encode(CodePointOf(tables, enc, data[pos]))
  {
    assert data[start..pos + 1] == data[start..pos] + [data[pos]];
    ConvertedSnoc(tables, enc, data[start..pos], data[pos]);
  }

  /** A byte below 0x80 is written as the encoding of its `ascii_table` entry, whatever the encoding. */
  lemma AsciiFromTable(tables: UnicodeTables, enc: Encoding, ch: Byte)
    requires ch < 0x80
    ensures Converted(tables, enc, [ch]) == Encode(tables.ascii[ch as int])
  {
    ConvertedSnoc(tables, enc, [], ch);
    assert [] + [ch] == [ch];
  }

  /** A byte of 0x80 or more is written as the encoding of `extended_tables[enc][ch - 0x80]`. */
  lemma HighFromExtended(tables: UnicodeTables, enc: Encoding, ch: Byte)
    requires 0x80 <= ch
    ensures Converted(tables, enc, [ch]) == Encode(tables.extended.Of(enc)[ch as int - 0x80])
  {
    ConvertedSnoc(tables, enc, [], ch);
    assert [] + [ch] == [ch];
  }

  /**
   * Input byte i owns one contiguous slice of the output, right after the
   * slices of the bytes before it, and that slice is its own encoding.
   */
  lemma ConvertedSlice(tables: UnicodeTables, enc: Encoding, input: seq<Byte>, i: nat)
    requires i < |input|
    ensures var lo, hi := |Converted(tables, enc, input[..i])|, |Converted(tables, enc, input[..i + 1])|;
      lo < hi <= |Converted(tables, enc, input)| &&
      Converted(tables, enc, input)[..lo] == Converted(tables, enc, input[..i]) &&
      Converted(tables, enc, input)[lo..hi] == Encode(CodePointOf(tables, enc, input[i]))
  {
    var cps := CodePoints(tables, enc, input);
    EncodeAllSlice(cps, i);
    assert CodePoints(tables, enc, input[..i]) == cps[..i];
    assert CodePoints(tables, enc, input[..i + 1]) == cps[..i + 1];
  }

  /**
   * The output is well-formed UTF-8 that decodes to the input's code points,
   * exactly when no byte of the input is mapped to a surrogate.
   */
  lemma ConvertedDecodes(tables: UnicodeTables, enc: Encoding, input: seq<Byte>)
    ensures Decode(Converted(tables, enc, input)) ==
      if forall i :: 0 <= i < |input| ==> !IsSurrogate(CodePointOf(tables, enc, input[i]))
      then Some(Scalars(CodePoints(tables, enc, input)))
      else None
  {
    var cps := CodePoints(tables, enc, input);
    DecodeEncodeAll(cps);
    assert NoSurrogates(cps) <==> forall i :: 0 <= i < |input| ==> !IsSurrogate(CodePointOf(tables, enc, input[i]));
  }

  /**
   * Two encodings give the same output for an input exactly when their
   * tables agree on every high byte that occurs in it; in particular pure
   * ASCII converts identically under every encoding.
   */
  lemma EncodingIsolation(tables: UnicodeTables, e1: Encoding, e2: Encoding, input: seq<Byte>)
    ensures Converted(tables, e1, input) == Converted(tables, e2, input) <==>
      forall i :: 0 <= i < |input| && 0x80 <= input[i] ==>
        tables.extended.Of(e1)[HighIndex(input[i])] == tables.extended.Of(e2)[HighIndex(input[i])]
  {
    var c1, c2 := CodePoints(tables, e1, input), CodePoints(tables, e2, input);
    if forall i :: 0 <= i < |input| && 0x80 <= input[i] ==>
        tables.extended.Of(e1)[HighIndex(input[i])] == tables.extended.Of(e2)[HighIndex(input[i])] {
      assert c1 == c2;
    }
    if Converted(tables, e1, input) == Converted(tables, e2, input) {
      EncodeAllInjective(c1, c2);
      forall i | 0 <= i < |input| && 0x80 <= input[i]
        ensures tables.extended.Of(e1)[HighIndex(input[i])] == tables.extended.Of(e2)[HighIndex(input[i])]
      {
        assert c1[i] == c2[i];
      }
    }
  }

  /**
   * The two variants agree exactly where their code differs: when
   * `ascii_table` maps every low byte to itself, this variant writes what
   * encoding/main.c writes with the same high-half table.
   */
  lemma AgreesWithEncodingMain(tables: UnicodeTables, enc: Encoding, input: seq<Byte>)
    requires forall ch: Byte :: ch < 0x80 ==> AsciiEntry(tables, ch) == ch as CodePoint
    ensures Converted(tables, enc, input) == EncodingMain.Converted(tables.extended.Of(enc), input)
  {
    var c1, c2 := CodePoints(tables, enc, input), EncodingMain.CodePoints(tables.extended.Of(enc), input);
    forall i | 0 <= i < |input| ensures c1[i] == c2[i] {
      if input[i] < 0x80 {
        assert AsciiEntry(tables, input[i]) == input[i] as CodePoint;
      }
    }
    assert c1 == c2;
  }

  /** `write_utf8`: the `fputc` calls for one code point append exactly its UTF-8 form. */
  method WriteUtf8(out: OutFile, unicode: CodePoint)
    requires out.isOpen
    modifies out
    ensures out.isOpen && out.contents == old(out.contents) + Encode(unicode)
  {
    if unicode < 0x80 {
      out.Putc(UnsignedChar(unicode));
    } else if unicode < 0x800 {
      out.Putc(UnsignedChar(0xC0 | (unicode >> 6)));
      out.Putc(UnsignedChar(0x80 | (unicode & 0x3F)));
    } else {
      out.Putc(UnsignedChar(0xE0 | (unicode >> 12)));
      out.Putc(UnsignedChar(0x80 | ((unicode >> 6) & 0x3F)));
      out.Putc(UnsignedChar(0x80 | (unicode & 0x3F)));
    }
  }

  /**
   * `convert_to_utf8`: reads the input to its end and appends, in order,
   * the UTF-8 form of each byte's code point, and nothing else.
   */
  method ConvertToUtf8(input: InFile, output: OutFile, enc: Encoding, tables: UnicodeTables)
    requires input.isOpen && input.Valid() && output.isOpen
    modifies input, output
    ensures input.isOpen && input.Valid() && output.isOpen && input.pos == |input.data|
    ensures output.contents == old(output.contents) + Converted(tables, enc, input.data[old(input.pos)..])
  {
    ghost var start, written := input.pos, output.contents;
    while true
      invariant input.isOpen && input.Valid() && output.isOpen
      invariant start <= input.pos
      invariant output.contents == written + Converted(tables, enc, input.data[start..input.pos])
      decreases |input.data| - input.pos
    {
      ghost var p, before := input.pos, output.contents;
      var ch := input.Getc();
      if ch.None? {
        break;
      }
      ConvertedStep(tables, enc, written, input.data, start, p);
      if ch.value < 0x80 {
        WriteUtf8(output, tables.ascii[ch.value as int]);
      } else {
        WriteUtf8(output, tables.extended.Of(enc)[HighIndex(ch.value)]);
      }
      assert output.contents == before + Encode(CodePointOf(tables, enc, ch.value));
    }
    assert input.data[start..input.pos] == input.data[start..];
  }

  /**
   * `main` after its argument count check: every early exit returns 1; the
   * output is truncated before the encoding name is checked; on success the
   * output holds the conversion of the whole input (nothing for an empty
   * input) and the result is 0. All handles are closed on return.
   */
  method Run(input: InFile, name: string, output: OutFile, tables: UnicodeTables) returns (status: int)
    requires !input.isOpen && !output.isOpen
    modifies input, output
    ensures !input.isOpen && !output.isOpen
    ensures !input.readable ==> status == 1 && output.contents == old(output.contents)
    ensures input.readable && !output.writable ==> status == 1 && output.contents == old(output.contents)
    ensures input.readable && output.writable && Parse(name).None? ==> status == 1 && output.contents == []
    ensures input.readable && output.writable && Parse(name).Some? ==>
      status == 0 && output.contents == Converted(tables, Parse(name).value, input.data)
    ensures input.readable && output.writable && Parse(name).Some? && input.data == [] ==>
      status == 0 && output.contents == []
  {
    var inOk := input.Open();
    if !inOk {
      return 1;
    }

    var outOk := output.Open();
    if !outOk {
      input.Close();
      return 1;
    }

    var encoding := Parse(name);
    if encoding.None? {
      input.Close();
      output.Close();
      return 1;
    }

    ConvertToUtf8(input, output, encoding.value, tables);
    assert input.data[0..] == input.data;

    input.Close();
    output.Close();
    return 0;
  }
}
