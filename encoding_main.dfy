/**
 * encoding/main.c: `convert_file` checks that the input can be opened and
 * is not empty, opens (and so truncates) the output, selects a table by
 * encoding name, then writes the UTF-8 form of every input byte in order.
 * Bytes below 0x80 are their own code points; higher bytes are looked up.
 */
module EncodingMain {
  import opened Wrappers
  import opened Utf8
  import opened Encodings
  import opened Stdio

  /** The table `convert_file` converts with, chosen by exact name. */
  function SelectTable(pages: CodePages, name: string): (r: Option<Table>)
    ensures name == "CP1251" ==> r == Some(pages.cp1251)
    ensures name == "KOI8-R" ==> r == Some(pages.koi8r)
    ensures name == "ISO-8859-5" ==> r == Some(pages.iso8859_5)
    ensures r.None? <==> name != "CP1251" && name != "KOI8-R" && name != "ISO-8859-5"
  {
    match Parse(name)
    case None => None
    case Some(e) => Some(pages.Of(e))
  }

  /** The code point one input byte stands for. */
  function CodePointOf(table: Table, ch: Byte): (r: CodePoint)
    ensures ch < 0x80 ==> r == ch as CodePoint
    ensures 0x80 <= ch ==> r == table[ch as int - 0x80]
  {
    if ch < 0x80 then ch as CodePoint else table[HighIndex(ch)]
  }

  /** The code points of an input, one per byte, in order. */
  function CodePoints(table: Table, input: seq<Byte>): (r: seq<CodePoint>)
    ensures |r| == |input|
    ensures forall i :: 0 <= i < |input| ==> r[i] == CodePointOf(table, input[i])
  {
    if input == [] then [] else CodePoints(table, input[..|input| - 1]) + [CodePointOf(table, input[|input| - 1])]
  }

  /** What a successful conversion leaves in the output file. */
  function Converted(table: Table, input: seq<Byte>): (r: seq<Byte>)
    ensures |input| <= |r| <= 3 * |input|
  {
    EncodeAll(CodePoints(table, input))
  }

  /** One more input byte adds exactly its own encoding at the end. */
  lemma ConvertedSnoc(table: Table, input: seq<Byte>, ch: Byte)
    ensures Converted(table, input + [ch]) == Converted(table, input) + Encode(CodePointOf(table, ch))
  {
    var cps := CodePoints(table, input + [ch]);
    assert (input + [ch])[..|input|] == input;
    assert cps[..|cps| - 1] == CodePoints(table, input);
  }

  /** A byte below 0x80 is copied through unchanged, whatever the table. */
  lemma AsciiByte(table: Table, ch: Byte)
    requires ch < 0x80
    ensures Converted(table, [ch]) == [ch]
  {
    ConvertedSnoc(table, [], ch);
    assert [] + [ch] == [ch];
    EncodeBitOrder(ch as CodePoint);
  }

  /** A byte of 0x80 or more becomes the UTF-8 form of its table entry at `ch - 0x80`. */
  lemma HighByte(table: Table, ch: Byte)
    requires 0x80 <= ch
    ensures Converted(table, [ch]) == Encode(table[ch as int - 0x80])
  {
    ConvertedSnoc(table, [], ch);
    assert [] + [ch] == [ch];
  }

  /** A pure-ASCII input comes out byte for byte as it went in. */
  lemma {:induction false} AsciiPassThrough(table: Table, input: seq<Byte>)
    requires forall i :: 0 <= i < |input| ==> input[i] < 0x80
    ensures Converted(table, input) == input
    decreases |input|
  {
    if input != [] {
      var init, last := input[..|input| - 1], input[|input| - 1];
      assert input == init + [last];
      AsciiPassThrough(table, init);
      ConvertedSnoc(table, init, last);
      AsciiByte(table, last);
      ConvertedSnoc(table, [], last);
    }
  }

  /**
   * Input byte i owns one contiguous slice of the output, right after the
   * slices of the bytes before it, and that slice is its own encoding.
   */
  lemma ConvertedSlice(table: Table, input: seq<Byte>, i: nat)
    requires i < |input|
    ensures var lo, hi := |Converted(table, input[..i])|, |Converted(table, input[..i + 1])|;
      lo < hi <= |Converted(table, input)| &&
      Converted(table, input)[..lo] == Converted(table, input[..i]) &&
      Converted(table, input)[lo..hi] == Encode(CodePointOf(table, input[i]))
  {
    var cps := CodePoints(table, input);
    EncodeAllSlice(cps, i);
    CodePointsPrefix(table, input, i);
    CodePointsPrefix(table, input, i + 1);
  }

  lemma CodePointsPrefix(table: Table, input: seq<Byte>, n: nat)
    requires n <= |input|
    ensures CodePoints(table, input[..n]) == CodePoints(table, input)[..n]
  {
  }

  /**
   * The output is well-formed UTF-8 that decodes to the input's code points,
   * exactly when no high byte of the input is mapped to a surrogate.
   */
  lemma ConvertedDecodes(table: Table, input: seq<Byte>)
    ensures Decode(Converted(table, input)) ==
      if forall i :: 0 <= i < |input| && 0x80 <= input[i] ==> !IsSurrogate(table[HighIndex(input[i])])
      then Some(Scalars(CodePoints(table, input)))
      else None
  {
    var cps := CodePoints(table, input);
    DecodeEncodeAll(cps);
    if NoSurrogates(cps) {
      forall i | 0 <= i < |input| && 0x80 <= input[i]
        ensures !IsSurrogate(table[HighIndex(input[i])])
      {
        assert cps[i] == table[HighIndex(input[i])];
      }
    } else {
      var k :| 0 <= k < |cps| && IsSurrogate(cps[k]);
      assert 0x80 <= input[k];
    }
  }

  /**
   * Two tables give the same output for an input exactly when they agree on
   * every high byte that occurs in it; in particular pure ASCII converts
   * identically under every encoding.
   */
  lemma EncodingIsolation(t1: Table, t2: Table, input: seq<Byte>)
    ensures Converted(t1, input) == Converted(t2, input) <==>
      forall i :: 0 <= i < |input| && 0x80 <= input[i] ==> t1[HighIndex(input[i])] == t2[HighIndex(input[i])]
  {
    var c1, c2 := CodePoints(t1, input), CodePoints(t2, input);
    if forall i :: 0 <= i < |input| && 0x80 <= input[i] ==> t1[HighIndex(input[i])] == t2[HighIndex(input[i])] {
      assert c1 == c2;
    }
    if Converted(t1, input) == Converted(t2, input) {
      EncodeAllInjective(c1, c2);
      forall i | 0 <= i < |input| && 0x80 <= input[i]
        ensures t1[HighIndex(input[i])] == t2[HighIndex(input[i])]
      {
        assert c1[i] == c2[i];
      }
    }
  }

  /**
   * `convert_file`: every early exit returns 1 and leaves the output as the
   * step before it did; on success the output file holds the conversion of
   * the whole input and the result is 0. All handles are closed on return.
   */
  method ConvertFile(input: InFile, name: string, output: OutFile, pages: CodePages) returns (status: int)
    requires !input.isOpen && !output.isOpen
    modifies input, output
    ensures !input.isOpen && !output.isOpen
    ensures !input.readable ==> status == 1 && output.contents == old(output.contents)
    ensures input.readable && input.data == [] ==> status == 1 && output.contents == old(output.contents)
    ensures input.readable && input.data != [] && !output.writable ==>
      status == 1 && output.contents == old(output.contents)
    ensures input.readable && input.data != [] && output.writable && SelectTable(pages, name).None? ==>
      status == 1 && output.contents == []
    ensures input.readable && input.data != [] && output.writable && SelectTable(pages, name).Some? ==>
      status == 0 && output.contents == Converted(SelectTable(pages, name).value, input.data)
  {
    var inOk := input.Open();
    if !inOk {
      return 1;
    }
    input.SeekEnd();
    var fileSize := input.Tell();
    if fileSize == 0 {
      input.Close();
      return 1;
    }
    input.Rewind();

    var outOk := output.Open();
    if !outOk {
      input.Close();
      return 1;
    }

    var selected := SelectTable(pages, name);
    if selected.None? {
      input.Close();
      output.Close();
      return 1;
    }
    var table := selected.value;

    while true
      invariant input.isOpen && input.Valid() && output.isOpen
      invariant output.contents == Converted(table, input.data[..input.pos])
      decreases |input.data| - input.pos
    {
      ghost var done := input.data[..input.pos];
      var ch := input.Getc();
      if ch.None? {
        break;
      }
      var unicode: CodePoint;
      if ch.value < 0x80 {
        unicode := ch.value as CodePoint;
      } else {
        unicode := table[HighIndex(ch.value)];
      }
      assert unicode == CodePointOf(table, ch.value);
      output.Write(Encode(unicode));
      assert input.data[..input.pos] == done + [ch.value];
      ConvertedSnoc(table, done, ch.value);
    }
    assert input.data[..input.pos] == input.data;

    input.Close();
    output.Close();
    return 0;
  }
}
