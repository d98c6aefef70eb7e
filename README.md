# Legacy Cyrillic code pages to UTF-8

This project models the converter of the `practice` repository. The
converter reads a file in one of three single-byte Cyrillic encodings and
writes the same text as UTF-8. The encodings are Windows-1251 (`CP1251`),
KOI8-R (RFC 1489) and ISO/IEC 8859-5 (`ISO-8859-5`). The repository holds
two near-identical variants of the converter:

- `encoding/main.c`. `convert_file` rejects an empty input and picks one of
  three 128-entry tables by the exact encoding name. It passes bytes below
  0x80 through as code points and looks higher bytes up at `table[b - 0x80]`.
  `convert_to_utf8` writes each code point as 1, 2 or 3 UTF-8 bytes.
- `main_only_UTF.c`. `convert_to_utf8` sends every byte through a table:
  `ascii_table[ch]` for the low half and `extended_tables[enc][ch - 0x80]`
  for the high half. `write_utf8` is the same encoder as above. `main` has no
  empty-input check, and it opens both files before it checks the encoding
  name.

The modules are:

- `Utf8` (`utf8.dfy`). The encoder `Encode` works on `bv16` code points,
  which is C's `uint16_t`. It writes bytes through `UnsignedChar`, the
  `unsigned char` conversion that `fputc` applies. The module also holds a
  strict decoder, `DecodeFirst` and `Decode`. The decoder accepts exactly
  the well-formed UTF-8 of section 4 of RFC 3629, 4-byte forms included.
  It is the encoder's independent partner: the round-trip lemmas run the
  encoder's output through it.
- `Stdio` (`stdio.dfy`). It models the stdio calls the converters make.
  `InFile` stands for `fopen "rb"`, `fseek`/`ftell`, `rewind`, `fgetc` and
  `fclose`. `OutFile` stands for `fopen "wb"` (which truncates the file),
  `fputc` and `fclose`.
- `Encodings` (`encodings.dfy`). It holds the encoding names, the `strcmp`
  ladder (`Parse`), and the tables as values of type `Table`. A `Table` is
  any sequence of exactly 128 16-bit entries.
- `EncodingMain` (`encoding_main.dfy`). It models `encoding/main.c`.
- `MainOnlyUtf` (`main_only_utf.dfy`). It models `main_only_UTF.c`. Its
  lemma `AgreesWithEncodingMain` shows that the two variants write the
  same bytes when `ascii_table` maps each low byte to itself.

Each conversion loop is a method over the stream classes. A specification
function (`Converted`) ties the loop to its result: the concatenation of the
per-byte encodings of the input. The lemmas state the promised properties
about that function.

Three behaviours of the code shape the contracts:

- Both variants open, and so truncate, the output before they check the
  encoding name (encoding/main.c:39, main_only_UTF.c:41). An unknown name
  therefore leaves an empty output file (`ConvertFile`, `Run`).
- Neither variant checks table entries for surrogate code points. The
  tables stay arbitrary, and the output is well-formed UTF-8 exactly when
  no byte of the input maps to a surrogate (`ConvertedDecodes`).
- Only encoding/main.c copies bytes below 0x80 unchanged
  (encoding/main.c:63-64, `EncodingMain.AsciiPassThrough`).
  main_only_UTF.c looks them up in `ascii_table` (main_only_UTF.c:21-22).
  There, low bytes convert the same under every encoding
  (`MainOnlyUtf.EncodingIsolation`), and they are copied unchanged only when
  `ascii_table` is the identity (`MainOnlyUtf.AgreesWithEncodingMain`).

## Model

| member | source | states |
|---|---|---|
| `Utf8.Encode` | encoding/main.c:11-22 | exactly 1 byte iff cp < 0x80, 2 iff 0x80 <= cp < 0x800, 3 iff cp >= 0x800; the lead byte lies in 00-7F, C2-DF or E0-EF and alone determines the length; every later byte is a continuation byte 80-BF |
| `Utf8.EncodeBitOrder` | main_only_UTF.c:8-15 | the lead byte carries the top bits and each continuation byte six more, most significant first: reading the payload bits back gives the code point |
| `Utf8.EncodeNotOverlong` | encoding/main.c:17-21 | a three-byte form with lead E0 has a second byte of at least A0, so no overlong form is written |
| `Utf8.DecodeFirstOfEncode` | encoding/main.c:11-22 | a strict RFC 3629 decoder reads back exactly the code point and consumes exactly its bytes, whatever follows; it rejects the bytes exactly when the code point is a surrogate |
| `Utf8.EncodeInjective` | encoding/main.c:11-22 | two code points whose encodings start two byte strings equally are equal, and so are the remainders |
| `Utf8.EncodeAll` | encoding/main.c:60-69 | n code points take between n and 3n bytes |
| `Utf8.EncodeAllAppend` | encoding/main.c:60-69 | encoding distributes over concatenation: nothing is written between or after the characters |
| `Utf8.EncodeAllSlice` | encoding/main.c:60-69 | code point i owns one contiguous slice of the output, right after the slices of the code points before it |
| `Utf8.DecodeEncodeAll` | encoding/main.c:60-69 | decoding the encoding of a code point sequence gives that sequence back, and fails exactly when one of them is a surrogate |
| `Utf8.EncodeAllInjective` | encoding/main.c:60-69 | distinct code point sequences never produce the same bytes |
| `Encodings.Parse` | main_only_UTF.c:48-60 | a name selects an encoding only when it equals that encoding's name exactly; any other name selects none |
| `Encodings.ParseName` | main_only_UTF.c:49-54 | each encoding's own name selects it |
| `Encodings.HighIndex` | encoding/main.c:65-66 | a high byte is looked up at `ch - 0x80`, which always lies in 0..127 |
| `EncodingMain.SelectTable` | encoding/main.c:46-58 | "CP1251", "KOI8-R" and "ISO-8859-5" select the CP1251, KOI8-R and ISO-8859-5 tables; every other name selects none |
| `EncodingMain.CodePointOf` | encoding/main.c:62-67 | a byte below 0x80 stands for itself; any other byte stands for its table entry at `ch - 0x80` |
| `EncodingMain.CodePoints` | encoding/main.c:61-67 | one code point per input byte, in order, each the byte's passthrough or table value |
| `EncodingMain.Converted` | encoding/main.c:60-69 | the output of n input bytes has between n and 3n bytes |
| `EncodingMain.ConvertedSnoc` | encoding/main.c:61-68 | one more input byte appends exactly the encoding of its code point |
| `EncodingMain.AsciiByte` | encoding/main.c:63-64 | a byte below 0x80 is written as that same single byte, whatever the table |
| `EncodingMain.HighByte` | encoding/main.c:65-66 | a byte of 0x80 or more is written as the encoding of `table[ch - 0x80]` |
| `EncodingMain.AsciiPassThrough` | encoding/main.c:60-69 | a pure-ASCII input is written out unchanged |
| `EncodingMain.ConvertedSlice` | encoding/main.c:60-69 | input byte i owns one contiguous, order-preserving slice of the output, and that slice is the encoding of its code point |
| `EncodingMain.ConvertedDecodes` | encoding/main.c:60-69 | the output decodes to the input's code points, and is well-formed UTF-8 exactly when no high byte of the input maps to a surrogate |
| `EncodingMain.EncodingIsolation` | encoding/main.c:46-69 | two tables give the same output exactly when they agree on every high byte of the input, so pure ASCII converts the same under every encoding |
| `EncodingMain.ConvertFile` | encoding/main.c:24-74 | returns 1 with the output untouched if the input cannot be opened or is empty, or if the output cannot be opened; returns 1 with an empty (truncated) output for an unknown encoding name; otherwise returns 0 and the output holds the conversion of the whole input; all handles are closed |
| `MainOnlyUtf.CodePointOf` | main_only_UTF.c:21-24 | a byte below 0x80 stands for `ascii_table[ch]`; any other byte stands for `extended_tables[enc][ch - 0x80]` |
| `MainOnlyUtf.CodePoints` | main_only_UTF.c:20-25 | one code point per input byte, in order, each from `ascii_table` or the encoding's extended table |
| `MainOnlyUtf.Converted` | main_only_UTF.c:18-27 | n input bytes give between n and 3n output bytes; an empty input gives an empty output |
| `MainOnlyUtf.ConvertedSnoc` | main_only_UTF.c:20-25 | one more input byte appends exactly the encoding of its code point |
| `MainOnlyUtf.ConvertedStep` | main_only_UTF.c:20-25 | reading the byte at the current position extends the output written so far by that byte's encoding |
| `MainOnlyUtf.AsciiFromTable` | main_only_UTF.c:21-22 | a byte below 0x80 is written as the encoding of `ascii_table[ch]`, not of ch itself, whatever the encoding |
| `MainOnlyUtf.HighFromExtended` | main_only_UTF.c:23-24 | a byte of 0x80 or more is written as the encoding of `extended_tables[enc][ch - 0x80]` |
| `MainOnlyUtf.ConvertedSlice` | main_only_UTF.c:18-27 | input byte i owns one contiguous, order-preserving slice of the output, and that slice is the encoding of its code point |
| `MainOnlyUtf.ConvertedDecodes` | main_only_UTF.c:18-27 | the output decodes to the input's code points, and is well-formed UTF-8 exactly when no input byte maps to a surrogate |
| `MainOnlyUtf.EncodingIsolation` | main_only_UTF.c:23-24 | two encodings give the same output exactly when their extended tables agree on every high byte of the input |
| `MainOnlyUtf.AgreesWithEncodingMain` | main_only_UTF.c:21-24 | when `ascii_table` maps every low byte to itself, this variant writes exactly what encoding/main.c writes with the same high-half table |
| `MainOnlyUtf.WriteUtf8` | main_only_UTF.c:5-16 | the `fputc` calls for one code point append exactly `Utf8.Encode` of it, so both variants share one encoder |
| `MainOnlyUtf.ConvertToUtf8` | main_only_UTF.c:18-27 | reads the input to its end and appends the in-order concatenation of the per-byte encodings, and nothing else |
| `MainOnlyUtf.Run` | main_only_UTF.c:35-66 | returns 1 with the output untouched if either file cannot be opened; returns 1 with an empty (truncated) output for an unknown encoding name; otherwise returns 0 with the conversion of the whole input in the output, an empty output for an empty input; all handles are closed |

## Left out

- The argument-count checks and usage messages (encoding/main.c:76-83, main_only_UTF.c:29-33) are not modelled. Both return 1 when the count is not 4. `EncodingMain.ConvertFile` and `MainOnlyUtf.Run` start after that check.
- The messages written to `stderr` or `stdout` on each error are not modelled. Only the exit status and the output file contents are.
- The contents of the table headers are not part of this model: `cp1251_to_unicode.h`, `koi8r_to_unicode.h`, `iso88595_to_unicode.h` and `unicode_table.h`. Every table is a parameter of exactly 128 16-bit entries. No lemma claims a specific mapping, such as 0xC0 to U+0410, and none claims that the tables are free of surrogates.
- The order of `extended_tables` under the `Encoding` enum values comes from `unicode_table.h`, which is not part of this model. `CodePages.Of` selects the table by encoding instead of by numeric index.
- File access is abstracted. Whether `fopen` succeeds is a fixed property of each file (`readable`, `writable`). `ftell` cannot fail. `fputc` never fails, since the code ignores its result. Disk-full and partial writes are not modelled.
- `EncodingMain.ConvertFile` and `MainOnlyUtf.Run` say nothing about the input file beyond the fact that it is closed. Their contracts assume the input and output are different files. When the two paths name the same file, `fopen(path, "wb")` truncates the input before it is read (encoding/main.c:39, main_only_UTF.c:41). The model keeps the two files as separate objects, so it cannot express that case or the stdio buffering it would depend on.
- `fgetc` never fails in this model. A read error ends the loop early, just like EOF (encoding/main.c:61, main_only_UTF.c:20), and both programs still return 0 with partial output. The model does not capture that outcome.
