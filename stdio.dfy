/**
 * The two stdio streams the converters use, reduced to what they observe:
 * an input file read front to back with `fgetc`, and an output file that
 * `fopen(path, "wb")` truncates and `fputc` appends to.
 */
module Stdio {
  import opened Wrappers
  import opened Utf8

  /** A file opened for reading in binary mode. */
  class InFile {
    /** Whether `fopen(path, "rb")` succeeds on this file. */
    const readable: bool
    /** The bytes the file holds. */
    const data: seq<Byte>
    var isOpen: bool
    /** The stream's read position. */
    var pos: nat

    ghost predicate Valid()
      reads this
    {
      pos <= |data|
    }

    constructor (readable: bool, data: seq<Byte>)
      ensures this.readable == readable && this.data == data
      ensures !isOpen && pos == 0 && Valid()
    {
      this.readable := readable;
      this.data := data;
      isOpen := false;
      pos := 0;
    }

    /** `fopen(path, "rb")`: succeeds exactly when the file is readable. */
    method Open() returns (ok: bool)
      modifies this
      ensures ok == readable && isOpen == ok && pos == 0 && Valid()
    {
      ok := readable;
      isOpen := ok;
      pos := 0;
    }

    /** `fseek(in, 0, SEEK_END)`. */
    method SeekEnd()
      requires isOpen
      modifies this
      ensures isOpen && pos == |data| && Valid()
    {
      pos := |data|;
    }

    /** `ftell(in)`. */
    method Tell() returns (offset: nat)
      requires isOpen
      ensures offset == pos
    {
      offset := pos;
    }

    /** `rewind(in)`. */
    method Rewind()
      requires isOpen
      modifies this
      ensures isOpen && pos == 0 && Valid()
    {
      pos := 0;
    }

    /** `fgetc(in)`: the next byte, or None (EOF) once every byte has been read. */
    method Getc() returns (ch: Option<Byte>)
      requires isOpen && Valid()
      modifies this
      ensures isOpen && Valid()
      ensures old(pos) < |data| ==> ch == Some(data[old(pos)]) && pos == old(pos) + 1
      ensures old(pos) == |data| ==> ch == None && pos == old(pos)
    {
      if pos < |data| {
        ch := Some(data[pos]);
        pos := pos + 1;
      } else {
        ch := None;
      }
    }

    /** `fclose(in)`. */
    method Close()
      requires isOpen
      modifies this
      ensures !isOpen && pos == old(pos)
    {
      isOpen := false;
    }
  }

  /** A file opened for writing in binary mode. */
  class OutFile {
    /** Whether `fopen(path, "wb")` succeeds on this file. */
    const writable: bool
    /** The bytes the file holds. */
    var contents: seq<Byte>
    var isOpen: bool

    constructor (writable: bool, contents: seq<Byte>)
      ensures this.writable == writable && this.contents == contents && !isOpen
    {
      this.writable := writable;
      this.contents := contents;
      isOpen := false;
    }

    /** `fopen(path, "wb")`: on success the file is truncated to nothing; on failure it is left alone. */
    method Open() returns (ok: bool)
      modifies this
      ensures ok == writable && isOpen == ok
      ensures contents == if ok then [] else old(contents)
    {
      ok := writable;
      isOpen := ok;
      if ok {
        contents := [];
      }
    }

    /** `fputc(b, out)`. */
    method Putc(b: Byte)
      requires isOpen
      modifies this
      ensures isOpen && contents == old(contents) + [b]
    {
      contents := contents + [b];
    }

    /** The `fputc` calls of one call to an encoder, in order. */
    method Write(bs: seq<Byte>)
      requires isOpen
      modifies this
      ensures isOpen && contents == old(contents) + bs
    {
      contents := contents + bs;
    }

    /** `fclose(out)`. */
    method Close()
      requires isOpen
      modifies this
      ensures !isOpen && contents == old(contents)
    {
      isOpen := false;
    }
  }
}
