/**
 * The flash file system as the byte-stream adapter sees it: named files of
 * bytes, and an open file with a read/seek cursor. The SPIFFS implementation
 * itself is abstracted into a map from names to contents.
 */
module Storage {

  function Min(a: int, b: int): (m: int)
  {
    if a <= b then a else b
  }

  /** An open file: its bytes and the cursor position. */
  class File {
    var data: seq<bv8>
    var pos: nat
    var isOpen: bool

    ghost predicate Valid()
      reads this
    {
      pos <= |data|
    }

    constructor (contents: seq<bv8>)
      ensures Valid() && data == contents && pos == 0 && isOpen
    {
      data := contents;
      pos := 0;
      isOpen := true;
    }

    /**
     * read(buf, n): copies up to n bytes from the cursor into buf, as many
     * as remain, and advances the cursor past them.
     */
    method Read(buf: array<bv8>, n: nat) returns (count: nat)
      requires Valid() && isOpen && n <= buf.Length
      modifies this`pos, buf
      ensures Valid()
      ensures count == Min(n, |data| - old(pos))
      ensures pos == old(pos) + count
      ensures buf[..count] == data[old(pos)..pos]
      ensures buf[count..] == old(buf[count..])
    {
      count := Min(n, |data| - pos);
      forall i | 0 <= i < count {
        buf[i] := data[pos + i];
      }
      pos := pos + count;
    }

    /** seek(p): moves the cursor to p when p lies within the file, and reports whether it did. */
    method Seek(p: int) returns (ok: bool)
      requires Valid()
      modifies this`pos
      ensures Valid()
      ensures ok == (0 <= p <= |data|)
      ensures pos == if ok then p else old(pos)
    {
      ok := 0 <= p <= |data|;
      if ok {
        pos := p;
      }
    }

    method Close()
      modifies this`isOpen
      ensures !isOpen
    {
      isOpen := false;
    }
  }

  /** The mounted file system: the files stored under each name. */
  class Volume {
    var files: map<string, seq<bv8>>

    constructor (files: map<string, seq<bv8>>)
      ensures this.files == files
    {
      this.files := files;
    }

    /** open(name): a fresh open file at position 0, or null when the name does not resolve. */
    method Open(name: string) returns (f: File?)
      ensures (f != null) == (name in files)
      ensures f != null ==> fresh(f) && f.Valid() && f.isOpen && f.pos == 0 && f.data == files[name]
    {
      if name in files {
        f := new File(files[name]);
      } else {
        f := null;
      }
    }
  }
}
