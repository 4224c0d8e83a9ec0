/** The operating-system side the extractor talks to: the container opened
    read-only with its cursor, and the files it creates and unlinks. */
module Files {
  import opened Bytes
  import opened Layout

  /** A file the extractor created, with everything written to it. */
  datatype File = File(name: CString, data: seq<byte>)

  /** `files` after `chunk` is written to the file at index `fd`. */
  function Appended(files: seq<File>, fd: nat, chunk: seq<byte>): (r: seq<File>)
    requires fd < |files|
    ensures |r| == |files|
    ensures r[fd] == File(files[fd].name, files[fd].data + chunk)
    ensures forall i :: 0 <= i < |files| && i != fd ==> r[i] == files[i]
  {
    files[fd := files[fd].(data := files[fd].data + chunk)]
  }

  /** Two writes append what one write of both chunks would. */
  lemma AppendedTwice(files: seq<File>, fd: nat, a: seq<byte>, b: seq<byte>)
    requires fd < |files|
    ensures Appended(Appended(files, fd, a), fd, b) == Appended(files, fd, a + b)
  {
    assert files[fd].data + a + b == files[fd].data + (a + b);
  }

  /** Writing to the newest file extends only that file. */
  lemma AppendedLast(files: seq<File>, f: File, chunk: seq<byte>)
    ensures Appended(files + [f], |files|, chunk) == files + [File(f.name, f.data + chunk)]
  {
    var r := Appended(files + [f], |files|, chunk);
    assert r == files + [File(f.name, f.data + chunk)];
  }

  lemma AppendedNothing(files: seq<File>, fd: nat)
    requires fd < |files|
    ensures Appended(files, fd, []) == files
  {
    assert files[fd].data + [] == files[fd].data;
  }

  /** Element `i` of a sequence extended by `last`. */
  lemma SnocAt<T>(prev: seq<T>, last: T, i: nat, x: T)
    requires i <= |prev|
    requires i < |prev| ==> prev[i] == x
    requires i == |prev| ==> last == x
    ensures (prev + [last])[i] == x
  {
  }

  /** Appending to the end of a concatenation appends to its second part. */
  lemma SnocAssoc<T>(a: seq<T>, b: seq<T>, last: T)
    ensures a + b + [last] == a + (b + [last])
  {
  }

  /** The container, opened read-only: its bytes never change, its cursor
      moves with `read` and `lseek`. */
  class Source {
    const bytes: seq<byte>
    var pos: nat

    /** `open(path, O_RDONLY)`: the cursor starts at the beginning. */
    constructor (contents: seq<byte>)
      ensures bytes == contents && pos == 0
    {
      bytes := contents;
      pos := 0;
    }

    /** `lseek(fd, 0, SEEK_CUR)`. */
    method Tell() returns (p: nat)
      ensures p == pos
    {
      p := pos;
    }

    /** `lseek(fd, offset, SEEK_SET)`: a negative offset is refused (-1)
        and leaves the cursor alone; any other, even past the end, is taken. */
    method Seek(offset: int) returns (r: int)
      modifies this`pos
      ensures offset >= 0 ==> r == offset && pos == offset
      ensures offset < 0 ==> r == -1 && pos == old(pos)
    {
      if offset >= 0 {
        pos := offset;
        r := offset;
      } else {
        r := -1;
      }
    }

    /** `read(fd, buf, n)`: the next `n` bytes or as many as remain, and the
        cursor moves past them. */
    method Read(n: nat) returns (got: seq<byte>)
      modifies this`pos
      ensures got == Slice(bytes, old(pos), n)
      ensures pos == After(bytes, old(pos), n)
    {
      got := Slice(bytes, pos, n);
      pos := pos + |got|;
    }
  }

  /** The working directory as far as the extractor changes it: the files it
      created, in order, and the names it unlinked. */
  class Disk {
    var files: seq<File>
    var unlinked: seq<CString>

    constructor ()
      ensures files == [] && unlinked == []
    {
      files := [];
      unlinked := [];
    }

    /** `open(name, O_RDWR | O_CREAT, 0666)`. It may fail for reasons the model
        does not see (permissions, a bad name, no space); on success the
        new file is empty and `fd` designates it. */
    method Create(name: CString) returns (ok: bool, fd: nat)
      modifies this`files
      ensures ok ==> fd == |old(files)| && files == old(files) + [File(name, [])]
      ensures !ok ==> files == old(files)
    {
      ok := *;
      fd := |files|;
      if ok {
        files := files + [File(name, [])];
      }
    }

    /** `write(fd, buf, |chunk|)`: appends to the designated file. */
    method Write(fd: nat, chunk: seq<byte>)
      requires fd < |files|
      modifies this`files
      ensures files == Appended(old(files), fd, chunk)
    {
      files := Appended(files, fd, chunk);
    }

    /** `unlink(name)`, whose result the extractor ignores. */
    method Unlink(name: CString)
      modifies this`unlinked
      ensures unlinked == old(unlinked) + [name]
    {
      unlinked := unlinked + [name];
    }
  }
}
