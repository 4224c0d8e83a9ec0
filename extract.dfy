/** The NGG7 extractor: the byte-range copier, the pack extractor, the LZMA
    payload extractor and the dispatch between the last two. Each method is
    proved against the specification functions beside it. */
module Extract {
  import opened Bytes
  import opened Layout
  import opened Files

  /** Size of the stack buffer both copy loops read into. */
  const ChunkSize := 2048

  /** How a call ends: it returns a status, or it never returns. */
  datatype Exit = Returned(status: int) | Hangs

  // ---------------------------------------------------------------------
  // copy_content

  /** Where reading starts after `lseek(org, offset, SEEK_SET)` from `cur`:
      a negative offset is refused and the cursor stays put. */
  function SeekTarget(cur: nat, offset: int): (r: nat)
    ensures offset >= 0 ==> r == offset
    ensures offset < 0 ==> r == cur
  {
    if offset >= 0 then offset else cur
  }

  /** The copy loop reaches the end of the file before `size` bytes: from
      then on every `read` returns 0 and `copied < size` stays true forever. */
  predicate Stalls(s: seq<byte>, start: nat, size: int)
  {
    size > 0 && start + size > |s|
  }

  /** The copy stalls exactly when what a read of `size` bytes at `start`
      would deliver falls short of a positive `size`. */
  lemma StallsIsShortRead(s: seq<byte>, start: nat, size: int)
    ensures Stalls(s, start, size) <==> 0 < size && |Slice(s, start, size)| < size
  {
  }

  /** Within the file, the copier hands over exactly the bytes of the range
      and finishes; a range that is not positive gives nothing. */
  lemma CopyInBounds(s: seq<byte>, offset: int, size: int)
    requires 0 <= offset && offset + size <= |s|
    ensures !Stalls(s, offset, size)
    ensures Slice(s, offset, size) == if size <= 0 then [] else s[offset..offset + size]
  {
  }

  /** A pass of the copy loop, `copied` bytes into a range of `size` at
      `start`, whose read of `Min(size - copied, 2048)` bytes delivers none:
      the range runs past the end of the file and nothing more will come. */
  lemma CopyRunsOut(s: seq<byte>, start: nat, copied: nat, size: int)
    requires copied < size && (copied == 0 || start + copied <= |s|)
    requires Slice(s, start + copied, Min(size - copied, ChunkSize)) == []
    ensures Slice(s, start, copied) == Slice(s, start, size)
    ensures Stalls(s, start, size)
    ensures start + copied == if start <= |s| then |s| else start
  {
    SliceSaturated(s, start, copied, size);
  }

  /** A pass of the copy loop whose read delivers bytes: they continue the
      range, stay within the file and do not overshoot `size`. */
  lemma CopyContinues(s: seq<byte>, start: nat, copied: nat, size: int)
    requires copied < size
    requires Slice(s, start + copied, Min(size - copied, ChunkSize)) != []
    ensures var got := Slice(s, start + copied, Min(size - copied, ChunkSize));
      && |got| <= ChunkSize && copied + |got| <= size
      && start + copied + |got| <= |s|
      && Slice(s, start, copied) + got == Slice(s, start, copied + |got|)
  {
    var n := Min(size - copied, ChunkSize);
    var got := Slice(s, start + copied, n);
    assert 0 < n <= ChunkSize && copied + n <= size;
    assert start + copied < |s| && |got| <= n;
    SliceOwnLength(s, start + copied, n);
    SliceSplit(s, start, copied, |got|);
  }

  /** One pass of the copy loop, `copied` bytes into the range of `size` at
      `start`: reads at most 2048 and at most `size - copied` bytes and
      writes what it got. An empty read means the range runs past the end of
      the file; otherwise the destination holds `n` more bytes of the range. */
  method CopyChunk(org: Source, disk: Disk, dst: nat, size: int, copied: nat,
                   ghost start: nat, ghost files0: seq<File>)
    returns (n: nat)
    requires copied < size && dst < |files0|
    requires org.pos == start + copied && (copied == 0 || start + copied <= |org.bytes|)
    requires disk.files == Appended(files0, dst, Slice(org.bytes, start, copied))
    modifies org`pos, disk`files
    ensures n == 0 ==> && disk.files == Appended(files0, dst, Slice(org.bytes, start, size))
                       && Stalls(org.bytes, start, size)
                       && org.pos == (if start <= |org.bytes| then |org.bytes| else start)
    ensures n > 0 ==> && copied + n <= size
                      && org.pos == start + copied + n && start + copied + n <= |org.bytes|
                      && disk.files == Appended(files0, dst, Slice(org.bytes, start, copied + n))
  {
    var got := org.Read(Min(size - copied, ChunkSize));
    n := |got|;
    if n == 0 {
      CopyRunsOut(org.bytes, start, copied, size);
    } else {
      CopyContinues(org.bytes, start, copied, size);
      AppendedTwice(files0, dst, Slice(org.bytes, start, copied), got);
      disk.Write(dst, got);
    }
  }

  /** `copy_content(org, dst, offset, size)`: appends `size` bytes taken from
      absolute `offset` to file `dst`, reading at most 2048 and at most
      `size - copied` bytes at a time, then puts `org`'s cursor back. When
      the range runs past the end of the file the C loop never ends;
      the model stops at the first empty read and reports `stalled`. */
  method CopyContent(org: Source, disk: Disk, dst: nat, offset: int, size: int)
    returns (stalled: bool)
    requires dst < |disk.files|
    modifies org`pos, disk`files
    ensures var start := SeekTarget(old(org.pos), offset);
      && disk.files == Appended(old(disk.files), dst, Slice(org.bytes, start, size))
      && (stalled <==> Stalls(org.bytes, start, size))
      && (!stalled ==> org.pos == old(org.pos))
      && (stalled ==> org.pos == if start <= |org.bytes| then |org.bytes| else start)
  {
    var pos := org.Tell();
    var _ := org.Seek(offset);
    ghost var start := org.pos;
    ghost var files0 := disk.files;
    var copied := 0;
    AppendedNothing(files0, dst);
    while copied < size
      invariant 0 <= copied && (copied <= size || copied == 0)
      invariant org.pos == start + copied
      invariant copied == 0 || start + copied <= |org.bytes|
      invariant disk.files == Appended(files0, dst, Slice(org.bytes, start, copied))
      decreases size - copied
    {
      var n := CopyChunk(org, disk, dst, size, copied, start, files0);
      if n == 0 {
        // every later pass reads and writes nothing: the C loop never ends
        return true;
      }
      copied := copied + n;
    }
    var _ := org.Seek(pos);
    stalled := false;
  }

  // ---------------------------------------------------------------------
  // pack_file

  /** The section count the pack header read at `p` yields; bytes a short
      read does not deliver keep the buffer's earlier contents `stalePh`. */
  function PackCount(s: seq<byte>, p: nat, stalePh: seq<byte>): u32
    requires |stalePh| == PackHeaderSize
  {
    DecodePackHeader(Overlay(stalePh, Slice(s, p, PackHeaderSize))).num
  }

  /** The cursor after `i` section-header reads starting at `at`: where one
      read of all `i` headers at once would leave it. */
  function Cursor(s: seq<byte>, at: nat, i: nat): (r: nat)
    ensures r == After(s, at, SectionHeaderSize * i)
  {
    if at >= |s| then at else Min(at + SectionHeaderSize * i, |s|)
  }

  /** The section-header buffer after `n` reads starting at `at` into a
      buffer that held `stale`: each read overwrites what it delivers, so
      after a read that delivers a whole header the buffer holds exactly it. */
  function HeaderBuffer(s: seq<byte>, at: nat, stale: seq<byte>, n: nat): (buf: seq<byte>)
    requires |stale| == SectionHeaderSize
    ensures |buf| == SectionHeaderSize
    ensures n > 0 && at + SectionHeaderSize * n <= |s|
        ==> buf == s[at + SectionHeaderSize * (n - 1)..at + SectionHeaderSize * n]
  {
    if n == 0 then stale
    else Overlay(HeaderBuffer(s, at, stale, n - 1), Slice(s, at + SectionHeaderSize * (n - 1), SectionHeaderSize))
  }

  lemma HeaderBufferStep(s: seq<byte>, at: nat, stale: seq<byte>, i: nat)
    requires |stale| == SectionHeaderSize
    ensures HeaderBuffer(s, at, stale, i + 1)
         == Overlay(HeaderBuffer(s, at, stale, i), Slice(s, at + SectionHeaderSize * i, SectionHeaderSize))
  {
  }

  /** The header the loop decodes for section `i`. */
  function Section(s: seq<byte>, at: nat, stale: seq<byte>, i: nat): SectionHeader
    requires |stale| == SectionHeaderSize
  {
    DecodeSectionHeader(HeaderBuffer(s, at, stale, i + 1))
  }

  /** Where `copy_content` starts reading for section `i`. */
  function SectionStart(s: seq<byte>, at: nat, stale: seq<byte>, i: nat): nat
    requires |stale| == SectionHeaderSize
  {
    SeekTarget(Cursor(s, at, i + 1), Section(s, at, stale, i).offset)
  }

  /** The file section `i` produces: named after its name field, holding
      its byte range. */
  function SectionFile(s: seq<byte>, at: nat, stale: seq<byte>, i: nat): File
    requires |stale| == SectionHeaderSize
  {
    var h := Section(s, at, stale, i);
    File(CName(h.name), Slice(s, SectionStart(s, at, stale, i), h.size))
  }

  predicate SectionStalls(s: seq<byte>, at: nat, stale: seq<byte>, i: nat)
    requires |stale| == SectionHeaderSize
  {
    Stalls(s, SectionStart(s, at, stale, i), Section(s, at, stale, i).size)
  }

  /** The files of the first `n` sections, in order. */
  function Extracted(s: seq<byte>, at: nat, stale: seq<byte>, n: nat): (r: seq<File>)
    requires |stale| == SectionHeaderSize
    ensures |r| == n
  {
    if n == 0 then [] else Extracted(s, at, stale, n - 1) + [SectionFile(s, at, stale, n - 1)]
  }

  /** For each of the first `n` sections, whether its copy runs past the end
      of the file. */
  ghost function StallFlags(s: seq<byte>, at: nat, stale: seq<byte>, n: nat): (r: seq<bool>)
    requires |stale| == SectionHeaderSize
    ensures |r| == n
  {
    if n == 0 then [] else StallFlags(s, at, stale, n - 1) + [SectionStalls(s, at, stale, n - 1)]
  }

  /** None of the first `n` sections runs past the end of the file. */
  ghost predicate NoStallBefore(s: seq<byte>, at: nat, stale: seq<byte>, n: nat)
    requires |stale| == SectionHeaderSize
  {
    true !in StallFlags(s, at, stale, n)
  }

  lemma NoStallStep(s: seq<byte>, at: nat, stale: seq<byte>, n: nat)
    requires |stale| == SectionHeaderSize
    requires NoStallBefore(s, at, stale, n) && !SectionStalls(s, at, stale, n)
    ensures NoStallBefore(s, at, stale, n + 1)
  {
    assert StallFlags(s, at, stale, n + 1) == StallFlags(s, at, stale, n) + [SectionStalls(s, at, stale, n)];
  }

  /** How `pack_file` can end, given the table at `at` with `num` entries:
      `done` files were created, one per section in order; it returns 0
      after all `num` sections; it returns -1 when creating the file of
      section `done` fails, with the earlier files left in place; it hangs
      in the copy of section `done - 1`; no earlier copy ran off the end. */
  ghost predicate PackOutcome(
    s: seq<byte>, at: nat, stale: seq<byte>, num: nat,
    before: seq<File>, after: seq<File>, exit: Exit, done: nat)
    requires |stale| == SectionHeaderSize
  {
    && done <= num
    && after == before + Extracted(s, at, stale, done)
    && ((exit == Returned(0) && done == num)
        || (exit == Returned(-1) && done < num)
        || (exit == Hangs && 0 < done && SectionStalls(s, at, stale, done - 1)))
    && NoStallBefore(s, at, stale, if exit == Hangs then done - 1 else done)
  }

  /** Reading one section header at the loop's cursor reads the table entry
      `i` places after `at`, and moves the cursor on to the next entry. */
  lemma CursorStep(s: seq<byte>, at: nat, i: nat)
    ensures Slice(s, Cursor(s, at, i), SectionHeaderSize) == Slice(s, at + SectionHeaderSize * i, SectionHeaderSize)
    ensures After(s, Cursor(s, at, i), SectionHeaderSize) == Cursor(s, at, i + 1)
  {
  }

  /** One pass of the section loop: creating section `i`'s file and copying
      its range into it extends the files by `SectionFile(i)`. */
  lemma ExtractedStep(s: seq<byte>, at: nat, stale: seq<byte>, i: nat, files0: seq<File>)
    requires |stale| == SectionHeaderSize
    ensures var h := Section(s, at, stale, i);
      Appended(files0 + Extracted(s, at, stale, i) + [File(CName(h.name), [])], |files0| + i,
               Slice(s, SectionStart(s, at, stale, i), h.size))
      == files0 + Extracted(s, at, stale, i + 1)
  {
    var h := Section(s, at, stale, i);
    var e := files0 + Extracted(s, at, stale, i);
    var chunk := Slice(s, SectionStart(s, at, stale, i), h.size);
    var f := SectionFile(s, at, stale, i);
    AppendedLast(e, File(CName(h.name), []), chunk);
    assert [] + chunk == chunk;
    assert File(CName(h.name), [] + chunk) == f;
    SnocAssoc(files0, Extracted(s, at, stale, i), f);
    assert Extracted(s, at, stale, i + 1) == Extracted(s, at, stale, i) + [f];
  }

  lemma PackFailed(s: seq<byte>, at: nat, stale: seq<byte>, num: nat, files0: seq<File>, i: nat)
    requires |stale| == SectionHeaderSize
    requires i < num && NoStallBefore(s, at, stale, i)
    ensures PackOutcome(s, at, stale, num, files0, files0 + Extracted(s, at, stale, i), Returned(-1), i)
  {
  }

  lemma PackHung(s: seq<byte>, at: nat, stale: seq<byte>, num: nat, files0: seq<File>, i: nat)
    requires |stale| == SectionHeaderSize
    requires i < num && NoStallBefore(s, at, stale, i) && SectionStalls(s, at, stale, i)
    ensures PackOutcome(s, at, stale, num, files0, files0 + Extracted(s, at, stale, i + 1), Hangs, i + 1)
  {
  }

  lemma PackFinished(s: seq<byte>, at: nat, stale: seq<byte>, num: nat, files0: seq<File>)
    requires |stale| == SectionHeaderSize
    requires NoStallBefore(s, at, stale, num)
    ensures PackOutcome(s, at, stale, num, files0, files0 + Extracted(s, at, stale, num), Returned(0), num)
  {
  }

  /** One pass of the section loop of `pack_file`, for section `i` of the
      table at `at`: reads the next section header into `sh`, creates the
      file named after it and copies the section's range into it. `ok` is
      false when the file cannot be created; `stalled` when the copy runs
      off the end of the container. */
  method ExtractSection(src: Source, disk: Disk, sh: seq<byte>,
                        ghost at: nat, ghost stale: seq<byte>, ghost i: nat, ghost files0: seq<File>)
    returns (ok: bool, stalled: bool, next: seq<byte>)
    requires |stale| == SectionHeaderSize
    requires src.pos == Cursor(src.bytes, at, i) && sh == HeaderBuffer(src.bytes, at, stale, i)
    requires disk.files == files0 + Extracted(src.bytes, at, stale, i)
    modifies src`pos, disk`files
    ensures next == HeaderBuffer(src.bytes, at, stale, i + 1)
    ensures !ok ==> disk.files == old(disk.files) && src.pos == Cursor(src.bytes, at, i + 1)
    ensures ok ==> disk.files == files0 + Extracted(src.bytes, at, stale, i + 1)
    ensures ok ==> (stalled <==> SectionStalls(src.bytes, at, stale, i))
    ensures ok && !stalled ==> src.pos == Cursor(src.bytes, at, i + 1)
  {
    ghost var s := src.bytes;
    CursorStep(s, at, i);
    HeaderBufferStep(s, at, stale, i);
    var got := src.Read(SectionHeaderSize);
    next := Overlay(sh, got);
    var h := DecodeSectionHeader(next);
    assert h == Section(s, at, stale, i);
    var newf;
    ok, newf := disk.Create(CName(h.name));
    if !ok {
      return ok, false, next;
    }
    ghost var start := SectionStart(s, at, stale, i);
    ghost var created := disk.files;
    assert start == SeekTarget(src.pos, h.offset) && newf == |files0| + i;
    stalled := CopyContent(src, disk, newf, h.offset, h.size);
    assert disk.files == Appended(created, newf, Slice(s, start, h.size));
    ExtractedStep(s, at, stale, i, files0);
  }

  /** The section loop of `pack_file` over the `num` entries of the table
      at `at`, the buffer holding `stale` before its first read. */
  method ExtractSections(src: Source, disk: Disk, num: u32, ghost at: nat, stale: seq<byte>)
    returns (exit: Exit, ghost done: nat)
    requires |stale| == SectionHeaderSize && src.pos == at
    modifies src`pos, disk`files
    ensures PackOutcome(src.bytes, at, stale, num, old(disk.files), disk.files, exit, done)
    ensures exit == Returned(0) ==> src.pos == Cursor(src.bytes, at, done)
    ensures exit == Returned(-1) ==> src.pos == Cursor(src.bytes, at, done + 1)
  {
    ghost var s := src.bytes;
    ghost var files0 := disk.files;
    var sh := stale;
    var i: nat := 0;
    while i < num
      invariant i <= num
      invariant src.pos == Cursor(s, at, i)
      invariant sh == HeaderBuffer(s, at, stale, i)
      invariant disk.files == files0 + Extracted(s, at, stale, i)
      invariant NoStallBefore(s, at, stale, i)
    {
      var ok, stalled;
      ok, stalled, sh := ExtractSection(src, disk, sh, at, stale, i, files0);
      if !ok {
        PackFailed(s, at, stale, num, files0, i);
        return Returned(-1), i;
      }
      if stalled {
        PackHung(s, at, stale, num, files0, i);
        return Hangs, i + 1;
      }
      NoStallStep(s, at, stale, i);
      i := i + 1;
    }
    PackFinished(s, at, stale, num, files0);
    return Returned(0), i;
  }

  /** `pack_file(fd, size)`: reads the pack header, then for each of its
      `num` sections reads the next section header, creates the file named
      after it (returning -1 if that fails) and copies the section's bytes
      into it. `size` is not used. */
  method PackFile(src: Source, disk: Disk, size: u32, stalePh: seq<byte>, staleSh: seq<byte>)
    returns (exit: Exit, ghost done: nat)
    requires |stalePh| == PackHeaderSize && |staleSh| == SectionHeaderSize
    modifies src`pos, disk`files
    ensures var at := After(src.bytes, old(src.pos), PackHeaderSize);
      && PackOutcome(src.bytes, at, staleSh, PackCount(src.bytes, old(src.pos), stalePh),
                     old(disk.files), disk.files, exit, done)
      && (exit == Returned(0) ==> src.pos == Cursor(src.bytes, at, done))
      && (exit == Returned(-1) ==> src.pos == Cursor(src.bytes, at, done + 1))
  {
    var phBytes := src.Read(PackHeaderSize);
    var ph := DecodePackHeader(Overlay(stalePh, phBytes));
    exit, done := ExtractSections(src, disk, ph.num, src.pos, staleSh);
  }

  /** Output `i` of the first `n` is the file of section `i`. */
  lemma {:induction false} ExtractedAt(s: seq<byte>, at: nat, stale: seq<byte>, n: nat, i: nat)
    requires |stale| == SectionHeaderSize && i < n
    ensures Extracted(s, at, stale, n)[i] == SectionFile(s, at, stale, i)
  {
    if i < n - 1 {
      ExtractedAt(s, at, stale, n - 1, i);
    }
    SnocAt(Extracted(s, at, stale, n - 1), SectionFile(s, at, stale, n - 1), i, SectionFile(s, at, stale, i));
  }

  /** Flag `i` says whether section `i` stalls. */
  lemma {:induction false} StallFlagAt(s: seq<byte>, at: nat, stale: seq<byte>, n: nat, i: nat)
    requires |stale| == SectionHeaderSize && i < n
    ensures StallFlags(s, at, stale, n)[i] == SectionStalls(s, at, stale, i)
  {
    if i < n - 1 {
      StallFlagAt(s, at, stale, n - 1, i);
    }
    SnocAt(StallFlags(s, at, stale, n - 1), SectionStalls(s, at, stale, n - 1), i, SectionStalls(s, at, stale, i));
  }

  /** None of the first `n` sections stalls: in particular section `i`. */
  lemma NoStallAt(s: seq<byte>, at: nat, stale: seq<byte>, n: nat, i: nat)
    requires |stale| == SectionHeaderSize && NoStallBefore(s, at, stale, n) && i < n
    ensures !SectionStalls(s, at, stale, i)
  {
    StallFlagAt(s, at, stale, n, i);
    assert StallFlags(s, at, stale, n)[i] in StallFlags(s, at, stale, n);
  }

  /** A pack whose header announces no section creates no file and returns 0. */
  lemma EmptyPack(s: seq<byte>, at: nat, stale: seq<byte>,
                  before: seq<File>, after: seq<File>, exit: Exit, done: nat)
    requires |stale| == SectionHeaderSize
    requires PackOutcome(s, at, stale, 0, before, after, exit, done)
    ensures exit == Returned(0) && after == before
  {
  }

  /** When section header `i` lies wholly inside the file, the loop decodes
      exactly its 32 bytes, whatever the buffer held before. */
  lemma SectionInFile(s: seq<byte>, at: nat, stale: seq<byte>, i: nat)
    requires |stale| == SectionHeaderSize
    requires at + SectionHeaderSize * (i + 1) <= |s|
    ensures Section(s, at, stale, i)
         == DecodeSectionHeader(s[at + SectionHeaderSize * i..at + SectionHeaderSize * (i + 1)])
  {
    assert HeaderBuffer(s, at, stale, i + 1) == s[at + SectionHeaderSize * i..at + SectionHeaderSize * (i + 1)];
  }

  /** A section whose header and range both lie inside the file does not
      run past its end. */
  lemma SectionNoStall(s: seq<byte>, at: nat, stale: seq<byte>, i: nat)
    requires |stale| == SectionHeaderSize
    requires RangeInFile(s, at, i)
    ensures !SectionStalls(s, at, stale, i)
  {
    SectionInFile(s, at, stale, i);
    var h := Section(s, at, stale, i);
    CopyInBounds(s, h.offset, h.size);
  }

  /** A section whose header and range both lie inside the file becomes a
      file named by its name field up to the first NUL and holding exactly
      `s[offset..offset + size]` (nothing when `size <= 0`); its copy ends. */
  lemma SectionContent(s: seq<byte>, at: nat, stale: seq<byte>, i: nat)
    requires |stale| == SectionHeaderSize
    requires RangeInFile(s, at, i)
    ensures var h := DecodeSectionHeader(s[at + SectionHeaderSize * i..at + SectionHeaderSize * (i + 1)]);
      && !SectionStalls(s, at, stale, i)
      && SectionFile(s, at, stale, i)
         == File(CName(h.name), if h.size <= 0 then [] else s[h.offset..h.offset + h.size])
  {
    SectionInFile(s, at, stale, i);
    var h := Section(s, at, stale, i);
    CopyInBounds(s, h.offset, h.size);
  }

  /** The header of section `i`, and the range it names, lie inside the
      file. */
  ghost predicate RangeInFile(s: seq<byte>, at: nat, i: nat)
  {
    && at + SectionHeaderSize * (i + 1) <= |s|
    && var h := DecodeSectionHeader(s[at + SectionHeaderSize * i..at + SectionHeaderSize * (i + 1)]);
       0 <= h.offset && h.offset + h.size <= |s|
  }

  /** Every one of the first `num` sections is in the file. */
  ghost predicate SectionsInFile(s: seq<byte>, at: nat, num: nat)
  {
    num == 0 || (SectionsInFile(s, at, num - 1) && RangeInFile(s, at, num - 1))
  }

  /** One more section inside the file keeps the table free of stalls. */
  lemma InFileStep(s: seq<byte>, at: nat, stale: seq<byte>, n: nat)
    requires |stale| == SectionHeaderSize
    requires NoStallBefore(s, at, stale, n) && RangeInFile(s, at, n)
    ensures NoStallBefore(s, at, stale, n + 1)
  {
    SectionNoStall(s, at, stale, n);
    NoStallStep(s, at, stale, n);
  }

  /** No section of a well-formed table runs past the end of the file. */
  lemma {:induction false} InFileNoStall(s: seq<byte>, at: nat, stale: seq<byte>, num: nat)
    requires |stale| == SectionHeaderSize && SectionsInFile(s, at, num)
    ensures NoStallBefore(s, at, stale, num)
  {
    if num > 0 {
      InFileNoStall(s, at, stale, num - 1);
      InFileStep(s, at, stale, num - 1);
    }
  }

  /** A well-formed pack never hangs: it extracts all its sections and
      returns 0, or stops with -1 where a file cannot be created. */
  lemma WellFormedPack(s: seq<byte>, at: nat, stale: seq<byte>, num: nat,
                       before: seq<File>, after: seq<File>, exit: Exit, done: nat)
    requires |stale| == SectionHeaderSize && SectionsInFile(s, at, num)
    requires PackOutcome(s, at, stale, num, before, after, exit, done)
    ensures exit == Returned(0) || exit == Returned(-1)
  {
    InFileNoStall(s, at, stale, num);
    if exit == Hangs {
      NoStallAt(s, at, stale, num, done - 1);
    }
  }

  // ---------------------------------------------------------------------
  // lzma_file

  /** What remains of the file from cursor `p` on. */
  function Tail(s: seq<byte>, p: nat): (t: seq<byte>)
    ensures p < |s| ==> t == s[p..]
    ensures p >= |s| ==> t == []
  {
    if p >= |s| then [] else s[p..]
  }

  /** Reading at `at + c` in the file reads at `c` in what remains of it
      from `at`. */
  lemma TailSlice(s: seq<byte>, at: nat, c: nat, n: int)
    requires at + c <= |s| || c == 0
    ensures Slice(s, at + c, n) == Slice(Tail(s, at), c, n)
  {
    if at < |s| && 0 < n && at + c < |s| {
      if at + c + n <= |s| {
        assert s[at..][c..c + n] == s[at + c..at + c + n];
      } else {
        assert s[at..][c..] == s[at + c..];
      }
    }
  }

  /** The output of the chunked copy, chunk by chunk: a full 2048-byte chunk
      is written whole; the final short chunk loses its last byte; an empty
      final read writes nothing. */
  function Streamed(t: seq<byte>): seq<byte>
    decreases |t|
  {
    if |t| >= ChunkSize then t[..ChunkSize] + Streamed(t[ChunkSize..])
    else if t == [] then []
    else t[..|t| - 1]
  }

  /** The same output in closed form: the payload minus its last byte,
      unless its length is a multiple of 2048, when nothing is dropped. */
  function Payload(t: seq<byte>): seq<byte>
  {
    if |t| % ChunkSize == 0 then t else t[..|t| - 1]
  }

  /** One chunk more leaves the position within a chunk unchanged. */
  lemma ChunkShift(x: nat)
    ensures (x + ChunkSize) % ChunkSize == x % ChunkSize
  {
  }

  lemma {:induction false} StreamedIsPayload(t: seq<byte>)
    ensures Streamed(t) == Payload(t)
    decreases |t|
  {
    if |t| >= ChunkSize {
      var rest := t[ChunkSize..];
      StreamedIsPayload(rest);
      ChunkShift(|rest|);
      if |t| % ChunkSize == 0 {
        assert t[..ChunkSize] + rest == t;
      } else {
        assert t[..ChunkSize] + rest[..|rest| - 1] == t[..|t| - 1];
      }
    }
  }

  /** With `L = 2048 k + r`, `r > 0`: the output is the first `L - 1` bytes,
      and every full chunk before the last is kept whole. */
  lemma ShortFinalChunk(t: seq<byte>)
    requires |t| % ChunkSize != 0
    ensures |Payload(t)| == |t| - 1 && Payload(t) == t[..|t| - 1]
    ensures forall j :: 0 <= j < |t| / ChunkSize ==>
      Payload(t)[ChunkSize * j..ChunkSize * (j + 1)] == t[ChunkSize * j..ChunkSize * (j + 1)]
  {
    forall j | 0 <= j < |t| / ChunkSize
      ensures Payload(t)[ChunkSize * j..ChunkSize * (j + 1)] == t[ChunkSize * j..ChunkSize * (j + 1)]
    {
      var k := |t| / 2048;
      assert |t| == 2048 * k + |t| % 2048;
      assert 2048 * (j + 1) <= 2048 * k;
      assert ChunkSize * (j + 1) <= |t| - 1;
    }
  }

  /** With `r = 0` the whole payload is written: no terminator is dropped. */
  lemma ExactMultiple(t: seq<byte>)
    requires |t| % ChunkSize == 0
    ensures Payload(t) == t
  {
  }

  /** The count `lzma_file` prints, `(L - 1) mod 2^32`: the number of bytes
      written when `0 < r`, one short of it when `r == 0 < L`, and
      4294967295 for an empty payload. */
  lemma ReportedCount(t: seq<byte>)
    requires |t| < 0x1_0000_0000
    ensures |t| % ChunkSize != 0 ==> (|t| - 1) % 0x1_0000_0000 == |Payload(t)|
    ensures |t| % ChunkSize == 0 && |t| > 0 ==> (|t| - 1) % 0x1_0000_0000 == |Payload(t)| - 1
    ensures |t| == 0 ==> (|t| - 1) % 0x1_0000_0000 == 4294967295
  {
  }

  /** The output name `snprintf(buf, 256, "%s.lzma", filename)` builds: the
      file name with ".lzma" appended, cut to 255 bytes (one character of a
      `CString` per byte) so that the 256-byte buffer keeps its NUL. */
  function LzmaName(filename: CString): (name: CString)
    ensures |name| <= 255
    ensures name <= filename + ".lzma"
    ensures |filename| + 5 <= 255 ==> name == filename + ".lzma"
    ensures |filename| + 5 > 255 ==> |name| == 255
  {
    var full := filename + ".lzma";
    assert forall i :: 0 <= i < |full| ==> full[i] != '\0';
    if |full| <= 255 then full else full[..255]
  }

  /** How `lzma_file` can end, the payload starting at cursor `at`: either
      the output cannot be created and nothing changes (-1), or the output
      holds `Payload` of the rest of the file and the container's name is
      unlinked (0). */
  ghost predicate LzmaOutcome(
    s: seq<byte>, at: nat, filename: CString,
    files0: seq<File>, unlinked0: seq<CString>, files: seq<File>, unlinked: seq<CString>, exit: Exit)
  {
    || (exit == Returned(-1) && files == files0 && unlinked == unlinked0)
    || (exit == Returned(0)
        && files == files0 + [File(LzmaName(filename), Payload(Tail(s, at)))]
        && unlinked == unlinked0 + [filename])
  }

  /** A pass of the `do ... while` loop, `c` bytes (whole chunks) of the
      payload `t` read so far, whose read fills the buffer: the chunk
      continues the payload and the loop goes on from a chunk boundary. */
  lemma LzmaFullChunk(t: seq<byte>, c: nat)
    requires c <= |t| && c % ChunkSize == 0
    requires |Slice(t, c, ChunkSize)| == ChunkSize
    ensures c + ChunkSize <= |t| && (c + ChunkSize) % ChunkSize == 0
    ensures t[..c] + Slice(t, c, ChunkSize)[..ChunkSize] == t[..c + ChunkSize]
  {
    assert Slice(t, c, ChunkSize)[..ChunkSize] == t[c..c + ChunkSize];
    assert t[..c] + t[c..c + ChunkSize] == t[..c + ChunkSize];
  }

  /** A pass whose read comes back short: it reaches the end of the payload,
      and what is written, the chunk minus its last byte, completes
      `Payload(t)`; an empty read writes nothing and `t[..c]` already is it. */
  lemma LzmaLastChunk(t: seq<byte>, c: nat)
    requires c <= |t| && c % ChunkSize == 0
    requires |Slice(t, c, ChunkSize)| != ChunkSize
    ensures c + |Slice(t, c, ChunkSize)| == |t|
    ensures var got := Slice(t, c, ChunkSize);
      |got| > 0 ==> t[..c] + got[..|got| - 1] == Payload(t)
    ensures Slice(t, c, ChunkSize) == [] ==> t[..c] == Payload(t)
  {
    var got := Slice(t, c, ChunkSize);
    assert |t| % ChunkSize == |got|;
    if |got| > 0 {
      assert t[..c] + got[..|got| - 1] == t[..|t| - 1];
    } else {
      assert t[..c] == t;
    }
  }

  lemma ModAdd(a: int, b: int)
    ensures (a % 0x1_0000_0000 + b) % 0x1_0000_0000 == (a + b) % 0x1_0000_0000
  {
  }

  /** One pass of the `do ... while` loop of `lzma_file`, `c` bytes (whole
      chunks) of the payload `t` read so far and written to file `fd`: reads
      up to 2048 bytes, and writes all of them when the buffer was filled,
      else all but the last (nothing when the read was empty). `aux` is the
      count written (-1 for an empty read), `n` the count read. */
  method ChunkPass(src: Source, disk: Disk, fd: nat,
                   ghost at: nat, ghost c: nat, ghost name: CString, ghost files0: seq<File>)
    returns (aux: int, ghost n: nat)
    requires c <= |Tail(src.bytes, at)| && c % ChunkSize == 0 && src.pos == at + c
    requires fd == |files0| && disk.files == files0 + [File(name, Tail(src.bytes, at)[..c])]
    modifies src`pos, disk`files
    ensures var t := Tail(src.bytes, at);
      && src.pos == at + c + n
      && (aux == ChunkSize ==> && n == ChunkSize && c + n <= |t| && (c + n) % ChunkSize == 0
                               && disk.files == files0 + [File(name, t[..c + n])])
      && (aux != ChunkSize ==> && aux == n - 1 && c + n == |t|
                               && disk.files == files0 + [File(name, Payload(t))])
  {
    ghost var t := Tail(src.bytes, at);
    TailSlice(src.bytes, at, c, ChunkSize);
    var got := src.Read(ChunkSize);
    n := |got|;
    aux := |got|;
    if aux != ChunkSize {
      aux := aux - 1;   // leave out the terminating byte
      LzmaLastChunk(t, c);
    } else {
      LzmaFullChunk(t, c);
    }
    if aux >= 0 {
      AppendedLast(files0, File(name, t[..c]), got[..aux]);
      disk.Write(fd, got[..aux]);
    }
  }

  /** `lzma_file(fd, code2, filename)`: skips the 12-byte sub-header, creates
      `filename.lzma`, copies the rest of the file in 2048-byte chunks while
      dropping the last byte of a short chunk, counts the bytes in a 32-bit
      `copied`, and unlinks `filename`. `code2` is not used. */
  method LzmaFile(src: Source, disk: Disk, code2: u32, filename: CString)
    returns (exit: Exit, copied: u32)
    modifies src`pos, disk`files, disk`unlinked
    ensures var at := After(src.bytes, old(src.pos), LzmaHeaderSize);
      && LzmaOutcome(src.bytes, at, filename, old(disk.files), old(disk.unlinked), disk.files, disk.unlinked, exit)
      && (exit == Returned(-1) ==> src.pos == at && copied == 0)
      && (exit == Returned(0) ==>
            src.pos == (if at <= |src.bytes| then |src.bytes| else at)
            && copied == (|Tail(src.bytes, at)| - 1) % 0x1_0000_0000)
  {
    ghost var s := src.bytes;
    ghost var files0 := disk.files;
    var _ := src.Read(LzmaHeaderSize);   // the decompressed size, only printed
    ghost var at := src.pos;
    ghost var t := Tail(s, at);
    copied := 0;
    var name := LzmaName(filename);
    var ok, newf := disk.Create(name);
    if !ok {
      return Returned(-1), 0;
    }
    var more := true;
    ghost var c: nat := 0;   // bytes read so far
    while more
      invariant c <= |t| && src.pos == at + c
      invariant more ==> c % ChunkSize == 0 && copied == c % 0x1_0000_0000
      invariant more ==> disk.files == files0 + [File(name, t[..c])]
      invariant !more ==> c == |t| && copied == (|t| - 1) % 0x1_0000_0000
      invariant !more ==> disk.files == files0 + [File(name, Payload(t))]
      invariant disk.unlinked == old(disk.unlinked)
      decreases more, |t| - c
    {
      var aux;
      ghost var n;
      aux, n := ChunkPass(src, disk, newf, at, c, name, files0);
      ModAdd(c, aux);
      copied := (copied + aux) % 0x1_0000_0000;
      c := c + n;
      more := aux == ChunkSize;
    }
    disk.Unlink(filename);
    exit := Returned(0);
  }

  // ---------------------------------------------------------------------
  // main

  /** A container at least 20 bytes long: the file header is its bytes
      0..19, whatever the buffer held, and `code2` is bytes 16..19. */
  lemma FileHeaderAt0(s: seq<byte>, stale: seq<byte>)
    requires |stale| == FileHeaderSize && |s| >= FileHeaderSize
    ensures Overlay(stale, Slice(s, 0, FileHeaderSize)) == s[0..20]
    ensures Classify(DecodeFileHeader(Overlay(stale, Slice(s, 0, FileHeaderSize))).code2) == Lzma
        <==> s[16..20] == [0x00, 0x00, 0x01, 0x00] || s[16..20] == [0x00, 0x00, 0x10, 0x00]
  {
    var b := Overlay(stale, Slice(s, 0, FileHeaderSize));
    assert b == b[..FileHeaderSize];
    DispatchOnBytes(s[0..20]);
    assert s[0..20][16..20] == s[16..20];
  }

  /** A container at least 48 bytes long: the pack header is bytes 20..47. */
  lemma PackHeaderAt20(s: seq<byte>, stale: seq<byte>)
    requires |stale| == PackHeaderSize && |s| >= 48
    ensures PackCount(s, 20, stale) == DecodePackHeader(s[20..48]).num
  {
    var b := Overlay(stale, Slice(s, 20, PackHeaderSize));
    assert b == b[..PackHeaderSize];
  }

  /** Section header `i` of a pack is bytes `48 + 32 i` to `80 + 32 i`, read
      at the cursor the dispatch leaves after the two headers. */
  lemma TableAt48(s: seq<byte>, stale: seq<byte>, i: nat)
    requires |stale| == SectionHeaderSize && |s| >= 80 + 32 * i
    ensures Min(48, |s|) == 48
    ensures Section(s, Min(48, |s|), stale, i) == DecodeSectionHeader(s[48 + 32 * i..80 + 32 * i])
  {
    SectionInFile(s, 48, stale, i);
  }

  /** The payload of an LZMA container is everything from byte 32 on. */
  lemma PayloadAt32(s: seq<byte>)
    requires |s| >= 32
    ensures Tail(s, Min(32, |s|)) == s[32..]
  {
  }

  /** The dispatch in `main` on an input just opened: reads the 20-byte file
      header (bytes a short read does not deliver keep `staleFh`), then runs
      the LZMA path when `Classify` says so and the pack path otherwise.
      `main` ignores what either returns. */
  method Run(src: Source, disk: Disk, filename: CString,
             staleFh: seq<byte>, stalePh: seq<byte>, staleSh: seq<byte>)
    returns (kind: Kind, exit: Exit, ghost done: nat)
    requires src.pos == 0
    requires |staleFh| == FileHeaderSize && |stalePh| == PackHeaderSize && |staleSh| == SectionHeaderSize
    modifies src`pos, disk`files, disk`unlinked
    ensures kind == Classify(DecodeFileHeader(Overlay(staleFh, Slice(src.bytes, 0, FileHeaderSize))).code2)
    ensures kind == Pack ==>
      && disk.unlinked == old(disk.unlinked)
      && PackOutcome(src.bytes, Min(48, |src.bytes|), staleSh, PackCount(src.bytes, 20, stalePh),
                     old(disk.files), disk.files, exit, done)
    ensures kind == Lzma ==>
      LzmaOutcome(src.bytes, Min(32, |src.bytes|), filename,
                  old(disk.files), old(disk.unlinked), disk.files, disk.unlinked, exit)
  {
    ghost var s := src.bytes;
    var got := src.Read(FileHeaderSize);
    var fh := DecodeFileHeader(Overlay(staleFh, got));
    AfterClamps(s, 0, FileHeaderSize);
    AfterClamps(s, src.pos, PackHeaderSize);
    AfterClamps(s, src.pos, LzmaHeaderSize);
    assert Slice(s, src.pos, PackHeaderSize) == Slice(s, 20, PackHeaderSize);
    kind := Classify(fh.code2);
    if kind == Pack {
      exit, done := PackFile(src, disk, Unsigned(fh.code2), stalePh, staleSh);
    } else {
      var copied;
      exit, copied := LzmaFile(src, disk, Unsigned(fh.code2), filename);
      done := 0;
    }
  }
}
