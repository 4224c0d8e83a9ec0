# NGG7 container extractor, modelled in Dafny

`ngg7` unpacks NGG7 firmware containers. A container starts with a 20-byte
file header whose `code2` field selects one of two layouts:

- a **pack**: a 28-byte pack header announcing `num` sections, followed
  by `num` contiguous 32-byte section headers. Each header names a file
  and gives the absolute offset and size of its bytes. The extractor
  creates one file per section and copies the section's range into it.
- a **single LZMA payload**: a 12-byte sub-header, then the payload up to
  the end of the file. The extractor streams it into `<name>.lzma` in
  2048-byte chunks, leaves out the last byte of a short final chunk (the
  format's terminator), and unlinks the container.

The model follows the C code line by line, in its own imperative form:

- `Files.Source` is the container opened read-only, with its cursor.
  `Read` returns what POSIX `read` returns for a regular file, and `Seek`
  refuses negative offsets as `lseek` does.
- `Files.Disk` is the part of the working directory the tool changes:
  the files it created, in creation order, with their contents, and the
  names it unlinked. `Create` may fail, since `open` can fail for reasons
  the model does not see.
- `Extract.CopyContent`, `Extract.PackFile` (with its section loop
  `ExtractSections` and one pass `ExtractSection`), `Extract.LzmaFile`
  (with one loop pass `ChunkPass`) and the dispatch `Extract.Run` are
  methods with the loops of `copy_content`, `pack_file`, `lzma_file` and
  `main`. Each is proved against specification functions: `Slice`,
  `Extracted`, `Payload`, and the outcome predicates `PackOutcome` and
  `LzmaOutcome`. Lemmas then state what the tool promises in terms of
  those functions.
- Reading into a C struct overwrites only the bytes `read` delivers. The
  rest keeps whatever the buffer held before, which is uninitialised
  stack memory on the first read. The methods therefore take that earlier
  content (`staleFh`, `stalePh`, `staleSh`) as a parameter, and `Overlay`
  states what the struct holds after a short read. For a container long
  enough, lemmas show that the stale content does not matter.
- When a section's range runs past the end of the file, `copy_content`
  never returns: `read` keeps returning 0 and `copied < size` stays true.
  The model stops at the first empty read. `CopyContent` then reports
  `stalled`, and `PackFile` ends with `Exit.Hangs`.

Modules: `Bytes` (bytes, little-endian integers, `read` semantics),
`Layout` (the four packed records, the format test, C names), `Files`
(the container and the working directory), `Extract` (the extractor).

## Three behaviours of the code worth knowing

- **Exact multiple of 2048.** The program's comments say an LZMA container
  ends in a terminating zero byte (ngg7.c:34), and that the loop drops it so
  as not to write it (ngg7.c:155). The loop drops the last byte only of a
  chunk shorter than 2048. When the payload length is `k*2048`, every chunk
  is full and written whole. The next `read` returns 0, `aux` becomes -1 and
  nothing more is written. So no byte is dropped, and the 32-bit `copied`
  ends as `(k*2048 - 1) mod 2^32` (lemmas `ExactMultiple`, `ReportedCount`).
- **Truncated section.** A section whose range runs past the end of the
  file never finishes copying. `read` keeps returning 0 and `copied < size`
  stays true (`StallsIsShortRead`, `Exit.Hangs`).
- **Existing output file.** Output files are opened without `O_TRUNC`, so
  an existing longer file keeps its old tail (see "Left out").

## Model

| member | source | states |
|---|---|---|
| Bytes.LeValueOfLeBytes | ngg7.c:32-70 | reading back an n-byte little-endian field gives the stored value, for every value below 256^n |
| Bytes.LeBytesOfLeValue | ngg7.c:32-70 | storing the value read from a field gives back exactly its bytes: the little-endian encoding is a bijection |
| Bytes.LeValueInjective | ngg7.c:32-70 | two fields of the same width with the same value hold the same bytes |
| Bytes.Signed | ngg7.c:40-41 | a C `int` read from a 32-bit pattern is congruent to it modulo 2^32 and lies in the `int` range |
| Bytes.Unsigned | ngg7.c:191-195 | converting the signed `code2` to the `uint32_t` parameter is undone by reading it back as `int` |
| Bytes.Slice | ngg7.c:88-90 | `read` of n bytes at a cursor returns the next n bytes, fewer at the end of the file, none at or past it |
| Bytes.Overlay | ngg7.c:106 | after `read` into a struct, its first bytes are what was read and the rest keep the earlier contents |
| Bytes.AfterClamps | ngg7.c:187 | a read that starts inside the file moves the cursor by the count but never past the end; one past the end leaves it |
| Bytes.SliceSplit | ngg7.c:85-93 | reading a bytes and then b more yields what one read of a+b would |
| Bytes.SliceSaturated | ngg7.c:85-93 | once a read has reached the end of the file, asking for more yields nothing more |
| Layout.DecodeFileHeader | ngg7.c:187 | the 20 bytes read into `fh` as a well-formed header: `head` is bytes 0..3 and `ver` bytes 4..7; `EncodeFileHeader` is its inverse (`FileHeaderRoundTrip`, `FileHeaderLayout`) |
| Layout.DecodeLzmaHeader | ngg7.c:139 | the 12 bytes read into `lh`: `size_d` is the little-endian value of bytes 0..7, `zero1` the `int` whose 32-bit pattern is bytes 8..11 |
| Layout.DecodePackHeader | ngg7.c:106 | the 28 bytes read into `ph` as a well-formed header: `info` is bytes 4..11; `EncodePackHeader` is its inverse (`PackHeaderRoundTrip`, `PackHeaderLayout`) |
| Layout.DecodeSectionHeader | ngg7.c:113 | the 32 bytes read into `sh` as a well-formed header: the name field is bytes 0..15; `EncodeSectionHeader` is its inverse (`SectionHeaderRoundTrip`, `SectionHeaderLayout`) |
| Layout.FileHeaderRoundTrip | ngg7.c:32-42 | decoding the 20 stored bytes of a file header gives the header back |
| Layout.FileHeaderLayout | ngg7.c:32-42 | every 20 bytes are the stored form of the header they decode to: no padding, `code2` in bytes 16..19 |
| Layout.LzmaHeaderRoundTrip | ngg7.c:45-49 | decoding the 12 stored bytes of the sub-header gives it back |
| Layout.LzmaHeaderLayout | ngg7.c:45-49 | every 12 bytes are the stored form of the sub-header they decode to |
| Layout.PackHeaderRoundTrip | ngg7.c:52-60 | decoding the 28 stored bytes of a pack header gives it back |
| Layout.PackHeaderLayout | ngg7.c:52-60 | every 28 bytes are the stored form of the pack header they decode to; `num` is bytes 12..15 |
| Layout.SectionHeaderRoundTrip | ngg7.c:63-70 | decoding the 32 stored bytes of a section header gives it back |
| Layout.SectionHeaderLayout | ngg7.c:63-70 | every 32 bytes are the stored form of the section header they decode to: name 0..15, offset 16..19, size 20..23 |
| Layout.Classify | ngg7.c:191-195 | the pack path is taken exactly when `code2` is neither 65536 nor 1048576, the LZMA path exactly when it is one of them; no third case |
| Layout.DispatchOnBytes | ngg7.c:191-195 | the same test on the header's bytes: the LZMA path exactly when bytes 16..19 are 00 00 01 00 or 00 00 10 00 |
| Layout.CName | ngg7.c:117 | the name `open` receives from a name field is its bytes before the first NUL (all of them without a NUL), holding no NUL |
| Files.Appended | ngg7.c:91 | a write to one file extends that file by the chunk and leaves every other file unchanged |
| Files.AppendedLast | ngg7.c:159 | writing to the newest file extends only the last entry |
| Files.Source.Tell | ngg7.c:79 | `lseek(org, 0, SEEK_CUR)` returns the cursor |
| Files.Source.Seek | ngg7.c:82 | a non-negative offset moves the cursor there, even past the end; a negative one fails with -1 and leaves it |
| Files.Source.Read | ngg7.c:88-90 | returns `Slice` of the file at the cursor and moves the cursor past what it returned |
| Files.Disk.Create | ngg7.c:117-118 | on success the new file is empty, is appended to the created files and its descriptor designates it; on failure nothing changes |
| Files.Disk.Write | ngg7.c:91 | the designated file is extended by the chunk, nothing else changes |
| Files.Disk.Unlink | ngg7.c:168 | the name is recorded as unlinked |
| Extract.SeekTarget | ngg7.c:82 | where `lseek(org, offset, SEEK_SET)` leaves the cursor: at `offset` when it is not negative, even past the end; otherwise the call fails and the cursor stays |
| Extract.StallsIsShortRead | ngg7.c:85-93 | `Stalls`, the condition under which the copy loop never ends, holds exactly when a read of a positive `size` at the start of the range would deliver fewer than `size` bytes |
| Extract.CopyInBounds | ngg7.c:82-93 | with 0 <= offset and offset+size within the file the copy ends and appends exactly the range, nothing when size <= 0 |
| Extract.CopyRunsOut | ngg7.c:85-93 | an empty read before `size` bytes are copied means the range runs past the end of the file and nothing more will come |
| Extract.CopyContinues | ngg7.c:87-92 | each read asks for at most 2048 and at most `size-copied` bytes, so `copied` never exceeds `size`, and the bytes continue the range |
| Extract.CopyChunk | ngg7.c:87-92 | one pass of the copy loop: an empty read leaves the destination as it was and the range stalls; otherwise `n` more bytes of the range are written, never beyond `size` |
| Extract.CopyContent | ngg7.c:72-97 | appends `Slice(file, offset, size)` to the destination; it stalls exactly when size > 0 and the range passes the end; otherwise the cursor is restored |
| Extract.Cursor | ngg7.c:110-113 | the cursor after `i` section-header reads is where one read of `32*i` bytes would leave it: moved on by 32 bytes a header, never past the end of the file |
| Extract.HeaderBuffer | ngg7.c:103-113 | the one `sh` buffer the loop reuses: after a read that delivers a whole header it holds exactly that header's 32 bytes of the file |
| Extract.HeaderBufferStep | ngg7.c:113 | each section header read overwrites the buffer with what it delivers |
| Extract.CursorStep | ngg7.c:113 | the i-th section header read at the loop's cursor reads table entry i and moves the cursor to entry i+1 |
| Extract.ExtractedStep | ngg7.c:116-123 | creating section i's file and copying its range extends the outputs by exactly `SectionFile(i)` |
| Extract.ExtractSection | ngg7.c:112-124 | one pass: reads the next header; fails with no new file, or adds section i's file; stalls exactly when section i runs off the end |
| Extract.PackFailed | ngg7.c:117-122 | a failed create returns -1 with the earlier outputs in place and no later section processed |
| Extract.PackHung | ngg7.c:123 | a copy that runs off the end hangs with the outputs created so far |
| Extract.PackFinished | ngg7.c:126 | after all `num` sections, 0 is returned with one output per section |
| Extract.ExtractSections | ngg7.c:110-126 | the section loop ends as `PackOutcome` says: 0 after exactly `num` sections in order, -1 at a failed create, or a hang in a copy |
| Extract.PackFile | ngg7.c:99-127 | reads the pack header (stale bytes kept on a short read), then the section loop over its `num`; `size` plays no part |
| Extract.ExtractedAt | ngg7.c:110-124 | output k is section k's file: named after its name field, holding its range |
| Extract.NoStallAt | ngg7.c:123 | when none of the first n copies ran off the end, copy i did not |
| Extract.EmptyPack | ngg7.c:110 | a pack announcing no section creates no file and returns 0 |
| Extract.SectionInFile | ngg7.c:113 | when section header i lies inside the file, the loop decodes exactly its 32 bytes, whatever the buffer held |
| Extract.SectionContent | ngg7.c:113-123 | a section whose header and range lie inside the file yields a file holding exactly `s[offset..offset+size]` and its copy ends |
| Extract.SectionNoStall | ngg7.c:113-123 | the copy of a section whose header and range lie inside the file ends |
| Extract.InFileStep | ngg7.c:110-124 | one more section inside the file keeps the sections before it free of copies that run off the end |
| Extract.InFileNoStall | ngg7.c:110-124 | in a table whose sections all lie inside the file no copy runs off the end |
| Extract.WellFormedPack | ngg7.c:110-126 | a well-formed pack never hangs: it returns 0 or -1 |
| Extract.TableAt48 | ngg7.c:113 | when the dispatch reaches a pack, section header i is bytes 48+32i to 80+32i |
| Extract.PackHeaderAt20 | ngg7.c:106 | the pack header is bytes 20..47, whatever the buffer held |
| Extract.FileHeaderAt0 | ngg7.c:187-191 | the file header is bytes 0..19, and the path is chosen by bytes 16..19 alone |
| Extract.PayloadAt32 | ngg7.c:154 | the LZMA payload is the file from byte 32 on |
| Extract.TailSlice | ngg7.c:154 | a read at `at + c` in the file is a read at `c` in the payload that starts at `at` |
| Extract.StreamedIsPayload | ngg7.c:152-162 | the chunk-by-chunk output of the loop equals the payload without its last byte, or the whole payload when its length is a multiple of 2048 |
| Extract.ShortFinalChunk | ngg7.c:156-157 | with L = 2048k + r and r > 0 the output is the first L-1 bytes, and every full chunk is kept whole |
| Extract.ExactMultiple | ngg7.c:152-162 | with r = 0 the whole payload is written: no terminator is dropped |
| Extract.ReportedCount | ngg7.c:136-160 | `copied` is L-1 mod 2^32: the bytes written when r > 0, one short of them when r = 0 < L, 4294967295 when L = 0 |
| Extract.LzmaName | ngg7.c:143 | the output name is the container name plus ".lzma", cut to 255 bytes (one `CString` character per byte) |
| Extract.LzmaFullChunk | ngg7.c:154-162 | a read that fills the buffer continues the payload and the loop goes on from a chunk boundary |
| Extract.LzmaLastChunk | ngg7.c:154-159 | a short read reaches the end of the payload, and writing it minus its last byte completes `Payload` |
| Extract.ChunkPass | ngg7.c:154-159 | one pass writes a full chunk whole and ends the output at `Payload` on a short or empty read |
| Extract.LzmaFile | ngg7.c:129-171 | -1 with nothing changed when the output cannot be created; else the output holds `Payload` of the rest of the file, `copied` is L-1 mod 2^32 and the container is unlinked |
| Extract.Run | ngg7.c:186-195 | reads the file header and runs exactly the path `Classify(code2)` picks, with the cursor at 48 or 32 when the file is long enough |

## Left out

- `main`'s argument handling, the `open` of the input and every `close`
  (ngg7.c:175-184, 124, 164, 198): the input is an already open `Source`.
- All `printf` and `perror` diagnostics: they only format output. The
  decompressed size read at ngg7.c:139 is only printed, so it plays no part.
- Permission bits and the `<= 0` descriptor tests of `open`
  (ngg7.c:117-118, 144-145). They are one outcome of `Disk.Create`: it may
  fail.
- File descriptors: a created file's descriptor is its index in
  `Disk.files`.
- `open` without `O_TRUNC` (ngg7.c:117, 144). An existing, longer file
  would keep a stale tail, and two sections with the same name would share
  one file. In the model every created file starts empty and is a new entry.
- `read` failing (-1) or returning less than is available for reasons
  other than the end of the file. `read` is modelled as returning
  min(n, remaining).
- `write` failing or writing less than asked, for example on a full disk
  (ngg7.c:91, 159): it is modelled as always writing the whole chunk. The
  code ignores its result, so `copied` would advance all the same.
- `write` with count -1 (ngg7.c:159, after an empty read): it is
  modelled as writing nothing.
- A `section_name` without NUL: C would read past the field. `CName` takes
  all 16 bytes.
- LZMA decompression: the payload is opaque bytes.
- ExtractSections: does not model `i` as a signed C `int`. Against the
  `uint32_t` `num`, it would overflow after 2^31 - 1 sections; the model's
  counter is unbounded.
- CopyContent: does not model the endless loop itself. It stops at the
  first empty read, after which every further pass of the C loop reads
  and writes nothing.
- The missing return value of `copy_content` (ngg7.c:72-97), which its
  caller ignores.
- `unlink`'s result, which the code ignores (ngg7.c:168). The model only
  records the name.
