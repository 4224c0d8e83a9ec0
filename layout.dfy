/** The four packed records of an NGG7 container, as they lie in the file
    (x86 byte order, no padding), and the format test that picks an
    extraction path from the file header. */
module Layout {
  import opened Bytes

  const FileHeaderSize := 20
  const LzmaHeaderSize := 12
  const PackHeaderSize := 28
  const SectionHeaderSize := 32

  /** `struct file_header`: tag "NGG7", version "2.00", three codes and the
      format selector `code2`. */
  datatype FileHeader = FileHeader(
    head: seq<byte>, ver: seq<byte>, code1: u16, const1: u16, const2: i32, code2: i32)
  {
    predicate Valid() { |head| == 4 && |ver| == 4 }
  }

  /** `struct lzma_header`: the decompressed size and a reserved word. */
  datatype LzmaHeader = LzmaHeader(sizeD: u64, zero1: i32)

  /** `struct pack_header`: an unknown code, an 8-byte tag, the section count
      and three unknown codes. */
  datatype PackHeader = PackHeader(
    code1: u32, info: seq<byte>, num: u32, code2: u32, code3: u32, code4: u32)
  {
    predicate Valid() { |info| == 8 }
  }

  /** `struct section_header`: a 16-byte name, the absolute offset and the
      size of the section's bytes, and two unknown codes. */
  datatype SectionHeader = SectionHeader(
    name: seq<byte>, offset: i32, size: i32, code1: i32, code2: i32)
  {
    predicate Valid() { |name| == 16 }
  }

  function DecodeFileHeader(b: seq<byte>): (h: FileHeader)
    requires |b| == FileHeaderSize
    ensures h.Valid() && h.head == b[0..4] && h.ver == b[4..8]
  {
    FileHeader(b[0..4], b[4..8], U16(b[8..10]), U16(b[10..12]), I32(b[12..16]), I32(b[16..20]))
  }

  function EncodeFileHeader(h: FileHeader): (b: seq<byte>)
    requires h.Valid()
    ensures |b| == FileHeaderSize
  {
    h.head + h.ver + LeBytes(h.code1, 2) + LeBytes(h.const1, 2)
      + LeBytes(Unsigned(h.const2), 4) + LeBytes(Unsigned(h.code2), 4)
  }

  function DecodeLzmaHeader(b: seq<byte>): (h: LzmaHeader)
    requires |b| == LzmaHeaderSize
    ensures h.sizeD == LeValue(b[0..8]) && h.zero1 % 0x1_0000_0000 == LeValue(b[8..12])
  {
    LzmaHeader(U64(b[0..8]), I32(b[8..12]))
  }

  function EncodeLzmaHeader(h: LzmaHeader): (b: seq<byte>)
    ensures |b| == LzmaHeaderSize
  {
    LeBytes(h.sizeD, 8) + LeBytes(Unsigned(h.zero1), 4)
  }

  function DecodePackHeader(b: seq<byte>): (h: PackHeader)
    requires |b| == PackHeaderSize
    ensures h.Valid() && h.info == b[4..12]
  {
    PackHeader(U32(b[0..4]), b[4..12], U32(b[12..16]), U32(b[16..20]), U32(b[20..24]), U32(b[24..28]))
  }

  function EncodePackHeader(h: PackHeader): (b: seq<byte>)
    requires h.Valid()
    ensures |b| == PackHeaderSize
  {
    LeBytes(h.code1, 4) + h.info + LeBytes(h.num, 4)
      + LeBytes(h.code2, 4) + LeBytes(h.code3, 4) + LeBytes(h.code4, 4)
  }

  function DecodeSectionHeader(b: seq<byte>): (h: SectionHeader)
    requires |b| == SectionHeaderSize
    ensures h.Valid() && h.name == b[0..16]
  {
    SectionHeader(b[0..16], I32(b[16..20]), I32(b[20..24]), I32(b[24..28]), I32(b[28..32]))
  }

  function EncodeSectionHeader(h: SectionHeader): (b: seq<byte>)
    requires h.Valid()
    ensures |b| == SectionHeaderSize
  {
    h.name + LeBytes(Unsigned(h.offset), 4) + LeBytes(Unsigned(h.size), 4)
      + LeBytes(Unsigned(h.code1), 4) + LeBytes(Unsigned(h.code2), 4)
  }

  lemma U16RoundTrip(x: u16)
    ensures U16(LeBytes(x, 2)) == x
  {
    Pow256Widths();
    LeValueOfLeBytes(x, 2);
  }

  lemma U32RoundTrip(x: u32)
    ensures U32(LeBytes(x, 4)) == x
  {
    Pow256Widths();
    LeValueOfLeBytes(x, 4);
  }

  lemma I32RoundTrip(x: i32)
    ensures I32(LeBytes(Unsigned(x), 4)) == x
  {
    U32RoundTrip(Unsigned(x));
  }

  lemma U64RoundTrip(x: u64)
    ensures U64(LeBytes(x, 8)) == x
  {
    Pow256Widths();
    LeValueOfLeBytes(x, 8);
  }

  lemma I32Bytes(s: seq<byte>)
    requires |s| == 4
    ensures LeBytes(Unsigned(I32(s)), 4) == s
  {
    Pow256Widths();
    LeBytesOfLeValue(s);
  }

  lemma U32Bytes(s: seq<byte>)
    requires |s| == 4
    ensures LeBytes(U32(s), 4) == s
  {
    LeBytesOfLeValue(s);
  }

  /** Decoding the stored form of a header gives the header back. */
  lemma FileHeaderRoundTrip(h: FileHeader)
    requires h.Valid()
    ensures DecodeFileHeader(EncodeFileHeader(h)) == h
  {
    var c1, k1 := LeBytes(h.code1, 2), LeBytes(h.const1, 2);
    var k2, c2 := LeBytes(Unsigned(h.const2), 4), LeBytes(Unsigned(h.code2), 4);
    var b := EncodeFileHeader(h);
    assert b == h.head + h.ver + c1 + k1 + k2 + c2;
    assert forall i | 0 <= i < 4 :: b[i] == h.head[i] && b[4 + i] == h.ver[i] && b[12 + i] == k2[i] && b[16 + i] == c2[i];
    assert forall i | 0 <= i < 2 :: b[8 + i] == c1[i] && b[10 + i] == k1[i];
    assert b[0..4] == h.head && b[4..8] == h.ver && b[8..10] == c1 && b[10..12] == k1;
    assert b[12..16] == k2 && b[16..20] == c2;
    U16RoundTrip(h.code1);
    U16RoundTrip(h.const1);
    I32RoundTrip(h.const2);
    I32RoundTrip(h.code2);
  }

  /** Every 20-byte string is the stored form of the header it decodes to:
      the record covers exactly bytes 0..19 with no padding, `code2` in
      bytes 16..19. */
  lemma FileHeaderLayout(b: seq<byte>)
    requires |b| == FileHeaderSize
    ensures EncodeFileHeader(DecodeFileHeader(b)) == b
  {
    var p2, p3, p4, p5 := b[8..10], b[10..12], b[12..16], b[16..20];
    Pow256Widths();
    LeBytesOfLeValue(p2);
    LeBytesOfLeValue(p3);
    I32Bytes(p4);
    I32Bytes(p5);
    Cut(b, 0, 4, 8);
    Cut(b, 0, 8, 10);
    Cut(b, 0, 10, 12);
    Cut(b, 0, 12, 16);
    Cut(b, 0, 16, 20);
  }

  lemma LzmaHeaderRoundTrip(h: LzmaHeader)
    ensures DecodeLzmaHeader(EncodeLzmaHeader(h)) == h
  {
    var d, z := LeBytes(h.sizeD, 8), LeBytes(Unsigned(h.zero1), 4);
    var b := EncodeLzmaHeader(h);
    assert forall i | 0 <= i < 4 :: b[8 + i] == z[i];
    assert b[0..8] == d && b[8..12] == z;
    U64RoundTrip(h.sizeD);
    I32RoundTrip(h.zero1);
  }

  lemma LzmaHeaderLayout(b: seq<byte>)
    requires |b| == LzmaHeaderSize
    ensures EncodeLzmaHeader(DecodeLzmaHeader(b)) == b
  {
    var p0, p1 := b[0..8], b[8..12];
    Pow256Widths();
    LeBytesOfLeValue(p0);
    I32Bytes(p1);
    Cut(b, 0, 8, 12);
  }

  lemma PackHeaderRoundTrip(h: PackHeader)
    requires h.Valid()
    ensures DecodePackHeader(EncodePackHeader(h)) == h
  {
    var c1, n := LeBytes(h.code1, 4), LeBytes(h.num, 4);
    var c2, c3, c4 := LeBytes(h.code2, 4), LeBytes(h.code3, 4), LeBytes(h.code4, 4);
    var b := EncodePackHeader(h);
    assert b == c1 + h.info + n + c2 + c3 + c4;
    assert forall i | 0 <= i < 4 :: b[i] == c1[i] && b[12 + i] == n[i] && b[16 + i] == c2[i] && b[20 + i] == c3[i] && b[24 + i] == c4[i];
    assert forall i | 0 <= i < 8 :: b[4 + i] == h.info[i];
    assert b[0..4] == c1 && b[4..12] == h.info && b[12..16] == n;
    assert b[16..20] == c2 && b[20..24] == c3 && b[24..28] == c4;
    U32RoundTrip(h.code1);
    U32RoundTrip(h.num);
    U32RoundTrip(h.code2);
    U32RoundTrip(h.code3);
    U32RoundTrip(h.code4);
  }

  /** The pack header covers exactly 28 bytes; `num` is bytes 12..15. */
  lemma PackHeaderLayout(b: seq<byte>)
    requires |b| == PackHeaderSize
    ensures EncodePackHeader(DecodePackHeader(b)) == b
  {
    var p0, p2, p3, p4, p5 := b[0..4], b[12..16], b[16..20], b[20..24], b[24..28];
    U32Bytes(p0);
    U32Bytes(p2);
    U32Bytes(p3);
    U32Bytes(p4);
    U32Bytes(p5);
    Cut(b, 0, 4, 12);
    Cut(b, 0, 12, 16);
    Cut(b, 0, 16, 20);
    Cut(b, 0, 20, 24);
    Cut(b, 0, 24, 28);
  }

  lemma SectionHeaderRoundTrip(h: SectionHeader)
    requires h.Valid()
    ensures DecodeSectionHeader(EncodeSectionHeader(h)) == h
  {
    var o, z := LeBytes(Unsigned(h.offset), 4), LeBytes(Unsigned(h.size), 4);
    var c1, c2 := LeBytes(Unsigned(h.code1), 4), LeBytes(Unsigned(h.code2), 4);
    var b := EncodeSectionHeader(h);
    assert b == h.name + o + z + c1 + c2;
    assert forall i | 0 <= i < 4 :: b[16 + i] == o[i] && b[20 + i] == z[i] && b[24 + i] == c1[i] && b[28 + i] == c2[i];
    assert forall i | 0 <= i < 16 :: b[i] == h.name[i];
    assert b[0..16] == h.name && b[16..20] == o && b[20..24] == z;
    assert b[24..28] == c1 && b[28..32] == c2;
    I32RoundTrip(h.offset);
    I32RoundTrip(h.size);
    I32RoundTrip(h.code1);
    I32RoundTrip(h.code2);
  }

  /** The section header covers exactly 32 bytes: name 0..15, offset 16..19,
      size 20..23. */
  lemma SectionHeaderLayout(b: seq<byte>)
    requires |b| == SectionHeaderSize
    ensures EncodeSectionHeader(DecodeSectionHeader(b)) == b
  {
    var p1, p2, p3, p4 := b[16..20], b[20..24], b[24..28], b[28..32];
    I32Bytes(p1);
    I32Bytes(p2);
    I32Bytes(p3);
    I32Bytes(p4);
    Cut(b, 0, 16, 20);
    Cut(b, 0, 20, 24);
    Cut(b, 0, 24, 28);
    Cut(b, 0, 28, 32);
  }

  /** The two extraction paths; there is no third. */
  datatype Kind = Pack | Lzma

  /** The test in `main`: a selector other than 65536 and 1048576 means a
      pack, either of those two means a single LZMA payload. */
  function Classify(code2: i32): (k: Kind)
    ensures k == Lzma <==> code2 == 65536 || code2 == 1048576
    ensures k == Pack <==> code2 != 65536 && code2 != 1048576
  {
    if code2 != 65536 && code2 != 1048576 then Pack else Lzma
  }

  /** The same test read off the header's bytes: the payload path is taken
      exactly when bytes 16..19 hold 00 00 01 00 or 00 00 10 00. */
  lemma DispatchOnBytes(b: seq<byte>)
    requires |b| == FileHeaderSize
    ensures Classify(DecodeFileHeader(b).code2) == Lzma
        <==> b[16..20] == [0x00, 0x00, 0x01, 0x00] || b[16..20] == [0x00, 0x00, 0x10, 0x00]
  {
    var w := b[16..20];
    var c := DecodeFileHeader(b).code2;
    Pow256Widths();
    assert LeValue([0x00, 0x00, 0x01, 0x00]) == 65536;
    assert LeValue([0x00, 0x00, 0x10, 0x00]) == 1048576;
    if c == 65536 {
      LeValueInjective(w, [0x00, 0x00, 0x01, 0x00]);
    } else if c == 1048576 {
      LeValueInjective(w, [0x00, 0x00, 0x10, 0x00]);
    }
  }

  /** A file name as the C library sees it: a string of bytes, each
      character standing for one byte, holding no NUL. */
  type CString = s: string | '\0' !in s && forall c :: c in s ==> c as int < 256

  function Char(b: byte): (c: char)
    ensures c as int == b
  {
    b as char
  }

  /** The name `open` receives from a fixed-size name field: its bytes up to
      the first NUL, or all of them when it holds none. */
  function CName(field: seq<byte>): (name: CString)
    ensures |name| <= |field|
    ensures forall i :: 0 <= i < |name| ==> field[i] != 0 && name[i] == Char(field[i])
    ensures |name| < |field| ==> field[|name|] == 0
  {
    if field == [] || field[0] == 0 then ""
    else
      var rest := CName(field[1..]);
      assert Char(field[0]) != '\0';
      [Char(field[0])] + rest
  }
}
