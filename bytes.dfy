/** Bytes, fixed-width integers stored little-endian, and what a POSIX `read`
    of a regular file hands back. */
module Bytes {

  /** One octet of a file. */
  type byte = b: int | 0 <= b < 256

  type u16 = x: int | 0 <= x < 0x1_0000
  type u32 = x: int | 0 <= x < 0x1_0000_0000
  type u64 = x: int | 0 <= x < 0x1_0000_0000_0000_0000
  type i32 = x: int | -0x8000_0000 <= x < 0x8000_0000

  function Pow256(n: nat): (r: nat)
    ensures r > 0
  {
    if n == 0 then 1 else 256 * Pow256(n - 1)
  }

  lemma Pow256Widths()
    ensures Pow256(2) == 0x1_0000
    ensures Pow256(4) == 0x1_0000_0000
    ensures Pow256(8) == 0x1_0000_0000_0000_0000
  {
    assert Pow256(1) == 256;
    assert Pow256(2) == 0x1_0000;
    assert Pow256(3) == 0x100_0000;
    assert Pow256(4) == 0x1_0000_0000;
    assert Pow256(5) == 0x100_0000_0000;
    assert Pow256(6) == 0x1_0000_0000_0000;
    assert Pow256(7) == 0x100_0000_0000_0000;
  }

  /** The unsigned value of `s`, least significant byte first. */
  function LeValue(s: seq<byte>): (r: nat)
    ensures r < Pow256(|s|)
  {
    if s == [] then 0 else s[0] + 256 * LeValue(s[1..])
  }

  /** The `n` bytes that store `x` least significant byte first. */
  function LeBytes(x: nat, n: nat): (r: seq<byte>)
    ensures |r| == n
  {
    if n == 0 then [] else [x % 256] + LeBytes(x / 256, n - 1)
  }

  /** Reading back what was stored gives the stored value. */
  lemma {:induction false} LeValueOfLeBytes(x: nat, n: nat)
    requires x < Pow256(n)
    ensures LeValue(LeBytes(x, n)) == x
  {
    if n > 0 {
      var q, r := x / 256, x % 256;
      assert x == 256 * q + r;
      assert q < Pow256(n - 1);
      LeValueOfLeBytes(q, n - 1);
      var b := LeBytes(x, n);
      assert b[0] == r && b[1..] == LeBytes(q, n - 1);
    }
  }

  /** Storing what was read gives the bytes back: the encoding is a bijection. */
  lemma {:induction false} LeBytesOfLeValue(s: seq<byte>)
    ensures LeBytes(LeValue(s), |s|) == s
  {
    if s != [] {
      LeBytesOfLeValue(s[1..]);
      var w := LeValue(s[1..]);
      var v := s[0] + 256 * w;
      assert v == LeValue(s);
      assert v % 256 == s[0] && v / 256 == w;
    }
  }

  lemma LeValueInjective(a: seq<byte>, b: seq<byte>)
    requires |a| == |b| && LeValue(a) == LeValue(b)
    ensures a == b
  {
    LeBytesOfLeValue(a);
    LeBytesOfLeValue(b);
  }

  function U16(s: seq<byte>): u16
    requires |s| == 2
  {
    Pow256Widths();
    LeValue(s)
  }

  function U32(s: seq<byte>): u32
    requires |s| == 4
  {
    Pow256Widths();
    LeValue(s)
  }

  function U64(s: seq<byte>): u64
    requires |s| == 8
  {
    Pow256Widths();
    LeValue(s)
  }

  /** Two's-complement reading of a 32-bit pattern (C `int`, `int32_t`). */
  function Signed(u: u32): (x: i32)
    ensures x % 0x1_0000_0000 == u
  {
    if u < 0x8000_0000 then u else u - 0x1_0000_0000
  }

  /** The 32-bit pattern of a signed value. */
  function Unsigned(x: i32): (u: u32)
    ensures Signed(u) == x
  {
    x % 0x1_0000_0000
  }

  function I32(s: seq<byte>): i32
    requires |s| == 4
  {
    Signed(U32(s))
  }

  /** What `read(fd, buf, n)` returns when the cursor is at `start` of a
      regular file holding `s`: the next `n` bytes, fewer at the end of the
      file, none at or past it (and none for a count that is not positive). */
  function Slice(s: seq<byte>, start: nat, n: int): (r: seq<byte>)
    ensures n <= 0 || start >= |s| ==> r == []
    ensures 0 < n && start + n <= |s| ==> r == s[start..start + n]
    ensures 0 < n && start < |s| < start + n ==> r == s[start..]
  {
    if n <= 0 || start >= |s| then []
    else if start + n <= |s| then s[start..start + n]
    else s[start..]
  }

  /** The contents of a buffer after a read placed `got` at its front: the
      bytes `read` did not deliver keep what the buffer held before. */
  function Overlay(buf: seq<byte>, got: seq<byte>): (r: seq<byte>)
    requires |got| <= |buf|
    ensures |r| == |buf|
    ensures r[..|got|] == got && r[|got|..] == buf[|got|..]
  {
    got + buf[|got|..]
  }

  function Min(a: nat, b: nat): nat
  {
    if a <= b then a else b
  }

  /** The cursor after reading `n` bytes at `p`. */
  function After(s: seq<byte>, p: nat, n: int): nat
  {
    p + |Slice(s, p, n)|
  }

  /** A read that starts inside the file moves the cursor by the requested
      count, but never past the end; one that starts at or past the end
      leaves the cursor where it is. */
  lemma AfterClamps(s: seq<byte>, p: nat, n: nat)
    ensures p <= |s| ==> After(s, p, n) == Min(p + n, |s|)
    ensures p > |s| ==> After(s, p, n) == p
  {
  }

  /** Once a read of `a` bytes has reached the end of the file, asking for
      more gives nothing more. */
  lemma SliceSaturated(s: seq<byte>, start: nat, a: nat, b: int)
    requires a <= b && start + a >= |s|
    ensures Slice(s, start, a) == Slice(s, start, b)
  {
  }

  /** Asking for exactly what a read delivered delivers the same bytes. */
  lemma SliceOwnLength(s: seq<byte>, start: nat, n: int)
    ensures Slice(s, start, |Slice(s, start, n)|) == Slice(s, start, n)
  {
  }

  /** Two adjacent pieces of a string make up the piece they span. */
  lemma Cut(s: seq<byte>, i: nat, j: nat, k: nat)
    requires i <= j <= k <= |s|
    ensures s[i..j] + s[j..k] == s[i..k]
  {
    assert forall m | 0 <= m < k - i :: (s[i..j] + s[j..k])[m] == s[i..k][m];
  }

  /** Reading `a` bytes and then `b` more hands back what one read of `a + b` would. */
  lemma {:induction false} SliceSplit(s: seq<byte>, start: nat, a: nat, b: nat)
    ensures Slice(s, start, a) + Slice(s, start + a, b) == Slice(s, start, a + b)
  {
    if b == 0 {
      assert Slice(s, start, a + b) == Slice(s, start, a);
    } else if start + a + b <= |s| {
      assert s[start..start + a] + s[start + a..start + a + b] == s[start..start + a + b];
    } else if start + a < |s| {
      if a > 0 {
        assert s[start..start + a] + s[start + a..] == s[start..];
      }
    } else {
      assert Slice(s, start + a, b) == [];
    }
  }
}
