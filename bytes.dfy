/** Fixed-width unsigned integers and their little-endian memory images.
    The SAMC21 (Cortex-M0+) and the host PCs the flasher runs on are both
    little-endian, so a C struct's memory image stores every integer field
    least significant byte first. */
module Bytes {

  type byte = x: int | 0 <= x < 0x100
  type u16 = x: int | 0 <= x < 0x1_0000
  type u32 = x: int | 0 <= x < 0x1_0000_0000

  /** Conversion of any integer to `uint32_t` (C wraps modulo 2^32). */
  function ToU32(x: int): (r: u32)
    ensures 0 <= x < 0x1_0000_0000 ==> r == x
    ensures (x - r) % 0x1_0000_0000 == 0
  {
    x % 0x1_0000_0000
  }

  /** Conversion of any integer to `uint16_t` (C wraps modulo 2^16). */
  function ToU16(x: int): (r: u16)
    ensures 0 <= x < 0x1_0000 ==> r == x
    ensures (x - r) % 0x1_0000 == 0
  {
    x % 0x1_0000
  }

  /** `x ^ 0xFFFFFFFF`: an exclusive or with the all-ones word flips each
      of the 32 bits, which for an unsigned word is `0xFFFF_FFFF - x`. */
  function Complement32(x: u32): u32
  {
    0xFFFF_FFFF - x
  }

  /** The four bytes of a `uint32_t` in memory order. */
  function LE32(v: u32): (r: seq<byte>)
    ensures |r| == 4
  {
    [v % 0x100, v / 0x100 % 0x100, v / 0x100 / 0x100 % 0x100, v / 0x100 / 0x100 / 0x100]
  }

  /** The two bytes of a `uint16_t` in memory order. */
  function LE16(v: u16): (r: seq<byte>)
    ensures |r| == 2
  {
    [v % 0x100, v / 0x100]
  }

  /** The `uint32_t` stored at byte offset `off` of a memory image. */
  function U32At(s: seq<byte>, off: nat): u32
    requires off + 4 <= |s|
  {
    s[off] as int + 0x100 * (s[off + 1] as int) + 0x1_0000 * (s[off + 2] as int) + 0x100_0000 * (s[off + 3] as int)
  }

  /** The `uint16_t` stored at byte offset `off` of a memory image. */
  function U16At(s: seq<byte>, off: nat): u16
    requires off + 2 <= |s|
  {
    s[off] as int + 0x100 * (s[off + 1] as int)
  }

  /** Storing a word and loading it back gives the word. */
  lemma U32RoundTrip(v: u32)
    ensures U32At(LE32(v), 0) == v
  {
    var q1 := v / 0x100;
    var q2 := q1 / 0x100;
    assert v == v % 0x100 + 0x100 * q1;
    assert q1 == q1 % 0x100 + 0x100 * q2;
    assert q2 == q2 % 0x100 + 0x100 * (q2 / 0x100);
  }

  /** Splitting `b + 256 * a` into its low byte and the rest. */
  lemma ByteSplit(a: nat, b: byte)
    ensures (b + 0x100 * a) % 0x100 == b && (b + 0x100 * a) / 0x100 == a
  {
  }

  /** Loading a word and storing it back gives the same four bytes. */
  lemma LE32RoundTrip(s: seq<byte>, off: nat)
    requires off + 4 <= |s|
    ensures LE32(U32At(s, off)) == s[off..off + 4]
  {
    var h2: nat := s[off + 2] as int + 0x100 * (s[off + 3] as int);
    var h1: nat := s[off + 1] as int + 0x100 * h2;
    assert U32At(s, off) == s[off] as int + 0x100 * h1;
    ByteSplit(h1, s[off]);
    ByteSplit(h2, s[off + 1]);
    ByteSplit(s[off + 3], s[off + 2]);
  }

  lemma U16RoundTrip(v: u16)
    ensures U16At(LE16(v), 0) == v
  {
  }

  /** Two words are equal exactly when their memory images are. */
  lemma LE32Injective(a: u32, b: u32)
    ensures LE32(a) == LE32(b) <==> a == b
  {
    if LE32(a) == LE32(b) {
      U32RoundTrip(a);
      U32RoundTrip(b);
    }
  }

  /** `s` with the bytes from offset `off` replaced by `b`, as a store of
      `b` into the memory image `s` does. */
  function Splice(s: seq<byte>, off: nat, b: seq<byte>): (r: seq<byte>)
    requires off + |b| <= |s|
    ensures |r| == |s|
    ensures r[off..off + |b|] == b
    ensures forall i :: 0 <= i < |s| && !(off <= i < off + |b|) ==> r[i] == s[i]
  {
    s[..off] + b + s[off + |b|..]
  }

  /** `n` zero bytes, as `memset(p, 0, n)` writes. */
  function Zeros(n: nat): (r: seq<byte>)
    ensures |r| == n
    ensures forall i :: 0 <= i < n ==> r[i] == 0
  {
    seq(n, i => 0)
  }

  /** The words of a memory image whose length is a multiple of four, as a
      word-wide peripheral reads them. */
  function Words(s: seq<byte>): (r: seq<u32>)
    requires |s| % 4 == 0
    ensures |r| == |s| / 4
  {
    seq(|s| / 4, i requires 0 <= i < |s| / 4 => U32At(s, 4 * i))
  }
}
