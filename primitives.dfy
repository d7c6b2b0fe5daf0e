/** Machine integers of the Rust target: bytes, `usize` and the `isize::MAX`
    allocation limit, with the saturating addition used by `put_bytes` and the
    big-endian encoding used by `put_u16`. */
module Primitives {

  /** A Rust `u8`. */
  newtype u8 = x: int | 0 <= x < 0x100

  /** `usize::MAX` on a 64-bit target. */
  const USIZE_MAX: nat := 0xFFFF_FFFF_FFFF_FFFF

  /** `isize::MAX` on a 64-bit target: no allocation of bytes may exceed it. */
  const ISIZE_MAX: nat := 0x7FFF_FFFF_FFFF_FFFF

  function Min(a: nat, b: nat): (r: nat)
    ensures r <= a && r <= b && (r == a || r == b)
  {
    if a <= b then a else b
  }

  /** `usize::saturating_add`: the exact sum when it fits in a `usize`,
      `usize::MAX` otherwise; it never wraps below either operand. */
  function SaturatingAdd(a: nat, b: nat): (r: nat)
    requires a <= USIZE_MAX && b <= USIZE_MAX
    ensures r <= USIZE_MAX
    ensures a <= r && b <= r
    ensures r == a + b || r == USIZE_MAX
    ensures a + b <= USIZE_MAX <==> r == a + b
  {
    if a + b <= USIZE_MAX then a + b else USIZE_MAX
  }

  /** `usize::wrapping_add`, the arithmetic that saturation replaces. */
  function WrappingAdd(a: nat, b: nat): (r: nat)
    requires a <= USIZE_MAX && b <= USIZE_MAX
    ensures r <= USIZE_MAX
  {
    (a + b) % (USIZE_MAX + 1)
  }

  /** When the sum overflows, wrapping would produce a length below the current
      one (contents would be lost), while saturation clamps to the maximum. */
  lemma SaturationAvoidsWrap(a: nat, b: nat)
    requires a <= USIZE_MAX && b <= USIZE_MAX
    requires a + b > USIZE_MAX
    ensures WrappingAdd(a, b) < a
    ensures SaturatingAdd(a, b) == USIZE_MAX
  {
  }

  /** `u16::to_be_bytes`: the most significant byte first. */
  function U16ToBeBytes(n: nat): (r: seq<u8>)
    requires n <= 0xFFFF
    ensures |r| == 2
    ensures U16FromBeBytes(r) == n
  {
    [(n / 0x100) as u8, (n % 0x100) as u8]
  }

  /** `u16::from_be_bytes`, the inverse of `U16ToBeBytes`. */
  function U16FromBeBytes(b: seq<u8>): (n: nat)
    requires |b| == 2
    ensures n <= 0xFFFF
  {
    b[0] as nat * 0x100 + b[1] as nat
  }

  lemma U16BeBytesRoundTrip(b: seq<u8>)
    requires |b| == 2
    ensures U16ToBeBytes(U16FromBeBytes(b)) == b
  {
  }

  /** The bytes of a byte-string literal (`b"..."`). */
  function ByteString(s: string): (r: seq<u8>)
    requires forall i :: 0 <= i < |s| ==> s[i] as int < 0x100
    ensures |r| == |s|
    ensures forall i :: 0 <= i < |s| ==> r[i] as int == s[i] as int
  {
    seq(|s|, i requires 0 <= i < |s| => s[i] as int as u8)
  }
}
