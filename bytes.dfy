/** Unsigned machine integers of the PN532 driver and the 8-bit checksum arithmetic
    that every frame uses. */
module Bytes {

  /** A `uint8_t`. */
  type byte = x: int | 0 <= x < 256

  /** A `uint16_t`. */
  type u16 = x: int | 0 <= x < 65536

  /** `a + b` stored back into a `uint8_t`: addition modulo 256. */
  function Add8(a: byte, b: byte): byte
  {
    if a + b < 256 then a + b else a + b - 256
  }

  /** `(uint8_t)(~x + 1)`: the two's complement of a byte, the one byte that brings `x`
      to zero under `uint8_t` addition. */
  function Neg(x: byte): (r: byte)
    ensures Add8(x, r) == 0
    ensures forall c: byte :: Add8(x, c) == 0 ==> c == r
  {
    if x == 0 then 0 else 256 - x
  }

  /** Adding the same byte on either side keeps distinct bytes distinct. */
  lemma AddInjective(x: byte, y: byte, c: byte)
    requires x != y
    ensures Add8(x, c) != Add8(y, c) && Add8(c, x) != Add8(c, y)
  {
  }

  /** A checksum byte cancels exactly one accumulator value. */
  lemma CancelsOnlyOne(x: byte, y: byte, c: byte)
    ensures Add8(x, c) == 0 && Add8(y, c) == 0 ==> x == y
  {
  }

  /** A `uint8_t` accumulator that starts at `seed` and has every byte of `s` added to it
      in order, as the driver's checksum loops do. */
  function Sum8(seed: byte, s: seq<byte>): byte
  {
    if s == [] then seed else Add8(Sum8(seed, s[..|s| - 1]), s[|s| - 1])
  }

  /** The arithmetic sum of a byte sequence. */
  function Sum(s: seq<byte>): nat
  {
    if s == [] then 0 else Sum(s[..|s| - 1]) + s[|s| - 1]
  }

  /** Reducing the first addend modulo 256 does not change a sum modulo 256. */
  lemma ModAddLeft(a: nat, b: nat)
    ensures (a % 256 + b) % 256 == (a + b) % 256
  {
    var q := a / 256;
    assert a == 256 * q + a % 256;
  }

  /** The 8-bit accumulator holds the low byte of the true sum. */
  lemma {:induction false} Sum8IsLowByte(seed: byte, s: seq<byte>)
    ensures Sum8(seed, s) == (seed + Sum(s)) % 256
  {
    if s != [] {
      var init := s[..|s| - 1];
      Sum8IsLowByte(seed, init);
      ModAddLeft(seed + Sum(init), s[|s| - 1]);
    }
  }

  /** A byte that cancels the low byte of `t` cancels `t` itself modulo 256. */
  lemma LowByteCancels(t: nat, d: byte)
    requires Add8(t % 256, d) == 0
    ensures (t + d) % 256 == 0
  {
    ModAddLeft(t, d);
  }

  /** Adding a byte in front of the bytes is adding it to the seed. */
  lemma {:induction false} Sum8Prepend(seed: byte, b: byte, s: seq<byte>)
    ensures Sum8(seed, [b] + s) == Sum8(Add8(seed, b), s)
  {
    if s != [] {
      var n := |s| - 1;
      assert ([b] + s)[..n + 1] == [b] + s[..n];
      Sum8Prepend(seed, b, s[..n]);
    }
  }

  /** Changing any single byte changes the 8-bit sum: the checksum detects every
      single-byte error. */
  lemma {:induction false} Sum8DetectsChange(seed: byte, s: seq<byte>, k: nat, b: byte)
    requires k < |s| && b != s[k]
    ensures Sum8(seed, s[k := b]) != Sum8(seed, s)
  {
    var n := |s| - 1;
    var t := s[k := b];
    if k < n {
      assert t[..n] == s[..n][k := b];
      Sum8DetectsChange(seed, s[..n], k, b);
      AddInjective(Sum8(seed, t[..n]), Sum8(seed, s[..n]), s[n]);
    } else {
      assert t[..n] == s[..n];
      AddInjective(b, s[n], Sum8(seed, s[..n]));
    }
  }
}
