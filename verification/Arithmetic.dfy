/** Facts about products and quotients. */
module Arithmetic {
  lemma Scale(x: int, y: int, unit: nat)
    requires x <= y
    ensures x * unit <= y * unit
  {
  }

  lemma FloorIs(a: int, unit: nat, q: int)
    requires unit >= 1 && q * unit <= a < (q + 1) * unit
    ensures a / unit == q
  {
    var p := a / unit;
    assert p * unit <= a < (p + 1) * unit;
    if p < q { Scale(p + 1, q, unit); }
    if q < p { Scale(q + 1, p, unit); }
  }

  lemma FloorMonotone(a: int, b: int, unit: nat)
    requires unit >= 1 && a <= b
    ensures a / unit <= b / unit
  {
    var q, r := a / unit, b / unit;
    assert q * unit <= a && b < (r + 1) * unit;
    if r + 1 <= q { Scale(r + 1, q, unit); }
  }

  /** The four base-256 digits of a 32-bit number. */
  lemma FourDigits(x: nat, h: nat)
    requires x < 0x1_0000_0000
    ensures x / 0x100_0000 < 256
    ensures 256 * (256 * (256 * (256 * h + x / 0x100_0000) + x / 0x1_0000 % 256) + x / 256 % 256) + x % 256
         == 0x1_0000_0000 * h + x
  {
    var p := x / 256;
    var q := p / 256;
    assert x / 0x1_0000 == q;
    assert x / 0x100_0000 == q / 256;
  }

  /** A small number survives the way through a byte. */
  lemma ByteValue(i: int)
    requires 0 <= i < 256
    ensures (i as bv8) as int == i
  {
    if i < 16 {} else if i < 32 {} else if i < 48 {} else if i < 64 {} else if i < 128 {} else if i < 192 {} else {}
  }
}
