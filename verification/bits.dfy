/** Single bits of an 8-bit AVR I/O register, addressed by position. */
module Bits {

  /** A bit position in an 8-bit register; 0 is the least significant bit. */
  type BitIndex = i: nat | i < 8

  /** The C idiom `(1<<i)` for a register bit, spelled out per position. */
  function Mask(i: BitIndex): (m: bv8)
    ensures m != 0
    ensures m & (m - 1) == 0
  {
    match i
    case 0 => 0x01
    case 1 => 0x02
    case 2 => 0x04
    case 3 => 0x08
    case 4 => 0x10
    case 5 => 0x20
    case 6 => 0x40
    case 7 => 0x80
  }

  /** True when bit `i` of `v` is set. */
  predicate Has(v: bv8, i: BitIndex) {
    v & Mask(i) != 0
  }

  /** The mask of bit `i` holds bit `i` and no other. */
  lemma MaskHas(i: BitIndex, j: BitIndex)
    ensures Has(Mask(i), j) <==> i == j
  {
    match i
    case 0 => {} case 1 => {} case 2 => {} case 3 => {}
    case 4 => {} case 5 => {} case 6 => {} case 7 => {}
  }

  lemma HasOr(u: bv8, v: bv8, i: BitIndex)
    ensures Has(u | v, i) <==> Has(u, i) || Has(v, i)
  {
  }

  lemma HasAndNot(u: bv8, v: bv8, i: BitIndex)
    ensures Has(u & !v, i) <==> Has(u, i) && !Has(v, i)
  {
    var m := Mask(i);
    assert m & (m - 1) == 0 && m != 0;
  }

  /** `(1<<a) | (1<<b)` has exactly bits `a` and `b`. */
  lemma TwoMasks(w: bv8, a: BitIndex, b: BitIndex)
    requires w == Mask(a) | Mask(b)
    ensures forall i: BitIndex :: Has(w, i) <==> i == a || i == b
  {
    forall i: BitIndex
      ensures Has(w, i) <==> i == a || i == b
    {
      HasOr(Mask(a), Mask(b), i);
      MaskHas(a, i);
      MaskHas(b, i);
    }
  }

  /** `(1<<a) | (1<<b) | (1<<d)` has exactly bits `a`, `b` and `d`. */
  lemma ThreeMasks(w: bv8, a: BitIndex, b: BitIndex, d: BitIndex)
    requires w == Mask(a) | Mask(b) | Mask(d)
    ensures forall i: BitIndex :: Has(w, i) <==> i == a || i == b || i == d
  {
    forall i: BitIndex
      ensures Has(w, i) <==> i == a || i == b || i == d
    {
      HasOr(Mask(a) | Mask(b), Mask(d), i);
      HasOr(Mask(a), Mask(b), i);
      MaskHas(a, i);
      MaskHas(b, i);
      MaskHas(d, i);
    }
  }

  /** `v & ~((1<<a) | (1<<b))` clears bits `a` and `b` and keeps every other bit. */
  lemma ClearTwo(v: bv8, a: BitIndex, b: BitIndex)
    ensures forall i: BitIndex :: Has(v & !(Mask(a) | Mask(b)), i) <==> Has(v, i) && i != a && i != b
  {
    forall i: BitIndex
      ensures Has(v & !(Mask(a) | Mask(b)), i) <==> Has(v, i) && i != a && i != b
    {
      HasAndNot(v, Mask(a) | Mask(b), i);
      TwoMasks(Mask(a) | Mask(b), a, b);
    }
  }

  /** `v | (1<<a) | (1<<b)` sets bits `a` and `b` and keeps every other bit. */
  lemma SetTwo(v: bv8, a: BitIndex, b: BitIndex)
    ensures forall i: BitIndex :: Has(v | (Mask(a) | Mask(b)), i) <==> Has(v, i) || i == a || i == b
  {
    forall i: BitIndex
      ensures Has(v | (Mask(a) | Mask(b)), i) <==> Has(v, i) || i == a || i == b
    {
      HasOr(v, Mask(a) | Mask(b), i);
      TwoMasks(Mask(a) | Mask(b), a, b);
    }
  }

  /** Two register values with the same bits are the same value. */
  lemma SameBitsSameByte(u: bv8, v: bv8)
    requires forall i: BitIndex :: Has(u, i) == Has(v, i)
    ensures u == v
  {
    assert Has(u, 0) == Has(v, 0);
    assert Has(u, 1) == Has(v, 1);
    assert Has(u, 2) == Has(v, 2);
    assert Has(u, 3) == Has(v, 3);
    assert Has(u, 4) == Has(v, 4);
    assert Has(u, 5) == Has(v, 5);
    assert Has(u, 6) == Has(v, 6);
    assert Has(u, 7) == Has(v, 7);
  }

  /** The C conversion of a `uint8_t` to a wider integer keeps its value. */
  lemma ByteNatRoundTrip(x: bv8)
    ensures (x as nat) as bv8 == x
  {
  }

  lemma Successor(y: bv8)
    requires y as nat < 255
    ensures (y + 1) as nat == y as nat + 1
  {
  }

  /**
    The byte holding `n`, counted up from zero. It is only a proof device:
    it supplies a byte whose value is known to be `n`, which is what
    `NatByteRoundTrip` needs.
   */
  function ByteOf(n: nat): (x: bv8)
    requires n < 256
    ensures x as nat == n
  {
    if n == 0 then 0 else var y := ByteOf(n - 1); Successor(y); y + 1
  }

  /** Storing a value below 256 in a `uint8_t` keeps it. */
  lemma NatByteRoundTrip(n: nat)
    requires n < 256
    ensures (n as bv8) as nat == n
  {
    ByteNatRoundTrip(ByteOf(n));
  }

  /** Unsigned byte comparison agrees with comparison of the values. */
  lemma ByteLess(x: bv8, y: bv8)
    ensures x < y <==> x as nat < y as nat
  {
  }
}
