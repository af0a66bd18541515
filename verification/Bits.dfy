/** Bitwise exclusive or on numbers. */
module Bits {
  import opened Powers

  /** Bitwise exclusive or, one bit at a time. */
  function Xor(a: nat, b: nat): nat
    decreases a + b
  {
    if a == 0 && b == 0 then 0 else (a % 2 + b % 2) % 2 + 2 * Xor(a / 2, b / 2)
  }

  lemma XorByBits(a: nat, b: nat)
    ensures Xor(a, b) % 2 == (a % 2 + b % 2) % 2
    ensures Xor(a, b) / 2 == Xor(a / 2, b / 2)
  {
  }

  lemma {:induction false} XorIsInjective(a: nat, b: nat, c: nat, d: nat)
    requires Xor(a, b) == Xor(c, d)
    ensures a == c <==> b == d
    decreases a + b + c + d
  {
    if a + b + c + d > 0 {
      XorByBits(a, b);
      XorByBits(c, d);
      XorIsInjective(a / 2, b / 2, c / 2, d / 2);
      ParityCancels(a, b, c, d);
      SameIffHalvesAndParity(a, c);
      SameIffHalvesAndParity(b, d);
    }
  }

  lemma ParityCancels(a: nat, b: nat, c: nat, d: nat)
    requires (a % 2 + b % 2) % 2 == (c % 2 + d % 2) % 2
    ensures a % 2 == c % 2 <==> b % 2 == d % 2
  {
  }

  lemma SameIffHalvesAndParity(a: nat, b: nat)
    ensures a == b <==> a / 2 == b / 2 && a % 2 == b % 2
  {
  }

  lemma {:induction false} XorStaysBelow(a: nat, b: nat, n: nat)
    requires a < Pow2(n) && b < Pow2(n)
    ensures Xor(a, b) < Pow2(n)
  {
    if n > 0 {
      XorStaysBelow(a / 2, b / 2, n - 1);
    }
  }

  // ---------------------------------------------------------------- bit by bit

  lemma Halve(a: nat, x: nat)
    requires x < 2
    ensures (2 * a + x) / 2 == a && (2 * a + x) % 2 == x
  {
  }

  lemma XorDouble(a: nat, x: nat, b: nat, y: nat, z: nat)
    requires x < 2 && y < 2 && z == if x == y then 0 else 1
    ensures Xor(2 * a + x, 2 * b + y) == 2 * Xor(a, b) + z
  {
    Halve(a, x);
    Halve(b, y);
  }

  predicate AreBits(s: seq<nat>) {
    forall i :: 0 <= i < |s| ==> s[i] < 2
  }

  /** The number that bits spell below those of `high`, most significant first. */
  function FromBits(high: nat, bits: seq<nat>): nat {
    if bits == [] then high else 2 * FromBits(high, bits[..|bits| - 1]) + bits[|bits| - 1]
  }

  lemma LastBit(high: nat, bits: seq<nat>)
    requires bits != []
    ensures FromBits(high, bits) == 2 * FromBits(high, bits[..|bits| - 1]) + bits[|bits| - 1]
  {
  }

  /** A bit of the exclusive or is set exactly where the two numbers differ. */
  lemma {:induction false} XorOfBits(h: nat, a: seq<nat>, k: nat, b: seq<nat>, c: seq<nat>)
    requires |a| == |b| == |c| && AreBits(a) && AreBits(b)
    requires forall i :: 0 <= i < |c| ==> c[i] == if a[i] == b[i] then 0 else 1
    ensures Xor(FromBits(h, a), FromBits(k, b)) == FromBits(Xor(h, k), c)
  {
    if a != [] {
      var n := |a| - 1;
      LastBit(h, a);
      LastBit(k, b);
      LastBit(Xor(h, k), c);
      XorOfBits(h, a[..n], k, b[..n], c[..n]);
      XorDouble(FromBits(h, a[..n]), a[n], FromBits(k, b[..n]), b[n], c[n]);
    }
  }

  /** A text of zeros and ones. */
  function ToBits(text: string): (bits: seq<nat>)
    ensures |bits| == |text| && AreBits(bits)
    ensures forall i :: 0 <= i < |text| ==> bits[i] == if text[i] == '1' then 1 else 0
  {
    seq(|text|, i requires 0 <= i < |text| => if text[i] == '1' then 1 else 0)
  }

  lemma LastFourBits(high: nat, b: seq<nat>)
    requires |b| >= 4
    ensures FromBits(high, b)
         == 16 * FromBits(high, b[..|b| - 4]) + 8 * b[|b| - 4] + 4 * b[|b| - 3] + 2 * b[|b| - 2] + b[|b| - 1]
  {
    var n := |b|;
    var x := b[..n - 1];
    var y := b[..n - 2];
    var z := b[..n - 3];
    assert x[..n - 2] == y && y[..n - 3] == z && z[..n - 4] == b[..n - 4];
    LastBit(high, b);
    LastBit(high, x);
    LastBit(high, y);
    LastBit(high, z);
  }

  lemma EightBits(high: nat, b: seq<nat>)
    requires |b| == 8
    ensures FromBits(high, b)
         == 256 * high + 128 * b[0] + 64 * b[1] + 32 * b[2] + 16 * b[3] + 8 * b[4] + 4 * b[5] + 2 * b[6] + b[7]
  {
    LastFourBits(high, b);
    LastFourBits(high, b[..4]);
    assert b[..4][..0] == [];
  }

  lemma {:induction false} XorNothing(a: nat)
    ensures Xor(a, 0) == a
  {
    if a > 0 {
      XorNothing(a / 2);
    }
  }
}
