/** The six functions of section 4.1.2 of FIPS 180-4, bit by bit. Bit 0 is the lowest. */
module Sha256Bits {
  import opened Sha256

  /** The word with the one bit `i`. */
  function Mask(i: bv32): bv32
    requires i < 32
  {
    1 << i
  }

  predicate Meets(x: bv32, mask: bv32) {
    x & mask != 0
  }

  predicate Bit(x: bv32, i: bv32)
    requires i < 32
  {
    Meets(x, Mask(i))
  }

  /** Position `k` further up; the one after the highest is the lowest. */
  function Plus(i: bv32, k: bv32): (j: bv32)
    ensures j < 32
  {
    (i + k) & 31
  }

  /** An odd number of the three hold. */
  predicate Odd(a: bool, b: bool, c: bool) {
    (a != b) != c
  }

  predicate OneBit(mask: bv32) {
    mask != 0 && mask & (mask - 1) == 0
  }

  lemma MaskIsOneBit(i: bv32)
    requires i < 32
    ensures OneBit(Mask(i))
  {
  }

  lemma ChMeets(x: bv32, y: bv32, z: bv32, r: bv32, m: bv32)
    requires OneBit(m) && r == (x & y) ^ (!x & z)
    ensures Meets(r, m) == if Meets(x, m) then Meets(y, m) else Meets(z, m)
  {
  }

  lemma MajMeets(x: bv32, y: bv32, z: bv32, r: bv32, m: bv32)
    requires OneBit(m) && r == (x & y) ^ (x & z) ^ (y & z)
    ensures Meets(r, m) == if Meets(x, m) == Meets(y, m) then Meets(x, m) else Meets(z, m)
  {
  }

  /** `x` chooses: where it has a one, the bit of `y`, elsewhere that of `z`. */
  lemma ChBits(x: bv32, y: bv32, z: bv32, i: bv32)
    requires i < 32
    ensures Bit(Ch(x, y, z), i) == if Bit(x, i) then Bit(y, i) else Bit(z, i)
  {
    hide Meets, Mask, OneBit;
    MaskIsOneBit(i);
    ChMeets(x, y, z, Ch(x, y, z), Mask(i));
  }

  /** The bit that at least two of the three have. */
  lemma MajBits(x: bv32, y: bv32, z: bv32, i: bv32)
    requires i < 32
    ensures Bit(Maj(x, y, z), i) == if Bit(x, i) == Bit(y, i) then Bit(x, i) else Bit(z, i)
  {
    hide Meets, Mask, OneBit;
    MaskIsOneBit(i);
    MajMeets(x, y, z, Maj(x, y, z), Mask(i));
  }

  // ----- the sums of rotations and shifts -----

  predicate IsXor(r: bv32, a: bv32, b: bv32, c: bv32) {
    r == a ^ b ^ c
  }

  lemma XorMeets(r: bv32, a: bv32, b: bv32, c: bv32, m: bv32)
    requires OneBit(m) && IsXor(r, a, b, c)
    ensures Meets(r, m) == Odd(Meets(a, m), Meets(b, m), Meets(c, m))
  {
  }

  lemma NoBit(x: bv32)
    ensures !Meets(x, 0)
  {
  }

  predicate Rotated2(a: bv32, x: bv32) {
    a == x.RotateRight(2)
  }

  lemma Rotation2(a: bv32, x: bv32, i: bv32)
    requires i < 32 && Rotated2(a, x)
    ensures Bit(a, i) == Bit(x, Plus(i, 2))
  {
  }

  predicate Rotated13(a: bv32, x: bv32) {
    a == x.RotateRight(13)
  }

  lemma Rotation13(a: bv32, x: bv32, i: bv32)
    requires i < 32 && Rotated13(a, x)
    ensures Bit(a, i) == Bit(x, Plus(i, 13))
  {
  }

  predicate Rotated22(a: bv32, x: bv32) {
    a == x.RotateRight(22)
  }

  lemma Rotation22(a: bv32, x: bv32, i: bv32)
    requires i < 32 && Rotated22(a, x)
    ensures Bit(a, i) == Bit(x, Plus(i, 22))
  {
  }

  predicate Rotated6(a: bv32, x: bv32) {
    a == x.RotateRight(6)
  }

  lemma Rotation6(a: bv32, x: bv32, i: bv32)
    requires i < 32 && Rotated6(a, x)
    ensures Bit(a, i) == Bit(x, Plus(i, 6))
  {
  }

  predicate Rotated11(a: bv32, x: bv32) {
    a == x.RotateRight(11)
  }

  lemma Rotation11(a: bv32, x: bv32, i: bv32)
    requires i < 32 && Rotated11(a, x)
    ensures Bit(a, i) == Bit(x, Plus(i, 11))
  {
  }

  predicate Rotated25(a: bv32, x: bv32) {
    a == x.RotateRight(25)
  }

  lemma Rotation25(a: bv32, x: bv32, i: bv32)
    requires i < 32 && Rotated25(a, x)
    ensures Bit(a, i) == Bit(x, Plus(i, 25))
  {
  }

  predicate Rotated7(a: bv32, x: bv32) {
    a == x.RotateRight(7)
  }

  lemma Rotation7(a: bv32, x: bv32, i: bv32)
    requires i < 32 && Rotated7(a, x)
    ensures Bit(a, i) == Bit(x, Plus(i, 7))
  {
  }

  predicate Rotated18(a: bv32, x: bv32) {
    a == x.RotateRight(18)
  }

  lemma Rotation18(a: bv32, x: bv32, i: bv32)
    requires i < 32 && Rotated18(a, x)
    ensures Bit(a, i) == Bit(x, Plus(i, 18))
  {
  }

  predicate Rotated17(a: bv32, x: bv32) {
    a == x.RotateRight(17)
  }

  lemma Rotation17(a: bv32, x: bv32, i: bv32)
    requires i < 32 && Rotated17(a, x)
    ensures Bit(a, i) == Bit(x, Plus(i, 17))
  {
  }

  predicate Rotated19(a: bv32, x: bv32) {
    a == x.RotateRight(19)
  }

  lemma Rotation19(a: bv32, x: bv32, i: bv32)
    requires i < 32 && Rotated19(a, x)
    ensures Bit(a, i) == Bit(x, Plus(i, 19))
  {
  }

  predicate Shifted3(a: bv32, x: bv32) {
    a == x >> 3
  }

  lemma Shift3(a: bv32, x: bv32, i: bv32)
    requires i < 32 && Shifted3(a, x)
    ensures Bit(a, i) == (i < 29 && Bit(x, i + 3))
  {
  }

  predicate Shifted10(a: bv32, x: bv32) {
    a == x >> 10
  }

  lemma Shift10(a: bv32, x: bv32, i: bv32)
    requires i < 32 && Shifted10(a, x)
    ensures Bit(a, i) == (i < 22 && Bit(x, i + 10))
  {
  }

  lemma BigSigma0Parts(x: bv32) returns (a: bv32, b: bv32, c: bv32)
    ensures IsXor(BigSigma0(x), a, b, c) && Rotated2(a, x) && Rotated13(b, x) && Rotated22(c, x)
  {
    a, b, c := x.RotateRight(2), x.RotateRight(13), x.RotateRight(22);
  }

  lemma BigSigma0Bits(x: bv32, i: bv32)
    requires i < 32
    ensures Bit(BigSigma0(x), i) == Odd(Bit(x, Plus(i, 2)), Bit(x, Plus(i, 13)), Bit(x, Plus(i, 22)))
  {
    hide Meets, Mask, OneBit, Plus, IsXor, Rotated2, Rotated13, Rotated22, BigSigma0;
    var a, b, c := BigSigma0Parts(x);
    Rotation2(a, x, i);
    Rotation13(b, x, i);
    Rotation22(c, x, i);
    MaskIsOneBit(i);
    XorMeets(BigSigma0(x), a, b, c, Mask(i));
  }

  lemma BigSigma1Parts(x: bv32) returns (a: bv32, b: bv32, c: bv32)
    ensures IsXor(BigSigma1(x), a, b, c) && Rotated6(a, x) && Rotated11(b, x) && Rotated25(c, x)
  {
    a, b, c := x.RotateRight(6), x.RotateRight(11), x.RotateRight(25);
  }

  lemma BigSigma1Bits(x: bv32, i: bv32)
    requires i < 32
    ensures Bit(BigSigma1(x), i) == Odd(Bit(x, Plus(i, 6)), Bit(x, Plus(i, 11)), Bit(x, Plus(i, 25)))
  {
    hide Meets, Mask, OneBit, Plus, IsXor, Rotated6, Rotated11, Rotated25, BigSigma1;
    var a, b, c := BigSigma1Parts(x);
    Rotation6(a, x, i);
    Rotation11(b, x, i);
    Rotation25(c, x, i);
    MaskIsOneBit(i);
    XorMeets(BigSigma1(x), a, b, c, Mask(i));
  }

  lemma SmallSigma0Parts(x: bv32) returns (a: bv32, b: bv32, c: bv32)
    ensures IsXor(SmallSigma0(x), a, b, c) && Rotated7(a, x) && Rotated18(b, x) && Shifted3(c, x)
  {
    a, b, c := x.RotateRight(7), x.RotateRight(18), x >> 3;
  }

  lemma SmallSigma0Bits(x: bv32, i: bv32)
    requires i < 32
    ensures Bit(SmallSigma0(x), i) == Odd(Bit(x, Plus(i, 7)), Bit(x, Plus(i, 18)), i < 29 && Bit(x, i + 3))
  {
    hide Meets, Mask, OneBit, Plus, IsXor, Rotated7, Rotated18, Shifted3, SmallSigma0;
    var a, b, c := SmallSigma0Parts(x);
    Rotation7(a, x, i);
    Rotation18(b, x, i);
    Shift3(c, x, i);
    MaskIsOneBit(i);
    XorMeets(SmallSigma0(x), a, b, c, Mask(i));
  }

  lemma SmallSigma1Parts(x: bv32) returns (a: bv32, b: bv32, c: bv32)
    ensures IsXor(SmallSigma1(x), a, b, c) && Rotated17(a, x) && Rotated19(b, x) && Shifted10(c, x)
  {
    a, b, c := x.RotateRight(17), x.RotateRight(19), x >> 10;
  }

  lemma SmallSigma1Bits(x: bv32, i: bv32)
    requires i < 32
    ensures Bit(SmallSigma1(x), i) == Odd(Bit(x, Plus(i, 17)), Bit(x, Plus(i, 19)), i < 22 && Bit(x, i + 10))
  {
    hide Meets, Mask, OneBit, Plus, IsXor, Rotated17, Rotated19, Shifted10, SmallSigma1;
    var a, b, c := SmallSigma1Parts(x);
    Rotation17(a, x, i);
    Rotation19(b, x, i);
    Shift10(c, x, i);
    MaskIsOneBit(i);
    XorMeets(SmallSigma1(x), a, b, c, Mask(i));
  }
}
