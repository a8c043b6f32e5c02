/** SHA-256 as the code computes it, against sections 4, 5 and 6.2.2 of FIPS 180-4. */
module Sha256 {
  import opened Bytes

  /** Values a 32-bit word can hold. */
  type Word32 = x: nat | x < 0x1_0000_0000

  const INITIAL_HASH: seq<Word32> := [
    0x6a09e667, 0xbb67ae85, 0x3c6ef372, 0xa54ff53a, 0x510e527f, 0x9b05688c, 0x1f83d9ab, 0x5be0cd19]

  /** The 64 round constants, eight to a row. */
  const ROUND_CONSTANTS: seq<seq<Word32>> := [
    [0x428a2f98, 0x71374491, 0xb5c0fbcf, 0xe9b5dba5, 0x3956c25b, 0x59f111f1, 0x923f82a4, 0xab1c5ed5],
    [0xd807aa98, 0x12835b01, 0x243185be, 0x550c7dc3, 0x72be5d74, 0x80deb1fe, 0x9bdc06a7, 0xc19bf174],
    [0xe49b69c1, 0xefbe4786, 0x0fc19dc6, 0x240ca1cc, 0x2de92c6f, 0x4a7484aa, 0x5cb0a9dc, 0x76f988da],
    [0x983e5152, 0xa831c66d, 0xb00327c8, 0xbf597fc7, 0xc6e00bf3, 0xd5a79147, 0x06ca6351, 0x14292967],
    [0x27b70a85, 0x2e1b2138, 0x4d2c6dfc, 0x53380d13, 0x650a7354, 0x766a0abb, 0x81c2c92e, 0x92722c85],
    [0xa2bfe8a1, 0xa81a664b, 0xc24b8b70, 0xc76c51a3, 0xd192e819, 0xd6990624, 0xf40e3585, 0x106aa070],
    [0x19a4c116, 0x1e376c08, 0x2748774c, 0x34b0bcb5, 0x391c0cb3, 0x4ed8aa4a, 0x5b9cca4f, 0x682e6ff3],
    [0x748f82ee, 0x78a5636f, 0x84c87814, 0x8cc70208, 0x90befffa, 0xa4506ceb, 0xbef9a3f7, 0xc67178f2]]

  function RoundConstant(t: nat): Word32
    requires t < 64
  {
    ROUND_CONSTANTS[t / 8][t % 8]
  }

  function ToWord(n: Word32): bv32 {
    n as bv32
  }

  function H0(i: nat): bv32
    requires i < 8
  {
    ToWord(INITIAL_HASH[i])
  }

  function K(t: nat): bv32
    requires t < 64
  {
    ToWord(RoundConstant(t))
  }

  /** `wrapping_add`: addition modulo 2^32. */
  function Add(x: bv32, y: bv32): bv32 {
    x + y
  }

  /** Four of them in a row, from the left. */
  function Sum4(a: bv32, b: bv32, c: bv32, d: bv32): bv32 {
    a + b + c + d
  }

  // ----- section 4.1.2: the six functions -----

  function Ch(x: bv32, y: bv32, z: bv32): bv32 {
    (x & y) ^ (!x & z)
  }

  function Maj(x: bv32, y: bv32, z: bv32): bv32 {
    (x & y) ^ (x & z) ^ (y & z)
  }

  function BigSigma0(x: bv32): bv32 {
    x.RotateRight(2) ^ x.RotateRight(13) ^ x.RotateRight(22)
  }

  function BigSigma1(x: bv32): bv32 {
    x.RotateRight(6) ^ x.RotateRight(11) ^ x.RotateRight(25)
  }

  function SmallSigma0(x: bv32): bv32 {
    x.RotateRight(7) ^ x.RotateRight(18) ^ (x >> 3)
  }

  function SmallSigma1(x: bv32): bv32 {
    x.RotateRight(17) ^ x.RotateRight(19) ^ (x >> 10)
  }

  // ----- section 5.1.1: padding -----

  function Zeros(n: nat): seq<byte> {
    seq(n, _ => 0)
  }

  /** `n` modulo 256^k in k big-endian bytes. */
  function BigEndian(n: nat, k: nat): (b: seq<byte>)
    ensures |b| == k
  {
    if k == 0 then [] else BigEndian(n / 256, k - 1) + [(n % 256) as byte]
  }

  function FromBigEndian(b: seq<byte>): nat {
    if b == [] then 0 else FromBigEndian(b[..|b| - 1]) * 256 + b[|b| - 1] as nat
  }

  function Pow256(k: nat): (r: nat)
    ensures 1 <= r
  {
    if k == 0 then 1 else 256 * Pow256(k - 1)
  }

  const TWO_64 := 0x1_0000_0000_0000_0000

  /** The number of zero bytes: the least that completes a block of 64 with the mark and the length. */
  function ZeroCount(len: nat): (z: nat)
    ensures (len + 1 + z) % 64 == 56 && z < 64
  {
    (119 - len % 64) % 64
  }

  function Padded(message: seq<byte>): seq<byte> {
    message + [0x80] + Zeros(ZeroCount(|message|)) + BigEndian(|message| * 8 % TWO_64, 8)
  }

  method Pad(message: seq<byte>) returns (padded: seq<byte>)
    ensures padded == Padded(message)
  {
    var bitLen := |message| * 8 % TWO_64;
    padded := message + [0x80];
    ghost var z := 0;
    while |padded| % 64 != 56
      invariant z <= ZeroCount(|message|)
      invariant padded == message + [0x80] + Zeros(z)
      decreases ZeroCount(|message|) - z
    {
      assert z < ZeroCount(|message|) by { ZeroCountUnique(|message|, z); }
      padded := padded + [0];
      z := z + 1;
      assert Zeros(z) == Zeros(z - 1) + [0];
    }
    ZeroCountUnique(|message|, z);
    padded := padded + BigEndian(bitLen, 8);
  }

  lemma ZeroCountUnique(len: nat, z: nat)
    requires z < 64
    ensures (len + 1 + z) % 64 == 56 <==> z == ZeroCount(len)
  {
    var r := len % 64;
    assert len == 64 * (len / 64) + r;
    assert (len + 1 + z) % 64 == (r + 1 + z) % 64;
  }

  lemma {:induction false} BigEndianComesBack(n: nat, k: nat)
    requires n < Pow256(k)
    ensures FromBigEndian(BigEndian(n, k)) == n
  {
    if k > 0 {
      BigEndianComesBack(n / 256, k - 1);
      assert BigEndian(n, k)[..k - 1] == BigEndian(n / 256, k - 1);
    }
  }

  lemma {:induction false} BigEndianOfBytes(b: seq<byte>)
    ensures FromBigEndian(b) < Pow256(|b|) && BigEndian(FromBigEndian(b), |b|) == b
  {
    if b != [] {
      BigEndianOfBytes(b[..|b| - 1]);
      assert b == b[..|b| - 1] + [b[|b| - 1]];
    }
  }

  lemma EightBytesHoldAnyLength()
    ensures Pow256(8) == TWO_64
  {
  }

  /** The padded text is the message, one set bit, zeros, and the bit length modulo 2^64; its
      length is the least multiple of 64 that leaves room for these. */
  lemma PaddedShape(message: seq<byte>)
    ensures var p, n := Padded(message), |message|;
            && |p| % 64 == 0 && n + 9 <= |p| && |p| - 64 < n + 9
            && p[..n] == message && p[n] == 0x80
            && (forall i :: n < i < |p| - 8 ==> p[i] == 0)
            && FromBigEndian(p[|p| - 8..]) == n * 8 % TWO_64
  {
    hide BigEndian, FromBigEndian, ZeroCount, Pow256;
    var p, n := Padded(message), |message|;
    var z, length := ZeroCount(n), BigEndian(n * 8 % TWO_64, 8);
    assert |p| == n + 1 + z + 8;
    assert p[|p| - 8..] == length;
    LengthIsWritten(n);
    PaddedLength(n);
  }

  lemma LengthIsWritten(n: nat)
    ensures FromBigEndian(BigEndian(n * 8 % TWO_64, 8)) == n * 8 % TWO_64
  {
    hide BigEndian, FromBigEndian, Pow256;
    EightBytesHoldAnyLength();
    BigEndianComesBack(n * 8 % TWO_64, 8);
  }

  lemma PaddedLength(n: nat)
    ensures (n + 1 + ZeroCount(n) + 8) % 64 == 0
  {
  }

  /** Different messages have different paddings, of whatever length they are. */
  lemma PaddingIsInjective(a: seq<byte>, b: seq<byte>)
    requires Padded(a) == Padded(b)
    ensures a == b
  {
    PaddedShape(a);
    PaddedShape(b);
    assert -64 < |a| - |b| < 64;
    SameLength(|a|, |b|);
    assert a == Padded(a)[..|a|] == b;
  }

  lemma SameLength(m: nat, n: nat)
    requires m * 8 % TWO_64 == n * 8 % TWO_64 && -64 < m - n < 64
    ensures m == n
  {
  }

  // ----- section 6.2.2: one block -----

  function Word(b: seq<byte>): bv32
    requires |b| == 4
  {
    ToWord(((b[0] as int * 256 + b[1] as int) * 256 + b[2] as int) * 256 + b[3] as int)
  }

  function FromWord(w: bv32): nat {
    w as int
  }

  function WordBytes(w: bv32): (b: seq<byte>)
    ensures |b| == 4
  {
    BigEndian(FromWord(w), 4)
  }

  /** The message schedule. */
  function W(block: seq<byte>, t: nat): bv32
    requires |block| == 64 && t < 64
  {
    if t < 16 then Word(block[4 * t..4 * t + 4])
    else NextWord(W(block, t - 2), W(block, t - 7), W(block, t - 15), W(block, t - 16))
  }

  function NextWord(w2: bv32, w7: bv32, w15: bv32, w16: bv32): bv32 {
    Sum4(SmallSigma1(w2), w7, SmallSigma0(w15), w16)
  }

  datatype Registers = Registers(a: bv32, b: bv32, c: bv32, d: bv32, e: bv32, f: bv32, g: bv32, h: bv32)

  function Round(r: Registers, k: bv32, w: bv32): Registers {
    var t1 := Add(Add(Add(Add(r.h, BigSigma1(r.e)), Ch(r.e, r.f, r.g)), k), w);
    var t2 := Add(BigSigma0(r.a), Maj(r.a, r.b, r.c));
    Registers(Add(t1, t2), r.a, r.b, r.c, Add(r.d, t1), r.e, r.f, r.g)
  }

  /** The working variables after the first `t` rounds. */
  function Rounds(start: Registers, block: seq<byte>, t: nat): Registers
    requires |block| == 64 && t <= 64
  {
    if t == 0 then start else Round(Rounds(start, block, t - 1), K(t - 1), W(block, t - 1))
  }

  function Load(h: seq<bv32>): Registers
    requires |h| == 8
  {
    Registers(h[0], h[1], h[2], h[3], h[4], h[5], h[6], h[7])
  }

  function Compress(h: seq<bv32>, block: seq<byte>): (r: seq<bv32>)
    requires |h| == 8 && |block| == 64
    ensures |r| == 8
  {
    var x := Rounds(Load(h), block, 64);
    [Add(h[0], x.a), Add(h[1], x.b), Add(h[2], x.c), Add(h[3], x.d), Add(h[4], x.e), Add(h[5], x.f), Add(h[6], x.g), Add(h[7], x.h)]
  }

  /** The hash value after all complete blocks of the text, in order. */
  function Fold(h: seq<bv32>, text: seq<byte>): (r: seq<bv32>)
    requires |h| == 8 && |text| % 64 == 0
    ensures |r| == 8
    decreases |text|
  {
    if text == [] then h else Compress(Fold(h, text[..|text| - 64]), text[|text| - 64..])
  }

  function Initial(): (h: seq<bv32>)
    ensures |h| == 8
  {
    seq(8, i requires 0 <= i < 8 => H0(i))
  }

  function Output(h: seq<bv32>): (b: seq<byte>)
    ensures |b| == 4 * |h|
  {
    if h == [] then [] else Output(h[..|h| - 1]) + WordBytes(h[|h| - 1])
  }

  /** Each word stands in its place of the output. */
  lemma {:induction false} OutputWord(h: seq<bv32>, i: nat)
    requires i < |h|
    ensures Output(h)[4 * i..4 * i + 4] == WordBytes(h[i])
  {
    hide WordBytes;
    var n := |h| - 1;
    if i < n {
      OutputWord(h[..n], i);
      assert Output(h)[4 * i..4 * i + 4] == Output(h[..n])[4 * i..4 * i + 4];
    }
  }

  function Digest(message: seq<byte>): (b: seq<byte>)
    ensures |b| == 32
  {
    PaddedShape(message);
    Output(Fold(Initial(), Padded(message)))
  }

  /** Hashing is a fold: blocks hashed first fix the state that the rest starts from. */
  lemma {:induction false} FoldOfConcat(h: seq<bv32>, a: seq<byte>, b: seq<byte>)
    requires |h| == 8 && |a| % 64 == 0 && |b| % 64 == 0
    ensures Fold(h, a + b) == Fold(Fold(h, a), b)
    decreases |b|
  {
    hide Compress;
    if b == [] {
      assert a + b == a;
    } else {
      var all, init := a + b, b[..|b| - 64];
      assert all[..|all| - 64] == a + init && all[|all| - 64..] == b[|b| - 64..];
      FoldOfConcat(h, a, init);
    }
  }

  // ----- the code's loops -----

  /** One block is one application of the block function, and no block none: with `FoldOfConcat`
      this fixes the fold. */
  lemma FoldOfBlock(h: seq<bv32>, block: seq<byte>)
    requires |h| == 8 && |block| == 64
    ensures Fold(h, block) == Compress(h, block) && Fold(h, []) == h
  {
    hide Compress;
    assert block[..0] == [] && block[0..] == block;
  }

  /** The code adds the schedule terms in another order. */
  lemma ScheduleOrder(w2: bv32, w7: bv32, w15: bv32, w16: bv32)
    ensures Sum4(w16, SmallSigma0(w15), w7, SmallSigma1(w2)) == NextWord(w2, w7, w15, w16)
  {
    hide SmallSigma0, SmallSigma1;
  }

  method Schedule(block: seq<byte>) returns (w: array<bv32>)
    requires |block| == 64
    ensures fresh(w) && w.Length == 64
    ensures forall t :: 0 <= t < 64 ==> w[t] == W(block, t)
  {
    hide SmallSigma0, SmallSigma1, NextWord, Word, Sum4;
    w := new bv32[64](_ => 0);
    for i := 0 to 16
      invariant forall t :: 0 <= t < i ==> w[t] == W(block, t)
    {
      w[i] := Word(block[4 * i..4 * i + 4]);
    }
    for i := 16 to 64
      invariant forall t :: 0 <= t < i ==> w[t] == W(block, t)
    {
      var s0, s1 := SmallSigma0(w[i - 15]), SmallSigma1(w[i - 2]);
      ScheduleOrder(w[i - 2], w[i - 7], w[i - 15], w[i - 16]);
      w[i] := Sum4(w[i - 16], s0, w[i - 7], s1);
    }
  }

  /** The eight working variables, shifted along and recomputed in each round. */
  method CompressionLoop(start: Registers, block: seq<byte>) returns (r: Registers)
    requires |block| == 64
    ensures r == Rounds(start, block, 64)
  {
    hide BigSigma0, BigSigma1, Ch, Maj, W, K, Add;
    var w := Schedule(block);
    var Registers(a, b, c, d, e, f, g, hh) := start;
    for i := 0 to 64
      invariant Registers(a, b, c, d, e, f, g, hh) == Rounds(start, block, i)
    {
      var temp1 := Add(Add(Add(Add(hh, BigSigma1(e)), Ch(e, f, g)), K(i)), w[i]);
      var temp2 := Add(BigSigma0(a), Maj(a, b, c));
      hh := g;
      g := f;
      f := e;
      e := Add(d, temp1);
      d := c;
      c := b;
      b := a;
      a := Add(temp1, temp2);
    }
    r := Registers(a, b, c, d, e, f, g, hh);
  }

  method CompressBlock(h: array<bv32>, block: seq<byte>)
    requires h.Length == 8 && |block| == 64
    modifies h
    ensures h[..] == Compress(old(h[..]), block)
  {
    hide Rounds, Add;
    var x := CompressionLoop(Load(h[..]), block);
    h[0] := Add(h[0], x.a);
    h[1] := Add(h[1], x.b);
    h[2] := Add(h[2], x.c);
    h[3] := Add(h[3], x.d);
    h[4] := Add(h[4], x.e);
    h[5] := Add(h[5], x.f);
    h[6] := Add(h[6], x.g);
    h[7] := Add(h[7], x.h);
    assert h[..] == [h[0], h[1], h[2], h[3], h[4], h[5], h[6], h[7]];
  }

  method Sha256(message: seq<byte>) returns (out: seq<byte>)
    ensures out == Digest(message)
  {
    hide Compress, Padded, WordBytes, H0, Fold, Output;
    PaddedShape(message);
    var padded := Pad(message);
    var h := new bv32[8](i requires 0 <= i < 8 => H0(i));
    assert h[..] == Initial();
    NothingDone(Initial(), padded);
    for block := 0 to |padded| / 64
      invariant h[..] == Fold(Initial(), padded[..64 * block])
    {
      BlockDone(Initial(), padded, block);
      CompressBlock(h, padded[64 * block..64 * block + 64]);
    }
    assert padded[..64 * (|padded| / 64)] == padded;
    out := [];
    NothingOut(h[..]);
    for i := 0 to 8
      invariant h[..] == Fold(Initial(), padded) && out == Output(h[..i])
    {
      WordDone(h[..], i);
      out := out + WordBytes(h[i]);
    }
    assert h[..8] == h[..];
  }

  lemma NothingOut(h: seq<bv32>)
    ensures Output(h[..0]) == []
  {
  }

  lemma NothingDone(h: seq<bv32>, text: seq<byte>)
    requires |h| == 8
    ensures Fold(h, text[..0]) == h
  {
  }

  lemma BlockDone(h: seq<bv32>, text: seq<byte>, k: nat)
    requires |h| == 8 && 64 * k + 64 <= |text|
    ensures Fold(h, text[..64 * (k + 1)]) == Compress(Fold(h, text[..64 * k]), text[64 * k..64 * k + 64])
  {
    hide Compress;
    var done := text[..64 * k + 64];
    assert done[..|done| - 64] == text[..64 * k] && done[|done| - 64..] == text[64 * k..64 * k + 64];
  }

  lemma WordDone(h: seq<bv32>, i: nat)
    requires i < |h|
    ensures Output(h[..i + 1]) == Output(h[..i]) + WordBytes(h[i])
  {
    hide WordBytes;
    assert h[..i + 1][..i] == h[..i];
  }

  // ----- sections 4.2.2 and 5.3.3: where the constants come from -----

  /** The first 64 primes, eight to a row. */
  const PRIMES: seq<seq<nat>> := [
    [2, 3, 5, 7, 11, 13, 17, 19],
    [23, 29, 31, 37, 41, 43, 47, 53],
    [59, 61, 67, 71, 73, 79, 83, 89],
    [97, 101, 103, 107, 109, 113, 127, 131],
    [137, 139, 149, 151, 157, 163, 167, 173],
    [179, 181, 191, 193, 197, 199, 211, 223],
    [227, 229, 233, 239, 241, 251, 257, 263],
    [269, 271, 277, 281, 283, 293, 307, 311]]

  function Prime(t: nat): nat
    requires t < 64
  {
    PRIMES[t / 8][t % 8]
  }

  /** `k` is the first 32 bits of the fractional part of the cube root of `p`, whose whole part is `whole`. */
  predicate CubeRootBits(p: int, whole: int, k: int) {
    var x := whole * 0x1_0000_0000 + k;
    x * x * x <= p * 0x1_0000_0000_0000_0000_0000_0000 < (x + 1) * (x + 1) * (x + 1)
  }

  /** Likewise for the square root. */
  predicate SquareRootBits(p: int, whole: int, k: int) {
    var x := whole * 0x1_0000_0000 + k;
    x * x <= p * TWO_64 < (x + 1) * (x + 1)
  }

  function CubeWhole(p: int): int {
    if p < 8 then 1 else if p < 27 then 2 else if p < 64 then 3 else if p < 125 then 4 else if p < 216 then 5 else 6
  }

  function SquareWhole(p: int): int {
    if p < 4 then 1 else if p < 9 then 2 else if p < 16 then 3 else 4
  }

  predicate RowOfCubeRoots(row: nat)
    requires row < 8
  {
    var p, k := PRIMES[row], ROUND_CONSTANTS[row];
    && CubeRootBits(p[0], CubeWhole(p[0]), k[0]) && CubeRootBits(p[1], CubeWhole(p[1]), k[1])
    && CubeRootBits(p[2], CubeWhole(p[2]), k[2]) && CubeRootBits(p[3], CubeWhole(p[3]), k[3])
    && CubeRootBits(p[4], CubeWhole(p[4]), k[4]) && CubeRootBits(p[5], CubeWhole(p[5]), k[5])
    && CubeRootBits(p[6], CubeWhole(p[6]), k[6]) && CubeRootBits(p[7], CubeWhole(p[7]), k[7])
  }

  lemma Row0()
    ensures RowOfCubeRoots(0)
  {
    assert CubeRootBits(2, 1, 0x428a2f98) && CubeRootBits(3, 1, 0x71374491);
    assert CubeRootBits(5, 1, 0xb5c0fbcf) && CubeRootBits(7, 1, 0xe9b5dba5);
    assert CubeRootBits(11, 2, 0x3956c25b) && CubeRootBits(13, 2, 0x59f111f1);
    assert CubeRootBits(17, 2, 0x923f82a4) && CubeRootBits(19, 2, 0xab1c5ed5);
    hide CubeRootBits;
  }

  lemma Row1()
    ensures RowOfCubeRoots(1)
  {
    assert CubeRootBits(23, 2, 0xd807aa98) && CubeRootBits(29, 3, 0x12835b01);
    assert CubeRootBits(31, 3, 0x243185be) && CubeRootBits(37, 3, 0x550c7dc3);
    assert CubeRootBits(41, 3, 0x72be5d74) && CubeRootBits(43, 3, 0x80deb1fe);
    assert CubeRootBits(47, 3, 0x9bdc06a7) && CubeRootBits(53, 3, 0xc19bf174);
    hide CubeRootBits;
  }

  lemma Row2()
    ensures RowOfCubeRoots(2)
  {
    assert CubeRootBits(59, 3, 0xe49b69c1) && CubeRootBits(61, 3, 0xefbe4786);
    assert CubeRootBits(67, 4, 0x0fc19dc6) && CubeRootBits(71, 4, 0x240ca1cc);
    assert CubeRootBits(73, 4, 0x2de92c6f) && CubeRootBits(79, 4, 0x4a7484aa);
    assert CubeRootBits(83, 4, 0x5cb0a9dc) && CubeRootBits(89, 4, 0x76f988da);
    hide CubeRootBits;
  }

  lemma Row3()
    ensures RowOfCubeRoots(3)
  {
    assert CubeRootBits(97, 4, 0x983e5152) && CubeRootBits(101, 4, 0xa831c66d);
    assert CubeRootBits(103, 4, 0xb00327c8) && CubeRootBits(107, 4, 0xbf597fc7);
    assert CubeRootBits(109, 4, 0xc6e00bf3) && CubeRootBits(113, 4, 0xd5a79147);
    assert CubeRootBits(127, 5, 0x06ca6351) && CubeRootBits(131, 5, 0x14292967);
    hide CubeRootBits;
  }

  lemma Row4()
    ensures RowOfCubeRoots(4)
  {
    assert CubeRootBits(137, 5, 0x27b70a85) && CubeRootBits(139, 5, 0x2e1b2138);
    assert CubeRootBits(149, 5, 0x4d2c6dfc) && CubeRootBits(151, 5, 0x53380d13);
    assert CubeRootBits(157, 5, 0x650a7354) && CubeRootBits(163, 5, 0x766a0abb);
    assert CubeRootBits(167, 5, 0x81c2c92e) && CubeRootBits(173, 5, 0x92722c85);
    hide CubeRootBits;
  }

  lemma Row5()
    ensures RowOfCubeRoots(5)
  {
    assert CubeRootBits(179, 5, 0xa2bfe8a1) && CubeRootBits(181, 5, 0xa81a664b);
    assert CubeRootBits(191, 5, 0xc24b8b70) && CubeRootBits(193, 5, 0xc76c51a3);
    assert CubeRootBits(197, 5, 0xd192e819) && CubeRootBits(199, 5, 0xd6990624);
    assert CubeRootBits(211, 5, 0xf40e3585) && CubeRootBits(223, 6, 0x106aa070);
    hide CubeRootBits;
  }

  lemma Row6()
    ensures RowOfCubeRoots(6)
  {
    assert CubeRootBits(227, 6, 0x19a4c116) && CubeRootBits(229, 6, 0x1e376c08);
    assert CubeRootBits(233, 6, 0x2748774c) && CubeRootBits(239, 6, 0x34b0bcb5);
    assert CubeRootBits(241, 6, 0x391c0cb3) && CubeRootBits(251, 6, 0x4ed8aa4a);
    assert CubeRootBits(257, 6, 0x5b9cca4f) && CubeRootBits(263, 6, 0x682e6ff3);
    hide CubeRootBits;
  }

  lemma Row7()
    ensures RowOfCubeRoots(7)
  {
    assert CubeRootBits(269, 6, 0x748f82ee) && CubeRootBits(271, 6, 0x78a5636f);
    assert CubeRootBits(277, 6, 0x84c87814) && CubeRootBits(281, 6, 0x8cc70208);
    assert CubeRootBits(283, 6, 0x90befffa) && CubeRootBits(293, 6, 0xa4506ceb);
    assert CubeRootBits(307, 6, 0xbef9a3f7) && CubeRootBits(311, 6, 0xc67178f2);
    hide CubeRootBits;
  }

  /** Each round constant and each initial hash word is the fraction the standard defines. */
  lemma ConstantsAreRoots()
    ensures forall t :: 0 <= t < 64 ==> CubeRootBits(Prime(t), CubeWhole(Prime(t)), RoundConstant(t))
    ensures forall i :: 0 <= i < 8 ==> SquareRootBits(Prime(i), SquareWhole(Prime(i)), INITIAL_HASH[i])
  {
    hide CubeRootBits, SquareRootBits, RowOfCubeRoots, CubeWhole, SquareWhole, Prime, RoundConstant;
    InitialHashIsRoots();
    Row0();
    Row1();
    Row2();
    Row3();
    Row4();
    Row5();
    Row6();
    Row7();
    forall t | 0 <= t < 64 ensures CubeRootBits(Prime(t), CubeWhole(Prime(t)), RoundConstant(t)) {
      assert RowOfCubeRoots(t / 8);
      RowGives(t);
    }
  }

  lemma InitialHashIsRoots()
    ensures forall i :: 0 <= i < 8 ==> SquareRootBits(Prime(i), SquareWhole(Prime(i)), INITIAL_HASH[i])
  {
  }

  lemma RowGives(t: nat)
    requires t < 64 && RowOfCubeRoots(t / 8)
    ensures CubeRootBits(Prime(t), CubeWhole(Prime(t)), RoundConstant(t))
  {
    hide CubeRootBits, CubeWhole;
    var j := t % 8;
    assert j == 0 || j == 1 || j == 2 || j == 3 || j == 4 || j == 5 || j == 6 || j == 7;
  }
}
