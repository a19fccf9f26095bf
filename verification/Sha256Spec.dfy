/** SHA-256 as FIPS 180-4 defines it, on byte strings. */
module Sha256Spec {
  import opened CWord
  import opened Endian

  type Block = s: seq<U8> | |s| == 64 witness seq(64, _ => 0)
  type State = s: seq<U32> | |s| == 8 witness seq(8, _ => 0)

  const K_ROW0: seq<U32> :=
    [0x428a2f98, 0x71374491, 0xb5c0fbcf, 0xe9b5dba5, 0x3956c25b, 0x59f111f1, 0x923f82a4, 0xab1c5ed5]
  const K_ROW1: seq<U32> :=
    [0xd807aa98, 0x12835b01, 0x243185be, 0x550c7dc3, 0x72be5d74, 0x80deb1fe, 0x9bdc06a7, 0xc19bf174]
  const K_ROW2: seq<U32> :=
    [0xe49b69c1, 0xefbe4786, 0x0fc19dc6, 0x240ca1cc, 0x2de92c6f, 0x4a7484aa, 0x5cb0a9dc, 0x76f988da]
  const K_ROW3: seq<U32> :=
    [0x983e5152, 0xa831c66d, 0xb00327c8, 0xbf597fc7, 0xc6e00bf3, 0xd5a79147, 0x06ca6351, 0x14292967]
  const K_ROW4: seq<U32> :=
    [0x27b70a85, 0x2e1b2138, 0x4d2c6dfc, 0x53380d13, 0x650a7354, 0x766a0abb, 0x81c2c92e, 0x92722c85]
  const K_ROW5: seq<U32> :=
    [0xa2bfe8a1, 0xa81a664b, 0xc24b8b70, 0xc76c51a3, 0xd192e819, 0xd6990624, 0xf40e3585, 0x106aa070]
  const K_ROW6: seq<U32> :=
    [0x19a4c116, 0x1e376c08, 0x2748774c, 0x34b0bcb5, 0x391c0cb3, 0x4ed8aa4a, 0x5b9cca4f, 0x682e6ff3]
  const K_ROW7: seq<U32> :=
    [0x748f82ee, 0x78a5636f, 0x84c87814, 0x8cc70208, 0x90befffa, 0xa4506ceb, 0xbef9a3f7, 0xc67178f2]

  /** The round constants of section 4.2.2. */
  function K(t: nat): U32
    requires t < 64
  {
    if t < 8 then K_ROW0[t - 0]
    else if t < 16 then K_ROW1[t - 8]
    else if t < 24 then K_ROW2[t - 16]
    else if t < 32 then K_ROW3[t - 24]
    else if t < 40 then K_ROW4[t - 32]
    else if t < 48 then K_ROW5[t - 40]
    else if t < 56 then K_ROW6[t - 48]
    else K_ROW7[t - 56]
  }

  /** The initial hash value of section 5.3.3. */
  const H0: State := [
    0x6a09e667, 0xbb67ae85, 0x3c6ef372, 0xa54ff53a, 0x510e527f, 0x9b05688c, 0x1f83d9ab, 0x5be0cd19]

  // The functions of section 4.1.2.

  function Rotr(x: U32, n: nat): nat
    requires n <= 32
  {
    Or(Shr(x, n), Low(Shl(x, 32 - n), 32))
  }

  function Ch(x: U32, y: U32, z: U32): nat
  {
    Xor(And(x, y), And(TWO32 - 1 - x, z))
  }

  function Maj(x: U32, y: U32, z: U32): nat
  {
    Xor(Xor(And(x, y), And(x, z)), And(y, z))
  }

  function BigSigma0(x: U32): nat { Xor(Xor(Rotr(x, 2), Rotr(x, 13)), Rotr(x, 22)) }

  function BigSigma1(x: U32): nat { Xor(Xor(Rotr(x, 6), Rotr(x, 11)), Rotr(x, 25)) }

  function SmallSigma0(x: U32): nat { Xor(Xor(Rotr(x, 7), Rotr(x, 18)), Shr(x, 3)) }

  function SmallSigma1(x: U32): nat { Xor(Xor(Rotr(x, 17), Rotr(x, 19)), Shr(x, 10)) }

  // Section 6.2.2: the message schedule, the rounds and the compression of one block.

  function BlockWord(block: Block, t: nat): U32
    requires t < 16
  {
    Word4(block[4 * t], block[4 * t + 1], block[4 * t + 2], block[4 * t + 3])
  }

  function Word4(b0: U8, b1: U8, b2: U8, b3: U8): U32
  {
    var high: nat := 0x100 * (b0 as int) + b1;
    var word: nat := 0x100 * (0x100 * high + b2) + b3;
    word
  }

  function W(block: Block, t: nat): U32
    requires t < 64
  {
    if t < 16 then BlockWord(block, t)
    else (SmallSigma1(W(block, t - 2)) + W(block, t - 7) + SmallSigma0(W(block, t - 15)) + W(block, t - 16)) % TWO32
  }

  datatype Registers = Registers(a: U32, b: U32, c: U32, d: U32, e: U32, f: U32, g: U32, h: U32)

  function Load(state: State): Registers
  {
    Registers(state[0], state[1], state[2], state[3], state[4], state[5], state[6], state[7])
  }

  function Round(r: Registers, k: U32, w: U32): Registers
  {
    var t1 := (r.h + BigSigma1(r.e) + Ch(r.e, r.f, r.g) + k + w) % TWO32;
    var t2 := (BigSigma0(r.a) + Maj(r.a, r.b, r.c)) % TWO32;
    Registers((t1 + t2) % TWO32, r.a, r.b, r.c, (r.d + t1) % TWO32, r.e, r.f, r.g)
  }

  /** The registers after t rounds. */
  function Rounds(state: State, block: Block, t: nat): Registers
    requires t <= 64
  {
    if t == 0 then Load(state) else Round(Rounds(state, block, t - 1), K(t - 1), W(block, t - 1))
  }

  function AddRegisters(state: State, r: Registers): State
  {
    [(state[0] + r.a) % TWO32, (state[1] + r.b) % TWO32, (state[2] + r.c) % TWO32, (state[3] + r.d) % TWO32,
     (state[4] + r.e) % TWO32, (state[5] + r.f) % TWO32, (state[6] + r.g) % TWO32, (state[7] + r.h) % TWO32]
  }

  function Compress(state: State, block: Block): State
  {
    AddRegisters(state, Rounds(state, block, 64))
  }

  /** The hash value after all the blocks of a string of whole blocks. */
  function HashBlocks(s: seq<U8>): State
    requires |s| % 64 == 0
  {
    if |s| == 0 then H0 else Compress(HashBlocks(s[..|s| - 64]), s[|s| - 64..])
  }

  /** The whole blocks at the head of a message, and the bytes after them. */
  function WholeBlocks(message: seq<U8>): (r: seq<U8>)
    ensures |r| % 64 == 0
  {
    message[..|message| - |message| % 64]
  }

  function Remainder(message: seq<U8>): (r: seq<U8>)
    ensures |r| == |message| % 64
  {
    message[|message| - |message| % 64..]
  }

  // Section 5.1.1: padding.

  function ZeroBytes(n: nat): (r: seq<U8>)
    ensures |r| == n && forall i :: 0 <= i < n ==> r[i] == 0
  {
    seq(n, _ => 0)
  }

  /** Zero bytes between the 0x80 byte and the length of a message of n bytes. */
  function ZeroCount(n: nat): nat
  {
    (55 - n) % 64
  }

  lemma PadLength(n: nat)
    ensures (n + 1 + ZeroCount(n) + 8) % 64 == 0
  {
    var z := ZeroCount(n);
    var m := (n + z - 55) / 64;
    assert n == 64 * m + 55 - z;
  }

  function Pad(message: seq<U8>): (r: seq<U8>)
    ensures |r| % 64 == 0
  {
    PadLength(|message|);
    message + [0x80] + ZeroBytes(ZeroCount(|message|)) + LengthBytes(message)
  }

  /** The last block when the remainder r leaves room for the length. */
  function ShortTail(r: seq<U8>, length: seq<U8>): Block
    requires |r| < 56 && |length| == 8
  {
    r + [0x80] + ZeroBytes(55 - |r|) + length
  }

  /** The last two blocks when it does not. */
  function FirstTail(r: seq<U8>): Block
    requires 56 <= |r| < 64
  {
    r + [0x80] + ZeroBytes(63 - |r|)
  }

  function SecondTail(length: seq<U8>): Block
    requires |length| == 8
  {
    ZeroBytes(56) + length
  }

  function LengthBytes(message: seq<U8>): (r: seq<U8>)
    ensures |r| == 8
  {
    BigEndian(8 * |message| % TWO64, 8)
  }

  /** The first n words of the hash value as bytes. */
  function Output(state: State, n: nat): (r: seq<U8>)
    requires n <= 8
    ensures |r| == 4 * n
  {
    if n == 0 then [] else Output(state, n - 1) + BigEndian(state[n - 1], 4)
  }

  function Digest(message: seq<U8>): (r: seq<U8>)
    ensures |r| == 32
  {
    Output(HashBlocks(Pad(message)), 8)
  }

  predicate Fills(l: nat, k: nat)
  {
    (l + 1 + k) % 512 == 448
  }

  /** In bits: the one bit is followed by the least number k of zeros with l + 1 + k = 448 (mod 512). */
  lemma PaddingIsLeast(n: nat)
    ensures var l, k := 8 * n, 7 + 8 * ZeroCount(n);
            && Fills(l, k)
            && forall j :: 0 <= j < k ==> !Fills(l, j)
  {
    var z := ZeroCount(n);
    var m := (n + z - 55) / 64;
    assert n == 64 * m + 55 - z;
    hide ZeroCount;
    var l, k := 8 * n, 7 + 8 * z;
    assert l + 1 + k == 512 * m + 512 - 64;
    forall j | 0 <= j < k
      ensures !Fills(l, j)
    {
      assert 512 * m + 448 - 512 < l + 1 + j < 512 * m + 448;
    }
  }

  /** Messages within the standard's length limit are never confused by padding. */
  lemma PadInjective(m: seq<U8>, m': seq<U8>)
    requires 8 * |m| < TWO64 && 8 * |m'| < TWO64
    requires Pad(m) == Pad(m')
    ensures m == m'
  {
    hide BigEndian, ZeroBytes, ZeroCount, Pow2;
    PadEnds(m);
    PadEnds(m');
    Pow2OfBytes();
    BigEndianInjective(8 * |m|, 8 * |m'|, 8);
    assert m == Pad(m)[..|m|];
  }

  lemma PadEnds(m: seq<U8>)
    requires 8 * |m| < TWO64
    ensures |Pad(m)| >= |m| + 9 && Pad(m)[|Pad(m)| - 8..] == BigEndian(8 * |m|, 8) && Pad(m)[..|m|] == m
  {
    hide BigEndian, ZeroBytes, ZeroCount;
    var head := m + [0x80] + ZeroBytes(ZeroCount(|m|));
    assert head[..|m|] == m;
    assert (head + LengthBytes(m))[..|m|] == head[..|m|];
    assert (head + LengthBytes(m))[|head|..] == LengthBytes(m);
  }

  // The constants against their derivation in sections 4.2.2 and 5.3.3.

  const PRIMES_ROW0: seq<nat> := [2, 3, 5, 7, 11, 13, 17, 19]
  const PRIMES_ROW1: seq<nat> := [23, 29, 31, 37, 41, 43, 47, 53]
  const PRIMES_ROW2: seq<nat> := [59, 61, 67, 71, 73, 79, 83, 89]
  const PRIMES_ROW3: seq<nat> := [97, 101, 103, 107, 109, 113, 127, 131]
  const PRIMES_ROW4: seq<nat> := [137, 139, 149, 151, 157, 163, 167, 173]
  const PRIMES_ROW5: seq<nat> := [179, 181, 191, 193, 197, 199, 211, 223]
  const PRIMES_ROW6: seq<nat> := [227, 229, 233, 239, 241, 251, 257, 263]
  const PRIMES_ROW7: seq<nat> := [269, 271, 277, 281, 283, 293, 307, 311]

  function Prime(t: nat): nat
    requires t < 64
  {
    if t < 8 then PRIMES_ROW0[t - 0]
    else if t < 16 then PRIMES_ROW1[t - 8]
    else if t < 24 then PRIMES_ROW2[t - 16]
    else if t < 32 then PRIMES_ROW3[t - 24]
    else if t < 40 then PRIMES_ROW4[t - 32]
    else if t < 48 then PRIMES_ROW5[t - 40]
    else if t < 56 then PRIMES_ROW6[t - 48]
    else PRIMES_ROW7[t - 56]
  }

  /** c is the cube root of p, scaled by 2^32 and rounded down. */
  predicate IsCubeRoot(p: nat, c: nat)
  {
    c * c * c <= p * 0x1_0000_0000_0000_0000_0000_0000 < (c + 1) * (c + 1) * (c + 1)
  }

  predicate IsSquareRoot(p: nat, c: nat)
  {
    c * c <= p * 0x1_0000_0000_0000_0000 < (c + 1) * (c + 1)
  }

  function WholeCubeRoot(p: nat): nat
  {
    if p < 8 then 1 else if p < 27 then 2 else if p < 64 then 3 else if p < 125 then 4 else if p < 216 then 5 else 6
  }

  function WholeSquareRoot(p: nat): nat
  {
    if p < 4 then 1 else if p < 9 then 2 else if p < 16 then 3 else 4
  }

  lemma Row0(t: nat)
    requires t < 8
    ensures IsCubeRoot(PRIMES_ROW0[t], TWO32 * WholeCubeRoot(PRIMES_ROW0[t]) + K_ROW0[t])
  {
    if t == 0 {} else if t == 1 {} else if t == 2 {} else if t == 3 {} else if t == 4 {} else if t == 5 {}
    else if t == 6 {} else {}
  }

  lemma Row1(t: nat)
    requires t < 8
    ensures IsCubeRoot(PRIMES_ROW1[t], TWO32 * WholeCubeRoot(PRIMES_ROW1[t]) + K_ROW1[t])
  {
    if t == 0 {} else if t == 1 {} else if t == 2 {} else if t == 3 {} else if t == 4 {} else if t == 5 {}
    else if t == 6 {} else {}
  }

  lemma Row2(t: nat)
    requires t < 8
    ensures IsCubeRoot(PRIMES_ROW2[t], TWO32 * WholeCubeRoot(PRIMES_ROW2[t]) + K_ROW2[t])
  {
    if t == 0 {} else if t == 1 {} else if t == 2 {} else if t == 3 {} else if t == 4 {} else if t == 5 {}
    else if t == 6 {} else {}
  }

  lemma Row3(t: nat)
    requires t < 8
    ensures IsCubeRoot(PRIMES_ROW3[t], TWO32 * WholeCubeRoot(PRIMES_ROW3[t]) + K_ROW3[t])
  {
    if t == 0 {} else if t == 1 {} else if t == 2 {} else if t == 3 {} else if t == 4 {} else if t == 5 {}
    else if t == 6 {} else {}
  }

  lemma Row4(t: nat)
    requires t < 8
    ensures IsCubeRoot(PRIMES_ROW4[t], TWO32 * WholeCubeRoot(PRIMES_ROW4[t]) + K_ROW4[t])
  {
    if t == 0 {} else if t == 1 {} else if t == 2 {} else if t == 3 {} else if t == 4 {} else if t == 5 {}
    else if t == 6 {} else {}
  }

  lemma Row5(t: nat)
    requires t < 8
    ensures IsCubeRoot(PRIMES_ROW5[t], TWO32 * WholeCubeRoot(PRIMES_ROW5[t]) + K_ROW5[t])
  {
    if t == 0 {} else if t == 1 {} else if t == 2 {} else if t == 3 {} else if t == 4 {} else if t == 5 {}
    else if t == 6 {} else {}
  }

  lemma Row6(t: nat)
    requires t < 8
    ensures IsCubeRoot(PRIMES_ROW6[t], TWO32 * WholeCubeRoot(PRIMES_ROW6[t]) + K_ROW6[t])
  {
    if t == 0 {} else if t == 1 {} else if t == 2 {} else if t == 3 {} else if t == 4 {} else if t == 5 {}
    else if t == 6 {} else {}
  }

  lemma Row7(t: nat)
    requires t < 8
    ensures IsCubeRoot(PRIMES_ROW7[t], TWO32 * WholeCubeRoot(PRIMES_ROW7[t]) + K_ROW7[t])
  {
    if t == 0 {} else if t == 1 {} else if t == 2 {} else if t == 3 {} else if t == 4 {} else if t == 5 {}
    else if t == 6 {} else {}
  }

  /** The round constants are the first 32 fraction bits of the cube roots of the first 64 primes. */
  lemma RoundConstantsAreCubeRoots(t: nat)
    requires t < 64
    ensures IsCubeRoot(Prime(t), TWO32 * WholeCubeRoot(Prime(t)) + K(t))
  {
    hide IsCubeRoot, WholeCubeRoot;
    if t < 8 {
      Row0(t - 0);
    } else if t < 16 {
      Row1(t - 8);
    } else if t < 24 {
      Row2(t - 16);
    } else if t < 32 {
      Row3(t - 24);
    } else if t < 40 {
      Row4(t - 32);
    } else if t < 48 {
      Row5(t - 40);
    } else if t < 56 {
      Row6(t - 48);
    } else {
      Row7(t - 56);
    }
  }

  /** The initial hash is the first 32 fraction bits of the square roots of the first 8 primes. */
  lemma InitialHashIsSquareRoots(t: nat)
    requires t < 8
    ensures IsSquareRoot(Prime(t), TWO32 * WholeSquareRoot(Prime(t)) + H0[t])
  {
    if t == 0 {} else if t == 1 {} else if t == 2 {} else if t == 3 {} else if t == 4 {} else if t == 5 {}
    else if t == 6 {} else {}
  }
}
