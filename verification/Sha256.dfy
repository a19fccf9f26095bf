/** The streaming SHA-256 context. */
module Sha256 {
  import opened CWord
  import opened Endian
  import opened Sha256Spec

  class Context {
    const data: array<U8>
    const state: array<U32>
    var datalen: U32
    var bitlen: U64
    ghost var message: seq<U8>

    /** The context has absorbed exactly `message`. */
    ghost predicate Valid()
      reads this, data, state
    {
      && data.Length == 64 && state.Length == 8
      && datalen == |message| % 64
      && bitlen == 512 * (|message| / 64) % TWO64
      && data[..datalen] == Remainder(message)
      && state[..] == HashBlocks(WholeBlocks(message))
    }

    constructor ()
      ensures Valid() && message == [] && fresh(data) && fresh(state)
    {
      data := new U8[64];
      state := new U32[8];
      new;
      Init();
    }

    /** sha256_init */
    method Init()
      requires data.Length == 64 && state.Length == 8
      modifies this, state
      ensures Valid() && message == []
    {
      datalen := 0;
      bitlen := 0;
      state[0], state[1], state[2], state[3] := 0x6a09e667, 0xbb67ae85, 0x3c6ef372, 0xa54ff53a;
      state[4], state[5], state[6], state[7] := 0x510e527f, 0x9b05688c, 0x1f83d9ab, 0x5be0cd19;
      message := [];
      assert state[..] == H0;
    }

    /** sha256_update; its 32-bit loop counter bounds the chunk. */
    method Update(chunk: seq<U8>)
      requires Valid() && |chunk| < TWO32
      modifies this, data, state
      ensures Valid() && message == old(message) + chunk
    {
      hide *;
      var i := 0;
      assert message == message + chunk[..0];
      while i < |chunk|
        invariant 0 <= i <= |chunk|
        invariant Valid() && message == old(message) + chunk[..i]
      {
        Absorb(chunk[i]);
        assert chunk[..i + 1] == chunk[..i] + [chunk[i]];
        i := i + 1;
      }
      assert chunk[..i] == chunk;
    }

    /** The body of the loop in sha256_update. */
    method Absorb(byte: U8)
      requires Valid()
      modifies this, data, state
      ensures Valid() && message == old(message) + [byte]
    {
      hide HashBlocks, Compress, WholeBlocks, Remainder;
      BlocksAfter(message, byte);
      data[datalen] := byte;
      datalen := datalen + 1;
      message := message + [byte];
      assert data[..datalen] == Remainder(old(message)) + [byte];
      if datalen == 64 {
        assert data[..] == data[..datalen];
        Transform(state, data[..]);
        bitlen := (bitlen + 512) % TWO64;
        datalen := 0;
      }
    }

    /** sha256_final; the context is spent afterwards. */
    method Final(hash: array<U8>)
      requires Valid() && hash.Length >= 32 && hash != data
      modifies this, data, state, hash
      ensures hash[..] == Digest(old(message)) + old(hash[32..])
    {
      hide HashBlocks, Compress, Pad, WholeBlocks, Remainder, LengthBytes, Output;
      ghost var m := message;
      PadBuffer();
      BitLength(|m|);
      bitlen := (bitlen + datalen * 8) % TWO64;
      StoreLength(m);
      Transform(state, data[..]);
      EmitState(hash);
    }

    method PadBuffer()
      requires Valid()
      modifies data, state
      ensures data.Length == 64 && state.Length == 8
      ensures HashBlocks(Pad(message)) == Compress(state[..], data[..56] + LengthBytes(message))
    {
      hide HashBlocks, Compress, Pad, WholeBlocks, Remainder, LengthBytes;
      PadTailHash(message);
      ghost var r := Remainder(message);
      var i := datalen;
      data[i] := 0x80;
      if datalen < 56 {
        FillZeros(i + 1, 56);
        assert data[..56] == r + [0x80] + ZeroBytes(55 - |r|);
      } else {
        FillZeros(i + 1, 64);
        assert data[..] == FirstTail(r);
        Transform(state, data[..]);
        FillZeros(0, 56);
        assert data[..56] == ZeroBytes(56);
      }
    }

    method FillZeros(from: nat, to: nat)
      requires from <= to <= data.Length
      modifies data
      ensures forall j :: 0 <= j < data.Length ==> data[j] == if from <= j < to then 0 else old(data[j])
    {
      var i := from;
      while i < to
        invariant from <= i <= to
        invariant forall j :: 0 <= j < data.Length ==> data[j] == if from <= j < i then 0 else old(data[j])
      {
        data[i] := 0x00;
        i := i + 1;
      }
    }

    method StoreLength(ghost m: seq<U8>)
      requires data.Length == 64 && bitlen == 8 * |m| % TWO64
      modifies data
      ensures data[..] == old(data[..56]) + LengthBytes(m)
    {
      hide BigEndian, Low, Shr;
      BigEndianAt(bitlen, 8, 0); BigEndianAt(bitlen, 8, 1); BigEndianAt(bitlen, 8, 2); BigEndianAt(bitlen, 8, 3);
      BigEndianAt(bitlen, 8, 4); BigEndianAt(bitlen, 8, 5); BigEndianAt(bitlen, 8, 6); BigEndianAt(bitlen, 8, 7);
      Pow2Upto8();
      data[63] := Low(Shr(bitlen, 0), 8);
      data[62] := Low(Shr(bitlen, 8), 8);
      data[61] := Low(Shr(bitlen, 16), 8);
      data[60] := Low(Shr(bitlen, 24), 8);
      data[59] := Low(Shr(bitlen, 32), 8);
      data[58] := Low(Shr(bitlen, 40), 8);
      data[57] := Low(Shr(bitlen, 48), 8);
      data[56] := Low(Shr(bitlen, 56), 8);
    }

    /** The output loop: byte i of all eight words in each turn. */
    method EmitState(hash: array<U8>)
      requires hash.Length >= 32 && state.Length == 8
      modifies hash
      ensures hash[..] == Output(state[..], 8) + old(hash[32..])
    {
      hide OutByte, Output;
      var i := 0;
      while i < 4
        invariant 0 <= i <= 4
        invariant forall p :: 0 <= p < 32 && p % 4 < i ==> hash[p] == OutByte(state[p / 4], p % 4)
        invariant hash[32..] == old(hash[32..]) && state[..] == old(state[..])
      {
        EmitColumn(hash, i);
        i := i + 1;
      }
      forall p | 0 <= p < 32
        ensures hash[p] == Output(state[..], 8)[p]
      {
        OutputAt(state[..], 8, p);
      }
    }

    method EmitColumn(hash: array<U8>, i: nat)
      requires hash.Length >= 32 && state.Length == 8 && i < 4
      modifies hash
      ensures forall p :: 0 <= p < hash.Length ==>
                hash[p] == if p < 32 && p % 4 == i then OutByte(state[p / 4], i) else old(hash[p])
    {
      hide OutByte;
      hash[i] := OutByte(state[0], i);
      hash[i + 4] := OutByte(state[1], i);
      hash[i + 8] := OutByte(state[2], i);
      hash[i + 12] := OutByte(state[3], i);
      hash[i + 16] := OutByte(state[4], i);
      hash[i + 20] := OutByte(state[5], i);
      hash[i + 24] := OutByte(state[6], i);
      hash[i + 28] := OutByte(state[7], i);
    }
  }

  /** (state[j] >> (24 - i * 8)) & 0xff */
  function OutByte(word: U32, i: nat): U8
    requires i < 4
  {
    And(Shr(word, 24 - i * 8), 0x0000_00ff)
  }

  lemma {:induction false} OutputAt(state: State, n: nat, p: nat)
    requires p < 4 * n <= 32
    ensures Output(state, n)[p] == OutByte(state[p / 4], p % 4)
  {
    hide Shr, And, Low, BigEndian;
    if p / 4 == n - 1 {
      BigEndianAt(state[n - 1], 4, 3 - p % 4);
      MaskedByte(Shr(state[n - 1], 24 - p % 4 * 8));
    } else {
      OutputAt(state, n - 1, p);
    }
  }

  /** sha256_final's one or two last blocks are the standard's padding of the remainder. */
  lemma PadTail(message: seq<U8>)
    ensures var r := Remainder(message);
            Pad(message) == if |r| < 56 then WholeBlocks(message) + ShortTail(r, LengthBytes(message))
                            else WholeBlocks(message) + FirstTail(r) + SecondTail(LengthBytes(message))
  {
    hide BigEndian, LengthBytes, ZeroCount;
    var r := Remainder(message);
    assert message == WholeBlocks(message) + r;
    ZeroCountAfter(|message|);
    if |r| >= 56 {
      assert ZeroBytes(119 - |r|) == ZeroBytes(63 - |r|) + ZeroBytes(56);
    }
  }

  lemma ZeroCountAfter(n: nat)
    ensures ZeroCount(n) == if n % 64 < 56 then 55 - n % 64 else 119 - n % 64
  {
  }

  lemma PadTailHash(message: seq<U8>)
    ensures var r, before := Remainder(message), HashBlocks(WholeBlocks(message));
            HashBlocks(Pad(message)) ==
            if |r| < 56 then Compress(before, ShortTail(r, LengthBytes(message)))
            else Compress(Compress(before, FirstTail(r)), SecondTail(LengthBytes(message)))
  {
    hide Compress, HashBlocks, BigEndian, LengthBytes, Pad, ShortTail, FirstTail, SecondTail, WholeBlocks;
    var r := Remainder(message);
    var whole := WholeBlocks(message);
    PadTail(message);
    if |r| < 56 {
      AppendBlock(whole, ShortTail(r, LengthBytes(message)));
    } else {
      AppendBlock(whole, FirstTail(r));
      AppendBlock(whole + FirstTail(r), SecondTail(LengthBytes(message)));
    }
  }

  lemma BitLength(n: nat)
    ensures (512 * (n / 64) % TWO64 + n % 64 * 8) % TWO64 == 8 * n % TWO64
  {
  }

  /** Hashing a file chunk by chunk, as the directory backup does. */
  method HashChunks(chunks: seq<seq<U8>>) returns (hash: array<U8>)
    requires forall c :: c in chunks ==> |c| < TWO32
    ensures hash[..] == Digest(Flatten(chunks))
  {
    hide *;
    var ctx := new Context();
    hash := new U8[32];
    var i := 0;
    FlattenEmpty(chunks);
    while i < |chunks|
      invariant 0 <= i <= |chunks| && fresh(ctx.data) && fresh(ctx.state)
      invariant ctx.Valid() && ctx.message == Flatten(chunks[..i])
    {
      ctx.Update(chunks[i]);
      FlattenAppends(chunks, i);
      i := i + 1;
    }
    assert chunks[..i] == chunks;
    ctx.Final(hash);
  }

  function Flatten(chunks: seq<seq<U8>>): seq<U8>
  {
    if |chunks| == 0 then [] else Flatten(chunks[..|chunks| - 1]) + chunks[|chunks| - 1]
  }

  lemma FlattenEmpty(chunks: seq<seq<U8>>)
    ensures Flatten(chunks[..0]) == []
  {
  }

  lemma FlattenAppends(chunks: seq<seq<U8>>, i: nat)
    requires i < |chunks|
    ensures Flatten(chunks[..i + 1]) == Flatten(chunks[..i]) + chunks[i]
  {
    assert chunks[..i + 1][..i] == chunks[..i];
  }

  /** How one more byte moves the boundary between whole blocks and remainder. */
  lemma BlocksAfter(message: seq<U8>, byte: U8)
    ensures var m, r := message + [byte], Remainder(message) + [byte];
            if |r| == 64 then
              && Remainder(m) == []
              && |m| / 64 == |message| / 64 + 1
              && HashBlocks(WholeBlocks(m)) == Compress(HashBlocks(WholeBlocks(message)), r)
            else
              Remainder(m) == r && WholeBlocks(m) == WholeBlocks(message) && |m| / 64 == |message| / 64
  {
    hide Compress;
    var m, r := message + [byte], Remainder(message) + [byte];
    if |r| == 64 {
      assert m == WholeBlocks(message) + r;
      AppendBlock(WholeBlocks(message), r);
      assert WholeBlocks(m) == m;
    }
  }

  lemma AppendBlock(s: seq<U8>, block: Block)
    requires |s| % 64 == 0
    ensures HashBlocks(s + block) == Compress(HashBlocks(s), block)
  {
    hide Compress;
    assert (s + block)[..|s + block| - 64] == s;
    assert (s + block)[|s + block| - 64..] == block;
  }

  lemma WordOfShifts(b0: U8, b1: U8, b2: U8, b3: U8)
    ensures Or(Or(Or(Shl(b0, 24), Shl(b1, 16)), Shl(b2, 8)), b3) == Word4(b0, b1, b2, b3)
  {
    hide Or;
    OrNextByte(b0, b1, 16);
    OrNextByte(0x100 * (b0 as int) + b1, b2, 8);
    OrNextByte(0x100 * (0x100 * (b0 as int) + b1) + b2, b3, 0);
  }

  /** The message schedule array m of sha256_transform. */
  method Schedule(block: Block) returns (m: array<U32>)
    ensures fresh(m) && m.Length == 64
    ensures forall t :: 0 <= t < 64 ==> m[t] == W(block, t)
  {
    hide Or, Shl, Shr, Xor, And, SmallSigma0, SmallSigma1, Word4;
    m := new U32[64];
    var i, j := 0, 0;
    while i < 16
      invariant 0 <= i <= 16 && j == 4 * i
      invariant forall t :: 0 <= t < i ==> m[t] == W(block, t)
    {
      WordOfShifts(block[j], block[j + 1], block[j + 2], block[j + 3]);
      m[i] := Or(Or(Or(Shl(block[j], 24), Shl(block[j + 1], 16)), Shl(block[j + 2], 8)), block[j + 3]);
      i, j := i + 1, j + 4;
    }
    while i < 64
      invariant 16 <= i <= 64
      invariant forall t :: 0 <= t < i ==> m[t] == W(block, t)
    {
      m[i] := (SmallSigma1(m[i - 2]) + m[i - 7] + SmallSigma0(m[i - 15]) + m[i - 16]) % TWO32;
      i := i + 1;
    }
  }

  method Transform(state: array<U32>, block: Block)
    requires state.Length == 8
    modifies state
    ensures state[..] == Compress(old(state[..]), block)
  {
    hide Or, Shl, Shr, Xor, And, BigSigma0, BigSigma1, Ch, Maj, K, W;
    ghost var before: State := state[..];
    var m := Schedule(block);
    var a: U32, b: U32, c: U32, d: U32 := state[0], state[1], state[2], state[3];
    var e: U32, f: U32, g: U32, h: U32 := state[4], state[5], state[6], state[7];
    var i := 0;
    while i < 64
      invariant 0 <= i <= 64
      invariant Rounds(before, block, i) == Registers(a, b, c, d, e, f, g, h)
      invariant state[..] == before && forall t :: 0 <= t < 64 ==> m[t] == W(block, t)
    {
      var t1 := (h + BigSigma1(e) + Ch(e, f, g) + K(i) + m[i]) % TWO32;
      var t2 := (BigSigma0(a) + Maj(a, b, c)) % TWO32;
      h := g;
      g := f;
      f := e;
      e := (d + t1) % TWO32;
      d := c;
      c := b;
      b := a;
      a := (t1 + t2) % TWO32;
      i := i + 1;
    }
    AddBack(state, a, b, c, d, e, f, g, h);
  }

  method AddBack(state: array<U32>, a: U32, b: U32, c: U32, d: U32, e: U32, f: U32, g: U32, h: U32)
    requires state.Length == 8
    modifies state
    ensures state[..] == AddRegisters(old(state[..]), Registers(a, b, c, d, e, f, g, h))
  {
    state[0] := (state[0] + a) % TWO32;
    state[1] := (state[1] + b) % TWO32;
    state[2] := (state[2] + c) % TWO32;
    state[3] := (state[3] + d) % TWO32;
    state[4] := (state[4] + e) % TWO32;
    state[5] := (state[5] + f) % TWO32;
    state[6] := (state[6] + g) % TWO32;
    state[7] := (state[7] + h) % TWO32;
  }
}
