/** MD5 as hash/md5.cpp implements it: the compression of RFC 1321 section 3.4,
    a finaliser whose two-block threshold and byte reversal differ from the RFC,
    and the space-separated rendering. */
module Md5 {
  import opened Bytes
  import Padding
  import Hex

  /** The chaining variables A, B, C, D (`unsigned long`, 32 bits on the Windows build). */
  datatype State = State(a: bv32, b: bv32, c: bv32, d: bv32)

  type WordIndex = i: nat | i < 16
  type Shift = n: bv32 | 0 < n < 32 witness 1

  /** MD5_CONSTANTS: the additive constants T[1..64] of RFC 1321 section 3.4,
      one round of sixteen per row. */
  const Constants: seq<bv32> := ConstantsRound1 + ConstantsRound2 + ConstantsRound3 + ConstantsRound4
  const ConstantsRound1: seq<bv32> := [
    0xd76aa478, 0xe8c7b756, 0x242070db, 0xc1bdceee, 0xf57c0faf, 0x4787c62a, 0xa8304613, 0xfd469501,
    0x698098d8, 0x8b44f7af, 0xffff5bb1, 0x895cd7be, 0x6b901122, 0xfd987193, 0xa679438e, 0x49b40821]
  const ConstantsRound2: seq<bv32> := [
    0xf61e2562, 0xc040b340, 0x265e5a51, 0xe9b6c7aa, 0xd62f105d, 0x02441453, 0xd8a1e681, 0xe7d3fbc8,
    0x21e1cde6, 0xc33707d6, 0xf4d50d87, 0x455a14ed, 0xa9e3e905, 0xfcefa3f8, 0x676f02d9, 0x8d2a4c8a]
  const ConstantsRound3: seq<bv32> := [
    0xfffa3942, 0x8771f681, 0x6d9d6122, 0xfde5380c, 0xa4beea44, 0x4bdecfa9, 0xf6bb4b60, 0xbebfbc70,
    0x289b7ec6, 0xeaa127fa, 0xd4ef3085, 0x04881d05, 0xd9d4d039, 0xe6db99e5, 0x1fa27cf8, 0xc4ac5665]
  const ConstantsRound4: seq<bv32> := [
    0xf4292244, 0x432aff97, 0xab9423a7, 0xfc93a039, 0x655b59c3, 0x8f0ccc92, 0xffeff47d, 0x85845dd1,
    0x6fa87e4f, 0xfe2ce6e0, 0xa3014314, 0x4e0811a1, 0xf7537e82, 0xbd3af235, 0x2ad7d2bb, 0xeb86d391]

  /** MD5_ACCESS_ORDER: which message word step t reads. */
  const AccessOrder: seq<WordIndex> := OrderRound1 + OrderRound2 + OrderRound3 + OrderRound4
  const OrderRound1: seq<WordIndex> := [0, 1,  2,  3,  4,  5,  6,  7,  8,  9, 10, 11, 12, 13, 14, 15]
  const OrderRound2: seq<WordIndex> := [1, 6, 11,  0,  5, 10, 15,  4,  9, 14,  3,  8, 13,  2,  7, 12]
  const OrderRound3: seq<WordIndex> := [5, 8, 11, 14,  1,  4,  7, 10, 13,  0,  3,  6,  9, 12, 15,  2]
  const OrderRound4: seq<WordIndex> := [0, 7, 14,  5, 12,  3, 10,  1,  8, 15,  6, 13,  4, 11,  2,  9]

  /** MD5_SHIFTS: the left-rotation amount of step t. */
  const Shifts: seq<Shift> := ShiftsRound1 + ShiftsRound2 + ShiftsRound3 + ShiftsRound4
  const ShiftsRound1: seq<Shift> := [7, 12, 17, 22, 7, 12, 17, 22, 7, 12, 17, 22, 7, 12, 17, 22]
  const ShiftsRound2: seq<Shift> := [5,  9, 14, 20, 5,  9, 14, 20, 5,  9, 14, 20, 5,  9, 14, 20]
  const ShiftsRound3: seq<Shift> := [4, 11, 16, 23, 4, 11, 16, 23, 4, 11, 16, 23, 4, 11, 16, 23]
  const ShiftsRound4: seq<Shift> := [6, 10, 15, 21, 6, 10, 15, 21, 6, 10, 15, 21, 6, 10, 15, 21]

  /** `reset()`, which is also all the constructor does. */
  function Reset(): (s: State)
    ensures s == State(0x67452301, 0xefcdab89, 0x98badcfe, 0x10325476)
  {
    State(0x67452301, 0xefcdab89, 0x98badcfe, 0x10325476)
  }

  /** The constructor `MD5()`: only calls `reset()`. */
  function New(): State {
    Reset()
  }

  /* ---------------- Compression, in the terms of RFC 1321 section 3.4 ---------------- */

  function F(x: bv32, y: bv32, z: bv32): bv32 { (x & y) | (!x & z) }
  function G(x: bv32, y: bv32, z: bv32): bv32 { (x & z) | (y & !z) }
  function H(x: bv32, y: bv32, z: bv32): bv32 { x ^ y ^ z }
  function I(x: bv32, y: bv32, z: bv32): bv32 { y ^ (x | !z) }

  /** The auxiliary function of the round step t belongs to. */
  function Aux(t: nat, x: bv32, y: bv32, z: bv32): bv32 {
    if t < 16 then F(x, y, z) else if t < 32 then G(x, y, z) else if t < 48 then H(x, y, z) else I(x, y, z)
  }

  /** Step t: `a = b + ((a + Aux(b,c,d) + X[k] + T[t]) <<< s)`, after which the
      registers are renamed so that the next step again updates `a`. */
  function Step(v: State, t: nat, x: seq<bv32>): State
    requires t < 64 && |x| == 16
  {
    State(v.d, NewB(v.b, Sum(v.a, Aux(t, v.b, v.c, v.d), x[AccessOrder[t]], Constants[t]), Shifts[t]), v.b, v.c)
  }

  /** `a + f + X[k] + T[t]` modulo 2^32. */
  function Sum(a: bv32, f: bv32, xk: bv32, k: bv32): bv32 {
    a + f + xk + k
  }

  /** `b + (sum <<< s)`, where `<<<` is the circular left shift. */
  function NewB(b: bv32, sum: bv32, n: Shift): bv32 {
    b + ((sum << n) | (sum >> (32 - n)))
  }

  /** The working variables after the first `n` steps. */
  function Rounds(v: State, x: seq<bv32>, n: nat): State
    requires n <= 64 && |x| == 16
  {
    if n == 0 then v else Step(Rounds(v, x, n - 1), n - 1, x)
  }

  /** `process_block` as a function: 64 steps over the block's 16
      little-endian words, then each chaining variable is increased by its
      working variable modulo 2^32. */
  function Compress(s: State, block: seq<bv8>): State
    requires |block| == 64
  {
    FeedForward(s, Rounds(s, LE32Words(block, 16), 64))
  }

  /** Each chaining variable increased by its working variable. */
  function FeedForward(s: State, v: State): State {
    State(s.a + v.a, s.b + v.b, s.c + v.c, s.d + v.d)
  }

  /** Compresses the blocks in order. */
  function CompressAll(s: State, blocks: seq<seq<bv8>>): State
    requires forall k :: 0 <= k < |blocks| ==> |blocks[k]| == 64
    decreases |blocks|
  {
    if blocks == [] then s else CompressAll(Compress(s, blocks[0]), blocks[1..])
  }

  /* ---------------- process_block as the C++ writes it ---------------- */

  /** The `Function` lambda's forms of F and G, which save one operation. */
  function SourceF(x: bv32, y: bv32, z: bv32): bv32 { z ^ (x & (y ^ z)) }
  function SourceG(x: bv32, y: bv32, z: bv32): bv32 { y ^ (z & (x ^ y)) }

  /** The `Function` lambda. */
  function SourceFunction(t: nat, x: bv32, y: bv32, z: bv32): bv32 {
    if t < 16 then SourceF(x, y, z)
    else if t < 32 then SourceG(x, y, z)
    else if t < 48 then x ^ y ^ z
    else y ^ (x | !z)
  }

  lemma SourceFIsF(x: bv32, y: bv32, z: bv32)
    ensures SourceF(x, y, z) == F(x, y, z)
  {
    assert z ^ (x & (y ^ z)) == (x & y) | (!x & z);
  }

  lemma SourceGIsG(x: bv32, y: bv32, z: bv32)
    ensures SourceG(x, y, z) == G(x, y, z)
  {
    assert y ^ (z & (x ^ y)) == (x & z) | (y & !z);
  }

  /** The `Function` lambda computes the RFC's F, G, H and I. */
  lemma SourceFunctionIsAux(t: nat, x: bv32, y: bv32, z: bv32)
    ensures SourceFunction(t, x, y, z) == Aux(t, x, y, z)
  {
    if t < 16 { SourceFIsF(x, y, z); } else if t < 32 { SourceGIsG(x, y, z); }
  }

  /** One iteration of the 64-step loop, as the C++ writes it:
      `temp = ROTL(a + Function(b,c,d) + X[k] + T[t], s) + b`, then
      `a = d; d = c; c = b; b = temp`. */
  function SourceStep(v: State, t: nat, x: seq<bv32>): State
    requires t < 64 && |x| == 16
  {
    State(v.d, SourceTemp(v.b, Sum(v.a, SourceFunction(t, v.b, v.c, v.d), x[AccessOrder[t]], Constants[t]), Shifts[t]), v.b, v.c)
  }

  /** `temp = ROTL(temp, s) + b`, with the `ROTL` lambda's
      `(x << n) | ((x & 0xFFFFFFFF) >> (32 - n))` written out. */
  function SourceTemp(b: bv32, sum: bv32, n: Shift): bv32 {
    ((sum << n) | ((sum & 0xFFFFFFFF) >> (32 - n))) + b
  }

  function SourceRounds(v: State, x: seq<bv32>, n: nat): State
    requires n <= 64 && |x| == 16
  {
    if n == 0 then v else SourceStep(SourceRounds(v, x, n - 1), n - 1, x)
  }

  /** The loop's `temp` is the RFC step's new `b`: the `ROTL` lambda's mask
      keeps all 32 bits, so it is the RFC's circular shift for every amount. */
  lemma TempIsNewB(b: bv32, sum: bv32, n: Shift)
    ensures SourceTemp(b, sum, n) == NewB(b, sum, n)
  {
    assert sum & 0xFFFFFFFF == sum;
  }

  /** One loop iteration performs one RFC step. */
  lemma SourceStepIsStep(v: State, t: nat, x: seq<bv32>)
    requires t < 64 && |x| == 16
    ensures SourceStep(v, t, x) == Step(v, t, x)
  {
    SourceFunctionIsAux(t, v.b, v.c, v.d);
    TempIsNewB(v.b, Sum(v.a, Aux(t, v.b, v.c, v.d), x[AccessOrder[t]], Constants[t]), Shifts[t]);
  }

  /** The source's loop computes the RFC's rounds. */
  lemma {:induction false} SourceRoundsAreRounds(v: State, x: seq<bv32>, n: nat)
    requires n <= 64 && |x| == 16
    ensures SourceRounds(v, x, n) == Rounds(v, x, n)
  {
    if n > 0 {
      SourceRoundsAreRounds(v, x, n - 1);
      SourceStepIsStep(Rounds(v, x, n - 1), n - 1, x);
    }
  }

  /** `process_block` exactly as the C++ loops run it: unpack 16 words with
      shifts and ORs, then 64 steps through the `Function` and `ROTL` lambdas
      with the a/d/c/b shift register, then the feed-forward.  It computes the
      RFC-shaped `Compress`. */
  method ProcessBlock(s: State, block: seq<bv8>) returns (r: State)
    requires |block| == 64
    ensures r == Compress(s, block)
  {
    var longBlock := new bv32[16];
    for loop := 0 to 16
      invariant forall i :: 0 <= i < loop ==> longBlock[i] == LE32(block, 4 * i)
    {
      longBlock[loop] := (block[loop * 4] as bv32 << 0) | (block[loop * 4 + 1] as bv32 << 8) |
                         (block[loop * 4 + 2] as bv32 << 16) | (block[loop * 4 + 3] as bv32 << 24);
    }
    var x := longBlock[..];
    assert x == LE32Words(block, 16);

    var a, b, c, d := s.a, s.b, s.c, s.d;
    for loop := 0 to 64
      invariant State(a, b, c, d) == SourceRounds(s, x, loop)
    {
      var temp := Sum(a, SourceFunction(loop, b, c, d), x[AccessOrder[loop]], Constants[loop]);
      temp := SourceTemp(b, temp, Shifts[loop]);
      a := d;
      d := c;
      c := b;
      b := temp;
    }
    SourceRoundsAreRounds(s, x, 64);
    r := FeedForward(s, State(a, b, c, d));
  }

  /* ---------------- Tables ---------------- */

  /** Each 16-entry round of MD5_ACCESS_ORDER reads every message word. */
  lemma AccessOrderRoundsArePermutations(r: nat, k: nat)
    requires r < 4 && k < 16
    ensures exists t :: 16 * r <= t < 16 * r + 16 && AccessOrder[t] == k
  {
    if r == 0 { assert AccessOrder[k] == k; }
    else if r == 1 { AccessOrderRound2(k); }
    else if r == 2 { AccessOrderRound3(k); }
    else { AccessOrderRound4(k); }
  }

  lemma AccessOrderRound2(k: nat)
    requires k < 16
    ensures exists t :: 16 <= t < 32 && AccessOrder[t] == k
  {
    if k == 0 { assert AccessOrder[19] == 0; } else if k == 1 { assert AccessOrder[16] == 1; }
    else if k == 2 { assert AccessOrder[29] == 2; } else if k == 3 { assert AccessOrder[26] == 3; }
    else if k == 4 { assert AccessOrder[23] == 4; } else if k == 5 { assert AccessOrder[20] == 5; }
    else if k == 6 { assert AccessOrder[17] == 6; } else if k == 7 { assert AccessOrder[30] == 7; }
    else if k == 8 { assert AccessOrder[27] == 8; } else if k == 9 { assert AccessOrder[24] == 9; }
    else if k == 10 { assert AccessOrder[21] == 10; } else if k == 11 { assert AccessOrder[18] == 11; }
    else if k == 12 { assert AccessOrder[31] == 12; } else if k == 13 { assert AccessOrder[28] == 13; }
    else if k == 14 { assert AccessOrder[25] == 14; } else { assert AccessOrder[22] == 15; }
  }

  lemma AccessOrderRound3(k: nat)
    requires k < 16
    ensures exists t :: 32 <= t < 48 && AccessOrder[t] == k
  {
    if k == 0 { assert AccessOrder[41] == 0; } else if k == 1 { assert AccessOrder[36] == 1; }
    else if k == 2 { assert AccessOrder[47] == 2; } else if k == 3 { assert AccessOrder[42] == 3; }
    else if k == 4 { assert AccessOrder[37] == 4; } else if k == 5 { assert AccessOrder[32] == 5; }
    else if k == 6 { assert AccessOrder[43] == 6; } else if k == 7 { assert AccessOrder[38] == 7; }
    else if k == 8 { assert AccessOrder[33] == 8; } else if k == 9 { assert AccessOrder[44] == 9; }
    else if k == 10 { assert AccessOrder[39] == 10; } else if k == 11 { assert AccessOrder[34] == 11; }
    else if k == 12 { assert AccessOrder[45] == 12; } else if k == 13 { assert AccessOrder[40] == 13; }
    else if k == 14 { assert AccessOrder[35] == 14; } else { assert AccessOrder[46] == 15; }
  }

  lemma AccessOrderRound4(k: nat)
    requires k < 16
    ensures exists t :: 48 <= t < 64 && AccessOrder[t] == k
  {
    if k == 0 { assert AccessOrder[48] == 0; } else if k == 1 { assert AccessOrder[55] == 1; }
    else if k == 2 { assert AccessOrder[62] == 2; } else if k == 3 { assert AccessOrder[53] == 3; }
    else if k == 4 { assert AccessOrder[60] == 4; } else if k == 5 { assert AccessOrder[51] == 5; }
    else if k == 6 { assert AccessOrder[58] == 6; } else if k == 7 { assert AccessOrder[49] == 7; }
    else if k == 8 { assert AccessOrder[56] == 8; } else if k == 9 { assert AccessOrder[63] == 9; }
    else if k == 10 { assert AccessOrder[54] == 10; } else if k == 11 { assert AccessOrder[61] == 11; }
    else if k == 12 { assert AccessOrder[52] == 12; } else if k == 13 { assert AccessOrder[59] == 13; }
    else if k == 14 { assert AccessOrder[50] == 14; } else { assert AccessOrder[57] == 15; }
  }

  /* ---------------- Finalisation ---------------- */

  /** The `reverse` lambda: swaps the byte order of a word. */
  function Reverse(value: bv32): bv32 {
    var a := (value >> 24) & 0xFF;
    var b := (value >> 16) & 0xFF;
    var c := (value >> 8) & 0xFF;
    var d := value & 0xFF;
    (d << 24) | (c << 16) | (b << 8) | a
  }

  /** `reverse` reads the big-endian bytes of a word as a little-endian word,
      and applying it twice gives the word back. */
  lemma ReverseSwapsByteOrder(w: bv32)
    ensures Reverse(w) == LE32(BE32Bytes(w), 0)
    ensures Reverse(Reverse(w)) == w
  {}

  function ReverseAll(s: State): State {
    State(Reverse(s.a), Reverse(s.b), Reverse(s.c), Reverse(s.d))
  }

  /** `finalBuffer[length++] = 0x80` then `if (length >= 56)`: two blocks from
      a tail of 55 bytes; the length goes to bytes 56..63, least significant first. */
  const TailLayout: Padding.Layout := Padding.Layout(64, 0x80, true, 55, 56)

  function TailBlocks(tail: seq<bv8>, bits: bv64): (r: seq<seq<bv8>>)
    requires |tail| < 64
    ensures forall k :: 0 <= k < |r| ==> |r[k]| == 64
  {
    Padding.FinalBuffers(TailLayout, tail, LE64Bytes(bits))
  }

  /** `update(buffer, message_length)`. */
  function Update(s: State, buffer: seq<bv8>, bits: bv64): State
    requires |buffer| <= 64
  {
    if |buffer| == 64 then Compress(s, buffer)
    else ReverseAll(CompressAll(s, TailBlocks(buffer, bits)))
  }

  /** A full 64-byte buffer is compressed once and nothing else happens: no
      padding and no byte reversal. */
  lemma UpdateFullBlock(s: State, buffer: seq<bv8>, bits: bv64)
    requires |buffer| == 64
    ensures Update(s, buffer, bits) == Compress(s, buffer)
  {}

  /** A tail of L < 64 bytes: data, 0x80 at L, zeros, and the length little-endian
      in bytes 56..63; two compressions exactly when L >= 55 (RFC 1321 section 3.1
      fits L = 55 in one block), the second block all zero but for the length;
      afterwards every chaining word is byte-reversed. */
  lemma UpdateTail(s: State, tail: seq<bv8>, bits: bv64)
    requires |tail| < 64
    ensures var blocks := TailBlocks(tail, bits);
      && |blocks| == (if |tail| >= 55 then 2 else 1)
      && blocks[0][..|tail|] == tail
      && blocks[0][|tail|] == 0x80
      && (forall i :: |tail| < i < (if |blocks| == 2 then 64 else 56) ==> blocks[0][i] == 0)
      && (|blocks| == 2 ==> AllZero(blocks[1][..56]))
      && blocks[|blocks| - 1][56..] == LE64Bytes(bits)
      && Update(s, tail, bits) == ReverseAll(CompressAll(s, blocks))
  {}

  /** The divergence from RFC 1321 section 3.1: a 55-byte tail, which fits in one
      block with its 0x80 and 8-byte length, is padded into two. */
  lemma FiftyFiveByteTailTakesTwoBlocks(tail: seq<bv8>, bits: bv64)
    requires |tail| == 55
    ensures |tail| + 1 + 8 <= 64
    ensures |TailBlocks(tail, bits)| == 2
  {}

  /* ---------------- Rendering ---------------- */

  /** The chaining words in the order `value()` prints them. */
  function Words(s: State): seq<nat> {
    [s.a as nat, s.b as nat, s.c as nat, s.d as nat]
  }

  /** `value()`: four words, each 8 lowercase hex digits, separated by spaces. */
  function Value(s: State): (r: string)
    ensures |r| == 35
    ensures Hex.Decode(r) == Words(s)
    ensures Hex.Shows(r, Words(s), 8, "   ")
  {
    ValueRendering(s);
    Hex.Render(Words(s), 8, "   ")
  }

  lemma ValueRendering(s: State)
    ensures |Hex.Render(Words(s), 8, "   ")| == 35
    ensures Hex.Decode(Hex.Render(Words(s), 8, "   ")) == Words(s)
    ensures Hex.Shows(Hex.Render(Words(s), 8, "   "), Words(s), 8, "   ")
  {
    Hex.Pow16Widths();
    var w := Words(s);
    assert w[0] < Hex.Pow16(8) && w[1] < Hex.Pow16(8) && w[2] < Hex.Pow16(8) && w[3] < Hex.Pow16(8);
    assert Hex.IsSeparator("   "[0]) && Hex.IsSeparator("   "[1]) && Hex.IsSeparator("   "[2]);
    Hex.RenderWords(w, 8, "   ");
    Hex.RenderShows(w, 8, "   ");
  }
}
