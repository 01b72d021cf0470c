/** SHA-1 as hash/SHA1.cpp implements it: the compression of FIPS 180-4
    section 6.1.2 written with a `Function` lambda that adds the round
    constant itself, a finaliser that erases its own 0x80 delimiter and writes
    the length least significant byte first, and a rendering with a minimum
    (not fixed) width. */
module Sha1 {
  import opened Bytes
  import Padding
  import Hex

  /** The chaining (or working) variables A..E, 32 bits each. */
  datatype State = State(a: bv32, b: bv32, c: bv32, d: bv32, e: bv32)

  /** The constructor `SHA1()`: the initial hash value of FIPS 180-4 section 5.3.1. */
  function Initial(): (s: State)
    ensures s == State(0x67452301, 0xEFCDAB89, 0x98BADCFE, 0x10325476, 0xC3D2E1F0)
  {
    State(0x67452301, 0xEFCDAB89, 0x98BADCFE, 0x10325476, 0xC3D2E1F0)
  }

  /* ---------------- FIPS 180-4 sections 4.1.1, 4.2.1 and 6.1.2 ---------------- */

  function Ch(x: bv32, y: bv32, z: bv32): bv32 { (x & y) ^ (!x & z) }
  function Parity(x: bv32, y: bv32, z: bv32): bv32 { x ^ y ^ z }
  function Maj(x: bv32, y: bv32, z: bv32): bv32 { (x & y) ^ (x & z) ^ (y & z) }

  /** f_t: Ch, Parity, Maj, Parity for t in 0..19, 20..39, 40..59, 60..79. */
  function F(t: nat, x: bv32, y: bv32, z: bv32): bv32 {
    if t < 20 then Ch(x, y, z) else if t < 40 then Parity(x, y, z) else if t < 60 then Maj(x, y, z) else Parity(x, y, z)
  }

  /** K_t. */
  function K(t: nat): bv32 {
    if t < 20 then 0x5A827999 else if t < 40 then 0x6ED9EBA1 else if t < 60 then 0x8F1BBCDC else 0xCA62C1D6
  }

  function Rotl1(x: bv32): bv32 { (x << 1) | (x >> 31) }
  function Rotl5(x: bv32): bv32 { (x << 5) | (x >> 27) }
  function Rotl30(x: bv32): bv32 { (x << 30) | (x >> 2) }

  function Xor4(p: bv32, q: bv32, r: bv32, s: bv32): bv32 { p ^ q ^ r ^ s }

  /** W[t] = ROTL^1(W[t-3] ^ W[t-8] ^ W[t-14] ^ W[t-16]). */
  function NextWord(w: seq<bv32>): bv32
    requires |w| >= 16
  {
    Rotl1(Xor4(w[|w| - 3], w[|w| - 8], w[|w| - 14], w[|w| - 16]))
  }

  /** The first `n` words of the message schedule. */
  function Schedule(m: seq<bv32>, n: nat): (w: seq<bv32>)
    requires |m| == 16 && 16 <= n
    ensures |w| == n
    decreases n
  {
    if n == 16 then m
    else
      var p := Schedule(m, n - 1);
      p + [NextWord(p)]
  }

  /** A longer schedule extends a shorter one. */
  lemma {:induction false} SchedulePrefix(m: seq<bv32>, j: nat, n: nat)
    requires |m| == 16 && 16 <= j <= n
    ensures Schedule(m, n)[..j] == Schedule(m, j)
    decreases n
  {
    if n > j {
      SchedulePrefix(m, j, n - 1);
      assert Schedule(m, n)[..n - 1] == Schedule(m, n - 1);
    }
  }

  /** W[0..15] are the message words and W[t] = ROTL^1(W[t-3] ^ W[t-8] ^
      W[t-14] ^ W[t-16]) from t = 16 on. */
  lemma ScheduleWords(m: seq<bv32>, n: nat, t: nat)
    requires |m| == 16 && 16 <= n && t < n
    ensures var w := Schedule(m, n);
      && (t < 16 ==> w[t] == m[t])
      && (16 <= t ==> w[t] == Rotl1(Xor4(w[t - 3], w[t - 8], w[t - 14], w[t - 16])))
  {
    var w := Schedule(m, n);
    if t < 16 {
      SchedulePrefix(m, 16, n);
      assert w[t] == w[..16][t];
    } else {
      SchedulePrefix(m, t + 1, n);
      SchedulePrefix(m, t, n);
      var p := Schedule(m, t);
      assert w[t] == Schedule(m, t + 1)[t] == NextWord(p);
      assert p[t - 3] == w[t - 3] && p[t - 8] == w[t - 8] && p[t - 14] == w[t - 14] && p[t - 16] == w[t - 16];
    }
  }

  /** `p + q + r + s + u` modulo 2^32. */
  function Add5(p: bv32, q: bv32, r: bv32, s: bv32, u: bv32): bv32 { p + q + r + s + u }

  /** Step t: T = ROTL^5(a) + f_t(b,c,d) + e + K_t + W_t, then
      (a, b, c, d, e) := (T, a, ROTL^30(b), c, d). */
  function Step(v: State, t: nat, w: bv32): State {
    State(Add5(Rotl5(v.a), F(t, v.b, v.c, v.d), v.e, K(t), w), v.a, Rotl30(v.b), v.c, v.d)
  }

  /** The working variables after the first `n` steps. */
  function Rounds(v: State, w: seq<bv32>, n: nat): State
    requires n <= |w|
  {
    if n == 0 then v else Step(Rounds(v, w, n - 1), n - 1, w[n - 1])
  }

  function FeedForward(s: State, v: State): State {
    State(s.a + v.a, s.b + v.b, s.c + v.c, s.d + v.d, s.e + v.e)
  }

  /** The compression of one 64-byte block: 16 big-endian words expanded to 80,
      80 steps, then the feed-forward modulo 2^32. */
  function Compress(s: State, block: seq<bv8>): State
    requires |block| == 64
  {
    FeedForward(s, Rounds(s, Schedule(BE32Words(block, 16), 80), 80))
  }

  /** Compresses the blocks in order. */
  function CompressAll(s: State, blocks: seq<seq<bv8>>): State
    requires forall i :: 0 <= i < |blocks| ==> |blocks[i]| == 64
    decreases |blocks|
  {
    if blocks == [] then s else CompressAll(Compress(s, blocks[0]), blocks[1..])
  }

  /* ---------------- process_block as the C++ writes it ---------------- */

  /** The lambda's forms of Ch and Maj, which save one operation each. */
  function SourceCh(x: bv32, y: bv32, z: bv32): bv32 { z ^ (x & (y ^ z)) }
  function SourceMaj(x: bv32, y: bv32, z: bv32): bv32 { (x & y) | (z & (x | y)) }

  /** `p + q` modulo 2^32. */
  function Add2(p: bv32, q: bv32): bv32 { p + q }

  /** The `Function` lambda: the round function of `loop` PLUS the round constant. */
  function SourceFunction(loop: nat, x: bv32, y: bv32, z: bv32): bv32 {
    if loop < 20 then Add2(SourceCh(x, y, z), 0x5A827999)
    else if loop < 40 then Add2(Parity(x, y, z), 0x6ED9EBA1)
    else if loop < 60 then Add2(SourceMaj(x, y, z), 0x8F1BBCDC)
    else Add2(Parity(x, y, z), 0xCA62C1D6)
  }

  /** The `ROTL` lambda `(x << n) | ((x & 0xFFFFFFFF) >> (32 - n))` at the three
      amounts the code uses. */
  function SourceRotl1(x: bv32): bv32 { (x << 1) | ((x & 0xFFFFFFFF) >> 31) }
  function SourceRotl5(x: bv32): bv32 { (x << 5) | ((x & 0xFFFFFFFF) >> 27) }
  function SourceRotl30(x: bv32): bv32 { (x << 30) | ((x & 0xFFFFFFFF) >> 2) }

  /** `p + q + r + s` modulo 2^32. */
  function Add4(p: bv32, q: bv32, r: bv32, s: bv32): bv32 { p + q + r + s }

  lemma SourceChIsCh(x: bv32, y: bv32, z: bv32)
    ensures SourceCh(x, y, z) == Ch(x, y, z)
  {
    assert z ^ (x & (y ^ z)) == (x & y) ^ (!x & z);
  }

  lemma SourceMajIsMaj(x: bv32, y: bv32, z: bv32)
    ensures SourceMaj(x, y, z) == Maj(x, y, z)
  {
    assert (x & y) | (z & (x | y)) == (x & y) ^ (x & z) ^ (y & z);
  }

  /** The lambda is f_t + K_t for every step. */
  lemma SourceFunctionIsFPlusK(loop: nat, x: bv32, y: bv32, z: bv32)
    ensures SourceFunction(loop, x, y, z) == Add2(F(loop, x, y, z), K(loop))
  {
    if loop < 20 {
      SourceChIsCh(x, y, z);
    } else if 40 <= loop < 60 {
      SourceMajIsMaj(x, y, z);
    }
  }

  lemma SourceRotlIsRotl(x: bv32)
    ensures SourceRotl1(x) == Rotl1(x) && SourceRotl5(x) == Rotl5(x) && SourceRotl30(x) == Rotl30(x)
  {
    assert x & 0xFFFFFFFF == x;
  }

  /** Adding K_t inside the lambda or as a fifth term gives the same T. */
  lemma RegroupConstant(p: bv32, f: bv32, k: bv32, e: bv32, w: bv32)
    ensures Add4(p, Add2(f, k), e, w) == Add5(p, f, e, k, w)
  {
    RegroupSum(p, Add2(f, k), f, k, e, w);
  }

  lemma RegroupSum(p: bv32, q: bv32, f: bv32, k: bv32, e: bv32, w: bv32)
    requires q == f + k
    ensures Add4(p, q, e, w) == Add5(p, f, e, k, w)
  {}

  /** One pass of the step loop: `temp = ROTL(a,5) + Function(loop,b,c,d) + e +
      W[loop]`, then `e = d; d = c; c = ROTL(b,30); b = a; a = temp`. */
  function SourceStep(v: State, loop: nat, w: bv32): State {
    State(Add4(SourceRotl5(v.a), SourceFunction(loop, v.b, v.c, v.d), v.e, w), v.a, SourceRotl30(v.b), v.c, v.d)
  }

  lemma SourceStepIsStep(v: State, loop: nat, w: bv32)
    ensures SourceStep(v, loop, w) == Step(v, loop, w)
  {
    SourceFunctionIsFPlusK(loop, v.b, v.c, v.d);
    SourceRotlIsRotl(v.a);
    SourceRotlIsRotl(v.b);
    RegroupConstant(Rotl5(v.a), F(loop, v.b, v.c, v.d), K(loop), v.e, w);
  }

  /** `process_block` as the C++ loops run it computes `Compress`. */
  method ProcessBlock(s: State, block: seq<bv8>) returns (r: State)
    requires |block| == 64
    ensures r == Compress(s, block)
  {
    var m := LoadBE32Block(block);
    var w := ExpandBlock(m);
    var v := s;
    for loop := 0 to 80
      invariant v == Rounds(s, w, loop)
    {
      SourceStepIsStep(v, loop, w[loop]);
      v := SourceStep(v, loop, w[loop]);
    }
    r := FeedForward(s, v);
  }

  /** The expansion loop from 16 to 80 words; the array becomes a growing sequence. */
  method ExpandBlock(m: seq<bv32>) returns (w: seq<bv32>)
    requires |m| == 16
    ensures w == Schedule(m, 80)
  {
    w := m;
    for loop := 16 to 80
      invariant w == Schedule(m, loop)
    {
      SourceRotlIsRotl(Xor4(w[loop - 3], w[loop - 8], w[loop - 14], w[loop - 16]));
      w := w + [SourceRotl1(Xor4(w[loop - 3], w[loop - 8], w[loop - 14], w[loop - 16]))];
    }
  }

  /* ---------------- update(buffer, message_length) ---------------- */

  /** `finalBuffer[L] = 0x80`, then a zero-fill loop that starts AT L and so
      erases it; two blocks when `L >= 56`; the length in bytes 56..63. */
  const TailLayout: Padding.Layout := Padding.Layout(64, 0x80, false, 56, 56)

  function TailBlocks(tail: seq<bv8>, bits: bv64): (r: seq<seq<bv8>>)
    requires |tail| < 64
    ensures forall k :: 0 <= k < |r| ==> |r[k]| == 64
  {
    Padding.FinalBuffers(TailLayout, tail, LE64Bytes(bits))
  }

  /** `update(buffer, message_length)`. */
  function Update(s: State, buffer: seq<bv8>, bits: bv64): State
    requires |buffer| <= 64
  {
    if |buffer| == 64 then Compress(s, buffer)
    else CompressAll(s, TailBlocks(buffer, bits))
  }

  /** A 64-byte buffer is compressed once and nothing else happens. */
  lemma UpdateFullBlock(s: State, buffer: seq<bv8>, bits: bv64)
    requires |buffer| == 64
    ensures Update(s, buffer, bits) == Compress(s, buffer)
  {}

  /** A tail of L < 64 bytes: the data, then zeros only (the 0x80 written at L
      is overwritten by the zero fill), two compressions exactly when L >= 56,
      the second block all zero but for the length, and the bit length least
      significant byte first in bytes 56..63, where FIPS 180-4 section 5.1.1
      puts a 1 bit after the data and a big-endian length. */
  lemma UpdateTail(s: State, tail: seq<bv8>, bits: bv64)
    requires |tail| < 64
    ensures var blocks := TailBlocks(tail, bits);
      && |blocks| == (if |tail| >= 56 then 2 else 1)
      && blocks[0][..|tail|] == tail
      && (forall i :: |tail| <= i < (if |blocks| == 2 then 64 else 56) ==> blocks[0][i] == 0)
      && (|blocks| == 2 ==> AllZero(blocks[1][..56]))
      && blocks[|blocks| - 1][56..] == LE64Bytes(bits)
      && Update(s, tail, bits) == CompressAll(s, blocks)
  {}

  /* ---------------- Rendering ---------------- */

  function Words(s: State): seq<nat> {
    [s.a as nat, s.b as nat, s.c as nat, s.d as nat, s.e as nat]
  }

  /** `value()`: five words in lowercase hex padded to at least 4 digits,
      separated by spaces; 24 to 44 characters, and it decodes to A..E. */
  function Value(s: State): (r: string)
    ensures 24 <= |r| <= 44
    ensures Hex.Decode(r) == Words(s)
    ensures Hex.Shows(r, Words(s), 4, "    ")
  {
    ValueRendering(s);
    Hex.Render(Words(s), 4, "    ")
  }

  lemma ValueRendering(s: State)
    ensures 24 <= |Hex.Render(Words(s), 4, "    ")| <= 44
    ensures Hex.Decode(Hex.Render(Words(s), 4, "    ")) == Words(s)
    ensures Hex.Shows(Hex.Render(Words(s), 4, "    "), Words(s), 4, "    ")
  {
    Hex.Pow16Widths();
    var w := Words(s);
    assert forall i :: 0 <= i < 5 ==> w[i] < Hex.Pow16(8);
    assert forall i :: 0 <= i < 4 ==> Hex.IsSeparator("    "[i]);
    Hex.RenderMinimumWidth(w, 4, "    ", 8);
    Hex.RenderShows(w, 4, "    ");
  }

  /** The width is only a minimum: words below 0x10000 give 24 characters... */
  lemma ValueOfShortWords(s: State)
    requires forall i :: 0 <= i < 5 ==> Words(s)[i] < 0x1_0000
    ensures |Value(s)| == 24
  {
    Hex.Pow16Widths();
    Hex.RenderFixedWidth(Words(s), 4, "    ");
  }

  /** ... and words of eight significant digits give 44. */
  lemma ValueOfLongWords(s: State)
    requires forall i :: 0 <= i < 5 ==> 0x1000_0000 <= Words(s)[i]
    ensures |Value(s)| == 44
  {
    Hex.Pow16Widths();
    assert Hex.Pow16(7) == 0x1000_0000;
    var w := Words(s);
    assert forall i :: 0 <= i < 5 ==> Hex.Pow16(7) <= w[i] < Hex.Pow16(8);
    Hex.RenderFullWords(w, 4, "    ", 8);
  }
}
