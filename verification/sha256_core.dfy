/** The SHA-256 compression of FIPS 180-4 section 6.2.2, which
    hash/SHA224.cpp and hash/SHA256.cpp each implement with the same body:
    the spec-shaped function `Compress`, the C++ loops as the method
    `ProcessBlock`, and the proof that the two agree.  The constant table is a
    parameter, because each of the two files declares its own copy. */
module Sha256Core {
  import opened Bytes

  /** The eight chaining (or working) variables, `unsigned long` = 32 bits. */
  datatype State = State(a: bv32, b: bv32, c: bv32, d: bv32, e: bv32, f: bv32, g: bv32, h: bv32)

  /* ---------------- The functions of FIPS 180-4 section 4.1.2 ---------------- */

  function Ch(x: bv32, y: bv32, z: bv32): bv32 { (x & y) ^ (!x & z) }
  function Maj(x: bv32, y: bv32, z: bv32): bv32 { (x & y) ^ (x & z) ^ (y & z) }

  /** Σ0 = ROTR^2 ^ ROTR^13 ^ ROTR^22, with ROTR^n(x) = (x >> n) | (x << (32 - n)). */
  function BigSigma0(x: bv32): bv32 { ((x >> 2) | (x << 30)) ^ ((x >> 13) | (x << 19)) ^ ((x >> 22) | (x << 10)) }
  /** Σ1 = ROTR^6 ^ ROTR^11 ^ ROTR^25. */
  function BigSigma1(x: bv32): bv32 { ((x >> 6) | (x << 26)) ^ ((x >> 11) | (x << 21)) ^ ((x >> 25) | (x << 7)) }
  /** σ0 = ROTR^7 ^ ROTR^18 ^ SHR^3. */
  function SmallSigma0(x: bv32): bv32 { ((x >> 7) | (x << 25)) ^ ((x >> 18) | (x << 14)) ^ (x >> 3) }
  /** σ1 = ROTR^17 ^ ROTR^19 ^ SHR^10. */
  function SmallSigma1(x: bv32): bv32 { ((x >> 17) | (x << 15)) ^ ((x >> 19) | (x << 13)) ^ (x >> 10) }

  /* ---------------- The lambdas of process_block ---------------- */

  /** `F1`: `(x & y) | (z & (x | y))`. */
  function SourceF1(x: bv32, y: bv32, z: bv32): bv32 { (x & y) | (z & (x | y)) }
  /** `F2`: `z ^ (x & (y ^ z))`. */
  function SourceF2(x: bv32, y: bv32, z: bv32): bv32 { z ^ (x & (y ^ z)) }
  /** `F3` with the `ROTR` lambda `((x & 0xFFFFFFFF) >> n) | (x << (32 - n))` written out. */
  function SourceF3(x: bv32): bv32 {
    (((x & 0xFFFFFFFF) >> 2) | (x << 30)) ^ (((x & 0xFFFFFFFF) >> 13) | (x << 19)) ^ (((x & 0xFFFFFFFF) >> 22) | (x << 10))
  }
  function SourceF4(x: bv32): bv32 {
    (((x & 0xFFFFFFFF) >> 6) | (x << 26)) ^ (((x & 0xFFFFFFFF) >> 11) | (x << 21)) ^ (((x & 0xFFFFFFFF) >> 25) | (x << 7))
  }
  /** `F5`, also with the `SHR` lambda `(x & 0xFFFFFFFF) >> n`. */
  function SourceF5(x: bv32): bv32 {
    (((x & 0xFFFFFFFF) >> 7) | (x << 25)) ^ (((x & 0xFFFFFFFF) >> 18) | (x << 14)) ^ ((x & 0xFFFFFFFF) >> 3)
  }
  function SourceF6(x: bv32): bv32 {
    (((x & 0xFFFFFFFF) >> 17) | (x << 15)) ^ (((x & 0xFFFFFFFF) >> 19) | (x << 13)) ^ ((x & 0xFFFFFFFF) >> 10)
  }

  /** `F1` is Maj. */
  lemma F1IsMaj(x: bv32, y: bv32, z: bv32)
    ensures SourceF1(x, y, z) == Maj(x, y, z)
  {
    assert (x & y) | (z & (x | y)) == (x & y) ^ (x & z) ^ (y & z);
  }

  /** `F2` is Ch. */
  lemma F2IsCh(x: bv32, y: bv32, z: bv32)
    ensures SourceF2(x, y, z) == Ch(x, y, z)
  {
    assert z ^ (x & (y ^ z)) == (x & y) ^ (!x & z);
  }

  /** `F3` to `F6` are Σ0, Σ1, σ0 and σ1: the masks keep all 32 bits. */
  lemma F3IsBigSigma0(x: bv32)
    ensures SourceF3(x) == BigSigma0(x)
  {
    assert x & 0xFFFFFFFF == x;
  }

  lemma F4IsBigSigma1(x: bv32)
    ensures SourceF4(x) == BigSigma1(x)
  {
    assert x & 0xFFFFFFFF == x;
  }

  lemma F5IsSmallSigma0(x: bv32)
    ensures SourceF5(x) == SmallSigma0(x)
  {
    assert x & 0xFFFFFFFF == x;
  }

  lemma F6IsSmallSigma1(x: bv32)
    ensures SourceF6(x) == SmallSigma1(x)
  {
    assert x & 0xFFFFFFFF == x;
  }

  /* ---------------- Message schedule ---------------- */

  /** `p + q + r + s` modulo 2^32. */
  function Add4(p: bv32, q: bv32, r: bv32, s: bv32): bv32 { p + q + r + s }

  /** W[t] = σ1(W[t-2]) + W[t-7] + σ0(W[t-15]) + W[t-16]. */
  function NextWord(w: seq<bv32>): bv32
    requires |w| >= 16
  {
    Add4(SmallSigma1(w[|w| - 2]), w[|w| - 7], SmallSigma0(w[|w| - 15]), w[|w| - 16])
  }

  /** The first `n` words of the message schedule of FIPS 180-4 section 6.2.2
      step 1: the 16 message words, then one `NextWord` at a time. */
  function Schedule(m: seq<bv32>, n: nat): (w: seq<bv32>)
    requires |m| == 16 && 16 <= n
    ensures |w| == n
    decreases n
  {
    if n == 16 then m
    else
      var p := Schedule(m, n - 1);
      p + [NextWord(p)]
  }

  /** A longer schedule extends a shorter one. */
  lemma {:induction false} SchedulePrefix(m: seq<bv32>, j: nat, n: nat)
    requires |m| == 16 && 16 <= j <= n
    ensures Schedule(m, n)[..j] == Schedule(m, j)
    decreases n
  {
    if n > j {
      SchedulePrefix(m, j, n - 1);
      assert Schedule(m, n)[..n - 1] == Schedule(m, n - 1);
    }
  }

  /** W[0..15] are the message words and, for 16 <= t < n,
      W[t] = σ1(W[t-2]) + W[t-7] + σ0(W[t-15]) + W[t-16] modulo 2^32. */
  lemma ScheduleWords(m: seq<bv32>, n: nat, t: nat)
    requires |m| == 16 && 16 <= n && t < n
    ensures var w := Schedule(m, n);
      && (t < 16 ==> w[t] == m[t])
      && (16 <= t ==> w[t] == Add4(SmallSigma1(w[t - 2]), w[t - 7], SmallSigma0(w[t - 15]), w[t - 16]))
  {
    var w := Schedule(m, n);
    if t < 16 {
      SchedulePrefix(m, 16, n);
      assert w[t] == w[..16][t];
    } else {
      SchedulePrefix(m, t + 1, n);
      assert w[t] == Schedule(m, t + 1)[t];
      NextWordOfSchedule(m, t);
      SchedulePrefix(m, t, n);
      var p := Schedule(m, t);
      assert p[t - 2] == w[t - 2] && p[t - 7] == w[t - 7] && p[t - 15] == w[t - 15] && p[t - 16] == w[t - 16];
    }
  }

  lemma NextWordOfSchedule(m: seq<bv32>, t: nat)
    requires |m| == 16 && 16 <= t
    ensures var p := Schedule(m, t);
      Schedule(m, t + 1)[t] == Add4(SmallSigma1(p[t - 2]), p[t - 7], SmallSigma0(p[t - 15]), p[t - 16])
  {}

  /* ---------------- Rounds ---------------- */

  /** T1 = h + Σ1(e) + Ch(e,f,g) + K[t] + W[t], from its parts. */
  function Add5(p: bv32, q: bv32, r: bv32, s: bv32, u: bv32): bv32 { p + q + r + s + u }
  /** T2 = Σ0(a) + Maj(a,b,c), from its parts. */
  function Add2(p: bv32, q: bv32): bv32 { p + q }

  /** One round of FIPS 180-4 section 6.2.2 step 3, with K[t] and W[t] given. */
  function Round(v: State, k: bv32, w: bv32): State {
    var t1 := Add5(v.h, BigSigma1(v.e), Ch(v.e, v.f, v.g), k, w);
    var t2 := Add2(BigSigma0(v.a), Maj(v.a, v.b, v.c));
    State(Add2(t1, t2), v.a, v.b, v.c, Add2(v.d, t1), v.e, v.f, v.g)
  }

  /** The working variables after the first `n` rounds. */
  function Rounds(v: State, k: seq<bv32>, w: seq<bv32>, n: nat): State
    requires n <= |k| && n <= |w|
  {
    if n == 0 then v else Round(Rounds(v, k, w, n - 1), k[n - 1], w[n - 1])
  }

  /** Step 4: each chaining word increased by its working variable. */
  function FeedForward(s: State, v: State): State {
    State(s.a + v.a, s.b + v.b, s.c + v.c, s.d + v.d, s.e + v.e, s.f + v.f, s.g + v.g, s.h + v.h)
  }

  /** The compression of one 64-byte block, read as 16 big-endian words. */
  function Compress(s: State, k: seq<bv32>, block: seq<bv8>): State
    requires |k| == 64 && |block| == 64
  {
    FeedForward(s, Rounds(s, k, Schedule(BE32Words(block, 16), 64), 64))
  }

  /** Compresses the blocks in order. */
  function CompressAll(s: State, k: seq<bv32>, blocks: seq<seq<bv8>>): State
    requires |k| == 64
    requires forall i :: 0 <= i < |blocks| ==> |blocks[i]| == 64
    decreases |blocks|
  {
    if blocks == [] then s else CompressAll(Compress(s, k, blocks[0]), k, blocks[1..])
  }

  /* ---------------- process_block as the C++ writes it ---------------- */

  /** One pass of the round loop: `temp1 = h + F4(e) + F2(e,f,g) + K[loop] + W[loop]`,
      `temp2 = F3(a) + F1(a,b,c)`, then the eight-register shift with
      `e = d + temp1` and `a = temp1 + temp2`. */
  function SourceRound(v: State, k: bv32, w: bv32): State {
    var temp1 := Add5(v.h, SourceF4(v.e), SourceF2(v.e, v.f, v.g), k, w);
    var temp2 := Add2(SourceF3(v.a), SourceF1(v.a, v.b, v.c));
    State(Add2(temp1, temp2), v.a, v.b, v.c, Add2(v.d, temp1), v.e, v.f, v.g)
  }

  lemma SourceRoundIsRound(v: State, k: bv32, w: bv32)
    ensures SourceRound(v, k, w) == Round(v, k, w)
  {
    F1IsMaj(v.a, v.b, v.c);
    F2IsCh(v.e, v.f, v.g);
    F3IsBigSigma0(v.a);
    F4IsBigSigma1(v.e);
  }

  /** The expansion loop's word: `F6(W[t-2]) + W[t-7] + F5(W[t-15]) + W[t-16]`. */
  lemma SourceWordIsNextWord(w: seq<bv32>)
    requires |w| >= 16
    ensures Add4(SourceF6(w[|w| - 2]), w[|w| - 7], SourceF5(w[|w| - 15]), w[|w| - 16]) == NextWord(w)
  {
    F5IsSmallSigma0(w[|w| - 15]);
    F6IsSmallSigma1(w[|w| - 2]);
  }

  /** `process_block` as the C++ loops run it: the 16 big-endian loads, the
      expansion to 64 words, 64 rounds through the `F1`..`F6` lambdas, and the
      feed-forward.  It computes `Compress`. */
  method ProcessBlock(s: State, k: seq<bv32>, block: seq<bv8>) returns (r: State)
    requires |k| == 64 && |block| == 64
    ensures r == Compress(s, k, block)
  {
    var m := LoadBE32Block(block);
    var w := ExpandBlock(m);
    var v := s;
    for loop := 0 to 64
      invariant v == Rounds(s, k, w, loop)
    {
      SourceRoundIsRound(v, k[loop], w[loop]);
      v := SourceRound(v, k[loop], w[loop]);
    }
    r := FeedForward(s, v);
  }

  /** The expansion loop, from 16 to 64 words; the array becomes a growing sequence. */
  method ExpandBlock(m: seq<bv32>) returns (w: seq<bv32>)
    requires |m| == 16
    ensures w == Schedule(m, 64)
  {
    w := m;
    for loop := 16 to 64
      invariant w == Schedule(m, loop)
    {
      SourceWordIsNextWord(w);
      w := w + [Add4(SourceF6(w[loop - 2]), w[loop - 7], SourceF5(w[loop - 15]), w[loop - 16])];
    }
  }
}
