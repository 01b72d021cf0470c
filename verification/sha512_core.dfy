/** The SHA-512 compression of FIPS 180-4 section 6.4.2, which
    hash/SHA384.cpp and hash/SHA512.cpp each implement with the same body:
    the spec-shaped function `Compress`, the C++ loops as the method
    `ProcessBlock`, and the proof that the two agree.  The constant table is a
    parameter, because each of the two files declares its own copy. */
module Sha512Core {
  import opened Bytes

  /** The eight chaining (or working) variables, `unsigned long long` = 64 bits. */
  datatype State = State(a: bv64, b: bv64, c: bv64, d: bv64, e: bv64, f: bv64, g: bv64, h: bv64)

  /* ---------------- The functions of FIPS 180-4 section 4.1.3 ---------------- */

  function Ch(x: bv64, y: bv64, z: bv64): bv64 { (x & y) ^ (!x & z) }
  function Maj(x: bv64, y: bv64, z: bv64): bv64 { (x & y) ^ (x & z) ^ (y & z) }

  /** Σ0 = ROTR^28 ^ ROTR^34 ^ ROTR^39, with ROTR^n(x) = (x >> n) | (x << (64 - n)). */
  function BigSigma0(x: bv64): bv64 { ((x >> 28) | (x << 36)) ^ ((x >> 34) | (x << 30)) ^ ((x >> 39) | (x << 25)) }
  /** Σ1 = ROTR^14 ^ ROTR^18 ^ ROTR^41. */
  function BigSigma1(x: bv64): bv64 { ((x >> 14) | (x << 50)) ^ ((x >> 18) | (x << 46)) ^ ((x >> 41) | (x << 23)) }
  /** σ0 = ROTR^1 ^ ROTR^8 ^ SHR^7. */
  function SmallSigma0(x: bv64): bv64 { ((x >> 1) | (x << 63)) ^ ((x >> 8) | (x << 56)) ^ (x >> 7) }
  /** σ1 = ROTR^19 ^ ROTR^61 ^ SHR^6. */
  function SmallSigma1(x: bv64): bv64 { ((x >> 19) | (x << 45)) ^ ((x >> 61) | (x << 3)) ^ (x >> 6) }

  /* ---------------- The lambdas of process_block ---------------- */

  /** `F1`: `(x & y) | (z & (x | y))`. */
  function SourceF1(x: bv64, y: bv64, z: bv64): bv64 { (x & y) | (z & (x | y)) }
  /** `F2`: `z ^ (x & (y ^ z))`. */
  function SourceF2(x: bv64, y: bv64, z: bv64): bv64 { z ^ (x & (y ^ z)) }
  /** `F3` with the `ROTR` lambda `((x & 0xFFFFFFFFFFFFFFFF) >> n) | (x << (64 - n))` written out. */
  function SourceF3(x: bv64): bv64 {
    (((x & 0xFFFF_FFFF_FFFF_FFFF) >> 28) | (x << 36)) ^ (((x & 0xFFFF_FFFF_FFFF_FFFF) >> 34) | (x << 30)) ^
    (((x & 0xFFFF_FFFF_FFFF_FFFF) >> 39) | (x << 25))
  }
  function SourceF4(x: bv64): bv64 {
    (((x & 0xFFFF_FFFF_FFFF_FFFF) >> 14) | (x << 50)) ^ (((x & 0xFFFF_FFFF_FFFF_FFFF) >> 18) | (x << 46)) ^
    (((x & 0xFFFF_FFFF_FFFF_FFFF) >> 41) | (x << 23))
  }
  /** `F5`, also with the `SHR` lambda `(x & 0xFFFFFFFFFFFFFFFF) >> n`. */
  function SourceF5(x: bv64): bv64 {
    (((x & 0xFFFF_FFFF_FFFF_FFFF) >> 1) | (x << 63)) ^ (((x & 0xFFFF_FFFF_FFFF_FFFF) >> 8) | (x << 56)) ^
    ((x & 0xFFFF_FFFF_FFFF_FFFF) >> 7)
  }
  function SourceF6(x: bv64): bv64 {
    (((x & 0xFFFF_FFFF_FFFF_FFFF) >> 19) | (x << 45)) ^ (((x & 0xFFFF_FFFF_FFFF_FFFF) >> 61) | (x << 3)) ^
    ((x & 0xFFFF_FFFF_FFFF_FFFF) >> 6)
  }

  /** `F1` is Maj. */
  lemma F1IsMaj(x: bv64, y: bv64, z: bv64)
    ensures SourceF1(x, y, z) == Maj(x, y, z)
  {
    assert (x & y) | (z & (x | y)) == (x & y) ^ (x & z) ^ (y & z);
  }

  /** `F2` is Ch. */
  lemma F2IsCh(x: bv64, y: bv64, z: bv64)
    ensures SourceF2(x, y, z) == Ch(x, y, z)
  {
    assert z ^ (x & (y ^ z)) == (x & y) ^ (!x & z);
  }

  /** `F3` to `F6` are Σ0, Σ1, σ0 and σ1: the masks keep all 64 bits. */
  lemma F3IsBigSigma0(x: bv64)
    ensures SourceF3(x) == BigSigma0(x)
  {
    assert x & 0xFFFF_FFFF_FFFF_FFFF == x;
  }

  lemma F4IsBigSigma1(x: bv64)
    ensures SourceF4(x) == BigSigma1(x)
  {
    assert x & 0xFFFF_FFFF_FFFF_FFFF == x;
  }

  lemma F5IsSmallSigma0(x: bv64)
    ensures SourceF5(x) == SmallSigma0(x)
  {
    assert x & 0xFFFF_FFFF_FFFF_FFFF == x;
  }

  lemma F6IsSmallSigma1(x: bv64)
    ensures SourceF6(x) == SmallSigma1(x)
  {
    assert x & 0xFFFF_FFFF_FFFF_FFFF == x;
  }

  /* ---------------- Message schedule ---------------- */

  /** `p + q + r + s` modulo 2^64. */
  function Add4(p: bv64, q: bv64, r: bv64, s: bv64): bv64 { p + q + r + s }

  /** W[t] = σ1(W[t-2]) + W[t-7] + σ0(W[t-15]) + W[t-16]. */
  function NextWord(w: seq<bv64>): bv64
    requires |w| >= 16
  {
    Add4(SmallSigma1(w[|w| - 2]), w[|w| - 7], SmallSigma0(w[|w| - 15]), w[|w| - 16])
  }

  /** The first `n` words of the message schedule of FIPS 180-4 section 6.4.2
      step 1: the 16 message words, then one `NextWord` at a time. */
  function Schedule(m: seq<bv64>, n: nat): (w: seq<bv64>)
    requires |m| == 16 && 16 <= n
    ensures |w| == n
    decreases n
  {
    if n == 16 then m
    else
      var p := Schedule(m, n - 1);
      p + [NextWord(p)]
  }

  /** A longer schedule extends a shorter one. */
  lemma {:induction false} SchedulePrefix(m: seq<bv64>, j: nat, n: nat)
    requires |m| == 16 && 16 <= j <= n
    ensures Schedule(m, n)[..j] == Schedule(m, j)
    decreases n
  {
    if n > j {
      SchedulePrefix(m, j, n - 1);
      assert Schedule(m, n)[..n - 1] == Schedule(m, n - 1);
    }
  }

  /** W[0..15] are the message words and, for 16 <= t < n,
      W[t] = σ1(W[t-2]) + W[t-7] + σ0(W[t-15]) + W[t-16] modulo 2^64. */
  lemma ScheduleWords(m: seq<bv64>, n: nat, t: nat)
    requires |m| == 16 && 16 <= n && t < n
    ensures var w := Schedule(m, n);
      && (t < 16 ==> w[t] == m[t])
      && (16 <= t ==> w[t] == Add4(SmallSigma1(w[t - 2]), w[t - 7], SmallSigma0(w[t - 15]), w[t - 16]))
  {
    var w := Schedule(m, n);
    if t < 16 {
      SchedulePrefix(m, 16, n);
      assert w[t] == w[..16][t];
    } else {
      SchedulePrefix(m, t + 1, n);
      assert w[t] == Schedule(m, t + 1)[t];
      NextWordOfSchedule(m, t);
      SchedulePrefix(m, t, n);
      var p := Schedule(m, t);
      assert p[t - 2] == w[t - 2] && p[t - 7] == w[t - 7] && p[t - 15] == w[t - 15] && p[t - 16] == w[t - 16];
    }
  }

  lemma NextWordOfSchedule(m: seq<bv64>, t: nat)
    requires |m| == 16 && 16 <= t
    ensures var p := Schedule(m, t);
      Schedule(m, t + 1)[t] == Add4(SmallSigma1(p[t - 2]), p[t - 7], SmallSigma0(p[t - 15]), p[t - 16])
  {}

  /* ---------------- Rounds ---------------- */

  /** T1 = h + Σ1(e) + Ch(e,f,g) + K[t] + W[t], from its parts. */
  function Add5(p: bv64, q: bv64, r: bv64, s: bv64, u: bv64): bv64 { p + q + r + s + u }
  /** T2 = Σ0(a) + Maj(a,b,c), from its parts. */
  function Add2(p: bv64, q: bv64): bv64 { p + q }

  /** One round of FIPS 180-4 section 6.4.2 step 3, with K[t] and W[t] given. */
  function Round(v: State, k: bv64, w: bv64): State {
    var t1 := Add5(v.h, BigSigma1(v.e), Ch(v.e, v.f, v.g), k, w);
    var t2 := Add2(BigSigma0(v.a), Maj(v.a, v.b, v.c));
    State(Add2(t1, t2), v.a, v.b, v.c, Add2(v.d, t1), v.e, v.f, v.g)
  }

  /** The working variables after the first `n` rounds. */
  function Rounds(v: State, k: seq<bv64>, w: seq<bv64>, n: nat): State
    requires n <= |k| && n <= |w|
  {
    if n == 0 then v else Round(Rounds(v, k, w, n - 1), k[n - 1], w[n - 1])
  }

  /** Step 4: each chaining word increased by its working variable. */
  function FeedForward(s: State, v: State): State {
    State(s.a + v.a, s.b + v.b, s.c + v.c, s.d + v.d, s.e + v.e, s.f + v.f, s.g + v.g, s.h + v.h)
  }

  /** The compression of one 128-byte block, read as 16 big-endian 64-bit words. */
  function Compress(s: State, k: seq<bv64>, block: seq<bv8>): State
    requires |k| == 80 && |block| == 128
  {
    FeedForward(s, Rounds(s, k, Schedule(BE64Words(block, 16), 80), 80))
  }

  /** Compresses the blocks in order. */
  function CompressAll(s: State, k: seq<bv64>, blocks: seq<seq<bv8>>): State
    requires |k| == 80
    requires forall i :: 0 <= i < |blocks| ==> |blocks[i]| == 128
    decreases |blocks|
  {
    if blocks == [] then s else CompressAll(Compress(s, k, blocks[0]), k, blocks[1..])
  }

  /* ---------------- process_block as the C++ writes it ---------------- */

  /** One pass of the round loop: `temp1 = h + F4(e) + F2(e,f,g) + K[loop] + W[loop]`,
      `temp2 = F3(a) + F1(a,b,c)`, then the eight-register shift with
      `e = d + temp1` and `a = temp1 + temp2`. */
  function SourceRound(v: State, k: bv64, w: bv64): State {
    var temp1 := Add5(v.h, SourceF4(v.e), SourceF2(v.e, v.f, v.g), k, w);
    var temp2 := Add2(SourceF3(v.a), SourceF1(v.a, v.b, v.c));
    State(Add2(temp1, temp2), v.a, v.b, v.c, Add2(v.d, temp1), v.e, v.f, v.g)
  }

  lemma SourceRoundIsRound(v: State, k: bv64, w: bv64)
    ensures SourceRound(v, k, w) == Round(v, k, w)
  {
    F1IsMaj(v.a, v.b, v.c);
    F2IsCh(v.e, v.f, v.g);
    F3IsBigSigma0(v.a);
    F4IsBigSigma1(v.e);
  }

  /** The expansion loop's word: `F6(W[t-2]) + W[t-7] + F5(W[t-15]) + W[t-16]`. */
  lemma SourceWordIsNextWord(w: seq<bv64>)
    requires |w| >= 16
    ensures Add4(SourceF6(w[|w| - 2]), w[|w| - 7], SourceF5(w[|w| - 15]), w[|w| - 16]) == NextWord(w)
  {
    F5IsSmallSigma0(w[|w| - 15]);
    F6IsSmallSigma1(w[|w| - 2]);
  }

  /** `process_block` as the C++ loops run it: the 16 big-endian loads, the
      expansion to 80 words, 80 rounds through the `F1`..`F6` lambdas, and the
      feed-forward.  It computes `Compress`. */
  method ProcessBlock(s: State, k: seq<bv64>, block: seq<bv8>) returns (r: State)
    requires |k| == 80 && |block| == 128
    ensures r == Compress(s, k, block)
  {
    var m := LoadBE64Block(block);
    var w := ExpandBlock(m);
    var v := s;
    for loop := 0 to 80
      invariant v == Rounds(s, k, w, loop)
    {
      SourceRoundIsRound(v, k[loop], w[loop]);
      v := SourceRound(v, k[loop], w[loop]);
    }
    r := FeedForward(s, v);
  }

  /** The expansion loop, from 16 to 80 words; the array becomes a growing sequence. */
  method ExpandBlock(m: seq<bv64>) returns (w: seq<bv64>)
    requires |m| == 16
    ensures w == Schedule(m, 80)
  {
    w := m;
    for loop := 16 to 80
      invariant w == Schedule(m, loop)
    {
      SourceWordIsNextWord(w);
      w := w + [Add4(SourceF6(w[loop - 2]), w[loop - 7], SourceF5(w[loop - 15]), w[loop - 16])];
    }
  }
}
