/** SHA-256 as hash/SHA256.cpp implements it: its own copy of the round
    constants, the initial hash value of FIPS 180-4 section 5.3.3, the same
    compression as SHA-224, and a fixed-width rendering of all eight words.
    The file defines no `update` and no `clone`. */
module Sha256 {
  import opened Bytes
  import Hex
  import Core = Sha256Core
  import Sha224

  /** SHA256_CONSTANTS. */
  const Constants: seq<bv32> := ConstantsRow1 + ConstantsRow2 + ConstantsRow3 + ConstantsRow4
  const ConstantsRow1: seq<bv32> := [
    0x428a2f98, 0x71374491, 0xb5c0fbcf, 0xe9b5dba5, 0x3956c25b, 0x59f111f1, 0x923f82a4, 0xab1c5ed5,
    0xd807aa98, 0x12835b01, 0x243185be, 0x550c7dc3, 0x72be5d74, 0x80deb1fe, 0x9bdc06a7, 0xc19bf174]
  const ConstantsRow2: seq<bv32> := [
    0xe49b69c1, 0xefbe4786, 0x0fc19dc6, 0x240ca1cc, 0x2de92c6f, 0x4a7484aa, 0x5cb0a9dc, 0x76f988da,
    0x983e5152, 0xa831c66d, 0xb00327c8, 0xbf597fc7, 0xc6e00bf3, 0xd5a79147, 0x06ca6351, 0x14292967]
  const ConstantsRow3: seq<bv32> := [
    0x27b70a85, 0x2e1b2138, 0x4d2c6dfc, 0x53380d13, 0x650a7354, 0x766a0abb, 0x81c2c92e, 0x92722c85,
    0xa2bfe8a1, 0xa81a664b, 0xc24b8b70, 0xc76c51a3, 0xd192e819, 0xd6990624, 0xf40e3585, 0x106aa070]
  const ConstantsRow4: seq<bv32> := [
    0x19a4c116, 0x1e376c08, 0x2748774c, 0x34b0bcb5, 0x391c0cb3, 0x4ed8aa4a, 0x5b9cca4f, 0x682e6ff3,
    0x748f82ee, 0x78a5636f, 0x84c87814, 0x8cc70208, 0x90befffa, 0xa4506ceb, 0xbef9a3f7, 0xc67178f2]

  /** The two files' tables agree entry by entry. */
  lemma ConstantsMatchSha224()
    ensures |Constants| == 64
    ensures forall t :: 0 <= t < 64 ==> Constants[t] == Sha224.Constants[t]
  {
    assert ConstantsRow1 == Sha224.ConstantsRow1;
    assert ConstantsRow2 == Sha224.ConstantsRow2;
    assert ConstantsRow3 == Sha224.ConstantsRow3;
    assert ConstantsRow4 == Sha224.ConstantsRow4;
  }

  /** The constructor `SHA256()`: the initial hash value of FIPS 180-4 section 5.3.3. */
  function Initial(): (s: Core.State)
    ensures s == Core.State(0x6a09e667, 0xbb67ae85, 0x3c6ef372, 0xa54ff53a, 0x510e527f, 0x9b05688c, 0x1f83d9ab, 0x5be0cd19)
  {
    Core.State(0x6a09e667, 0xbb67ae85, 0x3c6ef372, 0xa54ff53a, 0x510e527f, 0x9b05688c, 0x1f83d9ab, 0x5be0cd19)
  }

  /** `process_block` with this file's constant table. */
  function Compress(s: Core.State, block: seq<bv8>): Core.State
    requires |block| == 64
  {
    Core.Compress(s, Constants, block)
  }

  /** `process_block` as the C++ loops run it computes `Compress`. */
  method ProcessBlock(s: Core.State, block: seq<bv8>) returns (r: Core.State)
    requires |block| == 64
    ensures r == Compress(s, block)
  {
    r := Core.ProcessBlock(s, Constants, block);
  }

  /** SHA256::process_block and SHA224::process_block are the same function of
      (chaining words, block). */
  lemma SameCompressionAsSha224(s: Core.State, block: seq<bv8>)
    requires |block| == 64
    ensures Compress(s, block) == Sha224.Compress(s, block)
  {
    ConstantsMatchSha224();
    assert Constants == Sha224.Constants;
  }

  /* ---------------- Rendering ---------------- */

  /** The words `value()` prints: all eight. */
  function Words(s: Core.State): seq<nat> {
    [s.a as nat, s.b as nat, s.c as nat, s.d as nat, s.e as nat, s.f as nat, s.g as nat, s.h as nat]
  }

  /** `value()`: eight words, each exactly 8 lowercase hex digits, separated by
      single spaces. */
  function Value(s: Core.State): (r: string)
    ensures |r| == 71
    ensures Hex.Decode(r) == Words(s)
    ensures Hex.Shows(r, Words(s), 8, "       ")
  {
    ValueRendering(s);
    Hex.Render(Words(s), 8, "       ")
  }

  lemma ValueRendering(s: Core.State)
    ensures |Hex.Render(Words(s), 8, "       ")| == 71
    ensures Hex.Decode(Hex.Render(Words(s), 8, "       ")) == Words(s)
    ensures Hex.Shows(Hex.Render(Words(s), 8, "       "), Words(s), 8, "       ")
  {
    Hex.Pow16Widths();
    var w := Words(s);
    assert forall i :: 0 <= i < 8 ==> w[i] < Hex.Pow16(8);
    assert forall i :: 0 <= i < 7 ==> Hex.IsSeparator("       "[i]);
    Hex.RenderWords(w, 8, "       ");
    Hex.RenderShows(w, 8, "       ");
  }
}
