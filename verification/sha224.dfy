/** SHA-224 as hash/SHA224.cpp implements it: the SHA-256 compression with the
    SHA-224 initial value of FIPS 180-4 section 5.3.2, a finaliser that erases
    its own 0x80 delimiter and writes the length least significant byte first,
    and a rendering of seven words with a minimum (not fixed) width. */
module Sha224 {
  import opened Bytes
  import Padding
  import Hex
  import Core = Sha256Core

  /** SHA224_CONSTANTS: the 64 round constants of FIPS 180-4 section 4.2.2. */
  const Constants: seq<bv32> := ConstantsRow1 + ConstantsRow2 + ConstantsRow3 + ConstantsRow4
  const ConstantsRow1: seq<bv32> := [
    0x428a2f98, 0x71374491, 0xb5c0fbcf, 0xe9b5dba5, 0x3956c25b, 0x59f111f1, 0x923f82a4, 0xab1c5ed5,
    0xd807aa98, 0x12835b01, 0x243185be, 0x550c7dc3, 0x72be5d74, 0x80deb1fe, 0x9bdc06a7, 0xc19bf174]
  const ConstantsRow2: seq<bv32> := [
    0xe49b69c1, 0xefbe4786, 0x0fc19dc6, 0x240ca1cc, 0x2de92c6f, 0x4a7484aa, 0x5cb0a9dc, 0x76f988da,
    0x983e5152, 0xa831c66d, 0xb00327c8, 0xbf597fc7, 0xc6e00bf3, 0xd5a79147, 0x06ca6351, 0x14292967]
  const ConstantsRow3: seq<bv32> := [
    0x27b70a85, 0x2e1b2138, 0x4d2c6dfc, 0x53380d13, 0x650a7354, 0x766a0abb, 0x81c2c92e, 0x92722c85,
    0xa2bfe8a1, 0xa81a664b, 0xc24b8b70, 0xc76c51a3, 0xd192e819, 0xd6990624, 0xf40e3585, 0x106aa070]
  const ConstantsRow4: seq<bv32> := [
    0x19a4c116, 0x1e376c08, 0x2748774c, 0x34b0bcb5, 0x391c0cb3, 0x4ed8aa4a, 0x5b9cca4f, 0x682e6ff3,
    0x748f82ee, 0x78a5636f, 0x84c87814, 0x8cc70208, 0x90befffa, 0xa4506ceb, 0xbef9a3f7, 0xc67178f2]

  /** The constructor `SHA224()`: the initial hash value of FIPS 180-4 section 5.3.2. */
  function Initial(): (s: Core.State)
    ensures s == Core.State(0xc1059ed8, 0x367cd507, 0x3070dd17, 0xf70e5939, 0xffc00b31, 0x68581511, 0x64f98fa7, 0xbefa4fa4)
  {
    Core.State(0xc1059ed8, 0x367cd507, 0x3070dd17, 0xf70e5939, 0xffc00b31, 0x68581511, 0x64f98fa7, 0xbefa4fa4)
  }

  /** `process_block` with this file's constant table. */
  function Compress(s: Core.State, block: seq<bv8>): Core.State
    requires |block| == 64
  {
    Core.Compress(s, Constants, block)
  }

  /** `process_block` as the C++ loops run it computes `Compress`. */
  method ProcessBlock(s: Core.State, block: seq<bv8>) returns (r: Core.State)
    requires |block| == 64
    ensures r == Compress(s, block)
  {
    r := Core.ProcessBlock(s, Constants, block);
  }

  /* ---------------- update(buffer, message_length) ---------------- */

  /** `finalBuffer[L] = 0x80`, then a zero-fill loop that starts AT L and so
      erases it; two blocks when `L >= 56`; the length in bytes 56..63. */
  const TailLayout: Padding.Layout := Padding.Layout(64, 0x80, false, 56, 56)

  function TailBlocks(tail: seq<bv8>, bits: bv64): (r: seq<seq<bv8>>)
    requires |tail| < 64
    ensures forall k :: 0 <= k < |r| ==> |r[k]| == 64
  {
    Padding.FinalBuffers(TailLayout, tail, LE64Bytes(bits))
  }

  /** `update(buffer, message_length)`. */
  function Update(s: Core.State, buffer: seq<bv8>, bits: bv64): Core.State
    requires |buffer| <= 64
  {
    if |buffer| == 64 then Compress(s, buffer)
    else Core.CompressAll(s, Constants, TailBlocks(buffer, bits))
  }

  /** A 64-byte buffer is compressed once and nothing else happens. */
  lemma UpdateFullBlock(s: Core.State, buffer: seq<bv8>, bits: bv64)
    requires |buffer| == 64
    ensures Update(s, buffer, bits) == Compress(s, buffer)
  {}

  /** A tail of L < 64 bytes: the data, then zeros only (the 0x80 written at L
      is overwritten by the zero fill), two compressions exactly when L >= 56,
      the second block all zero but for the length, and the bit length least
      significant byte first in bytes 56..63, where FIPS 180-4 section 5.1.1
      puts a 1 bit after the data and a big-endian length. */
  lemma UpdateTail(s: Core.State, tail: seq<bv8>, bits: bv64)
    requires |tail| < 64
    ensures var blocks := TailBlocks(tail, bits);
      && |blocks| == (if |tail| >= 56 then 2 else 1)
      && blocks[0][..|tail|] == tail
      && (forall i :: |tail| <= i < (if |blocks| == 2 then 64 else 56) ==> blocks[0][i] == 0)
      && (|blocks| == 2 ==> AllZero(blocks[1][..56]))
      && blocks[|blocks| - 1][56..] == LE64Bytes(bits)
      && Update(s, tail, bits) == Core.CompressAll(s, Constants, blocks)
  {}

  /* ---------------- Rendering ---------------- */

  /** The words `value()` prints: A to G; H is never shown. */
  function Words(s: Core.State): seq<nat> {
    [s.a as nat, s.b as nat, s.c as nat, s.d as nat, s.e as nat, s.f as nat, s.g as nat]
  }

  /** `value()`: seven words in lowercase hex padded to at least 4 digits,
      separated by spaces; 34 to 62 characters, and it decodes to A..G. */
  function Value(s: Core.State): (r: string)
    ensures 34 <= |r| <= 62
    ensures Hex.Decode(r) == Words(s)
    ensures Hex.Shows(r, Words(s), 4, "      ")
  {
    ValueRendering(s);
    Hex.Render(Words(s), 4, "      ")
  }

  lemma ValueRendering(s: Core.State)
    ensures 34 <= |Hex.Render(Words(s), 4, "      ")| <= 62
    ensures Hex.Decode(Hex.Render(Words(s), 4, "      ")) == Words(s)
    ensures Hex.Shows(Hex.Render(Words(s), 4, "      "), Words(s), 4, "      ")
  {
    Hex.Pow16Widths();
    var w := Words(s);
    assert forall i :: 0 <= i < 7 ==> w[i] < Hex.Pow16(8);
    assert forall i :: 0 <= i < 6 ==> Hex.IsSeparator("      "[i]);
    Hex.RenderMinimumWidth(w, 4, "      ", 8);
    Hex.RenderShows(w, 4, "      ");
  }

  /** The eighth chaining word never reaches the text. */
  lemma ValueIgnoresH(s: Core.State, h: bv32)
    ensures Value(s.(h := h)) == Value(s)
  {
    assert Words(s.(h := h)) == Words(s);
  }

  /** The width is only a minimum: words below 0x10000 give 34 characters... */
  lemma ValueOfShortWords(s: Core.State)
    requires forall i :: 0 <= i < 7 ==> Words(s)[i] < 0x1_0000
    ensures |Value(s)| == 34
  {
    Hex.Pow16Widths();
    Hex.RenderFixedWidth(Words(s), 4, "      ");
  }

  /** ... and words of eight significant digits give 62. */
  lemma ValueOfLongWords(s: Core.State)
    requires forall i :: 0 <= i < 7 ==> 0x1000_0000 <= Words(s)[i]
    ensures |Value(s)| == 62
  {
    Hex.Pow16Widths();
    assert Hex.Pow16(7) == 0x1000_0000;
    var w := Words(s);
    assert forall i :: 0 <= i < 7 ==> Hex.Pow16(7) <= w[i] < Hex.Pow16(8);
    Hex.RenderFullWords(w, 4, "      ", 8);
  }
}
