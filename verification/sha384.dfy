/** SHA-384 as hash/SHA384.cpp implements it: the SHA-512 compression with
    the SHA-384 initial value of FIPS 180-4 section 5.3.4, a 128-byte
    finaliser that takes a second block one byte earlier than the standard,
    a rendering of six of the eight words on two lines, and a `clone()` that
    starts afresh. */
module Sha384 {
  import opened Bytes
  import Padding
  import Hex
  import Core = Sha512Core

  /** SHA384_CONSTANTS: the 80 round constants of FIPS 180-4 section 4.2.3. */
  const Constants: seq<bv64> := ConstantsRow1 + ConstantsRow2 + ConstantsRow3 + ConstantsRow4 + ConstantsRow5
  const ConstantsRow1: seq<bv64> := [
    0x428A2F98D728AE22, 0x7137449123EF65CD, 0xB5C0FBCFEC4D3B2F, 0xE9B5DBA58189DBBC,
    0x3956C25BF348B538, 0x59F111F1B605D019, 0x923F82A4AF194F9B, 0xAB1C5ED5DA6D8118,
    0xD807AA98A3030242, 0x12835B0145706FBE, 0x243185BE4EE4B28C, 0x550C7DC3D5FFB4E2,
    0x72BE5D74F27B896F, 0x80DEB1FE3B1696B1, 0x9BDC06A725C71235, 0xC19BF174CF692694]
  const ConstantsRow2: seq<bv64> := [
    0xE49B69C19EF14AD2, 0xEFBE4786384F25E3, 0x0FC19DC68B8CD5B5, 0x240CA1CC77AC9C65,
    0x2DE92C6F592B0275, 0x4A7484AA6EA6E483, 0x5CB0A9DCBD41FBD4, 0x76F988DA831153B5,
    0x983E5152EE66DFAB, 0xA831C66D2DB43210, 0xB00327C898FB213F, 0xBF597FC7BEEF0EE4,
    0xC6E00BF33DA88FC2, 0xD5A79147930AA725, 0x06CA6351E003826F, 0x142929670A0E6E70]
  const ConstantsRow3: seq<bv64> := [
    0x27B70A8546D22FFC, 0x2E1B21385C26C926, 0x4D2C6DFC5AC42AED, 0x53380D139D95B3DF,
    0x650A73548BAF63DE, 0x766A0ABB3C77B2A8, 0x81C2C92E47EDAEE6, 0x92722C851482353B,
    0xA2BFE8A14CF10364, 0xA81A664BBC423001, 0xC24B8B70D0F89791, 0xC76C51A30654BE30,
    0xD192E819D6EF5218, 0xD69906245565A910, 0xF40E35855771202A, 0x106AA07032BBD1B8]
  const ConstantsRow4: seq<bv64> := [
    0x19A4C116B8D2D0C8, 0x1E376C085141AB53, 0x2748774CDF8EEB99, 0x34B0BCB5E19B48A8,
    0x391C0CB3C5C95A63, 0x4ED8AA4AE3418ACB, 0x5B9CCA4F7763E373, 0x682E6FF3D6B2B8A3,
    0x748F82EE5DEFB2FC, 0x78A5636F43172F60, 0x84C87814A1F0AB72, 0x8CC702081A6439EC,
    0x90BEFFFA23631E28, 0xA4506CEBDE82BDE9, 0xBEF9A3F7B2C67915, 0xC67178F2E372532B]
  const ConstantsRow5: seq<bv64> := [
    0xCA273ECEEA26619C, 0xD186B8C721C0C207, 0xEADA7DD6CDE0EB1E, 0xF57D4F7FEE6ED178,
    0x06F067AA72176FBA, 0x0A637DC5A2C898A6, 0x113F9804BEF90DAE, 0x1B710B35131C471B,
    0x28DB77F523047D84, 0x32CAAB7B40C72493, 0x3C9EBE0A15C9BEBC, 0x431D67C49C100D4C,
    0x4CC5D4BECB3E42B6, 0x597F299CFC657E2A, 0x5FCB6FAB3AD6FAEC, 0x6C44198C4A475817]

  /** The constructor `SHA384()`: the initial hash value of FIPS 180-4 section 5.3.4. */
  function Initial(): (s: Core.State)
    ensures s == Core.State(0xCBBB9D5DC1059ED8, 0x629A292A367CD507, 0x9159015A3070DD17, 0x152FECD8F70E5939,
                            0x67332667FFC00B31, 0x8EB44A8768581511, 0xDB0C2E0D64F98FA7, 0x47B5481DBEFA4FA4)
  {
    Core.State(0xCBBB9D5DC1059ED8, 0x629A292A367CD507, 0x9159015A3070DD17, 0x152FECD8F70E5939,
               0x67332667FFC00B31, 0x8EB44A8768581511, 0xDB0C2E0D64F98FA7, 0x47B5481DBEFA4FA4)
  }

  /** `clone()`: a new instance from the constructor; the state of the object
      cloned is not copied. */
  function Clone(s: Core.State): (r: Core.State)
    ensures r == Initial()
    ensures r == s <==> s == Initial()
  {
    Initial()
  }

  /** `process_block` with this file's constant table. */
  function Compress(s: Core.State, block: seq<bv8>): Core.State
    requires |block| == 128
  {
    Core.Compress(s, Constants, block)
  }

  /** `process_block` as the C++ loops run it computes `Compress`. */
  method ProcessBlock(s: Core.State, block: seq<bv8>) returns (r: Core.State)
    requires |block| == 128
    ensures r == Compress(s, block)
  {
    r := Core.ProcessBlock(s, Constants, block);
  }

  /* ---------------- update(buffer, message_length) ---------------- */

  /** `finalBuffer[length++] = 0x80` then `if (length >= 112)`: the delimiter
      stays, two blocks from a tail of 111 bytes, and a 16-byte length field at
      112 whose first eight bytes are zero and whose last eight hold the bit
      length most significant byte first. */
  const TailLayout: Padding.Layout := Padding.Layout(128, 0x80, true, 111, 112)

  function LengthField(bits: bv64): (r: seq<bv8>)
    ensures |r| == 16
  {
    Zeros(8) + BE64Bytes(bits)
  }

  function TailBlocks(tail: seq<bv8>, bits: bv64): (r: seq<seq<bv8>>)
    requires |tail| < 128
    ensures forall k :: 0 <= k < |r| ==> |r[k]| == 128
  {
    Padding.FinalBuffers(TailLayout, tail, LengthField(bits))
  }

  /** `update(buffer, message_length)`. */
  function Update(s: Core.State, buffer: seq<bv8>, bits: bv64): Core.State
    requires |buffer| <= 128
  {
    if |buffer| == 128 then Compress(s, buffer)
    else Core.CompressAll(s, Constants, TailBlocks(buffer, bits))
  }

  /** A 128-byte buffer is compressed once and nothing else happens. */
  lemma UpdateFullBlock(s: Core.State, buffer: seq<bv8>, bits: bv64)
    requires |buffer| == 128
    ensures Update(s, buffer, bits) == Compress(s, buffer)
  {}

  /** A tail of L < 128 bytes: the data, 0x80 at L, zeros, two compressions
      exactly when L >= 111, the second block all zero but for the length,
      bytes 112..119 zero and the bit length big-endian in bytes 120..127. */
  lemma UpdateTail(s: Core.State, tail: seq<bv8>, bits: bv64)
    requires |tail| < 128
    ensures var blocks := TailBlocks(tail, bits);
      && |blocks| == (if |tail| >= 111 then 2 else 1)
      && blocks[0][..|tail|] == tail
      && blocks[0][|tail|] == 0x80
      && (forall i :: |tail| < i < (if |blocks| == 2 then 128 else 112) ==> blocks[0][i] == 0)
      && (|blocks| == 2 ==> AllZero(blocks[1][..112]))
      && AllZero(blocks[|blocks| - 1][112..120])
      && blocks[|blocks| - 1][120..] == BE64Bytes(bits)
      && Update(s, tail, bits) == Core.CompressAll(s, Constants, blocks)
  {
    var blocks := TailBlocks(tail, bits);
    var last := blocks[|blocks| - 1];
    assert last[112..] == LengthField(bits);
    assert last[112..120] == LengthField(bits)[..8];
    assert last[120..] == LengthField(bits)[8..];
  }

  /** The divergence from FIPS 180-4 section 5.1.2: a 111-byte tail, which
      fits in one block with its 0x80 and 16-byte length, is padded into two. */
  lemma TailOf111TakesTwoBlocks(tail: seq<bv8>, bits: bv64)
    requires |tail| == 111
    ensures |tail| + 1 + 16 <= 128
    ensures |TailBlocks(tail, bits)| == 2
  {}

  /* ---------------- Rendering ---------------- */

  /** The words `value()` prints: A to F; G and H are never shown. */
  function Words(s: Core.State): seq<nat> {
    [s.a as nat, s.b as nat, s.c as nat, s.d as nat, s.e as nat, s.f as nat]
  }

  /** The separators of `"%1 %2 %3\n%4 %5 %6"`. */
  const Separators: string := "  \n  "

  /** `value()`: six words, each exactly 16 lowercase hex digits, three per
      line. */
  function Value(s: Core.State): (r: string)
    ensures |r| == 101
    ensures r[50] == '\n'
    ensures Hex.Decode(r) == Words(s)
    ensures Hex.Shows(r, Words(s), 16, Separators)
  {
    ValueRendering(s);
    Hex.Render(Words(s), 16, Separators)
  }

  lemma ValueRendering(s: Core.State)
    ensures |Hex.Render(Words(s), 16, Separators)| == 101
    ensures Hex.Render(Words(s), 16, Separators)[50] == '\n'
    ensures Hex.Decode(Hex.Render(Words(s), 16, Separators)) == Words(s)
    ensures Hex.Shows(Hex.Render(Words(s), 16, Separators), Words(s), 16, Separators)
  {
    var w := Words(s);
    WordsFit(s);
    ValueLine(w);
    SeparatorsSeparate();
    Hex.RenderDecodes(w, 16, Separators);
    Hex.RenderShows(w, 16, Separators);
  }

  /** The line break follows the third field. */
  lemma ValueLine(w: seq<nat>)
    requires |w| == 6 && forall i :: 0 <= i < 6 ==> w[i] < Hex.Pow16(16)
    ensures |Hex.Render(w, 16, Separators)| == 101
    ensures Hex.Render(w, 16, Separators)[50] == '\n'
  {
    Hex.RenderSeparatorAt(w, 16, Separators, 2);
  }

  lemma SeparatorsSeparate()
    ensures forall i :: 0 <= i < |Separators| ==> Hex.IsSeparator(Separators[i])
  {}

  lemma WordsFit(s: Core.State)
    ensures forall i :: 0 <= i < 6 ==> Words(s)[i] < Hex.Pow16(16)
  {
    Hex.Pow16Widths();
  }

  /** G and H never reach the text. */
  lemma ValueIgnoresGH(s: Core.State, g: bv64, h: bv64)
    ensures Value(s.(g := g, h := h)) == Value(s)
  {
    assert Words(s.(g := g, h := h)) == Words(s);
  }
}
