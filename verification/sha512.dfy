/** SHA-512 as hash/SHA512.cpp implements it: the SHA-512 compression over
    128-byte blocks with the initial value of FIPS 180-4 section 5.3.5, and a
    finaliser copied from the 64-byte algorithms, which hands 64-byte buffers
    to that compression; and a rendering whose width is only a minimum. */
module Sha512 {
  import opened Bytes
  import Padding
  import Hex
  import Core = Sha512Core
  import Sha384

  /** SHA512_CONSTANTS. */
  const Constants: seq<bv64> := ConstantsRow1 + ConstantsRow2 + ConstantsRow3 + ConstantsRow4 + ConstantsRow5
  const ConstantsRow1: seq<bv64> := [
    0x428A2F98D728AE22, 0x7137449123EF65CD, 0xB5C0FBCFEC4D3B2F, 0xE9B5DBA58189DBBC,
    0x3956C25BF348B538, 0x59F111F1B605D019, 0x923F82A4AF194F9B, 0xAB1C5ED5DA6D8118,
    0xD807AA98A3030242, 0x12835B0145706FBE, 0x243185BE4EE4B28C, 0x550C7DC3D5FFB4E2,
    0x72BE5D74F27B896F, 0x80DEB1FE3B1696B1, 0x9BDC06A725C71235, 0xC19BF174CF692694]
  const ConstantsRow2: seq<bv64> := [
    0xE49B69C19EF14AD2, 0xEFBE4786384F25E3, 0x0FC19DC68B8CD5B5, 0x240CA1CC77AC9C65,
    0x2DE92C6F592B0275, 0x4A7484AA6EA6E483, 0x5CB0A9DCBD41FBD4, 0x76F988DA831153B5,
    0x983E5152EE66DFAB, 0xA831C66D2DB43210, 0xB00327C898FB213F, 0xBF597FC7BEEF0EE4,
    0xC6E00BF33DA88FC2, 0xD5A79147930AA725, 0x06CA6351E003826F, 0x142929670A0E6E70]
  const ConstantsRow3: seq<bv64> := [
    0x27B70A8546D22FFC, 0x2E1B21385C26C926, 0x4D2C6DFC5AC42AED, 0x53380D139D95B3DF,
    0x650A73548BAF63DE, 0x766A0ABB3C77B2A8, 0x81C2C92E47EDAEE6, 0x92722C851482353B,
    0xA2BFE8A14CF10364, 0xA81A664BBC423001, 0xC24B8B70D0F89791, 0xC76C51A30654BE30,
    0xD192E819D6EF5218, 0xD69906245565A910, 0xF40E35855771202A, 0x106AA07032BBD1B8]
  const ConstantsRow4: seq<bv64> := [
    0x19A4C116B8D2D0C8, 0x1E376C085141AB53, 0x2748774CDF8EEB99, 0x34B0BCB5E19B48A8,
    0x391C0CB3C5C95A63, 0x4ED8AA4AE3418ACB, 0x5B9CCA4F7763E373, 0x682E6FF3D6B2B8A3,
    0x748F82EE5DEFB2FC, 0x78A5636F43172F60, 0x84C87814A1F0AB72, 0x8CC702081A6439EC,
    0x90BEFFFA23631E28, 0xA4506CEBDE82BDE9, 0xBEF9A3F7B2C67915, 0xC67178F2E372532B]
  const ConstantsRow5: seq<bv64> := [
    0xCA273ECEEA26619C, 0xD186B8C721C0C207, 0xEADA7DD6CDE0EB1E, 0xF57D4F7FEE6ED178,
    0x06F067AA72176FBA, 0x0A637DC5A2C898A6, 0x113F9804BEF90DAE, 0x1B710B35131C471B,
    0x28DB77F523047D84, 0x32CAAB7B40C72493, 0x3C9EBE0A15C9BEBC, 0x431D67C49C100D4C,
    0x4CC5D4BECB3E42B6, 0x597F299CFC657E2A, 0x5FCB6FAB3AD6FAEC, 0x6C44198C4A475817]
  /** The two files' tables agree entry by entry. */
  lemma ConstantsMatchSha384()
    ensures |Constants| == 80
    ensures forall t :: 0 <= t < 80 ==> Constants[t] == Sha384.Constants[t]
  {
    assert ConstantsRow1 == Sha384.ConstantsRow1;
    assert ConstantsRow2 == Sha384.ConstantsRow2;
    assert ConstantsRow3 == Sha384.ConstantsRow3;
    assert ConstantsRow4 == Sha384.ConstantsRow4;
    assert ConstantsRow5 == Sha384.ConstantsRow5;
  }

  /** The constructor `SHA512()`: the initial hash value of FIPS 180-4 section 5.3.5. */
  function Initial(): (s: Core.State)
    ensures s == Core.State(0x6A09E667F3BCC908, 0xBB67AE8584CAA73B, 0x3C6EF372FE94F82B, 0xA54FF53A5F1D36F1,
                            0x510E527FADE682D1, 0x9B05688C2B3E6C1F, 0x1F83D9ABFB41BD6B, 0x5BE0CD19137E2179)
  {
    Core.State(0x6A09E667F3BCC908, 0xBB67AE8584CAA73B, 0x3C6EF372FE94F82B, 0xA54FF53A5F1D36F1,
               0x510E527FADE682D1, 0x9B05688C2B3E6C1F, 0x1F83D9ABFB41BD6B, 0x5BE0CD19137E2179)
  }

  /** `process_block` with this file's constant table, on the 128 bytes it reads. */
  function Compress(s: Core.State, block: seq<bv8>): Core.State
    requires |block| == 128
  {
    Core.Compress(s, Constants, block)
  }

  /** `process_block` as the C++ loops run it computes `Compress`. */
  method ProcessBlock(s: Core.State, block: seq<bv8>) returns (r: Core.State)
    requires |block| == 128
    ensures r == Compress(s, block)
  {
    r := Core.ProcessBlock(s, Constants, block);
  }

  /** SHA512::process_block and SHA384::process_block are the same function of
      (chaining words, block). */
  lemma SameCompressionAsSha384(s: Core.State, block: seq<bv8>)
    requires |block| == 128
    ensures Compress(s, block) == Sha384.Compress(s, block)
  {
    ConstantsMatchSha384();
    assert Constants == Sha384.Constants;
  }

  /* ---------------- update(buffer, message_length) ---------------- */

  /** The result of handing buffers to `process_block`: the new chaining words,
      or an out-of-bounds read, when a buffer is shorter than the 128 bytes the
      conversion loop reads (behaviour the C++ language leaves undefined). */
  datatype Outcome = Defined(state: Core.State) | ReadsPastBuffer(size: nat)

  /** `process_block(buffer)` for each buffer in turn. */
  function ProcessAll(s: Core.State, buffers: seq<seq<bv8>>): Outcome
    decreases |buffers|
  {
    if buffers == [] then Defined(s)
    else if |buffers[0]| != 128 then ReadsPastBuffer(|buffers[0]|)
    else ProcessAll(Compress(s, buffers[0]), buffers[1..])
  }

  /** Every buffer holds the 128 bytes the conversion loop reads. */
  predicate AllFull(buffers: seq<seq<bv8>>) {
    forall k :: 0 <= k < |buffers| ==> |buffers[k]| == 128
  }

  lemma AllFullStep(buffers: seq<seq<bv8>>)
    requires buffers != []
    ensures AllFull(buffers) <==> |buffers[0]| == 128 && AllFull(buffers[1..])
  {
    assert forall k :: 1 <= k < |buffers| ==> buffers[k] == buffers[1..][k - 1];
  }

  /** The result is defined exactly when every buffer holds 128 bytes. */
  lemma {:induction false} ProcessAllDefined(s: Core.State, buffers: seq<seq<bv8>>)
    ensures ProcessAll(s, buffers).Defined? <==> AllFull(buffers)
    decreases |buffers|
  {
    if buffers != [] {
      AllFullStep(buffers);
      if |buffers[0]| == 128 {
        ProcessAllDefined(Compress(s, buffers[0]), buffers[1..]);
      }
    }
  }

  /** `finalBuffer{64,0}`, `finalBuffer[L] = 0x80`, a zero-fill loop that starts
      AT L and so erases it, two buffers when `L >= 56`, and the length in bytes
      56..63: the 64-byte layout of hash/SHA1.cpp. */
  const TailLayout: Padding.Layout := Padding.Layout(64, 0x80, false, 56, 56)

  /** The buffers `update(buffer, message_length)` hands to `process_block`. */
  function HandedBuffers(buffer: seq<bv8>, bits: bv64): (r: seq<seq<bv8>>)
    requires |buffer| <= 64
    ensures forall k :: 0 <= k < |r| ==> |r[k]| == 64
  {
    if |buffer| == 64 then [buffer] else Padding.FinalBuffers(TailLayout, buffer, LE64Bytes(bits))
  }

  /** `update(buffer, message_length)`. */
  function Update(s: Core.State, buffer: seq<bv8>, bits: bv64): Outcome
    requires |buffer| <= 64
  {
    ProcessAll(s, HandedBuffers(buffer, bits))
  }

  /** A 64-byte buffer is handed on unchanged, alone. */
  lemma UpdateFullBlock(s: Core.State, buffer: seq<bv8>, bits: bv64)
    requires |buffer| == 64
    ensures HandedBuffers(buffer, bits) == [buffer]
  {}

  /** A tail of L < 64 bytes: the data, then zeros only, two buffers exactly
      when L >= 56, the second all zero but for the length, and the bit length
      least significant byte first in bytes 56..63 (FIPS 180-4 section 5.1.2
      asks for a 1 bit, 128-byte blocks and a big-endian 128-bit length). */
  lemma UpdateTail(tail: seq<bv8>, bits: bv64)
    requires |tail| < 64
    ensures var blocks := HandedBuffers(tail, bits);
      && |blocks| == (if |tail| >= 56 then 2 else 1)
      && blocks[0][..|tail|] == tail
      && (forall i :: |tail| <= i < (if |blocks| == 2 then 64 else 56) ==> blocks[0][i] == 0)
      && (|blocks| == 2 ==> AllZero(blocks[1][..56]))
      && blocks[|blocks| - 1][56..] == LE64Bytes(bits)
  {}

  /** Every buffer `update` hands on is 64 bytes long while `process_block`
      reads 128, so no call of `update` has a defined result. */
  lemma UpdateReadsPastBuffer(s: Core.State, buffer: seq<bv8>, bits: bv64)
    requires |buffer| <= 64
    ensures Update(s, buffer, bits) == ReadsPastBuffer(64)
  {
    var blocks := HandedBuffers(buffer, bits);
    assert |blocks| >= 1 && |blocks[0]| == 64;
  }

  /* ---------------- Rendering ---------------- */

  function Words(s: Core.State): seq<nat> {
    [s.a as nat, s.b as nat, s.c as nat, s.d as nat, s.e as nat, s.f as nat, s.g as nat, s.h as nat]
  }

  /** `value()`: eight 64-bit words in lowercase hex padded to at least 8
      digits, separated by spaces; 71 to 135 characters, and it decodes to A..H. */
  function Value(s: Core.State): (r: string)
    ensures 71 <= |r| <= 135
    ensures Hex.Decode(r) == Words(s)
    ensures Hex.Shows(r, Words(s), 8, "       ")
  {
    ValueRendering(s);
    Hex.Render(Words(s), 8, "       ")
  }

  lemma ValueRendering(s: Core.State)
    ensures 71 <= |Hex.Render(Words(s), 8, "       ")| <= 135
    ensures Hex.Decode(Hex.Render(Words(s), 8, "       ")) == Words(s)
    ensures Hex.Shows(Hex.Render(Words(s), 8, "       "), Words(s), 8, "       ")
  {
    Hex.Pow16Widths();
    var w := Words(s);
    assert forall i :: 0 <= i < 8 ==> w[i] < Hex.Pow16(16);
    assert forall i :: 0 <= i < 7 ==> Hex.IsSeparator("       "[i]);
    Hex.RenderMinimumWidth(w, 8, "       ", 16);
    Hex.RenderShows(w, 8, "       ");
  }

  /** The width is only a minimum: words below 2^32 give 71 characters... */
  lemma ValueOfShortWords(s: Core.State)
    requires forall i :: 0 <= i < 8 ==> Words(s)[i] < 0x1_0000_0000
    ensures |Value(s)| == 71
  {
    Hex.Pow16Widths();
    Hex.RenderFixedWidth(Words(s), 8, "       ");
  }

  /** ... and words of sixteen significant digits give 135. */
  lemma ValueOfLongWords(s: Core.State)
    requires forall i :: 0 <= i < 8 ==> 0x1000_0000_0000_0000 <= Words(s)[i]
    ensures |Value(s)| == 135
  {
    Hex.Pow16Widths();
    assert Hex.Pow16(15) == 0x1000_0000_0000_0000;
    var w := Words(s);
    assert forall i :: 0 <= i < 8 ==> Hex.Pow16(15) <= w[i] < Hex.Pow16(16);
    Hex.RenderFullWords(w, 8, "       ", 16);
  }
}
