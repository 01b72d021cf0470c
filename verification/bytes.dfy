/** Byte-level helpers shared by every digest: zero fill, and the packing of
    32- and 64-bit words into bytes in both byte orders.  All shift amounts are
    literals, as they are in the C++ loaders. */
module Bytes {

  /** `n` zero bytes, the contents of a fresh `QByteArray{n, 0}`. */
  function Zeros(n: nat): (r: seq<bv8>)
    ensures |r| == n
    ensures forall i :: 0 <= i < n ==> r[i] == 0
  {
    seq(n, _ => 0)
  }

  predicate AllZero(s: seq<bv8>) {
    forall i :: 0 <= i < |s| ==> s[i] == 0
  }

  function Lo32(x: bv32): bv8 { (x & 0xFF) as bv8 }
  function Lo64(x: bv64): bv8 { (x & 0xFF) as bv8 }

  /** The 32-bit word stored little-endian at `s[i..i+4]`. */
  function LE32(s: seq<bv8>, i: nat): bv32
    requires i + 4 <= |s|
  {
    (s[i] as bv32) | (s[i+1] as bv32 << 8) | (s[i+2] as bv32 << 16) | (s[i+3] as bv32 << 24)
  }

  /** The 32-bit word stored big-endian at `s[i..i+4]`. */
  function BE32(s: seq<bv8>, i: nat): bv32
    requires i + 4 <= |s|
  {
    (s[i] as bv32 << 24) | (s[i+1] as bv32 << 16) | (s[i+2] as bv32 << 8) | (s[i+3] as bv32)
  }

  /** The 64-bit word stored little-endian at `s[i..i+8]`. */
  function LE64(s: seq<bv8>, i: nat): bv64
    requires i + 8 <= |s|
  {
    (s[i] as bv64) | (s[i+1] as bv64 << 8) | (s[i+2] as bv64 << 16) | (s[i+3] as bv64 << 24) |
    (s[i+4] as bv64 << 32) | (s[i+5] as bv64 << 40) | (s[i+6] as bv64 << 48) | (s[i+7] as bv64 << 56)
  }

  /** The 64-bit word stored big-endian at `s[i..i+8]`. */
  function BE64(s: seq<bv8>, i: nat): bv64
    requires i + 8 <= |s|
  {
    (s[i] as bv64 << 56) | (s[i+1] as bv64 << 48) | (s[i+2] as bv64 << 40) | (s[i+3] as bv64 << 32) |
    (s[i+4] as bv64 << 24) | (s[i+5] as bv64 << 16) | (s[i+6] as bv64 << 8) | (s[i+7] as bv64)
  }

  /** Least significant byte first. */
  function LE32Bytes(x: bv32): (r: seq<bv8>)
    ensures |r| == 4
  {
    [Lo32(x), Lo32(x >> 8), Lo32(x >> 16), Lo32(x >> 24)]
  }

  function BE32Bytes(x: bv32): (r: seq<bv8>)
    ensures |r| == 4
  {
    [Lo32(x >> 24), Lo32(x >> 16), Lo32(x >> 8), Lo32(x)]
  }

  /** Byte k is `(x >> 8k) & 0xFF`, the loop that MD5, SHA-1, SHA-224 and
      SHA-512 use to write the message length. */
  function LE64Bytes(x: bv64): (r: seq<bv8>)
    ensures |r| == 8
  {
    [Lo64(x), Lo64(x >> 8), Lo64(x >> 16), Lo64(x >> 24),
     Lo64(x >> 32), Lo64(x >> 40), Lo64(x >> 48), Lo64(x >> 56)]
  }

  /** Byte k is `(x >> (56 - 8k)) & 0xFF`, the SHA-384 length writer. */
  function BE64Bytes(x: bv64): (r: seq<bv8>)
    ensures |r| == 8
  {
    [Lo64(x >> 56), Lo64(x >> 48), Lo64(x >> 40), Lo64(x >> 32),
     Lo64(x >> 24), Lo64(x >> 16), Lo64(x >> 8), Lo64(x)]
  }

  lemma LE32RoundTrip(x: bv32)
    ensures LE32(LE32Bytes(x), 0) == x
  {}

  lemma BE32RoundTrip(x: bv32)
    ensures BE32(BE32Bytes(x), 0) == x
  {}

  lemma LE64RoundTrip(x: bv64)
    ensures LE64(LE64Bytes(x), 0) == x
  {}

  lemma BE64RoundTrip(x: bv64)
    ensures BE64(BE64Bytes(x), 0) == x
  {}

  lemma LE32BytesOfLoad(s: seq<bv8>, i: nat)
    requires i + 4 <= |s|
    ensures LE32Bytes(LE32(s, i)) == s[i..i+4]
  {}

  lemma BE32BytesOfLoad(s: seq<bv8>, i: nat)
    requires i + 4 <= |s|
    ensures BE32Bytes(BE32(s, i)) == s[i..i+4]
  {}

  lemma LE64BytesOfLoad(s: seq<bv8>, i: nat)
    requires i + 8 <= |s|
    ensures LE64Bytes(LE64(s, i)) == s[i..i+8]
  {}

  lemma BE64BytesOfLoad(s: seq<bv8>, i: nat)
    requires i + 8 <= |s|
    ensures BE64Bytes(BE64(s, i)) == s[i..i+8]
  {}

  /** The `n` words a block holds, each read little-endian (MD5). */
  function LE32Words(block: seq<bv8>, n: nat): (w: seq<bv32>)
    requires |block| == 4 * n
    ensures |w| == n
    ensures forall i :: 0 <= i < n ==> w[i] == LE32(block, 4 * i)
  {
    seq(n, i requires 0 <= i < n => LE32(block, 4 * i))
  }

  /** The `n` words a block holds, each read big-endian (SHA-1, SHA-224/256). */
  function BE32Words(block: seq<bv8>, n: nat): (w: seq<bv32>)
    requires |block| == 4 * n
    ensures |w| == n
    ensures forall i :: 0 <= i < n ==> w[i] == BE32(block, 4 * i)
  {
    seq(n, i requires 0 <= i < n => BE32(block, 4 * i))
  }

  /** The `n` 64-bit words a block holds, read big-endian (SHA-384/512). */
  function BE64Words(block: seq<bv8>, n: nat): (w: seq<bv64>)
    requires |block| == 8 * n
    ensures |w| == n
    ensures forall i :: 0 <= i < n ==> w[i] == BE64(block, 8 * i)
  {
    seq(n, i requires 0 <= i < n => BE64(block, 8 * i))
  }

  /** The `n` 64-bit words a block holds, read little-endian (Tiger). */
  function LE64Words(block: seq<bv8>, n: nat): (w: seq<bv64>)
    requires |block| == 8 * n
    ensures |w| == n
    ensures forall i :: 0 <= i < n ==> w[i] == LE64(block, 8 * i)
  {
    seq(n, i requires 0 <= i < n => LE64(block, 8 * i))
  }

  /** Inverse of `LE32Words`: the words written back, least significant byte
      first; word `i` occupies bytes `4i..4i+4`. */
  function LE32Block(w: seq<bv32>): (r: seq<bv8>)
    ensures |r| == 4 * |w|
    ensures forall i :: 0 <= i < |w| ==> r[4 * i .. 4 * i + 4] == LE32Bytes(w[i])
  {
    if w == [] then [] else LE32Bytes(w[0]) + LE32Block(w[1..])
  }

  function BE32Block(w: seq<bv32>): (r: seq<bv8>)
    ensures |r| == 4 * |w|
    ensures forall i :: 0 <= i < |w| ==> r[4 * i .. 4 * i + 4] == BE32Bytes(w[i])
  {
    if w == [] then [] else BE32Bytes(w[0]) + BE32Block(w[1..])
  }

  /** A load only looks at its own four bytes. */
  lemma LE32Slice(s: seq<bv8>, i: nat)
    requires i + 4 <= |s|
    ensures LE32(s, i) == LE32(s[i..i+4], 0)
  {}

  lemma BE32Slice(s: seq<bv8>, i: nat)
    requires i + 4 <= |s|
    ensures BE32(s, i) == BE32(s[i..i+4], 0)
  {}

  lemma LE32BlockLoads(w: seq<bv32>, i: nat)
    requires i < |w|
    ensures LE32(LE32Block(w), 4 * i) == w[i]
  {
    LE32Slice(LE32Block(w), 4 * i);
    LE32RoundTrip(w[i]);
  }

  lemma BE32BlockLoads(w: seq<bv32>, i: nat)
    requires i < |w|
    ensures BE32(BE32Block(w), 4 * i) == w[i]
  {
    BE32Slice(BE32Block(w), 4 * i);
    BE32RoundTrip(w[i]);
  }

  /** Reading the words of a block written from `w` gives back `w`. */
  lemma LE32WordsRoundTrip(w: seq<bv32>)
    ensures LE32Words(LE32Block(w), |w|) == w
  {
    forall i | 0 <= i < |w| ensures LE32Words(LE32Block(w), |w|)[i] == w[i] {
      LE32BlockLoads(w, i);
    }
  }

  lemma BE32WordsRoundTrip(w: seq<bv32>)
    ensures BE32Words(BE32Block(w), |w|) == w
  {
    forall i | 0 <= i < |w| ensures BE32Words(BE32Block(w), |w|)[i] == w[i] {
      BE32BlockLoads(w, i);
    }
  }
  /** The conversion loop at the head of the SHA-1 and SHA-224/256
      `process_block`: `expanded_blk[loop]` from four bytes, most significant
      first. */
  method LoadBE32Block(block: seq<bv8>) returns (m: seq<bv32>)
    requires |block| == 64
    ensures m == BE32Words(block, 16)
  {
    var blk := new bv32[16];
    for loop := 0 to 16
      invariant forall i :: 0 <= i < loop ==> blk[i] == BE32(block, 4 * i)
    {
      blk[loop] := (block[loop * 4] as bv32 << 24) | (block[loop * 4 + 1] as bv32 << 16) |
                   (block[loop * 4 + 2] as bv32 << 8) | (block[loop * 4 + 3] as bv32);
    }
    m := blk[..];
  }
  /** The conversion loop at the head of the SHA-384/512 `process_block`:
      `expanded_blk[loop]` from eight bytes, most significant first. */
  method LoadBE64Block(block: seq<bv8>) returns (m: seq<bv64>)
    requires |block| == 128
    ensures m == BE64Words(block, 16)
  {
    var blk := new bv64[16];
    for loop := 0 to 16
      invariant forall i :: 0 <= i < loop ==> blk[i] == BE64(block, 8 * i)
    {
      blk[loop] := (block[loop * 8] as bv64 << 56) | (block[loop * 8 + 1] as bv64 << 48) |
                   (block[loop * 8 + 2] as bv64 << 40) | (block[loop * 8 + 3] as bv64 << 32) |
                   (block[loop * 8 + 4] as bv64 << 24) | (block[loop * 8 + 5] as bv64 << 16) |
                   (block[loop * 8 + 6] as bv64 << 8) | (block[loop * 8 + 7] as bv64);
    }
    m := blk[..];
  }
}
