/** The final-block construction that every `update(buffer, message_length)`
    performs when the buffer is shorter than a block.  The variants in the
    source differ only in the numbers collected in `Layout`; the byte-level
    description of the result is proved once here. */
module Padding {
  import opened Bytes

  /** How one algorithm lays out a short tail.
      - `size`: the block size, 64 or 128 bytes;
      - `delimiter`: the byte written just after the data;
      - `keepsDelimiter`: false when a zero-fill loop that starts AT the tail
        length erases the delimiter again;
      - `twoBlocksFrom`: the least tail length for which the code compresses the
        padded tail first and then a second, length-only block;
      - `fieldAt`: where the length field starts in the last block. */
  datatype Layout = Layout(size: nat, delimiter: bv8, keepsDelimiter: bool, twoBlocksFrom: nat, fieldAt: nat)

  predicate Valid(lay: Layout, fieldLen: nat) {
    && lay.fieldAt + fieldLen == lay.size
    && 0 < lay.twoBlocksFrom <= lay.fieldAt + 1
    && lay.twoBlocksFrom <= lay.size
  }

  /** The byte found at the tail length after the delimiter was written. */
  function Mark(lay: Layout): bv8 {
    if lay.keepsDelimiter then lay.delimiter else 0
  }

  /** The buffers handed to `process_block`, in order: copy the tail into a
      zeroed block, write the delimiter, compress and clear the block if the
      tail is too long, then write the length field and compress. */
  function FinalBuffers(lay: Layout, tail: seq<bv8>, field: seq<bv8>): (r: seq<seq<bv8>>)
    requires Valid(lay, |field|) && |tail| < lay.size
    ensures |r| == if |tail| >= lay.twoBlocksFrom then 2 else 1
    ensures forall k :: 0 <= k < |r| ==> |r[k]| == lay.size
    ensures r[0][..|tail|] == tail
    ensures |tail| >= lay.twoBlocksFrom || |tail| < lay.fieldAt ==> r[0][|tail|] == Mark(lay)
    ensures forall i :: |tail| < i < (if |r| == 2 then lay.size else lay.fieldAt) ==> r[0][i] == 0
    ensures r[|r| - 1][lay.fieldAt..] == field
    ensures |r| == 2 ==> AllZero(r[1][..lay.fieldAt])
  {
    var first := tail + [Mark(lay)] + Zeros(lay.size - |tail| - 1);
    assert first[..|tail|] == tail;
    if |tail| >= lay.twoBlocksFrom then
      var second := Zeros(lay.fieldAt) + field;
      assert second[..lay.fieldAt] == Zeros(lay.fieldAt);
      assert second[lay.fieldAt..] == field;
      [first, second]
    else
      var only := first[..lay.fieldAt] + field;
      assert only[..|tail|] == tail;
      assert only[lay.fieldAt..] == field;
      [only]
  }
}
