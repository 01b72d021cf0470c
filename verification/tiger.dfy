/** Tiger as hash/tiger.cpp implements it: the constructor builds the S-box
    table from the chaining values and a 64-character seed, then restores the
    chaining values; `update` compresses 64-byte buffers and pads a short tail
    with 0x01 and the length shifted left by three; `value` prints the six
    32-bit halves of A, B, C with a minimum width of four digits. */
module Tiger {
  import opened Bytes
  import Padding
  import Hex
  import Core = TigerCore
  import Table = TigerTable

  /** The chaining values of the constructor's initialiser list, written again
      after the table generation. */
  function Initial(): (s: Core.State)
    ensures s == Core.State(0x0123456789abcdef, 0xfedcba9876543210, 0xf096a5b4c3b2e187)
  {
    Core.State(0x0123456789abcdef, 0xfedcba9876543210, 0xf096a5b4c3b2e187)
  }

  /** `RANDOM_VALUE`, the seed whose bytes are compressed during the table
      generation. */
  const RandomValue: string := "Tiger - A Fast New Hash Function, by Ross Anderson and Eli Biham"

  /** `PASSES_NUMBER`: the passes of the table generation. */
  const PassesNumber: nat := 5

  /** The seed's 64 bytes (`toStdString().c_str()`): each character's code,
      which for this ASCII text is the byte itself. */
  function Seed(): (m: seq<bv8>)
    ensures |m| == 64
  {
    seq(64, i requires 0 <= i < 64 => (RandomValue[i] as int % 256) as bv8)
  }

  /** An instance: the chaining values and its own table, as bytes. */
  datatype Hasher = Hasher(state: Core.State, table: seq<bv8>)

  /** A hasher whose table has the size `process_block` indexes. */
  predicate Valid(h: Hasher) {
    |h.table| == 8192
  }

  /** The constructor `Tiger()`: generate the table with A, B, C at their
      initial values, then reset A, B, C (the compressions of the seed made
      during the generation leave no trace).  The table is the one `Generated`
      describes from the initial chaining values alone, and every column of
      every S-box is a permutation of 0..255. */
  method New() returns (h: Hasher)
    ensures Valid(h)
    ensures h.state == Initial()
    ensures h.table == Table.Generated(Table.StateChars(Initial()), 1024 * PassesNumber)
    ensures Table.ColumnsArePermutations(h.table)
  {
    var t, _, _ := Table.GenerateTable(Initial(), Seed(), PassesNumber);
    h := Hasher(Initial(), t);
  }

  /** `process_block` on this instance's table. */
  function Compress(h: Hasher, block: seq<bv8>): Core.State
    requires Valid(h) && |block| == 64
  {
    Core.Compress(Table.Words(h.table), h.state, block)
  }

  /* ---------------- update(buffer, message_length) ---------------- */

  /** 0x01 written at L and never erased (the block starts zeroed); a second
      block when `L > 56`; the length field in bytes 56..63. */
  const TailLayout: Padding.Layout := Padding.Layout(64, 0x01, true, 57, 56)

  /** `((unsigned long long) message_length) << 3`, stored in native (little
      endian) byte order.  The callers already pass a length in bits, so the
      field holds eight times it, modulo 2^64. */
  function LengthField(bits: bv64): (f: seq<bv8>)
    ensures |f| == 8
    ensures LE64(f, 0) == bits << 3
  {
    LE64RoundTrip(bits << 3);
    LE64Bytes(bits << 3)
  }

  function TailBlocks(tail: seq<bv8>, bits: bv64): (r: seq<seq<bv8>>)
    requires |tail| < 64
    ensures forall k :: 0 <= k < |r| ==> |r[k]| == 64
  {
    Padding.FinalBuffers(TailLayout, tail, LengthField(bits))
  }

  /** `update(buffer, message_length)`: only the chaining values change. */
  function Update(h: Hasher, buffer: seq<bv8>, bits: bv64): (r: Hasher)
    requires Valid(h) && |buffer| <= 64
    ensures r.table == h.table
  {
    if |buffer| == 64 then h.(state := Compress(h, buffer))
    else h.(state := Core.CompressAll(Table.Words(h.table), h.state, TailBlocks(buffer, bits)))
  }

  /** A 64-byte buffer is compressed once and nothing else happens. */
  lemma UpdateFullBlock(h: Hasher, buffer: seq<bv8>, bits: bv64)
    requires Valid(h) && |buffer| == 64
    ensures Update(h, buffer, bits).state == Compress(h, buffer)
  {}

  /** A tail of L < 64 bytes: the data, 0x01 at L unless L is 56, zeros, two
      compressions exactly when L > 56 with the second block zero but for the
      length, and the shifted length least significant byte first in bytes
      56..63. */
  lemma UpdateTail(h: Hasher, tail: seq<bv8>, bits: bv64)
    requires Valid(h) && |tail| < 64
    ensures var blocks := TailBlocks(tail, bits);
      && |blocks| == (if |tail| > 56 then 2 else 1)
      && blocks[0][..|tail|] == tail
      && (|tail| != 56 ==> blocks[0][|tail|] == 0x01)
      && (forall i :: |tail| < i < (if |blocks| == 2 then 64 else 56) ==> blocks[0][i] == 0)
      && (|blocks| == 2 ==> AllZero(blocks[1][..56]))
      && blocks[|blocks| - 1][56..] == LengthField(bits)
      && Update(h, tail, bits).state == Core.CompressAll(Table.Words(h.table), h.state, blocks)
  {}

  /** With exactly 56 bytes left the length field is written over the 0x01:
      the single final block is the data followed by the length, and no
      delimiter byte remains. */
  lemma DelimiterLostAt56(tail: seq<bv8>, bits: bv64)
    requires |tail| == 56
    ensures TailBlocks(tail, bits) == [tail + LengthField(bits)]
  {
    var blocks := TailBlocks(tail, bits);
    assert blocks[0][..56] == tail;
    assert blocks[0] == blocks[0][..56] + blocks[0][56..];
  }

  /* ---------------- Rendering ---------------- */

  /** `(x >> 32) & 0xFFFFFFFF` and `x & 0xFFFFFFFF`, each held in a 32-bit
      `unsigned long`. */
  function High(x: bv64): bv32 { ((x >> 32) & 0xFFFF_FFFF) as bv32 }
  function Low(x: bv64): bv32 { (x & 0xFFFF_FFFF) as bv32 }

  /** A 64-bit word is its high half shifted up, joined with its low half. */
  lemma HalvesRecombine(x: bv64)
    ensures x == (High(x) as bv64 << 32) | Low(x) as bv64
  {}

  /** The six numbers `value()` prints: a1, a2, b1, b2, c1, c2. */
  function Halves(s: Core.State): seq<nat> {
    [High(s.a) as nat, Low(s.a) as nat, High(s.b) as nat, Low(s.b) as nat, High(s.c) as nat, Low(s.c) as nat]
  }

  /** A 32-bit half survives the trip through the printed number. */
  lemma NatRoundTrip(p: bv32)
    ensures (p as nat) as bv32 == p
  {}

  /** Equal printed halves come from equal words. */
  lemma SameHalves(x: bv64, y: bv64)
    requires High(x) as nat == High(y) as nat && Low(x) as nat == Low(y) as nat
    ensures x == y
  {
    NatRoundTrip(High(x));
    NatRoundTrip(High(y));
    NatRoundTrip(Low(x));
    NatRoundTrip(Low(y));
    HalvesRecombine(x);
    HalvesRecombine(y);
  }

  /** `value()`: six halves in lowercase hex padded to at least 4 digits,
      separated by single spaces; 29 to 53 characters, and it decodes to the
      halves. */
  function Value(s: Core.State): (r: string)
    ensures 29 <= |r| <= 53
    ensures Hex.Decode(r) == Halves(s)
    ensures Hex.Shows(r, Halves(s), 4, "     ")
  {
    ValueRendering(s);
    Hex.Render(Halves(s), 4, "     ")
  }

  lemma ValueRendering(s: Core.State)
    ensures 29 <= |Hex.Render(Halves(s), 4, "     ")| <= 53
    ensures Hex.Decode(Hex.Render(Halves(s), 4, "     ")) == Halves(s)
    ensures Hex.Shows(Hex.Render(Halves(s), 4, "     "), Halves(s), 4, "     ")
  {
    Hex.Pow16Widths();
    var w := Halves(s);
    assert forall i :: 0 <= i < 6 ==> w[i] < Hex.Pow16(8);
    assert forall i :: 0 <= i < 5 ==> Hex.IsSeparator("     "[i]);
    Hex.RenderMinimumWidth(w, 4, "     ", 8);
    Hex.RenderShows(w, 4, "     ");
  }

  /** The text determines the chaining values: two states with the same
      `value()` are equal. */
  lemma ValueDeterminesState(s: Core.State, s': Core.State)
    requires Value(s) == Value(s')
    ensures s == s'
  {
    var h, h' := Halves(s), Halves(s');
    assert h == h';
    SameHalves(s.a, s'.a);
    SameHalves(s.b, s'.b);
    SameHalves(s.c, s'.c);
  }

  /** Halves below 0x10000 give the shortest text, 29 characters... */
  lemma ValueOfShortHalves(s: Core.State)
    requires forall i :: 0 <= i < 6 ==> Halves(s)[i] < 0x1_0000
    ensures |Value(s)| == 29
  {
    Hex.Pow16Widths();
    Hex.RenderFixedWidth(Halves(s), 4, "     ");
  }

  /** ... and halves of eight significant digits the longest, 53. */
  lemma ValueOfLongHalves(s: Core.State)
    requires forall i :: 0 <= i < 6 ==> 0x1000_0000 <= Halves(s)[i]
    ensures |Value(s)| == 53
  {
    Hex.Pow16Widths();
    assert Hex.Pow16(7) == 0x1000_0000;
    var w := Halves(s);
    assert forall i :: 0 <= i < 6 ==> Hex.Pow16(7) <= w[i] < Hex.Pow16(8);
    Hex.RenderFullWords(w, 4, "     ", 8);
  }
}
