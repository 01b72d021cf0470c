/** The Tiger compression as hash/tiger.cpp's `process_block` computes it:
    three passes of eight rounds over the eight little-endian words of a
    64-byte block, with multipliers 5, 7 and 9, the key schedule between the
    passes, and the feed-forward `a ^= `, `b -= `, `c += `.  The S-box table
    is a parameter: 1024 64-bit words, the four S-boxes one after the other. */
module TigerCore {
  import opened Bytes

  /** The three chaining (or working) variables. */
  datatype State = State(a: bv64, b: bv64, c: bv64)

  /** The number of passes over a block (`BLOCK_PASSES`). */
  const Passes: nat := 3
  /** The rounds of one pass, one per word of the block. */
  const RoundsPerPass: nat := 8

  /* ---------------- Word operations ---------------- */

  /** Each arithmetic step is named once, so that proofs about the rounds and
      the key schedule compare applications of these names rather than raw
      64-bit arithmetic. */
  function Plus(p: bv64, q: bv64): bv64 { p + q }
  function Minus(p: bv64, q: bv64): bv64 { p - q }
  function Times(p: bv64, q: bv64): bv64 { p * q }
  function Xor(p: bv64, q: bv64): bv64 { p ^ q }
  function Xor4(p: bv64, q: bv64, r: bv64, s: bv64): bv64 { p ^ q ^ r ^ s }
  /** `q ^ ((~r) << 19)` and `q ^ ((~r) >> 23)` of the key schedule. */
  function Left19(q: bv64, r: bv64): bv64 { q ^ (!r << 19) }
  function Right23(q: bv64, r: bv64): bv64 { q ^ (!r >> 23) }

  lemma PlusOfDifference(p: bv64, q: bv64) ensures Plus(p - q, q) == p {}
  lemma MinusOfSum(p: bv64, q: bv64) ensures Minus(p + q, q) == p {}
  lemma XorOfXor(p: bv64, q: bv64) ensures Xor(p ^ q, q) == p {}

  /** Adding back what was subtracted, subtracting what was added and XORing
      twice are the identity. */
  lemma PlusUndoesMinus(p: bv64, q: bv64)
    ensures Plus(Minus(p, q), q) == p
  {
    PlusOfDifference(p, q);
  }

  lemma MinusUndoesPlus(p: bv64, q: bv64)
    ensures Minus(Plus(p, q), q) == p
  {
    MinusOfSum(p, q);
  }

  lemma XorUndoesXor(p: bv64, q: bv64)
    ensures Xor(Xor(p, q), q) == p
  {
    XorOfXor(p, q);
  }

  /* ---------------- S-box lookups ---------------- */

  /** `tiger_table[256 * box + i]`: entry i of S-box `box + 1`. */
  function SBox(t: seq<bv64>, box: nat, i: bv8): bv64
    requires |t| == 1024 && box < 4
  {
    t[256 * box + i as int]
  }

  /** The S-box words subtracted from `a`: S1[c_0] ^ S2[c_2] ^ S3[c_4] ^ S4[c_6],
      where c_k is byte k of c counted from the least significant end. */
  function Even(t: seq<bv64>, c: bv64): bv64
    requires |t| == 1024
  {
    Xor4(SBox(t, 0, Lo64(c)), SBox(t, 1, Lo64(c >> 16)), SBox(t, 2, Lo64(c >> 32)), SBox(t, 3, Lo64(c >> 48)))
  }

  /** The S-box words added to `b`: S4[c_1] ^ S3[c_3] ^ S2[c_5] ^ S1[c_7]. */
  function Odd(t: seq<bv64>, c: bv64): bv64
    requires |t| == 1024
  {
    Xor4(SBox(t, 3, Lo64(c >> 8)), SBox(t, 2, Lo64(c >> 24)), SBox(t, 1, Lo64(c >> 40)), SBox(t, 0, Lo64(c >> 56)))
  }

  /** The lookups as the C++ spells them, through casts to the 32-bit
      `unsigned long` and to `unsigned char`. */
  function SourceEven(t: seq<bv64>, c: bv64): bv64
    requires |t| == 1024
  {
    Xor4(SBox(t, 0, Lo64(c)), SBox(t, 1, Lo64((c & 0xFFFFFFFF) >> 16)),
         SBox(t, 2, Lo64(c >> 32)), SBox(t, 3, Lo64(((c >> 32) & 0xFFFFFFFF) >> 16)))
  }

  function SourceOdd(t: seq<bv64>, c: bv64): bv64
    requires |t| == 1024
  {
    Xor4(SBox(t, 3, Lo64((c & 0xFFFFFFFF) >> 8)), SBox(t, 2, Lo64((c & 0xFFFFFFFF) >> 24)),
         SBox(t, 1, Lo64(((c >> 32) & 0xFFFFFFFF) >> 8)), SBox(t, 0, Lo64(((c >> 32) & 0xFFFFFFFF) >> 24)))
  }

  /** Truncating to 32 bits before shifting keeps the byte that is looked up. */
  lemma SourceEvenIsEven(t: seq<bv64>, c: bv64)
    requires |t| == 1024
    ensures SourceEven(t, c) == Even(t, c)
  {
    assert ((c & 0xFFFFFFFF) >> 16) & 0xFF == (c >> 16) & 0xFF;
    assert (((c >> 32) & 0xFFFFFFFF) >> 16) & 0xFF == (c >> 48) & 0xFF;
  }

  lemma SourceOddIsOdd(t: seq<bv64>, c: bv64)
    requires |t| == 1024
    ensures SourceOdd(t, c) == Odd(t, c)
  {
    assert ((c & 0xFFFFFFFF) >> 8) & 0xFF == (c >> 8) & 0xFF;
    assert ((c & 0xFFFFFFFF) >> 24) & 0xFF == (c >> 24) & 0xFF;
    assert (((c >> 32) & 0xFFFFFFFF) >> 8) & 0xFF == (c >> 40) & 0xFF;
    assert (((c >> 32) & 0xFFFFFFFF) >> 24) & 0xFF == (c >> 56) & 0xFF;
  }

  /* ---------------- The key schedule ---------------- */

  /** `unsigned long long block[8]`: the eight words a pass consumes. */
  datatype Block = Block(x0: bv64, x1: bv64, x2: bv64, x3: bv64, x4: bv64, x5: bv64, x6: bv64, x7: bv64)

  /** Word i of a block. */
  function Word(x: Block, i: nat): bv64
    requires i < 8
  {
    match i
    case 0 => x.x0
    case 1 => x.x1
    case 2 => x.x2
    case 3 => x.x3
    case 4 => x.x4
    case 5 => x.x5
    case 6 => x.x6
    case _ => x.x7
  }

  /** The block read from 64 bytes, each word least significant byte first
      (the x86 `reinterpret_cast` of the conversion loop). */
  function Load(bytes: seq<bv8>): Block
    requires |bytes| == 64
  {
    Block(LE64(bytes, 0), LE64(bytes, 8), LE64(bytes, 16), LE64(bytes, 24),
          LE64(bytes, 32), LE64(bytes, 40), LE64(bytes, 48), LE64(bytes, 56))
  }

  /** The key schedule run before every pass but the first: its first eight
      statements ... */
  function MixIn(x: Block): Block {
    var x0 := Minus(x.x0, Xor(x.x7, 0xA5A5A5A5A5A5A5A5));
    var x1 := Xor(x.x1, x0);
    var x2 := Plus(x.x2, x1);
    var x3 := Minus(x.x3, Left19(x2, x1));
    var x4 := Xor(x.x4, x3);
    var x5 := Plus(x.x5, x4);
    var x6 := Minus(x.x6, Right23(x5, x4));
    var x7 := Xor(x.x7, x6);
    Block(x0, x1, x2, x3, x4, x5, x6, x7)
  }

  /** ... and its last eight. */
  function MixOut(x: Block): Block {
    var x0 := Plus(x.x0, x.x7);
    var x1 := Minus(x.x1, Left19(x0, x.x7));
    var x2 := Xor(x.x2, x1);
    var x3 := Plus(x.x3, x2);
    var x4 := Minus(x.x4, Right23(x3, x2));
    var x5 := Xor(x.x5, x4);
    var x6 := Plus(x.x6, x5);
    var x7 := Minus(x.x7, Xor(x6, 0x0123456789ABCDEF));
    Block(x0, x1, x2, x3, x4, x5, x6, x7)
  }

  function KeySchedule(x: Block): Block {
    MixOut(MixIn(x))
  }

  /** Each half undone, statement by statement from the last. */
  function UnmixIn(y: Block): Block {
    var x7 := Xor(y.x7, y.x6);
    var x6 := Plus(y.x6, Right23(y.x5, y.x4));
    var x5 := Minus(y.x5, y.x4);
    var x4 := Xor(y.x4, y.x3);
    var x3 := Plus(y.x3, Left19(y.x2, y.x1));
    var x2 := Minus(y.x2, y.x1);
    var x1 := Xor(y.x1, y.x0);
    var x0 := Plus(y.x0, Xor(x7, 0xA5A5A5A5A5A5A5A5));
    Block(x0, x1, x2, x3, x4, x5, x6, x7)
  }

  function UnmixOut(y: Block): Block {
    var x7 := Plus(y.x7, Xor(y.x6, 0x0123456789ABCDEF));
    var x6 := Minus(y.x6, y.x5);
    var x5 := Xor(y.x5, y.x4);
    var x4 := Plus(y.x4, Right23(y.x3, y.x2));
    var x3 := Minus(y.x3, y.x2);
    var x2 := Xor(y.x2, y.x1);
    var x1 := Plus(y.x1, Left19(y.x0, x7));
    var x0 := Minus(y.x0, x7);
    Block(x0, x1, x2, x3, x4, x5, x6, x7)
  }

  function InverseKeySchedule(y: Block): Block {
    UnmixIn(UnmixOut(y))
  }

  lemma MixInRoundTrip(x: Block)
    ensures UnmixIn(MixIn(x)) == x
  {
    var y := MixIn(x);
    XorUndoesXor(x.x7, y.x6);
    PlusUndoesMinus(x.x6, Right23(y.x5, y.x4));
    MinusUndoesPlus(x.x5, y.x4);
    XorUndoesXor(x.x4, y.x3);
    PlusUndoesMinus(x.x3, Left19(y.x2, y.x1));
    MinusUndoesPlus(x.x2, y.x1);
    XorUndoesXor(x.x1, y.x0);
    PlusUndoesMinus(x.x0, Xor(x.x7, 0xA5A5A5A5A5A5A5A5));
  }

  lemma MixOutRoundTrip(x: Block)
    ensures UnmixOut(MixOut(x)) == x
  {
    var y := MixOut(x);
    PlusUndoesMinus(x.x7, Xor(y.x6, 0x0123456789ABCDEF));
    MinusUndoesPlus(x.x6, y.x5);
    XorUndoesXor(x.x5, y.x4);
    PlusUndoesMinus(x.x4, Right23(y.x3, y.x2));
    MinusUndoesPlus(x.x3, y.x2);
    XorUndoesXor(x.x2, y.x1);
    PlusUndoesMinus(x.x1, Left19(y.x0, x.x7));
    MinusUndoesPlus(x.x0, x.x7);
  }

  /** The key schedule is a bijection on blocks: no two blocks yield the same
      words for the second or third pass. */
  lemma KeyScheduleRoundTrip(x: Block)
    ensures InverseKeySchedule(KeySchedule(x)) == x
  {
    MixInRoundTrip(x);
    MixOutRoundTrip(MixIn(x));
  }

  lemma KeyScheduleInjective(x: Block, y: Block)
    ensures KeySchedule(x) == KeySchedule(y) <==> x == y
  {
    KeyScheduleRoundTrip(x);
    KeyScheduleRoundTrip(y);
  }

  /* ---------------- Rounds and passes ---------------- */

  /** One iteration of the round loop: `c ^= x`, `a -= Even`, `b += Odd`,
      `b *= mult`, then the rotation `(a, b, c) := (b, c, a)`. */
  function Round(t: seq<bv64>, v: State, x: bv64, mult: bv64): State
    requires |t| == 1024
  {
    var c := Xor(v.c, x);
    State(Times(Plus(v.b, Odd(t, c)), mult), c, Minus(v.a, Even(t, c)))
  }

  /** The state after the first `n` rounds of a pass over the block `x`. */
  function Rounds(t: seq<bv64>, v: State, x: Block, mult: bv64, n: nat): State
    requires |t| == 1024 && n <= 8
  {
    if n == 0 then v else Round(t, Rounds(t, v, x, mult, n - 1), Word(x, n - 1), mult)
  }

  /** The multiplier of a pass: 5, then 7, then 9 for the third and later. */
  function Multiplier(pass: nat): (m: bv64)
    ensures pass == 0 ==> m == 5
    ensures pass == 1 ==> m == 7
    ensures pass >= 2 ==> m == 9
  {
    match pass
    case 0 => 5
    case 1 => 7
    case _ => 9
  }

  /** The block of pass `n`: the loaded words, key-scheduled once per pass after the first. */
  function PassBlock(x: Block, n: nat): Block {
    if n == 0 then x else KeySchedule(PassBlock(x, n - 1))
  }

  /** The state after the first `n` passes. */
  function AfterPasses(t: seq<bv64>, v: State, x: Block, n: nat): State
    requires |t| == 1024
  {
    if n == 0 then v else Rounds(t, AfterPasses(t, v, x, n - 1), PassBlock(x, n - 1), Multiplier(n - 1), RoundsPerPass)
  }

  /** One more pass, as `AfterPasses` defines it. */
  lemma AfterOneMorePass(t: seq<bv64>, s: State, x: Block, n: nat)
    requires |t| == 1024
    ensures AfterPasses(t, s, x, n + 1) == Rounds(t, AfterPasses(t, s, x, n), PassBlock(x, n), Multiplier(n), RoundsPerPass)
  {}

  /** The feed-forward: `a ^= a_temp`, `b -= b_temp`, `c += c_temp`. */
  function FeedForward(s: State, v: State): State {
    State(Xor(v.a, s.a), Minus(v.b, s.b), Plus(v.c, s.c))
  }

  /** The compression of one 64-byte block. */
  function Compress(t: seq<bv64>, s: State, bytes: seq<bv8>): State
    requires |t| == 1024 && |bytes| == 64
  {
    FeedForward(s, AfterPasses(t, s, Load(bytes), Passes))
  }

  function CompressAll(t: seq<bv64>, s: State, blocks: seq<seq<bv8>>): State
    requires |t| == 1024
    requires forall i :: 0 <= i < |blocks| ==> |blocks[i]| == 64
    decreases |blocks|
  {
    if blocks == [] then s else
      var rest := blocks[1..];
      assert forall i :: 0 <= i < |rest| ==> rest[i] == blocks[i + 1];
      CompressAll(t, Compress(t, s, blocks[0]), rest)
  }

  /* ---------------- The reference formulation ---------------- */

  /** The round of Anderson and Biham's reference code, on named registers
      that keep their roles: returns the new (a, b, c). */
  function RefRound(t: seq<bv64>, a: bv64, b: bv64, c: bv64, x: bv64, mult: bv64): (bv64, bv64, bv64)
    requires |t| == 1024
  {
    var c' := Xor(c, x);
    (Minus(a, Even(t, c')), Times(Plus(b, Odd(t, c')), mult), c')
  }

  /** k mod 3, for the round numbers of a pass. */
  function Phase(k: nat): (p: nat)
    ensures p < 3
  {
    match k
    case 0 | 3 | 6 => 0
    case 1 | 4 | 7 => 1
    case _ => 2
  }

  /** Round k of a reference pass on the named registers (a, b, c): rounds
      0, 3, 6 work on the roles (a, b, c), rounds 1, 4, 7 on (b, c, a) and
      rounds 2, 5 on (c, a, b). */
  function RefStep(t: seq<bv64>, r: (bv64, bv64, bv64), k: nat, x: bv64, mult: bv64): (bv64, bv64, bv64)
    requires |t| == 1024
  {
    if Phase(k) == 0 then
      var q := RefRound(t, r.0, r.1, r.2, x, mult);
      (q.0, q.1, q.2)
    else if Phase(k) == 1 then
      var q := RefRound(t, r.1, r.2, r.0, x, mult);
      (q.2, q.0, q.1)
    else
      var q := RefRound(t, r.2, r.0, r.1, x, mult);
      (q.1, q.2, q.0)
  }

  /** The named registers after the first `n` rounds of a reference pass. */
  function RefPass(t: seq<bv64>, r: (bv64, bv64, bv64), x: Block, mult: bv64, n: nat): (bv64, bv64, bv64)
    requires |t| == 1024 && n <= 8
  {
    if n == 0 then r else RefStep(t, RefPass(t, r, x, mult, n - 1), n - 1, Word(x, n - 1), mult)
  }

  /** The reference compression: pass(a,b,c,5), key schedule, pass(c,a,b,7),
      key schedule, pass(b,c,a,9), feed-forward. */
  function RefCompress(t: seq<bv64>, s: State, bytes: seq<bv8>): State
    requires |t| == 1024 && |bytes| == 64
  {
    var x := Load(bytes);
    var p1 := RefPass(t, (s.a, s.b, s.c), x, 5, 8);                 // (a, b, c)
    var x' := KeySchedule(x);
    var p2 := RefPass(t, (p1.2, p1.0, p1.1), x', 7, 8);             // (c, a, b)
    var x'' := KeySchedule(x');
    var p3 := RefPass(t, (p2.2, p2.0, p2.1), x'', 9, 8);            // (b, c, a)
    State(Xor(p3.2, s.a), Minus(p3.0, s.b), Plus(p3.1, s.c))
  }

  /** The loop's registers after `n` rounds are the named registers rotated
      `n` times. */
  function Rotated(r: (bv64, bv64, bv64), n: nat): State {
    if Phase(n) == 0 then State(r.0, r.1, r.2)
    else if Phase(n) == 1 then State(r.1, r.2, r.0)
    else State(r.2, r.0, r.1)
  }

  /** One loop round is one reference round followed by the rotation. */
  lemma RoundIsRefRound(t: seq<bv64>, v: State, x: bv64, mult: bv64)
    requires |t| == 1024
    ensures var r := RefRound(t, v.a, v.b, v.c, x, mult);
      Round(t, v, x, mult) == State(r.1, r.2, r.0)
  {}

  /** The next round number's phase follows the current one's. */
  lemma PhaseStep(k: nat)
    requires k < 8
    ensures Phase(k + 1) == (Phase(k) + 1) % 3
  {}

  /** One loop round on the rotated registers is one reference step. */
  lemma RoundIsRefStep(t: seq<bv64>, r: (bv64, bv64, bv64), k: nat, w: bv64, mult: bv64)
    requires |t| == 1024 && k < 8
    ensures Round(t, Rotated(r, k), w, mult) == Rotated(RefStep(t, r, k, w, mult), k + 1)
  {
    PhaseStep(k);
    RoundIsRefRound(t, Rotated(r, k), w, mult);
  }

  /** Rotating the registers after every round (the C++ `temp` shuffle)
      keeps them the reference registers, rotated once per round. */
  lemma {:induction false} RoundsAreRefPass(t: seq<bv64>, v: State, x: Block, mult: bv64, n: nat)
    requires |t| == 1024 && n <= 8
    ensures Rounds(t, v, x, mult, n) == Rotated(RefPass(t, (v.a, v.b, v.c), x, mult, n), n)
  {
    if n > 0 {
      RoundsAreRefPass(t, v, x, mult, n - 1);
      RoundIsRefStep(t, RefPass(t, (v.a, v.b, v.c), x, mult, n - 1), n - 1, Word(x, n - 1), mult);
    }
  }

  /** After a whole pass of eight rounds the loop's registers are the
      reference registers rotated twice. */
  lemma PassIsRefPass(t: seq<bv64>, v: State, x: Block, mult: bv64)
    requires |t| == 1024
    ensures var p := RefPass(t, (v.a, v.b, v.c), x, mult, 8);
      Rounds(t, v, x, mult, 8) == State(p.2, p.0, p.1)
  {
    RoundsAreRefPass(t, v, x, mult, 8);
    assert Phase(8) == 2;
  }

  /** The three passes of `Compress`. */
  lemma ThreePasses(t: seq<bv64>, s: State, x: Block)
    requires |t| == 1024
    ensures AfterPasses(t, s, x, Passes)
      == Rounds(t, Rounds(t, Rounds(t, s, x, 5, 8), KeySchedule(x), 7, 8), KeySchedule(KeySchedule(x)), 9, 8)
  {
    assert AfterPasses(t, s, x, 1) == Rounds(t, s, x, 5, 8);
    assert AfterPasses(t, s, x, 2) == Rounds(t, AfterPasses(t, s, x, 1), KeySchedule(x), 7, 8);
  }

  /** Rotating the registers after every round (the C++ `temp` shuffle)
      computes the reference compression: 24 rounds are a whole number of
      rotations. */
  lemma CompressIsRefCompress(t: seq<bv64>, s: State, bytes: seq<bv8>)
    requires |t| == 1024 && |bytes| == 64
    ensures Compress(t, s, bytes) == RefCompress(t, s, bytes)
  {
    var x := Load(bytes);
    ThreePasses(t, s, x);
    PassIsRefPass(t, s, x, 5);
    var v1 := Rounds(t, s, x, 5, 8);
    PassIsRefPass(t, v1, KeySchedule(x), 7);
    var v2 := Rounds(t, v1, KeySchedule(x), 7, 8);
    PassIsRefPass(t, v2, KeySchedule(KeySchedule(x)), 9);
  }

  /* ---------------- process_block as the C++ writes it ---------------- */

  /** The conversion loop: eight words read straight from the bytes. */
  method LoadBlock(charBlock: seq<bv8>) returns (x: Block)
    requires |charBlock| == 64
    ensures x == Load(charBlock)
  {
    var words := new bv64[8];
    for loop := 0 to 8
      invariant forall i :: 0 <= i < loop ==> words[i] == LE64(charBlock, 8 * i)
    {
      words[loop] := LE64(charBlock, 8 * loop);
    }
    x := Block(words[0], words[1], words[2], words[3], words[4], words[5], words[6], words[7]);
  }

  /** The round loop of one pass, with the `temp` rotation. */
  method RunPass(t: seq<bv64>, v: State, block: Block, mult: bv64) returns (r: State)
    requires |t| == 1024
    ensures r == Rounds(t, v, block, mult, RoundsPerPass)
  {
    var a, b, c := v.a, v.b, v.c;
    for loop := 0 to RoundsPerPass
      invariant State(a, b, c) == Rounds(t, v, block, mult, loop)
    {
      c := Xor(c, Word(block, loop));
      SourceEvenIsEven(t, c);
      SourceOddIsOdd(t, c);
      a := Minus(a, SourceEven(t, c));
      b := Plus(b, SourceOdd(t, c));
      b := Times(b, mult);
      var temp := a;
      a := b;
      b := c;
      c := temp;
    }
    r := State(a, b, c);
  }

  /** `process_block`: the eight word loads, three passes each preceded (but
      the first) by the key schedule, a `switch` for the multiplier, eight
      rounds with the `temp` rotation, and the feed-forward.  It computes
      `Compress`. */
  method ProcessBlock(t: seq<bv64>, s: State, charBlock: seq<bv8>) returns (r: State)
    requires |t| == 1024 && |charBlock| == 64
    ensures r == Compress(t, s, charBlock)
  {
    var x := LoadBlock(charBlock);
    var block := x;
    var v := s;
    for passNumber := 0 to Passes
      invariant block == PassBlock(x, if passNumber == 0 then 0 else passNumber - 1)
      invariant v == AfterPasses(t, s, x, passNumber)
    {
      if passNumber != 0 {
        block := KeySchedule(block);
      }
      var mult: bv64;
      match passNumber {
        case 0 => mult := 5;
        case 1 => mult := 7;
        case _ => mult := 9;
      }
      assert block == PassBlock(x, passNumber) && mult == Multiplier(passNumber);
      v := RunPass(t, v, block, mult);
      AfterOneMorePass(t, s, x, passNumber);
    }
    r := State(Xor(v.a, s.a), Minus(v.b, s.b), Plus(v.c, s.c));
  }
}
