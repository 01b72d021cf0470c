/** The streaming drivers that feed a digest from a file: `Hash::update(QFile)`
    of Hash.cpp, which reads 64 bytes at a time and is the loop this model
    gives every digest but SHA-384, and `SHA384::update(QFile&)`, which reads
    128 bytes at a time and follows a final full read with one empty update.
    The file is its bytes, held in memory; every read returns what is left
    after the position, up to the read size. */
module Driver {
  import opened Arith
  import Md5

  /** One turn of `while (fileSize != message_length)`: the bytes `file.read`
      returned, `message_length` after adding them, whether the empty update
      followed (SHA-384 only), and the percentage `progress` emitted. */
  datatype Iteration = Iteration(block: seq<bv8>, consumed: nat, flush: bool, percent: nat)

  /** A driver: how many bytes it asks `file.read` for, and whether a final
      read of exactly that many bytes is followed by `update(QByteArray(), …)`. */
  datatype Reader = Reader(size: nat, flushFull: bool)

  /** `Hash::update(QFile)`. */
  const HashReader: Reader := Reader(64, false)

  /** `SHA384::update(QFile&)`. */
  const Sha384Reader: Reader := Reader(128, true)

  /** The driver of the reads above: a positive read size. */
  predicate ValidReader(r: Reader) {
    r.size > 0
  }

  function Min(a: nat, b: nat): nat {
    if a < b then a else b
  }

  /** The loop from `message_length == consumed` on. */
  function Loop(r: Reader, file: seq<bv8>, consumed: nat): seq<Iteration>
    requires ValidReader(r) && consumed <= |file|
    decreases |file| - consumed
  {
    if consumed == |file| then []
    else
      var next := consumed + Min(r.size, |file| - consumed);
      var block := file[consumed..next];
      [Iteration(block, next, r.flushFull && next == |file| && |block| == r.size, Percent(next, |file|))]
        + Loop(r, file, next)
  }

  /** The whole loop, from `message_length = 0`. */
  function Iterations(r: Reader, file: seq<bv8>): seq<Iteration>
    requires ValidReader(r)
  {
    Loop(r, file, 0)
  }

  /** The bytes read, joined in order. */
  function Concat(its: seq<Iteration>): seq<bv8> {
    if its == [] then [] else its[0].block + Concat(its[1..])
  }

  /* ---------------- The loop as written ---------------- */

  /** The `while` loop itself, from position 0: read, add the length,
      update, flush if the reader does, emit the percentage; it stops exactly
      when every byte has been consumed, `fileSize - message_length` falling
      on every turn. */
  method ReadFile(r: Reader, file: seq<bv8>) returns (its: seq<Iteration>)
    requires ValidReader(r)
    ensures its == Iterations(r, file)
  {
    var fileSize := |file|;
    var messageLength := 0;
    its := [];
    while fileSize != messageLength
      invariant messageLength <= fileSize
      invariant its + Loop(r, file, messageLength) == Iterations(r, file)
      decreases fileSize - messageLength
    {
      ghost var before := messageLength;
      var block := file[messageLength..messageLength + Min(r.size, fileSize - messageLength)];
      messageLength := messageLength + |block|;
      var flush := r.flushFull && fileSize == messageLength && |block| == r.size;
      var turn := Iteration(block, messageLength, flush, Percent(messageLength, fileSize));
      assert turn == Turn(r, file, before);
      LoopUnfold(r, file, before);
      AppendAssoc(its, [turn], Loop(r, file, messageLength));
      its := its + [turn];
    }
  }


  /* ---------------- The loop from any file position ---------------- */

  /** What the loop carries between turns: the file's position and
      `message_length`.  `fileSize` is `file.size()`, the whole file's size,
      wherever the position is. */
  datatype Cursor = Cursor(position: nat, consumed: nat)

  /** `file.read(size)`: what is left after the position, up to `size` bytes. */
  function ReadAt(r: Reader, file: seq<bv8>, position: nat): (block: seq<bv8>)
    requires ValidReader(r) && position <= |file|
    ensures |block| <= r.size
    ensures block == [] <==> position == |file|
  {
    file[position..position + Min(r.size, |file| - position)]
  }

  /** The cursor after `k` turns of the loop body: each read moves the
      position and adds its length to `message_length`. */
  function Turns(r: Reader, file: seq<bv8>, c: Cursor, k: nat): (d: Cursor)
    requires ValidReader(r) && c.position <= |file|
    ensures d.position <= |file|
    ensures d.position - c.position == d.consumed - c.consumed
    decreases k
  {
    if k == 0 then c
    else
      var block := ReadAt(r, file, c.position);
      Turns(r, file, Cursor(c.position + |block|, c.consumed + |block|), k - 1)
  }

  /** A loop started at the end of a non-empty file reads nothing on any
      turn, so `message_length` stays 0, never reaches `fileSize`, and the
      loop does not end.  It follows from the contract of `Turns`: the
      position cannot pass the end, so `message_length` cannot grow. */
  lemma StuckAtEnd(r: Reader, file: seq<bv8>, k: nat)
    requires ValidReader(r)
    ensures Turns(r, file, Cursor(|file|, 0), k) == Cursor(|file|, 0)
  {}

  /** Started with the position at `message_length`, the loop runs exactly
      the turns of `Loop` and ends with both at the file's size. */
  lemma {:induction false} TurnsFollowLoop(r: Reader, file: seq<bv8>, consumed: nat)
    requires ValidReader(r) && consumed <= |file|
    ensures Turns(r, file, Cursor(consumed, consumed), |Loop(r, file, consumed)|) == Cursor(|file|, |file|)
    decreases |file| - consumed
  {
    if consumed < |file| {
      var next := Next(r, file, consumed);
      LoopUnfold(r, file, consumed);
      assert |ReadAt(r, file, consumed)| == next - consumed;
      TurnsFollowLoop(r, file, next);
    }
  }

  /** The offset after the turn that starts at `consumed`. */
  function Next(r: Reader, file: seq<bv8>, consumed: nat): nat
    requires ValidReader(r) && consumed < |file|
  {
    consumed + Min(r.size, |file| - consumed)
  }

  /** The turn that starts at `consumed`. */
  function Turn(r: Reader, file: seq<bv8>, consumed: nat): Iteration
    requires ValidReader(r) && consumed < |file|
  {
    var next := Next(r, file, consumed);
    Iteration(file[consumed..next], next, r.flushFull && |file| == next && next - consumed == r.size, Percent(next, |file|))
  }

  /** One turn of the loop from `consumed`, then the rest. */
  lemma LoopUnfold(r: Reader, file: seq<bv8>, consumed: nat)
    requires ValidReader(r) && consumed < |file|
    ensures Loop(r, file, consumed) == [Turn(r, file, consumed)] + Loop(r, file, Next(r, file, consumed))
  {}

  lemma PrefixTail<T>(s: seq<T>, t: seq<T>, k: nat)
    requires k < |s| && s[1..] == t
    ensures s[..k + 1][1..] == t[..k]
  {}

  lemma SliceSplit<T>(s: seq<T>, a: nat, b: nat, c: nat)
    requires a <= b <= c <= |s|
    ensures s[a..c] == s[a..b] + s[b..c]
  {}

  lemma AppendAssoc<T>(a: seq<T>, b: seq<T>, c: seq<T>)
    ensures a + (b + c) == (a + b) + c
  {}

  /* ---------------- Properties of a run of the loop ---------------- */

  /** Every chunk but the last is a full read; the last has one byte up to a
      full read. */
  predicate FullReadsThenTail(its: seq<Iteration>, size: nat) {
    && (forall k :: 0 <= k < |its| - 1 ==> |its[k].block| == size)
    && (|its| > 0 ==> 0 < |its[|its| - 1].block| <= size)
  }

  /** Each turn's `message_length` counts the bytes read since `start`, this
      chunk included: the chunks up to it are the file from `start` up to it. */
  predicate CountsBytesRead(its: seq<Iteration>, file: seq<bv8>, start: nat) {
    forall k :: 0 <= k < |its| ==>
      && start < its[k].consumed <= |file|
      && Concat(its[..k + 1]) == file[start..its[k].consumed]
  }

  /** `message_length` starts above `start`, grows strictly from turn to turn
      and ends at `n`. */
  predicate IncreasesTo(its: seq<Iteration>, start: nat, n: nat) {
    && (forall k :: 0 <= k < |its| ==> start < its[k].consumed)
    && (forall j, k :: 0 <= j < k < |its| ==> its[j].consumed < its[k].consumed)
    && (|its| > 0 ==> its[|its| - 1].consumed == n)
  }

  /** Each percentage is `(100 * message_length) / fileSize` for its turn. */
  predicate PercentagesOf(its: seq<Iteration>, n: nat) {
    forall k :: 0 <= k < |its| ==> n > 0 && its[k].percent == Percent(its[k].consumed, n)
  }

  /** The empty update follows exactly the last turn, when the reader
      flushes and that turn read a full chunk. */
  predicate FlushesAfterFullLast(its: seq<Iteration>, r: Reader) {
    forall k :: 0 <= k < |its| ==>
      (its[k].flush <==> r.flushFull && k == |its| - 1 && |its[k].block| == r.size)
  }

  /** The emitted percentages lie in 0..100, never decrease, and end at 100. */
  predicate ProgressRisesTo100(its: seq<Iteration>) {
    && (forall k :: 0 <= k < |its| ==> its[k].percent <= 100)
    && (forall j, k :: 0 <= j < k < |its| ==> its[j].percent <= its[k].percent)
    && (|its| > 0 ==> its[|its| - 1].percent == 100)
  }

  /* ---------------- Chunks ---------------- */

  /** The chunks join up to the unread part of the file. */
  lemma {:induction false} LoopConcat(r: Reader, file: seq<bv8>, consumed: nat)
    requires ValidReader(r) && consumed <= |file|
    ensures Concat(Loop(r, file, consumed)) == file[consumed..]
    decreases |file| - consumed
  {
    if consumed < |file| {
      var next := consumed + Min(r.size, |file| - consumed);
      var its := Loop(r, file, consumed);
      assert its[1..] == Loop(r, file, next);
      LoopConcat(r, file, next);
      assert file[consumed..] == file[consumed..next] + file[next..];
    }
  }

  lemma {:induction false} LoopChunkSizes(r: Reader, file: seq<bv8>, consumed: nat)
    requires ValidReader(r) && consumed <= |file|
    ensures FullReadsThenTail(Loop(r, file, consumed), r.size)
    decreases |file| - consumed
  {
    if consumed < |file| {
      var next := consumed + Min(r.size, |file| - consumed);
      var its := Loop(r, file, consumed);
      assert its[1..] == Loop(r, file, next);
      LoopChunkSizes(r, file, next);
      if next < |file| {
        assert |its[0].block| == r.size;
      }
    }
  }

  /** There are ceil((n - consumed) / size) reads: all of them cover the
      unread bytes, and all but one do not. */
  lemma {:induction false} LoopCount(r: Reader, file: seq<bv8>, consumed: nat)
    requires ValidReader(r) && consumed <= |file|
    ensures r.size * (|Loop(r, file, consumed)| - 1) < |file| - consumed <= r.size * |Loop(r, file, consumed)|
    decreases |file| - consumed
  {
    if consumed < |file| {
      var next := consumed + Min(r.size, |file| - consumed);
      assert Loop(r, file, consumed)[1..] == Loop(r, file, next);
      LoopCount(r, file, next);
      CountStep(r.size, |Loop(r, file, next)|, |file| - next, next - consumed);
    }
  }

  /** One more read of `read` bytes covers `read` more bytes with one more
      turn. */
  lemma CountStep(size: nat, m: nat, rest: nat, read: nat)
    requires 0 < read <= size
    requires rest == 0 || read == size
    requires size * (m - 1) < rest <= size * m
    ensures size * m < rest + read <= size * (m + 1)
  {
    assert size * (m + 1) == size * m + size;
    assert size * m == size * (m - 1) + size;
    if rest == 0 && m > 0 {
      MulMonotone(1, m, size);
    }
  }

  lemma {:induction false} LoopConsumed(r: Reader, file: seq<bv8>, consumed: nat)
    requires ValidReader(r) && consumed <= |file|
    ensures CountsBytesRead(Loop(r, file, consumed), file, consumed)
    decreases |file| - consumed
  {
    if consumed < |file| {
      LoopConsumed(r, file, Next(r, file, consumed));
      forall k | 0 <= k < |Loop(r, file, consumed)|
        ensures consumed < Loop(r, file, consumed)[k].consumed <= |file|
        ensures Concat(Loop(r, file, consumed)[..k + 1]) == file[consumed..Loop(r, file, consumed)[k].consumed]
      {
        ConsumedAt(r, file, consumed, k);
      }
    }
  }

  /** Turn k of the loop from `consumed`, given what the loop from the next
      offset has read. */
  lemma ConsumedAt(r: Reader, file: seq<bv8>, consumed: nat, k: nat)
    requires ValidReader(r) && consumed < |file|
    requires CountsBytesRead(Loop(r, file, Next(r, file, consumed)), file, Next(r, file, consumed))
    requires k < |Loop(r, file, consumed)|
    ensures consumed < Loop(r, file, consumed)[k].consumed <= |file|
    ensures Concat(Loop(r, file, consumed)[..k + 1]) == file[consumed..Loop(r, file, consumed)[k].consumed]
  {
    var next := Next(r, file, consumed);
    var its := Loop(r, file, consumed);
    var rest := Loop(r, file, next);
    LoopUnfold(r, file, consumed);
    assert its[0] == Turn(r, file, consumed);
    if k > 0 {
      assert its[k] == rest[k - 1];
      var upTo := its[k].consumed;
      assert next < upTo <= |file|;
      PrefixTail(its, rest, k);
      assert Concat(its[..k + 1]) == its[0].block + Concat(rest[..k]);
      SliceSplit(file, consumed, next, upTo);
    } else {
      assert its[..1][1..] == [];
    }
  }

  lemma {:induction false} LoopIncreasing(r: Reader, file: seq<bv8>, consumed: nat)
    requires ValidReader(r) && consumed <= |file|
    ensures IncreasesTo(Loop(r, file, consumed), consumed, |file|)
    decreases |file| - consumed
  {
    if consumed < |file| {
      var next := consumed + Min(r.size, |file| - consumed);
      var its := Loop(r, file, consumed);
      var rest := Loop(r, file, next);
      assert its[1..] == rest;
      LoopIncreasing(r, file, next);
      forall j, k | 0 <= j < k < |its|
        ensures its[j].consumed < its[k].consumed
      {
        assert its[k] == rest[k - 1];
        if j > 0 {
          assert its[j] == rest[j - 1];
        }
      }
    }
  }

  lemma {:induction false} LoopPercent(r: Reader, file: seq<bv8>, consumed: nat)
    requires ValidReader(r) && consumed <= |file|
    ensures PercentagesOf(Loop(r, file, consumed), |file|)
    decreases |file| - consumed
  {
    if consumed < |file| {
      var next := consumed + Min(r.size, |file| - consumed);
      assert Loop(r, file, consumed)[1..] == Loop(r, file, next);
      LoopPercent(r, file, next);
    }
  }

  lemma {:induction false} LoopFlush(r: Reader, file: seq<bv8>, consumed: nat)
    requires ValidReader(r) && consumed <= |file|
    ensures FlushesAfterFullLast(Loop(r, file, consumed), r)
    decreases |file| - consumed
  {
    if consumed < |file| {
      var next := consumed + Min(r.size, |file| - consumed);
      var its := Loop(r, file, consumed);
      assert its[1..] == Loop(r, file, next);
      LoopFlush(r, file, next);
      if next < |file| {
        assert |its| > 1 by {
          assert its[1..] != [];
        }
      } else {
        assert |its| == 1;
      }
    }
  }

  /** The length of the chunks: all full but the last. */
  lemma ConcatLength(its: seq<Iteration>, size: nat)
    requires |its| > 0
    requires forall k :: 0 <= k < |its| - 1 ==> |its[k].block| == size
    ensures |Concat(its)| == size * (|its| - 1) + |its[|its| - 1].block|
  {
    if |its| > 1 {
      ConcatLength(its[1..], size);
    }
  }

  /** Euclidean remainder of q whole sizes and b < size more bytes. */
  lemma ModOfMultiplePlus(q: nat, size: nat, b: nat)
    requires b < size
    ensures (size * q + b) % size == b
  {
    var x := size * q + b;
    var d := x / size;
    assert x == size * d + x % size;
    if d > q {
      MulMonotone(q + 1, d, size);
    } else if d < q {
      MulMonotone(d + 1, q, size);
    }
  }

  /** q full reads and a last one of b bytes make a multiple of the size
      exactly when the last one is full too. */
  lemma MultipleOfSize(q: nat, size: nat, b: nat)
    requires 0 < b <= size
    ensures (size * q + b) % size == 0 <==> b == size
  {
    if b == size {
      ModOfMultiplePlus(q + 1, size, 0);
      assert size * (q + 1) == size * q + size;
    } else {
      ModOfMultiplePlus(q, size, b);
    }
  }

  /** A file of n bytes is read in ceil(n / size) turns, none for an empty
      file; every chunk is a full read but the last, which has one byte up to
      a full read; the chunks join up to the file; and each turn's
      `message_length` is the bytes read so far, strictly increasing up to n. */
  lemma Chunking(r: Reader, file: seq<bv8>)
    requires ValidReader(r)
    ensures r.size * (|Iterations(r, file)| - 1) < |file| <= r.size * |Iterations(r, file)|
    ensures |file| == 0 <==> Iterations(r, file) == []
    ensures Concat(Iterations(r, file)) == file
    ensures FullReadsThenTail(Iterations(r, file), r.size)
    ensures CountsBytesRead(Iterations(r, file), file, 0)
    ensures IncreasesTo(Iterations(r, file), 0, |file|)
  {
    LoopCount(r, file, 0);
    LoopConcat(r, file, 0);
    LoopChunkSizes(r, file, 0);
    LoopConsumed(r, file, 0);
    LoopIncreasing(r, file, 0);
    assert file[0..] == file;
  }

  /** The last chunk is a full read exactly when the file size is a multiple
      of the read size. */
  lemma LastChunkFull(r: Reader, file: seq<bv8>)
    requires ValidReader(r) && |file| > 0
    ensures Iterations(r, file) != []
    ensures |Iterations(r, file)[|Iterations(r, file)| - 1].block| == r.size <==> |file| % r.size == 0
  {
    var its := Iterations(r, file);
    LoopCount(r, file, 0);
    LoopChunkSizes(r, file, 0);
    LoopConcat(r, file, 0);
    ConcatLength(its, r.size);
    assert |file| == r.size * (|its| - 1) + |its[|its| - 1].block| by {
      assert file[0..] == file;
    }
    MultipleOfSize(|its| - 1, r.size, |its[|its| - 1].block|);
  }

  /* ---------------- Progress ---------------- */

  /** Every emitted percentage is `(100 * message_length) / fileSize`; they
      lie in 0..100, never decrease, and the last is 100. */
  lemma Progress(r: Reader, file: seq<bv8>)
    requires ValidReader(r)
    ensures PercentagesOf(Iterations(r, file), |file|)
    ensures ProgressRisesTo100(Iterations(r, file))
  {
    var its := Iterations(r, file);
    LoopPercent(r, file, 0);
    LoopConsumed(r, file, 0);
    LoopIncreasing(r, file, 0);
    forall k | 0 <= k < |its|
      ensures its[k].percent <= 100
    {
      PercentBounded(its[k].consumed, |file|);
    }
    forall j, k | 0 <= j < k < |its|
      ensures its[j].percent <= its[k].percent
    {
      PercentMonotone(its[j].consumed, its[k].consumed, |file|);
    }
    if |its| > 0 {
      HundredPercent(|file|);
    }
  }

  /* ---------------- The update calls ---------------- */

  /** `update(block, message_length * 8)`: the bit count is an `unsigned long
      long`, so it wraps modulo 2^64. */
  datatype Call = Call(buffer: seq<bv8>, bits: bv64)

  function Bits(consumed: nat): bv64 {
    ((8 * consumed) % 0x1_0000_0000_0000_0000) as bv64
  }

  /** The calls one turn makes: the chunk, then the empty buffer if it flushes. */
  function TurnCalls(it: Iteration): seq<Call> {
    [Call(it.block, Bits(it.consumed))] + (if it.flush then [Call([], Bits(it.consumed))] else [])
  }

  /** Every `update(buffer, message_length)` call, in order. */
  function Calls(its: seq<Iteration>): seq<Call> {
    if its == [] then [] else TurnCalls(its[0]) + Calls(its[1..])
  }

  /** The calls `Hash::update(QFile)` makes on a file. */
  function HashDriverCalls(file: seq<bv8>): seq<Call> {
    Calls(Iterations(HashReader, file))
  }

  /** The calls `SHA384::update(QFile&)` makes on a file. */
  function Sha384DriverCalls(file: seq<bv8>): seq<Call> {
    Calls(Iterations(Sha384Reader, file))
  }

  /** The first calls are the turns' chunks, one for one, each with eight
      times the bytes read so far. */
  predicate OneCallPerTurn(its: seq<Iteration>, calls: seq<Call>) {
    && |its| <= |calls|
    && forall k :: 0 <= k < |its| ==> calls[k] == Call(its[k].block, Bits(its[k].consumed))
  }

  /** Every call but the last has a full buffer, and none has more. */
  predicate FullBuffersThenLast(calls: seq<Call>, size: nat) {
    && (forall k :: 0 <= k < |calls| ==> |calls[k].buffer| <= size)
    && (forall k :: 0 <= k < |calls| - 1 ==> |calls[k].buffer| == size)
  }

  lemma {:induction false} CallsWithoutFlush(its: seq<Iteration>)
    requires forall k :: 0 <= k < |its| ==> !its[k].flush
    ensures |Calls(its)| == |its|
    ensures OneCallPerTurn(its, Calls(its))
  {
    if its != [] {
      CallsWithoutFlush(its[1..]);
    }
  }

  lemma {:induction false} CallsWithFinalFlush(its: seq<Iteration>)
    requires |its| > 0 && its[|its| - 1].flush
    requires forall k :: 0 <= k < |its| - 1 ==> !its[k].flush
    ensures |Calls(its)| == |its| + 1
    ensures OneCallPerTurn(its, Calls(its))
    ensures Calls(its)[|its|] == Call([], Bits(its[|its| - 1].consumed))
  {
    if |its| > 1 {
      CallsWithFinalFlush(its[1..]);
    }
  }

  /** `Hash::update(QFile)` never flushes: one call per turn. */
  lemma HashCallsPerTurn(file: seq<bv8>)
    ensures |HashDriverCalls(file)| == |Iterations(HashReader, file)|
    ensures OneCallPerTurn(Iterations(HashReader, file), HashDriverCalls(file))
  {
    LoopFlush(HashReader, file, 0);
    CallsWithoutFlush(Iterations(HashReader, file));
  }

  /** `Hash::update(QFile)` makes ceil(n / 64) calls, none for an empty file,
      each with its chunk and eight times the bytes read so far; the last
      carries the bit count of the whole file. */
  lemma HashCalls(file: seq<bv8>)
    ensures |HashDriverCalls(file)| == (|file| + 63) / 64
    ensures OneCallPerTurn(Iterations(HashReader, file), HashDriverCalls(file))
    ensures |file| > 0 ==> HashDriverCalls(file)[|HashDriverCalls(file)| - 1].bits == Bits(|file|)
  {
    HashCallsPerTurn(file);
    LoopCount(HashReader, file, 0);
    LoopIncreasing(HashReader, file, 0);
  }

  /** Only a call with fewer than 64 bytes pads and writes the length.  Every
      call but the last has 64 bytes, and a shorter call happens exactly when
      n is not a multiple of 64: a file of 64, 128, ... bytes is never
      finalised. */
  lemma HashFinalisation(file: seq<bv8>)
    ensures FullBuffersThenLast(HashDriverCalls(file), 64)
    ensures (exists k :: 0 <= k < |HashDriverCalls(file)| && |HashDriverCalls(file)[k].buffer| < 64)
        <==> |file| % 64 != 0
  {
    var its := Iterations(HashReader, file);
    var calls := HashDriverCalls(file);
    HashCallsPerTurn(file);
    LoopChunkSizes(HashReader, file, 0);
    if |file| > 0 {
      LastChunkFull(HashReader, file);
      assert |calls[|calls| - 1].buffer| == |its[|its| - 1].block|;
    } else {
      assert its == [];
    }
  }

  /** `SHA384::update(QFile&)` reads a file of n bytes in ceil(n / 128)
      turns, and flushes after the last exactly when n is a positive multiple
      of 128. */
  lemma Sha384Turns(file: seq<bv8>)
    ensures |Iterations(Sha384Reader, file)| == (|file| + 127) / 128
    ensures var its := Iterations(Sha384Reader, file);
      (|its| > 0 && its[|its| - 1].flush) <==> (|file| > 0 && |file| % 128 == 0)
  {
    var its := Iterations(Sha384Reader, file);
    LoopCount(Sha384Reader, file, 0);
    LoopFlush(Sha384Reader, file, 0);
    if |file| > 0 {
      LastChunkFull(Sha384Reader, file);
    }
  }

  /** `SHA384::update(QFile&)`: each turn calls with its chunk and bit count;
      after a final full read one more call with an empty buffer and the same
      count follows; no call for an empty file. */
  lemma Sha384Calls(file: seq<bv8>)
    ensures |file| == 0 <==> Sha384DriverCalls(file) == []
    ensures |Sha384DriverCalls(file)| ==
      |Iterations(Sha384Reader, file)| + (if |file| > 0 && |file| % 128 == 0 then 1 else 0)
    ensures OneCallPerTurn(Iterations(Sha384Reader, file), Sha384DriverCalls(file))
    ensures |file| > 0 ==> Sha384DriverCalls(file)[|Sha384DriverCalls(file)| - 1].bits == Bits(|file|)
  {
    var its := Iterations(Sha384Reader, file);
    Sha384Turns(file);
    LoopFlush(Sha384Reader, file, 0);
    LoopIncreasing(Sha384Reader, file, 0);
    if |its| > 0 && its[|its| - 1].flush {
      CallsWithFinalFlush(its);
    } else {
      CallsWithoutFlush(its);
    }
  }

  /** Every file but the empty one ends with exactly one call shorter than
      128 bytes, the last, which pads; all calls before it have 128 bytes. */
  lemma Sha384Finalisation(file: seq<bv8>)
    ensures FullBuffersThenLast(Sha384DriverCalls(file), 128)
    ensures |file| > 0 ==> |Sha384DriverCalls(file)[|Sha384DriverCalls(file)| - 1].buffer| < 128
  {
    var its := Iterations(Sha384Reader, file);
    LoopFlush(Sha384Reader, file, 0);
    LoopChunkSizes(Sha384Reader, file, 0);
    if |its| > 0 && its[|its| - 1].flush {
      FlushedCalls(its);
    } else {
      CallsWithoutFlush(its);
      assert |its| > 0 ==> |its[|its| - 1].block| < 128;
    }
  }

  /** After a final full read, every chunk is full and the empty call ends. */
  lemma FlushedCalls(its: seq<Iteration>)
    requires |its| > 0 && its[|its| - 1].flush
    requires FlushesAfterFullLast(its, Sha384Reader)
    requires FullReadsThenTail(its, 128)
    ensures FullBuffersThenLast(Calls(its), 128)
    ensures |Calls(its)[|Calls(its)| - 1].buffer| < 128
  {
    CallsWithFinalFlush(its);
    var calls := Calls(its);
    forall k | 0 <= k < |calls| - 1
      ensures |calls[k].buffer| == 128
    {
      assert calls[k].buffer == its[k].block;
    }
  }

  /* ---------------- Feeding MD5 ---------------- */

  /** The chaining values after `update` runs for each call in turn. */
  function Md5Feed(s: Md5.State, calls: seq<Call>): Md5.State
    requires forall k :: 0 <= k < |calls| ==> |calls[k].buffer| <= 64
    decreases |calls|
  {
    if calls == [] then s else Md5Feed(Md5.Update(s, calls[0].buffer, calls[0].bits), calls[1..])
  }

  function Buffers(calls: seq<Call>): seq<seq<bv8>> {
    seq(|calls|, k requires 0 <= k < |calls| => calls[k].buffer)
  }

  /** Calls of full blocks only compress the blocks: no padding block, no
      length, no byte reversal. */
  lemma {:induction false} Md5FeedOfFullBlocks(s: Md5.State, calls: seq<Call>)
    requires forall k :: 0 <= k < |calls| ==> |calls[k].buffer| == 64
    ensures Md5Feed(s, calls) == Md5.CompressAll(s, Buffers(calls))
    decreases |calls|
  {
    if calls != [] {
      Md5FeedOfFullBlocks(Md5.Compress(s, calls[0].buffer), calls[1..]);
      assert Buffers(calls)[1..] == Buffers(calls[1..]);
    }
  }

  /** Hashing an empty file with MD5 leaves the initial constants: no call,
      so no padding block either. */
  lemma Md5OfEmptyFile(file: seq<bv8>)
    requires |file| == 0
    ensures HashDriverCalls(file) == []
    ensures Md5Feed(Md5.New(), HashDriverCalls(file)) == Md5.New()
  {
    HashCalls(file);
  }

  /** Hashing a file of 64, 128, ... bytes with MD5 ends as the plain
      compression of its chunks: the message length is never compressed and
      the words are never byte-reversed. */
  lemma Md5OfWholeBlocks(file: seq<bv8>)
    requires |file| % 64 == 0
    ensures forall k :: 0 <= k < |HashDriverCalls(file)| ==> |HashDriverCalls(file)[k].buffer| == 64
    ensures Md5Feed(Md5.New(), HashDriverCalls(file)) == Md5.CompressAll(Md5.New(), Buffers(HashDriverCalls(file)))
  {
    var calls := HashDriverCalls(file);
    HashFinalisation(file);
    Md5FeedOfFullBlocks(Md5.New(), calls);
  }
}
