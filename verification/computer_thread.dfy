/** The worker of ComputerThread.cpp: `run` visits the files of
    `m_computations` in key order, skips a file that cannot be opened or
    rewound with one error line, updates each of the file's hashes in list
    order, and stops starting files once `abort` has been called; `hashProgress`
    turns a hash's own percentage into an overall one. */
module ComputerThread {
  import opened Arith
  import Driver

  /** A hash object of a file's list (`HashSPtr`): its identity, by which
      `run` hands it back through `hashComputed` and `getResults`, and whether
      its class is SHA384, whose `update(QFile&)` is the only file loop that
      differs from the one in Hash.cpp. */
  datatype HashId = HashId(id: nat, isSha384: bool)

  /** The `update(QFile)` loop a hash object runs: SHA384's own 128-byte
      loop, or for every other class the 64-byte loop of Hash.cpp. */
  function ReaderOf(h: HashId): (r: Driver.Reader)
    ensures Driver.ValidReader(r)
  {
    if h.isSha384 then Driver.Sha384Reader else Driver.HashReader
  }

  /** The turns of one `update(QFile)` loop: what each `read` returned. */
  type Reads = seq<Driver.Iteration>

  /** One entry of `m_computations`, in key order: the file name, whether
      `open(ReadOnly)` and `seek(0)` succeed, the `errorString()` when they do
      not, the file's bytes, and the file's hash list. */
  datatype Entry = Entry(name: string, opens: bool, errorString: string, contents: seq<bv8>, hashes: seq<HashId>)

  /** The thread's fields. */
  datatype Thread = Thread(computations: seq<Entry>, abort: bool, currentIndex: nat, hashIndex: nat)

  /** `QMap` keys are distinct. */
  predicate DistinctNames(entries: seq<Entry>) {
    forall i, j :: 0 <= i < j < |entries| ==> entries[i].name != entries[j].name
  }

  /** What `run` emits: `progress(value)` and `hashComputed(filename, hash)`. */
  datatype Event = Progress(value: int) | HashComputed(file: string, hash: HashId)

  /* ---------------- Constructor, getResults, abort ---------------- */

  /** The constructor: the map, no abort, both indexes at 0. */
  function New(computations: seq<Entry>): (t: Thread)
    ensures t.computations == computations
    ensures !t.abort && t.currentIndex == 0 && t.hashIndex == 0
  {
    Thread(computations, false, 0, 0)
  }

  /** `getResults()`. */
  function GetResults(t: Thread): seq<Entry> {
    t.computations
  }

  /** `abort()`: raise the flag and touch nothing else; raising it twice is
      raising it once. */
  function Abort(t: Thread): (r: Thread)
    ensures r.abort
    ensures r.computations == t.computations
    ensures r.currentIndex == t.currentIndex && r.hashIndex == t.hashIndex
  {
    t.(abort := true)
  }

  /** Raising the flag twice is raising it once. */
  lemma AbortIdempotent(t: Thread)
    ensures Abort(Abort(t)) == Abort(t)
  {}

  /* ---------------- run ---------------- */

  /** `tr("%1 error: %2\n").arg(filename).arg(file.errorString())`. */
  function ErrorLine(name: string, message: string): string {
    name + " error: " + message + "\n"
  }

  /** `hashComputed(filename, hash)` for each hash of the list, in order. */
  function Computed(name: string, hashes: seq<HashId>): seq<Event> {
    seq(|hashes|, j requires 0 <= j < |hashes| => HashComputed(name, hashes[j]))
  }

  /** What one turn of the file loop emits: the file percentage, then, when
      the file opened, one `hashComputed` per hash. */
  function FileEvents(e: Entry, percent: int): seq<Event> {
    [Progress(percent)] + (if e.opens then Computed(e.name, e.hashes) else [])
  }

  /** The percentage reported as file i starts: `(100 * (i + 1)) / size`. */
  function FilePercents(size: nat): (p: seq<int>)
    ensures |p| == size
  {
    seq(size, i requires 0 <= i < size => Percent(i + 1, size))
  }

  /** The text one turn appends to `fileErrors`. */
  function FileErrors(e: Entry): string {
    if e.opens then "" else ErrorLine(e.name, e.errorString)
  }

  /** The events of the first n turns, turn i reporting `percents[i]`. */
  function EventsWith(entries: seq<Entry>, percents: seq<int>, n: nat): seq<Event>
    requires n <= |entries| && n <= |percents|
  {
    if n == 0 then [] else EventsWith(entries, percents, n - 1) + FileEvents(entries[n - 1], percents[n - 1])
  }

  /** The events `run` emits in its first n turns. */
  function Events(entries: seq<Entry>, n: nat): seq<Event>
    requires n <= |entries|
  {
    EventsWith(entries, FilePercents(|entries|), n)
  }

  /** `fileErrors` after the first n turns. */
  function Errors(entries: seq<Entry>, n: nat): string
    requires n <= |entries|
  {
    if n == 0 then "" else Errors(entries, n - 1) + FileErrors(entries[n - 1])
  }

  /** How many files `run` starts: the loop condition reads the flag before
      each file, and sees it set from file `abortAt` on (never, when `abortAt`
      is past the last file), or from the first file when `abort` came before
      `run`. */
  function Started(t: Thread, abortAt: nat): (n: nat)
    ensures n <= |t.computations|
  {
    if t.abort then 0 else Min(|t.computations|, abortAt)
  }

  function Min(a: nat, b: nat): nat {
    if a < b then a else b
  }

  /** `run()`: the file loop, with the abort flag observed through `abortAt`.
      It emits the events and collects the errors of the files it starts,
      leaves the map as it was, and ends with `m_currentIndex` at the number
      of files started. */
  method Run(t: Thread, abortAt: nat) returns (r: Thread, events: seq<Event>, fileErrors: string, fed: seq<seq<Reads>>)
    ensures events == Events(t.computations, Started(t, abortAt))
    ensures fileErrors == Errors(t.computations, Started(t, abortAt))
    ensures |fed| == Started(t, abortAt)
    ensures forall i :: 0 <= i < |fed| ==> fed[i] == FileReads(t.computations[i])
    ensures r.computations == t.computations
    ensures r.currentIndex == Started(t, abortAt)
  {
    var size := |t.computations|;
    var currentIndex := 0;
    var hashIndex: nat := t.hashIndex;
    events, fileErrors, fed := [], "", [];
    while currentIndex < size && !(t.abort || currentIndex >= abortAt)
      invariant currentIndex <= Started(t, abortAt)
      invariant events == Events(t.computations, currentIndex)
      invariant fileErrors == Errors(t.computations, currentIndex)
      invariant fed == ReadsOf(t.computations, currentIndex)
      decreases size - currentIndex
    {
      var percent := Percent(currentIndex + 1, size);
      assert FilePercents(size)[currentIndex] == percent;
      var turnEvents, turnErrors, turnFed;
      turnEvents, turnErrors, turnFed, hashIndex := FileTurn(t.computations[currentIndex], percent, hashIndex);
      events, fileErrors, fed := events + turnEvents, fileErrors + turnErrors, fed + [turnFed];
      currentIndex := currentIndex + 1;
    }
    assert currentIndex == Started(t, abortAt);
    r := Thread(t.computations, t.abort || currentIndex >= abortAt, currentIndex, hashIndex);
  }

  /** One turn of the file loop: report the percentage, then either append
      the error line of a file that does not open or update its hashes. */
  method FileTurn(e: Entry, percent: int, hashIndex: nat) returns (events: seq<Event>, errors: string, fed: seq<Reads>, hashIndex': nat)
    ensures events == FileEvents(e, percent)
    ensures errors == FileErrors(e)
    ensures fed == FileReads(e)
    ensures hashIndex' == if e.opens then |e.hashes| else hashIndex
  {
    events := [Progress(percent)];
    if !e.opens {
      errors, fed, hashIndex' := ErrorLine(e.name, e.errorString), [], hashIndex;
    } else {
      var computed;
      computed, fed, hashIndex' := UpdateHashes(e);
      events, errors := events + computed, "";
    }
  }

  /** What the hashes of an opened file read, in list order: each runs its
      class's `update(QFile)` loop over the whole file, from its first byte. */
  function HashReads(e: Entry): (r: seq<Reads>)
    ensures |r| == |e.hashes|
  {
    seq(|e.hashes|, j requires 0 <= j < |e.hashes| => Driver.Iterations(ReaderOf(e.hashes[j]), e.contents))
  }

  /** What one turn of the file loop reads: nothing when the file does not
      open. */
  function FileReads(e: Entry): seq<Reads> {
    if e.opens then HashReads(e) else []
  }

  /** What the first n turns read, turn by turn. */
  function ReadsOf(entries: seq<Entry>, n: nat): (r: seq<seq<Reads>>)
    requires n <= |entries|
    ensures |r| == n
    ensures forall i :: 0 <= i < n ==> r[i] == FileReads(entries[i])
  {
    if n == 0 then [] else ReadsOf(entries, n - 1) + [FileReads(entries[n - 1])]
  }

  /** The hash loop of an opened file.  `hash->update(file)` reads from the
      file's position to its end and `file.seek(0)` moves it back to the
      start, so every hash reads the whole file; `hashComputed` fires after
      each hash, in list order, and `m_hashIndex` ends past the last hash. */
  method UpdateHashes(e: Entry) returns (events: seq<Event>, fed: seq<Reads>, hashIndex: nat)
    ensures events == Computed(e.name, e.hashes)
    ensures fed == HashReads(e)
    ensures hashIndex == |e.hashes|
  {
    events, fed := [], [];
    hashIndex := 0;
    var position := 0;
    while hashIndex < |e.hashes|
      invariant hashIndex <= |e.hashes|
      invariant position == 0
      invariant events == Computed(e.name, e.hashes[..hashIndex])
      invariant fed == HashReads(e)[..hashIndex]
      decreases |e.hashes| - hashIndex
    {
      var hash := e.hashes[hashIndex];
      var read := Driver.ReadFile(ReaderOf(hash), e.contents);
      assert |Driver.Concat(read)| == |e.contents| by {
        Driver.Chunking(ReaderOf(hash), e.contents);
      }
      position := position + |Driver.Concat(read)|;
      assert position == |e.contents|;
      position := 0; // seek(0)
      fed := fed + [read];
      events := events + [HashComputed(e.name, hash)];
      hashIndex := hashIndex + 1;
    }
    assert e.hashes[..hashIndex] == e.hashes;
    assert HashReads(e)[..hashIndex] == HashReads(e);
  }

  /** Every hash of a file reads all of it: its reads join up to the file's
      bytes, every read but the last fills its buffer, and an empty file gives
      no read at all. */
  lemma EveryHashReadsWholeFile(e: Entry, j: nat)
    requires j < |e.hashes|
    ensures Driver.Concat(HashReads(e)[j]) == e.contents
    ensures Driver.FullReadsThenTail(HashReads(e)[j], ReaderOf(e.hashes[j]).size)
    ensures HashReads(e)[j] == [] <==> e.contents == []
  {
    Driver.Chunking(ReaderOf(e.hashes[j]), e.contents);
  }

  /** Why `seek(0)` follows every update: `fileSize` is the whole file's
      size, so a hash starting where the previous one stopped, at the end of
      a non-empty file, reads nothing on every turn and its loop never ends,
      while from the start the loop ends with every byte consumed. */
  lemma RewindNeeded(h: HashId, file: seq<bv8>, k: nat)
    requires file != []
    ensures Driver.Turns(ReaderOf(h), file, Driver.Cursor(|file|, 0), k).consumed != |file|
    ensures Driver.Turns(ReaderOf(h), file, Driver.Cursor(0, 0), |Driver.Iterations(ReaderOf(h), file)|).consumed == |file|
  {
    Driver.StuckAtEnd(ReaderOf(h), file, k);
    Driver.TurnsFollowLoop(ReaderOf(h), file, 0);
  }

  /* ---------------- What run emits ---------------- */

  /** The hashes `hashComputed` reports for one file name, in order. */
  function ComputedFor(events: seq<Event>, name: string): seq<HashId> {
    if events == [] then [] else HashFor(events[0], name) + ComputedFor(events[1..], name)
  }

  function HashFor(e: Event, name: string): seq<HashId> {
    if e.HashComputed? && e.file == name then [e.hash] else []
  }

  /** The values `progress` carries, in order. */
  function ProgressValues(events: seq<Event>): seq<int> {
    if events == [] then [] else ProgressOf(events[0]) + ProgressValues(events[1..])
  }

  function ProgressOf(e: Event): seq<int> {
    if e.Progress? then [e.value] else []
  }

  lemma {:induction false} ComputedForConcat(a: seq<Event>, b: seq<Event>, name: string)
    ensures ComputedFor(a + b, name) == ComputedFor(a, name) + ComputedFor(b, name)
  {
    if a != [] {
      assert (a + b)[0] == a[0];
      assert (a + b)[1..] == a[1..] + b;
      ComputedForConcat(a[1..], b, name);
      assert ComputedFor(a + b, name) == HashFor(a[0], name) + (ComputedFor(a[1..], name) + ComputedFor(b, name));
    } else {
      assert a + b == b;
    }
  }

  lemma {:induction false} ProgressValuesConcat(a: seq<Event>, b: seq<Event>)
    ensures ProgressValues(a + b) == ProgressValues(a) + ProgressValues(b)
  {
    if a != [] {
      assert (a + b)[0] == a[0];
      assert (a + b)[1..] == a[1..] + b;
      ProgressValuesConcat(a[1..], b);
      assert ProgressValues(a + b) == ProgressOf(a[0]) + (ProgressValues(a[1..]) + ProgressValues(b));
    } else {
      assert a + b == b;
    }
  }

  lemma {:induction false} ComputedForComputed(name: string, hashes: seq<HashId>, other: string)
    ensures ComputedFor(Computed(name, hashes), other) == if name == other then hashes else []
    ensures ProgressValues(Computed(name, hashes)) == []
  {
    if hashes != [] {
      assert Computed(name, hashes)[1..] == Computed(name, hashes[1..]);
      ComputedForComputed(name, hashes[1..], other);
    }
  }

  /** One turn reports the file's hashes, in list order, when it opens, and
      nothing for any other name. */
  lemma FileEventsComputed(e: Entry, percent: int, name: string)
    ensures ComputedFor(FileEvents(e, percent), name) == if e.opens && e.name == name then e.hashes else []
    ensures ProgressValues(FileEvents(e, percent)) == [percent]
  {
    var p: seq<Event> := [Progress(percent)];
    var rest := if e.opens then Computed(e.name, e.hashes) else [];
    ComputedForConcat(p, rest, name);
    ProgressValuesConcat(p, rest);
    ComputedForComputed(e.name, e.hashes, name);
    assert p[1..] == [];
  }

  /** The hashes one turn reports for `name`. */
  function TurnHashes(e: Entry, name: string): seq<HashId> {
    if e.opens && e.name == name then e.hashes else []
  }

  lemma ComputedStep(entries: seq<Entry>, percents: seq<int>, n: nat, name: string)
    requires 0 < n <= |entries| && n <= |percents|
    ensures ComputedFor(EventsWith(entries, percents, n), name)
      == ComputedFor(EventsWith(entries, percents, n - 1), name) + TurnHashes(entries[n - 1], name)
  {
    var prev, turn := EventsWith(entries, percents, n - 1), FileEvents(entries[n - 1], percents[n - 1]);
    ComputedForConcat(prev, turn, name);
    FileEventsComputed(entries[n - 1], percents[n - 1], name);
  }

  lemma ProgressStep(entries: seq<Entry>, percents: seq<int>, n: nat)
    requires 0 < n <= |entries| && n <= |percents|
    ensures ProgressValues(EventsWith(entries, percents, n))
      == ProgressValues(EventsWith(entries, percents, n - 1)) + [percents[n - 1]]
  {
    var prev, turn := EventsWith(entries, percents, n - 1), FileEvents(entries[n - 1], percents[n - 1]);
    ProgressValuesConcat(prev, turn);
    FileEventsComputed(entries[n - 1], percents[n - 1], "");
  }

  lemma {:induction false} ComputedInOrderWith(entries: seq<Entry>, percents: seq<int>, n: nat, i: nat)
    requires DistinctNames(entries)
    requires n <= |entries| && n <= |percents| && i < |entries|
    ensures ComputedFor(EventsWith(entries, percents, n), entries[i].name) == ExpectedHashes(entries, n, i)
  {
    if n > 0 {
      ComputedInOrderWith(entries, percents, n - 1, i);
      DistinctAt(entries, n - 1, i);
      ComputedInOrderStep(entries, percents, n, i);
    }
  }

  lemma ComputedInOrderStep(entries: seq<Entry>, percents: seq<int>, n: nat, i: nat)
    requires 0 < n <= |entries| && n <= |percents| && i < |entries|
    requires n - 1 != i ==> entries[n - 1].name != entries[i].name
    requires ComputedFor(EventsWith(entries, percents, n - 1), entries[i].name) == ExpectedHashes(entries, n - 1, i)
    ensures ComputedFor(EventsWith(entries, percents, n), entries[i].name) == ExpectedHashes(entries, n, i)
  {
    ComputedStep(entries, percents, n, entries[i].name);
  }

  /** The hashes file i has reported after n turns. */
  function ExpectedHashes(entries: seq<Entry>, n: nat, i: nat): seq<HashId>
    requires i < |entries|
  {
    if i < n && entries[i].opens then entries[i].hashes else []
  }

  lemma DistinctAt(entries: seq<Entry>, k: nat, i: nat)
    requires DistinctNames(entries) && k < |entries| && i < |entries|
    ensures k != i ==> entries[k].name != entries[i].name
  {
    if k < i {} else if i < k {}
  }

  /** Turn k reports hashes under file i's name only when it is file i. */
  lemma TurnHashesAt(entries: seq<Entry>, k: nat, i: nat)
    requires DistinctNames(entries)
    requires k < |entries| && i < |entries|
    ensures TurnHashes(entries[k], entries[i].name) == if k == i && entries[i].opens then entries[i].hashes else []
  {
    if k != i {
      assert entries[k].name != entries[i].name;
    }
  }

  /** `hashComputed` fires exactly once per hash of every started file that
      opened, in list order, and never for a file that was not started or
      did not open. */
  lemma ComputedInOrder(entries: seq<Entry>, n: nat, i: nat)
    requires DistinctNames(entries)
    requires n <= |entries| && i < |entries|
    ensures ComputedFor(Events(entries, n), entries[i].name)
      == if i < n && entries[i].opens then entries[i].hashes else []
  {
    ComputedInOrderWith(entries, FilePercents(|entries|), n, i);
  }

  /** Turn i reports `percents[i]`, and nothing else reports progress. */
  lemma {:induction false} ProgressValuesWith(entries: seq<Entry>, percents: seq<int>, n: nat)
    requires n <= |entries| && n <= |percents|
    ensures ProgressValues(EventsWith(entries, percents, n)) == percents[..n]
  {
    if n > 0 {
      ProgressValuesWith(entries, percents, n - 1);
      ProgressStep(entries, percents, n);
      assert percents[..n] == percents[..n - 1] + [percents[n - 1]];
    }
  }

  /** Turn i emits `(100 * (i + 1)) / size`, one value per started file. */
  lemma FileProgressValues(entries: seq<Entry>, n: nat)
    requires n <= |entries|
    ensures |ProgressValues(Events(entries, n))| == n
    ensures forall i :: 0 <= i < n ==> ProgressValues(Events(entries, n))[i] == Percent(i + 1, |entries|)
  {
    ProgressValuesWith(entries, FilePercents(|entries|), n);
  }

  /** Values that never decrease and stay within 0..100. */
  predicate RisingPercentages(p: seq<int>) {
    && (forall i, j :: 0 <= i < j < |p| ==> p[i] <= p[j])
    && (forall i :: 0 <= i < |p| ==> 0 <= p[i] <= 100)
  }

  /** The file percentages never decrease and never exceed 100; the last is
      100 exactly when every file was started. */
  lemma FileProgress(entries: seq<Entry>, n: nat)
    requires 0 < n <= |entries|
    ensures |ProgressValues(Events(entries, n))| == n
    ensures RisingPercentages(ProgressValues(Events(entries, n)))
    ensures ProgressValues(Events(entries, n))[n - 1] == 100 <==> n == |entries|
  {
    var p := ProgressValues(Events(entries, n));
    FileProgressValues(entries, n);
    forall i, j | 0 <= i < j < n
      ensures p[i] <= p[j]
    {
      PercentMonotone(i + 1, j + 1, |entries|);
    }
    forall i | 0 <= i < n
      ensures 0 <= p[i] <= 100
    {
      PercentBounded(i + 1, |entries|);
    }
    assert p[n - 1] == Percent(n, |entries|);
    PercentBounded(n, |entries|);
    HundredPercent(|entries|);
  }

  /** Every one of the first n files opened and rewound. */
  predicate AllOpened(entries: seq<Entry>, n: nat)
    requires n <= |entries|
  {
    forall i :: 0 <= i < n ==> entries[i].opens
  }

  /** `fileErrors` is empty exactly when every started file opened and
      rewound; otherwise the error dialog is shown. */
  lemma {:induction false} ErrorsIffFailure(entries: seq<Entry>, n: nat)
    requires n <= |entries|
    ensures Errors(entries, n) == "" <==> AllOpened(entries, n)
  {
    if n > 0 {
      ErrorsIffFailure(entries, n - 1);
      ErrorsStep(entries, n);
    }
  }

  /** One turn adds text exactly when its file fails. */
  lemma ErrorsStep(entries: seq<Entry>, n: nat)
    requires 0 < n <= |entries|
    requires Errors(entries, n - 1) == "" <==> AllOpened(entries, n - 1)
    ensures Errors(entries, n) == "" <==> AllOpened(entries, n)
  {
    var e := entries[n - 1];
    if e.opens {
      assert Errors(entries, n) == Errors(entries, n - 1) + "";
    } else {
      assert |Errors(entries, n)| >= |ErrorLine(e.name, e.errorString)| > 0;
    }
  }

  /** The text files `from` .. n-1 append to `fileErrors`. */
  function ErrorsFrom(entries: seq<Entry>, from: nat, n: nat): string
    requires from <= n <= |entries|
    decreases n
  {
    if n == from then "" else ErrorsFrom(entries, from, n - 1) + FileErrors(entries[n - 1])
  }

  /** The errors of n turns are those of the first `from` turns followed by
      those of the rest. */
  lemma {:induction false} ErrorsSplit(entries: seq<Entry>, from: nat, n: nat)
    requires from <= n <= |entries|
    ensures Errors(entries, n) == Errors(entries, from) + ErrorsFrom(entries, from, n)
    decreases n
  {
    if n > from {
      ErrorsSplit(entries, from, n - 1);
      var rest := FileErrors(entries[n - 1]);
      assert Errors(entries, n) == (Errors(entries, from) + ErrorsFrom(entries, from, n - 1)) + rest;
    }
  }

  /** A failed file adds its line and nothing else: the errors are those of
      the files before it, its line, then those of the files after it. */
  lemma ErrorLineOfFailedFile(entries: seq<Entry>, n: nat, i: nat)
    requires i < n <= |entries| && !entries[i].opens
    ensures Errors(entries, n)
      == Errors(entries, i) + ErrorLine(entries[i].name, entries[i].errorString) + ErrorsFrom(entries, i + 1, n)
  {
    ErrorsSplit(entries, i + 1, n);
    assert Errors(entries, i + 1) == Errors(entries, i) + ErrorLine(entries[i].name, entries[i].errorString);
  }

  /** After `abort()` no file starts: a run of an aborted thread emits
      nothing; and the file being processed when the flag is raised still
      gets every one of its hashes. */
  lemma AbortStopsBetweenFiles(t: Thread, abortAt: nat)
    requires DistinctNames(t.computations)
    ensures Started(Abort(t), abortAt) == 0 && Events(t.computations, 0) == []
    ensures 0 < abortAt <= |t.computations| && !t.abort ==>
      var last := t.computations[abortAt - 1];
      ComputedFor(Events(t.computations, Started(t, abortAt)), last.name)
        == if last.opens then last.hashes else []
  {
    if 0 < abortAt <= |t.computations| && !t.abort {
      ComputedInOrder(t.computations, abortAt, abortAt - 1);
    }
  }

  /** `run` leaves the map alone: `getResults` after it returns the map the
      constructor was given. */
  method RunThenGetResults(computations: seq<Entry>, abortAt: nat) returns (results: seq<Entry>)
    ensures results == computations
  {
    var r, _, _, _ := Run(New(computations), abortAt);
    results := GetResults(r);
  }

  /* ---------------- hashProgress ---------------- */

  /** C++ `int` division, which truncates toward zero. */
  function CDiv(a: int, b: int): int
    requires b > 0
  {
    if a >= 0 then a / b else -((-a) / b)
  }

  /** On non-negative operands truncation is Euclidean division. */
  lemma CDivOfNat(a: nat, b: int)
    requires b > 0
    ensures CDiv(a, b) == a / b
    ensures CDiv(a, b) >= 0
  {}

  /** `hashProgress(value)`: the files before the current one, the hashes
      before the current one, and the hash's own percentage, each scaled
      down to its share.  The caller is the current hash's `progress` signal,
      so the current index names a file and its list is not empty. */
  function HashProgress(t: Thread, value: int): int
    requires t.currentIndex < |t.computations|
    requires |t.computations[t.currentIndex].hashes| > 0
  {
    Overall(t.currentIndex, |t.computations|, t.hashIndex, |t.computations[t.currentIndex].hashes|, value)
  }

  /** `fileProgress + hashProgress + value / (filesSize * hashSize)` for file
      i of f and hash j of h, in `int` arithmetic. */
  function Overall(i: nat, f: nat, j: nat, h: nat, value: int): int
    requires f > 0 && h > 0
  {
    MulMonotone(1, h, f);
    CDiv(100 * i, f) + CDiv(100 * j, f * h) + CDiv(value, f * h)
  }

  /** With file i of F, hash j of H and a hash percentage v in 0..100, the
      overall percentage is in 0..100. */
  lemma HashProgressBounded(t: Thread, value: int)
    requires t.currentIndex < |t.computations|
    requires 0 < |t.computations[t.currentIndex].hashes|
    requires t.hashIndex < |t.computations[t.currentIndex].hashes|
    requires 0 <= value <= 100
    ensures 0 <= HashProgress(t, value) <= 100
  {
    OverallBounded(t.currentIndex, |t.computations|, t.hashIndex, |t.computations[t.currentIndex].hashes|, value);
  }

  lemma OverallBounded(i: nat, f: nat, j: nat, h: nat, value: int)
    requires i < f && j < h && 0 <= value <= 100
    ensures 0 <= Overall(i, f, j, h, value) <= 100
  {
    MulMonotone(1, h, f);
    CDivOfNat(100 * i, f);
    CDivOfNat(100 * j, f * h);
    CDivOfNat(value, f * h);
    ShareSum(i, f, j, h, value);
  }

  /** The arithmetic of the bound: with N = F * H,
      ⌊100i/F⌋·N + ⌊100j/N⌋·N + ⌊v/N⌋·N <= 100iH + 100j + 100 <= 100H(i+1) <= 100N. */
  lemma ShareSum(i: nat, f: nat, j: nat, h: nat, v: nat)
    requires i < f && j < h && v <= 100
    ensures (100 * i) / f + (100 * j) / (f * h) + v / (f * h) <= 100
  {
    var n := f * h;
    MulMonotone(1, h, f);
    var a, b, c := (100 * i) / f, (100 * j) / n, v / n;
    FloorBelow(100 * i, f);
    FloorBelow(100 * j, n);
    FloorBelow(v, n);
    Scale(a, f, h, 100 * i);
    Budget(i, f, j, h);
    SumOfShares(a, b, c, n);
  }

  lemma FloorBelow(x: nat, d: nat)
    requires d > 0
    ensures (x / d) * d <= x
  {}

  lemma Scale(a: nat, f: nat, h: nat, x: nat)
    requires a * f <= x
    ensures a * (f * h) <= x * h
  {
    MulMonotone(a * f, x, h);
  }

  /** 100iH + 100j + 100 <= 100H(i + 1) <= 100FH. */
  lemma Budget(i: nat, f: nat, j: nat, h: nat)
    requires i < f && j < h
    ensures (100 * i) * h + 100 * j + 100 <= 100 * (f * h)
  {
    MulMonotone(i + 1, f, 100 * h);
  }

  lemma SumOfShares(a: nat, b: nat, c: nat, n: nat)
    requires n > 0
    requires a * n + b * n + c * n <= 100 * n
    ensures a + b + c <= 100
  {
    if a + b + c > 100 {
      MulMonotone(101, a + b + c, n);
    }
  }
}
