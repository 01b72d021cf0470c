/** The S-box generation of hash/tiger.cpp (`generate_table`): the 1024-word
    table is viewed as 8192 bytes (four S-boxes of 256 rows of 8 bytes), filled
    with the row numbers, and then shuffled by byte swaps whose partners are
    read from a copy of the chaining words taken before the shuffle starts. */
module TigerTable {
  import opened Bytes
  import TigerCore

  /* ---------------- The byte view of the table ---------------- */

  /** `tiger_table` as the compression reads it: word i is bytes 8i..8i+7,
      least significant first (the x86 layout of `unsigned long long`). */
  function Words(t: seq<bv8>): (w: seq<bv64>)
    requires |t| == 8192
    ensures |w| == 1024
    ensures forall i :: 0 <= i < 1024 ==> w[i] == LE64(t, 8 * i)
  {
    LE64Words(t, 1024)
  }

  /** The position of byte `col` of row `row` of S-box `box` in the byte view. */
  function Index(box: nat, row: nat, col: nat): nat {
    8 * (256 * box + row) + col
  }

  /** Column `col` of S-box `box`: byte `col` of each of its 256 rows. */
  function Column(t: seq<bv8>, box: nat, col: nat): (c: seq<bv8>)
    requires |t| == 8192 && box < 4 && col < 8
    ensures |c| == 256
    ensures forall r :: 0 <= r < 256 ==> c[r] == t[Index(box, r, col)]
  {
    seq(256, r requires 0 <= r < 256 => t[Index(box, r, col)])
  }

  /** The bytes 0, 1, ..., 255 in order. */
  function Identity(): (s: seq<bv8>)
    ensures |s| == 256
  {
    seq(256, r requires 0 <= r < 256 => r as bv8)
  }

  /** Every column of every S-box holds each byte value exactly once. */
  predicate ColumnsArePermutations(t: seq<bv8>)
    requires |t| == 8192
  {
    forall box, col :: 0 <= box < 4 && 0 <= col < 8 ==> multiset(Column(t, box, col)) == multiset(Identity())
  }

  /* ---------------- The fill and the swaps ---------------- */

  /** The fill loop: every byte of row r (of the 1024) is `r & 0xFF`. */
  function InitialFill(): (t: seq<bv8>)
    ensures |t| == 8192
  {
    seq(8192, i requires 0 <= i < 8192 => ((i / 8) % 256) as bv8)
  }

  /** The exchange through `temp_char`; `i == j` leaves the table as it was. */
  function Swap(t: seq<bv8>, i: nat, j: nat): (r: seq<bv8>)
    requires i < |t| && j < |t|
    ensures |r| == |t|
  {
    t[i := t[j]][j := t[i]]
  }

  /** The column loop of one step, after its first `n` iterations: for each
      column k < n, byte k of row `row` is exchanged with byte k of row
      `key[k]`, both in S-box `box`. */
  function SwapColumns(t: seq<bv8>, box: nat, row: nat, key: seq<bv8>, n: nat): (r: seq<bv8>)
    requires |t| == 8192 && box < 4 && row < 256 && |key| == 8 && n <= 8
    ensures |r| == 8192
  {
    if n == 0 then t
    else
      var u := SwapColumns(t, box, row, key, n - 1);
      Swap(u, Index(box, row, n - 1), Index(box, key[n - 1] as nat, n - 1))
  }

  /** The swap partners: the 24 bytes of the local copy `hash` of A, B, C,
      each word least significant byte first. */
  function StateChars(s: TigerCore.State): (k: seq<bv8>)
    ensures |k| == 24
    ensures k[..8] == LE64Bytes(s.a) && k[8..16] == LE64Bytes(s.b) && k[16..] == LE64Bytes(s.c)
  {
    LE64Bytes(s.a) + LE64Bytes(s.b) + LE64Bytes(s.c)
  }

  /** Step n of the generation (n counts the innermost `sb` iterations over all
      passes): S-box n mod 4, row (n / 4) mod 256, and the partner rows from
      word n mod 3 of `keys` (the value `abc` has after its increment). */
  function Step(t: seq<bv8>, keys: seq<bv8>, n: nat): (r: seq<bv8>)
    requires |t| == 8192 && |keys| == 24
    ensures |r| == 8192
  {
    var w := n % 3;
    SwapColumns(t, n % 4, (n / 4) % 256, keys[8 * w .. 8 * w + 8], 8)
  }

  /** The table after the first `n` steps. */
  function Generated(keys: seq<bv8>, n: nat): (t: seq<bv8>)
    requires |keys| == 24
    ensures |t| == 8192
  {
    if n == 0 then InitialFill() else Step(Generated(keys, n - 1), keys, n - 1)
  }

  /* ---------------- Permutation invariant ---------------- */

  /** Exchanging two entries keeps the multiset of a sequence. */
  lemma SwapPermutes(s: seq<bv8>, i: nat, j: nat)
    requires i < |s| && j < |s|
    ensures multiset(Swap(s, i, j)) == multiset(s)
  {
    var u := s[i := s[j]];
    assert multiset(u) == multiset(s) - multiset{s[i]} + multiset{s[j]};
    assert multiset(u[j := s[i]]) == multiset(u) - multiset{u[j]} + multiset{s[i]};
  }

  /** The fill makes every column the identity. */
  lemma InitialColumnsAreIdentity(box: nat, col: nat)
    requires box < 4 && col < 8
    ensures Column(InitialFill(), box, col) == Identity()
  {
    forall r | 0 <= r < 256
      ensures Column(InitialFill(), box, col)[r] == Identity()[r]
    {
      var i := Index(box, r, col);
      assert i / 8 == 256 * box + r;
      assert (256 * box + r) % 256 == r;
    }
  }

  lemma InitialColumnsArePermutations()
    ensures ColumnsArePermutations(InitialFill())
  {
    forall box, col | 0 <= box < 4 && 0 <= col < 8
      ensures multiset(Column(InitialFill(), box, col)) == multiset(Identity())
    {
      InitialColumnsAreIdentity(box, col);
    }
  }

  /** A swap within column `col` of S-box `box` exchanges two entries of that
      column ... */
  lemma SwapInSameColumn(t: seq<bv8>, box: nat, col: nat, r1: nat, r2: nat)
    requires |t| == 8192 && box < 4 && col < 8 && r1 < 256 && r2 < 256
    ensures Column(Swap(t, Index(box, r1, col), Index(box, r2, col)), box, col) == Swap(Column(t, box, col), r1, r2)
  {
    var u := Swap(t, Index(box, r1, col), Index(box, r2, col));
    var c := Column(t, box, col);
    forall r | 0 <= r < 256
      ensures Column(u, box, col)[r] == Swap(c, r1, r2)[r]
    {
      assert Index(box, r, col) == Index(box, r1, col) <==> r == r1;
      assert Index(box, r, col) == Index(box, r2, col) <==> r == r2;
    }
  }

  /** ... and leaves every other column unchanged. */
  lemma SwapElsewhere(t: seq<bv8>, box: nat, col: nat, r1: nat, r2: nat, box': nat, col': nat)
    requires |t| == 8192 && box < 4 && col < 8 && r1 < 256 && r2 < 256
    requires box' < 4 && col' < 8 && (box', col') != (box, col)
    ensures Column(Swap(t, Index(box, r1, col), Index(box, r2, col)), box', col') == Column(t, box', col')
  {
    var u := Swap(t, Index(box, r1, col), Index(box, r2, col));
    forall r | 0 <= r < 256
      ensures Column(u, box', col')[r] == Column(t, box', col')[r]
    {
      IndexInjective(box', r, col', box, r1, col);
      IndexInjective(box', r, col', box, r2, col);
    }
  }

  /** Distinct positions of the 4 x 256 x 8 layout have distinct indices. */
  lemma IndexInjective(b1: nat, r1: nat, c1: nat, b2: nat, r2: nat, c2: nat)
    requires r1 < 256 && c1 < 8 && r2 < 256 && c2 < 8
    ensures Index(b1, r1, c1) == Index(b2, r2, c2) ==> b1 == b2 && r1 == r2 && c1 == c2
  {
    if Index(b1, r1, c1) == Index(b2, r2, c2) {
      assert c1 == Index(b1, r1, c1) % 8;
      assert c2 == Index(b2, r2, c2) % 8;
      assert 256 * b1 + r1 == 256 * b2 + r2;
    }
  }

  /** The swaps of one step keep every column a permutation. */
  lemma {:induction false} SwapColumnsPermute(t: seq<bv8>, box: nat, row: nat, key: seq<bv8>, n: nat)
    requires |t| == 8192 && box < 4 && row < 256 && |key| == 8 && n <= 8
    requires ColumnsArePermutations(t)
    ensures ColumnsArePermutations(SwapColumns(t, box, row, key, n))
  {
    if n > 0 {
      SwapColumnsPermute(t, box, row, key, n - 1);
      var u := SwapColumns(t, box, row, key, n - 1);
      var v := SwapColumns(t, box, row, key, n);
      forall box', col' | 0 <= box' < 4 && 0 <= col' < 8
        ensures multiset(Column(v, box', col')) == multiset(Identity())
      {
        if box' == box && col' == n - 1 {
          SwapInSameColumn(u, box, n - 1, row, key[n - 1] as nat);
          SwapPermutes(Column(u, box, n - 1), row, key[n - 1] as nat);
        } else {
          SwapElsewhere(u, box, n - 1, row, key[n - 1] as nat, box', col');
        }
      }
    }
  }

  /** The generated table, after any number of steps, has every column of
      every S-box a permutation of 0..255. */
  lemma {:induction false} GeneratedColumnsArePermutations(keys: seq<bv8>, n: nat)
    requires |keys| == 24
    ensures ColumnsArePermutations(Generated(keys, n))
  {
    if n == 0 {
      InitialColumnsArePermutations();
    } else {
      GeneratedColumnsArePermutations(keys, n - 1);
      var w := (n - 1) % 3;
      SwapColumnsPermute(Generated(keys, n - 1), (n - 1) % 4, ((n - 1) / 4) % 256, keys[8 * w .. 8 * w + 8], 8);
    }
  }

  /* ---------------- generate_table as the C++ writes it ---------------- */

  /** Step n of pass `pass`, row `row`, S-box `box` is at that S-box and row
      in the schedule of `Step`. */
  lemma StepPosition(n: nat, pass: nat, row: nat, box: nat)
    requires row < 256 && box < 4 && n == 1024 * pass + 4 * row + box
    ensures n % 4 == box && (n / 4) % 256 == row
  {
    assert n == 4 * (256 * pass + row) + box;
    assert n / 4 == 256 * pass + row;
  }

  /** `sb` runs over the first rows of the four S-boxes. */
  lemma SubBoxStart(sb: nat, box: nat)
    requires sb == 256 * box
    ensures sb % 256 == 0 && sb / 256 == box
  {}

  /** One more step of `Generated`, with its schedule given. */
  lemma GeneratedStep(keys: seq<bv8>, n: nat, box: nat, row: nat, w: nat)
    requires |keys| == 24 && n % 4 == box && (n / 4) % 256 == row && n % 3 == w
    ensures Generated(keys, n + 1) == SwapColumns(Generated(keys, n), box, row, keys[8 * w .. 8 * w + 8], 8)
  {}

  /** `abc` before and after its increment, and the count of compressions,
      in terms of the step number. */
  lemma Counter(n: nat)
    ensures (n + 2) % 3 + 1 == (if n % 3 == 0 then 3 else n % 3)
    ensures (n + 1 + 2) % 3 == n % 3
    ensures (n + 1 + 2) / 3 == (n + 2) / 3 + (if n % 3 == 0 then 1 else 0)
  {}

  /** `++abc; if (abc == 3) abc = 0;`: with `abc` tracking step n as
      (n + 2) mod 3 before the increment, it is n mod 3 after. */
  method Advance(abc: nat, ghost n: nat) returns (next: nat)
    requires abc == (n + 2) % 3
    ensures next == n % 3
  {
    Counter(n);
    next := abc + 1;
    if next == 3 {
      next := 0;
    }
  }

  /** The fill loop. */
  method FillTable() returns (t: seq<bv8>)
    ensures t == InitialFill()
  {
    t := Zeros(8192);
    for row := 0 to 1024
      invariant |t| == 8192
      invariant forall i :: 0 <= i < 8 * row ==> t[i] == InitialFill()[i]
    {
      for column := 0 to 8
        invariant |t| == 8192
        invariant forall i :: 0 <= i < 8 * row + column ==> t[i] == InitialFill()[i]
      {
        t := t[8 * row + column := (row % 256) as bv8];
      }
    }
  }

  /** The column loop of one step, on S-box `sb / 256`, row `row`, with the
      partner rows taken from word `abc` of `keys`. */
  method SwapRow(t: seq<bv8>, keys: seq<bv8>, sb: nat, row: nat, abc: nat) returns (r: seq<bv8>)
    requires |t| == 8192 && |keys| == 24 && sb % 256 == 0 && sb < 1024 && row < 256 && abc < 3
    ensures r == SwapColumns(t, sb / 256, row, keys[8 * abc .. 8 * abc + 8], 8)
  {
    r := t;
    for column := 0 to 8
      invariant r == SwapColumns(t, sb / 256, row, keys[8 * abc .. 8 * abc + 8], column)
    {
      var i := 8 * (sb + row) + column;
      var j := 8 * (sb + keys[8 * abc + column] as nat) + column;
      var temp := r[i];
      r := r[i := r[j]];
      r := r[j := temp];
    }
  }

  /** The body of the `sb` loop: advance `abc`, compress when it wraps, swap
      the eight columns.  Step `n` of `Generated` in terms of the loop
      variables. */
  method GenerationStep(t: seq<bv8>, after: TigerCore.State, abc: nat, compressions: nat,
                        keys: seq<bv8>, message: seq<bv8>, sb: nat, row: nat,
                        ghost n: nat, ghost pass: nat, ghost box: nat)
    returns (t': seq<bv8>, after': TigerCore.State, abc': nat, compressions': nat)
    requires |keys| == 24 && |message| == 64
    requires t == Generated(keys, n)
    requires abc == (n + 2) % 3 && compressions == (n + 2) / 3
    requires sb == 256 * box && box < 4 && row < 256 && n == 1024 * pass + 4 * row + box
    ensures t' == Generated(keys, n + 1)
    ensures abc' == (n + 1 + 2) % 3 && compressions' == (n + 1 + 2) / 3
  {
    Counter(n);
    abc' := Advance(abc, n);
    after', compressions' := after, compressions;
    if abc' == 0 {
      after' := TigerCore.ProcessBlock(Words(t), after, message);
      compressions' := compressions + 1;
    }
    StepPosition(n, pass, row, box);
    GeneratedStep(keys, n, box, row, abc');
    SubBoxStart(sb, box);
    t' := SwapRow(t, keys, sb, row, abc');
  }

  /** `generate_table(message, passes)` run on the chaining words `s`: the fill
      loop, then `passes` rounds of 256 rows times 4 S-boxes, each step first
      advancing `abc` (and compressing `message` with the table as it stands
      whenever `abc` wraps to 0), then swapping the eight columns.  Returns the
      table, the chaining words after those compressions, and their number.
      The table depends only on `s`: the partners come from the copy taken
      before any compression, so neither `message` nor the compressions
      influence it. */
  method GenerateTable(s: TigerCore.State, message: seq<bv8>, passes: nat)
    returns (t: seq<bv8>, after: TigerCore.State, compressions: nat)
    requires |message| == 64
    ensures t == Generated(StateChars(s), 1024 * passes)
    ensures ColumnsArePermutations(t)
    ensures compressions == (1024 * passes + 2) / 3
  {
    var keys := StateChars(s);
    after := s;
    t := FillTable();

    var abc := 2;
    compressions := 0;
    ghost var step := 0;
    for pass := 0 to passes
      invariant step == 1024 * pass
      invariant t == Generated(keys, step)
      invariant abc == (step + 2) % 3 && compressions == (step + 2) / 3
    {
      for row := 0 to 256
        invariant step == 1024 * pass + 4 * row
        invariant t == Generated(keys, step)
        invariant abc == (step + 2) % 3 && compressions == (step + 2) / 3
      {
        var sb := 0;
        ghost var box := 0;
        while sb < 1024
          invariant sb == 256 * box && box <= 4
          invariant step == 1024 * pass + 4 * row + box
          invariant t == Generated(keys, step)
          invariant abc == (step + 2) % 3 && compressions == (step + 2) / 3
        {
          t, after, abc, compressions := GenerationStep(t, after, abc, compressions, keys, message, sb, row, step, pass, box);
          sb := sb + 256;
          box := box + 1;
          step := step + 1;
        }
      }
    }
    GeneratedColumnsArePermutations(keys, 1024 * passes);
  }
}
