/** The text form of a digest.  Every `value()` in the source builds its result
    with `QString("%1 %2 ...").arg(word, width, 16, QChar('0'))`: each word in
    lowercase hexadecimal without leading zeros, left-padded with '0' up to a
    MINIMUM width, the fields separated by the literal characters of the
    format string.  This module models that rendering and gives it an inverse. */
module Hex {
  import opened Arith

  const Alphabet: string := "0123456789abcdef"

  function Pow16(k: nat): (r: nat)
    ensures r >= 1
  {
    if k == 0 then 1 else 16 * Pow16(k - 1)
  }

  /** The ranges of the 16-, 32- and 64-bit word types in hex digits. */
  lemma Pow16Widths()
    ensures Pow16(4) == 0x1_0000
    ensures Pow16(8) == 0x1_0000_0000
    ensures Pow16(16) == 0x1_0000_0000_0000_0000
  {
    assert Pow16(4) == 0x1_0000 by {
      assert Pow16(1) == 16;
      assert Pow16(2) == 0x100;
      assert Pow16(3) == 0x1000;
    }
    assert Pow16(8) == 0x1_0000_0000 by {
      assert Pow16(5) == 0x10_0000;
      assert Pow16(6) == 0x100_0000;
      assert Pow16(7) == 0x1000_0000;
    }
    assert Pow16(12) == 0x1_0000_0000_0000 by {
      assert Pow16(9) == 0x10_0000_0000;
      assert Pow16(10) == 0x100_0000_0000;
      assert Pow16(11) == 0x1000_0000_0000;
    }
    assert Pow16(16) == 0x1_0000_0000_0000_0000 by {
      assert Pow16(13) == 0x10_0000_0000_0000;
      assert Pow16(14) == 0x100_0000_0000_0000;
      assert Pow16(15) == 0x1000_0000_0000_0000;
    }
  }

  predicate IsHexDigit(c: char) {
    ('0' <= c <= '9') || ('a' <= c <= 'f')
  }

  predicate IsSeparator(c: char) {
    c == ' ' || c == '\n'
  }

  function Digit(d: nat): (c: char)
    requires d < 16
    ensures IsHexDigit(c)
    ensures DigitValue(c) == d
  {
    Alphabet[d]
  }

  function DigitValue(c: char): nat {
    if '0' <= c <= '9' then (c as int) - ('0' as int)
    else if 'a' <= c <= 'f' then (c as int) - ('a' as int) + 10
    else 0
  }

  /** The number a string of hex digits denotes (most significant digit first). */
  function Parse(s: string): nat
    decreases |s|
  {
    if s == [] then 0 else 16 * Parse(s[..|s| - 1]) + DigitValue(s[|s| - 1])
  }

  /** `QString::number(n, 16)`: lowercase digits, no leading zero, "0" for zero. */
  function Digits(n: nat): (r: string)
    ensures 1 <= |r|
    ensures forall i :: 0 <= i < |r| ==> IsHexDigit(r[i])
    ensures Parse(r) == n
    ensures n > 0 ==> r[0] != '0'
    decreases n
  {
    if n < 16 then [Digit(n)]
    else
      var hi := Digits(n / 16);
      var r := hi + [Digit(n % 16)];
      assert r[..|r| - 1] == hi;
      r
  }

  function Repeat(c: char, k: nat): (r: string)
    ensures |r| == k
    ensures forall i :: 0 <= i < k ==> r[i] == c
  {
    seq(k, _ => c)
  }

  lemma {:induction false} ParseZeros(k: nat)
    ensures Parse(Repeat('0', k)) == 0
  {
    if k > 0 {
      assert Repeat('0', k)[..k - 1] == Repeat('0', k - 1);
      ParseZeros(k - 1);
    }
  }

  /** Leading zeros do not change the value. */
  lemma {:induction false} ParseLeadingZeros(k: nat, s: string)
    ensures Parse(Repeat('0', k) + s) == Parse(s)
    decreases |s|
  {
    if s == [] {
      assert Repeat('0', k) + s == Repeat('0', k);
      ParseZeros(k);
    } else {
      var t := Repeat('0', k) + s;
      assert t[..|t| - 1] == Repeat('0', k) + s[..|s| - 1];
      ParseLeadingZeros(k, s[..|s| - 1]);
    }
  }

  /** `QString::arg(n, width, 16, QChar('0'))`: the digits of `n`, padded on the
      left with '0' to at least `width` characters; never truncated. */
  function Field(n: nat, width: nat): (r: string)
    ensures |r| == if width > |Digits(n)| then width else |Digits(n)|
    ensures forall i :: 0 <= i < |r| ==> IsHexDigit(r[i])
    ensures Parse(r) == n
  {
    var d := Digits(n);
    var pad := if width > |d| then width - |d| else 0;
    ParseLeadingZeros(pad, d);
    Repeat('0', pad) + d
  }

  /** A number below 16^k needs at most k digits. */
  lemma {:induction false} DigitsAtMost(n: nat, k: nat)
    requires 1 <= k && n < Pow16(k)
    ensures |Digits(n)| <= k
    decreases k
  {
    if n >= 16 {
      assert Pow16(k) == 16 * Pow16(k - 1);
      assert k >= 2;
      assert n / 16 < Pow16(k - 1);
      DigitsAtMost(n / 16, k - 1);
    }
  }

  /** A number of at least 16^k needs more than k digits. */
  lemma {:induction false} DigitsAtLeast(n: nat, k: nat)
    requires Pow16(k) <= n
    ensures |Digits(n)| > k
    decreases k
  {
    if k > 0 {
      assert n >= 16;
      assert Pow16(k - 1) <= n / 16;
      DigitsAtLeast(n / 16, k - 1);
    }
  }

  /** A field whose width covers every value of the word type is fixed-width. */
  lemma FieldFixedWidth(n: nat, k: nat)
    requires 1 <= k && n < Pow16(k)
    ensures |Field(n, k)| == k
  {
    DigitsAtMost(n, k);
  }

  /** The fields joined by the separator characters of the format string. */
  function Join(fields: seq<string>, seps: seq<char>): (r: string)
    requires |fields| == |seps| + 1
    decreases |seps|
  {
    if seps == [] then fields[0]
    else fields[0] + [seps[0]] + Join(fields[1..], seps[1..])
  }

  /** Cuts a string at every separator character. */
  function Split(s: string): (r: seq<string>)
    ensures |r| >= 1
    decreases |s|
  {
    if s == [] then [""]
    else
      var rest := Split(s[1..]);
      if IsSeparator(s[0]) then [""] + rest
      else [[s[0]] + rest[0]] + rest[1..]
  }

  predicate NoSeparator(f: string) {
    forall i :: 0 <= i < |f| ==> !IsSeparator(f[i])
  }

  lemma {:induction false} SplitPrefix(f: string, rest: string)
    requires NoSeparator(f)
    ensures Split(f + rest) == [f + Split(rest)[0]] + Split(rest)[1..]
    decreases |f|
  {
    if f != [] {
      var s := f + rest;
      assert s[0] == f[0] && !IsSeparator(s[0]);
      assert s[1..] == f[1..] + rest;
      SplitPrefix(f[1..], rest);
      var r := Split(s[1..]);
      assert Split(s) == [[f[0]] + r[0]] + r[1..];
      assert [f[0]] + (f[1..] + Split(rest)[0]) == f + Split(rest)[0];
    } else {
      assert f + rest == rest;
      var r := Split(rest);
      assert f + r[0] == r[0];
      assert [r[0]] + r[1..] == r;
    }
  }

  /** Splitting a joined string gives the fields back. */
  lemma {:induction false} SplitJoin(fields: seq<string>, seps: seq<char>)
    requires |fields| == |seps| + 1
    requires forall i :: 0 <= i < |fields| ==> NoSeparator(fields[i])
    requires forall i :: 0 <= i < |seps| ==> IsSeparator(seps[i])
    ensures Split(Join(fields, seps)) == fields
    decreases |seps|
  {
    if seps == [] {
      SplitPrefix(fields[0], "");
      assert fields[0] + "" == fields[0];
    } else {
      var rest := Join(fields[1..], seps[1..]);
      SplitJoin(fields[1..], seps[1..]);
      assert fields[0] + [seps[0]] + rest == fields[0] + ([seps[0]] + rest);
      SplitPrefix(fields[0], [seps[0]] + rest);
      assert ([seps[0]] + rest)[1..] == rest;
      assert Split([seps[0]] + rest) == [""] + Split(rest);
      assert fields[0] + "" == fields[0];
      assert [fields[0]] + fields[1..] == fields;
    }
  }

  /** A digest rendering: each word as a `Field` of the given width. */
  function Render(words: seq<nat>, width: nat, seps: seq<char>): string
    requires |words| == |seps| + 1
  {
    Join(seq(|words|, i requires 0 <= i < |words| => Field(words[i], width)), seps)
  }

  lemma {:induction false} JoinLength(fields: seq<string>, seps: seq<char>, w: nat)
    requires |fields| == |seps| + 1
    requires forall i :: 0 <= i < |fields| ==> |fields[i]| == w
    ensures |Join(fields, seps)| == |fields| * w + |seps|
    decreases |seps|
  {
    if seps != [] {
      JoinLength(fields[1..], seps[1..], w);
    }
  }

  /** When every word fits in `width` digits, the rendering has a fixed length:
      `width` characters per word plus one per separator. */
  lemma RenderFixedWidth(words: seq<nat>, width: nat, seps: seq<char>)
    requires |words| == |seps| + 1 && 1 <= width
    requires forall i :: 0 <= i < |words| ==> words[i] < Pow16(width)
    ensures |Render(words, width, seps)| == |words| * width + |seps|
  {
    var fields := seq(|words|, i requires 0 <= i < |words| => Field(words[i], width));
    forall i | 0 <= i < |fields| ensures |fields[i]| == width {
      FieldFixedWidth(words[i], width);
    }
    JoinLength(fields, seps, width);
  }

  /** Reads a rendering back: split at separators, parse each piece. */
  function Decode(s: string): (r: seq<nat>)
    ensures |r| == |Split(s)|
  {
    var parts := Split(s);
    seq(|parts|, i requires 0 <= i < |parts| => Parse(parts[i]))
  }

  /** Rendering loses nothing: decoding a rendering gives back the words, for
      every width and every choice of separators. */
  lemma RenderDecodes(words: seq<nat>, width: nat, seps: seq<char>)
    requires |words| == |seps| + 1
    requires forall i :: 0 <= i < |seps| ==> IsSeparator(seps[i])
    ensures Decode(Render(words, width, seps)) == words
  {
    var fields := seq(|words|, i requires 0 <= i < |words| => Field(words[i], width));
    forall i | 0 <= i < |fields| ensures NoSeparator(fields[i]) {
      assert forall j :: 0 <= j < |fields[i]| ==> IsHexDigit(fields[i][j]);
    }
    SplitJoin(fields, seps);
  }

  /** A rendering whose words all fit in `width` digits: `width` characters per
      word plus one per separator, and it decodes to the words. */
  lemma RenderWords(words: seq<nat>, width: nat, seps: seq<char>)
    requires |words| == |seps| + 1 && 1 <= width
    requires forall i :: 0 <= i < |words| ==> words[i] < Pow16(width)
    requires forall i :: 0 <= i < |seps| ==> IsSeparator(seps[i])
    ensures |Render(words, width, seps)| == |words| * width + |seps|
    ensures Decode(Render(words, width, seps)) == words
  {
    RenderFixedWidth(words, width, seps);
    RenderDecodes(words, width, seps);
  }
  lemma {:induction false} JoinLengthBounds(fields: seq<string>, seps: seq<char>, lo: nat, hi: nat)
    requires |fields| == |seps| + 1
    requires forall i :: 0 <= i < |fields| ==> lo <= |fields[i]| <= hi
    ensures |fields| * lo + |seps| <= |Join(fields, seps)| <= |fields| * hi + |seps|
    decreases |seps|
  {
    if seps != [] {
      var n := |fields| - 1;
      var rest := Join(fields[1..], seps[1..]);
      JoinLengthBounds(fields[1..], seps[1..], lo, hi);
      assert |Join(fields, seps)| == |fields[0]| + 1 + |rest|;
      MulSucc(n, lo);
      MulSucc(n, hi);
    }
  }

  /** A minimum width below the word size: each word takes between `width` and
      `k` characters, so the length of the rendering depends on the words; it
      still decodes to them. */
  lemma RenderMinimumWidth(words: seq<nat>, width: nat, seps: seq<char>, k: nat)
    requires |words| == |seps| + 1 && 1 <= width <= k
    requires forall i :: 0 <= i < |words| ==> words[i] < Pow16(k)
    requires forall i :: 0 <= i < |seps| ==> IsSeparator(seps[i])
    ensures |words| * width + |seps| <= |Render(words, width, seps)| <= |words| * k + |seps|
    ensures Decode(Render(words, width, seps)) == words
  {
    var fields := seq(|words|, i requires 0 <= i < |words| => Field(words[i], width));
    forall i | 0 <= i < |fields| ensures width <= |fields[i]| <= k {
      DigitsAtMost(words[i], k);
    }
    JoinLengthBounds(fields, seps, width, k);
    RenderDecodes(words, width, seps);
  }

  /** Words that all need exactly `k` digits take `k` characters each, whatever
      smaller minimum width is asked for. */
  lemma RenderFullWords(words: seq<nat>, width: nat, seps: seq<char>, k: nat)
    requires |words| == |seps| + 1 && width <= k && 1 <= k
    requires forall i :: 0 <= i < |words| ==> Pow16(k - 1) <= words[i] < Pow16(k)
    ensures |Render(words, width, seps)| == |words| * k + |seps|
  {
    var fields := seq(|words|, i requires 0 <= i < |words| => Field(words[i], width));
    forall i | 0 <= i < |fields| ensures |fields[i]| == k {
      DigitsAtMost(words[i], k);
      DigitsAtLeast(words[i], k - 1);
    }
    JoinLength(fields, seps, k);
  }
  lemma {:induction false} JoinSeparatorAt(fields: seq<string>, seps: seq<char>, w: nat, k: nat)
    requires |fields| == |seps| + 1 && k < |seps|
    requires forall i :: 0 <= i < |fields| ==> |fields[i]| == w
    ensures |fields| * w + |seps| == |Join(fields, seps)|
    ensures (k + 1) * w + k < |Join(fields, seps)|
    ensures Join(fields, seps)[(k + 1) * w + k] == seps[k]
    decreases k
  {
    JoinLength(fields, seps, w);
    MulMonotone(k + 1, |fields|, w);
    var rest := Join(fields[1..], seps[1..]);
    assert Join(fields, seps) == fields[0] + [seps[0]] + rest;
    if k > 0 {
      JoinSeparatorAt(fields[1..], seps[1..], w, k - 1);
      MulSucc(k, w);
    }
  }

  /** Where separator k sits when every field is `width` characters. */
  function SeparatorIndex(k: nat, width: nat): nat {
    (k + 1) * width + k
  }

  /** In a fixed-width rendering, separator k sits right after the (k+1)-th
      field: at index (k+1)·width + k. */
  lemma RenderSeparatorAt(words: seq<nat>, width: nat, seps: seq<char>, k: nat)
    requires |words| == |seps| + 1 && 1 <= width && k < |seps|
    requires forall i :: 0 <= i < |words| ==> words[i] < Pow16(width)
    ensures |Render(words, width, seps)| == |words| * width + |seps|
    ensures SeparatorIndex(k, width) < |Render(words, width, seps)|
    ensures Render(words, width, seps)[SeparatorIndex(k, width)] == seps[k]
  {
    var fields := seq(|words|, i requires 0 <= i < |words| => Field(words[i], width));
    forall i | 0 <= i < |fields| ensures |fields[i]| == width {
      FieldFixedWidth(words[i], width);
    }
    JoinSeparatorAt(fields, seps, width, k);
  }

  /* ---------------- The exact shape of a rendering ---------------- */

  /** A field as `arg(n, width, 16, QChar('0'))` writes it: hex digits only,
      at least `width` of them, and a leading '0' only when it is padding
      (the field is no longer than the width). */
  predicate Canonical(f: string, width: nat) {
    && 1 <= width <= |f|
    && AllHex(f)
    && (|f| > width ==> f[0] != '0')
  }

  /** `s` is the text of `words` in the format with minimum field width
      `width` and separator characters `seps`: cut at its separators it has
      one piece per word, the pieces joined by exactly `seps` in order give
      `s` back, and piece i is a canonical field whose value is word i. */
  predicate Shows(s: string, words: seq<nat>, width: nat, seps: seq<char>) {
    var pieces := Split(s);
    && |pieces| == |words| == |seps| + 1
    && Join(pieces, seps) == s
    && (forall i :: 0 <= i < |pieces| ==> Canonical(pieces[i], width) && Parse(pieces[i]) == words[i])
  }

  lemma DigitOfValue(c: char)
    requires IsHexDigit(c)
    ensures Digit(DigitValue(c)) == c
  {
    if c == '0' {} else if c == '1' {} else if c == '2' {} else if c == '3' {}
    else if c == '4' {} else if c == '5' {} else if c == '6' {} else if c == '7' {}
    else if c == '8' {} else if c == '9' {} else if c == 'a' {} else if c == 'b' {}
    else if c == 'c' {} else if c == 'd' {} else if c == 'e' {} else {}
  }

  predicate AllHex(s: string) {
    forall i :: 0 <= i < |s| ==> IsHexDigit(s[i])
  }

  lemma ParseLast(s: string)
    requires 1 <= |s| && AllHex(s)
    ensures AllHex(s[..|s| - 1]) && IsHexDigit(s[|s| - 1])
    ensures DigitValue(s[|s| - 1]) < 16
    ensures Parse(s) / 16 == Parse(s[..|s| - 1])
    ensures Parse(s) % 16 == DigitValue(s[|s| - 1])
  {}

  /** k hex digits denote a number below 16^k. */
  lemma {:induction false} ParseBelow(s: string)
    requires AllHex(s)
    ensures Parse(s) < Pow16(|s|)
    decreases |s|
  {
    if s != [] {
      ParseLast(s);
      ParseBelow(s[..|s| - 1]);
    }
  }

  /** k hex digits without a leading '0' denote at least 16^(k-1). */
  lemma {:induction false} ParseAtLeast(s: string)
    requires 1 <= |s| && AllHex(s) && s[0] != '0'
    ensures Pow16(|s| - 1) <= Parse(s)
    decreases |s|
  {
    ParseLast(s);
    if |s| > 1 {
      ParseAtLeast(s[..|s| - 1]);
    }
  }

  /** Two equally long strings of hex digits with the same value are equal. */
  lemma {:induction false} ParseInjective(a: string, b: string)
    requires AllHex(a) && AllHex(b) && |a| == |b| && Parse(a) == Parse(b)
    ensures a == b
    decreases |a|
  {
    if a != [] {
      ParseLast(a);
      ParseLast(b);
      ParseInjective(a[..|a| - 1], b[..|b| - 1]);
      DigitOfValue(a[|a| - 1]);
      DigitOfValue(b[|b| - 1]);
      assert a == a[..|a| - 1] + [a[|a| - 1]];
      assert b == b[..|b| - 1] + [b[|b| - 1]];
    }
  }

  /** Of two canonical fields of one width, the longer has the larger value. */
  lemma LongerIsLarger(s: string, t: string, width: nat)
    requires Canonical(s, width) && Canonical(t, width) && |s| < |t|
    ensures Parse(s) < Parse(t)
  {
    ParseBelow(s);
    ParseAtLeast(t);
    PowMonotone(|s|, |t| - 1);
  }

  /** Two canonical fields of the same width and value have the same length. */
  lemma CanonicalLength(a: string, b: string, width: nat)
    requires Canonical(a, width) && Canonical(b, width) && Parse(a) == Parse(b)
    ensures |a| == |b|
  {
    if |a| < |b| {
      LongerIsLarger(a, b, width);
    } else if |b| < |a| {
      LongerIsLarger(b, a, width);
    }
  }

  lemma {:induction false} PowMonotone(j: nat, k: nat)
    requires j <= k
    ensures Pow16(j) <= Pow16(k)
    decreases k
  {
    if j < k {
      PowMonotone(j, k - 1);
    }
  }

  /** A canonical field is the field `arg` writes for its value. */
  lemma CanonicalField(f: string, width: nat)
    requires Canonical(f, width)
    ensures f == Field(Parse(f), width)
  {
    var g := Field(Parse(f), width);
    FieldCanonical(Parse(f), width);
    CanonicalLength(f, g, width);
    ParseInjective(f, g);
  }

  /** Every field `arg` writes is canonical. */
  lemma FieldCanonical(n: nat, width: nat)
    requires 1 <= width
    ensures Canonical(Field(n, width), width)
  {
    if |Digits(n)| > width {
      assert n >= 16;
    }
  }

  /** A rendering has the exact shape of its format. */
  lemma RenderShows(words: seq<nat>, width: nat, seps: seq<char>)
    requires |words| == |seps| + 1 && 1 <= width
    requires forall i :: 0 <= i < |seps| ==> IsSeparator(seps[i])
    ensures Shows(Render(words, width, seps), words, width, seps)
  {
    var fields := seq(|words|, i requires 0 <= i < |words| => Field(words[i], width));
    forall i | 0 <= i < |fields| ensures NoSeparator(fields[i]) && Canonical(fields[i], width) {
      assert forall j :: 0 <= j < |fields[i]| ==> IsHexDigit(fields[i][j]);
      FieldCanonical(words[i], width);
    }
    SplitJoin(fields, seps);
  }

  /** The shape fixes the text: the only string that shows `words` in a
      format is their rendering in it. */
  lemma ShowsUnique(s: string, words: seq<nat>, width: nat, seps: seq<char>)
    requires Shows(s, words, width, seps)
    ensures s == Render(words, width, seps)
  {
    var pieces := Split(s);
    var fields := seq(|words|, i requires 0 <= i < |words| => Field(words[i], width));
    forall i | 0 <= i < |pieces| ensures pieces[i] == fields[i] {
      CanonicalField(pieces[i], width);
    }
    assert pieces == fields;
  }

  lemma {:induction false} JoinCharacters(fields: seq<string>, seps: seq<char>)
    requires |fields| == |seps| + 1
    requires forall k :: 0 <= k < |fields| ==> AllHex(fields[k])
    ensures forall i :: 0 <= i < |Join(fields, seps)| ==> IsHexDigit(Join(fields, seps)[i]) || Join(fields, seps)[i] in seps
    decreases |seps|
  {
    if seps != [] {
      var f, rest := fields[0], Join(fields[1..], seps[1..]);
      JoinCharacters(fields[1..], seps[1..]);
      var s := Join(fields, seps);
      assert s == f + [seps[0]] + rest;
      forall i | 0 <= i < |s| ensures IsHexDigit(s[i]) || s[i] in seps {
        if i < |f| {
          assert s[i] == f[i];
        } else if i == |f| {
          assert s[i] == seps[0];
        } else {
          assert s[i] == rest[i - |f| - 1];
        }
      }
    }
  }

  /** A text of the right shape holds nothing but lowercase hex digits and
      the format's own separator characters. */
  lemma ShowsCharacters(s: string, words: seq<nat>, width: nat, seps: seq<char>)
    requires Shows(s, words, width, seps)
    ensures forall i :: 0 <= i < |s| ==> IsHexDigit(s[i]) || s[i] in seps
  {
    JoinCharacters(Split(s), seps);
  }
}
