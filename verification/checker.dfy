/** `CheckerDialog::guessHash`: read the start of a checksum file, find a
    token with a regular expression and name the algorithm from the token's
    length.  The regular expression is not modelled: the matcher is a
    parameter that returns the length of the captured token, or `None` when
    nothing matches. */
module Checker {

  datatype Option<T> = None | Some(value: T)

  /** What `guessHash` answers when it cannot tell. */
  const Unknown := "Unknown"

  /** `file.read(80)`: the number of bytes looked at. */
  const ExaminedBytes := 80

  /** The algorithms the dialog can name. */
  datatype Algorithm = Md5 | Sha1 | Sha224 | Sha256 | Sha384 | Sha512 | Tiger

  /** The name the dialog shows; none of them is `Unknown`. */
  function Name(a: Algorithm): (name: string)
    ensures name != Unknown
  {
    match a
    case Md5 => "MD5"
    case Sha1 => "SHA-1"
    case Sha224 => "SHA-224"
    case Sha256 => "SHA-256"
    case Sha384 => "SHA-384"
    case Sha512 => "SHA-512"
    case Tiger => "Tiger"
  }

  /** Length, third-last and last character: enough to tell the names
      apart. */
  function Key(s: string): (nat, char, char) {
    if |s| < 3 then (|s|, ' ', ' ') else (|s|, s[|s| - 3], s[|s| - 1])
  }

  /** Distinct algorithms have distinct names. */
  lemma NamesDistinct(a: Algorithm, b: Algorithm)
    ensures Name(a) == Name(b) ==> a == b
  {
    if Name(a) == Name(b) {
      assert Key(Name(a)) == Key(Name(b));
    }
  }

  /** The size of the algorithm's digest in bytes (not in hex characters). */
  function DigestBytes(a: Algorithm): nat {
    match a
    case Md5 => 16
    case Sha1 => 20
    case Sha224 => 28
    case Sha256 => 32
    case Sha384 => 48
    case Sha512 => 64
    case Tiger => 24
  }

  /** The `switch` on the token length: a length names an algorithm exactly
      when it is that algorithm's digest size in bytes, and every other
      length is `Unknown`. */
  function NameOfLength(n: nat): string {
    if n == 16 then "MD5"
    else if n == 20 then "SHA-1"
    else if n == 28 then "SHA-224"
    else if n == 32 then "SHA-256"
    else if n == 48 then "SHA-384"
    else if n == 64 then "SHA-512"
    else if n == 24 then "Tiger"
    else Unknown
  }

  /** A length names an algorithm exactly when it is that algorithm's
      digest size in bytes, and every other length is `Unknown`. */
  lemma NameOfLengthIsDigestSize(n: nat)
    ensures NameOfLength(n) != Unknown <==> exists a: Algorithm :: DigestBytes(a) == n
    ensures forall a: Algorithm :: NameOfLength(n) == Name(a) <==> DigestBytes(a) == n
  {
    forall a: Algorithm
      ensures NameOfLength(n) == Name(a) <==> DigestBytes(a) == n
    {
      if NameOfLength(n) == Name(a) {
        NamesDistinct(a, AlgorithmOf(n));
      }
    }
    if NameOfLength(n) != Unknown {
      assert DigestBytes(AlgorithmOf(n)) == n;
    }
  }

  /** The algorithm the switch names for a length it knows. */
  function AlgorithmOf(n: nat): (a: Algorithm)
    requires NameOfLength(n) != Unknown
    ensures DigestBytes(a) == n && Name(a) == NameOfLength(n)
  {
    if n == 16 then Md5
    else if n == 20 then Sha1
    else if n == 28 then Sha224
    else if n == 32 then Sha256
    else if n == 48 then Sha384
    else if n == 64 then Sha512
    else Tiger
  }

  /** The bytes `file.seek(0); file.read(80)` returns. */
  function Examined(file: seq<bv8>): (data: seq<bv8>)
    ensures |data| <= ExaminedBytes && |data| <= |file|
    ensures data == file[..|data|]
    ensures |data| == ExaminedBytes || data == file
  {
    if |file| <= ExaminedBytes then file else file[..ExaminedBytes]
  }

  /** `guessHash(file)` with the regular expression given as `find`: the
      answer names an algorithm exactly when a token was found and its length
      is that algorithm's digest size in bytes. */
  function GuessHash(file: seq<bv8>, find: seq<bv8> -> Option<nat>): (name: string)
    ensures name != Unknown <==>
      find(Examined(file)).Some? && exists a: Algorithm :: DigestBytes(a) == find(Examined(file)).value
    ensures forall a: Algorithm :: name == Name(a) <==> find(Examined(file)) == Some(DigestBytes(a))
  {
    match find(Examined(file))
    case None => Unknown
    case Some(n) => NameOfLengthIsDigestSize(n); NameOfLength(n)
  }

  /** A capture of length zero, which the pattern `([a-h]*[A-H]*[0-9]*)*`
      allows at index 0 of any text, names no algorithm. */
  lemma EmptyCaptureIsUnknown(file: seq<bv8>, find: seq<bv8> -> Option<nat>)
    requires find(Examined(file)) == Some(0)
    ensures GuessHash(file, find) == Unknown
  {}

  /** Nothing past the first 80 bytes matters: appending to a file of at
      least 80 bytes does not change the guess. */
  lemma {:induction false} OnlyPrefixExamined(file: seq<bv8>, more: seq<bv8>, find: seq<bv8> -> Option<nat>)
    requires |file| >= ExaminedBytes
    ensures GuessHash(file + more, find) == GuessHash(file, find)
  {
    assert (file + more)[..ExaminedBytes] == file[..ExaminedBytes];
  }

  /** The lengths are byte counts, while a checksum file holds hex text of
      twice as many characters: the hex token of a digest never names its
      own algorithm.  A 32-character MD5 token reads as SHA-256, a
      64-character SHA-256 token as SHA-512, a 48-character Tiger token as
      SHA-384, and the other tokens are `Unknown`. */
  lemma HexTokenMisread(a: Algorithm)
    ensures NameOfLength(2 * DigestBytes(a)) != Name(a)
    ensures NameOfLength(2 * DigestBytes(Md5)) == Name(Sha256)
    ensures NameOfLength(2 * DigestBytes(Sha256)) == Name(Sha512)
    ensures NameOfLength(2 * DigestBytes(Tiger)) == Name(Sha384)
    ensures a !in {Md5, Sha256, Tiger} ==> NameOfLength(2 * DigestBytes(a)) == Unknown
  {
    NameOfLengthIsDigestSize(2 * DigestBytes(a));
  }
}
