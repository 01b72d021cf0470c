# SimpleHasher digest core in Dafny

SimpleHasher is a Qt desktop tool that computes MD5, SHA-1, SHA-224, SHA-256,
SHA-384, SHA-512 and Tiger digests of files. It also guesses the algorithm of
a checksum file. This project models the part of it that does the arithmetic
and the bookkeeping:

- the seven digest engines in `hash/*.cpp`: initial chaining values,
  `update(buffer, message_length)` with its padding, `process_block`, and
  `value()`;
- the Tiger S-box generation `generate_table`;
- the two streaming drivers `Hash::update(QFile)` and `SHA384::update(QFile&)`;
- the worker loop `ComputerThread::run` with `abort`, `getResults` and
  `hashProgress`;
- the length switch of `CheckerDialog::guessHash`.

The model follows the C++ bodies, not the standards the engines are named
after. Where the code departs from RFC 1321 or FIPS 180-4, the model keeps the
code's behaviour and a lemma shows the departure:

- MD5 uses two blocks from a 55-byte tail.
- SHA-384 uses two blocks from a 111-byte tail.
- SHA-1, SHA-224 and SHA-512 overwrite their 0x80 delimiter with the zero fill.
  They also write the bit length little-endian.
- SHA-512 hands 64-byte buffers to a compression that reads 128 bytes.
- Tiger loses its delimiter for a 56-byte tail.
- The Tiger length field is the bit count shifted left by 3 more bits.
- The Tiger table does not depend on the seed text.

## Conventions

- `unsigned long` is 32 bits (`bv32`) and `unsigned long long` is 64 bits
  (`bv64`). This is the LLP64 model of the Windows build.
- Native stores and loads are little-endian: the Tiger length write, the Tiger
  block loads and the byte view of `tiger_table`.
- A block or file is a `seq<bv8>`.
- Each `process_block` appears twice:
  - a method shaped like the C++ loops (arrays, the `Function`/`ROTL`/`F1`..`F6`
    lambdas, the register shuffle);
  - a function shaped like the standard's description.

  The method's contract says that it computes the function.
- Each `value()` is a function over the digits of `QString::arg(n, width, 16,
  QChar('0'))`. It is proved to decode back to the printed words and to have exactly the
  format's shape, which only the rendering has (module `Hex`).
- A file is its bytes held in memory, read from a position. `file.read(size)`
  returns what is left after the position, up to `size` bytes, and moves the
  position past them; `seek(0)` moves it back to the start. `file.size()` is
  the whole file's size wherever the position is, so an `update(QFile)` loop
  ends only when it starts at position 0, where `run` always starts it.
- `run` takes the files as a sequence of entries in `QMap` key order. Each entry
  says whether `open` and `seek(0)` succeed and holds the file's bytes. Each
  hash object says whether it is a SHA384. SHA384's file loop is the only one
  that differs from the 64-byte loop of Hash.cpp, which the model gives every
  other class.
- Signals become an output sequence of events.
- The moment `abort()` lands is a parameter: the index of the first file whose
  loop test sees the flag.

## Model

| member | source | states |
|---|---|---|
| Md5.Reset | hash/md5.cpp:216-222 | the chaining words become 67452301, efcdab89, 98badcfe, 10325476, the initial value of section 3.3 of RFC 1321, whatever they were before |
| Md5.SourceFunctionIsAux | hash/md5.cpp:150-172 | the `Function` lambda selects RFC 1321's F, G, H, I by step quarter, for every step and operand |
| Md5.TempIsNewB | hash/md5.cpp:199-200 | the loop's `temp` (add, ROTL through the 0xFFFFFFFF mask, add b) is the RFC step's new b for every shift |
| Md5.SourceStepIsStep | hash/md5.cpp:197-206 | one iteration of the loop (temp, then the a/d/c/b shift register) is one RFC 1321 step with the access-order word, constant and shift of that step |
| Md5.SourceRoundsAreRounds | hash/md5.cpp:197-206 | the first n iterations of the source loop equal the first n RFC steps, for every n up to 64 |
| Md5.ProcessBlock | hash/md5.cpp:144-213 | the imperative block routine (little-endian load, 64 steps, feed-forward) computes the RFC-shaped compression |
| Md5.AccessOrderRoundsArePermutations | hash/md5.cpp:43-49 | every message word 0..15 appears in each 16-entry round of MD5_ACCESS_ORDER |
| Md5.ReverseSwapsByteOrder | hash/md5.cpp:111-126 | `reverse` turns a word into the little-endian reading of its big-endian bytes, and applying it twice is the identity |
| Md5.UpdateFullBlock | hash/md5.cpp:85-89 | a 64-byte buffer is compressed once, with no padding block and no byte reversal |
| Md5.UpdateTail | hash/md5.cpp:91-131 | a shorter tail is laid out as data, 0x80, zeros and the little-endian length in bytes 56..63; it takes two blocks exactly when L >= 55, the second zero but for the length; then every chaining word is byte-reversed |
| Md5.FiftyFiveByteTailTakesTwoBlocks | hash/md5.cpp:93-97 | a 55-byte tail, which RFC 1321 fits into one block with its 0x80 and 8-byte length, is padded into two |
| Md5.Value | hash/md5.cpp:135-141 | the text has 35 characters, reads back as the four chaining words, and has the exact shape of `"%1 %2 %3 %4"` with fields of at least 8 hex digits (`Hex.Shows`): single spaces, lowercase zero-padded fields, so `Hex.ShowsUnique` makes it the only such text |
| Sha1.Initial | hash/SHA1.cpp:23-32 | the constructor's words are the initial hash value of FIPS 180-4 section 5.3.1 |
| Sha1.ScheduleWords | hash/SHA1.cpp:142-149 | W[0..15] are the message words and every later W[t] is ROTL1 of W[t-3] ^ W[t-8] ^ W[t-14] ^ W[t-16] |
| Sha1.SchedulePrefix | hash/SHA1.cpp:143-149 | the schedule is built one word at a time: a longer schedule extends a shorter one |
| Sha1.SourceFunctionIsFPlusK | hash/SHA1.cpp:103-125 | the `Function` lambda is f_t + K_t of FIPS 180-4 for all 80 steps: Ch, parity, Maj, parity with their constants |
| Sha1.SourceRotlIsRotl | hash/SHA1.cpp:128-131 | the masked ROTL lambda is a true rotation for the amounts 1, 5 and 30 |
| Sha1.SourceStepIsStep | hash/SHA1.cpp:159-167 | one iteration of the loop is one FIPS 180-4 step with (a,b,c,d,e) becoming (T, a, ROTL30 b, c, d) |
| Sha1.ProcessBlock | hash/SHA1.cpp:97-175 | the imperative block routine (big-endian load, expansion to 80 words, 80 steps, feed-forward) computes the standard-shaped compression |
| Sha1.ExpandBlock | hash/SHA1.cpp:143-149 | the expansion loop produces exactly the 80-word schedule of the 16 loaded words |
| Sha1.UpdateFullBlock | hash/SHA1.cpp:39-43 | a 64-byte buffer is compressed once and nothing else happens |
| Sha1.UpdateTail | hash/SHA1.cpp:45-67 | a shorter tail is followed by zeros only, the zero fill erasing the 0x80; two blocks exactly when L >= 56, the second zero but for the length; the bit length sits least significant byte first in bytes 56..63 |
| Sha1.Value | hash/SHA1.cpp:87-94 | the text has between 24 and 44 characters, reads back as the five chaining words, and has the exact shape of `"%1 %2 %3 %4 %5"` with fields of at least 4 hex digits (`Hex.Shows`): single spaces, lowercase fields padded to 4 and never longer than their digits |
| Sha1.ValueOfShortWords | hash/SHA1.cpp:89-93 | the width 4 is only a minimum: words below 0x10000 give the shortest text, 24 characters |
| Sha1.ValueOfLongWords | hash/SHA1.cpp:89-93 | words with eight significant digits give the longest text, 44 characters, so the output is not fixed-width |
| Sha224.Initial | hash/SHA224.cpp:37-49 | the constructor's words are the initial hash value of FIPS 180-4 section 5.3.2 |
| Sha224.ProcessBlock | hash/SHA224.cpp:100-177 | the imperative block routine computes the standard-shaped SHA-224/256 compression with the SHA224_CONSTANTS table |
| Sha224.UpdateFullBlock | hash/SHA224.cpp:56-60 | a 64-byte buffer is compressed once and nothing else happens |
| Sha224.UpdateTail | hash/SHA224.cpp:62-84 | a shorter tail is followed by zeros only, the 0x80 being erased; two blocks exactly when L >= 56; the bit length is little-endian in bytes 56..63 |
| Sha224.Value | hash/SHA224.cpp:88-97 | the text has between 34 and 62 characters, reads back as the first seven chaining words, and has the exact shape of seven fields of at least 4 hex digits joined by single spaces (`Hex.Shows`) |
| Sha224.ValueIgnoresH | hash/SHA224.cpp:90-96 | changing the eighth chaining word never changes the text |
| Sha224.ValueOfShortWords | hash/SHA224.cpp:90-96 | words below 0x10000 give the shortest text, 34 characters |
| Sha224.ValueOfLongWords | hash/SHA224.cpp:90-96 | words with eight significant digits give the longest text, 62 characters |
| Sha256Core.F1IsMaj | hash/SHA224.cpp:117 | the and-or form of F1 equals Maj of FIPS 180-4 section 4.1.2 for all words |
| Sha256Core.F2IsCh | hash/SHA224.cpp:118 | the xor-and form of F2 equals Ch for all words |
| Sha256Core.F3IsBigSigma0 | hash/SHA224.cpp:119 | F3 is Σ0 (rotations by 2, 13, 22) |
| Sha256Core.F4IsBigSigma1 | hash/SHA224.cpp:120 | F4 is Σ1 (rotations by 6, 11, 25) |
| Sha256Core.F5IsSmallSigma0 | hash/SHA224.cpp:121 | F5 is σ0 (rotations by 7, 18 and a shift by 3) |
| Sha256Core.F6IsSmallSigma1 | hash/SHA224.cpp:122 | F6 is σ1 (rotations by 17, 19 and a shift by 10) |
| Sha256Core.ScheduleWords | hash/SHA224.cpp:125-140 | W[0..15] are the message words and every later W[t] is σ1(W[t-2]) + W[t-7] + σ0(W[t-15]) + W[t-16] mod 2^32 |
| Sha256Core.SourceWordIsNextWord | hash/SHA224.cpp:134-140 | the expansion loop's expression with the F5/F6 lambdas is the next schedule word |
| Sha256Core.SourceRoundIsRound | hash/SHA224.cpp:153-166 | one iteration of the round loop is one FIPS 180-4 round with T1 and T2 |
| Sha256Core.ExpandBlock | hash/SHA224.cpp:134-140 | the expansion loop produces exactly the 64-word schedule |
| Sha256Core.ProcessBlock | hash/SHA224.cpp:100-177 | the loops of load, expansion, 64 rounds and the feed-forward of all eight words compute the standard-shaped compression for any constant table |
| Sha256.ConstantsMatchSha224 | hash/SHA256.cpp:23-33 | SHA256_CONSTANTS equals SHA224_CONSTANTS entry by entry |
| Sha256.Initial | hash/SHA256.cpp:36-48 | the constructor's words are the initial hash value of FIPS 180-4 section 5.3.3 |
| Sha256.ProcessBlock | hash/SHA256.cpp:64-138 | the imperative block routine computes the standard-shaped compression |
| Sha256.SameCompressionAsSha224 | hash/SHA256.cpp:64-138 | SHA256::process_block and SHA224::process_block are the same function of chaining words and block |
| Sha256.Value | hash/SHA256.cpp:51-61 | the text has exactly 71 characters, reads back as all eight chaining words, and has the exact shape of eight 8-digit lowercase hex fields joined by single spaces (`Hex.Shows`) |
| Sha384.Initial | hash/SHA384.cpp:49-61 | the constructor's words are the initial hash value of FIPS 180-4 section 5.3.4 |
| Sha384.Clone | hash/SHA384.cpp:129-134 | `clone()` yields the initial state whatever was cloned, and equals the clonee only when that is still initial |
| Sha384.ProcessBlock | hash/SHA384.cpp:137-214 | the imperative block routine computes the standard-shaped SHA-384/512 compression |
| Sha384.UpdateFullBlock | hash/SHA384.cpp:90-94 | a 128-byte buffer is compressed once and nothing else happens |
| Sha384.UpdateTail | hash/SHA384.cpp:96-114 | a shorter tail gets 0x80 at L and zeros; two blocks exactly when L >= 111, the second zero but for the length; bytes 112..119 are zero and 120..127 hold the bit length big-endian |
| Sha384.TailOf111TakesTwoBlocks | hash/SHA384.cpp:98-102 | a 111-byte tail, which FIPS 180-4 section 5.1.2 fits into one block with its 0x80 and 16-byte length, is padded into two |
| Sha384.Value | hash/SHA384.cpp:118-126 | the text has 101 characters with the line break at index 50, reads back as A..F, and has the exact shape of `"%1 %2 %3\n%4 %5 %6"` with 16-digit lowercase hex fields (`Hex.Shows`) |
| Sha384.ValueIgnoresGH | hash/SHA384.cpp:120-125 | G and H never change the text |
| Sha512Core.F1IsMaj | hash/SHA384.cpp:150 | the 64-bit F1 lambda equals Maj |
| Sha512Core.F2IsCh | hash/SHA384.cpp:151 | the 64-bit F2 lambda equals Ch |
| Sha512Core.F3IsBigSigma0 | hash/SHA384.cpp:152 | F3 is Σ0 (rotations by 28, 34, 39) |
| Sha512Core.F4IsBigSigma1 | hash/SHA384.cpp:153 | F4 is Σ1 (rotations by 14, 18, 41) |
| Sha512Core.F5IsSmallSigma0 | hash/SHA384.cpp:154 | F5 is σ0 (rotations by 1, 8 and a shift by 7) |
| Sha512Core.F6IsSmallSigma1 | hash/SHA384.cpp:155 | F6 is σ1 (rotations by 19, 61 and a shift by 6) |
| Sha512Core.ScheduleWords | hash/SHA384.cpp:158-177 | W[0..15] are the big-endian 64-bit words and every later W[t] follows the σ0/σ1 recurrence mod 2^64 |
| Sha512Core.SourceWordIsNextWord | hash/SHA384.cpp:171-177 | the expansion loop's expression is the next schedule word |
| Sha512Core.SourceRoundIsRound | hash/SHA384.cpp:190-203 | one iteration of the round loop is one FIPS 180-4 round |
| Sha512Core.ExpandBlock | hash/SHA384.cpp:171-177 | the expansion loop produces exactly the 80-word schedule |
| Sha512Core.ProcessBlock | hash/SHA384.cpp:137-214 | load, expansion, 80 rounds and the feed-forward of all eight words compute the standard-shaped compression |
| Sha512.ConstantsMatchSha384 | hash/SHA512.cpp:24-46 | SHA512_CONSTANTS equals SHA384_CONSTANTS entry by entry |
| Sha512.Initial | hash/SHA512.cpp:49-61 | the constructor's words are the initial hash value of FIPS 180-4 section 5.3.5 |
| Sha512.ProcessBlock | hash/SHA512.cpp:113-189 | the imperative block routine computes the standard-shaped compression of a 128-byte block |
| Sha512.SameCompressionAsSha384 | hash/SHA512.cpp:113-189 | SHA512::process_block and SHA384::process_block are the same function |
| Sha512.ProcessAllDefined | hash/SHA512.cpp:134-143 | compressing a list of buffers is defined exactly when every buffer holds the 128 bytes the load reads |
| Sha512.UpdateFullBlock | hash/SHA512.cpp:68-72 | a 64-byte buffer is handed on alone and unchanged |
| Sha512.UpdateTail | hash/SHA512.cpp:74-96 | a shorter tail becomes one or two 64-byte buffers (two exactly when L >= 56) of data, zeros and the little-endian bit length in bytes 56..63 |
| Sha512.UpdateReadsPastBuffer | hash/SHA512.cpp:64-97 | every call of `update` hands `process_block` a 64-byte buffer while it reads 128, so no call has a defined result |
| Sha512.Value | hash/SHA512.cpp:100-110 | the text has between 71 and 135 characters, reads back as the eight words, and has the exact shape of eight fields of at least 8 hex digits joined by single spaces (`Hex.Shows`) |
| Sha512.ValueOfShortWords | hash/SHA512.cpp:102-109 | words below 2^32 give the shortest text, 71 characters: the width 8 is only a minimum for 64-bit words |
| Sha512.ValueOfLongWords | hash/SHA512.cpp:102-109 | words with sixteen significant digits give the longest text, 135 characters |
| Tiger.Initial | hash/tiger.cpp:42-44 | the chaining values after the constructor are 0123456789abcdef, fedcba9876543210, f096a5b4c3b2e187 |
| Tiger.Seed | hash/tiger.cpp:25 | the seed text is 64 bytes long |
| Tiger.New | hash/tiger.cpp:30-45 | the constructor leaves the initial chaining values and a table fixed by those values alone, not by the seed text, with every column of every S-box a permutation |
| Tiger.LengthField | hash/tiger.cpp:73 | the field is 8 bytes holding `message_length << 3` least significant byte first |
| Tiger.Update | hash/tiger.cpp:48-76 | `update` never changes the table |
| Tiger.UpdateFullBlock | hash/tiger.cpp:50-54 | a 64-byte buffer is compressed once and nothing else happens |
| Tiger.UpdateTail | hash/tiger.cpp:56-75 | a shorter tail gets 0x01 at L unless L is 56, zeros, two blocks exactly when L > 56, and the shifted length in bytes 56..63 |
| Tiger.DelimiterLostAt56 | hash/tiger.cpp:63-73 | for a 56-byte tail the single final block is the data followed by the length field, with no delimiter left |
| Tiger.HalvesRecombine | hash/tiger.cpp:81-86 | the two masked 32-bit halves rebuild the 64-bit word |
| Tiger.SameHalves | hash/tiger.cpp:81-86 | equal printed halves come from equal words |
| Tiger.Value | hash/tiger.cpp:79-94 | the text has between 29 and 53 characters, reads back as the six halves, and has the exact shape of six fields of at least 4 hex digits joined by single spaces (`Hex.Shows`) |
| Tiger.ValueDeterminesState | hash/tiger.cpp:79-94 | two states with the same text are the same state |
| Tiger.ValueOfShortHalves | hash/tiger.cpp:88-93 | halves below 0x10000 give the shortest text, 29 characters |
| Tiger.ValueOfLongHalves | hash/tiger.cpp:88-93 | halves with eight significant digits give the longest text, 53 characters |
| TigerCore.SourceEvenIsEven | hash/tiger.cpp:155-158 | the `a -=` lookups, with their truncations to 32 bits before shifting, read the even bytes of c |
| TigerCore.SourceOddIsOdd | hash/tiger.cpp:159-162 | the `b +=` lookups read the odd bytes of c in reverse S-box order |
| TigerCore.MixInRoundTrip | hash/tiger.cpp:120-127 | the first half of the key schedule has an inverse |
| TigerCore.MixOutRoundTrip | hash/tiger.cpp:128-135 | the second half of the key schedule has an inverse |
| TigerCore.KeyScheduleRoundTrip | hash/tiger.cpp:118-136 | the whole key schedule is undone by its inverse |
| TigerCore.KeyScheduleInjective | hash/tiger.cpp:118-136 | two blocks have the same key schedule exactly when they are equal |
| TigerCore.Multiplier | hash/tiger.cpp:139-149 | the multiplier is 5 for pass 0, 7 for pass 1, and 9 from pass 2 on |
| TigerCore.RoundIsRefStep | hash/tiger.cpp:152-169 | one loop round on the rotated registers is one reference round, rotated one place further |
| TigerCore.RoundsAreRefPass | hash/tiger.cpp:152-169 | the `temp` rotation after every round keeps the registers equal to the reference registers rotated once per round |
| TigerCore.PassIsRefPass | hash/tiger.cpp:152-169 | after a full pass of eight rounds the loop's registers are the reference registers rotated twice |
| TigerCore.CompressIsRefCompress | hash/tiger.cpp:97-180 | the rotating loop compresses exactly like the reference formulation, 24 rounds being a whole number of rotations |
| TigerCore.LoadBlock | hash/tiger.cpp:109-112 | the load loop reads the 8 words little-endian |
| TigerCore.RunPass | hash/tiger.cpp:152-169 | the round loop of a pass computes eight rounds with the `temp` rotation |
| TigerCore.ProcessBlock | hash/tiger.cpp:97-180 | the whole block routine (load, three passes with the key schedule before passes 1 and 2, feed-forward `^=`, `-=`, `+=`) computes the compression |
| TigerTable.Words | hash/tiger.cpp:155-162 | the compression reads word i of the table as bytes 8i..8i+7 least significant first |
| TigerTable.Column | hash/tiger.cpp:229-234 | a column of an S-box is byte `col` of each of its 256 rows |
| TigerTable.StateChars | hash/tiger.cpp:192-203 | the swap partners are the 24 little-endian bytes of the local copy of A, B, C |
| TigerTable.SwapPermutes | hash/tiger.cpp:231-233 | exchanging two bytes keeps the multiset of bytes |
| TigerTable.InitialColumnsAreIdentity | hash/tiger.cpp:206-212 | after the fill every column of every S-box holds 0, 1, ..., 255 in order |
| TigerTable.SwapInSameColumn | hash/tiger.cpp:231-233 | a swap between two rows of one S-box exchanges two entries of that column |
| TigerTable.SwapElsewhere | hash/tiger.cpp:231-233 | the same swap leaves every other column unchanged |
| TigerTable.SwapColumnsPermute | hash/tiger.cpp:229-234 | the eight swaps of one step keep every column a permutation of 0..255 |
| TigerTable.GeneratedColumnsArePermutations | hash/tiger.cpp:205-237 | after any number of steps every column of every S-box is a permutation of 0..255 |
| TigerTable.Advance | hash/tiger.cpp:223-227 | with `abc` started at 2, after its increment and wrap it is the step number mod 3, always below 3 |
| TigerTable.FillTable | hash/tiger.cpp:206-212 | the fill loop sets byte k of row r to r mod 256 |
| TigerTable.SwapRow | hash/tiger.cpp:229-234 | the column loop performs the eight swaps of one step with partners from word `abc` |
| TigerTable.GenerationStep | hash/tiger.cpp:221-235 | one `sb` iteration performs the next step of the generation and keeps the `abc` and compression counters in step |
| TigerTable.GenerateTable | hash/tiger.cpp:183-238 | `generate_table` yields the table determined by A, B, C alone, every column a permutation, after (1024·passes + 2) / 3 compressions |
| Padding.FinalBuffers | hash/md5.cpp:91-108 | the final buffers hold the tail, the delimiter or the zero that erased it, zeros, and the length field at its offset; there are two buffers exactly from the threshold length on, the second zero but for the length |
| Hex.Digits | hash/md5.cpp:137-140 | the digits are lowercase hex without leading zero and parse back to the number |
| Hex.Field | hash/md5.cpp:137-140 | a zero-padded field has at least the requested width, is never truncated, and parses back to the number |
| Hex.ParseLeadingZeros | hash/md5.cpp:137-140 | leading zeros added by the padding do not change the value |
| Hex.DigitsAtMost | hash/SHA256.cpp:53-60 | a number below 16^k needs at most k digits |
| Hex.DigitsAtLeast | hash/SHA1.cpp:89-93 | a number of at least 16^k needs more than k digits, so a width below the word size is exceeded |
| Hex.FieldFixedWidth | hash/SHA256.cpp:53-60 | a width that covers the word type gives fields of exactly that width |
| Hex.SplitJoin | hash/SHA384.cpp:120 | cutting a joined text at the separators gives back the fields |
| Hex.RenderDecodes | hash/SHA1.cpp:89-93 | a rendering decodes to its words for every width and separator choice |
| Hex.RenderWords | hash/SHA256.cpp:53-60 | with words that fit the width the rendering has width characters per word plus one per separator, and decodes to the words |
| Hex.RenderMinimumWidth | hash/SHA1.cpp:89-93 | with a width below the word size the length lies between the minimum and maximum, and the text still decodes to the words |
| Hex.RenderFullWords | hash/SHA512.cpp:102-109 | words that need all k digits take k characters each, whatever smaller minimum is asked for |
| Hex.CanonicalField | hash/md5.cpp:137-140 | a string of hex digits at least `width` long, with a leading zero only when it is exactly `width` long, is the field `arg` writes for its value |
| Hex.ParseInjective | hash/md5.cpp:137-140 | two equally long strings of hex digits with the same value are the same string |
| Hex.LongerIsLarger | hash/SHA1.cpp:89-93 | of two canonical fields of one width, the longer one has the larger value |
| Hex.RenderShows | hash/SHA384.cpp:118-126 | every rendering has the exact shape of its format: one canonical field per word, joined by exactly the format's separators |
| Hex.ShowsUnique | hash/SHA384.cpp:118-126 | the shape fixes the text: the only string of that shape for the words is their rendering |
| Hex.ShowsCharacters | hash/md5.cpp:137-140 | a text of that shape holds only lowercase hex digits and the format's own separator characters |
| Hex.RenderSeparatorAt | hash/SHA384.cpp:120 | in a fixed-width rendering separator k sits right after the (k+1)-th field |
| Bytes.LE32RoundTrip | hash/md5.cpp:182-188 | reading back the little-endian bytes of a word gives the word |
| Bytes.BE32RoundTrip | hash/SHA1.cpp:134-140 | reading back the big-endian bytes of a word gives the word |
| Bytes.LE64RoundTrip | hash/SHA1.cpp:62-65 | the little-endian length bytes read back as the length |
| Bytes.BE64RoundTrip | hash/SHA384.cpp:108-112 | the big-endian length bytes read back as the length |
| Bytes.LE32BytesOfLoad | hash/md5.cpp:182-188 | writing a loaded word back gives the four bytes it came from |
| Bytes.BE64BytesOfLoad | hash/SHA384.cpp:158-168 | writing a loaded 64-bit word back gives the eight bytes it came from |
| Bytes.LE32WordsRoundTrip | hash/md5.cpp:182-188 | loading the words of a block written from a word list gives back the list |
| Bytes.BE32WordsRoundTrip | hash/SHA1.cpp:134-140 | the same for big-endian words |
| Bytes.LoadBE32Block | hash/SHA1.cpp:134-140 | the load loop yields the 16 big-endian words of the block |
| Bytes.LoadBE64Block | hash/SHA512.cpp:134-143 | the load loop yields the 16 big-endian 64-bit words of a 128-byte block |
| Driver.ReadFile | Hash.cpp:29-42 | the `while` loop runs exactly the turns `Iterations` describes and stops when every byte is consumed |
| Driver.ReadAt | Hash.cpp:36 | `file.read` returns at most the read size, and nothing exactly when the position is at the end |
| Driver.Turns | Hash.cpp:34-41 | each turn moves the position and `message_length` by the same amount, the position never passing the end |
| Driver.StuckAtEnd | Hash.cpp:32-41 | from the end of the file with `message_length` 0, every number of turns leaves both unchanged |
| Driver.TurnsFollowLoop | Hash.cpp:32-41 | from a position equal to `message_length`, the loop's turns end with both at `fileSize` |
| Driver.LoopConcat | Hash.cpp:34-38 | the chunks read join up to the unread part of the file |
| Driver.LoopCount | Hash.cpp:34-37 | the number of reads is the ceiling of the remaining bytes over the read size |
| Driver.Chunking | Hash.cpp:34-38 | a file of n bytes is read in ceil(n / size) turns, none when empty; every chunk is full but the last; the chunks join up to the file; `message_length` rises strictly to n |
| Driver.LastChunkFull | Hash.cpp:34-41 | the last chunk is a full read exactly when n is a multiple of the read size |
| Driver.Progress | Hash.cpp:40 | each emitted value is (100 · consumed) / n, within 0..100, non-decreasing, and the last is 100 |
| Driver.HashCalls | Hash.cpp:31-38 | `Hash::update(QFile)` makes ceil(n / 64) calls, each with its chunk and eight times the bytes read so far, the last with 8n |
| Driver.HashFinalisation | Hash.cpp:34-41 | every call but the last has 64 bytes, and a padding call (fewer than 64 bytes) happens exactly when n is not a multiple of 64 |
| Driver.Sha384Turns | hash/SHA384.cpp:69-82 | SHA-384 reads ceil(n / 128) turns and adds the empty call exactly when n is a positive multiple of 128 |
| Driver.Sha384Calls | hash/SHA384.cpp:69-82 | one call per turn, plus the empty call with the same bit count after a final full read; no call for an empty file |
| Driver.Sha384Finalisation | hash/SHA384.cpp:69-82 | every non-empty file ends with exactly one call shorter than 128 bytes, the last |
| Driver.Md5OfEmptyFile | Hash.cpp:32-34 | an empty file makes no call, so MD5 keeps its initial words and compresses no padding block |
| Driver.Md5OfWholeBlocks | Hash.cpp:34-41 | for a size that is a multiple of 64, MD5 only compresses the chunks: no length block and no byte reversal ever happen |
| Driver.Md5FeedOfFullBlocks | hash/md5.cpp:85-89 | calls with full blocks only compress those blocks |
| ComputerThread.New | ComputerThread.cpp:28-36 | the constructor keeps the map, clears the flag and zeroes both indexes |
| ComputerThread.Abort | ComputerThread.cpp:45-48 | `abort()` raises the flag and changes nothing else |
| ComputerThread.AbortIdempotent | ComputerThread.cpp:45-48 | raising the flag twice is raising it once |
| ComputerThread.Run | ComputerThread.cpp:62-92 | the loop emits the events and error text of exactly the files it starts, has every hash of each started file that opened read the whole file and no file that failed read at all, leaves the map unchanged, and ends with the index at the number of files started |
| ComputerThread.FileTurn | ComputerThread.cpp:67-91 | one turn reports the file percentage, then either appends the error line of a file that does not open, reading nothing, or runs the hash loop over the file |
| ComputerThread.UpdateHashes | ComputerThread.cpp:81-91 | the hash loop reports every hash of the file once, in list order; each hash's `update(file)` starts where `seek(0)` left the file and reads through its class's loop (`Driver.Iterations` with SHA384's 128-byte reader or Hash's 64-byte one) over the whole file |
| ComputerThread.EveryHashReadsWholeFile | ComputerThread.cpp:81-88 | the reads of every hash of a file join up to all of the file's bytes, every read but the last fills its buffer, and an empty file gives no read |
| ComputerThread.RewindNeeded | ComputerThread.cpp:86-88 | without the `seek(0)`, a hash starting at the end of a non-empty file, where the previous one stopped, never sees `message_length` reach `fileSize` however many turns it runs; from the start its loop ends with every byte consumed |
| ComputerThread.FileEventsComputed | ComputerThread.cpp:70-91 | one turn reports one progress value, and the file's hashes only when it opens |
| ComputerThread.ComputedInOrder | ComputerThread.cpp:81-91 | `hashComputed` fires exactly once per hash, in list order, for every started file that opened, and never for any other file |
| ComputerThread.FileProgressValues | ComputerThread.cpp:70 | turn i emits (100 · (i + 1)) / size, one value per started file |
| ComputerThread.FileProgress | ComputerThread.cpp:67-70 | the file percentages never decrease, never exceed 100, and the last is 100 exactly when every file was started |
| ComputerThread.ErrorsIffFailure | ComputerThread.cpp:75-79 | the error text is empty exactly when every started file opened and rewound |
| ComputerThread.ErrorLineOfFailedFile | ComputerThread.cpp:75-79 | a failed file adds exactly its own line between the errors of the files before and after it |
| ComputerThread.AbortStopsBetweenFiles | ComputerThread.cpp:67-91 | after `abort()` no file starts, while the file running when the flag is raised still reports all of its hashes |
| ComputerThread.RunThenGetResults | ComputerThread.cpp:39-42 | `getResults` after `run` returns the map given to the constructor |
| ComputerThread.CDivOfNat | ComputerThread.cpp:55-58 | `int` division, which truncates, agrees with floor division on non-negative operands |
| ComputerThread.HashProgressBounded | ComputerThread.cpp:51-59 | the overall progress stays in 0..100 for every file, hash and hash percentage in range |
| ComputerThread.ShareSum | ComputerThread.cpp:55-58 | ⌊100i/F⌋ + ⌊100j/(FH)⌋ + ⌊v/(FH)⌋ never exceeds 100 for i < F, j < H and v <= 100 |
| Checker.NamesDistinct | CheckerDialog.cpp:118-126 | distinct algorithms have distinct names |
| Checker.NameOfLengthIsDigestSize | CheckerDialog.cpp:118-132 | a length names an algorithm exactly when it is that algorithm's digest size in bytes; every other length gives "Unknown" |
| Checker.AlgorithmOf | CheckerDialog.cpp:118-126 | each named length has one algorithm whose digest has that many bytes |
| Checker.Examined | CheckerDialog.cpp:108-109 | at most 80 bytes from offset 0 are looked at: the whole file when shorter, else its first 80 bytes |
| Checker.GuessHash | CheckerDialog.cpp:104-133 | the answer names an algorithm exactly when the matcher finds a token of that algorithm's byte length in the first 80 bytes; otherwise "Unknown" |
| Checker.EmptyCaptureIsUnknown | CheckerDialog.cpp:111-130 | a captured token of length zero, which the pattern admits at index 0, makes `guessHash` answer "Unknown" |
| Checker.OnlyPrefixExamined | CheckerDialog.cpp:108-109 | bytes past the 80th never change the guess |
| Checker.HexTokenMisread | CheckerDialog.cpp:118-126 | a digest's hex token never names its own algorithm: MD5's reads as SHA-256, SHA-256's as SHA-512, Tiger's as SHA-384, and the rest as "Unknown" |
| Arith.PercentBounded | Hash.cpp:40 | a percentage of a part of the whole is at most 100, and below 100 for a proper part |
| Arith.PercentMonotone | ComputerThread.cpp:70 | the percentage grows with its part |

## Left out

- Qt user interface: the main window, the configuration and checker dialogs, settings and the clipboard. The error dialog at the end of `run` (ComputerThread.cpp:94-104) is left out too; the model returns the error text it would show.
- QFile: a file is its bytes and a read position. `open`/`seek(0)` failure is an input flag per entry, and `errorString()` is an input string. Every read is assumed to return min(size, remaining) bytes, and the `seek(0)` after each hash is assumed to succeed.
- Threads, signals and slots: `run` is sequential. Emitted signals are an output sequence. The arrival of `abort()` from the other thread is the parameter `abortAt`.
- The `QMap` key ordering: the entries are given already in key order.
- Forwarding each hash's own `progress` to `hashProgress` while `update` runs. `hashProgress` is modelled as a function of the thread's indexes and the value, without the moment of the call.
- `QRegExp` matching in `guessHash`: the matcher is a parameter returning the captured token's length. The pattern `([a-h]*[A-H]*[0-9]*)*` matches the empty string at index 0, and with `setMinimal(true)` the capture is then most likely that empty match, in which case `guessHash` answers "Unknown" for every file (`Checker.EmptyCaptureIsUnknown`); the model does not decide what `QRegExp` captures.
- `QString::arg` beyond minimum width, zero fill and lowercase hex.
- ComputerThread.ErrorLine: concatenates the file name and the error string. `tr("%1 error: %2\n").arg(filename).arg(file.errorString())` (ComputerThread.cpp:77) runs the second `arg` over the text with the name already inserted, so a name holding `%1` would receive the error string and leave `%2` in place; the concatenation agrees with the source only for names without a `%` followed by a digit.
- An SHA-256 `update` and `clone`: SHA256.cpp has no body for them.
- `SHA1::update(QFile)` (hash/SHA1.cpp:71-84) is the same loop as `Hash::update(QFile)` and is modelled by `Driver.Iterations` with the 64-byte reader.
- The concrete contents of the Tiger table: only its structure is proved, without evaluating the 1024 words.
- Overflow of `100 * message_length` (Hash.cpp:40, SHA384.cpp:81) and of `message_length * 8` beyond 2^64 bytes: the model uses unbounded integers there, and takes `bits` as the 64-bit value passed.
- Overflow of the `int` products in `hashProgress` and `run` (ComputerThread.cpp:55-58, 70) for very large file or hash counts.
- Signed `int` promotion in `char << 24` in the block loads and in `reverse`: with 32-bit `unsigned long` the resulting bits are the same, so words are assembled as `bv32`.
- Where a header disagrees with its .cpp (SHA1.h member names, ComputerThread.h's constructor), the model follows the .cpp. SHA256.h:30 derives SHA256 from Hash while SHA256.cpp:37 names SHA1 as its base; the modelled SHA256 members (constructor, `process_block`, `value`) use no base-class member, so the model has no base class.
- Which `update(QFile&)` the classes other than SHA384 run: Hash.h:58 declares it pure virtual, Hash.cpp:29 defines an overload taking the file by value, md5.h:48 and SHA1.h:45 declare overrides, md5.cpp has no body for its override and SHA1.cpp:71 defines one taking the file by value. The model gives every class but SHA384 the 64-byte loop of Hash.cpp:29-44.
- Published test vectors: the padding divergences listed above make the outputs differ from the standards on purpose.
