# Verified models of the engine's self-contained algorithms

These modules model algorithms of the L/R_JS engine that have an exact specification of their own,
and prove that the code meets it. They are grouped by source file.

- **Atomics on shared memory** (`src/lr_builtins_extra.c`): `AtomicElements` says what one call means
  on the bytes of its element and relates that to the 32-bit word around it, and `AtomicBits` says bit by
  bit what it leaves there. `AtomicMachine` is the
  code of `atomics_cas_apply` as a step machine: threads with a program counter and a loaded word, one
  access to shared memory a step. `AtomicRuns` proves linearizability, real-time order and lock-freedom
  for all runs, `AtomicSums` conservation. `AtomicTail` proves exactly which elements are atomic at all.
  `AtomicPaths` proves the five code paths, as code over a byte buffer, equal when run alone.
- **LZ4** (`src/lr_compress.c`): `Lz4Format` (blocks, how they are written, what decoding them does),
  `Lz4Finder` (which matches are found), `Lz4Codec` (the compressor, which follows the finder, and the
  decompressor), `Lz4Container` (the size header around a block).
- **JSON** (`src/lr_builtins_extra.c`): `JsonText` (printing and parsing as functions), `JsonNumbers` (what
  a number stands for), `JsonRoundTrip`, `JsonGrammar` (printed texts are texts of the JSON grammar),
  `JsonReading` (every text of the grammar is read), `JsonPrinter` (the growing buffer and the recursive
  printer), `JsonParser` (the cursor parser), `JsonBuffer` (which texts overrun its string buffer).
- **SHA-256** (`src/lr_crypto.c`): `Sha256`, the hash of FIPS 180-4 and the streaming context;
  `Sha256Constants` (its constants are roots of primes), `Sha256Bits` (its word functions bit by bit),
  `Sha256Vectors` (the hash of "abc", step by step).
- **Arrays** (`src/lr_builtins_core.c`): `JsArrays`, `ArraySplice`, `ArrayCopyWithin`, `ArraySort`,
  `NumericSort`.
- **Strings and numbers** (`src/lr_builtins_core.c`, `src/lr_encoding.c`): `StringSplit`,
  `StringReplace`, `Numerals`, `DecimalText` and `DecimalForm` (what `%g` prints, and what it stands for),
  `RadixText`, `IntegerParts` (what parseInt reads), `Utf8`, `Base64`.

`Bytes`, `WordBits`, `Wrappers` and `Arithmetic` hold what the others share. Pointers are indices, machine words
are bit-vectors, sizes are unbounded integers except where wrap-around is written out. Code that
updates memory is a method proved against a function, and the lemmas are about the function. What the
function computes is stated apart from its body: by a law, by the standard's own definition, or by a value
that the standard gives.

## What the proofs found

- `atomics_cas_apply` is documented never to take its non-atomic fallback for a SharedArrayBuffer
  (`src/lr_builtins_extra.c:3829-3832`), because shared blocks are padded to whole words
  (`src/lr_sab.h:25-37`). The size it compares with is the unpadded length, though
  (`src/lr_builtins_extra.c:3693-3696`, `src/engine/lr_engine.c:5755-5758`), so elements in the last
  word of a shared buffer whose length is not a multiple of four do take it.
  `AtomicTail.AtomicIffWordHolds` proves, over all runs with any calls on aligned elements, that the
  calls on a word are atomic exactly when the whole word lies within that length;
  `AtomicTail.UpdateIsLost` is the run that loses an update otherwise. The theorems of `AtomicRuns`
  hold for the whole words of a buffer in every run, whatever other calls do to the bytes behind
  them (`AtomicRuns.WholeWordsAreProtected`).
- JSON.parse reads every text of the JSON grammar as the value it stands for, escapes in UTF-8 and the last
  value of a repeated key included, as long as strings are below 4095 bytes and numbers below 128
  (`JsonReading.ValueRead`). It does not look at what follows the value (`src/lr_builtins_extra.c:976-995`).
- JSON.parse reads back what JSON.stringify printed exactly when no string or key that was kept has
  4095 bytes or more (`JsonRoundTrip.RoundTripIffShort`).
- The parser looks at the length limit of a string only after storing a unit, so it stores one byte
  behind its buffer exactly when 4094 stored bytes are followed by an escape that takes three
  (`JsonBuffer.StringOverrunsIff`). Texts without such an escape never do that
  (`JsonBuffer.NoLongEscapeStaysInside`), and printed texts do not (`JsonBuffer.PrintedStaysInside`).
- toSpliced copies with slice, which leaves undefined slots out (`src/lr_builtins_core.c:1944-1949`).
  `ArraySplice.ToSplicedAgrees` says exactly when that makes no difference.
- splice without arguments deletes everything, where ECMAScript deletes nothing; the two agree on the
  empty array alone (`ArraySplice.NoArgumentsDeleteAll`).
- replaceAll returns the string unchanged for an empty search, where its own comment and ECMAScript
  put the replacement between all characters, and it never expands the `$` patterns of a replacement.
  It gives what ECMAScript asks for on all strings exactly when the replacement can be taken literally:
  its patterns, if any, stand for itself, or for nothing when the search is empty
  (`StringReplace.ReplaceAllMeetsStandardIff`). Without a dollar sign that means a search that is not
  empty, or an empty replacement (`StringReplace.PlainMeetsStandardIff`).
- The result of a sort's comparison is cast to an int, so `(a, b) => a - b` does not see differences
  below one: `[0.9, 0.1]` stays as it is (`NumericSort.FractionsStay`), and `[0, 0.9, 1.8]` is not
  ordered at all. The cut difference has the sign of the difference exactly when different numbers are
  at least one apart (`NumericSort.HasSignIffApart`), and then the sort leaves them ascending, provided
  that no difference is beyond the Int32 range, where the cast is undefined.
- toString prints integers digit by digit below 10^15 in decimal, and parseInt reads back exactly those,
  and in other radices all integers that are printed (`RadixText.ReadsBackIff`). From 10^15 on `%g`
  prints a power of ten, of which parseInt reads one digit.
- The LZ4 compressor does not keep the last five bytes as literals: seven equal bytes give a match
  that leaves two (`Lz4Finder.SevenEqualBytes`). Two are always left, which is enough for the decoder,
  and five are when none of the three groups of four bytes that end there stands anywhere before
  (`Lz4Finder.FiveLiteralsLeft`). Its header comment speaks of matches of at most 259 bytes and a
  16-bit hash. In the code a match is no longer than its offset unless it is a shortest one, so it has
  at most 65535 bytes (`Lz4Finder.MatchEndIs`), and the hash has 14 bits.
- atob takes texts of any length, but reads and writes stay inside its arrays for every text of a
  length only when that is a multiple of four (`Base64.AllTextsStayInsideIff`, `Base64.Atob`).
- The comment above `js_array_proto_sort` says quick sort; the code is a bubble sort, and is stable.

## Model

| member | source | states |
|---|---|---|
| AtomicElements.Apply | src/lr_builtins_extra.c:3804-3822 | the sequential meaning of one call changes no byte outside the element; what it leaves there is stated by the two lemmas that follow |
| AtomicBits.BitsCombined | src/lr_builtins_extra.c:3811-3813 | for every size and bit, and, or and xor leave the conjunction, the disjunction or the inequality of the bits of the old element and of the operand |
| AtomicBits.ValueStored | src/lr_builtins_extra.c:3814-3822 | store and exchange leave the operand cut to the size, compare-exchange does so exactly when the element is the expected value cut to the size, and all report the element as it was |
| AtomicBits.LowByteFirst | src/lr_builtins_extra.c:3933-3947 | the first byte in memory is the lowest |
| AtomicElements.WordViewOfElement | src/lr_builtins_extra.c:3847-3864 | shifting and masking the containing little-endian word reads exactly the element, and merging a new value into the word writes exactly the element's bytes |
| AtomicElements.StoreThenLoad | src/lr_builtins_extra.c:3933-3947 | an element stored is the element loaded |
| AtomicElements.LoadThenStore | src/lr_builtins_extra.c:3933-3947 | storing back what was loaded changes nothing |
| AtomicMachine.WholeWordsHoldElements | src/lr_sab.h:25-37 | in a buffer whose length is a multiple of four every aligned element passes the code's first condition |
| AtomicMachine.NewWordIsApply | src/lr_builtins_extra.c:3919-3930 | storing the merged word is the sequential meaning of the call, and a call that stores nothing means nothing |
| AtomicMachine.FetchAddIsApplyOp | src/lr_builtins_extra.c:3882-3885 | fetch-and-add of the operand and of its negation is what add and sub mean |
| AtomicMachine.WordStepIsGeneric | src/lr_builtins_extra.c:3868-3918 | every 4-byte primitive does what the masked-word loop would do, or only loads a word to be swapped |
| AtomicMachine.FallbackSimulates | src/lr_builtins_extra.c:3933-3947 | the byte-wise fallback does what the call means when nothing comes between its read and its write |
| AtomicMachine.StepSimulates | src/lr_builtins_extra.c:3833-3948 | the step that fixes the result of a call on a whole word, or of any call without workers, does the whole call at once; steps that do not fix a result leave memory alone |
| AtomicMachine.InvPreserved | src/lr_builtins_extra.c:3833-3948 | every step of every thread keeps what the code knows at each program point, for all threads |
| AtomicMachine.EffectSimulates | src/lr_builtins_extra.c:3833-3948 | shared memory changes only at the steps where calls take effect, only in their elements, and then as those calls mean unless the fallback runs beside workers |
| AtomicRuns.WholeWordsAreProtected | src/lr_builtins_extra.c:3848-3931 | in every run, whatever is called on other bytes, the whole words of a buffer are a protected part: calls reach into them only under the code's first condition |
| AtomicRuns.GuardedIsProtected | src/lr_builtins_extra.c:3848-3931 | the whole buffer is protected when every call begun with workers passes that condition |
| AtomicRuns.OrderExplainsRun | src/lr_builtins_extra.c:3833-3948 | at every point of every run, replaying the calls on a protected part one by one in the order of their effects gives its contents and all their results |
| AtomicRuns.EveryThreadExplained | src/lr_builtins_extra.c:3833-3948 | a thread holding a result took effect exactly once since it began the call, and one still working has not |
| AtomicRuns.Linearizable | src/lr_builtins_extra.c:3833-3948 | linearizability: on every protected part one order of the calls gives the final contents and every result, every returned call took effect exactly once inside its interval with the value it returned, and nothing takes effect that was not begun |
| AtomicRuns.StepOrderKept | src/lr_builtins_extra.c:3833-3948 | effects stand in the order in which they happened |
| AtomicRuns.RealTimeKept | src/lr_builtins_extra.c:3833-3948 | a call that returned before another began comes first in the order |
| AtomicRuns.ChangesAreEffects | src/lr_builtins_extra.c:3849-3931 | a word changes only when a call on that word takes effect |
| AtomicRuns.LoadsAreCurrent | src/lr_builtins_extra.c:3919-3930 | a swap fails exactly when the word in memory differs from the one loaded |
| AtomicRuns.RetriesArePaidFor | src/lr_builtins_extra.c:3886-3930 | lock-freedom: a call has lost at most as many swaps as calls of other threads took effect on its word and changed it |
| AtomicRuns.AloneFinishes | src/lr_builtins_extra.c:3886-3930 | a call left alone finishes in two steps, or three when it holds a stale word |
| AtomicSums.TruncateIsModular | src/lr_builtins_extra.c:3836-3838 | masking before and after adding or subtracting is arithmetic modulo the element size |
| AtomicSums.OneCallAdds | src/lr_builtins_extra.c:3809-3810 | one add or sub changes the element's running total by its operand; a call elsewhere leaves it |
| AtomicSums.SumsAreConserved | src/lr_builtins_extra.c:3809-3810 | along any sequential order of adds and subs the element is its first value plus the signed sum, and each result is the partial sum |
| AtomicSums.BegunIsAddedOrRunning | src/lr_builtins_extra.c:3833-3948 | at every point of a run the operands of all calls begun are those added so far and those of the calls still running |
| AtomicSums.RunConserves | src/lr_builtins_extra.c:3833-3948 | conservation over every concurrent run: once all calls have returned, the element is its first value plus the signed sum of the operands of all calls begun, modulo 2^k, and each call reports the partial sum before it |
| AtomicTail.WholeWordsAreExplainable | src/lr_builtins_extra.c:3848-3930 | in every run the calls on whole words are explained by an order, whatever is done behind them |
| AtomicTail.UpdateIsLost | src/lr_builtins_extra.c:3933-3947 | for every aligned element whose word is incomplete there is a run of two completed additions that no order explains |
| AtomicTail.AtomicIffWordHolds | src/lr_builtins_extra.c:3829-3848 | over all runs with any calls on aligned elements, the calls up to and on the word of an element are explained by an order exactly when the whole word lies within the buffer's length |
| AtomicTail.AllElementsHeldIff | src/lr_sab.h:25-37 | that is so of every aligned element exactly when the length is a multiple of four |
| AtomicPaths.CompareAndSwap | src/lr_platform.h:719-722 | the primitive stores when the word is the expected one and returns the word it found |
| AtomicPaths.SwapLoop | src/lr_builtins_extra.c:3919-3930 | the masked-word loop run alone leaves the bytes and returns the value of the sequential meaning |
| AtomicPaths.WordLoop | src/lr_builtins_extra.c:3886-3902 | the loops of and, or and xor, which swap the new word itself, do what the call means |
| AtomicPaths.WordPrimitive | src/lr_builtins_extra.c:3868-3918 | so does every case of the switch over 4-byte operations |
| AtomicPaths.ByteFallback | src/lr_builtins_extra.c:3933-3947 | so does the byte-wise fallback |
| AtomicPaths.CasApply | src/lr_builtins_extra.c:3833-3948 | the choice of path cannot be observed by a thread running alone |
| AtomicPaths.AtomicsOp | src/lr_builtins_extra.c:3756-3799 | the checks of type, kind, index and detached buffer, in order, and otherwise the call's meaning, with the result in the signedness of the array |
| AtomicPaths.ReportedFits | src/lr_builtins_extra.c:3952-3961 | the number reported is the element modulo 2^8, 2^16 or 2^32, within the range of the array's kind |
| Lz4Format.RunsReadBack | src/lr_compress.c:187-192 | a length written as any number of 255 bytes and a last one is read back |
| Lz4Format.TokenSplit | src/lr_compress.c:96-126 | both nibbles of a token are read back |
| Lz4Format.LiteralsReadBack | src/lr_compress.c:183-198 | decoding written literals copies them and moves past them |
| Lz4Format.SequenceReadBack | src/lr_compress.c:182-226 | decoding a written sequence appends its literals and its match, whether or not the match overlaps itself |
| Lz4Format.EmitThenDecode | src/lr_compress.c:175-229 | decoding any written block into a buffer large enough gives exactly what the block stands for, whatever the buffer held |
| Lz4Format.SequenceSize | src/lr_compress.c:87-126 | a sequence of n literals takes at most its own length plus n/255 bytes |
| Lz4Format.WrittenBytes | src/lr_compress.c:96-126 | the high nibble of a token counts literals, a length of 15 or more goes on in bytes, offsets are little-endian |
| Lz4Finder.MatchEndIs | src/lr_compress.c:79-85 | a match repeats earlier input, stops two bytes or more before the end, and is no longer than its offset unless it is a shortest one |
| Lz4Finder.MatchEndStops | src/lr_compress.c:79-85 | a match ends at the first place where the input differs, the source is used up, or four bytes are left |
| Lz4Finder.SearchSpreadsOut | src/lr_compress.c:65-139 | where no group of four repeats, the search looks at 0, 1, 3, 5, 8, 11 |
| Lz4Finder.HashOfText | src/lr_compress.c:29-33 | the hash of "abcd" |
| Lz4Finder.SixEqualBytes | src/lr_compress.c:44-66 | nothing is looked at within the last five bytes: six equal bytes stay literals |
| Lz4Finder.SevenEqualBytes | src/lr_compress.c:68-142 | seven equal bytes are one literal, a match of four, and two last literals, so the last five bytes are not literals |
| Lz4Finder.SevenEqualBytesWritten | src/lr_compress.c:87-160 | and the seven bytes they are written as |
| Lz4Finder.FiveLiteralsLeft | src/lr_compress.c:68-142 | five literals are left whenever no group of four bytes that ends four, three or two bytes before the end stands before within reach |
| Lz4Codec.CopyReproduces | src/lr_compress.c:215-225 | copying byte by byte from an equal earlier region reproduces the input, however short the offset |
| Lz4Codec.ProgressByMatch | src/lr_compress.c:79-130 | an emitted match carries on the invariant: the output stands for the consumed input and is at most consumed + consumed/255 long |
| Lz4Codec.ExtendMatch | src/lr_compress.c:79-85 | the loop stops where the match finder says: at the last four bytes, where the source reaches the current position, or at a difference; the match is at most its offset or four bytes long |
| Lz4Codec.PutMatch | src/lr_compress.c:110-126 | patching the token written earlier and appending offset and length completes the written sequence |
| Lz4Codec.PutSequence | src/lr_compress.c:87-130 | the check of the output size cannot fail although it ignores extension and offset bytes |
| Lz4Codec.PutLast | src/lr_compress.c:144-163 | the last literals, at least two, end the block within n + n/255 + 2 bytes |
| Lz4Codec.Compress | src/lr_compress.c:44-171 | for every input below 2^31 bytes the output is the block of the matches that the match finder finds; it stands for the input, ends in at least two literals, is at most n + n/255 + 2 bytes and lies inside the bound |
| Lz4Codec.CopyOverlapping | src/lr_compress.c:216-225 | the overlapping loop is the format's copy, or with offset 0 leaves the buffer as it was |
| Lz4Codec.Decompress | src/lr_compress.c:175-229 | on every input, malformed ones included: what is returned and what the buffer holds |
| Lz4Codec.RoundTrip | src/lr_compress.c:44-229 | decompressing what was compressed returns n and the original bytes |
| Lz4Container.HeaderAndBlock | src/lr_compress.c:267-271 | a 4-byte size in front of a block unpacks to what the block stands for |
| Lz4Container.CompressIfBeneficial | src/lr_compress.c:233-273 | the data is compressed exactly when it has 64 bytes or more and the block that the finder finds is within the ratio; then the result is the size and that block, otherwise the data |
| Lz4Container.SizeIsLittleEndian | src/lr_compress.c:267-268 | the four size bytes are the size, lowest byte first |
| Lz4Container.DecompressIfNeeded | src/lr_compress.c:274-304 | raw data is returned as it is, short data is refused, a block is decoded and must have the stored size |
| Lz4Container.ContainerRoundTrip | src/lr_compress.c:233-304 | for every data and ratio the original bytes come back |
| JsonPrinter.JsonBuf.Grow | src/lr_builtins_extra.c:480-490 | the buffer has room for what is needed and a NUL, and keeps its text |
| JsonPrinter.JsonBuf.Append | src/lr_builtins_extra.c:492-499 | the text grows by exactly what is appended |
| JsonPrinter.JsonBuf.AppendByte | src/lr_builtins_extra.c:501-507 | the text grows by exactly one byte |
| JsonPrinter.EscapeString | src/lr_builtins_extra.c:513-538 | the text grows by the quoted and escaped string |
| JsonPrinter.PrintedHasNoNul | src/lr_builtins_extra.c:562-674 | printed text has no NUL, so it survives being handed on as a C string |
| JsonPrinter.Print | src/lr_builtins_extra.c:562-674 | the recursive printer gives the text of the value, or undefined where there is none |
| JsonGrammar.PrintedIsDerived | src/lr_builtins_extra.c:562-674 | printed text is derived by the JSON grammar for the value that is kept |
| JsonGrammar.EscapedIsUnit | src/lr_builtins_extra.c:513-538 | each byte is printed as itself, an escape letter or a code that stands for it |
| JsonGrammar.DepthIsTen | src/lr_builtins_extra.c:562-565 | values are printed down to the depth of ten |
| JsonGrammar.LeavesKept | src/lr_builtins_extra.c:564-592 | undefined, functions and symbols are not kept, numbers that are not finite are null |
| JsonGrammar.ItemsKept | src/lr_builtins_extra.c:596-626 | an array keeps its length, with null for what is not kept |
| JsonGrammar.PropsKept | src/lr_builtins_extra.c:630-672 | an object keeps exactly the properties whose values are kept |
| JsonParser.Parser.ReadString | src/lr_builtins_extra.c:724-775 | the cursor parser of strings does what the parsing function says, on every text: value, position, error, or a byte stored behind its buffer |
| JsonBuffer.StringOverrunsIff | src/lr_builtins_extra.c:729-772 | a byte is stored behind the buffer of 4096 bytes exactly when 4094 stored bytes are followed by an escape that takes three |
| JsonBuffer.NoLongEscapeStaysInside | src/lr_builtins_extra.c:724-917 | a text without an escape that takes three bytes is parsed without storing a byte behind the buffer |
| JsonBuffer.PrintedStaysInside | src/lr_builtins_extra.c:562-917 | printed text, however long its strings are, is parsed without storing a byte behind the buffer |
| JsonParser.Parser.ReadNumber | src/lr_builtins_extra.c:777-804 | likewise for numbers; the value is that of `JsonNumbers.NumberRead` |
| JsonNumbers.NumberRead | src/lr_builtins_extra.c:777-804 | a number of at most 127 bytes anywhere in a text is read as the signed value (whole + fraction / 10^digits) * 10^exponent, with or without fraction and exponent, and parsing goes on behind it |
| JsonNumbers.WrittenRead | src/lr_builtins_extra.c:799-803 | so is any number by its parts, whatever their length |
| JsonNumbers.LongNumberCut | src/lr_builtins_extra.c:796-803 | of a longer number the first 127 bytes are read and all of it is skipped |
| JsonNumbers.EveryNumberHasParts | src/lr_builtins_extra.c:777-795 | wherever the parser takes a number it has such parts, so these laws cover all texts |
| JsonParser.Parser.ReadArray | src/lr_builtins_extra.c:806-832 | likewise for arrays |
| JsonParser.Parser.ReadObject | src/lr_builtins_extra.c:834-880 | likewise for objects, where a repeated key keeps its place |
| JsonParser.Parser.ReadValue | src/lr_builtins_extra.c:882-917 | likewise for values: value, position, errors and overruns |
| JsonReading.ValueRead | src/lr_builtins_extra.c:882-917 | every text of the JSON grammar, white space, escapes and repeated keys included, is read as the value its syntax tree stands for, when strings are below 4095 bytes and numbers below 128 |
| JsonReading.TextRead | src/lr_builtins_extra.c:976-995 | and so is a whole text with white space around the value |
| JsonReading.StringRead | src/lr_builtins_extra.c:724-775 | a string of plain characters, escape letters and codes is read as the characters, the codes in UTF-8 |
| JsonReading.OtherBeginningFails | src/lr_builtins_extra.c:882-917 | no value begins with any other byte |
| JsonReading.ItemsNeedMark | src/lr_builtins_extra.c:821-826 | behind an element anything but a comma or a bracket is an error |
| JsonReading.MembersNeedMark | src/lr_builtins_extra.c:869-874 | and behind a member likewise |
| JsonReading.MemberNeedsColon | src/lr_builtins_extra.c:848-854 | and behind a key anything but a colon |
| JsonGrammar.CodeIsUtf8 | src/lr_builtins_extra.c:753-763 | codes below 2^16 are stored in UTF-8 |
| JsonGrammar.FourHexDigits | src/lr_builtins_extra.c:748-752 | four hexadecimal digits are read as their place value |
| JsonGrammar.LooseCodes | src/lr_builtins_extra.c:748-763 | what strtoul makes of a sign, a prefix or fewer digits |
| JsonGrammar.LastValueWins | src/lr_builtins_extra.c:862-866 | the last value of a repeated key wins, and other keys keep theirs |
| JsonRoundTrip.UnitReadBack | src/lr_builtins_extra.c:731-768 | every escaped byte is read back as that byte |
| JsonRoundTrip.StringReadBack | src/lr_builtins_extra.c:724-775 | a quoted string is read back, or refused, by its length alone |
| JsonRoundTrip.IntReadBack | src/lr_builtins_extra.c:777-804 | a printed Int32 is read back where no digit follows |
| JsonRoundTrip.PrintedIsKept | src/lr_builtins_extra.c:562-674 | exactly the values that pruning keeps are printed |
| JsonRoundTrip.ValueReadBack | src/lr_builtins_extra.c:882-917 | a printed value standing anywhere in a text is read back as its pruned value, or refused exactly when a kept string is too long |
| JsonRoundTrip.ParseAfterStringify | src/lr_builtins_extra.c:562-917 | parsing the printed text consumes all of it and gives the value without what lies below depth 10, with undefined and functions dropped from objects and null in arrays |
| JsonRoundTrip.RoundTripIffShort | src/lr_builtins_extra.c:724-770 | and that round trip holds exactly when all kept strings and keys are below 4095 bytes |
| JsonParser.StringifyThenParse | src/lr_builtins_extra.c:676-995 | the printer followed by the parser, as code |
| Sha256.HashOneMore | src/lr_crypto.c:101-126 | absorbing one more block compresses it onto the hash of the blocks before |
| Sha256.WordAsBytes | src/lr_crypto.c:169-174 | the four bytes of a word, highest first, make up the word again |
| Sha256.PadIsLeast | src/lr_crypto.c:155-156 | the padding is the least that section 5.1.1 of FIPS 180-4 allows, and 1 to 64 bytes long |
| Sha256.BigEndianAt | src/lr_crypto.c:163-166 | the byte shifts of the length field give its big-endian form |
| Sha256.PaddedByParts | src/lr_crypto.c:153-167 | what final appends is the padding, also after the counter wrapped |
| Sha256.PadInjective | src/lr_crypto.c:153-167 | no two messages below 2^61 bytes have the same padded form |
| Sha256.Context.Transform | src/lr_crypto.c:101-126 | the unrolled schedule and rounds are the block compression of section 6.2.2, with the constants and functions of the rows that follow |
| Sha256Constants.TableIsCubeRoots | src/lr_crypto.c:82-99 | each of the 64 constants is the first 32 bits of the fraction of the cube root of its prime (section 4.2.2 of FIPS 180-4) |
| Sha256Constants.InitialIsSquareRoots | src/lr_crypto.c:128-139 | the initial hash value is that of the square roots of the first eight primes (section 5.3.3) |
| Sha256Constants.PrimesInOrder | src/lr_crypto.c:82-99 | those primes are all primes in order, by the definition of a prime |
| Sha256Bits.Ep0Bit | src/lr_crypto.c:77 | bit j of the result is set when an odd number of the bits j+2, j+13 and j+22, modulo 32, is |
| Sha256Bits.Ep1Bit | src/lr_crypto.c:78 | likewise of j+6, j+11 and j+25 |
| Sha256Bits.Sig0Bit | src/lr_crypto.c:79 | likewise of j+7, j+18 and j+3, the last only below 32 |
| Sha256Bits.Sig1Bit | src/lr_crypto.c:80 | likewise of j+17, j+19 and j+10, the last only below 32 |
| Sha256Bits.ChBit | src/lr_crypto.c:75 | each bit of the first word chooses between the bits of the others |
| Sha256Bits.MajBit | src/lr_crypto.c:76 | each bit is the majority |
| Sha256Vectors.LaterWords | src/lr_crypto.c:110-112 | the recurrence of the message schedule |
| Sha256Vectors.Sha256OfAbc | src/lr_crypto.c:101-175 | the digest of "abc" is the one the standard is published with, through all 64 rounds |
| Sha256.Context.Update | src/lr_crypto.c:141-151 | the state is the hash of all whole blocks absorbed and the buffer holds the rest, whatever the pieces |
| Sha256.Context.Final | src/lr_crypto.c:153-175 | the digest is that of the padded message |
| Sha256.DigestOfPieces | src/lr_crypto.c:128-175 | however a message is cut into updates, the digest is that of the whole message |
| JsArrays.JsArray.Set | src/engine/lr_engine.c:2621-2652 | the element reads back as stored, every other element of the array is kept, and storing behind the end makes the array longer and uncovers what the buffer held between |
| JsArrays.Relative | src/lr_builtins_core.c:2065-2070 | a position counted from either end lies within the array |
| JsArrays.RelativeLands | src/lr_builtins_core.c:2065-2070 | a position from the start is itself, one from the end that far from it, and one beyond is cut |
| ArraySplice.Shift | src/lr_builtins_core.c:2092-2119 | the in-place shifts move the slots behind the deleted ones and keep those before |
| ArraySplice.Splice | src/lr_builtins_core.c:2055-2128 | the array becomes prefix, items, suffix, and the removed array is the deleted slice, holes included |
| ArraySplice.StartAloneDeletesToEnd | src/lr_builtins_core.c:2065-2078 | with one argument everything from it on is deleted, counted from the end when negative |
| ArraySplice.CountIsClamped | src/lr_builtins_core.c:2071-2078 | a negative count deletes nothing, one too large everything behind the start |
| ArraySplice.NothingLost | src/lr_builtins_core.c:2055-2128 | prefix, deleted slots and suffix are the old array, and lengths add up |
| ArraySplice.SpliceUndone | src/lr_builtins_core.c:2055-2128 | splicing the deleted slots back in undoes a splice and returns its items |
| ArraySplice.Slice | src/lr_builtins_core.c:1923-1952 | slice without arguments copies the slots that are not undefined |
| ArraySplice.ToSpliced | src/lr_builtins_core.c:2184-2247 | the result is the splice of that copy, and the array itself is unchanged |
| ArraySplice.ToSplicedAgrees | src/lr_builtins_core.c:2184-2247 | it equals what splice would leave exactly when no undefined slot is kept or shifts the start or the end of the deletion |
| ArraySplice.NoArgumentsDeleteAll | src/lr_builtins_core.c:2065-2078 | without arguments everything is deleted, which leaves the array as ECMAScript does only when it is empty |
| ArrayCopyWithin.Positions | src/lr_builtins_core.c:980-1001 | the clamped positions and count are those of ECMAScript wherever anything is copied |
| ArrayCopyWithin.CopyBackwards | src/lr_builtins_core.c:1004-1014 | copying from the last slot on equals copying from a saved copy when the target lies behind |
| ArrayCopyWithin.CopyForwards | src/lr_builtins_core.c:1015-1025 | copying from the first slot on does so otherwise |
| ArrayCopyWithin.CopyWithin | src/lr_builtins_core.c:974-1027 | for all positions the result is that of a copy from a snapshot, all else unchanged |
| ArraySort.SwapRearranges | src/lr_builtins_core.c:2037-2041 | swapping neighbours out of order keeps the elements and the order within every class of equals |
| ArraySort.StepKept | src/lr_builtins_core.c:2010-2042 | a step of the inner loop keeps the tail in place and carries the greatest element on |
| ArraySort.BubbleSort | src/lr_builtins_core.c:2009-2043 | any comparison leaves a permutation; one that orders the elements of the array leaves it sorted and stable, and never throws |
| ArraySort.Sort | src/lr_builtins_core.c:1991-2051 | the array becomes that, and is unchanged when the comparison throws |
| ArraySort.StableSortingUnique | src/lr_builtins_core.c:1991-2051 | a sorted and stable arrangement of the elements is the only one, so the result is that of any stable sort |
| NumericSort.HasSignIffApart | src/lr_builtins_core.c:2013-2026 | the difference cut to an int has the sign of the difference, on numbers whose differences an int holds, exactly when different ones are at least one apart |
| NumericSort.SignIsPreorder | src/lr_builtins_core.c:2013-2041 | then the comparison orders them |
| NumericSort.SortedAscending | src/lr_builtins_core.c:1991-2051 | and a sort by difference leaves them ascending |
| NumericSort.CrowdedStay | src/lr_builtins_core.c:2013-2041 | numbers less than one apart stay in whatever order they are |
| NumericSort.FractionsStay | src/lr_builtins_core.c:2013-2041 | 0.9 stays in front of 0.1 |
| NumericSort.FractionsAreNoPreorder | src/lr_builtins_core.c:2013-2026 | 0, 0.9 and 1.8 are not ordered |
| NumericSort.FarNumbersAreNoPreorder | src/lr_builtins_core.c:2013-2026 | nor are 2147483647 and -1, where the cast gives the least int |
| ArraySort.ByTextIsTotal | src/lr_builtins_core.c:2027-2036 | comparing by strcmp of the texts orders any elements, so the default sort is stable too |
| ArraySort.StrcmpIsDictionaryOrder | src/lr_builtins_core.c:2027-2036 | the result is negative exactly when the first C string comes before the second as in a dictionary, and zero exactly when they are equal |
| StringSplit.Find | src/lr_builtins_core.c:3382 | the first occurrence, and none before it |
| StringSplit.SplitText | src/lr_builtins_core.c:3345-3402 | the parts of the string, cut to the limit: never more than it, none when it is negative; single characters for an empty separator |
| StringSplit.JoinOfCharacters | src/lr_builtins_core.c:3371-3376 | the single characters make up the string |
| StringSplit.JoinOfSplit | src/lr_builtins_core.c:3345-3402 | joining the parts with the separator gives the string back |
| StringSplit.NoPartContainsSeparator | src/lr_builtins_core.c:3379-3396 | no part contains the separator |
| StringSplit.SplitOfJoinIff | src/lr_builtins_core.c:3379-3396 | splitting what was joined gives the parts back exactly when each separator is the first from the start of its part on and the last part has none |
| StringSplit.JoinLength | src/lr_builtins_core.c:1572-1586 | the length that join measures beforehand |
| StringSplit.ArrayJoin | src/lr_builtins_core.c:1555-1607 | the joined text fills the measured buffer exactly; undefined and null count as empty |
| StringReplace.ReplacedLength | src/lr_builtins_core.c:3208-3210 | the length of the result, and that the estimate covers it |
| StringReplace.BuildReplaced | src/lr_builtins_core.c:3208-3281 | the result is the join of the split with the replacement, and neither reallocation is ever needed |
| StringReplace.LiteralMeetsStandard | src/lr_builtins_core.c:3160-3282 | a replacement that can be taken literally gives the result of ECMAScript, `$` patterns included, on every string |
| StringReplace.LiteralIsNeeded | src/lr_builtins_core.c:3216-3270 | for any other replacement and search there is a string on which the two differ |
| StringReplace.ReplaceAllMeetsStandardIff | src/lr_builtins_core.c:3160-3282 | so the code meets ECMAScript on all strings exactly when the replacement can be taken literally |
| StringReplace.PatternsAtWork | src/lr_builtins_core.c:3160-3282 | what the standard's patterns give on two examples |
| StringReplace.PlainMeetsStandardIff | src/lr_builtins_core.c:3178-3189 | without a dollar sign, on each string exactly when the search is not empty or the replacement is |
| StringReplace.ReplaceAll | src/lr_builtins_core.c:3160-3282 | replaceAll with text equals joining the split parts with the replacement, except for an empty search |
| Numerals.DigitsAreFew | src/lr_builtins_core.c:3972-3978 | a number below 2^k has at most k digits in any radix |
| RadixText.PrintRadix | src/lr_builtins_core.c:3968-3986 | pushing digits and reversing them gives sign and digits, at most 33 bytes |
| RadixText.ToString | src/lr_builtins_core.c:3947-3987 | the text of every number in every radix, in the decimal case by %.0f or %g; a RangeError exactly outside 2 to 36; at most 33 bytes in other radices |
| DecimalForm.GeneralTextMeans | src/lr_builtins_core.c:3961-3965 | read as sign, digits, dot, digits and exponent, the text of %g is exactly the six-digit number with its sign, so the number to half a unit of the sixth digit |
| DecimalForm.TextIsCanonical | src/lr_builtins_core.c:3961-3965 | it is in fixed form exactly for exponents from -4 to 5; no fraction is empty or ends in a zero, no whole part has a leading zero |
| DecimalForm.ScientificIsCanonical | src/lr_builtins_core.c:3961-3965 | otherwise it is one digit with an exponent of a sign and at least two digits |
| DecimalText.RoundIsNearest | src/lr_builtins_core.c:3961-3965 | the six digits of %g are the number to half a unit of the last one |
| DecimalText.BigIsScientific | src/lr_builtins_core.c:3961-3965 | from a million on %g prints one digit and then a dot or an exponent |
| Numerals.DigitsReadBack | src/lr_builtins_core.c:3971-3978 | the digits have the number as their place value, and no leading zero |
| Numerals.DigitsAreTheTable | src/lr_builtins_core.c:3971-3978 | the digits are 0 to 9 and a to z |
| Numerals.OtherDigits | src/lr_builtins_core.c:4409-4415 | capitals are read as digits, too, and no other characters are |
| RadixText.ReadInt | src/lr_builtins_core.c:4417-4460 | parseInt does what the parsing function says, on every text and radix |
| IntegerParts.PartsRead | src/lr_builtins_core.c:4417-4460 | white space, a sign, a prefix 0x where the radix is 16 or not given, digits and anything behind them are read as the signed digits in that radix, 16 behind a prefix; NaN without digits |
| IntegerParts.EveryTextHasParts | src/lr_builtins_core.c:4417-4460 | every text consists of such parts, so that covers all texts |
| IntegerParts.OtherRadixIsNaN | src/lr_builtins_core.c:4435-4437 | a radix outside 2 to 36 gives NaN |
| RadixText.PrintThenParse | src/lr_builtins_core.c:3947-4460 | parseInt reads the integer part of a printed number back in its radix, and in decimal without a radix too, unless %g printed it |
| RadixText.ReadsBackIff | src/lr_builtins_core.c:3947-4460 | what parseInt reads from what toString printed is the number exactly when it is an integer, and in decimal one below 10^15 |
| RadixText.ParseThenPrint | src/lr_builtins_core.c:3947-4460 | printing what was read gives the text back exactly for canonical texts of integers below 10^15 in decimal, or within Int32 otherwise |
| Utf8.FromCodePoint | src/lr_builtins_core.c:2439-2470 | the text is all encodings up to the first NUL, and four bytes for each argument are enough |
| Utf8.EncodedForm | src/lr_builtins_core.c:2449-2464 | the lead byte tells the length, and the bytes hold the bits of the code, six in each that follows |
| Utf8.ReadsBack | src/lr_builtins_core.c:2540-2569 | each code point is read back at the offset where its encoding begins |
| Utf8.ReadsBackIffInRange | src/lr_builtins_core.c:2439-2569 | that works for all of a text exactly when every code point is from 1 to 0x1FFFFF |
| Utf8.BeginsIffNoContinuation | src/lr_builtins_core.c:2540-2569 | encodings begin exactly at the bytes that are no continuation bytes, and at every other index the byte itself comes back |
| Base64.Encode | src/lr_encoding.c:148-186 | the encoding has length 4 * ceil(n / 3) |
| Base64.DigitsAreTheNumber | src/lr_encoding.c:168-178 | the four digits are those of three bytes read as one number, the first byte highest |
| Base64.LettersAreTheAlphabet | src/lr_encoding.c:155-158 | the letters are those of table 1 of RFC 4648 |
| Base64.Vectors | src/lr_encoding.c:148-186 | test vectors of section 10 of RFC 4648 |
| Base64.RoundTrip | src/lr_encoding.c:148-231 | decoding the encoding of any bytes gives them back |
| Base64.EncodedIsCanonical | src/lr_encoding.c:175-178 | the encoding is canonical: padding only at the end, unused bits zero (sections 3.2, 3.5 and 4 of RFC 4648) |
| Base64.CanonicalIffRoundTrip | src/lr_encoding.c:148-231 | encoding the decoding gives a text back exactly when the text is canonical |
| Base64.Btoa | src/lr_encoding.c:148-186 | btoa writes the encoding and fills its buffer exactly |
| Base64.Atob | src/lr_encoding.c:188-231 | on every text: whether all reads and writes stay inside, and if so that the buffer holds the decoding |
| Base64.AllTextsStayInsideIff | src/lr_encoding.c:206-226 | all texts of a length are read and written inside exactly when the length is a multiple of four |

## Left out

- The engine around these functions: property storage and prototype lookup behind an array's slots, garbage collection, reference counts, bytecode, JIT, promises, regular expressions, workers beyond the step machine.
- Failure of an allocation, everywhere; the error branches for it are not modelled.
- Conversions of arguments (`JS_ToInt32`, `JS_ToCString`) and their side effects; operations start from the converted values.
- Overflow of C's signed 32-bit index arithmetic (`start + delete_count`, `len + start`): indices are mathematical integers.
- AtomicMachine.StepSimulates: the hardware primitives and the plain accesses to a word are single steps, as `src/lr_platform.h` promises, and memory orders weaker than sequential consistency are not modelled. The fallback's two memory copies are one step each.
- AtomicRuns.Linearizable: says nothing about calls on the incomplete last word of a buffer while there are workers, because it is false of them (`AtomicTail.UpdateIsLost`). Calls are on aligned elements, as the typed-array constructor ensures (`src/lr_builtins_extra.c:2796`).
- Atomics.wait, notify and isLockFree.
- Lz4Codec.Decompress: the C code reads past its input when length bytes are missing; the model stops there with an outcome of its own.
- Lz4Codec.Compress: a hash table that cannot be allocated, and inputs of 2^31 bytes or more, whose positions do not fit the table.
- Lz4Finder.FiveLiteralsLeft: one way only; whether a repeated group near the end is also found depends on hash collisions and on the growing step of the search.
- JsonRoundTrip.ParseAfterStringify: numbers are Int32 values or not finite; `%.17g` and `strtod` on other numbers, toJSON and the reviver are not modelled. The parsed object keeps keys in order of appearance.
- JsonReading.ValueRead: one way only; the parser also takes texts outside the grammar, such as a string that the end of the text closes, digits left out behind a dot or an `e`, or other letters behind a backslash. `JsonParser.Parser.ReadValue` says on every text what the code does.
- JsonGrammar.CodeIsUtf8: codes of 2^16 or more, which come from negative escapes, are stored in three bytes that are not UTF-8; two escapes of a surrogate pair are two codes.
- JsonParser.Parser.ReadString: where a byte would be stored behind the buffer, the model stops with an outcome of its own.
- JsonParser.Parser.ReadNumber: rounding of the exact value to a double, and negative zero.
- Utf8.EncodedForm: codes outside 0 to 0x1FFFFF; their bytes are cut (`Utf8.ReadsBackIffInRange`).
- Sha256.DigestOfPieces: choosing the algorithm by name, and the SHA-1 placeholder.
- ArraySort.Sort: comparisons are functions of their two arguments; one that changes the array or answers differently next time is not modelled. A comparison's number is taken after the cast to int.
- NumericSort.SortedAscending: numbers are exact, so the rounding of differences to doubles is not modelled; differences beyond the Int32 range are excluded, because the cast is undefined there.
- StringReplace.ReplaceAll: replacement functions, and with them the branches that grow the buffer. Characters are bytes.
- RadixText.ToString: numbers beyond the Int32 range in radices other than 10, where the C cast is undefined; infinities, NaN and negative zero. For -2^31 the C negation overflows; the model takes the value that wrap-around gives.
- RadixText.ReadInt: the result is an exact integer, so rounding above 2^53 and negative zero are not modelled.
- WebGL, canvas, console, files, fetch, timers and the other bindings: foreign calls and one-branch facts.
