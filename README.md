# maskprocessor core in Dafny

This project models the mask-compilation and mixed-radix enumeration engine of
maskprocessor (`src/mp.c`). It also proves properties of that model. The engine works in four stages:

- It fills the six built-in charsets (`?l ?u ?d ?s ?a ?b`).
- It expands the custom charsets `-1` .. `-4` with `mp_expand`.
- It compiles the mask into slots with `add_cs_buf`, and checks the optional start-at and stop-at words against those slots with `find_pos`.
- It either prints the `--combinations` count or enumerates the words. Enumeration runs one length at a time with the odometer `next`, applying the sequence filter (`-q`, `--seq-max`) and the occurrence filter (`-r`, `--occur-max`; the usage text and the error messages call it `--occurrence-max`, a name `getopt_long` does not accept).

Modules, one file each:

| file | module | what it holds |
|---|---|---|
| `base.dfy` | `Base` | bytes, `PW_MAX`/`CHARSIZ`, the error kinds, duplicate-free byte strings |
| `radix.dfy` | `MixedRadix` | mixed-radix numerals: value, digits, one-step increment, blocks of equal prefix |
| `charsets.dfy` | `Charsets` | `hex_convert`, the built-ins, `add_cs_buf`, `find_pos`, `mp_expand` |
| `mask.dfy` | `Mask` | the mask compile loop; the start-at and stop-at checks |
| `words.dfy` | `Words` | the word of each rank, the filters, and what a pass and a run over lengths emit, stated without the odometer |
| `odometer.dfy` | `Odometer` | how the slot cursors encode a rank; what each odometer move does to it |
| `enumerator.dfy` | `Enumeration` | class `Enumerator`: cursors, word buffer and occurrence table as arrays, updated in place |
| `combinations.dfy` | `Combinations` | `mp_get_sum`, the length clamp, the 64-bit count and its relation to the words emitted |

The enumeration is specified as follows:

- Slot `i` contributes a digit of radix `|slot i|`, most significant first. The word of rank `k` spells the digits of `k` (`Words.WordAt`).
- A pass emits the words of consecutive ranks that pass the filters (`Words.Accepted`), from the first rank after priming or after the start-at word, up to the stop-at rank when the loop reaches it (`Words.PassOutput`).
- The imperative `Enumeration.Enumerator.RunLength` and `Run` are proved to produce exactly these outputs. `Words.Accepted` and `Words.PassOutput` take the word the occurrence table counts against (`base`); the run over lengths uses the empty base.

Words are emitted by appending to a returned sequence, not written to a stream.

Where the program and its design description disagree, the model follows the program:

- **Stop-at.** A stop-at match only ends the current length's pass and clears stop-at; longer lengths of an increment range are still enumerated (`src/mp.c:888-899`).
- **Start-at and stop-at length.** Both words are checked against the number of slots of the whole mask, not against each length. With an increment, each pass uses their first `len` bytes.
- **Start-at example.** A pass resumed at start-at `42` over `?d?d` emits `42` through `99`, 58 words (`Words.PassResumes`).
- **`?b` inside `mp_expand`.** It overwrites the buffer with the 256-byte charset, whose first byte is 0. The custom charset therefore loses everything expanded before it and gains nothing (`Charsets.ExpandAnyByteResets`).

In one place the run over lengths follows the evidently intended behaviour instead (see Findings):

- **Occurrence table.** The program zeroes `occurs` at every length but leaves the previous pass's bytes in `word_buf`, so the table counts the word's bytes minus those stale bytes. `Enumeration.Enumerator.RunLength` models both: with `recount` false it only zeroes the table, as the program does, and its output filters against the stale word; with `recount` true it sets the table to the word's histogram. `RunStep` and `Run` use the corrected table.

## Model

| member | source | states |
|---|---|---|
| Charsets.HexConvert | src/mp.c:155-158 | for a hex digit, the signed-char formula yields its value: '0'-'9' give 0-9, 'a'-'f' and 'A'-'F' give 10-15 |
| Charsets.HexPair | src/mp.c:243-246 | a pair of hex digits decodes to 16 * high value + low value |
| Charsets.HexPairRoundTrip | src/mp.c:243-246 | decoding the two hex digits of any byte gives that byte back (hex decoding is exact) |
| Charsets.HexPairCaseInsensitive | src/mp.c:155-158 | upper-case and lower-case hex letters decode to the same byte |
| Charsets.BuildBuiltins | src/mp.c:492-511 | the fill loops, with the `donec` marks, produce exactly the six built-in charsets |
| Charsets.SpecialsSpec | src/mp.c:506-507 | ?s holds exactly the printable bytes that are neither letters nor digits, 33 of them, each once |
| Charsets.SpecialsLayout | src/mp.c:506-507 | ?s lists 0x20-0x2F, 0x3A-0x40, 0x5B-0x60, 0x7B-0x7E in that order |
| Charsets.PrintableIsUnion | src/mp.c:497-509 | ?a contains exactly the bytes of ?l, ?u, ?d and ?s |
| Charsets.BuiltinsNoDup | src/mp.c:497-511 | no built-in charset repeats a byte |
| Charsets.DropAlnumSpec | src/mp.c:506-507 | skipping the marked letters and digits keeps exactly the other bytes, without introducing repeats |
| Charsets.FindPos | src/mp.c:299-309 | the result is -1 exactly when the byte is absent, otherwise the least index holding it |
| Charsets.Locate | src/mp.c:299-309 | the search loop returns the `find_pos` index |
| Charsets.AddCsBuf | src/mp.c:160-183 | the slot filled through the `cs_uniq` table is the deduplication of the input |
| Charsets.DedupNoDup | src/mp.c:160-183 | the slot has no repeated byte, has exactly the bytes of the input, and so has at most 256 of them |
| Charsets.DedupOrder | src/mp.c:160-183 | kept bytes appear in the order of their first occurrence in the input |
| Charsets.DedupIdempotent | src/mp.c:160-183 | an input without repeats is kept as it is |
| Charsets.Expand | src/mp.c:199-260 | the scan of a charset expression yields the specified expansion, or the syntax error |
| Charsets.ExpandLiteral | src/mp.c:250-255 | without hex mode, an expression without `?` expands to its own bytes |
| Charsets.ExpandHex | src/mp.c:235-249 | in hex mode the hex encoding of a byte string expands to that string; one trailing unpaired digit is dropped |
| Charsets.ExpandAnyByteResets | src/mp.c:225-226 | `?b` discards what was expanded before it and contributes nothing |
| Charsets.TrailingQuestionMark | src/mp.c:207-230 | a `?` at the end of an expression is a syntax error |
| Charsets.ExpandEscapedQuestionMark | src/mp.c:227-228 | `??` appends a single `?` between the bytes around it |
| Charsets.ExpandUnknownSelector | src/mp.c:229-230 | `?` followed by a byte other than l u d s a b `?` is a syntax error, whatever follows |
| Mask.CStringSpec | src/mp.c:162 | the C-string view of a buffer is its longest prefix without a 0, followed by a 0 or the buffer end |
| Mask.ExpansionIsCString | src/mp.c:513-516 | a custom charset built by `mp_expand` contains no 0, so `add_cs_buf` reads all of it |
| Mask.UserSelector | src/mp.c:585-596 | a selector names a custom charset exactly when it is '1' to '4' |
| Mask.ByteSlot | src/mp.c:622-626 | a plain byte compiles to the slot holding it alone; byte 0 gives an empty slot |
| Mask.SelectorCharset | src/mp.c:561-604 | the selector switch yields the charset the selector names, or no slot for a syntax error |
| Mask.BuiltinSlot | src/mp.c:565-579 | `?l ?u ?d ?s ?a` compile to the built-in charsets unchanged |
| Mask.CompileFrom | src/mp.c:553-631 | the only error the compile loop reports is the syntax error |
| Mask.Compile | src/mp.c:553-631 | the compile loop yields the specified slots, or the syntax error |
| Mask.CompiledWellFormed | src/mp.c:553-631 | a compiled mask of at most PW_MAX slots has at most one slot per mask byte, and no slot repeats a byte or exceeds 256 bytes |
| Mask.PlainMask | src/mp.c:622-629 | without hex mode, a mask without `?` compiles to one single-byte slot per byte |
| Mask.HexMask | src/mp.c:607-621 | in hex mode, the hex encoding of a byte string compiles to one slot per encoded byte |
| Mask.HexOddDropped | src/mp.c:609-611 | in hex mode, a trailing unpaired byte other than `?` is dropped |
| Mask.TrailingSelector | src/mp.c:557-601 | a mask ending in an unpaired `?` is a syntax error |
| Mask.Missing | src/mp.c:643-653 | the result is the first position whose byte is not found in its slot |
| Mask.WordCheckSpec | src/mp.c:635-661 | a start-at word is accepted exactly when its length is the slot count and every byte is in its slot; a wrong length is a length mismatch; otherwise the first missing position is reported |
| Mask.CheckWord | src/mp.c:635-661 | the length test and `find_pos` loop give that verdict |
| Mask.CheckOptions | src/mp.c:635-689 | start-at is checked before stop-at, and the first failure is reported |
| Mask.ChecksAdmit | src/mp.c:635-689 | both checks pass exactly when the options satisfy the enumeration's preconditions |
| MixedRadix.DigitsOfCorrect | src/mp.c:262-297 | every rank below the product of the radices has in-range digits whose value is the rank |
| MixedRadix.HornerDigits | src/mp.c:262-297 | in-range digits are recovered from their value |
| MixedRadix.HornerInjective | src/mp.c:262-297 | different in-range digit sequences have different values |
| MixedRadix.Increment | src/mp.c:274-293 | raising one digit and zeroing the maximal digits after it adds one to the value |
| MixedRadix.BlockPrefix | src/mp.c:854-861 | the ranks sharing a digit prefix form one contiguous block |
| Words.WordAtInjective | src/mp.c:262-297 | different ranks give different words |
| Words.WordRankRoundTrip | src/mp.c:262-297 | every word drawn from the slots is the word of some rank |
| Words.RankWordRoundTrip | src/mp.c:262-297 | with no empty slot, the word of every rank lies in the slots, and its rank is recovered from it |
| Words.CountUpdate | src/mp.c:268-291 | overwriting one byte lowers the count of the old byte by one and raises the count of the new byte by one |
| Words.OccurAgainstEmpty | src/mp.c:868-882 | the table test against an empty base is the occurrence filter |
| Words.StaleTableAdmits | src/mp.c:786-788 | with the previous pass's '0' left in the word buffer, "00" passes the table test for `-r 2`, although it fails the occurrence filter |
| Words.StalePassEmits | src/mp.c:786-788 | the pass of length 2 over `?d?d` with `-r 2`, counting against a buffer whose first byte is '0', emits "00" |
| Words.CountedPassRejects | src/mp.c:868-882 | the same pass with the table counting each word's own bytes does not emit "00" |
| Words.AcceptedSound | src/mp.c:825-906 | every emitted word passes the filters and is the word of a rank in range |
| Words.AcceptedComplete | src/mp.c:825-906 | every word of a rank in range that passes the filters is emitted |
| Words.AcceptedDistinct | src/mp.c:825-906 | no word is emitted twice within a pass |
| Words.AcceptedUnfiltered | src/mp.c:825-906 | with both filters off, the words of all ranks in range are emitted in rank order |
| Words.AcceptedSkip | src/mp.c:854-865 | skipping ranks that all fail the filters changes nothing emitted |
| Words.PassOutputShape | src/mp.c:792-906 | a pass emits the start-at word when given, then the kept words of the ranks its loop reaches |
| Words.PassEnumeratesAll | src/mp.c:812-906 | an unfiltered pass with no empty slot emits every word of the slots in mixed-radix order, and nothing else |
| Words.PassResumes | src/mp.c:792-810 | a resumed pass emits the start-at word, then the word of every higher rank up to the stop-at rank or the end |
| Words.PassStartsWith | src/mp.c:805-807 | a pass given a start-at word emits it first, whatever the filters |
| Words.PassStopsAt | src/mp.c:888-899 | when the loop reaches the stop-at word, it is the last word of the pass |
| Words.StopShape | src/mp.c:888-899 | a pass that halts emits exactly the ranks from its first to the stop-at rank |
| Words.StopRank | src/mp.c:890-892 | the word of a rank equals the stop-at word exactly at the stop-at rank |
| Words.PassFinish | src/mp.c:825-906 | a loop ending at the last rank or at the stop-at rank has emitted the pass output |
| Words.PassFiltered | src/mp.c:827-882 | every word a filtered pass emits, with the table counting its own bytes, has the pass length and passes both filters |
| Odometer.ConsistentWord | src/mp.c:262-297 | cursors one past the written bytes encode the rank whose word the buffer holds |
| Odometer.StepRank | src/mp.c:266-285 | one step of `next` that stops at a position adds one to the rank |
| Odometer.ExhaustedRank | src/mp.c:287-296 | `next` rolls every position over only from the last rank |
| Odometer.PrimedRank | src/mp.c:813-821 | the primed cursors stand one rank before the first word |
| Odometer.ResumedRank | src/mp.c:796-803 | the cursors set from the start-at word stand at its rank, consistently with the buffer |
| Odometer.RunCountSpec | src/mp.c:829-854 | the running `seq_cnt` reaches m exactly when a run of m equal bytes ends there |
| Odometer.ScanCovers | src/mp.c:831-839 | starting the scan at `seq_start[first]` misses no run, given the bytes before `first` had none |
| Odometer.ScanVerdict | src/mp.c:827-866 | no run found means the word passes the sequence filter; a run found means it fails |
| Odometer.StepState | src/mp.c:262-297 | a step from a standing state moves one rank forward, spells that rank's word, and keeps the unchanged prefix run-free |
| Odometer.ForcedRank | src/mp.c:856-859 | forcing the cursors after the run to exhausted never moves the rank backwards |
| Odometer.ForcedWord | src/mp.c:856-859 | every rank the forcing skips keeps the prefix up to the run |
| Odometer.ForcedRejected | src/mp.c:856-859 | every rank the forcing skips contains the run and fails the filter |
| Odometer.SkipForced | src/mp.c:856-865 | the forcing skips no word the filter keeps |
| Odometer.ForcedStands | src/mp.c:856-859 | after forcing, the loop state stands at the run end |
| Enumeration.SeqStartTable | src/mp.c:750-759 | entry len of the table is max(0, len - seq_max + 1) |
| Enumeration.Enumerator.constructor | src/mp.c:545-547 | every slot cursor, word byte and table entry starts at zero |
| Enumeration.Enumerator.Next | src/mp.c:262-297 | moves or rolls over positions from len-1 down, as described; returns -1 only when all roll over; keeps the table minus the histogram unchanged |
| Enumeration.Enumerator.Put | src/mp.c:268-291 | the byte replacement updates the table by one down and one up, keeping table minus histogram |
| Enumeration.Enumerator.Prime | src/mp.c:813-821 | cursors below len at the slot size, then cursor 0 at 0 |
| Enumeration.Enumerator.Resume | src/mp.c:794-803 | the buffer takes the start-at bytes; each cursor is one past the `find_pos` index |
| Enumeration.Enumerator.CountWord | src/mp.c:786-788 | the occurrence table becomes the histogram of the current word |
| Enumeration.Enumerator.ZeroTable | src/mp.c:786-788 | every table entry is zero, so the table counts the word's bytes minus those the buffer holds now |
| Enumeration.Enumerator.ScanRun | src/mp.c:829-862 | the scan finds the first run of m equal bytes starting at `seq_start[first]`, or reports none |
| Enumeration.Enumerator.ForceExhausted | src/mp.c:856-859 | the cursors after the run end go to their slot size; the rest are unchanged |
| Enumeration.Enumerator.OccurrenceExceeded | src/mp.c:868-882 | the verdict is the occurrence test the table stands for |
| Enumeration.Enumerator.Begin | src/mp.c:786-821 | the pass set-up stands one rank before the first rank the loop reaches; the table is the word's histogram with `recount`, and otherwise counts against the word the set-up left |
| Enumeration.Enumerator.Step | src/mp.c:825 | `next` from the loop: one rank forward with the word of that rank, or -1 exactly from the last rank |
| Enumeration.Enumerator.SeqSkip | src/mp.c:827-866 | on a run, the odometer jumps to the end of the block and every skipped rank fails the filter; with no run, the word passes |
| Enumeration.Enumerator.Filter | src/mp.c:827-882 | a word is kept exactly when it passes both filters, and skipped ranks add nothing |
| Enumeration.Enumerator.Advance | src/mp.c:825-882 | one turn extends the kept words by the word at the new rank when it is kept |
| Enumeration.Enumerator.AtStop | src/mp.c:888-899 | the two comparisons succeed exactly at the stop-at rank |
| Enumeration.Enumerator.Turn | src/mp.c:825-906 | one turn keeps the output equal to the kept words of the ranks reached |
| Enumeration.Enumerator.Drive | src/mp.c:825-906 | the loop of a pass emits the kept words until the last rank or the stop-at rank |
| Enumeration.Enumerator.RunLength | src/mp.c:763-911 | a length pass emits exactly the specified pass output, filtering against the buffer's previous word when the table is only zeroed, and halts exactly at the stop-at rank |
| Enumeration.Enumerator.RunStep | src/mp.c:763-911 | one length pass keeps emitted-so-far plus the rest equal to the whole run |
| Enumeration.Enumerator.Run | src/mp.c:763-911 | the run over the lengths, with the corrected table, emits exactly the specified run output |
| Enumeration.Enumerator.StalePasses | src/mp.c:763-911 | the passes of lengths 1 and 2 with the table only zeroed: the second filters against the word the first left, whose head is the first byte of slot 0 |
| Enumeration.StaleOccurrenceRun | src/mp.c:763-911 | `-i 1:2 -r 2 ?d?d` with the table only zeroed, as the program does, emits "00" |
| Combinations.GetSum | src/mp.c:185-197 | the result is the product of the first n slot sizes modulo 2^64 (1 for n = 0) |
| Combinations.CountCombinations | src/mp.c:724-733 | the count is the sum of those products over min .. max, modulo 2^64 |
| Combinations.LengthRange | src/mp.c:691-718 | min and max are the mask length, or the increment bounds capped at the mask length |
| Combinations.LengthRangeFits | src/mp.c:716-717 | a length is in the range exactly when the mask supplies it and it is at most the requested maximum and at least the requested minimum (or the mask length) |
| Combinations.SizeProductTotal | src/mp.c:185-197 | without empty slots, the product of the slot sizes is the number of ranks |
| Combinations.PassCount | src/mp.c:185-197 | an unfiltered pass emits as many words as `mp_get_sum` of its length |
| Combinations.EmptyPass | src/mp.c:262-297 | the pass of length 0 emits nothing |
| Combinations.RunCount | src/mp.c:724-733 | from length 1 up, the run emits as many words as the unwrapped count |
| Combinations.ZeroLengthCounted | src/mp.c:724-733 | a run from length 0 emits one word fewer than the count |
| Combinations.WordCount | src/mp.c:724-733 | the corrected count, which skips length 0, is never negative |
| Combinations.WordCountMatches | src/mp.c:724-733 | the corrected count equals the number of words an unfiltered run emits |

## Left out

- Option parsing (`getopt_long`, `atoi`, `strtok`) and the increment syntax errors at `src/mp.c:696-710` are not modelled; they are command-line plumbing. The option exclusions at `src/mp.c:416-470` appear only as preconditions (`Words.Options`).
- Output buffering, the files, the usage text, the error messages and the platform line terminators are not modelled. Emitted words are appended to a returned sequence.
- How `main` wires the parts together is not one member: parse, expand the custom charsets, compile, check, then count or enumerate. Each part is modelled and the next part takes the previous one's result as a parameter.
- The program indexes `cs_uniq` and `occurs` with signed `char` values, which is negative for bytes 0x80-0xFF. The model indexes by the byte value 0-255. `hex_convert` is the exception: its signed-char arithmetic is written out.
- The fixed buffers (`css[PW_MAX]`, the 256-byte `out_buf` of `mp_expand`) are not bounded in the model, so overflowing them is not modelled. `Mask.CompiledWellFormed` requires at most PW_MAX compiled slots, the size of `css`.
- The line terminator is not modelled. The program writes it at `word_buf[len]` (`src/mp.c:774`, and `len + 1` at `780-781`) in a buffer of PW_MAX bytes, so a pass of length 256 writes past the buffer.
- Masks, start-at and stop-at words come from `argv`, so they hold no 0 byte. The model takes them as byte strings. A custom charset buffer is modelled by its C-string content; `Mask.ExpansionIsCString` shows nothing is lost by that.
- The word buffer is uninitialised in the program. The model starts it at zeros, which is what the first pass's table counts against when it is only zeroed.
- Enumeration.Enumerator.Run: uses the corrected occurrence table. The program's stale table is modelled by `RunLength` with `recount` false, and shown on one run by `Enumeration.StaleOccurrenceRun`, but `Run` states no output for it.
- Enumeration.Enumerator.Run: requires a first length of at least 0. With a negative `-i` minimum the program writes outside `word_buf`.
- Enumeration.Enumerator.RunLength: requires `--seq-max` to be 0 or at least 2, as the option checks enforce. Negative values from `atoi` are not modelled.
- Combinations.WordCountMatches: stated only when no slot is empty. An empty slot (`?1` without `-1`, or the hex pair `00`) has size 0, so the count is 0. A pass still emits words holding byte 0 there, because the program reads the zeroed buffer.
- Combinations.RunCount: relates the words to the unwrapped sum. The printed count is that sum modulo 2^64 (`Combinations.CountCombinations`).

## Findings

| source | as written | input that shows it | evidently intended | confidence | as-written member | corrected member |
|---|---|---|---|---|---|---|
| src/mp.c:786-788 | `occurs` is zeroed for each length while `word_buf` still holds the previous pass's bytes. The first `next` subtracts them, so the table undercounts the new word. | `-i 1:2 -r 2 ?d?d`: the pass of length 2 emits `00`. | The table is the histogram of the current word, so `00` is rejected (`Words.CountedPassRejects`). | not executed; relies on `word_buf` keeping its storage between iterations | Enumeration.StaleOccurrenceRun | Enumeration.Enumerator.CountWord |
| src/mp.c:724-733 | The count adds `mp_get_sum(0) == 1` for length 0, but the pass of length 0 emits nothing. | `-i 0:1 --combinations ?l` prints 27, but the same run emits 26 words. | The count equals the number of words emitted. | not executed | Combinations.ZeroLengthCounted | Combinations.WordCount |
