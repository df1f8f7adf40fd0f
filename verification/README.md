# B7 core, modelled in Dafny

B7 is a brute-forcer for programs that check their input one piece at a time.
It runs the target once per candidate input and counts the instructions each
run executes. The candidate that makes the target do the most (or least) work
is taken to be right, and the search moves on to the next piece. This project
models the deterministic core of that search:

- **Candidate generators** (`src/generators/mod.rs`, `src/generators/stdin.rs`,
  `src/generators/common.rs`, and the older `src/generators.rs`). Each is a
  small state machine that follows one round protocol. `next` is called until
  it returns `None`, which collects the candidates of a round. `update(chosen)`
  then records the winner and says whether another round is needed. Here a
  generator is an immutable record. `Next` returns `(Option<Candidate>, state')`
  and `Update` returns `(bool, state')`. `Input::combine` merges a round's
  winner into the solved input. `MemInput::parse_from_arg` reads the
  `addr=…,size=…,init=…` command-line form of a memory input.
- **Outlier selection** (`src/statistics.rs`). `get_average` is a truncating
  integer mean. `find_outlier` is the arg-max of `|count − mean|`, and a tie
  goes to the first index.
- **UI state** (`src/b7tui.rs`). `TabsState` and the key handling of `wait`
  and `done` are pure steps on a `View` record. The keyboard becomes a
  sequence of keys. `update` contributes its run counter.
- **The sample targets** (`mem_brute/*.c`; `tests/mem_brute/mem_brute_breakpoint.c` is a byte-identical copy of `mem_brute/mem_brute_breakpoint.c`, so its rows below cover both). `mem_eq`
  prints every index it compares and stops at the first mismatch, so the
  output (and the instruction count) grows with the length of the correct
  prefix. `zero_buf` clears the buffer. `main` prints the verdict.

Rust's fixed-width integers are subset types (`u8`, `u16`, `u32`, `u64`,
`usize` as 64 bits, `i64`). Where the source would overflow or index out of
bounds, the model either has a `requires`, because a debug build panics
there, or returns an explicit panic outcome (`Err`/`Panic`) when the panic
comes from ordinary use of the operation.

Files: `machine.dfy` (integer widths, `Option`/`Result`, sequence helpers),
`arith.dfy` (division facts), `common.dfy`, `hex.dfy`, `memarg.dfy`,
`len_generators.dfy`, `argv_generators.dfy`, `stdin_generator.dfy`,
`mem_generator.dfy`, `legacy_generators.dfy`, `statistics.dfy`, `tui.dfy`,
`mem_brute.dfy`.

## Model

| member | source | states |
|---|---|---|
| Common.Combine | src/generators/common.rs:29-48 | Each of `argv`, `stdin` and `mem` comes from `tmp` exactly when `tmp`'s field is non-empty. `stdinlen` comes from `tmp` when non-zero. `argc` always stays `self.argc`, as written. |
| Common.CombineIntended | src/generators/common.rs:34-36 | The corrected merge takes `argc` from `tmp` when it is non-zero. It agrees with `Combine` on every other field. |
| Common.CombineEmptyIsIdentity | src/generators/common.rs:29-48 | Merging in `Input::new()` changes nothing, in both versions. |
| Common.CombineIdempotent | src/generators/common.rs:29-48 | Merging the same candidate twice equals merging it once. |
| Common.CombineAssociative | src/generators/common.rs:29-48 | Merging is associative: how successive round winners are grouped into the solved input does not matter. The order does, since the later input wins. |
| Common.CombineFullCandidateWins | src/generators/common.rs:29-48 | A candidate with every field set replaces everything except `argc`. The corrected merge replaces `argc` too. |
| Common.CombineDropsArgc | src/generators/common.rs:34-36 | Merging the argc candidate (argc 2, two empty arguments) into the default input gives `argc == 0` as written. The corrected merge gives 2. |
| Hex.DecodeBase16 | src/generators/mod.rs:30-34 | `hex::decode` succeeds exactly on even-length all-hex text. Byte `k` is the value of digits `2k`, `2k+1`. |
| Hex.EncodeBase16 | src/generators/mod.rs:52-61 | `hex::encode` writes two digits per byte. |
| Hex.DecodeEncode | src/generators/mod.rs:30-34 | Decoding an encoding gives the bytes back. |
| Hex.EncodeDecode | src/generators/mod.rs:30-34 | Encoding the decoding of lower-case hex text gives the text back. |
| Hex.ParseUsizeHex | src/generators/mod.rs:37-46 | `usize::from_str_radix(s, 16)` succeeds exactly on an optional `+` followed by one or more hex digits whose value fits 64 bits. The result is that value. |
| Hex.ParseFormatHex | src/generators/mod.rs:39 | Every `usize` printed in plain hex parses back to itself. |
| Hex.PlusSignIgnored | src/generators/mod.rs:39 | One leading `+` is accepted and ignored. Two are refused. |
| MemArg.Split | src/generators/mod.rs:21-22 | `split(',')` yields at least one piece, and no piece contains the separator. |
| MemArg.JoinSplit | src/generators/mod.rs:21-22 | Joining the pieces of a split restores the text. |
| MemArg.SplitJoin | src/generators/mod.rs:21-22 | Splitting joined separator-free pieces restores the pieces. |
| MemArg.SplitCount | src/generators/mod.rs:21-22 | A split yields one more piece than there are separators. |
| MemArg.KeyValue | src/generators/mod.rs:23-27 | `collect_tuple` of `split('=')` yields a pair exactly when the item has one `=`. Key, `=` and value spell the item back. |
| MemArg.Pairs | src/generators/mod.rs:21-28 | The list parses exactly when every item is one pair. The pairs come in item order. |
| MemArg.LastValue | src/generators/mod.rs:28 | The value of the last pair with the key, found by searching backwards. `None` exactly when the key is absent. |
| MemArg.ToMapLastWins | src/generators/mod.rs:28 | Collecting into a `HashMap` keeps exactly the keys that occur, each with its last value. |
| MemArg.ParseFromArg | src/generators/mod.rs:19-49 | A malformed item gives "invalid usage". `init` defaults to empty. The checks run init, then address, then size, each yielding its own error (missing or invalid). On success the result is `MemInput(size, addr, decoded init)`. |
| MemArg.ParseExamples | src/generators/mod.rs:23-26 | `a=b,a` is refused as invalid usage. |
| MemArg.ParseAddrSizeExample | src/generators/mod.rs:19-49 | `addr=f,size=2` parses to address 15, size 2 and no bytes. |
| LenGenerators.Tick | src/generators/mod.rs:129-134 | The shared counter of `next` offers `len` and advances while `len <= max`. Once `len > max` it offers nothing and stays put. |
| LenGenerators.DrainEnumerates | src/generators/mod.rs:129-139 | A whole round offers exactly `len, len+1, …, max` in order, each with its built input. |
| LenGenerators.NewLenGenerator | src/generators/mod.rs:111-117 | `new(min, max)` starts at `min` with nothing chosen. |
| LenGenerators.StdinLenInput | src/generators/mod.rs:135-137 | The candidate for length `sz` has `stdinlen = sz` and `sz` bytes `0x41`. |
| LenGenerators.ArgcInput | src/generators/mod.rs:200-202 | The candidate for count `sz` has `argc = sz` and `sz` empty arguments. |
| LenGenerators.StdinLenNext | src/generators/mod.rs:129-139 | `StdinLenGenerator::next` returns `None` exactly past `max`. Otherwise it offers `(len, StdinLenInput(len))` and advances by one. |
| LenGenerators.ArgcNext | src/generators/mod.rs:194-204 | `ArgcGenerator::next` returns `None` exactly past `max`. Otherwise it offers `(len, ArgcInput(len))` and advances. |
| LenGenerators.LenUpdate | src/generators/mod.rs:153-157 | `update` records `chosen` and returns false: the search takes a single round. |
| LenGenerators.StdinLenRound | src/generators/mod.rs:111-157 | From `new(min, max)`, one round offers lengths `min..=max` in order, each as that many `A`s. The update then ends the search. |
| LenGenerators.ArgcRound | src/generators/mod.rs:177-222 | From `new(min, max)`, one round offers counts `min..=max` in order. Each candidate has that `argc` and exactly that many empty arguments. |
| LenGenerators.NextIsDrainHead | src/generators/mod.rs:129-204 | For both `StdinLenGenerator::next` and `ArgcGenerator::next`, one step is the head of the round, and the advanced state drains the rest. |
| ArgvGenerators.NewArgvLen | src/generators/mod.rs:247-256 | `new(argc, min, max)` starts at argument 0 with `argc` zero lengths. It records `argc` and `min`, and its counter sweeps `min..=max`. |
| ArgvGenerators.ArgvLenArguments | src/generators/mod.rs:274-282 | The candidate holds `argc` strings of `A`s: length `sz` at `pos`, the recorded length elsewhere. |
| ArgvGenerators.ArgvLenNext | src/generators/mod.rs:267-286 | Returns `None` exactly past `max`. Otherwise it offers `len` as the length of argument `pos`, with every other argument at its recorded length, and advances. |
| ArgvGenerators.ArgvLenUpdate | src/generators/mod.rs:302-309 | Records `chosen` at `pos` only, moves to `pos+1` and resets the counter to `min`. Returns true exactly while arguments remain. |
| ArgvGenerators.ArgvLenUpdatesRecord | src/generators/mod.rs:302-309 | Successive rounds fill the lengths in argument order and leave the rest unchanged. |
| ArgvGenerators.ArgvLenSolvesAll | src/generators/mod.rs:247-309 | From `new`, `argc` rounds leave exactly the chosen lengths, and the last update ends the search. |
| ArgvGenerators.NewArgv | src/generators/mod.rs:338-351 | `new(argc, len, min, max)` records `argc`, `len`, `min` and `max`, pads with `A`, and starts at argument 0, byte 0, `cur = min`, with `argc` empty solved arguments and nothing in `current`. |
| ArgvGenerators.ArgvArguments | src/generators/mod.rs:390-398 | The candidate holds the solved arguments before `pos`, the guess at `pos`, and padding of each argument's length after it. |
| ArgvGenerators.ArgvSkip | src/generators/mod.rs:366-371 | A zero-length argument at `pos` is skipped (once, `pos + 1`). Otherwise the state is unchanged. |
| ArgvGenerators.ArgvNext | src/generators/mod.rs:362-402 | As written: nothing for `argc == 0`. Otherwise, after the skip, it offers `cur` exactly when the argument at `pos` exists, still has a byte to find, and `cur` is at most 255 and `max`. Only `pos` and `cur` change. The guess at `pos` is `current + [cur]` cut or padded to that argument's length. |
| ArgvGenerators.ArgvNextIntended | src/generators/mod.rs:379-388 | Corrected: offers `cur` under exactly the same conditions and moves the state the same way. The candidate is the argument list with the solved arguments before `pos`, that argument's own solved bytes plus `cur` at `pos`, and padding after. |
| ArgvGenerators.ArgvUpdate | src/generators/mod.rs:418-437 | Past the last argument it returns false and changes nothing. Otherwise it appends `chosen` to argument `pos` and to `current`, resets `cur` to `min`, and moves to the next argument once this one is complete. `len`, `padchr`, `min`, `max`, `argc` and the other arguments are unchanged. |
| ArgvGenerators.NewArgvAligned | src/generators/mod.rs:338-351 | `new` establishes the bookkeeping: earlier arguments complete, later ones empty, `idx` bytes at `pos`. |
| ArgvGenerators.ArgvNextKeepsAligned | src/generators/mod.rs:362-402 | `next` keeps the bookkeeping, in both versions. |
| ArgvGenerators.ArgvUpdateKeepsAligned | src/generators/mod.rs:418-437 | `update` after an offering round keeps the bookkeeping. |
| ArgvGenerators.IntendedGuessAtIdx | src/generators/mod.rs:379-388 | In the corrected generator the byte on offer sits at index `idx` of the argument, after its solved bytes. |
| ArgvGenerators.ArgvRoundOffers | src/generators/mod.rs:362-402 | As written, a round offers nothing when no argument is left or the one at `pos` is complete. Otherwise it offers ids `cur..=min(max, 255)` in order, each with the argument list built from `current` plus that id. |
| ArgvGenerators.ArgvRoundIds | src/generators/mod.rs:372-378 | The ids of a round, as written, are `cur` counting up to `min(max, 255)`, and there are none when the round cannot start. |
| ArgvGenerators.ArgvRoundInputs | src/generators/mod.rs:379-398 | Each candidate of a round, as written, holds the argument list built from `current` plus its own id. |
| ArgvGenerators.ArgvIntendedRoundOffers | src/generators/mod.rs:362-402 | The corrected round offers the same ids as the written one. Each candidate holds that argument's own solved bytes plus its id at `pos`. |
| ArgvGenerators.SecondArgumentIgnoresGuess | src/generators/mod.rs:379-388 | With two one-byte arguments and the first solved as `a`, every as-written candidate for the second argument is `"a"`. The corrected one is the offered byte. |
| StdinGenerator.NewStdinChar | src/generators/stdin.rs:25-37 | `new(input, min, max)` pads to `input.stdinlen` with `0x41`, starts at byte `min` of position 0, and knows nothing yet. |
| StdinGenerator.NewStdinCharStart | src/generators/stdin.rs:39-51 | Like `new`, with `start` as prefix and `idx = start.len() as u32` (equal to the length below 2^32). |
| StdinGenerator.SetPadchr | src/generators/stdin.rs:55-57 | Changes only the padding byte. |
| StdinGenerator.SetPrefix | src/generators/stdin.rs:58-60 | Changes only the prefix. |
| StdinGenerator.SetSuffix | src/generators/stdin.rs:61-63 | Changes only the suffix. |
| StdinGenerator.StdinCandidate | src/generators/stdin.rs:81-92 | The candidate has exactly `padlen` bytes: prefix, solved bytes, the byte on offer and the suffix, as far as they fit, then padding. |
| StdinGenerator.StdinCharNext | src/generators/stdin.rs:74-96 | `None` exactly when `idx >= padlen`, `cur > 255` or `cur > max`. Otherwise it offers byte `cur` and only `cur` advances. |
| StdinGenerator.StdinCharUpdate | src/generators/stdin.rs:110-116 | Appends `chosen`, advances `idx`, resets `cur` to `min`. Returns true exactly while `idx < padlen`. |
| StdinGenerator.StdinRoundOffers | src/generators/stdin.rs:74-96 | A round offers `cur, cur+1, …, min(max, 255)` in order, each as a `padlen`-byte input. A solved generator offers nothing. |
| StdinGenerator.StdinRoundIds | src/generators/stdin.rs:74-80 | The ids of a round count up from `cur` by one, and there are as many as bytes from `cur` to `min(max, 255)`. |
| StdinGenerator.StdinRoundInputs | src/generators/stdin.rs:79-95 | Each candidate of a round carries the input built for its own byte. |
| StdinGenerator.StdinRoundAtMost256 | src/generators/stdin.rs:76 | A round has at most 256 candidates. |
| StdinGenerator.AlignedKept | src/generators/stdin.rs:25-116 | `idx == |prefix| + |solved|` holds after `new`, after `new_start` (start below 2^32 bytes), and after `update`, `set_padchr`, `set_suffix` and `next`. |
| StdinGenerator.GuessAtIdx | src/generators/stdin.rs:81-92 | When aligned, the candidate carries the offered byte at index `idx`, after prefix and solved bytes. |
| MemGenerators.NewMem | src/generators/mod.rs:451-456 | `new` starts at byte 0 with the given memory input. |
| MemGenerators.MemNext | src/generators/mod.rs:472-497 | `None` exactly when `cur > 255` or the region is complete. Otherwise it offers byte `cur` appended to the known bytes, at the same address and size, as the only memory input. |
| MemGenerators.MemUpdate | src/generators/mod.rs:504-509 | Appends `chosen`, resets `cur` to 0, and returns true exactly when the region is still incomplete. |
| MemGenerators.MemRoundOffers | src/generators/mod.rs:472-497 | A round offers bytes `cur..=255` in order, each appended to the known bytes. A finished generator offers nothing. |
| MemGenerators.FreshRoundTriesEveryByte | src/generators/mod.rs:451-497 | A fresh generator for an incomplete region offers all 256 bytes, candidate `b` with id `b`. |
| MemGenerators.MemUpdatesAppend | src/generators/mod.rs:504-509 | Successive rounds append the chosen bytes in order, keeping address and size. Another round is requested exactly until the length equals the size. |
| MemGenerators.OverfullNeverFinishes | src/generators/mod.rs:464-466 | `finished` compares with `==`, so a region with more initial bytes than its size always asks for another round. |
| LegacyGenerators.NewLegacyInput | src/generators.rs:11-16 | The older `Input::new(argv, stdin)` stores both as given. |
| LegacyGenerators.LegacyStdinLenInput | src/generators.rs:91 | The older candidate for length `sz`: no arguments, `sz` bytes `0x41`. |
| LegacyGenerators.LegacyStdinLenNext | src/generators.rs:85-92 | `None` exactly past `max`. Otherwise it offers `sz` with `sz` `A`s and advances. |
| LegacyGenerators.LegacyStdinLenRound | src/generators.rs:69-108 | One round offers `min..=max` in order. `update` records `chosen` and returns false. |
| LegacyGenerators.NewLegacyStdinChar | src/generators.rs:129-139 | `new(padlen)` starts with `idx = 0`, `cur = 0`, padding `0x41`, and empty prefix, suffix and solved bytes. |
| LegacyGenerators.LegacySetPadchr | src/generators.rs:141-143 | Changes only the padding byte, exactly as `set_padchr` of the current generator does. |
| LegacyGenerators.LegacySetPrefix | src/generators.rs:144-146 | Changes only the prefix, exactly as `set_prefix` of the current generator does. |
| LegacyGenerators.LegacySetSuffix | src/generators.rs:147-149 | Changes only the suffix, exactly as `set_suffix` of the current generator does. |
| LegacyGenerators.LegacyStdinCharNext | src/generators.rs:159-177 | `None` exactly when `idx >= padlen` or `cur > 255`. Otherwise it offers `cur` in a `padlen`-byte input with the byte at position `|prefix| + |correct|` when that is below `padlen`. |
| LegacyGenerators.LegacyStdinCharUpdate | src/generators.rs:189-195 | Appends `chosen`, advances `idx`, resets `cur` to 0, and returns `idx < padlen`. |
| LegacyGenerators.LegacyIsCurrentFullRange | src/generators.rs:129-195 | The older generator behaves step for step as the current one with `min = 0`, `max = 255`: same offers, same moves, same flag. |
| LegacyGenerators.LegacyRoundOffers | src/generators.rs:159-177 | A round offers `cur..=255` in order, each with exactly `padlen` bytes: at most 256 candidates. |
| Statistics.TruncDiv | src/statistics.rs:9-12 | Rust's `/` on `i64`: the quotient truncated toward zero, characterised by its bounds on both signs. |
| Statistics.TruncDivVersusFloor | src/statistics.rs:9-12 | Truncation equals flooring division for non-negative or exact dividends, and exceeds it by one otherwise. |
| Statistics.Average | src/statistics.rs:5-13 | `get_average` panics ("Divide by zero!") exactly on the empty slice. Otherwise it is the sum over the length, truncated toward zero, and fits `i64`. |
| Statistics.AverageExamples | src/statistics.rs:44-56 | The unit tests: `[] ` panics, `[0]→0`, `[1]→1`, `[0,1]→0`, `[1,3]→2`. Also `[-1,0]→0`, which shows the truncation. |
| Statistics.AverageWithinRange | src/statistics.rs:5-13 | The mean lies between any lower and upper bound of the counts. |
| Statistics.OutlierUnique | src/statistics.rs:21-29 | At most one index is farthest from the mean with every earlier index strictly nearer, so the choice is determined. |
| Statistics.FindOutlier | src/statistics.rs:16-37 | Panics on the empty slice. Otherwise it returns `Some` of the index farthest from the mean, the first one on a tie, and never `None`. |
| Statistics.OutlierTestExample | src/statistics.rs:58-66 | In the outlier test data (counts 0, 0, 1) the mean is 0 and the third entry is the outlier, which is the commented-out assertion of that test. |
| Tui.NewTabs | src/b7tui.rs:27-29 | `new` stores the titles and starts at index 0. |
| Tui.TabsNext | src/b7tui.rs:30-32 | `next` moves to `(index + 1) mod len`, wrapping to 0 after the last tab. Titles are unchanged. |
| Tui.TabsPrevious | src/b7tui.rs:34-40 | `previous` decrements, or wraps from 0 to `len − 1`. Titles are unchanged and an index in range stays in range. |
| Tui.NextPreviousInverse | src/b7tui.rs:30-40 | For an index in range, `previous` undoes `next` and `next` undoes `previous`. |
| Tui.NextTimesCycles | src/b7tui.rs:30-32 | `n` presses of `next` give index `(index + n) mod len`. |
| Tui.NewView | src/b7tui.rs:108-131 | A fresh UI has no runs, gap 0, hex format, two tabs at index 0, no selection, repeat 1 and timeout 5. |
| Tui.SetTimeout | src/b7tui.rs:337-339 | Sets only the timeout, in whole seconds. |
| Tui.RecordRun | src/b7tui.rs:358-361 | A new round increments `numrun`. A view that showed the newest run follows to the new one. A valid run position stays valid. Overflow panics. |
| Tui.CommonKey | src/b7tui.rs:373-432 | The keys both loops share: `h`/`d`/`s` set the format to hex, decimal and string and change nothing else. Left stops at run 1. `=` adds one to the gap and panics at 65535. `-` stops at 0. |
| Tui.SelectUp | src/b7tui.rs:394-408 | Up moves the selection up, stopping at 0. No selection becomes 0. |
| Tui.SelectDown | src/b7tui.rs:410-424 | Down moves the selection down while below the bound. No selection becomes 0. |
| Tui.WaitKey | src/b7tui.rs:370-498 | `q` panics. `c` toggles `cont` and leaves the loop when it becomes set. Right advances or leaves at the newest run. Up/Down act only on the second tab, within the two options. `.`/`,` move the tab by one, clamped to the range. Every other key, Enter off the options tab included, leaves the view unchanged. |
| Tui.ParseDigits | src/b7tui.rs:474-489 | Parsing a digit buffer succeeds exactly when it is non-empty and its value fits the type. |
| Tui.AsI32 | src/b7tui.rs:448-451 | `x as i32` keeps the low 32 bits as a two's-complement value. |
| Tui.ApplyBuffer | src/b7tui.rs:472-492 | Entry 0 stores the buffer into `repeat` and entry 1 into `timeout`. An unparsable buffer stores 0 and clears the buffer. Any other entry changes nothing. |
| Tui.EditOption | src/b7tui.rs:444-496 | The option editor reads up to the next Enter and changes at most the selected option. |
| Tui.EditStoresNumber | src/b7tui.rs:458-494 | Typing any non-empty number and Enter, with `repeat` or `timeout` selected, stores the number typed (after the buffer's digits) into that option when it fits the option's type, and the editor stops right after that Enter. |
| Tui.Wait | src/b7tui.rs:367-504 | With `cont` set, `wait` returns at once without reading a key. |
| Tui.WaitLoop | src/b7tui.rs:370-501 | The loop consumes keys and reports running out of input only with no keys left. |
| Tui.WaitKeyKeeps | src/b7tui.rs:382-443 | One key of `wait` keeps the run position valid, the tab in range and the option selection below 2. |
| Tui.EditKeeps | src/b7tui.rs:444-496 | The option editor keeps that invariant. |
| Tui.WaitKeeps | src/b7tui.rs:367-504 | A whole `wait` call, and its key loop, keep that invariant however they end. |
| Tui.EditTimeoutExample | src/b7tui.rs:458-494 | Typing `7`, `5`, Enter with the timeout selected sets it to 75. |
| Tui.DoneKey | src/b7tui.rs:508-561 | `q` and `p` panic. Right stops at the newest run. Up stops at 0. Down stops at `history.len()`. Nothing leaves the loop. |
| Tui.Done | src/b7tui.rs:506-566 | `done` only ends when input runs out or a key panics. |
| Tui.DoneRunsOut | src/b7tui.rs:506-566 | Without a `q`, `p` or `=` key, `done` reads every key and ends only when input runs out. |
| Tui.DoneQuitsAtQ | src/b7tui.rs:506-511 | The first `q` after such keys ends `done` with the "Quitting" panic, whatever follows. |
| Tui.DoneKeeps | src/b7tui.rs:506-566 | `done` keeps `1 <= currun <= numrun` (or both 0) and the selection at most `history.len()`. |
| Tui.GapKeys | src/b7tui.rs:425-432 | `-` never takes the gap below 0. `=` adds exactly one, and `-` then undoes it. Both loops agree. |
| MemBrute.MismatchFromSpec | mem_brute/mem_brute.c:13-18 | The scan from index `i` stops at the first differing index, or at `size`. |
| MemBrute.FirstMismatchSpec | mem_brute/mem_brute.c:13-18 | The first mismatch is the least differing index. It equals `size` exactly when all `size` bytes agree. |
| MemBrute.MemEq | mem_brute/mem_brute.c:9-21 | `mem_eq` is true exactly when the first `size` bytes agree. The printed trace is `0, 1, …, k` with `k` the first mismatch, or `size − 1`, and it is empty for `size == 0`. |
| MemBrute.ZeroBuf | mem_brute/mem_brute_breakpoint.c:10-15 | `zero_buf` sets every byte below `size` to 0 and leaves the rest unchanged. |
| MemBrute.Verdict | mem_brute/mem_brute.c:25-29 | The verdict is `Correct!` exactly when all 27 bytes equal the password with its NUL, and `Wrong` otherwise. |
| MemBrute.MemBruteMain | mem_brute/mem_brute.c:23-30 | `main` compares the 27-byte buffer, prints the trace and then the verdict. |
| MemBrute.Write | tests/run_mem_brute.rs:72-77 | The brute-forcer's memory write replaces the start of the buffer and keeps the rest. |
| MemBrute.BreakpointMain | mem_brute/mem_brute_breakpoint.c:31-40 | `main` zeroes the buffer, applies the breakpoint write if any, then compares and prints. |
| MemBrute.ZeroedFailsAtFirstByte | mem_brute/mem_brute_breakpoint.c:33-39 | Without a write after `zero_buf`, the trace is just `[0]` and the verdict is `Wrong`. |
| MemBrute.LettersOverZeroesSucceed | mem_brute/mem_brute.c:4-7 | Writing the 26 letters over the zeroed static buffer yields the 27-byte password, so all 27 indices print and the verdict is `Correct!`. |
| MemBrute.TraceGrowsWithPrefix | mem_brute/mem_brute.c:13-18 | A buffer right on its first `k` bytes and wrong at byte `k` prints exactly `k + 1` indices, and the verdict is `Wrong`. |
| MemBrute.EmptyCompare | mem_brute/mem_brute.c:13 | A zero-size comparison prints nothing. |
| MemBrute.RightByteScansFurther | mem_brute/mem_brute.c:13-18 | With `k` correct bytes, trying byte `b` at position `k` prints one more index exactly when `b` is right. This is the side channel the search relies on. |

## Left out

- The brute-force driver (`src/brute.rs`): threads, process execution, instruction counting (perf and DynamoRIO back ends), signal and `siginfo` handling, the command-line front end, build scripts. They are I/O or foreign code. The model takes a round's candidates and its chosen id as given.
- Terminal drawing in `src/b7tui.rs` (`redraw`, widget layout, the bar-chart cache built by `update`): presentation over the terminal. Only the state these functions read or write is modelled.
- `load_cache` in `src/b7tui.rs`: on every `redraw` it re-reads `<path>.cache` and replaces `history` with its lines, and a failed read of an opened file panics. This is file I/O and is not modelled; the view holds only the length of `history`.
- Tui.DoneKey: the history length bounding Down is held fixed between keys, although the source re-reads it from the cache file on every redraw, and the panic of a failed cache read is dropped. `Tui.DoneKeeps` bounds the selection by that fixed length.
- `Display` implementations and `on_update` logging: output only. In particular the `{:#x}` form of `MemInput`'s `Display` is not modelled. `Hex.FormatHex` is the plain form, used only to state the parse round trip.
- `get_length`, `get_lengths`, `get_argv`, `get_input`, `get_mem_input`: field reads of the records.
- Statistics.Average: the running sum is required to fit `i64` (`PrefixSumsFit`) instead of modelling the debug-build overflow panic or release-build wrap-around.
- Statistics.FindOutlier: `count - avg` and its `abs` are required not to overflow (`DistancesFit`) instead of modelling the panic. The result is the index of the outlier instead of a reference to the element.
- Tui.TabsNext: empty titles (a remainder by zero) and `index + 1` overflow are preconditions. Both are panics in the source.
- Tui.TabsPrevious: index 0 with no titles is a precondition. In the source `titles.len() - 1` panics there.
- Tui.WaitKey: the `redraw` calls inside Up/Down and after each key are left out.
- Tui.EditOption: keyboard read errors are treated like any other non-digit key. The loop behaves the same for them.
- ArgvGenerators.ArgvLenUpdate and ArgvGenerators.ArgvUpdate: indexing past `argc`, and `idx += 1` at `u32::MAX`, are preconditions (`pos < argc`, `ArgvCanUpdate`), since those are panics in the source.
- ArgvGenerators.ArgvNext: calling `next` once `pos` has reached `argc` panics when `len` has exactly `argc` entries. With a longer `len` it reads `len[argc]` and returns `None` or offers a candidate built past the last argument. `ArgvCanNext` excludes both cases, and so does the round protocol, since `update` has returned false by then. A `len` shorter than `argc` is excluded the same way.
- StdinGenerator.StdinCharUpdate, LegacyGenerators.LegacyStdinCharUpdate: `idx += 1` at `u32::MAX` is a precondition.
- LenGenerators.Tick: `len += 1` at `u32::MAX` is a precondition (`CanTick`), and so is draining a round with `max == u32::MAX` (`CanDrain`).
- LenGenerators.StdinLenNext, LenGenerators.ArgcNext, ArgvGenerators.ArgvLenNext, LegacyGenerators.LegacyStdinLenNext: the `next` functions built on `Tick` carry the same `CanTick` precondition in place of the `len += 1` overflow panic.
- MemBrute.MemEq: both buffers must hold `size` bytes, as the C caller guarantees. The read of `volatile` memory is modelled as a plain read.
- The `breakpoint` field that `tests/run_mem_brute.rs` sets on `MemInput` is not part of `src/generators/common.rs`. The breakpoint write is modelled only as the optional patch of `MemBrute.BreakpointMain`.
- `usize` is taken to be 64 bits wide.

## Findings

| source | as written | input that shows it | evidently intended | confidence | as-written member | corrected member |
|---|---|---|---|---|---|---|
| src/generators/common.rs:34-36 | `res.argc = res.argc`: `combine` never takes `argc` from `tmp` | `Input::new().combine(tmp)` with `tmp.argc = 2` and two empty arguments gives `argc == 0` | `res.argc = tmp.argc` when `tmp.argc != 0`, like the other fields | not executed | Common.CombineDropsArgc | Common.CombineIntended |
| src/generators/mod.rs:379-388 | The guess for argument `pos` is built from `current`, which collects the chosen bytes of every argument and is never reset when `pos` advances | `ArgvGenerator::new(2, &[1, 1], 0x20, 0x7e)` with the first argument solved as `a`: every candidate for the second argument is `"a"` | Build the guess from the bytes solved for argument `pos` (`correct[pos]`) | not executed | ArgvGenerators.SecondArgumentIgnoresGuess | ArgvGenerators.ArgvNextIntended |
