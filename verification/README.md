# Monotonic ULIDs: a verified model

A ULID is 16 bytes: 48 bits of Unix milliseconds above 80 bits of entropy, written as 26 characters of
Crockford's base 32. This project models four parts of the library in Dafny and proves what they promise.

* **The monotonic generator** (`Monotonic`, `Constructors`, `Entropy`, `MathRngs`, `DefaultGenerator`, `LockedGenerator`). The 80-bit
  accumulator, the rejection loop that draws an increment, the generator object, `new_monotonic`, the xorshift
  source and the mutex around them. Every method is proved equal to one step of a state machine; `Runs` proves the order
  law over whole runs of that machine, `RandomOutcomes` says exactly what the rejection loop can return and when it stops,
  `RefusedCalls` that refused times leave no trace in them, `LockedGenerator` runs any number of threads through it, one small
  step at a time, `LockCalls` ties every logged result to the call it answers, and `LockLiveness` says when the lock is freed.
* **The codec** (`Packing`, `Base32`, `Marshal`, `Ulids`). The unrolled shifts and masks are proved to be a change of
  base of one 128-bit number, from which both round trips, strict acceptance, the overflow rule, the order of
  texts and the independence of the two fields follow.
* **The calendar of the command line tool** (`Calendar`, `FormatTime`). The closed-form date and weekday are proved
  against a calendar that steps one day at a time, and the RFC 3339 rendering is read back and ordered.
* **The port against its Go original** (`GoReference`, `PortRefinement`). Both generators read the same byte tape; they
  report the same results exactly for the increment bounds that are not powers of two.

`Bits` and `PlaceValue` hold the bit operators and the theory of positional numbers; `Errors` the error type.
A machine word is a natural number below its bound (`u8`, `u16`, `u64`) with the wrap-around written out; the bit
operators of the codec are defined bit by bit and the xorshift words are `bv64`.

An entropy source is a function from its state and a byte count to a new state and an answer, so that one theorem covers
every source. Its contract (`Fills`) is that of the `Entropy` trait: the whole buffer is filled, or the read fails, and
then it may have written any places of the buffer and may report any error but the generator's own overflow.
The rejection loop need not stop over an arbitrary source (`ZerosNeverSettle`), so the machine follows it for a ghost
number of draws, `fuel`; an undecided call is `Pending`, and the methods speak about calls that return. Over a slice
`SliceTerminates` says that every call does, and for the process-wide generator `DefaultReturns` does.

## What the proofs found

* When `inc >= 2` the increment is at least 2 and can be `inc` itself whenever the mask lets it: 1, which the comments at
  `src/monotonic.rs:107` and `src/monotonic.rs:192` include, is never returned, and `inc`, which the second one excludes, can
  be: `Runs.IncrementRange`, `RandomOutcomes.OutcomeSet`.
* The mask is computed for the most significant byte but applied to the least significant one. When the bit
  length of `inc - 1` exceeds 8 and is not a multiple of 8, some increments can never be drawn (`RandomOutcomes.FullRange`),
  and fewer than half of the masked draws are accepted, 2 of 512 for `inc = 257`: `RandomOutcomes.HalfAccepted`,
  `RandomOutcomes.AcceptanceCount`, `RandomOutcomes.AcceptanceBounds`, `RandomOutcomes.TwoOf512`.
* The comment at `src/monotonic.rs:203` claims the bit length of `inc`; the code takes that of `inc - 1`. The port therefore reproduces the
  reference for `inc <= 1` and for every bound that is not a power of two, and for every power of two
  from 2 on there is a tape on which the two differ: `PortRefinement.PortEquivalence`.
* An overflow is reported after the accumulator has wrapped. If the next call that does not fail is for that millisecond again,
  its identifier sorts below the last one exactly when the accumulator did not wrap to zero, or it did and the fresh draw that
  follows is smaller: `Runs.OverflowBreaksOrder`, `Runs.OverflowBetween`, with a run that shows it in `Runs.OrderIsBroken` and
  `Runs.BrokenOrderIsReached`. With a bound of 1 it always wraps to zero:
  `Runs.UnitOverflowIsFresh`. Other milliseconds are not disturbed: `Runs.RunIncreases`.
* An all-zero draw is drawn afresh and not incremented, so over a source of
  zeros two identifiers of one millisecond are equal: `Runs.RunIncreases`, `RandomOutcomes.ZerosNeverIncrement`. The
  xorshift source cannot produce one: `Runs.RngRunIncreases`.
* `make` reads the clock before it takes the lock, so under threads identifiers can leave the lock in descending
  order: `LockedGenerator.ClockBeforeLock`. They leave it in ascending order if and only if the milliseconds of the successful
  calls reach it in order, as long as no millisecond overflows between two of its successes: `LockedGenerator.AscendingExactly`.
* A rejection loop that its source never lets out keeps the lock of a shared generator for ever: over zeros it does
  (`LockLiveness.ZerosKeepTheLock`), and in general exactly when no number of draws decides it (`LockLiveness.FreedExactly`).
  The process-wide generator behind `make` settles every increment within six draws, and six can be needed
  (`DefaultGenerator.DefaultSettles`, `DefaultGenerator.FiveAreNotEnough`), so a thread inside its lock has freed it after nine steps of its
  own: `LockLiveness.SharedLockIsFreed`.
* After a failure the port leaves the caller's ten bytes alone unless the source wrote to them. The reference writes its accumulator in the increment
  branch whatever happened, so that after an overflow its buffer holds the wrapped value: `PortRefinement.BuffersCompared`. Of a buffer longer than ten bytes a fresh read of the reference fills
  all, the port ten bytes: `PortRefinement.LongerBuffers`. After a read that failed for want of bytes the port still has the
  bytes that were there, the reference has consumed them, and the two go on alike exactly if there were none:
  `PortRefinement.FailuresCompared`.
* The time-based seed of the process-wide generator is always odd, so its fallback for zero is never used:
  `MathRngs.TimeSeedIsOdd`.
* The fraction of the `default` time format is not padded before its trailing zeros go. It is the fraction of Go's layout
  exactly when it is zero or at least 100 ms, although the comment at `src/bin/ulid.rs:59-62` claims identical
  output: `FormatTime.FractionIsLayout`, `FormatTime.FractionsCollide`.
* Within what a ULID can hold, `rfc3339` texts sort as their times do except across the start of the year 10000:
  `FormatTime.Rfc3339Order`.

## Model

| member | source | states |
|---|---|---|
| Monotonic.Uint80.SetBytes | src/monotonic.rs:50-55 | The two halves hold the first ten bytes as one big-endian number |
| Monotonic.Uint80.AppendTo | src/monotonic.rs:60-65 | Writes the ten big-endian bytes of the accumulator and nothing else in the buffer |
| Monotonic.Uint80.Add | src/monotonic.rs:83-93 | The sum modulo 2^80; the report is true exactly when the true sum reaches 2^80, although only the high halves are compared |
| Monotonic.Uint80.IsZero | src/monotonic.rs:42-44 | Both halves are zero exactly when the number is |
| Monotonic.ByteLenRange | src/monotonic.rs:203-204 | Every 64-bit bound from 2 on draws between one and eight bytes |
| Monotonic.MonotonicEntropy.constructor | src/monotonic.rs:123-131 | A fresh generator: millisecond 0, accumulator 0, a bound of 0 replaced by the largest 32-bit word |
| Monotonic.MonotonicEntropy.DrawCandidate | src/monotonic.rs:213-238 | One round of the loop: the source is asked for the byte length, the first byte is masked, the widened word is the little-endian number of the bytes drawn |
| Monotonic.MonotonicEntropy.Random | src/monotonic.rs:199-242 | The loop returns what the recursive draw of the specification picks, leaves the source where that leaves it, and passes a failed read on |
| Monotonic.MonotonicEntropy.IncrementEntropy | src/monotonic.rs:184-190 | Adds the drawn increment modulo 2^80, reports overflow exactly when the true sum leaves 80 bits, and leaves the accumulator alone when the draw fails |
| Monotonic.MonotonicEntropy.ReadFresh | src/monotonic.rs:172-177 | New millisecond or zero accumulator: the ten bytes read become buffer and accumulator; a failed read passes on its error and changes neither accumulator nor millisecond, and the buffer only where the source wrote |
| Monotonic.MonotonicEntropy.ReadIncremented | src/monotonic.rs:167-171 | Same millisecond: the buffer receives the incremented accumulator; after a failure it is untouched |
| Monotonic.MonotonicEntropy.MonotonicRead | src/monotonic.rs:158-179 | A short buffer is refused with nothing changed; otherwise the call is exactly one step of the state machine, stated outright for both branches: accumulator, millisecond, source, report and buffer, for every source and bound |
| Constructors.NewMonotonic | src/entropy.rs:107-120 | A time above the maximum is refused with the generator and its source as they were; otherwise a success carries that time and the accumulator, which is one step of the machine further, or zeros without a source |
| Runs.IncrementRange | src/monotonic.rs:199-242 | The increment is 1 for a bound of at most 1, otherwise it lies in [2, inc], for every source |
| Runs.StepFacts | src/monotonic.rs:158-190 | A success in the same millisecond raises the accumulator; a failed read leaves accumulator and millisecond as they were |
| Runs.AsidesKeep | src/monotonic.rs:245-251 | Plain reads through the generator and assignments of its public bound, in any number between two calls, leave its millisecond and accumulator alone |
| RefusedCalls.RefusedCallsVanish | src/entropy.rs:107-120 | Deleting the calls above the largest time from any run changes neither the outcome of another call nor the state it ends in |
| RefusedCalls.AsidesAct | src/monotonic.rs:245-251 | Over a slice a plain read takes its bytes off the front, or nothing if there are too few; assigning the bound changes the bound only |
| Runs.RunIncreases | src/monotonic.rs:158-190 | In every run, over any source, any bound and any failures, with any plain reads and changes of the bound in between: of two successes between which the milliseconds do not go back, and whose common millisecond, if any, does not overflow between them, the later is strictly greater, in bytes and in text, exactly unless it is a zero entropy of the same millisecond, and then they are equal |
| Runs.TimesDecide | src/entropy.rs:107-120 | In every run, in any order of milliseconds and whatever failed or overflowed, successes for different milliseconds sort as the milliseconds do |
| Runs.EntropyDecides | src/monotonic.rs:158-190 | Two successes of one millisecond, with no success for another and no overflow of this one between them: the later is greater if and only if its entropy is not zero, and otherwise they are equal |
| Runs.OverflowIsExact | src/monotonic.rs:184-190 | Overflow is reported if and only if the true sum leaves 80 bits, and the accumulator has wrapped by then |
| Runs.OverflowBreaksOrder | src/monotonic.rs:184-190 | The call after an overflow is answered below the last entropy of that millisecond if and only if the accumulator did not wrap to zero, or the fresh draw that follows a zero is smaller |
| Runs.OverflowBetween | src/monotonic.rs:184-190 | Over a run: with an overflow and otherwise only failures between two successes of one millisecond, the second is smaller if and only if the accumulator did not wrap to zero, or its fresh entropy is smaller |
| Runs.OrderIsBroken | src/monotonic.rs:184-190 | A generator and two bytes of tape on which an overflow is followed by a success below the last entropy |
| Runs.BrokenOrderIsReached | src/monotonic.rs:172-177 | A fresh generator reaches the state of that run with its first call |
| Runs.UnitOverflowIsFresh | src/monotonic.rs:167-190 | With a bound of at most 1 an overflow leaves the accumulator at zero, so the next call is a fresh draw |
| Runs.Capacity | src/monotonic.rs:83-93 | Before any overflow k successes of one millisecond put the accumulator between e + k*lo and e + k*hi |
| Runs.NoEarlyOverflow | src/monotonic.rs:184-190 | While fewer than floor((2^80 - 1 - e) / hi) calls of a millisecond have succeeded, however many failed, none overflows: each that returns succeeds or passes on the error of its source |
| Runs.FirstOverflow | src/monotonic.rs:83-93 | At the first overflow after k successes, e + k*lo is below 2^80 and e + (k + 1)*hi is not |
| Runs.RngRunIncreases | src/sys.rs:106-123 | Over the xorshift source the order law has no exception for zero: the later of two such successes is strictly greater |
| RandomOutcomes.OutcomeSet | src/monotonic.rs:199-242 | The loop returns v over some tape if and only if 2 <= v <= inc and the low byte of v - 1 survives the mask; it can always return 2 |
| RandomOutcomes.AnySourceReturns | src/monotonic.rs:199-242 | Whatever the loop returns over any source it returns over some tape |
| RandomOutcomes.OneBufferEach | src/monotonic.rs:221-241 | No two masked buffers give the same candidate |
| RandomOutcomes.FullRange | src/monotonic.rs:203-241 | The loop can return all of [2, inc] if and only if the bit length of inc - 1 is at most 8 or a multiple of 8 |
| RandomOutcomes.HalfAccepted | src/monotonic.rs:203-241 | At least half of the masked buffers are accepted if and only if the bit length of inc - 1 is at most 8 or a multiple of 8 |
| RandomOutcomes.AcceptanceCount | src/monotonic.rs:203-241 | For every bound there are 2^bitLen masked buffers, and the number accepted is inc / 256 * m + min(inc % 256, m) - 1, where m low bytes pass the mask |
| RandomOutcomes.AcceptanceBounds | src/monotonic.rs:203-241 | Beyond eight bits the accepted share lies between m/512 and m/256, up to one buffer |
| RandomOutcomes.TwoOf512 | src/monotonic.rs:203-241 | With a bound of 257 the loop accepts 2 of 512 masked buffers and can return 2 and 257 only |
| RandomOutcomes.Contiguous | src/monotonic.rs:203-241 | With a bit length of at most 8 or a multiple of 8 the candidates are exactly the numbers below 2^bitLen, and the bound lies in the upper half of them |
| RandomOutcomes.FuelAgrees | src/monotonic.rs:212-239 | Once the loop is decided, following it for longer gives the same outcome |
| RandomOutcomes.SliceTerminates | src/monotonic.rs:212-239 | Over every slice the loop stops: it consumes some number of blocks, each of which it rejects, and then accepts the next, or reports the end with less than a block left unread |
| RandomOutcomes.ZerosNeverSettle | src/entropy.rs:191-198 | Over a source of zeros with a bound of 2 or more no number of draws decides the loop |
| RandomOutcomes.ZerosNeverIncrement | src/monotonic.rs:167-177 | Over a source of zeros the accumulator stays zero and every call is a fresh read of zero entropy |
| Entropy.SliceReader.Read | src/entropy.rs:152-167 | Fills the buffer and moves past it, or reports the end of the slice and changes nothing |
| MathRngs.NextIsBijective | src/sys.rs:96-103 | The xorshift step has an explicit inverse on all 64-bit words, fixes only zero and maps only zero to zero |
| MathRngs.SeedsAreNonZero | src/sys.rs:68-93 | Neither way of seeding starts from zero, and a seed other than zero is used as it is |
| MathRngs.MathRng.FromSeed | src/sys.rs:83-93 | The state is the seed unless that is zero, and is never zero |
| MathRngs.TimeSeedIsOdd | src/sys.rs:68-80 | The time-based seed is odd, so it is the wrapped product and sum and never the fallback |
| MathRngs.TimeSeedsDiffer | src/sys.rs:68-80 | Two clock readings give the same seed if and only if they agree modulo 2^58 |
| MathRngs.IterateNonZero | src/sys.rs:96-103 | Every state reachable from a non-zero one is non-zero |
| MathRngs.DrawsAreNonZero | src/sys.rs:107-122 | A draw of eight bytes or more is not all zeros and leaves a non-zero state |
| MathRngs.MathRng.Read | src/sys.rs:107-122 | Byte i written is byte i mod 8, from the low end, of the state after i / 8 + 1 steps; ceil(n/8) steps are taken, and nothing else in the buffer changes |
| MathRngs.WordBytesValue | src/sys.rs:112-117 | The eight bytes of a word, read little-endian, are its value |
| MathRngs.ReadBytes | src/sys.rs:107-122 | The same of the source as a function: every byte of a read of any length, and the state after it |
| MathRngs.ReadSplits | src/sys.rs:107-122 | Splitting a read at a multiple of eight bytes gives the same bytes and the same state |
| DefaultGenerator.DefaultSettles | src/sys.rs:136-138 | With the default bound, from every non-zero xorshift state, the loop is decided within six draws |
| DefaultGenerator.FiveAreNotEnough | src/sys.rs:96-103 | A xorshift state from which the first five draws are rejected |
| DefaultGenerator.DefaultReturns | src/sys.rs:136-138 | Every call on the process-wide generator returns |
| LockedGenerator.ApplyKeeps | src/monotonic.rs:278-281 | Every step of every thread keeps the invariant: one owner, the log explained by sequential calls, the call under way at a point its sequential counterpart passes through |
| LockedGenerator.Linearizable | src/monotonic.rs:263-282 | Any number of threads, any milliseconds of 64 bits, any interleaving: at most one thread between lock and unlock, and the results are those of one generator called sequentially in order of completion |
| LockCalls.CallsAnswered | src/monotonic.rs:278-281 | Under every schedule the results logged for a thread answer its calls in the order it began them, each for the millisecond the thread read before the lock; at most its latest call has no result yet |
| LockCalls.AnswersAreOfThreads | src/monotonic.rs:278-281 | Every result is logged for one of the threads |
| LockedGenerator.NeverStuck | src/monotonic.rs:278-281 | No deadlock: while any thread is in a call, some step other than a new call changes the world; that the lock is freed is said below |
| LockLiveness.FreedWithin | src/monotonic.rs:278-281 | For every source: a thread inside the lock whose loop is decided within a number of draws has freed the lock after a number of own steps fixed by it, whatever the others do |
| LockLiveness.FreedExactly | src/monotonic.rs:278-281 | For every source: a thread in the rejection loop can free the lock under some schedule if and only if some number of draws decides the loop |
| LockLiveness.ZerosKeepTheLock | src/entropy.rs:191-198 | Over zeros, from a non-zero accumulator with a bound of 2 or more, three steps lead to a state in which the lock is held under every schedule |
| LockLiveness.SharedLockIsFreed | src/sys.rs:136-158 | In every state of the process-wide generator that any threads can reach, the thread inside the lock has freed it after nine steps of its own, whatever the others do |
| LockedGenerator.SharedSourceIncreases | src/sys.rs:136-158 | Of two successes between which the milliseconds reach the lock in order, with no overflow of their common millisecond between them, the later is strictly greater, whichever threads they went to |
| LockedGenerator.AscendingExactly | src/sys.rs:136-158 | With no overflow of a millisecond between two of its successes, all identifiers ascend in lock order if and only if the milliseconds of the successful calls do not go back |
| LockedGenerator.TimesDecideMade | src/sys.rs:146-158 | Identifiers for different milliseconds sort as the milliseconds do, whichever left the lock first, for every source and any failures |
| LockedGenerator.MadeInOneRun | src/sys.rs:146-158 | The identifiers made under any schedule are those of one sequential run |
| LockCalls.MadeCarriesReading | src/sys.rs:146-158 | The identifier made of a result has its millisecond as time and its number as entropy |
| LockedGenerator.ClockBeforeLock | src/sys.rs:146-158 | A schedule of two threads and two clock readings that hands out a smaller identifier second, for every source |
| Base32.BuildDec | src/base32.rs:45-64 | The two loops build a table whose every entry is the symbol of that character in either case, or the invalid mark |
| Base32.DecInvertsEncoding | src/base32.rs:21-38 | A byte has a symbol exactly when its upper case is in the alphabet, and the alphabet gives that upper case back; case does not matter |
| Base32.EncodingInvertsDec | src/base32.rs:21-38 | Looking up a character of the alphabet gives its position; the characters above '7' are the symbols above 7 |
| Base32.Parse | src/base32.rs:79-134 | For every byte string and both modes, exactly when each of the three errors and success is reported, in terms of the length, the alphabet and the first character; the buffer is unchanged on error and holds the decoder's bytes on success |
| Base32.ParseReport | src/base32.rs:79-104 | The same of the specification: lax mode asks for 26 bytes of which the first is at most '7', strict mode also for the alphabet, which it checks before the first character |
| Base32.LaxExtendsStrict | src/base32.rs:89-97 | What strict mode accepts lax mode reads alike, and the modes differ only where strict mode reports characters |
| Packing.UnpackedValue | src/base32.rs:111-131 | For 26 symbols with the first below 8 the 16 bytes written are the same number in base 256 |
| Packing.PackedIsBase32 | src/marshal.rs:55-83 | The 26 symbols selected are the base-32 digits of the 128-bit number |
| Packing.EncodeBits | src/marshal.rs:58-65 | The masks, shifts and ORs of one group of five bytes, as quotients and remainders of those bytes |
| Marshal.MarshalTextTo | src/marshal.rs:49-86 | A buffer of the wrong length is refused unchanged; otherwise it receives the 26 base-32 digits of the 128-bit number |
| Marshal.ParseInvertsText | src/marshal.rs:132-142 | Decoding the text of any identifier gives that identifier, in both modes |
| Marshal.ParsedValue | src/base32.rs:79-134 | The bytes decoded from an accepted text are, as a big-endian number, the text read in base 32 |
| Marshal.TextOfParsed | src/marshal.rs:140-142 | Encoding what was strictly decoded gives the upper case of the input |
| Marshal.ParseIgnoresCase | src/base32.rs:79-134 | Every input, valid or not, is treated as its upper case, in both modes |
| Marshal.StrictAcceptance | src/base32.rs:89-104 | A text is strictly accepted if and only if its upper case is the text of some identifier |
| Marshal.OverflowExactly | src/base32.rs:99-104 | Over the alphabet, the first-character guard fires if and only if the number needs more than 128 bits |
| Marshal.TextOrder | src/marshal.rs:49-86 | Byte order, text order and numeric order of identifiers agree, and different identifiers have different texts |
| Ulids.CompareIsNumeric | src/ulid.rs:104-106 | Comparing two identifiers equals comparing their texts and comparing their 128-bit numbers, and is antisymmetric |
| Ulids.Ulid.Zero | src/ulid.rs:54 | A fresh identifier of sixteen zero bytes |
| Ulids.Ulid.SetTime | src/ulid.rs:129-140 | A time above 48 bits is refused with nothing changed; otherwise the first six bytes are its big-endian digits and the rest stays |
| Ulids.Ulid.SetEntropy | src/ulid.rs:188-194 | A slice of any length but ten is refused with nothing changed; otherwise the last ten bytes are replaced and the rest stays |
| Ulids.TimeIsPrefix | src/ulid.rs:113-120 | The shifts and ORs give the first six bytes as a number of at most 48 bits |
| Ulids.FieldValue | src/ulid.rs:113-180 | The 128-bit number is time * 2^80 + entropy |
| Ulids.FieldsAreIndependent | src/ulid.rs:129-194 | Each field reads back what was written, writing one keeps the other, the two writes commute, and together the fields are the identifier |
| Ulids.TextFields | src/marshal.rs:55-83 | The first ten characters are the time in base 32, the last sixteen the entropy |
| Ulids.TimeTextOrder | src/marshal.rs:55-65 | The first ten characters of two texts sort as the times do |
| Calendar.CivilIsDate | src/bin/ulid.rs:88-99 | For every day number the closed form gives a date of the calendar, and the inverse recovers the day number |
| Calendar.CivilOfDate | src/bin/ulid.rs:88-99 | Every date from 1970-01-01 on is the closed form of its day number |
| Calendar.DaysCountOneByOne | src/bin/ulid.rs:88-99 | The inverse counts the days of the Gregorian calendar one at a time |
| Calendar.CivilSteps | src/bin/ulid.rs:88-99 | Day 0 is 1970-01-01 and the date of each following day is the calendar's next date |
| Calendar.CivilIncreases | src/bin/ulid.rs:88-99 | Later days have later dates |
| Calendar.WeekdayCounts | src/bin/ulid.rs:101-110 | The weekday formula on the computed date equals (days + 4) mod 7 with Sunday 0, on every day |
| FormatTime.MomentRoundTrip | src/bin/ulid.rs:75-99 | Date, hour, minute, second and millisecond are in range and recover the milliseconds |
| FormatTime.MomentIncreases | src/bin/ulid.rs:75-99 | A later time has a later moment, field by field |
| FormatTime.YearRange | src/bin/ulid.rs:88-99 | The year needs five digits exactly from 253402300800000 ms on, and no time of 48 bits passes the year 10889 |
| FormatTime.Rfc3339RoundTrip | src/bin/ulid.rs:136-140 | For every time an identifier can hold, the fields of the rendering read back give the milliseconds; the rendering has 24 characters, or 25 from the year 10000 on |
| FormatTime.Rfc3339Form | src/bin/ulid.rs:139 | The rendering has digits and, at their places, the separators of RFC 3339, section 5.6, which a year of five digits moves by one |
| FormatTime.Rfc3339Order | src/bin/ulid.rs:136-140 | For two times of 48 bits text order is time order if and only if they are on the same side of the year 10000 |
| FormatTime.MillisText | src/bin/ulid.rs:122-134 | The popping loop removes exactly the trailing zeros of the point and the unpadded milliseconds, and never the point |
| FormatTime.FractionIsLayout | src/bin/ulid.rs:122-134 | The printed fraction is that of the layout it mirrors if and only if it is zero or at least 100 |
| FormatTime.FractionsCollide | src/bin/ulid.rs:122-134 | 5 ms and 500 ms are printed alike |
| GoReference.GoMonotonicEntropy.Random | reference/ulid.go:621-669 | Go's loop over its scratch buffer returns what the specification picks and leaves tape and buffer as it does; every round consumes tape |
| GoReference.GoMonotonicEntropy.MonotonicRead | reference/ulid.go:596-605 | Go's call is one step of its state machine for every buffer on which it does not panic, including what the caller's buffer holds after a failure |
| PortRefinement.BitLengthsAgree | reference/ulid.go:632-642 | The bit lengths of inc and inc - 1 agree if and only if inc is not a power of two |
| PortRefinement.CandidatesAgree | src/monotonic.rs:222-238 | While the tail of Go's buffer is zero, its whole-word read is the port's zero-extended read, and the tail stays zero |
| PortRefinement.StepsAgree | src/monotonic.rs:158-190 | One call on related states reports the same result, or fails to read on both sides; otherwise the states stay related |
| PortRefinement.BuffersCompared | reference/ulid.go:596-605 | The caller's ten bytes agree on success; on failure the port wrote nothing, while the reference wrote the wrapped accumulator after an overflow, the old one after a failed draw, and what it could read after a failed fresh read |
| PortRefinement.LongerBuffers | reference/ulid.go:596-605 | With a buffer of ten bytes or more the reports agree if and only if the call increments, or the tape has fewer than ten bytes, or it has the whole buffer; after a success the tapes stay together if and only if the call increments or the buffer has ten bytes |
| PortRefinement.FailuresCompared | reference/ulid.go:596-605 | After a failed read on related states: both keep millisecond and accumulator, the two errors and what is left of the tape are given, and the states stay related if and only if no bytes were left |
| PortRefinement.ReferenceRange | reference/ulid.go:632-642 | The reference draws from 2^bitLen masked buffers with the bit length of the bound itself, which lies in the upper half of them |
| PortRefinement.PowersOfTwoDiffer | src/monotonic.rs:203-207 | For every power of two from 2 on, a tape and two calls on which the port and the reference answer differently |
| PortRefinement.PortEquivalence | src/monotonic.rs:199-242 | The port gives the reference's reports on every tape and every sequence of calls, up to the first failed read, if and only if the bound is 0, 1 or not a power of two |

## Left out

- Operating-system randomness, the wall clock, `OnceLock` and mutex poisoning: foreign effects. The clock and the source are inputs.
- The conversions between `SystemTime` and milliseconds: the model starts from the milliseconds, and times before the epoch, which the code maps to 0, do not occur.
- The argument loop and printing of the command line tool, the weekday and month names, and the `unix` and `ms` formats, which print one number.
- The `default` format beyond its fraction.
- Plain `new` and `with_time_only`, the panicking variants, `scan`, `value`, `Display` and error texts: wrappers that convert, print or panic around what is modelled.
- Statistical claims about increments, and the period of xorshift.
- Monotonic.MonotonicEntropy.Random: speaks of runs in which the loop is decided within `fuel` draws. That it stops is proved over a slice and for the process-wide generator, false over zeros, and not claimed for xorshift with other bounds.
- Monotonic.MonotonicEntropy.ReadFresh: a source that itself reports the generator's overflow error is outside the contract `Fills`.
- Marshal.MarshalTextTo: the three groups of eight writes are one method called three times, in the same order on the same bytes.
- Base32.Parse: the three groups of five writes are one method called three times; the loop and the guards are as in the source. For characters outside the alphabet, which lax mode lets through, the bytes are the shifts and ORs of the invalid mark and nothing further is said of them.
- LockedGenerator.Linearizable: a call whose loop is never decided is not in the log; `LockLiveness` says when there is one.
- LockedGenerator.AscendingExactly: after an overflow of a millisecond between two of its successes nothing is claimed here; `Runs.OverflowBreaksOrder` says what the next call then does.
- GoReference.GoMonotonicEntropy.MonotonicRead: the calls on which Go panics are not modelled: a buffer of fewer than ten bytes, unless a fresh read of it fails.
- GoReference.GoMonotonicEntropy.Random: Go's short cut through `Int63n`, taken when the source is a `rand.Rand`, is not modelled.
- PortRefinement.PortEquivalence: both sides fill ten bytes and read one tape held in memory; after a failed read the two consume different amounts of it.
- FormatTime.Rfc3339Order: stops at 48 bits, all that an identifier can hold.
- The `no_std` build, in which a short slice is reported as a data size error.
- The big-endian and little-endian word conversions of the standard libraries, taken as place value in base 256.
