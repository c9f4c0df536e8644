# Verified models of five Effect modules

This project models the algorithms of `Chunk`, `Cron`, `BigDecimal`, `BigInt` and `Duration` in Dafny and proves what
they compute. `dafny verify dfyconfig.toml` checks everything.

- **Chunk.** `Rope` holds the shape of a chunk (arrays, singletons, slices, concatenations with the depth they stored
  when made) and `appendAll`; `RopeBalance` proves the balance and size bounds, `RopeIndexing` reading, cutting and
  reversing, `RopeGrouping` the loops that build or regroup chunks. `ChunkHeap` models the shared, mutable nodes: each
  of its methods is proved to compute the rope operation on what the nodes currently stand for, and flattening a node
  in place (`toReadonlyArray`) is proved to leave every other chunk in existence with the same elements.
  `RopeFlattening` says what flattening may do to a shape; stored depths of ancestors go stale, so all content results
  hold for arbitrary stored depths.
- **Cron.** `Calendar` is the proleptic Gregorian calendar with the overflowing `Date` setters of section 21.4 of
  ECMA-262. `Cron` defines `match`, a reference scan that tries one minute after the other, and what each jump of the
  search skips. `CronNext` has the search loop over a mutable date, `CronRuns` what `next` returns and how far its
  eight-year horizon reaches, `CronSequence` the generator, `CronParse` the parser.
- **BigDecimal.** `Decimal` gives every value the rational number it denotes and proves the arithmetic and the order
  against it; `DecimalNormal` covers normal forms and their cache, `DecimalText` printing and parsing,
  `DecimalDivide` the long division loop, `DecimalQuotient` its accuracy and exactness.
- **BigInt.** `BigIntegers` has Newton's square root, Euclid's algorithm and least common multiples, over the truncating
  division in `Truncated`.
- **Duration.** `Duration` has the three forms, their order and the mixed-radix printer.

`Options`, `Sequences`, `Arithmetic` and `Digits` hold what several modules share.

Where the code does not do what its documentation says, the model follows the code; a lemma says exactly when the two
agree and another gives an input on which they do not:

- `appendAll` concatenates its operands if and only if its descent does not meet a slice as the deeper inner child,
  whose empty `left`/`right` it would rotate in (`Rope.AppendAllContents`, `RopeFlattening.AppendLosesSlice`). Next to
  slices the flattening cache shows through this (`RopeFlattening.AppendAfterFlattening`,
  `RopeFlattening.FlatteningShowsNextToSlices`).
- `unsafeGet` is said to throw out of bounds; a slice at the edge lets indices through to its array
  (`RopeIndexing.UnsafeGetBounds`, `RopeIndexing.UnsafeGetReadsPastEnd`).
- `split` is said to make n equally sized chunks; it does if and only if n divides a non-zero length, or splits nothing
  into nothing (`RopeGrouping.SplitEvenly`, `RopeGrouping.SplitCanBeUneven`).
- `next` adds a month before it resets the day, so from day 29 to 31 it can jump over a whole shorter month. It gives
  the least run if and only if that month has none (`CronRuns.NextIsLeast`, `CronRuns.NextCanSkipFebruary`). It throws
  if and only if the schedule never matches, or runs on leap days alone, jumps over the one of this year, and the turn
  of a century takes the one four years later (`CronRuns.HorizonExactly`, `CronRuns.NextCanGiveUpTooEarly`).
- `scale` is said to round down; it truncates, which differs exactly for negative values that lose digits
  (`Decimal.ScaleDownTruncates`, `Decimal.ScaleRoundsUpNegatives`).
- `divide` is said to round a quotient that is no integer down to one; it rounds it to about 100 significant digits.
  With s the number of decimal places that takes, which depends on the operands alone, the result is the floor of the
  quotient if and only if the floor can be written with s places and the fraction is less than half a unit of the last
  place, or just half of it below zero (`DecimalQuotient.DivideRoundsDownExactly`, `DecimalQuotient.PlaceOfQuotient`);
  6 / 4 gives 1.5 (`DecimalQuotient.DivideKeepsFraction`).
- `gcd` is said to be the greatest common divisor; for negative numbers it can be its negative
  (`BigIntegers.GcdIsLargest`, `BigIntegers.GcdCanBeNegative`).

`format` of `BigDecimal` promises no layout, but prints the canonical text of every value except zero at a negative
scale, which becomes a row of zeros (`DecimalText.FormatIsCanonical`, `DecimalText.ZerosAreNotCanonical`).

## Model

| member | source | states |
|---|---|---|
| Rope.Length | packages/effect/src/Chunk.ts:165-206 | The stored length of a well-formed node is the number of its elements. |
| Rope.AppendAllContents | packages/effect/src/Chunk.ts:595-634 | For all well-formed ropes, stale depths included, appending keeps well-formedness and concatenates the elements if and only if its descent rotates no slice; otherwise elements are lost. |
| Rope.SliceFreeNeverHits | packages/effect/src/Chunk.ts:595-634 | On slice-free operands no slice is rotated and the result is slice-free again. |
| RopeBalance.AppendAllBalanced | packages/effect/src/Chunk.ts:595-634 | Appending balanced ropes gives a balanced rope at the depth of the deeper operand or one more. |
| RopeBalance.BuiltRopes | packages/effect/src/Chunk.ts:233-243 | Any history of leaves and appends ends in a balanced rope with exactly the given elements in order. |
| RopeBalance.FibonacciBound | packages/effect/src/Chunk.ts:173-179 | A balanced rope of depth d has at least Fib(d + 2) elements. |
| RopeIndexing.UnsafeGetInBounds | packages/effect/src/Chunk.ts:380-406 | In bounds, on every well-formed rope, the element found is the one at that position. |
| RopeIndexing.UnsafeGetBounds | packages/effect/src/Chunk.ts:370-406 | Every index reads the rope extended by the array parts hidden behind a slice at either edge, and throws outside that. |
| RopeIndexing.UnsafeGetReadsPastEnd | packages/effect/src/Chunk.ts:370-406 | Index 2 of the first two of three elements reads the third. |
| RopeIndexing.CountedGetIsUnsafeGet | packages/effect/src/Chunk.ts:380-406 | Counting the nodes visited does not change what is found, on any rope. |
| RopeIndexing.IndexingIsLogarithmic | packages/effect/src/Chunk.ts:380-406 | On a rope built by appends unsafeGet is sequence indexing, throws exactly out of bounds, and visits p nodes only if there are at least 2^((p-1)/2) elements. |
| RopeIndexing.GetIsIndexing | packages/effect/src/Chunk.ts:345-352 | The safe read is sequence indexing, none out of bounds. |
| RopeIndexing.TakeIsPrefix | packages/effect/src/Chunk.ts:438-474 | take is the prefix for every count, and every slice it makes is in bounds over an array. |
| RopeIndexing.DropIsSuffix | packages/effect/src/Chunk.ts:484-519 | drop is the suffix for every count, and every slice it makes is in bounds over an array. |
| RopeIndexing.SplitAtPartitions | packages/effect/src/Chunk.ts:1000 | The halves concatenate to the original and the first has the clamped length. |
| RopeIndexing.RightHalvesPartition | packages/effect/src/Chunk.ts:526-529 | dropRight and takeRight partition the elements, takeRight keeping the clamped count. |
| RopeIndexing.ReverseContents | packages/effect/src/Chunk.ts:323-338 | Reversing reverses the elements, leaves no slice, and keeps a balanced rope balanced at its depth. |
| RopeIndexing.ReverseTwice | packages/effect/src/Chunk.ts:323-338 | Reversing twice restores the elements and makes appending slice-free ropes safe again. |
| RopeGrouping.AppendEachContents | packages/effect/src/Chunk.ts:702-707 | Folding appends concatenates all ropes if and only if no single append rotates a slice. |
| RopeGrouping.AppendEachBalanced | packages/effect/src/Chunk.ts:702-707 | Folding appends over balanced ropes ends in a balanced rope. |
| RopeGrouping.FlatMap | packages/effect/src/Chunk.ts:698-708 | The loop, and the shortcut for singletons, compute that fold over the images. |
| RopeGrouping.FlatMapContents | packages/effect/src/Chunk.ts:698-708 | flatMap is the flat concatenation of the images exactly when no append rotates a slice, and always for slice-free images. |
| RopeGrouping.GroupsPartition | packages/effect/src/Chunk.ts:738-751 | Groups concatenate to the elements; all have the asked size but a shorter non-empty last one. |
| RopeGrouping.ChunksOf | packages/effect/src/Chunk.ts:738-751 | The loop makes exactly those groups, each an array chunk. |
| RopeGrouping.SplitSizes | packages/effect/src/Chunk.ts:1020-1028 | For positive n the group size is the least with which n groups suffice; for zero there is one group, below that there are single elements. |
| RopeGrouping.SplitEvenly | packages/effect/src/Chunk.ts:1020-1028 | For every n, split makes n equally sized groups if and only if n is positive and divides a non-zero length, or n and the length are zero; for positive n it never makes more than n. |
| RopeGrouping.SplitCanBeUneven | packages/effect/src/Chunk.ts:1020-1028 | Three elements split in two make a pair and a single. |
| RopeFlattening.FlatteningKeepsContents | packages/effect/src/Chunk.ts:296-317 | Flattening any nodes below a rope keeps its elements, length and well-formedness. |
| RopeFlattening.ReverseAfterFlattening | packages/effect/src/Chunk.ts:323-338 | Flattening slices below a rope leaves its reversal the same, shape included. |
| RopeFlattening.AppendAfterFlattening | packages/effect/src/Chunk.ts:296-317 | Whatever was flattened before in either operand, appending concatenates the original elements if and only if the descent on the flattened shapes rotates no slice, and always on slice-free ropes. |
| RopeFlattening.AppendLosesSlice | packages/effect/src/Chunk.ts:605-614 | A concrete append to a rope ending in a slice loses the slice. |
| RopeFlattening.FlatteningShowsNextToSlices | packages/effect/src/Chunk.ts:310-312 | On a rope built by two appends and a take, flattening the left child turns an exact append of 6 into one that loses 3 and 4. |
| ChunkHeap.Chunk.View | packages/effect/src/Chunk.ts:26-40 | What a valid node stands for is well-formed and agrees with its stored length and depth. |
| ChunkHeap.Chunk.MakeConcat | packages/effect/src/Chunk.ts:174-180 | A new concatenation stands for its children joined with a freshly computed depth. |
| ChunkHeap.Chunk.MakeSlice | packages/effect/src/Chunk.ts:195-201 | A new slice stands for that stretch of its array. |
| ChunkHeap.Chunk.UnsafeGet | packages/effect/src/Chunk.ts:380-406 | Reading through shared nodes agrees with reading the rope. |
| ChunkHeap.Chunk.Copy | packages/effect/src/Chunk.ts:97-108 | Exactly the copied stretch of the target changes. |
| ChunkHeap.Chunk.CopyToArray | packages/effect/src/Chunk.ts:254-280 | Exactly positions initial to initial + length change, and they get the chunk's elements. |
| ChunkHeap.Chunk.ToReadonlyArray | packages/effect/src/Chunk.ts:296-317 | Returns the elements, turns the node into an array of them, and keeps the shape of every chunk in existence up to flattened nodes, which are slices if the node was one. |
| ChunkHeap.Chunk.AppendAll | packages/effect/src/Chunk.ts:595-634 | On nodes, whatever was flattened before, the result stands for the rope append and no existing node changes. |
| ChunkHeap.Chunk.Take | packages/effect/src/Chunk.ts:438-474 | On nodes, the result stands for the rope prefix. |
| ChunkHeap.Chunk.Drop | packages/effect/src/Chunk.ts:484-519 | On nodes, the result stands for the rope suffix. |
| ChunkHeap.Chunk.Reverse | packages/effect/src/Chunk.ts:323-338 | On nodes, the result stands for the reversed rope, although slices shared between both halves are flattened on the way; every chunk in existence keeps its shape up to flattened slices. |
| Calendar.MonthLengths | packages/effect/src/Cron.ts:292 | The months have their civil lengths. |
| Calendar.KnownDates | packages/effect/src/Cron.ts:247 | 1 January 1970 is minute 0 and a Thursday; 7 January 2024 00:23 has its Unix time and is a Sunday. |
| Calendar.WeekdayFollows | packages/effect/src/Cron.ts:247 | All times of one day share a weekday, and any number of days later the weekday has moved on by as many. |
| Calendar.GregorianCycle | packages/effect/src/Cron.ts:287-288 | The calendar repeats after 146097 days, weekdays included. |
| Calendar.EveryMinute | packages/effect/src/Cron.ts:282-285 | Every whole minute is the time of a valid date. |
| Calendar.SetDate | packages/effect/src/Cron.ts:293 | Setting the day moves by whole days, carrying into later months. |
| Calendar.SetMonth | packages/effect/src/Cron.ts:292 | Setting the month keeps the day number, overflowing a shorter month. |
| Calendar.SetFullYear | packages/effect/src/Cron.ts:288 | Setting the year keeps month and day, overflowing 29 February. |
| Calendar.SetHours | packages/effect/src/Cron.ts:323 | Setting the hour moves by whole hours, carrying into the next day. |
| Calendar.SetMinutes | packages/effect/src/Cron.ts:283 | Setting the minute moves by minutes, carrying into the next hour. |
| Calendar.MinutesInjective | packages/effect/src/Cron.ts:289 | The time value identifies a date. |
| Cron.DayRule | packages/effect/src/Cron.ts:244-252 | Month days and weekdays restricted together accept either; restricted alone they must hold. |
| Cron.SundayMatches | packages/effect/src/Cron.ts:220-253 | A Sunday schedule matches on Sunday 7 January 2024 and not on the Monday after. |
| Cron.ScanIsLeast | packages/effect/src/Cron.ts:220-253 | The minute-by-minute scan finds the least matching minute up to the limit, or there is none. |
| Cron.MonthJumpLands | packages/effect/src/Cron.ts:291-297 | The month jump lands on the first of the next month, or of the one after when the day overflows. |
| Cron.ExcludedDayIsQuiet | packages/effect/src/Cron.ts:299-320 | No minute matches from a rejected day up to the next midnight. |
| Cron.MonthHasRunMeans | packages/effect/src/Cron.ts:220-253 | A month has a matching minute if and only if the five fields allow a month, a date, an hour and a minute. |
| Cron.NextRun | packages/effect/src/Cron.ts:273-337 | What is found matches and is strictly later than the starting minute. |
| Cron.NextAgreesWithScan | packages/effect/src/Cron.ts:273-337 | next equals the scan from the following minute if and only if it does not jump over a month with a run. |
| CronNext.Pass | packages/effect/src/Cron.ts:290-334 | One pass either accepts the current minute because it matches, or strictly advances without changing what the search finds. |
| CronNext.Next | packages/effect/src/Cron.ts:273-337 | The loop terminates and returns, as a new date with zero seconds, what the scan from its effective start finds, none meaning that it throws. |
| CronRuns.NextIsLeast | packages/effect/src/Cron.ts:273-337 | next returns the least match strictly after now, and throws only if there is none up to the limit, if and only if it does not jump over a run. |
| CronRuns.NextIsLeastFromEarlyDays | packages/effect/src/Cron.ts:291-297 | So it does whenever the first candidate is on day 28 or earlier or in an allowed month. |
| CronRuns.NextCanSkipFebruary | packages/effect/src/Cron.ts:292-293 | From 30 January 2021 a February schedule finds 1 February 2022. |
| CronRuns.SatisfiableMeans | packages/effect/src/Cron.ts:220-253 | The five fields admit a run, by the test that the other rows call ever matching, if and only if some minute matches. |
| CronRuns.RunsEveryYearMeans | packages/effect/src/Cron.ts:220-253 | The test by which some years have no run holds if and only if every year has a matching minute. |
| CronRuns.HorizonExactly | packages/effect/src/Cron.ts:287-336 | From any start, next throws if and only if the schedule never matches, or it jumps over a run, some years have none, and the fourth year after is no leap year. |
| CronRuns.HorizonSuffices | packages/effect/src/Cron.ts:287-336 | Without such a jump, next throws if and only if the schedule never matches at all, the skipped leap day of a century included. |
| CronRuns.ParsedScheduleMatches | packages/effect/src/Cron.ts:188-202 | A schedule within the bounds that parse establishes never matches only if it names month days alone and none exists in an allowed month. |
| CronRuns.NextCanGiveUpTooEarly | packages/effect/src/Cron.ts:287-297 | From 31 January 1896 a leap day schedule makes next throw although it runs in 1904. |
| CronSequence.Sequence | packages/effect/src/Cron.ts:347-351 | The generator yields the iterated results of next, ending only where next throws. |
| CronSequence.SequenceStarts | packages/effect/src/Cron.ts:347-351 | It is empty if and only if next throws at once, else starts with what next returns, which is the least run after the start if and only if next jumps over none; it never exceeds the count. |
| CronSequence.AfterARun | packages/effect/src/Cron.ts:347-351 | Restarted after a run, next finds the least later run and does not throw. |
| CronSequence.NeverThrowsAfterFirst | packages/effect/src/Cron.ts:347-351 | After one run the generator never throws. |
| CronSequence.SequenceListsEveryRun | packages/effect/src/Cron.ts:347-351 | From its first run on the generator lists exactly the matching minutes, strictly increasing, from any start. |
| CronSequence.SequenceListsEveryRunFromStart | packages/effect/src/Cron.ts:347-351 | Unless the start jumps over a run, the generator lists exactly the matching minutes after the start. |
| CronParse.FieldIsAccepted | packages/effect/src/Cron.ts:460-496 | A field is accepted if and only if its step is between 1 and the maximum, its values lie in the range, ends included, and a range is not reversed. |
| CronParse.FieldErrors | packages/effect/src/Cron.ts:460-496 | Each error occurs exactly in its own case, steps before values and values before their order. |
| CronParse.FieldCovers | packages/effect/src/Cron.ts:453-496 | A value covers itself, ranges and stars what is reached from the lower end in whole steps, all of it without a step. |
| CronParse.RangeEnds | packages/effect/src/Cron.ts:382-432 | The five ranges, with their ends accepted and the values beyond rejected. |
| CronParse.AddStepped | packages/effect/src/Cron.ts:466-468 | The loop adds exactly the values reached from the left bound in whole steps. |
| CronParse.AddField | packages/effect/src/Cron.ts:453-496 | A field adds exactly the values it covers, or reports the first thing wrong with it. |
| CronParse.ReportsFirst | packages/effect/src/Cron.ts:453-496 | Reading that gets to a faulty field reports that field and no other error. |
| CronParse.ReportsNothing | packages/effect/src/Cron.ts:455-457 | A bare star, or full coverage, after correct fields hides every later error. |
| CronParse.ParseSegment | packages/effect/src/Cron.ts:440-504 | Success allows exactly the values some field covers, as a proper subset of the range that is empty exactly when all are covered; it fails with an error if and only if reading reaches a field with that error. |
| CronParse.Parse | packages/effect/src/Cron.ts:188-202 | Any count of segments but five fails; else the first segment with an error decides, and success is a schedule within the bounds of its fields matching exactly the dates the five segments describe. |
| CronParse.ExampleDescribes | packages/effect/src/Cron.ts:172-182 | The documented expression describes exactly 04:00 on the days from 8 through 14. |
| CronParse.ExampleSucceeds | packages/effect/src/Cron.ts:172-182 | No segment of it reports an error. |
| Decimal.RationalAt | packages/effect/src/BigDecimal.ts:47-52 | The number denoted, times 10^s, is the value written with s places. |
| Decimal.ScaleUpIsExact | packages/effect/src/BigDecimal.ts:186-196 | More places denote the same number. |
| Decimal.ScaleDownTruncates | packages/effect/src/BigDecimal.ts:176-196 | Fewer places truncate toward zero, which is rounding down if and only if the value is not negative or loses nothing. |
| Decimal.ScaleRoundsUpNegatives | packages/effect/src/BigDecimal.ts:176-196 | -1.5 scaled to no places is -1, above it, and not -2. |
| Decimal.SumIsExact | packages/effect/src/BigDecimal.ts:215-233 | Sums and differences are exact for any two scales. |
| Decimal.MultiplyIsExact | packages/effect/src/BigDecimal.ts:252-258 | Products are exact. |
| Decimal.ResultScales | packages/effect/src/BigDecimal.ts:215-294 | Sums and differences keep the larger scale and products add scales; zero operands leave sums alone and make products plain zero. |
| Decimal.EquivalenceIsEquality | packages/effect/src/BigDecimal.ts:774-784 | Equivalence is equality of the numbers denoted. |
| Decimal.OrderIsRationalOrder | packages/effect/src/BigDecimal.ts:450-465 | Order compares the numbers denoted, with ties exactly at equivalence. |
| DecimalNormal.NormalDenotes | packages/effect/src/BigDecimal.ts:145-172 | The normal form denotes the same number and ends in no zero. |
| DecimalNormal.NormalIsCanonical | packages/effect/src/BigDecimal.ts:54-63 | Two values are equivalent if and only if they have the same normal form, which is all the hash reads. |
| DecimalNormal.IsIntegerMeans | packages/effect/src/BigDecimal.ts:963 | isInteger holds exactly for numbers without a fraction. |
| DecimalNormal.CountTrailingZeros | packages/effect/src/BigDecimal.ts:152-159 | The digit loop counts all trailing zeros. |
| DecimalNormal.BigDecimal.UnsafeMakeNormalized | packages/effect/src/BigDecimal.ts:116-124 | Throws exactly for non-zero multiples of ten, else makes a value that caches itself, which is its normal form if and only if it is not zero at another scale than 0. |
| DecimalNormal.BigDecimal.Normalize | packages/effect/src/BigDecimal.ts:145-172 | Never throws, caches the normal form, and keeps the cached object. |
| DecimalText.RoundTrip | packages/effect/src/BigDecimal.ts:905-929 | Parsing a printed value gives it back exactly for scales from 0, and otherwise the equivalent integer. |
| DecimalText.FormatIsCanonical | packages/effect/src/BigDecimal.ts:905-929 | The text has a sign for negative values only, no superfluous leading zero and a dot with exactly scale digits when there are any, if and only if it is not zero at a negative scale. |
| DecimalText.FormatIsTheCanonicalText | packages/effect/src/BigDecimal.ts:905-929 | With that exception the printed text is the only canonical one that reads back. |
| DecimalText.ZerosAreNotCanonical | packages/effect/src/BigDecimal.ts:917-920 | Zero at scale -k prints as k + 1 zeros. |
| DecimalText.FromStringReads | packages/effect/src/BigDecimal.ts:845-870 | For every text the characters around the first dot are read as one signed numeral, nothing as zero, and anything else is rejected. |
| DecimalText.ReadsSignAfterDot | packages/effect/src/BigDecimal.ts:849-870 | So ".-5" reads as -0.05. |
| DecimalText.ReadsDecimal | packages/effect/src/BigDecimal.ts:836-838 | "1.2" reads as 12 at scale 1 and "1.a" is rejected. |
| Digits.NumeralMeans | packages/effect/src/BigDecimal.ts:866 | Numerals are digits with an optional single sign. |
| DecimalText.ParsesJoined | packages/effect/src/BigDecimal.ts:845-870 | A signed numeral around a dot parses to its digits, with the digits after the dot as scale. |
| DecimalDivide.RoundTerminalMeans | packages/effect/src/BigDecimal.ts:352-363 | It is 1 if and only if the magnitude is at least 5 times the power of ten of its leading digit, else 0. |
| DecimalDivide.DivideWithPrecision | packages/effect/src/BigDecimal.ts:300-350 | The quotient is widened by the fewest places that make it exact or long enough and rounded to nearest, halves away from zero, with the right sign. |
| DecimalQuotient.Divide | packages/effect/src/BigDecimal.ts:390-405 | None exactly for a zero divisor, else zero or the quotient rounded to 100 digits. |
| DecimalQuotient.RoundedIsUnique | packages/effect/src/BigDecimal.ts:300-350 | That description leaves a single result. |
| DecimalQuotient.DivideIsAccurate | packages/effect/src/BigDecimal.ts:390-405 | The result is within half a unit in the last place of the true quotient. |
| DecimalQuotient.DivideUndoesMultiply | packages/effect/src/BigDecimal.ts:390-405 | Dividing a product by a non-zero factor gives a value equivalent to the other factor, however many digits it has. |
| DecimalQuotient.DivideFindsShortQuotients | packages/effect/src/BigDecimal.ts:390-405 | A quotient that some decimal of at most 100 digits equals is found exactly. |
| DecimalQuotient.DivideIsExactOrLong | packages/effect/src/BigDecimal.ts:300-350 | The result is the exact quotient or has at least 100 significant digits. |
| DecimalQuotient.DivideRelativeError | packages/effect/src/BigDecimal.ts:390-405 | The error is at most half of 10^-99 of the result, whatever its magnitude. |
| DecimalQuotient.OneThird | packages/effect/src/BigDecimal.ts:300-350 | 1 / 3 has exactly one hundred places. |
| DecimalQuotient.PlaceOfQuotient | packages/effect/src/BigDecimal.ts:300-350 | The scale of a non-zero result is the only one that satisfies a condition on the operands. |
| DecimalQuotient.DivideRoundsDownExactly | packages/effect/src/BigDecimal.ts:366-405 | For every dividend and non-zero divisor the result is the floor of the quotient if and only if the dividend is zero, or the floor can be written with the places taken and the fraction is less than half a unit of the last one, or half of it below zero. |
| DecimalQuotient.DivideRoundsDown | packages/effect/src/BigDecimal.ts:366-405 | So where the quotient is a decimal of at most 100 digits, the result is its floor if and only if it is an integer. |
| DecimalQuotient.DivideKeepsFraction | packages/effect/src/BigDecimal.ts:366-405 | 6 / 4 gives 1.5, whose floor is 1. |
| BigIntegers.NewtonStep | packages/effect/src/BigInt.ts:478-480 | From above the root a step goes strictly down and not below the floor root. |
| BigIntegers.UnsafeSqrt | packages/effect/src/BigInt.ts:470-482 | Throws exactly for negative numbers, else terminates with the floor root. |
| BigIntegers.FloorRootIsUnique | packages/effect/src/BigInt.ts:470-482 | There is only one floor root. |
| BigIntegers.ComputeGcd | packages/effect/src/BigInt.ts:425-432 | The loop terminates with the result of Euclid's recursion. |
| BigIntegers.GcdIsGreatest | packages/effect/src/BigInt.ts:425-432 | For all integers the result divides both and every common divisor divides it. |
| BigIntegers.Bezout | packages/effect/src/BigInt.ts:425-432 | The result is an integer combination of both numbers. |
| BigIntegers.GcdSign | packages/effect/src/BigInt.ts:425-432 | The result is negative if and only if the first number is after an even count of divisions, or the second after an odd one; its magnitude is that of the magnitudes. |
| BigIntegers.GcdIsLargest | packages/effect/src/BigInt.ts:408-432 | It is the greatest common divisor if and only if that sign is not negative. |
| BigIntegers.GcdCanBeNegative | packages/effect/src/BigInt.ts:408-432 | gcd(4, -2) is -2. |
| BigIntegers.LcmThrows | packages/effect/src/BigInt.ts:453 | lcm throws exactly for two zeros. |
| BigIntegers.LcmIsLeast | packages/effect/src/BigInt.ts:453 | Unless both are zero, gcd times lcm is the product and lcm is a common multiple dividing every common multiple. |
| BigIntegers.LcmIsSmallest | packages/effect/src/BigInt.ts:453 | For positive numbers it is the smallest positive common multiple. |
| Duration.OrderByNanos | packages/effect/src/Duration.ts:379-439 | Order and equivalence compare nanoseconds across all forms, infinity on top. |
| Duration.MakeAgrees | packages/effect/src/Duration.ts:146-164 | Milliseconds and a million times as many nanoseconds make equivalent durations, negative counts and NaN zero, infinity an infinite one; nanoseconds are kept as they are. |
| Duration.PartsRecompose | packages/effect/src/Duration.ts:610-639 | The printed parts are each below their radix and add up to the exact nanoseconds. |
| Duration.PartsAreUnique | packages/effect/src/Duration.ts:602-642 | They are the only non-zero parts below their radix, from larger units to smaller, that add up to it. |
| Duration.JoinMeans | packages/effect/src/Duration.ts:641 | A part prints as its decimal digits and its unit, and parts are separated by single spaces in order. |
| Duration.FormatExamples | packages/effect/src/Duration.ts:595-642 | The printed text of the documentation's examples, of an infinite duration, and of every unit. |
| Duration.FormatIsFaithful | packages/effect/src/Duration.ts:602-642 | Two durations print alike if and only if they are equivalent. |
| Duration.FormatDuration | packages/effect/src/Duration.ts:602-642 | Pushing, reversing and joining the parts gives that text. |

## Left out

- `Chunk` functions that only wrap array functions (`sort`, `dedupe`, `union`, `zipWith` and the like), predicate loops (`takeWhile`, `dropWhile`, `splitWhere`) and fractional counts: they would add easy members or rest on modules not modelled.
- `flatMap` and `chunksOf` on heap nodes: they are modelled on ropes; iteration flattens the receiver, which `ChunkHeap.Chunk.ToReadonlyArray` covers.
- The `ReadonlyArray` inside an array chunk is an immutable sequence, so a caller mutating an array after an unsafe wrap is not modelled.
- Time zones, daylight saving, the default `new Date()` and the range limit of `Date`: the calendar is plain and unbounded.
- `Cron.make`, `Cron.Equivalence` and hashing: comparing sorted sets is easy, and the sort is in a module that is not part of this model.
- Splitting the text of a cron expression at spaces, commas, slashes and dashes, aliases, and `Number(...)` coercion: `CronParse` starts from split segments, any text that is not an integer numeral being `NotInteger`; the message and input carried by a parse error.
- IEEE floating point: `fromNumber`, `unsafeToNumber`, fractional inputs of `Duration`, and rounding of `toMillis` and of `millis * 1_000_000`; they are taken as exact.
- `remainder`, `clamp`, `between`, `min`, `max` and arithmetic on durations: immediate from what is proved.
