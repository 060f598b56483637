# libPhenom in Dafny

A model of the algorithmic core of libPhenom, and proofs of what that core is for. Each part has a
specification on values, theorems about it, and, where the C code works in place, classes and loops
proved against it.

- **Timer wheel**: four levels of 256 slots with cascading. `TimerTicks` (times and ticks),
  `WheelSlots` (which tick empties which slot), `WheelModel` and `WheelInvariant` (the operations and
  what they keep), `WheelRuns` (whole runs), `TimerWheel` (the code).
- **Big integers and digit generation**: `BigintSpec`, `BigintDivision`, `BigintShift` (word
  arithmetic), `Bigints`, `BigintSubtraction`, `PowersOfFive` (the code on arrays), `DigitSpec` and
  `DigitProofs` (the two digit loops in exact arithmetic), `DigitLoops` (the loops over big integers),
  `DigitScaling`, `DigitSetup` (the preparation of the loops), `DoubleDigits`, `Doubles` (doubles,
  their neighbours and what decimals are read as) and `DoublePrinting` (what is printed for a double).
- **UTF-8 and JSON**: `Utf8`, `JsonValue` (variants and their equality), `JsonText` (printing),
  `JsonGrammar` (reading), `JsonStrings`, `JsonAscii`, `JsonLayout`, `JsonRoundTrip` (theorems),
  `JsonSyntax` (the grammar of RFC 8259 as syntax trees), `JsonTokens` and `JsonReading` (reading is
  right on every text), `JsonScan` and `JsonLoader` (the loader's buffer, lexer and parser),
  `JsonDumper` (the printer).
- **Hash table**: `HashSpec` (probing, tombstones and the map), `HashTable` (the code),
  `HashIteration` (iterators and histories).
- **Buffer queue**: `BufSearch` (searching across buffers), `BufQueue` (the code).
- **Counters**: `CounterRuns` (every interleaving of writers and a reader), `Counters` (the code).
- **Affine jobs**: `AffineJobs` (the ping protocol and the code of its two sides).
- **Streams**: `Streams` (writing and reading through a buffer).
- `Arith` and `Options` are shared.

`dafny verify dfyconfig.toml` checks the whole project.

## How the model relates to the code

- Integers are unbounded except where the width matters: words and borrows of big integers, int64
  values in JSON, and the 32-bit sequence number of the counters are explicit.
- Memory allocation, copies of keys and values, and the other end of a stream are parameters: a
  boolean that says whether a request succeeds, or a schedule that says how many bytes move per call.
- Locked sections are single steps of the timer wheel and of the affine-job protocol. The counter
  model takes every load and store as a step, in a sequentially consistent order.
- Table sizes are powers of two and positions are masked with the size less one, as in the code;
  `HashSpec.MaskIsMod` and `HashSpec.ProbeIsMod` relate that to the probe order.
- Where a claim is false of the code, the model keeps the code, gives the input, and states the exact
  condition:
  - a clock step is one tick only for resolutions that divide, or are a multiple of, 1000
    (`TimerTicks.StepsAreTicksIffUniform`);
  - a timer whose dispatch is refused stays locked, although the header says it is deactivated
    (`WheelRuns.StuckIffVetoed`, `WheelRuns.VetoedRun`);
  - big-number comparison misjudges two zeros of different lengths (`BigintDivision.CmpAgrees`), and
    shifting zero by whole words leaves normal form (`BigintShift.LShiftNormal`);
  - from an arbitrary entry state the shortest-digit loop yields the closest of the shortest decimals
    exactly unless the first digit is a 9 whose successor is exactly the upper end of the interval
    (`DigitProofs.ShortestString`, `DigitProofs.NineEdgeExample`); this is a fact about loop states,
    and no double leads to one of these (`DoubleDigits.NoDoubleOnEdge`);
  - printed JSON loads exactly if no string holds a NUL (`JsonRoundTrip.RoundTrip`), and the lexer
    loses a NUL that follows a number or a word, and no other (`JsonStrings.NulLostIff`);
  - pretty-printed text is indented by nesting exactly if no object has members; the members of an
    object after the first, and its closing brace, are indented one step too far
    (`JsonLayout.LayoutIff`, `JsonLayout.TwoMembers`);
  - records are found however they are split exactly for delimiters of one or two bytes
    (`BufSearch.FramingIff`); a comment in the code says that the queue never builds such splits, but
    appends alone do (`BufQueue.SplitDelimiterLost`);
  - the ordered iterator stops at a key that was deleted, although the header calls it safe under
    deletion: a later key is lost exactly if a deleted one comes before it
    (`HashIteration.YieldsAllIff`, `HashIteration.LaterKeyLost`).

## Model

| member | source | states |
|---|---|---|
| `TimerTicks.AddResExact` | corelib/timerwheel.c:19-28 | Adding the tick resolution keeps a timeval normal and adds exactly that many milliseconds. |
| `TimerTicks.ToTickIsQuotient` | corelib/timerwheel.c:52-56 | For a resolution that divides, or is a multiple of, 1000, the tick number is the time divided by the tick length. |
| `TimerTicks.ToTickMonotone` | corelib/timerwheel.c:52-56 | For every resolution, later times have tick numbers at least as large. |
| `TimerTicks.AddResAdvances` | corelib/timerwheel.c:19-56 | One resolution later is exactly one tick later. |
| `TimerTicks.StuckTimeIsStuck` | corelib/timerwheel.c:19-56 | For every other resolution there is a time from which one step does not change the tick number. |
| `TimerTicks.StepsAreTicksIffUniform` | corelib/timerwheel.c:19-56 | Every step of the clock is one tick exactly for the resolutions that divide or are a multiple of 1000. |
| `WheelSlots.NextVisitIsFirst` | corelib/timerwheel.c:195-232 | The next tick that empties a slot is a visit of that slot, not in the past, and the first one. |
| `WheelSlots.NextVisitStable` | corelib/timerwheel.c:195-232 | Unless the current tick empties it, the passing of a tick does not change when a slot is next emptied. |
| `WheelSlots.ComputeListTimely` | corelib/timerwheel.c:58-93 | The slot computed for a timer is emptied no later than the timer is due, exactly then at level 0, and never by the current tick at upper levels; this includes due ticks beyond the range of the wheel. |
| `WheelSlots.TimelyAfterTick` | corelib/timerwheel.c:58-93 | A timer that is filed on time stays on time while ticks pass that do not empty its slot. |
| `WheelSlots.Level0VisitIsDue` | corelib/timerwheel.c:215-237 | At level 0 a timer on time is in the slot emptied by the tick exactly when it is due in it. |
| `WheelModel.ClampOrders` | corelib/timerwheel.c:58-72 | A due time in the past becomes the next tick and no other due tick changes. |
| `WheelInvariant.EnableKeeps` | corelib/timerwheel.c:95-135 | Enabling a timer keeps the wheel invariant: each timer on one list, every enabled timer on time. |
| `WheelInvariant.DisableKeeps` | include/phenom/timerwheel.h:89-111 | Disabling keeps the invariant. |
| `WheelInvariant.RemoveKeeps` | corelib/timerwheel.c:137-160 | Removing keeps the invariant. |
| `WheelInvariant.EnableIsEnabling` | corelib/timerwheel.c:95-135 | Enabling works exactly for a disabled timer; it is then due at the tick of the time that was set, or at the current one if that is later, and is on one list; nothing else changes. |
| `WheelInvariant.DisableIsDisabling` | include/phenom/timerwheel.h:94-111 | Disabling works exactly for a timer that is not locked, and leaves it on its list with its due time. |
| `WheelInvariant.RemoveIsRemoving` | corelib/timerwheel.c:137-160 | Removing works exactly for a timer that is on a list and not locked, and takes it off every list. |
| `WheelInvariant.CascadeKeeps` | corelib/timerwheel.c:164-193 | Emptying an upper slot refiles all its enabled timers on time, changes no due tick or state, and leaves none in an emptied slot. |
| `WheelInvariant.TickCascadesKeeps` | corelib/timerwheel.c:215-232 | After the nested cascades every enabled timer that is due now is at level 0. |
| `WheelInvariant.TickIsExact` | corelib/timerwheel.c:195-258 | A tick claims exactly the enabled timers due in it, leaves every other enabled timer as it was, and moves the clock on by one. |
| `WheelInvariant.ClaimIsExact` | corelib/timerwheel.c:195-258 | The same for the locked part of the tick function called with the current time. |
| `WheelRuns.StepEffect` | corelib/timerwheel.c:95-275 | What each operation does to the state, the due tick and the lists of any one timer, with the clock moving only in a tick that runs. |
| `WheelRuns.RunKeeps` | corelib/timerwheel.c:95-275 | The invariant holds after every sequence of operations. |
| `WheelRuns.FiresExactlyWhenDue` | corelib/timerwheel.c:195-275 | In every run, a timer left enabled stays enabled with its due tick until the tick with that number and is claimed by that one. |
| `WheelRuns.ArmedStands` | corelib/timerwheel.c:58-135 | In every run the time a timer was armed for stands until it is armed again, whatever is enabled, disabled or fired meanwhile. |
| `WheelRuns.FiresAtTimeSet` | corelib/timerwheel.c:58-275 | In every run, a timer armed for a time and enabled later is claimed by the tick with the number of that time, or of the one current when it was enabled if that is later, and by no earlier one. |
| `WheelRuns.ClockOnlyAdvances` | corelib/timerwheel.c:195-275 | Tick numbers never go back in a run. |
| `WheelRuns.ReEnabledFiresLater` | corelib/timerwheel.c:95-135 | A timer enabled after a tick has run, in its own callback say, is due strictly later than that tick. |
| `WheelRuns.EnablesAreConserved` | corelib/timerwheel.c:95-275 | In every run each successful enable is matched by one dispatch, one cancellation or one veto, or is still outstanding. |
| `WheelRuns.VetoedTimerIsStuck` | include/phenom/timerwheel.h:127-135 | A timer whose dispatch is refused stays locked for the rest of the run: it can be neither enabled nor removed. The header says refusing deactivates it. |
| `WheelRuns.StuckIffVetoed` | corelib/timerwheel.c:195-275 | In every run, once a tick has found a timer due and has let go of it, the timer can be enabled again if and only if its dispatch was not refused, and is locked if and only if it was. |
| `WheelRuns.VetoedRun` | corelib/timerwheel.c:195-275 | From any new wheel: a run of three steps after which a timer can be neither enabled nor removed. |
| `WheelRuns.UsableIffDispatched` | corelib/timerwheel.c:195-275 | The same for one tick with its callbacks: a due timer can be enabled afterwards if and only if it was not refused. |
| `WheelRuns.DispatchAllKeeps` | corelib/timerwheel.c:260-275 | Dispatching, with callbacks that act on the wheel, keeps the invariant and the clock and leaves nothing held. |
| `TimerWheel.Wheel.constructor` | corelib/timerwheel.c:30-50 | A new wheel is empty, its next tick one after the current one. |
| `TimerWheel.Wheel.FindList` | corelib/timerwheel.c:58-93 | Clamps the timer in place and returns the slot of the model. |
| `TimerWheel.Wheel.Enable` | corelib/timerwheel.c:95-135 | Succeeds exactly for a disabled timer; the timer is then enabled and due at the tick of the time set or the current one; result and state are those of the model and the invariant holds. |
| `TimerWheel.Wheel.Disable` | include/phenom/timerwheel.h:94-111 | Succeeds exactly for a timer that is not locked, which stays on its list; result and state are those of the model and the invariant holds. |
| `TimerWheel.Wheel.Remove` | corelib/timerwheel.c:137-160 | Succeeds exactly for a timer on a list that is not locked, which is then on none; result and state are those of the model and the invariant holds. |
| `TimerWheel.Wheel.CascadeTimer` | corelib/timerwheel.c:164-193 | The loop over the swapped-out list is the cascade of the model; it reports index 0. |
| `TimerWheel.Wheel.ClaimDue` | corelib/timerwheel.c:211-258 | The locked part of a tick claims exactly the timers due in it. |
| `TimerWheel.Wheel.LockHeld` | corelib/timerwheel.c:238-255 | The claim loop locks what is enabled and not refused and drops the rest. |
| `TimerWheel.Wheel.DispatchHeld` | corelib/timerwheel.c:260-275 | Dispatches everything claimed, once, in list order. |
| `TimerWheel.Wheel.Tick` | corelib/timerwheel.c:195-275 | Dispatches exactly what the claim left, or nothing if the tick is not due yet. |
| `TimerWheel.Wheel.CatchUp` | corelib/nbio/common.c:167-175 | The catch-up loop ends with the next run not before now, having run every tick number passed once and in order; each log entry names exactly the timers that were enabled and due in that tick, each once, on the wheel that tick found. |
| `BigintSpec.MulAddWordsValue` | corelib/dtoa.c:620-675 | The carry loop computes x*m+a. |
| `BigintSpec.RowWordsValue` | corelib/dtoa.c:813-921 | One row of a multiplication adds x*y to the accumulator. |
| `BigintSpec.MultWordsValue` | corelib/dtoa.c:813-921 | The rows together are the product. |
| `BigintDivision.CmpAgrees` | corelib/dtoa.c:1042-1074 | The comparison has the sign of the difference exactly unless both numbers are zero written with different lengths. |
| `BigintDivision.DiffExact` | corelib/dtoa.c:1076-1168 | The borrow loop, in 64-bit wrap-around arithmetic, computes the difference and ends without a borrow. |
| `BigintDivision.SubMulExact` | corelib/dtoa.c:2140-2262 | Subtracting a multiple that fits ends with neither carry nor borrow and is exact. |
| `BigintDivision.Estimate` | corelib/dtoa.c:2140-2262 | The quotient guessed from the top words is never too large and at most one too small. |
| `BigintDivision.QuoremExact` | corelib/dtoa.c:2140-2262 | For a divisor with four leading zero bits and b < 10*S: the quotient and remainder are exact and the remainder is in normal form. |
| `BigintShift.LShiftValue` | corelib/dtoa.c:982-1040 | Shifting multiplies by the power of two. |
| `BigintShift.LShiftNormal` | corelib/dtoa.c:982-1040 | Shifting keeps normal form exactly unless zero is shifted by a word or more. |
| `BigintShift.Hi0Bits` | corelib/dtoa.c:715-747 | The number of leading zero bits. |
| `BigintShift.DShift` | corelib/dtoa.c:2127-2138 | After shifting by the amount returned, the top word of the divisor is in [2^27, 2^28). |
| `BigintShift.ShiftPrepares` | corelib/dtoa.c:2127-2138 | Why that shift leaves exactly four leading zero bits. |
| `Bigints.Bigint.constructor` | corelib/dtoa.c:552-592 | A number with room for 2^k words. |
| `Bigints.MultAdd` | corelib/dtoa.c:620-675 | In place, x*m+a; a longer number is allocated only if the carry does not fit. |
| `Bigints.MultiplyWords` | corelib/dtoa.c:640-663 | The carry loop. |
| `Bigints.Cmp` | corelib/dtoa.c:1042-1074 | The comparison of the word sequences from the top. |
| `Bigints.LShift` | corelib/dtoa.c:982-1040 | A new number with exactly the shifted words. |
| `Bigints.AddRow` | corelib/dtoa.c:854-867 | The inner loop adds one row at its offset and touches nothing else. |
| `Bigints.MultiplyInto` | corelib/dtoa.c:846-867 | The outer loop forms all rows. |
| `Bigints.Mult` | corelib/dtoa.c:813-921 | A new number in normal form whose value is the product. |
| `BigintSubtraction.SubtractInto` | corelib/dtoa.c:1111-1132 | The two borrow loops. |
| `BigintSubtraction.Diff` | corelib/dtoa.c:1076-1168 | A new number in normal form, the absolute difference, its sign set exactly when the first is smaller. |
| `BigintSubtraction.SubtractMultiple` | corelib/dtoa.c:2181-2211 | The multiply-and-subtract loop. |
| `BigintSubtraction.Quorem` | corelib/dtoa.c:2140-2262 | Leaves exactly b mod S in b and returns b / S. |
| `PowersOfFive.ChainSquares` | corelib/dtoa.c:964-977 | Each member of the cached chain is the square of the one before. |
| `PowersOfFive.ChainStep` | corelib/dtoa.c:956-978 | One turn of the squaring loop preserves the product still to be formed. |
| `PowersOfFive.Pow5Cache.Start` | corelib/dtoa.c:942-955 | The chain starts with 625. |
| `PowersOfFive.Pow5Cache.Extend` | corelib/dtoa.c:964-977 | The chain is extended by squaring and its members never change. |
| `PowersOfFive.Pow5Cache.Pow5Mult` | corelib/dtoa.c:923-980 | b * 5^k, exactly. |
| `PowersOfFive.Pow5Cache.MultiplyChain` | corelib/dtoa.c:956-980 | b * 625^k by repeated squaring along the chain. |
| `DigitProofs.RoundOffAddsOne` | corelib/dtoa.c:4336-4344 | Rounding off adds one unit in the last place, with the carry through nines. |
| `DigitProofs.TrimKeepsValue` | corelib/dtoa.c:4345-4351 | Dropping trailing zeros keeps the value. |
| `DigitProofs.FixedNearest` | corelib/dtoa.c:4306-4351 | The fixed-digit loop, after rounding, yields the nearest decimal of that many digits, ties to even. |
| `DigitProofs.ShortestCorrect` | corelib/dtoa.c:4217-4305 | From every state of the shortest-digit loop the result is right, and which of the two results it is. |
| `DigitProofs.ShortestString` | corelib/dtoa.c:4217-4305 | The shortest-digit loop yields the nearest decimal of the digit limit exactly if no shorter one rounds to the number, and otherwise a decimal that rounds to it with no shorter one doing so; that is the closest such one exactly unless the target is the nine edge. |
| `DigitProofs.NineEdgeExample` | corelib/dtoa.c:4230-4244 | A loop state on that edge, with a symmetric interval, where the output is 10 although 9 is closer. |
| `DigitProofs.NarrowIsClosest` | corelib/dtoa.c:4217-4305 | An interval narrower than one unit of the first digit is never on the edge. |
| `DigitLoops.RoundOffDigits` | corelib/dtoa.c:4336-4344 | The round-off code on the digit string. |
| `DigitLoops.RoundLastDigit` | corelib/dtoa.c:4323-4351 | Nearest, ties to even, decided by comparing twice the remainder. |
| `DigitLoops.FixedDigits` | corelib/dtoa.c:4306-4351 | The loop over big numbers computes that nearest decimal. |
| `DigitLoops.DecideDigit` | corelib/dtoa.c:4217-4290 | One turn extracts the next digit and decides as the exact arithmetic does. |
| `DigitLoops.CmpUpper` | corelib/dtoa.c:4224-4226 | Where the comparison with S - mhi agrees with arithmetic, and where a zero without words differs. |
| `DigitLoops.Turn` | corelib/dtoa.c:4217-4304 | Either the output is complete or the same search goes on with everything times ten. |
| `DigitLoops.ShortestDigits` | corelib/dtoa.c:4203-4351 | The loop over big numbers ends and yields the shortest string. |
| `DigitScaling.ResultScaled` | corelib/dtoa.c:4174-4181 | Multiplying number, divisor and interval by a common factor changes neither the digits nor which of the results they are. |
| `DigitSetup.I2B` | corelib/dtoa.c:797-811 | A one-word number. |
| `DigitSetup.ShiftBoth` | corelib/dtoa.c:4174-4181 | Shifts number and divisor by the same amount so that the divisor is prepared for division. |
| `DigitSetup.CorrectEstimate` | corelib/dtoa.c:4182-4190 | A decimal exponent that was one too large is put right: afterwards the quotient has one digit before the point. |
| `DigitSetup.Bounds` | corelib/dtoa.c:4207-4216 | The upper half-width, doubled for a power of two. |
| `DigitSetup.Powers` | corelib/dtoa.c:4129-4145 | The powers of five, multiplied into number, interval and divisor. |
| `DigitSetup.Arrange` | corelib/dtoa.c:4149-4216 | Everything the shortest-digit loop requires is established, and the numbers it starts with. |
| `DigitSetup.ShortestPrepared` | corelib/dtoa.c:4143-4351 | From number, divisor and interval before shifting to the shortest digit string. |
| `DigitSetup.ShortestFrom` | corelib/dtoa.c:4106-4351 | From the significand and the exponents of two and five to the shortest digit string, for the quotient those exponents denote. |
| `DigitSetup.FixedFrom` | corelib/dtoa.c:4106-4351 | The same for a fixed number of digits: the nearest decimal, ties to even. |
| `DoubleDigits.QuotientIsValue` | corelib/dtoa.c:3866-3884 | The exponents chosen denote the double divided by the power of ten. |
| `DoubleDigits.UnitsInLastPlace` | corelib/dtoa.c:4106-4122 | The interval is half a unit in the last place of the double on either side, half of that below a power of two. |
| `DoubleDigits.TwiceSignificand` | corelib/dtoa.c:1387-1414 | Measured in that half unit, a normal double has a significand of 53 bits and a denormal one fewer. |
| `DoubleDigits.NoDoubleOnEdge` | corelib/dtoa.c:4106-4305 | No double, normal or denormal, reaches the nine edge. |
| `DoubleDigits.ShortestDouble` | corelib/dtoa.c:4106-4351 | For every double the string is the shortest that rounds to it and the closest of those, with the corrected decimal exponent. |
| `Doubles.NoneBetween` | corelib/dtoa.c:4106-4122 | Between a double and its neighbours, one unit in the last place above and one or half a unit below, there is no double. |
| `Doubles.NextAbove` | corelib/dtoa.c:4106-4122 | One unit in the last place above a double is a double. |
| `Doubles.NextBelow` | corelib/dtoa.c:4149-4164 | One unit below a double, or half a unit if its significand is the least with 53 bits, is a double. |
| `Doubles.ReadsAsIffInside` | corelib/dtoa.c:4106-4164 | Of all doubles a given one is the nearest to a decimal exactly if the decimal lies within half the distances to its two neighbours, ends included for ties. |
| `DoublePrinting.SpecialIff` | corelib/dtoa.c:4149-4164 | The case the code singles out is exactly the one in which the neighbour below is nearer than the one above. |
| `DoublePrinting.EvenIffStripped` | corelib/dtoa.c:4227-4252 | The test for ties is whether the significand is even. |
| `DoublePrinting.StartValue` | corelib/dtoa.c:3866-4190 | The quotient the loop starts with is the double divided by the corrected power of ten. |
| `DoublePrinting.RoundsIffReads` | corelib/dtoa.c:4106-4305 | A decimal rounds to the number in the loop exactly if it is read as the double. |
| `DoublePrinting.PrintShortest` | corelib/dtoa.c:4106-4379 | For every double, in modes 0 and 1: the digits are read back as the double, no decimal that ends at a higher place is, and none of those that end at the same place is closer; and where the decimal point goes. |
| `DoublePrinting.PrintFixed` | corelib/dtoa.c:4106-4379 | For every double and every number of digits from one on: the nearest decimal with that many digits, the even one of two, and where the decimal point goes; with seventeen digits it is read back as the double. |
| `DoublePrinting.SeventeenDigits` | corelib/variant/json-dump.c:150-158 | The nearest decimal with seventeen digits or more, which is what the JSON printer asks for, is read back as the double. |
| `DoublePrinting.EstimateIff` | corelib/dtoa.c:3853-3865 | The estimates of the decimal exponent that are accepted: the right one, and the next one up where it is checked. |
| `Utf8.DecodeIsGrammar` | corelib/string.c:365-436 | The iterator accepts at each position exactly the characters of the grammar of RFC 3629, section 4, and yields scalar values. |
| `Utf8.EncodeDecoded` | corelib/string.c:310-436 | Encoding a decoded character gives back its bytes. |
| `Utf8.DecodeEncoded` | corelib/string.c:310-436 | Decoding an encoded scalar value gives it back, whatever follows. |
| `Utf8.ValidIsWellFormed` | corelib/string.c:438-455 | The validator accepts exactly the strings of the grammar. |
| `Utf8.EncodeOfCodePoints` | corelib/string.c:310-436 | Decoding and encoding a valid string is the identity. |
| `Utf8.CodePointsOfEncode` | corelib/string.c:310-436 | Encoding and decoding scalar values is the identity. |
| `Utf8.CodePointsAreScalar` | corelib/string.c:365-436 | Every code point of a valid string is a Unicode scalar value. |
| `Utf8.CheckAgrees` | corelib/variant/json-load.c:177-217 | The loader accepts a character by lead byte and check exactly when the string iterator does. |
| `JsonDumper.Iterate` | corelib/string.c:365-436 | The continuation loop decodes as specified. |
| `JsonDumper.CheckValid` | corelib/string.c:438-455 | Accepts exactly the strings of the grammar. |
| `JsonValue.EqualIsSame` | corelib/variant/variant.c:459-526 | Variant equality decides equality of objects as finite maps although it looks up only the keys of one side. |
| `JsonValue.VarEqualSymmetric` | corelib/variant/variant.c:459-526 | It is symmetric. |
| `JsonValue.VarEqualReflexive` | corelib/variant/variant.c:459-526 | It is reflexive. |
| `JsonValue.LessTotal` | corelib/string.c:240-258 | String comparison is a total order. |
| `JsonValue.LessTransitive` | corelib/string.c:240-258 | It is transitive. |
| `JsonValue.LessIsLexicographic` | corelib/string.c:240-258 | It is the lexicographic order: the first difference decides, and a proper prefix comes first. |
| `JsonValue.EncodeKeepsOrder` | corelib/string.c:310-363 | Byte order of encoded characters is code point order, as section 1 of RFC 3629 says. |
| `JsonValue.SortSorts` | corelib/hash/table.c:382-438 | Members in key order are a permutation in strictly increasing order. |
| `JsonStrings.StringBack` | corelib/variant/json-load.c:405-552 | A printed string is read back whole, exactly unless it holds a NUL. |
| `JsonStrings.CharBack` | corelib/variant/json-dump.c:63-148 | Every printed character, escaped or not, surrogate pairs included, is read back. |
| `JsonStrings.BodyIsText` | corelib/variant/json-load.c:405-552 | A string the lexer delivers is valid UTF-8 without NULs. |
| `JsonStrings.IntegerBack` | corelib/variant/json-load.c:582-640 | Every 64-bit integer is read back from its decimal text. |
| `JsonStrings.IndentSkipped` | corelib/variant/json-dump.c:39-61 | Indentation is invisible to the lexer. |
| `JsonStrings.NulIsSwallowed` | corelib/variant/json-load.c:285-302 | A NUL right after any integer or word disappears, whatever follows; before a token it is an error. |
| `JsonStrings.NulLostIff` | corelib/variant/json-load.c:285-302 | For every text: the bytes used up by a token hold a NUL if and only if the token is a number or a word and the NUL is the last of them. |
| `JsonTokens.UnitRead` | corelib/variant/json-load.c:353-374 | An escape is read as the base-16 number of its four digits, small or capital. |
| `JsonTokens.ItemsRead` | corelib/variant/json-load.c:405-552 | The contents of any string of RFC 8259, section 7, are read as the string they denote. |
| `JsonTokens.ItemsWritten` | corelib/variant/json-load.c:405-552 | Whatever is read as a string was written as one of that grammar. |
| `JsonTokens.NumRead` | corelib/variant/json-load.c:582-640 | Any integer of section 6 that fits 64 bits is read as its value. |
| `JsonTokens.LeafWritten` | corelib/variant/json-load.c:684-747 | Whatever is read as a string, an integer or a literal was written as one. |
| `JsonReading.TreeRead` | corelib/variant/json-load.c:799-979 | Any value of the grammar, with any white space, is read as the value it denotes. |
| `JsonReading.ValueWritten` | corelib/variant/json-load.c:799-979 | Whatever is read as a value was written as one of the grammar, up to NULs passed over. |
| `JsonReading.LoadIff` | corelib/variant/json-load.c:981-1017 | For every text and all flags: loading yields a value and leaves a rest exactly if the text is a syntax tree that denotes the value, followed by that rest. |
| `JsonReading.LoadIsGrammar` | corelib/variant/json-load.c:981-1017 | On every text without NUL bytes loading succeeds exactly on the texts of RFC 8259, of the allowed kinds and without reals, and yields the value the grammar gives. |
| `JsonReading.NulIff` | corelib/variant/json-load.c:285-302 | The text of a tree holds a NUL exactly if the loader passed over one. |
| `JsonReading.SetFieldGets` | corelib/variant/variant.c:309-327 | Setting a member stores the value under its key and changes no other. |
| `JsonReading.SetFieldBinds` | corelib/variant/variant.c:309-327 | It does so in place, or at the end if the key is new. |
| `JsonReading.LastWins` | corelib/variant/json-load.c:799-875 | A loaded object holds under each key the value of the last member with that key. |
| `JsonAscii.TextAscii` | corelib/variant/json-dump.c:90-93 | With the ASCII flag every byte printed is ASCII. |
| `JsonLayout.LayoutIff` | corelib/variant/json-dump.c:39-326 | The text is laid out as the header describes, on one line or indented by nesting, exactly if there is no indentation or no object has members. |
| `JsonLayout.TwoMembers` | corelib/variant/json-dump.c:243-326 | An object whose second member and closing brace are indented one step too far. |
| `JsonLayout.OrderIs` | corelib/variant/json-dump.c:299-323 | With the flag set members are printed in increasing key order, otherwise as they come; none is lost. |
| `JsonLayout.PrintedPlainIff` | corelib/variant/json-dump.c:76-102 | A character is printed as it is exactly unless it is a quote, a backslash, a control character, or one a flag wants escaped. |
| `JsonLayout.TextSlashed` | corelib/variant/json-dump.c:85-88 | With the flag set every slash in the text is escaped. |
| `JsonRoundTrip.PrintedEqual` | corelib/variant/json-dump.c:268-326 | The order in which members are printed does not matter to variant equality. |
| `JsonRoundTrip.ValueReadsBack` | corelib/variant/json-load.c:799-979 | Parsing the text of any value followed by a separator gives the value and stops at the separator, or fails if it holds a NUL. |
| `JsonRoundTrip.RoundTrip` | corelib/variant/json-load.c:981-1017 | For every value and every combination of flags: loading the printed text succeeds exactly if the top level is allowed and no string holds a NUL, uses up the text, and gives an equal value. |
| `JsonRoundTrip.LoadIsClean` | corelib/variant/json-load.c:981-1017 | Whatever is loaded has distinct keys, 64-bit integers and NUL-free valid text. |
| `JsonRoundTrip.LoadedRoundTrip` | corelib/variant/json-load.c:981-1017 | Whatever is loaded from any text prints, in any layout, to text that loads to an equal value. |
| `JsonRoundTrip.SetKeeps` | corelib/variant/variant.c:309-327 | Setting a member keeps keys distinct and adds at most that key. |
| `JsonScan.TwoPassesAreOne` | corelib/variant/json-load.c:405-552 | Scanning to the quote and then unescaping reads exactly what the grammar reads. |
| `JsonScan.SavedText` | corelib/variant/json-load.c:415-476 | The text saved by the first pass holds only complete escapes, as the second pass assumes. |
| `JsonLoader.CheckSequence` | corelib/variant/json-load.c:177-217 | The loop decides the check of the specification. |
| `JsonLoader.Lexer.constructor` | corelib/variant/json-load.c:153-163 | A loader at the start of its text. |
| `JsonLoader.Lexer.Get` | corelib/variant/json-load.c:219-283 | Delivers the next byte of a checked character, or end of input, or a decoding error, whatever state the buffer is in. |
| `JsonLoader.Lexer.Unget` | corelib/variant/json-load.c:285-302 | Puts a byte back, except a NUL, which is lost. |
| `JsonLoader.Lexer.ScanExtent` | corelib/variant/json-load.c:405-453 | The first pass finds the closing quote exactly if the contents are well-formed, and saves the text. |
| `JsonLoader.Unescape` | corelib/variant/json-load.c:470-547 | The second pass yields the contents, or fails exactly on an unpaired surrogate or an escaped NUL. |
| `JsonLoader.DecodeEscape` | corelib/variant/json-load.c:353-374 | The value of four hexadecimal digits. |
| `JsonLoader.Lexer.ScanString` | corelib/variant/json-load.c:405-552 | The token of a string and the position after it. |
| `JsonLoader.Lexer.ScanNumber` | corelib/variant/json-load.c:582-640 | The token of an integer and the position after it. |
| `JsonLoader.Lexer.Scan` | corelib/variant/json-load.c:684-747 | The next token and the position after it. |
| `JsonLoader.Lexer.ParseValue` | corelib/variant/json-load.c:923-979 | Agrees with the grammar in outcome, value and position. |
| `JsonLoader.Lexer.ParseArray` | corelib/variant/json-load.c:877-921 | Agrees with the grammar in outcome, value and position. |
| `JsonLoader.Lexer.ParseObject` | corelib/variant/json-load.c:799-875 | Agrees with the grammar in outcome, value and position, duplicates included. |
| `JsonLoader.Lexer.ParseDocument` | corelib/variant/json-load.c:981-1017 | Agrees with the grammar under every combination of flags. |
| `JsonLoader.LoadString` | corelib/variant/json-load.c:1032-1051 | The outcome of loading any text is the one of the grammar. |
| `JsonDumper.Printer.WriteIndent` | corelib/variant/json-dump.c:39-61 | Writes exactly the indentation. |
| `JsonDumper.Printer.WriteString` | corelib/variant/json-dump.c:63-148 | Writes the escaped string; fails exactly on text that is not UTF-8. |
| `JsonDumper.Printer.WriteArray` | corelib/variant/json-dump.c:204-241 | Writes the text of the array, or fails exactly if some string in it is not UTF-8. |
| `JsonDumper.Printer.WriteMember` | corelib/variant/json-dump.c:243-266 | Writes a member and its separator. |
| `JsonDumper.Printer.WriteObject` | corelib/variant/json-dump.c:268-326 | Writes the text of the object in iteration or key order. |
| `JsonDumper.Printer.WriteValue` | corelib/variant/json-dump.c:328-361 | Writes the text of any value. |
| `JsonDumper.DumpString` | corelib/variant/json-dump.c:363-388 | The whole text, or failure exactly when some string is not UTF-8. |
| `HashSpec.EntriesHold` | corelib/hash/table.c:142-176 | The map has an entry exactly for the taken slots. |
| `HashSpec.NotFound` | corelib/hash/table.c:142-176 | A probe that meets an empty slot, or all slots, without the key proves it absent. |
| `HashSpec.ReachKept` | corelib/hash/table.c:237-343 | Filling a slot on a key's own probe path, or leaving a tombstone, keeps every entry reachable. |
| `HashTable.PowerAbove` | include/phenom/sysutil.h:94-103 | A power of two above n and at most twice n. |
| `HashSpec.MaskIsMod` | corelib/hash/table.c:142-176 | Masking with a power of two less one is the remainder. |
| `HashTable.HashTable.constructor` | corelib/hash/table.c:51-67 | An empty table of the size the hint asks for. |
| `HashTable.Create` | corelib/hash/table.c:51-67 | An empty table with room for the hint at half load, exactly if the allocation succeeds. |
| `HashTable.HashTable.FindSlot` | corelib/hash/table.c:142-176 | Finds the slot of a key that is present; otherwise a free slot on its probe path, or nothing exactly if no slot is empty. |
| `HashTable.HashTable.FindNewSlot` | corelib/hash/table.c:178-193 | Ends, and finds the first empty slot on the probe path. |
| `HashTable.HashTable.Rebuild` | corelib/hash/table.c:195-224 | Keeps the map and the count at any larger size and leaves no tombstones; a failed allocation changes nothing. |
| `HashTable.HashTable.Grow` | corelib/hash/table.c:226-235 | Keeps the map; makes room for n entries at half load, or fails. |
| `HashTable.HashTable.Insert` | corelib/hash/table.c:237-289 | A present key is kept and reported unless it is to be replaced, then it has the new value, or is lost with it if that cannot be copied; an absent key is added, unless there is neither room nor memory or a copy fails; no other key changes, and half load is kept while memory is granted. |
| `HashTable.HashTable.Get` | corelib/hash/table.c:301-310 | What the map holds for the key. |
| `HashTable.HashTable.Lookup` | corelib/hash/table.c:312-325 | What the map holds for the key, or the failure to copy it. |
| `HashTable.HashTable.Delete` | corelib/hash/table.c:327-343 | Removes the key from the map; reports whether it was there. |
| `HashTable.HashTable.Clear` | corelib/hash/table.c:118-140 | Empties the map, tombstones included. |
| `HashTable.HashTable.Size` | corelib/hash/table.c:345-348 | The size of the map. |
| `HashIteration.Iter.Next` | corelib/hash/table.c:350-373 | The next taken slot in physical order; nothing once the table was resized. |
| `HashIteration.IterateAll` | corelib/hash/table.c:350-380 | Iterating sees every entry of the map exactly once. |
| `HashIteration.OrderedIter.First` | corelib/hash/table.c:382-438 | Collects and sorts all keys; the branch for a key that is not found again cannot be taken. |
| `HashIteration.OrderedIter.Next` | corelib/hash/table.c:440-466 | Yields the next key in order exactly if it is still in the map; it ends the iteration at a key deleted meanwhile, although the header calls the iterators safe under deletion. |
| `HashIteration.YieldRest` | corelib/hash/table.c:440-466 | From any position the iterator yields the keys up to the first that is gone, with their present values, and then ends. |
| `HashIteration.YieldsAllIff` | corelib/hash/table.c:440-466 | Every key still in the map is yielded if and only if no deleted key comes before one. |
| `HashIteration.LaterKeyLost` | corelib/hash/table.c:440-466 | Deleting the second of three keys during the iteration loses the third, which is still in the map. |
| `HashIteration.IterateInOrder` | corelib/hash/table.c:382-466 | Iterating in order sees every entry exactly once, in key order. |
| `HashIteration.Replay` | corelib/hash/table.c:118-343 | Every history of insertions, deletions, growth and clearing, with any failures, is a history of a finite map: each answer and each next map are what the map before allows. |
| `HashIteration.HoldsLastStored` | corelib/hash/table.c:237-343 | At any point of a history the map holds a value under a key exactly if it is the one last stored there and not since replaced, deleted or cleared. |
| `HashIteration.StoredStays` | corelib/hash/table.c:237-343 | A value stays until the caller asks to replace, delete or clear it, and until then every insertion without replacing is refused. |
| `BufSearch.FindEndIsFirst` | corelib/buf.c:622-632 | The plain search finds the first occurrence, and 0 means there is none. |
| `BufSearch.SearchIsFindEnd` | corelib/buf.c:602-705 | With a delimiter of one or two bytes, searching buffer by buffer is searching the bytes. |
| `BufSearch.LongDelimiterMissed` | corelib/buf.c:647-666 | A delimiter of three or more bytes that is split after its first byte is missed. |
| `BufSearch.FramingIff` | corelib/buf.c:602-705 | Exactly the delimiters of at most two bytes are found however the bytes are split. |
| `BufSearch.ResumeIsSearch` | corelib/buf.c:611-620 | Resuming a search at the remembered buffer gives what starting over gives. |
| `BufSearch.QuietKept` | corelib/buf.c:383-435 | Appending keeps what is remembered of a search. |
| `BufSearch.RecordsContinue` | corelib/buf.c:707-721 | Cutting into records can go on where it stopped when more bytes arrive. |
| `BufSearch.RecordsConserve` | corelib/buf.c:707-721 | Records and remainder are all the bytes. |
| `BufQueue.PartialMatch` | corelib/buf.c:551-572 | How many bytes of the delimiter are missing after its longest beginning that ends the buffer. |
| `BufQueue.Examine` | corelib/buf.c:622-675 | One turn of the search loop. |
| `BufQueue.BufQueue.constructor` | corelib/buf.c:355-373 | An empty queue. |
| `BufQueue.BufQueue.Append` | corelib/buf.c:383-435 | The unread bytes gain exactly the bytes reported: all of them if memory is granted, and otherwise as many as the last buffer has room for; a remembered search stays good. |
| `BufQueue.BufQueue.Available` | corelib/buf.c:437-458 | The number of unread bytes. |
| `BufQueue.BufQueue.Collect` | corelib/buf.c:460-487 | Dropping consumed buffers changes no unread byte. |
| `BufQueue.BufQueue.Slice` | corelib/buf.c:489-539 | The first len bytes, exactly if there are that many and memory is granted where it is needed, and removed exactly if they are consumed. |
| `BufQueue.BufQueue.CopyOut` | corelib/buf.c:518-533 | Gathers bytes across buffers. |
| `BufQueue.BufQueue.FindRecord` | corelib/buf.c:602-705 | What the search over the buffers finds, from the start or from where a search for the same delimiter stopped; for short delimiters the first occurrence in all unread bytes. |
| `BufQueue.BufQueue.SoughtIsFound` | corelib/buf.c:602-705 | For short delimiters a resumed search finds what a search of all unread bytes finds. |
| `BufQueue.BufQueue.ConsumeRecord` | corelib/buf.c:707-721 | The bytes up to the delimiter the search finds, exactly if it finds one and memory is granted where it is needed, taken off the queue; nothing else is lost. |
| `BufQueue.BufQueue.PeekRecord` | corelib/buf.c:723-737 | The same bytes, left in the queue. |
| `BufQueue.Frame` | corelib/buf.c:383-721 | However the bytes are cut up on arrival, the records read are those of the whole, and records and remainder are all the bytes. |
| `BufQueue.Perform` | corelib/buf.c:383-737 | One operation: its reply is right for the unread bytes as a whole, and what it leaves of them. |
| `BufQueue.HistoryConserves` | corelib/buf.c:383-737 | In every history whose replies are so explained, the bytes consumed and those left are the bytes appended, in order. |
| `BufQueue.Replay` | corelib/buf.c:383-737 | Every history of appends, consumed and peeked records, with any delimiters of one or two bytes and any allocation failures, is explained in this way and conserves its bytes. |
| `BufQueue.SplitDelimiterLost` | corelib/buf.c:647-666 | Appends alone lead to a queue that holds a longer delimiter which the search does not find. |
| `CounterRuns.WindowReading` | corelib/counter.c:494-592 | While the sequence number stands still during a read, at most one store has happened and what was copied is from before or after it. |
| `CounterRuns.AcceptedIsSnapshot` | corelib/counter.c:494-592 | In every interleaving an accepted copy equals the block at one instant of the read, outside any bulk addition, if fewer than 2^32 counts were made meanwhile. |
| `CounterRuns.AddsAreConserved` | include/phenom/counter.h:246-268 | In every run a block holds all additions asked for, less what a bulk addition under way has left. |
| `CounterRuns.QuiescentView` | corelib/counter.c:545-592 | A view taken while no writer is at work is the sum of all additions by all threads. |
| `Counters.CounterBlock.Add` | include/phenom/counter.h:259-268 | The slot gains the value, no other changes, and the sequence number gains two; these are the two steps of a writer. |
| `Counters.CounterBlock.BulkAdd` | include/phenom/counter.h:299-313 | Every slot gains what the list adds to it; the sequence number gains two. |
| `Counters.GetView` | corelib/counter.c:545-592 | The loops sum the blocks slot by slot. |
| `AffineJobs.AdvanceKeeps` | corelib/nbio/common.c:177-254 | No step of a producer or of the emitter breaks the protocol. |
| `AffineJobs.RunKeeps` | corelib/nbio/common.c:177-254 | In every interleaving a non-empty list has a ping on the way, functions run in the order they were queued and none twice, and pending wakeups are exactly those counted and not yet run. |
| `AffineJobs.RestIsDone` | corelib/nbio/common.c:177-224 | The emitter sleeps with no ping on the way only when everything queued has run. |
| `AffineJobs.Progress` | corelib/nbio/common.c:177-224 | While something queued has not run, the emitter or a producer that owes a ping can move, and every such move brings the end nearer. |
| `AffineJobs.AffineQueue.QueueFunc` | corelib/nbio/common.c:198-224 | Appends to the list and pings exactly if it was empty. |
| `AffineJobs.AffineQueue.ConsumeAll` | corelib/pingfd.c:92-113 | Drains all pings and reports how many. |
| `AffineJobs.AffineQueue.Process` | corelib/nbio/common.c:177-196 | Runs everything queued, in order, if there was a ping. |
| `Streams.OutStream.DoWrite` | corelib/streams/write.c:30-103 | For every schedule of partial writes: what fits the buffer is buffered; otherwise the sink takes the buffer and then the data as far as it is willing to, the call fails exactly if it stops short before the data, and n is how much of the data it took. |
| `Streams.OutStream.Send` | corelib/streams/write.c:57-103 | The loop over two vectors ends and sends exactly as much of them, in order, as the sink is willing to take. |
| `Streams.OutStream.Flush` | corelib/streams/write.c:105-122 | Succeeds exactly if the sink takes everything buffered, and sends as much of it as the sink takes. |
| `Streams.OutStream.Write` | corelib/streams/write.c:202-218 | The same for the public call. |
| `Streams.InStream.Read` | corelib/streams/read.c:85-166 | For every schedule of short reads: delivers exactly as many bytes as were asked for, or all that was read ahead and that the source yields before it ends or fails; delivered bytes, read-ahead and source together stay the same. |
| `Streams.InStream.Fill` | corelib/streams/read.c:117-159 | One turn of the loop, with the last byte going through the buffer; it delivers nothing exactly if the source yields nothing. |
| `Streams.InStream.ReadAhead` | corelib/streams/read.c:29-83 | Filling the buffer delivers and loses nothing; how many bytes it gains, and when it fails. |

## Left out

- TimerWheel.Wheel.constructor: requires a resolution that divides, or is a multiple of, 1000; for the others ticks and clock steps differ, as `TimerTicks.StepsAreTicksIffUniform` shows. The library itself uses 100.
- TimerWheel.Wheel.Tick: callbacks act on the wheel by enabling, disabling, removing and setting due times; interleavings with other threads between the locked section and the dispatch are steps of the runs in `WheelRuns`.
- Bigints.Cmp: requires that one number has a word, since the code reads below the first word when neither has.
- Bigints.MultAdd: requires a number with at least one word, as all its callers provide; with none the code drops the addend.
- BigintSubtraction.Quorem: states the result for a prepared divisor and b < 10*S, which is what its callers establish; the code gives no meaning to other arguments.
- BigintSubtraction.Diff: requires numbers in normal form with at least one word, as its caller provides; a zero left without words by a division is never an operand.
- DoublePrinting.PrintShortest: takes the decimal exponent estimated in floating point as an argument, and requires that it is right, or one too large where the code checks it; covers modes 0 and 1 past the fast path for small integers.
- DoublePrinting.PrintFixed: takes the estimate in the same way, and requires at least one digit.
- DoubleDigits.ShortestDouble: takes the estimate in the same way.
- DigitSetup.FixedFrom: requires at least one digit; the special results for no digits in modes 3 and 5 are not modelled.
- JsonLoader.Lexer.ScanNumber: a fraction or an exponent is recognised and reported as a real, whose text and value are not modelled.
- JsonStrings.NulLostIff: leaves out the tokens of reals for the same reason.
- JsonLoader.LoadString: a document with a fraction or an exponent in a number is reported as such and not parsed further; reals are left out in both directions.
- BufQueue.BufQueue.FindRecord: promises the first occurrence for delimiters of at most two bytes, and otherwise only what `BufSearch.Search` computes; a straddle test that would compare past the bytes of the next buffer counts as no match.
- BufQueue.BufQueue.ConsumeRecord: is the queue without a record limit, so it neither drops bytes nor reports overflow.
- BufQueue.BufQueue.PeekRecord: is the queue without a record limit, in the same way.
- BufQueue.BufQueue.Slice: consuming requires that no failed search is remembered; the code keeps the remembered position and it is then stale.
- HashTable.PowerAbove: is the recursive definition; the bit operations that compute it, and sizes of 2^31 slots and more, are not modelled.
- HashTable.HashTable.constructor: is the case in which the allocation succeeds; `HashTable.Create` has both.
- Counters.GetView: is the read of each block while no writer is at work; with writers at work it is the interleavings of `CounterRuns`.
- Streams.InStream.Read: is a stream with no writes pending, so it has nothing to flush first.
- Streams.InStream.ReadAhead: is a stream with no writes pending, in the same way.
- CounterRuns.AcceptedIsSnapshot: assumes fewer than 2^32 counts during one read; weaker memory orders are not modelled.
- Floating point: taking a double apart into significand and exponent, the estimate of the decimal exponent, the fast paths of number printing, decimal to binary conversion, and reals in JSON.
- Record limits of the buffer queue, buffer concatenation, and reading a queue from or writing it to a stream.
- Line, column and error text of the JSON loader.
- The order in which an unordered hash iterator yields members: objects are sequences in some order and results are stated up to variant equality.
- Switching one stream between reading and writing, seeking, and unbuffered vector writes.
- Overflow of 64-bit counters, creation of counter blocks and scopes, and reference counts everywhere.
- Sharing of memory between a slice and the buffer it was cut from: slices are values.
- Sockets, DNS, TLS, schedulers, the thread pool, the debug console, logging, configuration, and printf formatting.
