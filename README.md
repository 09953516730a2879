# Snowflake identifier allocator, modelled in Dafny

The repository is a Snowflake-style allocator of 64-bit identifiers
(`index.js`). An identifier packs, from the top down, one unused bit, 45 bits
of milliseconds since a custom epoch (1 January 2020, 1577836800000 ms after
the Unix epoch), 6 bits of node identifier and 12 bits of per-millisecond
sequence number. `nextId` keeps two pieces of module-level state,
`lastTimestamp` (initially -1) and `sequence` (initially 0). For each clock
reading it does one of three things:

- it rejects the reading because the clock went backwards;
- it bumps the 12-bit counter, and when the counter wraps it spins in
  `waitNextMillis` until the clock shows another millisecond;
- it resets the counter for a new millisecond.

It then returns `t << 18 | node << 12 | sequence`. `getTimestamp` inverts
the packing: `(id >> 18) + customEpoch`.

The project has five files:

- `bits.dfy` (module `Bits`): OR, AND and the two shifts on unbounded
  integers, with JavaScript BigInt semantics. Numbers are infinite
  two's-complement bit strings and `>>` rounds toward negative infinity.
  It proves that OR of non-overlapping fields is addition, and that AND with
  a low mask is a remainder.
- `layout.dfy` (module `Layout`): the layout constants, `Pack` (the shift/OR
  expression as written) and `GetTimestamp`. It proves that packing is a sum
  and that the fields can be recovered, plus the decode round trip, order
  preservation and the sequence-increment identity.
- `allocator.dfy` (module `Snowflake`): the state machine as a function,
  `Step`, with lemmas for each transition. The `Allocator` class holds the
  mutable state. Its `NextId` and `WaitNextMillis` methods are proved
  against `Step` and `Spin`.
- `runs.dfy` (module `Runs`): runs of many calls, including many calls in
  one millisecond and the wait that follows its 4096th. A run is in scope
  when every call that has to wait eventually sees another reading, and the
  readings the calls actually take never go backwards. For such a run the
  identifiers issued are strictly increasing and so pairwise distinct.
- `as_written.dfy` (module `AsWritten`): the wrap path exactly as the code
  is written (see Findings).

The clock is an input. `now` is the reading `nextId` takes on entry, and
`clock` is the sequence of readings the busy-wait would take after it. A
wait terminates only if some reading differs from `lastTimestamp`. The
methods and `Step` require exactly that, and only on the path that waits.

Two points about the code shape what is proved:

- The busy-wait stops at the first reading that *differs* from
  `lastTimestamp`, not at one that is later. A clock that steps back during
  the wait lowers `lastTimestamp` and breaks the order of identifiers
  (`BackwardClockDuringWait`). Monotonicity is therefore proved under a
  non-decreasing clock.
- The code has no locking. It is single-threaded JavaScript, so the model is
  sequential.

The comment at index.js:15 speaks of a 41-bit epoch field, but `EPOCH_BITS`
is 45 (index.js:6). The model uses 45.

## Model

| member | source | states |
|---|---|---|
| `Layout.LayoutValues` | index.js:5-11 | the field widths give `maxNodeId` 63, `maxSequence` 4095 and a timestamp shift of 18 (2^18 = 262144), and the widths add up to 64 bits |
| `Bits.OrOfDisjoint` | index.js:56 | OR of `a << k` with any `0 <= b < 2^k` equals `a * 2^k + b`, for every integer `a`: the bits do not overlap |
| `Bits.AndLowMask` | index.js:45 | AND with `2^k - 1` is the remainder modulo `2^k`, for every integer |
| `Layout.PackIsSum` | index.js:56 | with node in [0, 63] and sequence in [0, 4095], the OR of `t << 18`, `node << 12` and `sequence` equals `t*2^18 + node*2^12 + sequence` |
| `Layout.PackFieldsRecoverable` | index.js:56 | the three fields come back from the identifier: the sequence from its low 12 bits, the node from the next 6, the timestamp from the rest |
| `Layout.GetTimestampOfPack` | index.js:56-61 | decoding a packed identifier gives its timestamp plus the custom epoch |
| `Layout.PackInjective` | index.js:56 | two identifiers are equal exactly when all three fields are equal |
| `Layout.PackOrder` | index.js:56 | for one node, one identifier is below another exactly when its (timestamp, sequence) pair is lexicographically smaller |
| `Layout.PackFits63Bits` | index.js:5-8 | a timestamp below 2^45 gives an identifier in [0, 2^63), so the unused top bit stays clear |
| `Layout.NextSequence` | index.js:45-46 | for a counter in [0, 4095], `(sequence + 1) & maxSequence` is `(sequence + 1) mod 4096`; it stays in range, is 0 exactly when the counter was 4095, and is `sequence + 1` otherwise |
| `Layout.WorkedExample` | index.js:14-16 | node 1, 1000 ms after the custom epoch, sequence 0, gives 262148096, which decodes to 1577836801000 |
| `Snowflake.SpinIndex` | index.js:63-67 | the wait stops at the first reading that differs from `lastTimestamp`, and every earlier reading equals it |
| `Snowflake.SpinStops` | index.js:63-67 | the reading the wait returns differs from `lastTimestamp` and is one of the supplied readings |
| `Snowflake.StepRejectsBackwardClock` | index.js:40-42 | the clock error is returned exactly when the reading is below `lastTimestamp`, and then the state is unchanged |
| `Snowflake.StepNewMillisecond` | index.js:50-56 | a reading above `lastTimestamp` gives state (reading, 0) and identifier `Pack(reading, node, 0)` |
| `Snowflake.StepSameMillisecond` | index.js:44-45 | the same millisecond with the counter below 4095 raises the counter by exactly one and keeps the timestamp |
| `Snowflake.StepWraps` | index.js:44-56 | the same millisecond with the counter at 4095 waits: the new timestamp is the first supplied reading that differs from `lastTimestamp`, the counter is 0, and that pair is packed |
| `Snowflake.StepKeepsValid` | index.js:44-52 | every transition keeps the sequence number in [0, 4095] |
| `Snowflake.StepIssuesPackedState` | index.js:54-56 | a successful call returns the new state packed; its timestamp is one of the clock readings and `getTimestamp` recovers it plus the epoch |
| `Snowflake.Taken` | index.js:38-48 | the readings one call takes start with its entry reading and are a prefix of the supplied readings: just the entry reading, or, when it waits, every reading up to the one the wait stops at |
| `Snowflake.TakenEndsAtNewTimestamp` | index.js:44-54 | a call whose reading is not below `lastTimestamp` records the last reading it took as the new `lastTimestamp` |
| `Snowflake.StepAdvances` | index.js:44-56 | if no reading the call takes is below `lastTimestamp`, the call succeeds, (timestamp, sequence) moves strictly forward, and the identifier is above the old state's packing |
| `Snowflake.BackwardClockDuringWait` | index.js:63-67 | a reading below `lastTimestamp` seen during the wait is taken as the new timestamp, and the identifier falls below the previous one |
| `Snowflake.Allocator.constructor` | index.js:14-19 | a fresh allocator has `lastTimestamp` -1, `sequence` 0 and the configured node |
| `Snowflake.Allocator.NextId` | index.js:37-57 | updates the fields in place to the state `Step` gives and returns its result: the clock error exactly for a backward reading, with the state unchanged; otherwise an identifier that decodes to the new `lastTimestamp` |
| `Snowflake.Allocator.WaitNextMillis` | index.js:63-67 | the loop returns the first reading, in order, that differs from `lastTimestamp` |
| `Runs.RunIdsIncrease` | index.js:37-57 | over any terminating run whose taken readings never go backwards and start no earlier than `lastTimestamp`, including repeated readings of one millisecond, every call succeeds, and the identifiers are strictly increasing and above the starting state's packing |
| `Runs.RunIdsDistinct` | index.js:37-57 | in such a run every call receives an identifier, and no two calls receive the same one |
| `Runs.FillThenWrapServed` | index.js:44-56 | from counter q at timestamp t, 4095 - q further calls at t and one more whose wait sees t + 1 form a run in scope: the readings taken are t repeated, then t + 1, and the allocator ends at (t + 1, 0) |
| `Runs.ExhaustedMillisecond` | index.js:37-57 | on a fresh allocator, 4096 calls at one reading t >= 0 and a 4097th that waits for t + 1 are in scope and receive 4097 strictly increasing identifiers; the state ends at (t + 1, 0) |
| `AsWritten.AsWrittenAgreesOffWrap` | index.js:37-57 | off the wrap path the code as written behaves as `Step` |
| `AsWritten.WrapThrowsAsWritten` | index.js:46-48 | as written, the 4097th call of a millisecond throws and leaves (old timestamp, 0); the intended allocation issues an identifier at a new timestamp |

## Left out

- HTTP glue (`addEventListener`, `handleRequest`, index.js:1-3 and 25-35): it dispatches on a request header and builds `Response` objects. This is I/O.
- Parsing the `Id` header into a BigInt (index.js:30) is left out. `GetTimestamp` takes an integer directly.
- Wall-clock reads (`new Date().getTime()`, index.js:38 and 65) become the `now` and `clock` parameters. How long the busy-wait takes in real time is not modelled.
- Concurrency and mutual exclusion are left out. The source is single-threaded and has no locking.
- The error path returns a `Response` with status 400 (index.js:41). It becomes the `ClockMovedBackward` result.
- Numbers and BigInts are mixed in the source. The initial `lastTimestamp` of -1 is a Number; `sequence` and `nodeId << 12` are Numbers. On these integer values the comparisons and the 32-bit Number shift agree with unbounded integers, so everything is modelled as `int`.
- No 64-bit width bound is modelled. The source never checks that the timestamp fits 45 bits. `PackFits63Bits` states when the identifier fits.
- `Snowflake.Allocator.constructor`: requires the node identifier to be in [0, 63]. The source hard-codes 1 and never checks its declared `maxNodeId`.
- `UNUSED_BITS` and `EPOCH_BITS` (index.js:5-6) are declared but unused in the source. In the model they appear only in `LayoutValues` and `PackFits63Bits`.

## Findings

| source | as written | input that shows it | evidently intended | confidence | as-written member | corrected member |
|---|---|---|---|---|---|---|
| index.js:48 | `currentTimestamp` was declared `const` at index.js:38, yet the waited-for reading is assigned to it. So the wait runs and the assignment then throws a TypeError. By then `sequence` is already 0 and `lastTimestamp` has not been updated. | the 4097th call within one millisecond: state (t, 4095), reading t, next clock reading t + 1 | the variable takes the new reading t + 1; the call records (t + 1, 0) and returns `Pack(t + 1, node, 0)` | high; not executed | `AsWritten.WrapThrowsAsWritten` | `Snowflake.StepWraps` |
