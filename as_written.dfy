/** The allocation exactly as index.js writes it. On the path that exhausts
    a millisecond, the reading returned by the wait is assigned to
    `currentTimestamp`, which is declared `const`: the wait runs, then the
    assignment throws a TypeError, after `sequence` has already been set to
    0 and before `lastTimestamp` is updated. The rest of the model uses the
    evidently intended behaviour, Snowflake.Step, in which the variable takes
    the waited-for reading. */
module AsWritten {
  import opened Bits
  import opened Layout
  import opened Snowflake

  /** What a call of the source's nextId ends with. */
  datatype Outcome = Returned(r: Result) | ThrewTypeError

  function NextIdAsWritten(s: State, node: int, now: int, clock: seq<int>): (State, Outcome)
    requires CanStep(s, now, clock)
  {
    if now < s.lastTimestamp then
      (s, Returned(ClockMovedBackward))
    else if now == s.lastTimestamp then
      var sequence := And(s.sequence + 1, MaxSequence);
      if sequence == 0 then
        (State(s.lastTimestamp, sequence), ThrewTypeError)
      else
        (State(now, sequence), Returned(Ok(Pack(now, node, sequence))))
    else
      (State(now, 0), Returned(Ok(Pack(now, node, 0))))
  }

  /** Off the exhausted-millisecond path the code as written and the
      intended allocation agree. */
  lemma AsWrittenAgreesOffWrap(s: State, node: int, now: int, clock: seq<int>)
    requires CanStep(s, now, clock) && !Wraps(s, now)
    ensures NextIdAsWritten(s, node, now, clock)
         == (Step(s, node, now, clock).0, Returned(Step(s, node, now, clock).1))
  {
  }

  /** The 4097th call of a millisecond: as written it throws and issues
      nothing, leaving sequence 0 at the old timestamp, whereas the intended
      allocation issues an identifier at a new timestamp. */
  lemma WrapThrowsAsWritten(s: State, node: int, clock: seq<int>)
    requires Valid(s) && s.sequence == MaxSequence
    requires Ticks(s.lastTimestamp, clock)
    ensures CanStep(s, s.lastTimestamp, clock)
    ensures NextIdAsWritten(s, node, s.lastTimestamp, clock)
         == (State(s.lastTimestamp, 0), ThrewTypeError)
    ensures Step(s, node, s.lastTimestamp, clock).1.Ok?
    ensures Step(s, node, s.lastTimestamp, clock).0.lastTimestamp != s.lastTimestamp
  {
    StepWraps(s, node, s.lastTimestamp, clock);
  }
}
