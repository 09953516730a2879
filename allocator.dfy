/** The allocator: the (lastTimestamp, sequence) state machine that issues
    identifiers, as a specification function (Step) and as the object whose
    methods change that state in place (Allocator). Clock readings are
    custom-epoch milliseconds supplied by the caller: `now` is the reading
    taken on entry and `clock` the readings the busy-wait would take next. */
module Snowflake {
  import opened Bits
  import opened Layout

  /** What one allocation returns: an identifier or the clock error. */
  datatype Result = Ok(id: int) | ClockMovedBackward

  datatype State = State(lastTimestamp: int, sequence: int)

  /** No identifier issued yet. */
  const Initial: State := State(-1, 0)

  predicate Valid(s: State)
  {
    ValidSequence(s.sequence)
  }

  /** Some reading differs from `last`, so a wait for a new millisecond over
      these readings ends. */
  predicate Ticks(last: int, readings: seq<int>)
  {
    exists i :: 0 <= i < |readings| && readings[i] != last
  }

  /** Position of the first reading that differs from `last`. */
  function SpinIndex(last: int, readings: seq<int>): (k: nat)
    requires Ticks(last, readings)
    ensures k < |readings| && readings[k] != last
    ensures forall j :: 0 <= j < k ==> readings[j] == last
  {
    if readings[0] != last then 0 else 1 + SpinIndex(last, readings[1..])
  }

  /** The reading the busy-wait stops at. */
  function Spin(last: int, readings: seq<int>): int
    requires Ticks(last, readings)
  {
    readings[SpinIndex(last, readings)]
  }

  /** The allocation at `now` exhausts the 4096 sequence numbers of its
      millisecond, so the allocator must wait for the clock to change. */
  predicate Wraps(s: State, now: int)
  {
    now == s.lastTimestamp && And(s.sequence + 1, MaxSequence) == 0
  }

  /** The allocation at `now` terminates: if it has to wait, the clock
      eventually reads something else. */
  predicate CanStep(s: State, now: int, clock: seq<int>)
  {
    Wraps(s, now) ==> Ticks(s.lastTimestamp, [now] + clock)
  }

  /** One allocation by node `node` from state `s` at reading `now`: the new
      state and what is returned. */
  function Step(s: State, node: int, now: int, clock: seq<int>): (State, Result)
    requires CanStep(s, now, clock)
  {
    if now < s.lastTimestamp then
      (s, ClockMovedBackward)
    else if now == s.lastTimestamp then
      var sequence := And(s.sequence + 1, MaxSequence);
      var t := if sequence == 0 then Spin(s.lastTimestamp, [now] + clock) else now;
      (State(t, sequence), Ok(Pack(t, node, sequence)))
    else
      (State(now, 0), Ok(Pack(now, node, 0)))
  }

  /** The clock readings one allocation actually takes: the entry reading,
      then, if it waits, every reading up to and including the one the wait
      stops at. Readings after that are never looked at. */
  function Taken(s: State, now: int, clock: seq<int>): (r: seq<int>)
    requires CanStep(s, now, clock)
    ensures |r| >= 1 && r[0] == now && r <= [now] + clock
  {
    if Wraps(s, now) then ([now] + clock)[..SpinIndex(s.lastTimestamp, [now] + clock) + 1]
    else [now]
  }

  /** A successful allocation records the last reading it took. */
  lemma TakenEndsAtNewTimestamp(s: State, node: int, now: int, clock: seq<int>)
    requires CanStep(s, now, clock) && s.lastTimestamp <= now
    ensures Taken(s, now, clock)[|Taken(s, now, clock)| - 1]
         == Step(s, node, now, clock).0.lastTimestamp
  {
  }

  /** The busy-wait returns the first reading that differs from `last`;
      every earlier reading equals `last`. */
  lemma SpinStops(last: int, readings: seq<int>)
    requires Ticks(last, readings)
    ensures Spin(last, readings) != last
    ensures Spin(last, readings) in readings
    ensures forall j :: 0 <= j < SpinIndex(last, readings) ==> readings[j] == last
  {
  }

  /** A reading below the last allocation's is rejected, and only such a
      reading is; the state is left as it was. */
  lemma StepRejectsBackwardClock(s: State, node: int, now: int, clock: seq<int>)
    requires CanStep(s, now, clock)
    ensures Step(s, node, now, clock).1 == ClockMovedBackward <==> now < s.lastTimestamp
    ensures now < s.lastTimestamp ==> Step(s, node, now, clock).0 == s
  {
  }

  /** A reading after the last allocation's starts a new millisecond with
      sequence number 0. */
  lemma StepNewMillisecond(s: State, node: int, now: int, clock: seq<int>)
    requires now > s.lastTimestamp
    ensures Step(s, node, now, clock) == (State(now, 0), Ok(Pack(now, node, 0)))
  {
  }

  /** Within the same millisecond and below the last sequence number, the
      counter goes up by exactly one and the timestamp stays. */
  lemma StepSameMillisecond(s: State, node: int, now: int, clock: seq<int>)
    requires Valid(s) && now == s.lastTimestamp && s.sequence < MaxSequence
    ensures CanStep(s, now, clock)
    ensures Step(s, node, now, clock)
         == (State(now, s.sequence + 1), Ok(Pack(now, node, s.sequence + 1)))
  {
    NextSequence(s.sequence);
  }

  /** The 4097th allocation of a millisecond waits for a different reading,
      takes it as its timestamp and uses sequence number 0. */
  lemma StepWraps(s: State, node: int, now: int, clock: seq<int>)
    requires Valid(s) && now == s.lastTimestamp && s.sequence == MaxSequence
    requires Ticks(s.lastTimestamp, clock)
    ensures CanStep(s, now, clock)
    ensures Step(s, node, now, clock).0.lastTimestamp != s.lastTimestamp
    ensures Step(s, node, now, clock).0.lastTimestamp in clock
    ensures Step(s, node, now, clock)
         == (State(Spin(s.lastTimestamp, clock), 0), Ok(Pack(Spin(s.lastTimestamp, clock), node, 0)))
  {
    NextSequence(s.sequence);
    var i :| 0 <= i < |clock| && clock[i] != s.lastTimestamp;
    var readings := [now] + clock;
    assert readings[i + 1] != s.lastTimestamp;
    var k := SpinIndex(s.lastTimestamp, readings);
    assert k >= 1 && readings[1..] == clock;
    assert SpinIndex(s.lastTimestamp, clock) == k - 1;
  }

  /** Every allocation keeps the sequence number inside its 12-bit field. */
  lemma StepKeepsValid(s: State, node: int, now: int, clock: seq<int>)
    requires Valid(s) && CanStep(s, now, clock)
    ensures Valid(Step(s, node, now, clock).0)
  {
    NextSequence(s.sequence);
  }

  /** A successful allocation returns the packed new state; its timestamp
      is one of the clock readings and decodes back from the identifier. */
  lemma StepIssuesPackedState(s: State, node: int, now: int, clock: seq<int>)
    requires Valid(s) && ValidNodeId(node) && CanStep(s, now, clock)
    requires Step(s, node, now, clock).1.Ok?
    ensures var (s', r) := Step(s, node, now, clock);
      r.id == Pack(s'.lastTimestamp, node, s'.sequence)
      && s'.lastTimestamp in [now] + clock
      && GetTimestamp(r.id) == s'.lastTimestamp + CustomEpoch
  {
    var (s', r) := Step(s, node, now, clock);
    StepKeepsValid(s, node, now, clock);
    GetTimestampOfPack(s'.lastTimestamp, node, s'.sequence);
    if Wraps(s, now) {
      SpinStops(s.lastTimestamp, [now] + clock);
    }
  }

  /** If no reading the allocation takes is below the last allocation's
      timestamp, it succeeds and moves the state strictly forward in (timestamp, sequence)
      order, and so issues an identifier above the packed old state. */
  lemma StepAdvances(s: State, node: int, now: int, clock: seq<int>)
    requires Valid(s) && ValidNodeId(node) && CanStep(s, now, clock)
    requires forall r :: r in Taken(s, now, clock) ==> s.lastTimestamp <= r
    ensures var (s', r) := Step(s, node, now, clock);
      r.Ok?
      && (s.lastTimestamp < s'.lastTimestamp
        || (s.lastTimestamp == s'.lastTimestamp && s.sequence < s'.sequence))
      && Pack(s.lastTimestamp, node, s.sequence) < r.id
  {
    var (s', r) := Step(s, node, now, clock);
    var taken := Taken(s, now, clock);
    assert taken[0] in taken;
    assert s.lastTimestamp <= now;
    StepRejectsBackwardClock(s, node, now, clock);
    StepKeepsValid(s, node, now, clock);
    StepIssuesPackedState(s, node, now, clock);
    NextSequence(s.sequence);
    if Wraps(s, now) {
      SpinStops(s.lastTimestamp, [now] + clock);
      TakenEndsAtNewTimestamp(s, node, now, clock);
      assert taken[|taken| - 1] in taken;
    }
    PackOrder(s.lastTimestamp, s.sequence, s'.lastTimestamp, s'.sequence, node);
  }

  /** Without a non-decreasing clock the order is lost: if the clock steps
      back while the allocator waits out an exhausted millisecond, the next
      identifier is smaller than the one issued before it. */
  lemma BackwardClockDuringWait(s: State, node: int, c: int)
    requires Valid(s) && ValidNodeId(node) && s.sequence == MaxSequence
    requires c < s.lastTimestamp
    ensures CanStep(s, s.lastTimestamp, [c])
    ensures Step(s, node, s.lastTimestamp, [c]) == (State(c, 0), Ok(Pack(c, node, 0)))
    ensures Pack(c, node, 0) < Pack(s.lastTimestamp, node, s.sequence)
  {
    assert [c][0] != s.lastTimestamp;
    StepWraps(s, node, s.lastTimestamp, [c]);
    PackOrder(c, 0, s.lastTimestamp, s.sequence, node);
  }

  /** The allocator of one node, with its state updated in place. */
  class Allocator {
    const nodeId: int
    var lastTimestamp: int
    var sequence: int

    ghost predicate Valid()
      reads this
    {
      ValidNodeId(nodeId) && ValidSequence(sequence)
    }

    /** The allocator's state as a value. */
    function Snapshot(): State
      reads this
    {
      State(lastTimestamp, sequence)
    }

    constructor (node: int)
      requires ValidNodeId(node)
      ensures Valid() && nodeId == node && Snapshot() == Initial
    {
      nodeId := node;
      lastTimestamp := -1;
      sequence := 0;
    }

    /** Allocates the next identifier at clock reading `now`. */
    method NextId(now: int, clock: seq<int>) returns (r: Result)
      requires Valid() && CanStep(Snapshot(), now, clock)
      modifies this
      ensures Valid()
      ensures (Snapshot(), r) == Step(old(Snapshot()), nodeId, now, clock)
      ensures r == ClockMovedBackward <==> now < old(lastTimestamp)
      ensures r == ClockMovedBackward ==> Snapshot() == old(Snapshot())
      ensures r.Ok? ==> GetTimestamp(r.id) == lastTimestamp + CustomEpoch
    {
      var currentTimestamp := now;
      if currentTimestamp < lastTimestamp {
        return ClockMovedBackward;
      }
      if currentTimestamp == lastTimestamp {
        sequence := And(sequence + 1, MaxSequence);
        if sequence == 0 {
          // exhausted this millisecond: wait for the clock to change
          currentTimestamp := WaitNextMillis(currentTimestamp, clock);
        }
      } else {
        sequence := 0;
      }
      lastTimestamp := currentTimestamp;
      r := Ok(Pack(currentTimestamp, nodeId, sequence));
      StepKeepsValid(old(Snapshot()), nodeId, now, clock);
      StepIssuesPackedState(old(Snapshot()), nodeId, now, clock);
    }

    /** Re-reads the clock until it differs from `lastTimestamp`; the
        readings are `current` and then `clock`, in order. */
    method WaitNextMillis(current: int, clock: seq<int>) returns (t: int)
      requires Ticks(lastTimestamp, [current] + clock)
      ensures t == Spin(lastTimestamp, [current] + clock)
      ensures t != lastTimestamp
    {
      ghost var readings := [current] + clock;
      ghost var k :| 0 <= k < |readings| && readings[k] != lastTimestamp;
      t := current;
      var i := 0;
      while t == lastTimestamp
        invariant 0 <= i <= k
        invariant t == readings[i]
        invariant forall j :: 0 <= j < i ==> readings[j] == lastTimestamp
        decreases |clock| - i
      {
        t := clock[i];
        i := i + 1;
      }
      assert i == SpinIndex(lastTimestamp, readings);
    }
  }
}
