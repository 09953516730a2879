/** Sequences of allocations by one allocator: with a clock that never goes
    backward, the identifiers issued are strictly increasing, hence
    pairwise distinct, including many calls within one millisecond and the
    wait once its 4096 sequence numbers are used up. */
module Runs {
  import opened Layout
  import opened Snowflake

  /** One call of the allocator: its entry reading and the readings its
      busy-wait would take if it has to wait (empty for a call that does
      not wait). */
  datatype Call = Call(now: int, clock: seq<int>)

  /** Every call of the run, served in order from state `s`, terminates:
      whenever a call has to wait, its clock eventually changes. */
  predicate Serves(s: State, node: int, calls: seq<Call>)
    decreases |calls|
  {
    calls == []
    || (CanStep(s, calls[0].now, calls[0].clock)
        && Serves(Step(s, node, calls[0].now, calls[0].clock).0, node, calls[1..]))
  }

  /** The final state and the identifiers issued, in order, when node
      `node` serves `calls` from state `s`; rejected calls issue nothing. */
  function Run(s: State, node: int, calls: seq<Call>): (State, seq<int>)
    requires Serves(s, node, calls)
    decreases |calls|
  {
    if calls == [] then (s, [])
    else
      var (s1, r) := Step(s, node, calls[0].now, calls[0].clock);
      var (s2, ids) := Run(s1, node, calls[1..]);
      (s2, if r.Ok? then [r.id] + ids else ids)
  }

  /** Every clock reading the run actually takes, in order. */
  function AllTaken(s: State, node: int, calls: seq<Call>): seq<int>
    requires Serves(s, node, calls)
    decreases |calls|
  {
    if calls == [] then []
    else
      var c := calls[0];
      Taken(s, c.now, c.clock) + AllTaken(Step(s, node, c.now, c.clock).0, node, calls[1..])
  }

  predicate NonDecreasing(xs: seq<int>)
  {
    forall i, j :: 0 <= i <= j < |xs| ==> xs[i] <= xs[j]
  }

  predicate StrictlyIncreasing(xs: seq<int>)
  {
    forall i, j :: 0 <= i < j < |xs| ==> xs[i] < xs[j]
  }

  /** Both halves of a non-decreasing sequence are non-decreasing, and no
      element of the first half exceeds one of the second. */
  lemma SplitConcat(a: seq<int>, b: seq<int>)
    requires NonDecreasing(a + b)
    ensures NonDecreasing(a) && NonDecreasing(b)
    ensures forall x, y :: x in a && y in b ==> x <= y
  {
    forall i, j | 0 <= i <= j < |a| ensures a[i] <= a[j] {
      assert (a + b)[i] <= (a + b)[j];
    }
    forall i, j | 0 <= i <= j < |b| ensures b[i] <= b[j] {
      assert (a + b)[|a| + i] <= (a + b)[|a| + j];
    }
    forall x, y | x in a && y in b ensures x <= y {
      var i :| 0 <= i < |a| && a[i] == x;
      var j :| 0 <= j < |b| && b[j] == y;
      assert (a + b)[i] <= (a + b)[|a| + j];
    }
  }

  /** With a clock that never goes backward over the readings actually
      taken, starting at or after the last allocation's timestamp, no call
      of a run is rejected, every identifier issued lies above the packed
      starting state, and the identifiers strictly increase. */
  lemma {:induction false} RunIdsIncrease(s: State, node: int, calls: seq<Call>)
    requires Valid(s) && ValidNodeId(node) && Serves(s, node, calls)
    requires NonDecreasing(AllTaken(s, node, calls))
    requires |calls| > 0 ==> s.lastTimestamp <= calls[0].now
    ensures |Run(s, node, calls).1| == |calls|
    ensures StrictlyIncreasing(Run(s, node, calls).1)
    ensures forall id :: id in Run(s, node, calls).1 ==> Pack(s.lastTimestamp, node, s.sequence) < id
    decreases |calls|
  {
    if calls != [] {
      var c := calls[0];
      var (s1, r) := Step(s, node, c.now, c.clock);
      var head := Taken(s, c.now, c.clock);
      var rest := AllTaken(s1, node, calls[1..]);
      assert AllTaken(s, node, calls) == head + rest;
      SplitConcat(head, rest);
      forall x | x in head ensures s.lastTimestamp <= x {
        assert head[0] in head;
      }
      StepKeepsValid(s, node, c.now, c.clock);
      StepAdvances(s, node, c.now, c.clock);
      StepIssuesPackedState(s, node, c.now, c.clock);
      if |calls| > 1 {
        TakenEndsAtNewTimestamp(s, node, c.now, c.clock);
        assert head[|head| - 1] in head;
        assert calls[1..][0] == calls[1];
        assert rest[0] == calls[1].now && rest[0] in rest;
      }
      RunIdsIncrease(s1, node, calls[1..]);
      var ids := Run(s1, node, calls[1..]).1;
      var all := [r.id] + ids;
      assert Run(s, node, calls).1 == all;
      forall i, j | 0 <= i < j < |all| ensures all[i] < all[j] {
        if i > 0 {
          assert all[i] == ids[i - 1] && all[j] == ids[j - 1];
        } else {
          assert all[j] in ids;
        }
      }
    }
  }

  /** Strictly increasing identifiers are pairwise distinct: no two calls of
      such a run receive the same identifier. */
  lemma RunIdsDistinct(s: State, node: int, calls: seq<Call>)
    requires Valid(s) && ValidNodeId(node) && Serves(s, node, calls)
    requires NonDecreasing(AllTaken(s, node, calls))
    requires |calls| > 0 ==> s.lastTimestamp <= calls[0].now
    ensures var ids := Run(s, node, calls).1;
      |ids| == |calls|
      && forall i, j :: 0 <= i < |ids| && 0 <= j < |ids| && i != j ==> ids[i] != ids[j]
  {
    RunIdsIncrease(s, node, calls);
  }

  /** n readings equal to t. */
  function Repeat(t: int, n: nat): (r: seq<int>)
    ensures |r| == n && forall i :: 0 <= i < n ==> r[i] == t
  {
    seq(n, _ => t)
  }

  /** n calls at reading t that do not wait, then one call at reading t whose
      wait sees t and then t + 1. */
  function FillThenWrap(t: int, n: nat): seq<Call>
  {
    seq(n, _ => Call(t, [])) + [Call(t, [t, t + 1])]
  }

  /** From counter q at timestamp t, the remaining n = 4095 - q calls at t
      each take the next sequence number, and the call after them waits for
      t + 1 and restarts the counter; the readings taken never go back. */
  lemma {:induction false} FillThenWrapServed(q: int, node: int, t: int, n: nat)
    requires 0 <= q && q + n == MaxSequence
    ensures Serves(State(t, q), node, FillThenWrap(t, n))
    ensures AllTaken(State(t, q), node, FillThenWrap(t, n)) == Repeat(t, n + 2) + [t + 1]
    ensures Run(State(t, q), node, FillThenWrap(t, n)).0 == State(t + 1, 0)
    decreases n
  {
    var s := State(t, q);
    var calls := FillThenWrap(t, n);
    if n == 0 {
      var wrap := Call(t, [t, t + 1]);
      assert calls == [wrap];
      assert Ticks(t, [t, t + 1]) by { assert [t, t + 1][1] != t; }
      StepWraps(s, node, t, [t, t + 1]);
      var readings := [t] + [t, t + 1];
      assert SpinIndex(t, readings) == 2 by {
        assert readings[1..] == [t, t + 1] && readings[1..][1..] == [t + 1];
      }
      assert Spin(t, [t, t + 1]) == t + 1 by {
        assert [t, t + 1][1..] == [t + 1];
      }
      assert Taken(s, t, [t, t + 1]) == [t, t, t + 1];
      assert calls[1..] == [];
      assert Repeat(t, 2) + [t + 1] == [t, t, t + 1];
    } else {
      StepSameMillisecond(s, node, t, []);
      assert calls[0] == Call(t, []);
      assert calls[1..] == FillThenWrap(t, n - 1);
      FillThenWrapServed(q + 1, node, t, n - 1);
      assert Taken(s, t, []) == [t];
      assert [t] + (Repeat(t, n + 1) + [t + 1]) == Repeat(t, n + 2) + [t + 1];
    }
  }

  /** Equal readings followed by a later one never go back. */
  lemma RepeatThenLarger(t: int, n: nat)
    ensures NonDecreasing(Repeat(t, n) + [t + 1])
  {
  }

  /** A whole millisecond on a fresh allocator: the first call at reading
      t >= 0, 4095 more at t, then one that waits for t + 1. All 4097 calls
      are within the run lemmas' scope and receive strictly increasing,
      hence pairwise distinct, identifiers, and the allocator ends at
      timestamp t + 1 with sequence number 0. */
  lemma ExhaustedMillisecond(node: int, t: int)
    requires ValidNodeId(node) && t >= 0
    ensures var calls := [Call(t, [])] + FillThenWrap(t, MaxSequence);
      Serves(Initial, node, calls)
      && NonDecreasing(AllTaken(Initial, node, calls))
      && |Run(Initial, node, calls).1| == 4097
      && StrictlyIncreasing(Run(Initial, node, calls).1)
      && Run(Initial, node, calls).0 == State(t + 1, 0)
  {
    LayoutValues();
    var calls := [Call(t, [])] + FillThenWrap(t, MaxSequence);
    StepNewMillisecond(Initial, node, t, []);
    assert calls[0] == Call(t, []) && calls[1..] == FillThenWrap(t, MaxSequence);
    FillThenWrapServed(0, node, t, MaxSequence);
    assert [t] + (Repeat(t, MaxSequence + 2) + [t + 1]) == Repeat(t, MaxSequence + 3) + [t + 1];
    assert AllTaken(Initial, node, calls) == Repeat(t, MaxSequence + 3) + [t + 1];
    RepeatThenLarger(t, MaxSequence + 3);
    RunIdsIncrease(Initial, node, calls);
  }
}
