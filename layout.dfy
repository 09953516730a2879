/** The 64-bit identifier layout, from the most significant bit down: one
    unused bit, 45 bits of milliseconds since the custom epoch, 6 bits of
    node identifier and 12 bits of per-millisecond sequence number. */
module Layout {
  import opened Bits

  const UnusedBits: nat := 1
  const EpochBits: nat := 45
  const NodeIdBits: nat := 6
  const SequenceBits: nat := 12

  /** `(1 << NODE_ID_BITS) - 1` */
  const MaxNodeId: int := ShiftLeft(1, NodeIdBits) - 1
  /** `(1 << SEQUENCE_BITS) - 1` */
  const MaxSequence: int := ShiftLeft(1, SequenceBits) - 1

  /** The node identifier the deployed allocator is configured with. */
  const DefaultNodeId: int := 1

  /** 1 January 2020 00:00:00 UTC, in milliseconds since the Unix epoch. */
  const CustomEpoch: int := 1577836800000

  /** Distance of the timestamp field from the bottom of the identifier. */
  const TimestampShift: nat := NodeIdBits + SequenceBits

  lemma LayoutValues()
    ensures MaxNodeId == 63 && MaxSequence == 4095
    ensures Pow2(SequenceBits) == 4096 && Pow2(NodeIdBits) == 64
    ensures Pow2(TimestampShift) == 262144
    ensures UnusedBits + EpochBits + TimestampShift == 64
  {
    Pow2Add(NodeIdBits, SequenceBits);
  }

  /** A node identifier fits its 6-bit field. */
  predicate ValidNodeId(node: int)
  {
    0 <= node <= MaxNodeId
  }

  /** A sequence number fits its 12-bit field. */
  predicate ValidSequence(sequence: int)
  {
    0 <= sequence <= MaxSequence
  }

  /** The identifier composed from its three fields, as the allocator writes
      it: `t << 18 | (node << 12) | sequence`, the ORs associating left. */
  function Pack(t: int, node: int, sequence: int): int
  {
    Or(Or(ShiftLeft(t, TimestampShift), ShiftLeft(node, SequenceBits)), sequence)
  }

  /** Recovers the Unix-epoch millisecond timestamp from an identifier:
      `(id >> 18) + customEpoch`. Every integer is accepted. */
  function GetTimestamp(id: int): int
  {
    ShiftRight(id, TimestampShift) + CustomEpoch
  }

  /** The three fields occupy disjoint bit ranges, so OR-ing them is adding
      them at their positions. Holds for negative timestamps as well. */
  lemma PackIsSum(t: int, node: int, sequence: int)
    requires ValidNodeId(node) && ValidSequence(sequence)
    ensures Pack(t, node, sequence) == t * 262144 + node * 4096 + sequence
  {
    LayoutValues();
    assert ShiftLeft(node, SequenceBits) == node * 4096;
    OrOfDisjoint(t, TimestampShift, node * 4096);
    OrOfDisjoint(t * 64 + node, SequenceBits, sequence);
    assert ShiftLeft(t * 64 + node, SequenceBits) == t * 262144 + node * 4096;
  }

  /** Each field can be read back from the identifier: the sequence number
      from the low 12 bits, the node from the next 6, the timestamp from the
      rest. */
  lemma PackFieldsRecoverable(t: int, node: int, sequence: int)
    requires ValidNodeId(node) && ValidSequence(sequence)
    ensures Pack(t, node, sequence) % 4096 == sequence
    ensures (Pack(t, node, sequence) / 4096) % 64 == node
    ensures Pack(t, node, sequence) / 262144 == t
  {
    var id := Pack(t, node, sequence);
    PackIsSum(t, node, sequence);
    DivModUnique(id, 4096, t * 64 + node, sequence);
    DivModUnique(t * 64 + node, 64, t, node);
    DivModUnique(id, 262144, t, node * 4096 + sequence);
  }

  /** Decoding an identifier gives back the timestamp it was packed with,
      moved from the custom epoch to the Unix epoch. */
  lemma GetTimestampOfPack(t: int, node: int, sequence: int)
    requires ValidNodeId(node) && ValidSequence(sequence)
    ensures GetTimestamp(Pack(t, node, sequence)) == t + CustomEpoch
  {
    LayoutValues();
    PackFieldsRecoverable(t, node, sequence);
  }

  /** Packing is injective: equal identifiers come from equal fields. */
  lemma PackInjective(t1: int, n1: int, s1: int, t2: int, n2: int, s2: int)
    requires ValidNodeId(n1) && ValidSequence(s1)
    requires ValidNodeId(n2) && ValidSequence(s2)
    ensures Pack(t1, n1, s1) == Pack(t2, n2, s2) <==> (t1 == t2 && n1 == n2 && s1 == s2)
  {
    PackFieldsRecoverable(t1, n1, s1);
    PackFieldsRecoverable(t2, n2, s2);
  }

  /** For one node, identifiers are ordered exactly as their (timestamp,
      sequence) pairs are ordered lexicographically. */
  lemma PackOrder(t1: int, s1: int, t2: int, s2: int, node: int)
    requires ValidNodeId(node) && ValidSequence(s1) && ValidSequence(s2)
    ensures Pack(t1, node, s1) < Pack(t2, node, s2) <==> (t1 < t2 || (t1 == t2 && s1 < s2))
  {
    PackIsSum(t1, node, s1);
    PackIsSum(t2, node, s2);
    if t1 < t2 {
      assert t1 * 262144 + 262144 <= t2 * 262144;
    } else if t1 > t2 {
      assert t2 * 262144 + 262144 <= t1 * 262144;
    }
  }

  /** With a timestamp that fits its 45-bit field the identifier fits in 63
      bits, leaving the top bit of a 64-bit word clear. */
  lemma PackFits63Bits(t: int, node: int, sequence: int)
    requires 0 <= t < Pow2(EpochBits)
    requires ValidNodeId(node) && ValidSequence(sequence)
    ensures 0 <= Pack(t, node, sequence) < Pow2(EpochBits + TimestampShift)
  {
    PackIsSum(t, node, sequence);
    Pow2Add(EpochBits, TimestampShift);
    LayoutValues();
    assert t * 262144 + 262144 <= Pow2(EpochBits) * 262144;
  }

  lemma {:induction false} Pow2Add(a: nat, b: nat)
    ensures Pow2(a + b) == Pow2(a) * Pow2(b)
    decreases a
  {
    if a > 0 {
      Pow2Add(a - 1, b);
    }
  }

  /** `(sequence + 1) & maxSequence` is the increment modulo 4096: for an
      in-range counter it yields the next value, and 0 exactly when the
      counter was at its maximum. */
  lemma NextSequence(sequence: int)
    requires ValidSequence(sequence)
    ensures And(sequence + 1, MaxSequence) == (sequence + 1) % 4096
    ensures ValidSequence(And(sequence + 1, MaxSequence))
    ensures And(sequence + 1, MaxSequence) == 0 <==> sequence == MaxSequence
    ensures sequence < MaxSequence ==> And(sequence + 1, MaxSequence) == sequence + 1
  {
    LayoutValues();
    assert MaxSequence == Pow2(SequenceBits) - 1;
    AndLowMask(sequence + 1, SequenceBits);
    if sequence < MaxSequence {
      DivModUnique(sequence + 1, 4096, 0, sequence + 1);
    } else {
      DivModUnique(sequence + 1, 4096, 1, 0);
    }
  }

  /** Node 1, 1000 ms after the custom epoch, sequence 0 gives 262148096,
      which decodes to 1577836801000. */
  lemma WorkedExample()
    ensures Pack(1000, DefaultNodeId, 0) == 262148096
    ensures GetTimestamp(262148096) == 1577836801000
  {
    LayoutValues();
    PackIsSum(1000, DefaultNodeId, 0);
    GetTimestampOfPack(1000, DefaultNodeId, 0);
  }
}
