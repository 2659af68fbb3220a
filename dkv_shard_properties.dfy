/**
 * What the shard descriptor promises to its callers: when construction
 * succeeds and which exception it throws otherwise, what a lookup returns,
 * and that identity is by name alone.
 */
module DKVShardProperties {
  import opened JavaLang
  import opened DKVShard

  /** The constructor's name check is `!name.trim().isEmpty()` on a non-null name. */
  lemma NameGivenIffTrimmedNonEmpty(name: string)
    ensures NameGiven(Some(name)) <==> Trim(name) != []
    ensures !NameGiven(None)
  {
  }

  /** An invalid name is reported whatever the topology is: the name is checked first. */
  lemma NameCheckedFirst<N>(name: Option<string>, topology: RawTopology<N>, order: seq<OpKey>)
    requires topology.Some? ==> EnumeratesKeys(order, topology.value)
    requires !NameGiven(name)
    ensures New(name, topology, order) == Err(IllegalArgumentException(NAME_REQUIRED))
  {
  }

  /** With a valid name, a null or empty topology is reported as missing. */
  lemma MissingTopologyRejected<N>(name: string, topology: RawTopology<N>, order: seq<OpKey>)
    requires topology.Some? ==> EnumeratesKeys(order, topology.value)
    requires NameGiven(Some(name))
    requires topology.None? || |topology.value| == 0
    ensures New(Some(name), topology, order) == Err(IllegalArgumentException(TOPOLOGY_REQUIRED))
  {
  }

  /** An UNKNOWN key among otherwise non-null node sets is reported as such, in any iteration order. */
  lemma UnknownOpTypeRejected<N>(name: string, topology: map<OpKey, Option<N>>, order: seq<OpKey>)
    requires EnumeratesKeys(order, topology)
    requires NameGiven(Some(name))
    requires Some(Unknown) in topology
    requires forall key :: key in topology ==> topology[key].Some?
    ensures New(Some(name), Some(topology), order) == Err(IllegalArgumentException(OP_TYPE_REQUIRED))
  {
    assert !EntryValid(topology, Some(Unknown));
    var r := CheckEntries(topology, order);
    assert r.Err?;
    var i :| && 0 <= i < |order|
             && !EntryValid(topology, order[i])
             && r.error == EntryError(topology, order[i]);
    assert order[i] == Some(Unknown);
  }

  /** A null node set under a topology without UNKNOWN keys is reported as missing nodes, in any order. */
  lemma NullNodesRejected<N>(name: string, topology: map<OpKey, Option<N>>, order: seq<OpKey>, bad: OpKey)
    requires EnumeratesKeys(order, topology)
    requires NameGiven(Some(name))
    requires Some(Unknown) !in topology
    requires bad in topology && topology[bad].None?
    ensures New(Some(name), Some(topology), order) == Err(IllegalArgumentException(NODES_REQUIRED))
  {
    assert !EntryValid(topology, bad);
    var r := CheckEntries(topology, order);
    assert r.Err?;
    var i :| && 0 <= i < |order|
             && !EntryValid(topology, order[i])
             && r.error == EntryError(topology, order[i]);
    assert order[i] != Some(Unknown);
  }

  /** Whether construction succeeds, and the shard it yields, do not depend on the iteration order. */
  lemma OutcomeIndependentOfOrder<N>(name: Option<string>, topology: RawTopology<N>, first: seq<OpKey>, second: seq<OpKey>)
    requires topology.Some? ==> EnumeratesKeys(first, topology.value) && EnumeratesKeys(second, topology.value)
    ensures New(name, topology, first).Ok? == New(name, topology, second).Ok?
    ensures New(name, topology, first).Ok? ==> New(name, topology, first) == New(name, topology, second)
  {
    var r1, r2 := New(name, topology, first), New(name, topology, second);
    if r1.Ok? {
      assert r1.value.topology == r2.value.topology;
    }
  }

  /**
   * Which of the two entry messages is thrown depends on the iteration order:
   * with an UNKNOWN key and a null node set under another key, either may come first.
   */
  lemma EntryErrorDependsOnOrder<N>(name: string, topology: map<OpKey, Option<N>>, other: OpKey)
    requires NameGiven(Some(name))
    requires other != Some(Unknown) && topology.Keys == {Some(Unknown), other}
    requires topology[Some(Unknown)].Some? && topology[other].None?
    ensures EnumeratesKeys([Some(Unknown), other], topology) && EnumeratesKeys([other, Some(Unknown)], topology)
    ensures New(Some(name), Some(topology), [Some(Unknown), other]) == Err(IllegalArgumentException(OP_TYPE_REQUIRED))
    ensures New(Some(name), Some(topology), [other, Some(Unknown)]) == Err(IllegalArgumentException(NODES_REQUIRED))
  {
    EnumeratesTwoKeys(Some(Unknown), other, topology);
    assert CheckEntries(topology, [Some(Unknown), other]) == Err(IllegalArgumentException(OP_TYPE_REQUIRED));
    assert CheckEntries(topology, [other, Some(Unknown)]) == Err(IllegalArgumentException(NODES_REQUIRED));
  }

  /** `getName` returns exactly the name given to the constructor. */
  lemma GetNameReturnsGivenName<N>(name: Option<string>, topology: RawTopology<N>, order: seq<OpKey>)
    requires topology.Some? ==> EnumeratesKeys(order, topology.value)
    requires New(name, topology, order).Ok?
    ensures name.Some? && GetName(New(name, topology, order).value) == name.value
  {
  }

  /**
   * A name with a trimmable character at either end is accepted (when the
   * rest is valid) and stored as given, not in its trimmed form.
   */
  lemma NameStoredUntrimmed<N>(name: string, topology: RawTopology<N>, order: seq<OpKey>)
    requires topology.Some? ==> EnumeratesKeys(order, topology.value)
    requires New(Some(name), topology, order).Ok?
    requires |name| > 0 && (IsTrimmable(name[0]) || IsTrimmable(name[|name| - 1]))
    ensures GetName(New(Some(name), topology, order).value) == name != Trim(name)
  {
  }

  /** A name made only of trimmable characters, the empty name included, is rejected whatever the topology. */
  lemma BlankNameRejected<N>(name: string, topology: RawTopology<N>, order: seq<OpKey>)
    requires topology.Some? ==> EnumeratesKeys(order, topology.value)
    requires forall i :: 0 <= i < |name| ==> IsTrimmable(name[i])
    ensures New(Some(name), topology, order) == Err(IllegalArgumentException(NAME_REQUIRED))
  {
  }

  /** Looking up a non-null key of the constructor's topology gives the node set stored under it. */
  lemma LookupReturnsStoredNodes<N>(name: Option<string>, topology: RawTopology<N>, order: seq<OpKey>, opType: OpKey)
    requires topology.Some? ==> EnumeratesKeys(order, topology.value)
    requires New(name, topology, order).Ok?
    requires opType.Some? && opType in topology.value
    ensures topology.value[opType].Some?
    ensures GetNodesByOpType(New(name, topology, order).value, opType) == Ok(topology.value[opType].value)
  {
  }

  /** A null key, or one the constructor's topology lacks, is rejected: there is no default route. */
  lemma LookupRejectsMissingKey<N>(name: Option<string>, topology: RawTopology<N>, order: seq<OpKey>, opType: OpKey)
    requires topology.Some? ==> EnumeratesKeys(order, topology.value)
    requires New(name, topology, order).Ok?
    requires opType.None? || opType !in topology.value
    ensures GetNodesByOpType(New(name, topology, order).value, opType) == Err(IllegalArgumentException(VALID_OP_TYPE_REQUIRED))
  {
  }

  /** On a constructed shard, looking up UNKNOWN always fails. */
  lemma LookupUnknownFails<N>(s: Shard<N>)
    requires Valid(s)
    ensures GetNodesByOpType(s, Some(Unknown)) == Err(IllegalArgumentException(VALID_OP_TYPE_REQUIRED))
  {
  }

  /** A null key passes validation, but its node set can never be looked up. */
  lemma NullKeyAcceptedButUnreachable<N>(name: string, topology: map<OpKey, Option<N>>, order: seq<OpKey>)
    requires EnumeratesKeys(order, topology)
    requires NameGiven(Some(name))
    requires None in topology && Some(Unknown) !in topology
    requires forall key :: key in topology ==> topology[key].Some?
    ensures New(Some(name), Some(topology), order).Ok?
    ensures None in New(Some(name), Some(topology), order).value.topology
    ensures GetNodesByOpType(New(Some(name), Some(topology), order).value, None) == Err(IllegalArgumentException(VALID_OP_TYPE_REQUIRED))
  {
  }

  /** Either order of two distinct keys enumerates a map with exactly those keys. */
  lemma EnumeratesTwoKeys<N>(first: OpKey, second: OpKey, m: map<OpKey, N>)
    requires first != second && m.Keys == {first, second}
    ensures EnumeratesKeys([first, second], m) && EnumeratesKeys([second, first], m)
  {
  }

  /** Routing of a read/write shard: both kinds reach their node sets; DELETE and UNKNOWN are rejected. */
  lemma ReadWriteShardScenario<N>(name: string, readers: N, writers: N)
    requires NameGiven(Some(name))
    ensures var r := New(Some(name), Some(map[Some(Read) := Some(readers), Some(Write) := Some(writers)]), [Some(Read), Some(Write)]);
            && r.Ok?
            && GetNodesByOpType(r.value, Some(Read)) == Ok(readers)
            && GetNodesByOpType(r.value, Some(Write)) == Ok(writers)
            && GetNodesByOpType(r.value, Some(Delete)).Err?
            && GetNodesByOpType(r.value, Some(Unknown)).Err?
  {
    var topology := map[Some(Read) := Some(readers), Some(Write) := Some(writers)];
    EnumeratesTwoKeys(Some(Read), Some(Write), topology);
    assert TopologyValid(Some(topology));
  }

  /** `equals` is an equivalence relation on shards. */
  lemma EqualsIsEquivalence<N>(a: Shard<N>, b: Shard<N>, c: Shard<N>)
    ensures Equals(a, ShardObject(a))
    ensures Equals(a, ShardObject(b)) == Equals(b, ShardObject(a))
    ensures Equals(a, ShardObject(b)) && Equals(b, ShardObject(c)) ==> Equals(a, ShardObject(c))
  {
  }

  /** A shard equals exactly the shards with its name, and never null or an object of another class. */
  lemma EqualsIffSameName<N>(a: Shard<N>, b: Shard<N>)
    ensures Equals(a, ShardObject(b)) <==> GetName(a) == GetName(b)
    ensures !Equals(a, Null) && !Equals(a, OtherClass)
  {
  }

  /** Two shards built with the same name are equal whatever their topologies. */
  lemma EqualsIgnoresTopology<N>(name: Option<string>, first: RawTopology<N>, firstOrder: seq<OpKey>,
                                 second: RawTopology<N>, secondOrder: seq<OpKey>)
    requires first.Some? ==> EnumeratesKeys(firstOrder, first.value)
    requires second.Some? ==> EnumeratesKeys(secondOrder, second.value)
    requires New(name, first, firstOrder).Ok? && New(name, second, secondOrder).Ok?
    ensures Equals(New(name, first, firstOrder).value, ShardObject(New(name, second, secondOrder).value))
  {
  }

  /** Equal shards may route differently: equality is no statement about routing. */
  lemma EqualShardsMayRouteDifferently<N>(name: string, readers: N, writers: N)
    requires NameGiven(Some(name))
    ensures var a := New(Some(name), Some(map[Some(Read) := Some(readers)]), [Some(Read)]);
            var b := New(Some(name), Some(map[Some(Write) := Some(writers)]), [Some(Write)]);
            && a.Ok? && b.Ok?
            && Equals(a.value, ShardObject(b.value))
            && GetNodesByOpType(a.value, Some(Read)) == Ok(readers)
            && GetNodesByOpType(b.value, Some(Read)).Err?
  {
    var first := map[Some(Read) := Some(readers)];
    var second := map[Some(Write) := Some(writers)];
    assert TopologyValid(Some(first)) && EnumeratesKeys([Some(Read)], first);
    assert TopologyValid(Some(second)) && EnumeratesKeys([Some(Write)], second);
  }

  /** Equal shards have equal hash codes. */
  lemma HashCodeConsistentWithEquals<N>(a: Shard<N>, b: Shard<N>)
    requires Equals(a, ShardObject(b))
    ensures HashCode(a) == HashCode(b)
  {
  }

  /** The hash code depends on the name alone: it is 31 plus the name's String.hashCode, reduced to 32 bits. */
  lemma HashCodeOfName<N>(s: Shard<N>)
    ensures (31 + Polynomial(Utf16(s.name)) - HashCode(s)) % TWO_TO_THE_32 == 0
  {
    var u := Utf16(s.name);
    StringHashCodeIsPolynomialModulo(u);
    var x := 31 + StringHashCode(u);
    assert 31 + Polynomial(u) - HashCode(s) == (Polynomial(u) - StringHashCode(u)) + (x - Int32(x));
    MultipleCombination(1, Polynomial(u) - StringHashCode(u), x - Int32(x));
  }

  /** A character above U+FFFF is hashed as its two UTF-16 code units, as a Java String holds it. */
  lemma HashCodeOfSupplementaryName<N>(topology: map<OpKey, N>)
    ensures HashCode(Shard("\U{1F600}", topology)) == 31 + (31 * 0xD83D + 0xDE00)
  {
    var name := "\U{1F600}";
    assert name[..0] == [];
    assert Utf16(name) == [0xD83D, 0xDE00];
    var u: seq<CodeUnit> := [0xD83D, 0xDE00];
    assert u[..1] == [0xD83D] && u[..1][..0] == [];
    assert StringHashCode(u) == 31 * 0xD83D + 0xDE00;
  }
}
