/**
 * The shard descriptor of the DKV Java client: a shard name together with the
 * node set that serves each kind of operation on that shard. It is built once
 * through a validating constructor and is immutable afterwards.
 */
module DKVShard {
  import opened JavaLang

  /** Operation kinds; `Unknown` is the sentinel that may never be routed. */
  datatype OpType = Unknown | Read | Write | Delete

  /** A key of a java.util.Map<DKVOpType, ...>: it may be null. */
  type OpKey = Option<OpType>

  const NAME_REQUIRED: string := "shard name must be provided"
  const TOPOLOGY_REQUIRED: string := "topology must be given"
  const OP_TYPE_REQUIRED: string := "DKV operation type must be given"
  const NODES_REQUIRED: string := "DKV nodes must be given"
  const VALID_OP_TYPE_REQUIRED: string := "valid DKV operation type must be given"

  /**
   * A constructed shard. The node set type `N` is opaque. The topology is the
   * frozen map handed to the constructor; since validation rejected null node
   * sets, its values are plain `N`.
   */
  datatype Shard<N> = Shard(name: string, topology: map<OpKey, N>)

  /** The constructor's topology argument: a possibly null map whose values may be null. */
  type RawTopology<N> = Option<map<OpKey, Option<N>>>

  /** The name check of `DKVShard(String, Map)`: `name != null && !name.trim().isEmpty()`. */
  predicate NameGiven(name: Option<string>) {
    name.Some? && !IsBlank(name.value)
  }

  /** The body of `validate`'s loop for one entry: the key is not UNKNOWN (null passes) and the node set is not null. */
  predicate EntryValid<N>(topology: map<OpKey, Option<N>>, key: OpKey)
    requires key in topology
  {
    key != Some(Unknown) && topology[key].Some?
  }

  /** What `validate` demands of the whole topology. */
  predicate TopologyValid<N>(topology: RawTopology<N>) {
    && topology.Some?
    && |topology.value| > 0
    && forall key :: key in topology.value ==> EntryValid(topology.value, key)
  }

  /** The exception the loop throws at an invalid entry: the key is checked before the value. */
  function EntryError<N>(topology: map<OpKey, Option<N>>, key: OpKey): Exception
    requires key in topology
  {
    if key == Some(Unknown) then IllegalArgumentException(OP_TYPE_REQUIRED)
    else IllegalArgumentException(NODES_REQUIRED)
  }

  /**
   * `order` is the order in which the map's entry set is iterated: every key
   * exactly once. java.util.Map leaves that order to the implementation.
   */
  predicate EnumeratesKeys<N>(order: seq<OpKey>, m: map<OpKey, N>) {
    && (forall i :: 0 <= i < |order| ==> order[i] in m)
    && (forall key :: key in m ==> key in order)
    && (forall i, j :: 0 <= i < j < |order| ==> order[i] != order[j])
  }

  /**
   * The loop of `validate` over the entries in `order`: it stops at the first
   * invalid entry and throws for it.
   */
  function CheckEntries<N>(topology: map<OpKey, Option<N>>, order: seq<OpKey>): (r: Result<()>)
    requires forall i :: 0 <= i < |order| ==> order[i] in topology
    ensures r.Ok? <==> forall i :: 0 <= i < |order| ==> EntryValid(topology, order[i])
    ensures r.Err? ==> exists i :: && 0 <= i < |order|
                                   && !EntryValid(topology, order[i])
                                   && (forall j :: 0 <= j < i ==> EntryValid(topology, order[j]))
                                   && r.error == EntryError(topology, order[i])
  {
    if order == [] then Ok(())
    else if !EntryValid(topology, order[0]) then
      Err(EntryError(topology, order[0]))
    else
      var r := CheckEntries(topology, order[1..]);
      assert forall i :: 1 <= i <= |order[1..]| ==> order[i] == order[1..][i - 1];
      r
  }

  /** `validate`: the topology must be non-null and non-empty, then every entry must be valid. */
  function Validate<N>(topology: RawTopology<N>, order: seq<OpKey>): (r: Result<()>)
    requires topology.Some? ==> EnumeratesKeys(order, topology.value)
    ensures r.Ok? <==> TopologyValid(topology)
    ensures r.Err? ==> r.error.IllegalArgumentException?
  {
    match Checkf(topology.Some? && |topology.value| > 0, IllegalArgumentException(TOPOLOGY_REQUIRED))
    case Err(e) => Err(e)
    case Ok(_) => CheckEntries(topology.value, order)
  }

  /** The read-only view of a validated topology, as a map value with non-null node sets. */
  function Freeze<N>(topology: map<OpKey, Option<N>>): (r: map<OpKey, N>)
    requires forall key :: key in topology ==> topology[key].Some?
    ensures r.Keys == topology.Keys
    ensures forall key :: key in topology ==> topology[key] == Some(r[key])
  {
    map key | key in topology :: topology[key].value
  }

  /** The invariant of every shard the public constructor yields. */
  ghost predicate Valid<N>(s: Shard<N>) {
    && !IsBlank(s.name)
    && |s.topology| > 0
    && Some(Unknown) !in s.topology
  }

  /**
   * The public constructor: the name is checked first, then the topology;
   * fields are set only once both checks passed, so a failure yields no shard.
   * The name is stored as given, not trimmed.
   */
  function New<N>(name: Option<string>, topology: RawTopology<N>, order: seq<OpKey>): (r: Result<Shard<N>>)
    requires topology.Some? ==> EnumeratesKeys(order, topology.value)
    ensures r.Ok? <==> NameGiven(name) && TopologyValid(topology)
    ensures r.Err? ==> r.error.IllegalArgumentException?
    ensures r.Ok? ==> && r.value.name == name.value
                      && r.value.topology.Keys == topology.value.Keys
                      && (forall key :: key in topology.value ==> topology.value[key] == Some(r.value.topology[key]))
                      && Valid(r.value)
  {
    match Checkf(NameGiven(name), IllegalArgumentException(NAME_REQUIRED))
    case Err(e) => Err(e)
    case Ok(_) =>
      match Validate(topology, order)
      case Err(e) => Err(e)
      case Ok(_) => Ok(Shard(name.value, Freeze(topology.value)))
  }

  /** `getName` */
  function GetName<N>(s: Shard<N>): (r: string)
    ensures r == s.name
  {
    s.name
  }

  /**
   * `getNodesByOpType`: the key must be non-null and present. The second check
   * of the source, that the topology is initialized, cannot fail here: a shard
   * always holds a map.
   */
  function GetNodesByOpType<N>(s: Shard<N>, opType: OpKey): (r: Result<N>)
    ensures r.Ok? <==> opType.Some? && opType in s.topology
    ensures r.Ok? ==> r.value == s.topology[opType]
    ensures r.Err? ==> r.error == IllegalArgumentException(VALID_OP_TYPE_REQUIRED)
  {
    match Checkf(opType.Some? && opType in s.topology, IllegalArgumentException(VALID_OP_TYPE_REQUIRED))
    case Err(e) => Err(e)
    case Ok(_) => Ok(s.topology[opType])
  }

  /** The argument of `equals(Object)`: null, a DKVShard, or an object of another class. */
  datatype Object<N> = Null | ShardObject(shard: Shard<N>) | OtherClass

  /** `equals`: null and other classes are unequal; shards compare by name alone. */
  function Equals<N>(s: Shard<N>, o: Object<N>): (r: bool)
    ensures o.Null? || o.OtherClass? ==> !r
    ensures o.ShardObject? ==> (r <==> s.name == o.shard.name)
  {
    match o
    case Null => false
    case OtherClass => false
    case ShardObject(other) => s.name == other.name
  }

  /** `hashCode`: Objects.hash(name), that is 31 * 1 + name.hashCode() in 32-bit arithmetic. */
  function HashCode<N>(s: Shard<N>): (h: int)
    ensures INT_MIN <= h <= INT_MAX
  {
    Int32(31 + StringHashCode(Utf16(s.name)))
  }
}
