# DKV shard descriptor, in Dafny

A model of `DKVShard`, the shard descriptor of the DKV Java client. A shard is
a named partition of the key space together with its topology: for each
operation type (`DKVOpType`) the node set (`DKVNodeSet`) that serves it. A
shard is built once through a validating constructor, looked up by operation
type, and compared and hashed by its name alone.

Files:

- `java_lang.dfy` (module `JavaLang`): Java nulls as `Option`, the thrown
  exceptions as `Result`, `checkf`, `String.trim`, the UTF-16 code units of
  a string, `String.hashCode` and 32-bit `int` wrap-around.
- `dkv_shard.dfy` (module `DKVShard`): the descriptor itself. The constructor
  is the function `New`, whose failure is an `Err` carrying the
  `IllegalArgumentException` and its message.
- `dkv_shard_properties.dfy` (module `DKVShardProperties`): what callers can
  rely on, as lemmas.

Modelling choices:

- The node set type is an opaque type parameter `N`. The source of
  `DKVOpType` is not part of this model. The enumeration is represented as
  `Unknown | Read | Write | Delete`; only the `Unknown` sentinel matters to
  the code.
- The name check `!name.trim().isEmpty()` is stated as "some character is
  above U+0020". `JavaLang.Trim` models `String.trim`, and its contract proves
  the two forms agree.
- Java nulls are explicit. The name is an `Option<string>`. The topology
  argument is an `Option` of a map whose keys (`OpKey = Option<OpType>`) and
  values may be null. A null key is not rejected by `validate`, since line 34
  compares it only with `UNKNOWN`. The lookup at line 45 does reject it, so
  its node set can be stored but never retrieved.
- The `for` loop of `validate` iterates the map's entry set in an order that
  `java.util.Map` leaves to the implementation. The constructor therefore
  takes that order as a parameter `order` that lists every key once. Whether
  construction succeeds does not depend on the order. Which of the two entry
  messages is thrown can depend on it.
- The topology is frozen at construction into a Dafny `map` value. The
  shard's `topology` field therefore holds non-null node sets.
- `equals(Object)` takes an `Object<N>`: `Null`, a shard, or an object of
  another class (including subclasses, which `getClass()` tells apart).

## Model

| member | source | states |
|---|---|---|
| `JavaLang.Trim` | clients/java/dkv-client/src/main/java/org/dkv/client/DKVShard.java:22 | `String.trim` returns an infix `s[a..b]` of the input such that every character before `a` and from `b` on is at or below U+0020, and the result neither starts nor ends with such a character. The result is empty iff every character of the input is at or below U+0020. |
| `JavaLang.Utf16` | clients/java/dkv-client/src/main/java/org/dkv/client/DKVShard.java:61 | A name is hashed as the UTF-16 code units a Java String holds. There are between one and two units per character. For a name whose characters are all below U+10000 the units are the characters themselves. |
| `JavaLang.Utf16One` | clients/java/dkv-client/src/main/java/org/dkv/client/DKVShard.java:61 | A single character encodes to exactly its `CodeUnits`. That is the character itself below U+10000, and otherwise the surrogate pair whose high and low halves recombine to it. |
| `JavaLang.Utf16Append` | clients/java/dkv-client/src/main/java/org/dkv/client/DKVShard.java:61 | Encoding distributes over concatenation, so every character of a name contributes exactly its own code units, in order. |
| `JavaLang.StringHashCode` | clients/java/dkv-client/src/main/java/org/dkv/client/DKVShard.java:61 | `String.hashCode` over the code units, computed as `h = 31 * h + u` with wrap-around at each step. The result is always a 32-bit Java `int`. |
| `JavaLang.StringHashCodeIsPolynomialModulo` | clients/java/dkv-client/src/main/java/org/dkv/client/DKVShard.java:61 | `String.hashCode` in 32-bit arithmetic equals the documented polynomial u[0]*31^(n-1) + ... + u[n-1] over the code units, modulo 2^32. |
| `DKVShard.CheckEntries` | clients/java/dkv-client/src/main/java/org/dkv/client/DKVShard.java:32-37 | The entry loop passes iff every entry in the iteration order has a non-UNKNOWN key and a non-null node set. Otherwise it throws at the first invalid entry: the UNKNOWN message if the key is UNKNOWN, else the nodes message. |
| `DKVShard.Validate` | clients/java/dkv-client/src/main/java/org/dkv/client/DKVShard.java:29-38 | `validate` passes iff the topology is non-null, non-empty and every entry is valid. Every failure is an IllegalArgumentException. |
| `DKVShard.Freeze` | clients/java/dkv-client/src/main/java/org/dkv/client/DKVShard.java:26 | The stored view has exactly the keys of the given topology, and each value is the non-null node set given under that key. |
| `DKVShard.New` | clients/java/dkv-client/src/main/java/org/dkv/client/DKVShard.java:21-27 | Construction succeeds iff the name is non-null and non-blank after trim and the topology is valid. Every failure is an IllegalArgumentException and yields no shard. On success the shard keeps the untrimmed name and exactly the given entries, and satisfies the shard invariant. |
| `DKVShard.GetName` | clients/java/dkv-client/src/main/java/org/dkv/client/DKVShard.java:40-42 | `getName` returns the stored name. |
| `DKVShard.GetNodesByOpType` | clients/java/dkv-client/src/main/java/org/dkv/client/DKVShard.java:44-49 | The lookup succeeds iff the key is non-null and present, and then returns the stored node set. Otherwise it throws IllegalArgumentException("valid DKV operation type must be given"). |
| `DKVShard.Equals` | clients/java/dkv-client/src/main/java/org/dkv/client/DKVShard.java:51-57 | `equals` is false for null and for an object of another class. For a shard it is true iff the two names are equal. |
| `DKVShard.HashCode` | clients/java/dkv-client/src/main/java/org/dkv/client/DKVShard.java:59-62 | `hashCode` is a 32-bit Java `int`. |
| `DKVShardProperties.NameGivenIffTrimmedNonEmpty` | clients/java/dkv-client/src/main/java/org/dkv/client/DKVShard.java:22 | The name passes iff it is non-null and its trimmed form is non-empty. |
| `DKVShardProperties.NameCheckedFirst` | clients/java/dkv-client/src/main/java/org/dkv/client/DKVShard.java:22-23 | An invalid name fails with "shard name must be provided", whatever the topology is. |
| `DKVShardProperties.BlankNameRejected` | clients/java/dkv-client/src/main/java/org/dkv/client/DKVShard.java:22 | Every name made only of characters at or below U+0020 (the empty name included) fails with "shard name must be provided", whatever the topology. |
| `DKVShardProperties.MissingTopologyRejected` | clients/java/dkv-client/src/main/java/org/dkv/client/DKVShard.java:30 | With a valid name, a null or empty topology fails with "topology must be given". |
| `DKVShardProperties.UnknownOpTypeRejected` | clients/java/dkv-client/src/main/java/org/dkv/client/DKVShard.java:33-34 | An UNKNOWN key among non-null node sets fails with "DKV operation type must be given", in every iteration order. |
| `DKVShardProperties.NullNodesRejected` | clients/java/dkv-client/src/main/java/org/dkv/client/DKVShard.java:35-36 | A null node set in a topology without UNKNOWN keys fails with "DKV nodes must be given", in every iteration order. |
| `DKVShardProperties.EntryErrorDependsOnOrder` | clients/java/dkv-client/src/main/java/org/dkv/client/DKVShard.java:32-37 | For a topology with an UNKNOWN key and a null node set under another key, iterating the UNKNOWN key first throws the operation-type message and the other order throws the nodes message. |
| `DKVShardProperties.OutcomeIndependentOfOrder` | clients/java/dkv-client/src/main/java/org/dkv/client/DKVShard.java:21-38 | Whether construction succeeds, and the shard built, are the same for every iteration order. |
| `DKVShardProperties.GetNameReturnsGivenName` | clients/java/dkv-client/src/main/java/org/dkv/client/DKVShard.java:40-42 | `getName` of a constructed shard returns exactly the name passed to the constructor. |
| `DKVShardProperties.NameStoredUntrimmed` | clients/java/dkv-client/src/main/java/org/dkv/client/DKVShard.java:25 | When a name that starts or ends with a character at or below U+0020 is accepted, the shard stores it as given, which differs from its trimmed form. |
| `DKVShardProperties.LookupReturnsStoredNodes` | clients/java/dkv-client/src/main/java/org/dkv/client/DKVShard.java:44-48 | For a non-null key of the constructor's topology, the lookup returns the node set given for it. |
| `DKVShardProperties.LookupRejectsMissingKey` | clients/java/dkv-client/src/main/java/org/dkv/client/DKVShard.java:45 | A null key or a key absent from the topology fails with IllegalArgumentException. There is no default route. |
| `DKVShardProperties.LookupUnknownFails` | clients/java/dkv-client/src/main/java/org/dkv/client/DKVShard.java:34 | On every constructed shard, looking up UNKNOWN fails, because validation keeps it out of the map. |
| `DKVShardProperties.NullKeyAcceptedButUnreachable` | clients/java/dkv-client/src/main/java/org/dkv/client/DKVShard.java:34 | A null key is not rejected: a topology that is otherwise valid builds a shard that stores the null key, but the lookup rejects that key. |
| `DKVShardProperties.ReadWriteShardScenario` | clients/java/dkv-client/src/main/java/org/dkv/client/DKVShard.java:44-49 | For any valid name and node sets, a shard routing READ and WRITE returns those node sets and rejects DELETE and UNKNOWN. |
| `DKVShardProperties.EqualsIsEquivalence` | clients/java/dkv-client/src/main/java/org/dkv/client/DKVShard.java:51-57 | `equals` on shards is reflexive, symmetric and transitive. |
| `DKVShardProperties.EqualsIffSameName` | clients/java/dkv-client/src/main/java/org/dkv/client/DKVShard.java:52-56 | A shard equals another shard iff their names are equal. It never equals null or an object of another class. |
| `DKVShardProperties.EqualsIgnoresTopology` | clients/java/dkv-client/src/main/java/org/dkv/client/DKVShard.java:56 | Two shards constructed with the same name are equal, whatever their topologies. |
| `DKVShardProperties.EqualShardsMayRouteDifferently` | clients/java/dkv-client/src/main/java/org/dkv/client/DKVShard.java:51-57 | Two shards with the same name, one routing READ and one routing WRITE, are equal, yet only the first answers a READ lookup. |
| `DKVShardProperties.HashCodeConsistentWithEquals` | clients/java/dkv-client/src/main/java/org/dkv/client/DKVShard.java:59-62 | Equal shards have equal hash codes. |
| `DKVShardProperties.HashCodeOfName` | clients/java/dkv-client/src/main/java/org/dkv/client/DKVShard.java:61 | The hash code is 31 plus the polynomial hash of the name's UTF-16 code units, modulo 2^32. It depends on the name alone. |
| `DKVShardProperties.HashCodeOfSupplementaryName` | clients/java/dkv-client/src/main/java/org/dkv/client/DKVShard.java:61 | A name holding the single character U+1F600 hashes as its surrogate pair: 31 + (31 * 0xD83D + 0xDE00). |

## Left out

- The private no-argument constructor (lines 72-77). It exists only for reflective deserialization and yields a shard with a null name and a null topology. Only the validating constructor is modelled.
- The `IllegalStateException` check at line 46 ("topology is not initialized"). It is unreachable: on a shard with a null topology, line 45 either throws IllegalArgumentException (for a null `opType`) or dereferences the null topology first. A modelled shard always holds a map anyway.
- `toString` (lines 64-70). It is diagnostic text, and the order of the map's entries in it is unspecified.
- Aliasing through `unmodifiableMap` (line 26). The caller can still change the original map behind the read-only view. The model freezes the topology as a map value at construction.
- The reference-identity shortcut `this == o` in `equals` (line 53). Whenever it fires, the name comparison also returns true, since a constructed shard's name is non-null. Dropping it therefore changes no result.
- `DKVShard.HashCode`, `JavaLang.StringHashCode`, `JavaLang.Utf16`, `DKVShardProperties.HashCodeOfName`: a name is a sequence of Unicode scalar values, which is hashed through its UTF-16 encoding. A Java name holding an unpaired surrogate therefore cannot be represented, and its hash is not modelled.
- The contents of `DKVNodeSet`, `DKVOpType` and `Utils.checkf` are not part of this model. They are treated as an opaque type, an enumeration with an `UNKNOWN` sentinel, and "throw this exception with this message when the condition is false".
- internal/storage/rocksdb/metrics.go is not part of this model. It is a background goroutine that publishes RocksDB statistics as Prometheus gauges on a timer, and holds no logic to verify.
