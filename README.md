# ringhash: consistent-hash ring lookup, replica walk and collision resolution

This project models the core of a client-side consistent-hashing load
balancer in Dafny and proves properties of the model.

- **The continuum.** The ring is an array of points, strictly ascending by
  64-bit hash value. Each point names an instance by its index into the
  cluster's instance list and has a replica-cache slot.
- **Lookup.** `Select` handles an empty ring and a one-point ring directly.
  Otherwise it computes the request hash and finds the owner point: the first
  point clockwise whose hash is at least the request hash.
- **Replicas.** When replicas are requested, the owner point's cached set is
  returned if it was computed for the same count. Otherwise the ring is walked
  clockwise to collect distinct instance indexes other than the owner's, and
  the result is stored in the owner's slot.
- **Collision resolution.** During ring construction a colliding hash value is
  rehashed: its 8 little-endian bytes are hashed again with seed 0. The number
  of rounds is bounded by `maxRehashIteration` (5). The first free value is
  recorded in the hash-value map under the signed decimal string of the last
  input.
- **Hash-function registry.** A name-to-function map with insert-if-absent
  registration (a duplicate name panics) and lookup with a not-found error.
- **Configuration.** `Verify` rejects a non-positive virtual-node count.
  `FillDefault` fills in the count 10 and the hash name "murmur3" when they
  are unset.

Files and modules:

| file | module | content |
|---|---|---|
| ring_types.dfy | RingTypes | `uint64`, `uint32`, `byte`, `Option`, Go-style `Result`, `HashFuncWithSeed`, instance keys |
| encoding.dfy | Encoding | little-endian bytes of a uint64, `int64(x)`, `strconv.FormatInt`, and their inverses |
| ring_search.dfy | RingSearch | the contract of the external binary search, and the owner as clockwise successor |
| replica_walk.dfy | ReplicaWalk | the replica walk as a function of the ring's instance indexes, and its properties |
| rehash.dfy | Rehashing | the `doRehash` recursion as a function, and its properties |
| continuum.dfy | Continuum | `Point` and `ContinuumSelector` classes, `containsIndex`, `selectByHashValue`, `Select`, `doRehash` |
| base.dfy | Base | the `HashFuncRegistry` class |
| config.dfy | RingConfig | the `Config` class, `Verify`, `FillDefault` |

How the model is built:

- The ring is taken as built. Its invariant, `ContinuumSelector.Valid()`, says
  two things: hash values are strictly ascending, and every point's instance
  index is valid. All lookup methods require it.
- Point key, hash value and instance index are `const` fields. Only the
  replica slot `replicates` is a mutable field.
- `ContinuumSelector.Caches()` is the sequence of all replica slots. The
  methods state the new slots in terms of the old ones, so "nothing else
  changes" is part of each contract.
- `ContinuumSelector.CachesCoherent()` is the cache invariant: every filled
  slot holds the replica walk's result for its point and for the count stored
  with it. `selectByHashValue` is the only writer of a slot
  (ringhash/continuum.go:128), so a new ring starts with empty slots and every
  lookup keeps the invariant. A cached answer is therefore the same as a
  recomputed one.
- Each imperative method is proved against a pure function, and the
  properties are lemmas about that function:
  - `CollectReplicas` is proved against `ReplicaWalk.Replicas`.
  - `DoRehash`, a bounded loop in place of the source's recursion, is proved
    against `Rehashing.Rehash`. That function follows the recursion and also
    records every value fed to the hash function.
- The hash function and the request-hash computation (`common.CalcHashValue`)
  are code outside the model. They are function-typed values passed in.
- `search.BinarySearch` is not part of this model. Its contract is the
  function `RingSearch.BinarySearch`: the first position whose hash value is
  at least the request hash, or position 0 when there is none.

Two facts of the code that the model keeps as written:

- `maxRehashIteration` is 5 and `doRehash` hashes while `iteration <= 5`
  (ringhash/continuum.go:49). A call starting at iteration k therefore makes
  at most 6 - k hash calls, which is what `RehashBounded` and
  `RehashAlwaysColliding` state.
- A duplicate registration panics with the literal string
  "hash function %s has already existed". The source hands a format string to
  `panic` without formatting it. The model keeps that exact message.

## Model

| member | source | states |
|---|---|---|
| `Encoding.LittleEndian` | ringhash/continuum.go:54-55 | the little-endian encoding of a number into n bytes has exactly n bytes |
| `Encoding.Uint64Bytes` | ringhash/continuum.go:54-55 | `binary.Write` of a uint64 in little-endian order puts exactly 8 bytes in the buffer |
| `Encoding.FromLittleEndian` | ringhash/continuum.go:54-55 | the number read back from n little-endian bytes is below 256^n |
| `Encoding.FromLittleEndianInverts` | ringhash/continuum.go:54-55 | decoding the n-byte little-endian encoding of any number below 256^n gives that number back |
| `Encoding.LittleEndianInverts` | ringhash/continuum.go:54-55 | encoding a decoded byte string with its own length gives the byte string back |
| `Encoding.Uint64BytesRoundTrip` | ringhash/continuum.go:55 | the 8 bytes `binary.Write` produces for a uint64 decode to that uint64, so no two hash values share an encoding |
| `Encoding.ToInt64` | ringhash/continuum.go:65 | `int64(lastHash)` lies in the int64 range and is congruent to the uint64 modulo 2^64 |
| `Encoding.DecimalString` | ringhash/continuum.go:65 | the decimal rendering of a natural number is a non-empty string of digits |
| `Encoding.FormatInt` | ringhash/continuum.go:65 | `strconv.FormatInt(v, 10)` is non-empty and starts with a minus sign exactly when v is negative |
| `Encoding.ParseDecimalInverts` | ringhash/continuum.go:65 | reading the decimal digits of n back gives n |
| `Encoding.FormatIntInverts` | ringhash/continuum.go:65 | the signed decimal string recorded for a hash reads back to the same int64 value, so the key is lossless |
| `RingSearch.FirstAtLeastFrom` | ringhash/continuum.go:91 | the position found is the first at or after the start whose hash is at least h, or the ring length when none is |
| `RingSearch.BinarySearch` | ringhash/continuum.go:91 | the owner position is the first point whose hash is at least h; when every point is below h it wraps to position 0 |
| `RingSearch.OwnerIsClockwiseSuccessor` | ringhash/continuum.go:91-93 | on a sorted ring the owner has the smallest hash value at least h, or is point 0 when h exceeds the last point |
| `ReplicaWalk.ClockwiseFrom` | ringhash/continuum.go:106-113 | the walk from the owner visits ringSize - 1 positions, (ringIndex + i) % ringSize for i = 1 .. ringSize - 1 |
| `ReplicaWalk.FirstOccurrences` | ringhash/continuum.go:114-120 | the list the loop appends to, when no early exit stops it, is no longer than the walk and never holds the owner's instance |
| `ReplicaWalk.Replicas` | ringhash/continuum.go:105-121 | the replica indexes for owner position r and a count: at most count of them, fewer than the ring's points, none the owner's instance |
| `ReplicaWalk.WalkStep` | ringhash/continuum.go:111 | `(ringIndex + i) % ringSize` for 1 <= i < ringSize wraps at most once and never lands on the owner position |
| `ReplicaWalk.ClockwiseFromVisitsOthers` | ringhash/continuum.go:106-113 | the walk meets an instance index exactly when some ring position other than the owner's carries it |
| `ReplicaWalk.FirstOccurrencesMembers` | ringhash/continuum.go:114-120 | an index is collected exactly when it occurs on the walk and is not the owner's instance |
| `ReplicaWalk.FirstOccurrencesDistinct` | ringhash/continuum.go:117-120 | the `containsIndex` check keeps the collected indexes pairwise distinct |
| `ReplicaWalk.FirstOccurrencesOrdered` | ringhash/continuum.go:107-120 | collected indexes are in the order of their first occurrence on the walk |
| `ReplicaWalk.FirstOccurrencesPrefix` | ringhash/continuum.go:108-110 | stopping the walk early collects a prefix of what the full walk collects |
| `ReplicaWalk.ReplicasWellFormed` | ringhash/continuum.go:105-121 | replicas are pairwise distinct, none is the owner's instance, there are at most replicateCount, and each is the instance index of another ring point |
| `ReplicaWalk.ReplicasClockwiseOrder` | ringhash/continuum.go:106-121 | a replica listed earlier is met earlier on the clockwise walk from the owner |
| `ReplicaWalk.ReplicasCount` | ringhash/continuum.go:105-121 | the number of replicas is min(replicateCount, number of distinct non-owner instance indexes on the ring) |
| `ReplicaWalk.ReplicasNoneSkipped` | ringhash/continuum.go:107-121 | every non-owner instance met on the walk before a replica is an earlier replica, so the replicas are the first count distinct non-owner instances clockwise |
| `ReplicaWalk.ReplicasComplete` | ringhash/continuum.go:107-121 | when fewer than replicateCount are found, every other instance on the ring is a replica |
| `ReplicaWalk.ReplicasExample` | ringhash/continuum.go:90-121 | with instances A, B, A, B on the ring and owner B, the single replica is A, and asking for three still gives only A |
| `Rehashing.Budget` | ringhash/continuum.go:49-51 | no rounds remain exactly when the iteration is past 5, and from any non-negative iteration at most 6 remain |
| `Rehashing.Rehash` | ringhash/continuum.go:47-68 | the doRehash recursion: past iteration 5 nothing is hashed; the first value hashed is lastHash; a success hashed at least once |
| `Rehashing.RehashBounded` | ringhash/continuum.go:47-64 | a call starting at iteration k hashes at most 6 - k times, never when k > 5 |
| `Rehashing.RehashExhausted` | ringhash/continuum.go:49-51 | past iteration 5 nothing is hashed and the "rehash exceed max iteration 5" error is returned |
| `Rehashing.RehashChain` | ringhash/continuum.go:54-64 | the values hashed start at lastHash, and each next one is the seed-0 hash of the previous one's 8 little-endian bytes, a value already in the map |
| `Rehashing.RehashSuccess` | ringhash/continuum.go:54-67 | on success the value was absent from the map, it is the hash of the last input's bytes, and its key is that input as a signed decimal |
| `Rehashing.RehashAlwaysColliding` | ringhash/continuum.go:49-64 | a hash that always lands on a taken value fails with the budget error after exactly 6 - k hash calls |
| `Continuum.ContainsIndex` | ringhash/continuum.go:133-140 | true exactly when the index occurs in the list |
| `Continuum.ContinuumSelector.constructor` | ringhash/continuum.go:20-25 | a selector over a sorted ring whose points index into its instance list, with every replica slot empty, satisfies the ring invariant and the cache invariant |
| `Continuum.ContinuumSelector.Len` | ringhash/continuum.go:170 | the ring length is the number of hash values on the ring |
| `Continuum.ContinuumSelector.Count` | ringhash/continuum.go:181-183 | Count is the ring length |
| `Continuum.ContinuumSelector.Less` | ringhash/continuum.go:167 | for any two positions, whether point i's hash is below point j's; on a sorted ring that is exactly when i < j |
| `Continuum.ContinuumSelector.GetValue` | ringhash/continuum.go:176-178 | the value at a position is that point's hash, above every earlier point's on a valid ring |
| `Continuum.ContinuumSelector.OwnerPosition` | ringhash/continuum.go:91 | the binary search on a non-empty ring returns a valid position |
| `Continuum.ContinuumSelector.CollectReplicas` | ringhash/continuum.go:105-121 | the loop with `containsIndex` and the early exit computes exactly the replica walk's result |
| `Continuum.ContinuumSelector.SelectByHashValue` | ringhash/continuum.go:90-130 | owner is the instance at the binary-search position. Count 0: no replicas, no slot touched. Cached set of the same count: returned, nothing stored. Otherwise: the walk's replicas, stored in the owner's slot only. The cache invariant (every filled slot holds the walk's result for its point and count) is kept, so for every positive count, cache hit or not, the result is the replica walk from the owner |
| `Continuum.ContinuumSelector.Select` | ringhash/continuum.go:71-87 | empty ring: (-1, none, no error). One point: its instance, no hashing. Hash error: (-1, none, that error). Otherwise: the lookup of the request hash, whose replicas for a positive count are the walk from the owner, cached or not. Slots change only as the lookup says, and the cache invariant is kept |
| `Continuum.ContinuumSelector.DoRehash` | ringhash/continuum.go:47-68 | the loop returns what the recursion returns; on success it adds exactly the new value with its key, and on error it leaves the map unchanged |
| `Base.HashFuncRegistry.constructor` | ringhash/base.go:8-11 | the registry starts empty |
| `Base.HashFuncRegistry.RegisterHashFunc` | ringhash/base.go:30-35 | a new name adds exactly that entry; a name already present panics and the map is unchanged |
| `Base.HashFuncRegistry.GetHashFunc` | ringhash/base.go:38-44 | a registered name gives its function; an unknown name gives "hashFunc <name> not found"; the registry is not modified |
| `Base.NotFoundError` | ringhash/base.go:41 | the not-found message has the name in it, after "hashFunc " |
| `Base.RegisterThenGet` | ringhash/base.go:30-44 | after registering a new name, looking it up gives the registered function, and every other name resolves as before |
| `RingConfig.Config.Verify` | ringhash/config.go:21-27 | an error exactly when VnodeCount <= 0 |
| `RingConfig.Config.FillDefault` | ringhash/config.go:30-37 | VnodeCount becomes 10 exactly when it was 0; HashFunction becomes "murmur3" exactly when it was empty; other values are kept |
| `RingConfig.DefaultedVnodeCount` | ringhash/config.go:31-33 | 0 becomes DefaultVnodeCount (10); every other count, negatives included, is kept |
| `RingConfig.DefaultedHashFunction` | ringhash/config.go:34-36 | the empty name becomes "murmur3"; a non-empty name is kept |
| `RingConfig.FillDefaultIdempotent` | ringhash/config.go:30-37 | filling defaults twice gives the same fields as filling them once |
| `RingConfig.VerifyAfterFillDefault` | ringhash/config.go:21-37 | after FillDefault, Verify succeeds exactly when the original VnodeCount was >= 0 |

## Left out

- Ring construction (`NewContinuum`, ringhash/continuum.go:191-194) has an empty body. The ring is therefore taken as given, sorted and valid. The constructor of `ContinuumSelector` only stores it.
- `search.BinarySearch` is specified by its contract, not by its algorithm. Its source is not part of this model.
- `common.CalcHashValue` and the concrete hash functions (murmur3 with its `sync.Pool`, ringhash/murmur3.go) are code outside the model. They are function-typed values.
- Continuum.ContinuumSelector.SelectByHashValue: a negative replicate count makes `make([]int, 0, replicateCount)` panic in the source. The model requires a count >= 0 instead of modelling the panic.
- Continuum.ContinuumSelector.Select: requires `replicateCount >= 0`, the domain of a request's replica count. In the source a negative count does not panic on an empty or one-point ring or after a hash error (ringhash/continuum.go:74-83); the model does not cover negative counts there.
- The replica slot is an `atomic.Value` in the source. It is a plain mutable field here, because the model is sequential. Racing writers and atomic publication are not modelled.
- Returned replica sets are values here. In the source they are pointers, so "the cached object is returned" becomes "an equal value is returned".
- `binary.Write` into a `bytes.Buffer` cannot fail for a uint64, so its error branch (ringhash/continuum.go:55-57) has no counterpart.
- RingConfig.Config.Verify: the source returns `multierror.Append(nil, err)` (ringhash/config.go:24), whose message is the multierror rendering around the inner message. The model returns the inner message, `VnodeCountError`, only.
- The debug log on a collision (ringhash/continuum.go:62) is not modelled, since logging has no effect on results.
- `String` (ringhash/continuum.go:28-44) is diagnostic formatting, and `SelectorBase.ID` is a field getter. Neither is modelled.
- `WriteBuffer` (ringhash/base.go:17-27) is a loop over a foreign `io.Writer` and is not modelled.
- ringhash/ringhash.go and ringhash/nodes.go are not modelled. They hold the double-checked-locking ring cache, `Setup`, `ChooseInstance` and the `sync.Map` wrappers, whose point is concurrency or orchestration around the stubbed builder.
- The registration of murmur3 in `init` (ringhash/murmur3.go:43-45) is not modelled. `RegisterThenGet` states the property that registration gives callers.
