/** The consistent-hash ring (continuum) and its selector: ownership lookup,
    the clockwise replica walk with its per-point cache, and collision
    resolution for ring construction. */
module Continuum {
  import opened RingTypes
  import opened Encoding
  import opened RingSearch
  import opened ReplicaWalk
  import opened Rehashing

  /** A resolved replica set: the instance list it indexes into, the replica
      count it was computed for, and the replica instance indexes. */
  datatype ReplicateNodes = ReplicateNodes(allInstances: seq<Instance>, count: int, indexes: seq<int>)

  /** The selection criteria a request carries: a byte key or a precomputed hash
      value for the request hash, and the number of replicas wanted. */
  datatype Criteria = Criteria(hashKey: seq<byte>, hashValue: uint64, replicateCount: int)

  /** One point of the ring. Its key, hash value and instance index never change;
      its replica cache slot is overwritten by lookups. */
  class Point {
    const hashKey: string
    const hashValue: uint64
    const index: int
    var replicates: Option<ReplicateNodes>

    constructor (hashKey: string, hashValue: uint64, index: int)
      ensures this.hashKey == hashKey && this.hashValue == hashValue && this.index == index
      ensures replicates == None
    {
      this.hashKey := hashKey;
      this.hashValue := hashValue;
      this.index := index;
      replicates := None;
    }
  }

  /** The map from hash values already placed on the ring to the key that produced
      them, filled while a ring is being built. */
  class HashValueMap {
    var entries: map<uint64, string>

    constructor (entries: map<uint64, string>)
      ensures this.entries == entries
    {
      this.entries := entries;
    }
  }

  /** `containsIndex`: whether replicateIndex occurs in replicateIndexes. */
  method ContainsIndex(replicateIndexes: seq<int>, replicateIndex: int) returns (found: bool)
    ensures found <==> replicateIndex in replicateIndexes
  {
    for i := 0 to |replicateIndexes|
      invariant forall k :: 0 <= k < i ==> replicateIndexes[k] != replicateIndex
    {
      if replicateIndexes[i] == replicateIndex {
        return true;
      }
    }
    return false;
  }

  function HashValuesOf(ps: seq<Point>): (hs: seq<uint64>)
    ensures |hs| == |ps| && forall k :: 0 <= k < |ps| ==> hs[k] == ps[k].hashValue
  {
    seq(|ps|, k requires 0 <= k < |ps| => ps[k].hashValue)
  }

  function IndexesOf(ps: seq<Point>): (idx: seq<int>)
    ensures |idx| == |ps| && forall k :: 0 <= k < |ps| ==> idx[k] == ps[k].index
  {
    seq(|ps|, k requires 0 <= k < |ps| => ps[k].index)
  }

  /** A built ring bound to its instance list and hash function. */
  class ContinuumSelector {
    const allInstances: seq<Instance>
    const ring: array<Point>
    const hashFunc: HashFuncWithSeed

    /** The ring is taken as built: its points, sorted and indexing into
        allInstances, are stored as given. */
    constructor (allInstances: seq<Instance>, ring: array<Point>, hashFunc: HashFuncWithSeed)
      requires StrictlyAscending(HashValuesOf(ring[..]))
      requires forall k :: 0 <= k < ring.Length ==> 0 <= ring[k].index < |allInstances|
      requires forall k :: 0 <= k < ring.Length ==> ring[k].replicates == None
      ensures this.allInstances == allInstances && this.ring == ring && this.hashFunc == hashFunc
      ensures Valid() && CachesCoherent()
    {
      this.allInstances := allInstances;
      this.ring := ring;
      this.hashFunc := hashFunc;
    }

    /** The ring invariants: hash values strictly ascending, every instance index valid. */
    ghost predicate Valid()
      reads this, ring
    {
      && StrictlyAscending(HashValues())
      && forall k :: 0 <= k < ring.Length ==> 0 <= ring[k].index < |allInstances|
    }

    function HashValues(): seq<uint64>
      reads this, ring
    {
      HashValuesOf(ring[..])
    }

    function Indexes(): seq<int>
      reads this, ring
    {
      IndexesOf(ring[..])
    }

    ghost function Points(): set<Point>
      reads this, ring
    {
      set k | 0 <= k < ring.Length :: ring[k]
    }

    /** The replica cache slot of every point, in ring order. */
    ghost function Caches(): (cs: seq<Option<ReplicateNodes>>)
      reads this, ring, Points()
      ensures |cs| == ring.Length
    {
      seq(ring.Length, k requires 0 <= k < ring.Length reads this, ring, Points() => ring[k].replicates)
    }

    /** The cache invariant: a filled slot holds the replica walk's result for
        that point and the count it was computed for, and that count is positive. */
    ghost predicate CachesCoherent()
      reads this, ring, Points()
    {
      var cs := Caches();
      forall k :: 0 <= k < |cs| && cs[k].Some? ==> SlotCoherent(k, cs[k].value)
    }

    ghost predicate SlotCoherent(k: nat, v: ReplicateNodes)
      reads this, ring
      requires k < ring.Length
    {
      v.count > 0 && v == ReplicateNodes(allInstances, v.count, Replicas(Indexes(), k, v.count))
    }

    /** `points.Len`. */
    function Len(): (n: nat)
      reads this
      ensures n == |HashValuesOf(ring[..])|
    {
      ring.Length
    }

    /** `points.Count`: the same number as Len. */
    function Count(): (n: nat)
      reads this
      ensures n == Len()
    {
      Len()
    }

    /** `points.Less`, the sort comparator: whether point i's hash is below point j's.
        On a sorted ring that is exactly when i comes first. */
    function Less(i: nat, j: nat): (b: bool)
      requires i < ring.Length && j < ring.Length
      reads this, ring
      ensures b <==> HashValues()[i] < HashValues()[j]
      ensures Valid() ==> (b <==> i < j)
    {
      ring[i].hashValue < ring[j].hashValue
    }

    /** `points.GetValue`: the hash value at a position, above every earlier one on a valid ring. */
    function GetValue(idx: nat): (v: uint64)
      requires idx < ring.Length
      reads this, ring
      ensures v == HashValues()[idx]
      ensures Valid() ==> forall k :: 0 <= k < idx ==> ring[k].hashValue < v
    {
      ring[idx].hashValue
    }

    /** The ring position `search.BinarySearch(c.ring, h)` returns. */
    function OwnerPosition(h: uint64): (r: nat)
      requires ring.Length > 0
      reads this, ring
      ensures r < ring.Length
    {
      BinarySearch(HashValues(), h)
    }

    /** What selectByHashValue promises, relative to the caches `before` the call:
        the owner is the instance of the ring position BinarySearch picks; a zero
        count returns no replicas and leaves every cache alone; a cached set of the
        requested count is returned as it is; otherwise the replica walk's result
        is returned and stored in the owner's slot, and in no other. */
    ghost predicate LookupOutcome(h: uint64, count: int, target: int, nodes: Option<ReplicateNodes>,
                                  before: seq<Option<ReplicateNodes>>)
      requires ring.Length > 0 && count >= 0
      reads this, ring, Points()
    {
      var r := OwnerPosition(h);
      && |before| == ring.Length
      && target == ring[r].index
      && if count == 0 then
           nodes == None && Caches() == before
         else if before[r].Some? && before[r].value.count == count then
           nodes == before[r] && Caches() == before
         else
           && nodes == Some(ReplicateNodes(allInstances, count, Replicas(Indexes(), r, count)))
           && Caches() == before[r := nodes]
    }

    lemma PointsDistinct(i: nat, j: nat)
      requires Valid() && i < j < ring.Length
      ensures ring[i] != ring[j]
    {
      assert HashValues()[i] < HashValues()[j];
    }

    /** The replica walk of `selectByHashValue`: from the point after ringIndex,
        clockwise, append each instance index that is neither the owner's nor
        already collected, until replicateCount are collected or the walk is
        back at the owner. */
    method CollectReplicas(ringIndex: nat, replicateCount: int) returns (replicateIndexes: seq<int>)
      requires ringIndex < ring.Length && replicateCount >= 0
      ensures replicateIndexes == Replicas(Indexes(), ringIndex, replicateCount)
    {
      ghost var idx := Indexes();
      ghost var ws := ClockwiseFrom(idx, ringIndex);
      var targetIndex := ring[ringIndex].index;
      replicateIndexes := [];
      var ringSize := ring.Length;
      var i := 1;
      while i < ringSize
        invariant 1 <= i <= ringSize
        invariant replicateIndexes == FirstOccurrences(ws[..i - 1], targetIndex)
        invariant |replicateIndexes| <= replicateCount
      {
        if |replicateIndexes| == replicateCount {
          break;
        }
        var replicRingIndex := (ringIndex + i) % ringSize;
        var replicateIndex := ring[replicRingIndex].index;
        assert ws[i - 1] == replicateIndex;
        assert ws[..i] == ws[..i - 1] + [replicateIndex];
        if targetIndex != replicateIndex {
          var contained := ContainsIndex(replicateIndexes, replicateIndex);
          if !contained {
            replicateIndexes := replicateIndexes + [replicateIndex];
          }
        }
        i := i + 1;
      }
      FirstOccurrencesPrefix(ws, targetIndex, i - 1);
      if i == ringSize {
        assert ws[..i - 1] == ws;
      }
    }

    /** `selectByHashValue`. */
    method SelectByHashValue(hashValue: uint64, replicateCount: int) returns (targetIndex: int, nodes: Option<ReplicateNodes>)
      requires Valid() && CachesCoherent() && ring.Length > 0 && replicateCount >= 0
      modifies Points()
      ensures LookupOutcome(hashValue, replicateCount, targetIndex, nodes, old(Caches()))
      ensures replicateCount > 0 ==>
        nodes == Some(ReplicateNodes(allInstances, replicateCount, Replicas(Indexes(), OwnerPosition(hashValue), replicateCount)))
      ensures CachesCoherent()
    {
      var ringIndex := BinarySearch(HashValues(), hashValue);
      var targetPoint := ring[ringIndex];
      targetIndex := targetPoint.index;
      if replicateCount == 0 {
        return targetIndex, None;
      }
      var cached := targetPoint.replicates;
      if cached.Some? && cached.value.count == replicateCount {
        assert Caches()[ringIndex] == cached;
        return targetIndex, cached;
      }
      var replicateIndexes := CollectReplicas(ringIndex, replicateCount);
      nodes := Some(ReplicateNodes(allInstances, replicateCount, replicateIndexes));
      ghost var before := Caches();
      targetPoint.replicates := nodes;
      forall k | 0 <= k < ring.Length && k != ringIndex
        ensures ring[k].replicates == before[k]
      {
        if k < ringIndex {
          PointsDistinct(k, ringIndex);
        } else {
          PointsDistinct(ringIndex, k);
        }
      }
      assert Caches() == before[ringIndex := nodes];
      assert SlotCoherent(ringIndex, nodes.value);
    }

    /** `Select`: no instance on an empty ring, the only point's instance on a
        one-point ring, and otherwise the lookup of the request hash, unless
        computing that hash fails. */
    method Select(criteria: Criteria, calcHashValue: (Criteria, HashFuncWithSeed) -> Result<uint64>)
      returns (index: int, nodes: Option<ReplicateNodes>, err: Option<string>)
      requires Valid() && CachesCoherent() && criteria.replicateCount >= 0
      modifies Points()
      ensures ring.Length == 0 ==> index == -1 && nodes == None && err == None && Caches() == old(Caches())
      ensures ring.Length == 1 ==> index == ring[0].index && nodes == None && err == None && Caches() == old(Caches())
      ensures ring.Length >= 2 ==>
        match calcHashValue(criteria, hashFunc)
        case Failure(e) => index == -1 && nodes == None && err == Some(e) && Caches() == old(Caches())
        case Success(h) =>
          && err == None && LookupOutcome(h, criteria.replicateCount, index, nodes, old(Caches()))
          && (criteria.replicateCount > 0 ==>
                nodes == Some(ReplicateNodes(allInstances, criteria.replicateCount,
                                             Replicas(Indexes(), OwnerPosition(h), criteria.replicateCount))))
      ensures CachesCoherent()
    {
      var ringLen := ring.Length;
      if ringLen == 0 {
        return -1, None, None;
      } else if ringLen == 1 {
        return ring[0].index, None, None;
      }
      var hashValue := calcHashValue(criteria, hashFunc);
      if hashValue.Failure? {
        return -1, None, Some(hashValue.error);
      }
      index, nodes := SelectByHashValue(hashValue.value, criteria.replicateCount);
      err := None;
    }

    /** `doRehash`: the recursion on a collision is a loop over the iteration number. */
    method DoRehash(lastHash: uint64, hashValues: HashValueMap, iteration: int)
      returns (hashValue: uint64, hashKey: string, err: Option<string>)
      modifies hashValues
      ensures match Rehash(hashFunc, lastHash, old(hashValues.entries).Keys, iteration).result
        case Success((v, key)) =>
          && hashValue == v && hashKey == key && err == None
          && hashValues.entries == old(hashValues.entries)[v := key]
        case Failure(e) =>
          && hashValue == 0 && hashKey == "" && err == Some(e)
          && hashValues.entries == old(hashValues.entries)
    {
      ghost var taken := hashValues.entries.Keys;
      var current := lastHash;
      var it := iteration;
      while it <= MaxRehashIteration
        invariant hashValues.entries == old(hashValues.entries)
        invariant Rehash(hashFunc, current, taken, it).result == Rehash(hashFunc, lastHash, taken, iteration).result
        decreases MaxRehashIteration - it
      {
        var buf := Uint64Bytes(current);
        var hashed := hashFunc(buf, 0);
        if hashed.Failure? {
          return 0, "", Some(hashed.error);
        }
        if hashed.value in hashValues.entries {
          current, it := hashed.value, it + 1;
        } else {
          var lastHashStr := FormatInt(ToInt64(current));
          hashValues.entries := hashValues.entries[hashed.value := lastHashStr];
          return hashed.value, lastHashStr, None;
        }
      }
      return 0, "", Some(RehashExceededError);
    }
  }
}
