/** The ring-hash configuration: its validation and its defaults. */
module RingConfig {
  import opened RingTypes

  /** `DefaultVnodeCount`. */
  const DefaultVnodeCount: int := 10

  /** `DefaultHashFuncName`: the murmur3 hash registered at start-up. */
  const DefaultHashFuncName: string := "murmur3"

  const VnodeCountError: string := "ringhash.vnodeCount must be greater than 0"

  /** The virtual-node count FillDefault leaves: the default in place of 0 only. */
  function DefaultedVnodeCount(vnodeCount: int): (r: int)
    ensures vnodeCount == 0 ==> r == DefaultVnodeCount
    ensures vnodeCount != 0 ==> r == vnodeCount
  {
    if vnodeCount == 0 then DefaultVnodeCount else vnodeCount
  }

  /** The hash function name FillDefault leaves: the default in place of the empty name only. */
  function DefaultedHashFunction(hashFunction: string): (r: string)
    ensures |hashFunction| == 0 ==> r == DefaultHashFuncName
    ensures |hashFunction| != 0 ==> r == hashFunction
  {
    if |hashFunction| == 0 then DefaultHashFuncName else hashFunction
  }

  /** `Config`: the hash function name and the virtual-node multiplier. */
  class Config {
    var hashFunction: string
    var vnodeCount: int

    constructor (hashFunction: string, vnodeCount: int)
      ensures this.hashFunction == hashFunction && this.vnodeCount == vnodeCount
    {
      this.hashFunction := hashFunction;
      this.vnodeCount := vnodeCount;
    }

    /** `Verify`: an error exactly when the virtual-node count is not positive. */
    function Verify(): (err: Option<string>)
      reads this
      ensures err.Some? <==> vnodeCount <= 0
      ensures err.Some? ==> err.value == VnodeCountError
    {
      if vnodeCount <= 0 then Some(VnodeCountError) else None
    }

    /** `FillDefault`: fills in the fields that are unset, leaves the others. */
    method FillDefault()
      modifies this
      ensures vnodeCount == DefaultedVnodeCount(old(vnodeCount))
      ensures hashFunction == DefaultedHashFunction(old(hashFunction))
    {
      if vnodeCount == 0 {
        vnodeCount := DefaultVnodeCount;
      }
      if |hashFunction| == 0 {
        hashFunction := DefaultHashFuncName;
      }
    }
  }

  /** Defaulting twice is defaulting once. */
  lemma FillDefaultIdempotent(hashFunction: string, vnodeCount: int)
    ensures DefaultedVnodeCount(DefaultedVnodeCount(vnodeCount)) == DefaultedVnodeCount(vnodeCount)
    ensures DefaultedHashFunction(DefaultedHashFunction(hashFunction)) == DefaultedHashFunction(hashFunction)
  {
  }

  /** A configuration that went through FillDefault passes Verify exactly when its
      original count was not negative: 0 becomes 10, negatives stay invalid. */
  lemma VerifyAfterFillDefault(c: Config, originalVnodeCount: int)
    requires c.vnodeCount == DefaultedVnodeCount(originalVnodeCount)
    ensures c.Verify().None? <==> originalVnodeCount >= 0
  {
  }
}
