/** Collision resolution during ring construction. A virtual point whose hash
    value is already taken is rehashed: the little-endian bytes of the taken
    value are hashed again (seed 0), for at most MaxRehashIteration + 1 rounds
    counted from the starting iteration. */
module Rehashing {
  import opened RingTypes
  import opened Encoding

  /** `maxRehashIteration`: the highest iteration number that may still hash. */
  const MaxRehashIteration: int := 5

  /** `fmt.Errorf("rehash exceed max iteration %d", maxRehashIteration)`. */
  const RehashExceededError: string := "rehash exceed max iteration 5"

  /** One run of doRehash: the inputs fed to the hash function, in order, and the
      outcome, either (new hash value, key recorded for it) or an error. */
  datatype RehashRun = RehashRun(inputs: seq<uint64>, result: Result<(uint64, string)>)

  /** Hash rounds still allowed when starting at `iteration`. */
  function Budget(iteration: int): (b: nat)
    ensures b == 0 <==> iteration > MaxRehashIteration
    ensures iteration >= 0 ==> b <= MaxRehashIteration + 1
  {
    if iteration > MaxRehashIteration then 0 else MaxRehashIteration + 1 - iteration
  }

  /** The recursion of doRehash over the set of hash values already taken. */
  function Rehash(hash: HashFuncWithSeed, lastHash: uint64, taken: set<uint64>, iteration: int): (run: RehashRun)
    ensures iteration > MaxRehashIteration ==> run.inputs == []
    ensures |run.inputs| > 0 ==> run.inputs[0] == lastHash
    ensures run.result.Success? ==> |run.inputs| > 0
    decreases Budget(iteration)
  {
    if iteration > MaxRehashIteration then RehashRun([], Failure(RehashExceededError))
    else match hash(Uint64Bytes(lastHash), 0)
      case Failure(e) => RehashRun([lastHash], Failure(e))
      case Success(v) =>
        if v in taken then
          var rest := Rehash(hash, v, taken, iteration + 1);
          RehashRun([lastHash] + rest.inputs, rest.result)
        else
          RehashRun([lastHash], Success((v, FormatInt(ToInt64(lastHash)))))
  }

  /** A call starting at iteration k hashes at most 6 - k times (never, when k > 5). */
  lemma {:induction false} RehashBounded(hash: HashFuncWithSeed, lastHash: uint64, taken: set<uint64>, iteration: int)
    ensures |Rehash(hash, lastHash, taken, iteration).inputs| <= Budget(iteration)
    decreases Budget(iteration)
  {
    if iteration <= MaxRehashIteration {
      var res := hash(Uint64Bytes(lastHash), 0);
      if res.Success? && res.value in taken {
        RehashBounded(hash, res.value, taken, iteration + 1);
      }
    }
  }

  /** Past the last iteration nothing is hashed and the budget error is returned. */
  lemma RehashExhausted(hash: HashFuncWithSeed, lastHash: uint64, taken: set<uint64>, iteration: int)
    requires iteration > MaxRehashIteration
    ensures Rehash(hash, lastHash, taken, iteration) == RehashRun([], Failure(RehashExceededError))
  {
  }

  /** Each input after the first is the hash of the one before it (8 little-endian
      bytes, seed 0) and was already taken. */
  ghost predicate CollisionChain(hash: HashFuncWithSeed, ins: seq<uint64>, taken: set<uint64>)
    decreases |ins|
  {
    |ins| >= 2 ==>
      hash(Uint64Bytes(ins[0]), 0) == Success(ins[1]) && ins[1] in taken && CollisionChain(hash, ins[1..], taken)
  }

  /** The inputs form a collision chain starting at the caller's value. */
  lemma {:induction false} RehashChain(hash: HashFuncWithSeed, lastHash: uint64, taken: set<uint64>, iteration: int)
    ensures var ins := Rehash(hash, lastHash, taken, iteration).inputs;
      (|ins| > 0 ==> ins[0] == lastHash) && CollisionChain(hash, ins, taken)
    decreases Budget(iteration)
  {
    if iteration <= MaxRehashIteration {
      var res := hash(Uint64Bytes(lastHash), 0);
      if res.Success? && res.value in taken {
        RehashChain(hash, res.value, taken, iteration + 1);
        var rest := Rehash(hash, res.value, taken, iteration + 1).inputs;
        var ins := Rehash(hash, lastHash, taken, iteration).inputs;
        assert ins == [lastHash] + rest && ins[1..] == rest;
      }
    }
  }

  /** On success the new value was not taken, it is the hash of the last input's
      8 little-endian bytes with seed 0, and its key is that input as a signed decimal. */
  lemma {:induction false} RehashSuccess(hash: HashFuncWithSeed, lastHash: uint64, taken: set<uint64>, iteration: int)
    requires Rehash(hash, lastHash, taken, iteration).result.Success?
    ensures var run := Rehash(hash, lastHash, taken, iteration);
      var last := run.inputs[|run.inputs| - 1];
      |run.inputs| > 0
      && run.result.value.0 !in taken
      && hash(Uint64Bytes(last), 0) == Success(run.result.value.0)
      && run.result.value.1 == FormatInt(ToInt64(last))
    decreases Budget(iteration)
  {
    var res := hash(Uint64Bytes(lastHash), 0);
    if res.value in taken {
      RehashSuccess(hash, res.value, taken, iteration + 1);
      var rest := Rehash(hash, res.value, taken, iteration + 1).inputs;
      assert Rehash(hash, lastHash, taken, iteration).inputs == [lastHash] + rest;
    }
  }

  /** A hash function that always maps back onto a taken value exhausts the budget:
      the run fails with the budget error after exactly 6 - k hash calls. */
  lemma {:induction false} RehashAlwaysColliding(hash: HashFuncWithSeed, lastHash: uint64, taken: set<uint64>, iteration: int)
    requires forall x: uint64 :: hash(Uint64Bytes(x), 0).Success? && hash(Uint64Bytes(x), 0).value in taken
    ensures Rehash(hash, lastHash, taken, iteration).result == Failure(RehashExceededError)
    ensures |Rehash(hash, lastHash, taken, iteration).inputs| == Budget(iteration)
    decreases Budget(iteration)
  {
    if iteration <= MaxRehashIteration {
      RehashAlwaysColliding(hash, hash(Uint64Bytes(lastHash), 0).value, taken, iteration + 1);
    }
  }
}
