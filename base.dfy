/** The process-wide registry of seeded hash functions, by algorithm name. */
module Base {
  import opened RingTypes

  /** What registration did: added the function, or panicked on a duplicate name. */
  datatype Registration = Registered | Panicked(message: string)

  /** The panic message of a duplicate registration. The source passes a format
      string to panic without formatting it, so the name is never filled in. */
  const DuplicateNamePanic: string := "hash function %s has already existed"

  /** `fmt.Errorf("hashFunc %s not found", name)`. */
  function NotFoundError(name: string): (msg: string)
    ensures |msg| == |name| + 19
    ensures msg[9..9 + |name|] == name
  {
    "hashFunc " + name + " not found"
  }

  /** `hashFuncMap` and the two functions over it. */
  class HashFuncRegistry {
    var hashFuncs: map<string, HashFuncWithSeed>

    /** `hashFuncMap = make(map[string]HashFuncWithSeed)`. */
    constructor ()
      ensures hashFuncs == map[]
    {
      hashFuncs := map[];
    }

    /** `RegisterHashFunc`: insert if absent; a name already present panics and
        nothing is stored. */
    method RegisterHashFunc(name: string, hashFunc: HashFuncWithSeed) returns (outcome: Registration)
      modifies this
      ensures name in old(hashFuncs) ==> outcome == Panicked(DuplicateNamePanic) && hashFuncs == old(hashFuncs)
      ensures name !in old(hashFuncs) ==> outcome == Registered && hashFuncs == old(hashFuncs)[name := hashFunc]
    {
      if name in hashFuncs {
        return Panicked(DuplicateNamePanic);
      }
      hashFuncs := hashFuncs[name := hashFunc];
      return Registered;
    }

    /** `GetHashFunc`: the registered function, or a not-found error. It has no
        modifies clause, so it leaves the registry as it was. */
    method GetHashFunc(name: string) returns (r: Result<HashFuncWithSeed>)
      ensures r.Success? <==> name in hashFuncs
      ensures name in hashFuncs ==> r.value == hashFuncs[name]
      ensures name !in hashFuncs ==> r.error == NotFoundError(name)
    {
      if name !in hashFuncs {
        return Failure(NotFoundError(name));
      }
      return Success(hashFuncs[name]);
    }
  }

  /** Registering a fresh name and then looking it up yields the function just
      registered; every other name resolves as before. */
  method RegisterThenGet(registry: HashFuncRegistry, name: string, hashFunc: HashFuncWithSeed, other: string)
    returns (r: Result<HashFuncWithSeed>, s: Result<HashFuncWithSeed>)
    requires name !in registry.hashFuncs && other != name
    modifies registry
    ensures r == Success(hashFunc)
    ensures other in old(registry.hashFuncs) ==> s == Success(old(registry.hashFuncs)[other])
    ensures other !in old(registry.hashFuncs) ==> s == Failure(NotFoundError(other))
  {
    var outcome := registry.RegisterHashFunc(name, hashFunc);
    r := registry.GetHashFunc(name);
    s := registry.GetHashFunc(other);
  }
}
