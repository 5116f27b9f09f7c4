/** Value types shared by the ring-hash load balancer model: machine integers,
    optional values, Go-style error results, hash functions and instances. */
module RingTypes {

  const TwoTo64: int := 0x1_0000_0000_0000_0000

  /** Go's uint64, uint32 and byte. */
  type uint64 = x: int | 0 <= x < 0x1_0000_0000_0000_0000
  type uint32 = x: int | 0 <= x < 0x1_0000_0000
  type byte = x: int | 0 <= x < 256

  datatype Option<+T> = None | Some(value: T)

  /** A Go `(value, error)` pair: either a value, or the error's message. */
  datatype Result<+T> = Success(value: T) | Failure(error: string)

  /** `HashFuncWithSeed func([]byte, uint32) (uint64, error)`: a seeded 64-bit hash.
      Concrete algorithms are outside the model; any total function of this
      shape may be plugged in. */
  type HashFuncWithSeed = (seq<byte>, uint32) -> Result<uint64>

  /** Identity of a service: namespace and name. */
  datatype ServiceKey = ServiceKey(namespace: string, service: string)

  /** Identity of one instance of a service. */
  datatype InstanceKey = InstanceKey(serviceKey: ServiceKey, host: string, port: int)

  /** What the core reads of an instance: its key and its weight. */
  datatype Instance = Instance(key: InstanceKey, weight: int)
}
