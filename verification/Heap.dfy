/** Heap blocks by the calls made on them. */
module Heap {

  /** A heap block: how often it was allocated and freed. */
  datatype Mem = Mem(allocs: nat, frees: nat)

  const UNBORN := Mem(0, 0)
  const LIVE := Mem(1, 0)
  const FREED := Mem(1, 1)

  predicate IsLive(m: Mem) { m.allocs == m.frees + 1 }

  function Allocate(m: Mem): Mem { m.(allocs := m.allocs + 1) }

  function Free(m: Mem): Mem { m.(frees := m.frees + 1) }
}
