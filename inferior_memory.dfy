/** The debugged process ("inferior") as seen by the scanner: a snapshot of
    its memory and GDB's `Inferior.search_memory` primitive over it. */
module InferiorMemory {
  import opened Wrappers

  newtype byte = x: int | 0 <= x < 256

  /** A snapshot of the inferior's memory: `bytes[k]` is the byte stored at
      address `base + k`. Addresses outside `[base, base + |bytes|)` are not
      readable in the snapshot. */
  datatype Snapshot = Snapshot(base: int, bytes: seq<byte>)

  /** The bytes at `[a, a + |pattern|)` are readable and equal `pattern`. */
  predicate MatchesAt(mem: Snapshot, a: int, pattern: seq<byte>)
  {
    mem.base <= a && a - mem.base + |pattern| <= |mem.bytes| &&
    mem.bytes[a - mem.base .. a - mem.base + |pattern|] == pattern
  }

  /** Byte `j` of a match is byte `j` of the pattern. */
  lemma MatchesAtByte(mem: Snapshot, a: int, pattern: seq<byte>, j: int)
    requires MatchesAt(mem, a, pattern) && 0 <= j < |pattern|
    ensures mem.bytes[a - mem.base + j] == pattern[j]
  {
    assert mem.bytes[a - mem.base .. a - mem.base + |pattern|][j] == pattern[j];
  }

  /** `Inferior.search_memory(start, length, pattern)`: the least address `a`
      with `start <= a` and `a + |pattern| <= start + length` at which the
      pattern occurs, or None when the window holds no occurrence. */
  function SearchMemory(mem: Snapshot, start: int, length: int, pattern: seq<byte>): (r: Option<int>)
    ensures r.Some? ==> start <= r.value && r.value + |pattern| <= start + length
    ensures r.Some? ==> MatchesAt(mem, r.value, pattern)
    ensures r.Some? ==> forall a :: start <= a < r.value ==> !MatchesAt(mem, a, pattern)
    ensures r.None? ==>
      forall a :: start <= a && a + |pattern| <= start + length ==> !MatchesAt(mem, a, pattern)
    decreases length - |pattern| + 1
  {
    if length < |pattern| then None
    else if MatchesAt(mem, start, pattern) then Some(start)
    else SearchMemory(mem, start + 1, length - 1, pattern)
  }
}
