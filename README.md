# GdbCheatEngine scanner, modelled in Dafny

`GdbCheatEngine` (gdb_ce.py) helps find a game variable, such as a health
counter, in a running process under GDB. `search_ram(pattern)` records the
set of addresses in a RAM region `[ram_addr, ram_addr + ram_size)` where a
byte pattern occurs. After the program has run a little,
`search_ram_again(pattern)` scans again and keeps only the addresses that
match both times. All memory access goes through GDB's
`Inferior.search_memory`.

The model has four modules:

- `Wrappers` (wrappers.dfy): `Option` and `Result`.
- `InferiorMemory` (inferior_memory.dfy): a memory `Snapshot` (base address
  plus bytes), `MatchesAt`, and `SearchMemory`. `SearchMemory` models
  `Inferior.search_memory` with the contract from GDB's Python API
  documentation: it returns the least address `a` with `start <= a`,
  `a + |pattern| <= start + length` and the pattern stored at `a`, or
  `None` if there is no such address.
- `CheatEngine` (cheat_engine.dfy):
  - `ScanFrom` / `Scan`: the cursor loop of `__search_ram_iter`, as a
    function of a snapshot. It is the specification of the loop method.
  - `IsGreedyScan`: a separate description of the same result. Each hit is
    the first occurrence at or after the end of the previous hit, and no
    occurrence follows the last hit. It does not mention the search
    primitive.
  - Lemmas connecting the two.
  - `RangeRejected` / `ScanOutcome`: whether GDB refuses the scan's final
    probe because its range is empty, and the scan's result once that
    refusal is taken into account.
  - The class `GdbCheatEngine`. Its field `lastResults` is `None` until the
    first `SearchRam`. Its methods follow the Python ones.
- `Scenarios` (scenarios.dfy): the health-points session from the class's
  usage notes, the behaviour at the edges of the region, and a repeated
  scan on unchanged memory.

Memory is an explicit parameter of every scan: the caller passes the
snapshot the scan sees. Between two calls the debugged process may have
run; the caller models that by passing a different snapshot.

## Behaviour at the region edges

The docstring of `__search_ram_iter` (gdb_ce.py:64-66) says that every
address where the pattern occurs in the RAM region is yielded. The code
does something else, and the model keeps what the code does:

- The first probe starts at `ram_addr + len(pattern)` (gdb_ce.py:69,72). An
  occurrence starting in `[ram_addr, ram_addr + len(pattern))` is never
  yielded.
- Each window has length `end_address - prev` but starts at
  `prev + len(pattern)` (gdb_ce.py:71-72). So it ends `len(pattern)` bytes
  after the region. Under the search contract, occurrences starting
  anywhere up to `ram_addr + ram_size` are yielded. That includes one that
  starts exactly at the region's end and lies wholly outside it.
- After each hit the cursor skips `len(pattern)` bytes. Overlapping
  occurrences are therefore not all yielded.
- GDB's `search_memory` raises a Python exception when it is asked for a
  range of length zero or less. The final probe of a scan has length
  `end_address - prev`. That length is zero or less exactly when the region
  is empty or negative, or when the last hit starts at `ram_addr + ram_size`.
  In those cases `search_ram` and `search_ram_again` raise and return no
  set. The model returns `Failure(EmptySearchRange)` there.

`RegionEdgesScan` shows the first two points on a concrete six-byte memory.
`RegionEdgesScanRaises` shows that the same scan then raises.
`ScanCharacterized` states the first three points in general, and
`RangeRejectedExactly` states the fourth. Together they mean that a scan
that does return a set returns only addresses inside the region
(`ScanOutcomeInsideRegion`).

## Model

| member | source | states |
|---|---|---|
| `InferiorMemory.SearchMemory` | gdb_ce.py:72 | The search result is the least address in `[start, start + length - len(pattern)]` where the pattern occurs. None means no address in that window holds the pattern. |
| `CheatEngine.ScanIsGreedy` | gdb_ce.py:68-76 | From cursor `prev`, the scan's result is the greedy scan of `[prev + len(pattern), end_address]`. Each hit is the first occurrence at or after the previous hit plus `len(pattern)`. No occurrence follows the last hit. |
| `CheatEngine.GreedyScanUnique` | gdb_ce.py:70-76 | At most one hit sequence is a greedy scan of a given range. The scan's result is therefore fully determined by the memory. |
| `CheatEngine.ScanCharacterized` | gdb_ce.py:68-76 | A sequence is the scan of region `(ram_addr, ram_size)` exactly when it is the greedy scan of `[ram_addr + len(pattern), ram_addr + ram_size]`. Both directions are proved. |
| `CheatEngine.GreedyScanSound` | gdb_ce.py:69-76 | Every hit is a genuine occurrence and lies in `[ram_addr + len(pattern), ram_addr + ram_size]`. Any two hits are at least `len(pattern)` apart, so hits strictly increase. |
| `CheatEngine.GreedyScanCovers` | gdb_ce.py:71-76 | Every occurrence in the scanned range is a hit or starts inside the span of a hit. |
| `CheatEngine.ScanCovers` | gdb_ce.py:71-81 | Every occurrence starting in `[ram_addr + len(pattern), ram_addr + ram_size]` is in the scan's set or starts inside the span of a member of it. |
| `CheatEngine.ScanStopsOnNoMatch` | gdb_ce.py:72-74 | The scan ends where the search primitive, asked from the last cursor, returns None. |
| `CheatEngine.ScannedUpToStep` | gdb_ce.py:71-76 | A hit from the cursor is the next address yielded. It lies past the cursor, and the scan still ends where it would have ended. |
| `CheatEngine.ScanFromBound` | gdb_ce.py:70-76 | From cursor `prev`, the number of hits times `len(pattern)` is at most `end_address - prev` (zero if negative). Each turn of the loop consumes `len(pattern)` bytes, so the loop terminates. |
| `CheatEngine.ScanCountBound` | gdb_ce.py:68-76 | For a region of `ram_size >= 0` bytes, the number of hits times `len(pattern)` is at most `ram_size`. |
| `CheatEngine.ScanOfShortRegionIsEmpty` | gdb_ce.py:68-74 | If the pattern is longer than the region, the search finds nothing. GDB then rejects that single probe exactly when `ram_size <= 0`. So for `0 < ram_size < len(pattern)` the scan ends without error and yields nothing. |
| `CheatEngine.RangeRejectedExactly` | gdb_ce.py:68-72 | The final probe asks for a range of length zero or less exactly when `ram_size <= 0` or the last hit starts at `ram_addr + ram_size`. |
| `CheatEngine.ScanOutcomeInsideRegion` | gdb_ce.py:68-81 | When the scan does not raise, every address it returns lies in `[ram_addr + len(pattern), ram_addr + ram_size)`, inside the region. |
| `CheatEngine.ScanOutcomeIsGreedy` | gdb_ce.py:68-76 | When the scan does not raise, its hits are the greedy scan of the region. |
| `CheatEngine.EmptyPatternStalls` | gdb_ce.py:72 | With an empty pattern the next probe starts at the last hit and returns it again. The cursor never advances. |
| `CheatEngine.GdbCheatEngine.constructor` | gdb_ce.py:57-60 | Stores the region and leaves `lastResults` unset (None). |
| `CheatEngine.GdbCheatEngine.SearchRamIter` | gdb_ce.py:63-76 | The loop yields exactly the scan's hits, in order, and they form the greedy scan of the region. When the final probe's range is empty it fails with `EmptySearchRange`. |
| `CheatEngine.GdbCheatEngine.SearchRamSet` | gdb_ce.py:79-81 | Fails exactly when the scan raises. Otherwise returns the set of the addresses the loop yields, each in `[ram_addr + len(pattern), ram_addr + ram_size)` and holding the pattern. |
| `CheatEngine.GdbCheatEngine.SearchRam` | gdb_ce.py:84-90 | Overwrites `lastResults` with the fresh scan set and returns that set. When the scan raises, nothing is stored. Keeps the invariant that candidates lie in `(ram_addr, ram_addr + ram_size)`. |
| `CheatEngine.GdbCheatEngine.SearchRamAgain` | gdb_ce.py:93-100 | The scan runs first, so its error wins. If nothing is stored, fails with `NoPreviousSearch` and changes nothing. Otherwise stores and returns `old lastResults ∩ fresh scan`, which is a subset of both. |
| `Scenarios.TwoCountersScan` | gdb_ce.py:34-39 | On 16 bytes of RAM holding `00 64` at offsets 4 and 10, the scan for 100 HP returns both offsets, in order. |
| `Scenarios.HpReducedScan` | gdb_ce.py:41-45 | After the first counter drops to `00 60`, the scan for 96 HP returns only offset 4. |
| `Scenarios.HealthPointsSession` | gdb_ce.py:32-47 | Runs the session from the usage notes. `search_ram` gives `{base+4, base+10}`. `search_ram_again` gives `{base+4}`. A refinement on a fresh scanner fails. |
| `Scenarios.RegionEdgesScan` | gdb_ce.py:68-72 | Under the search contract, a scan of `[0, 4)` misses the occurrence at address 0 and yields the one at address 4, which lies past the region. |
| `Scenarios.RegionEdgesScanRaises` | gdb_ce.py:71-72 | That hit at the region's end leaves a final probe of length zero, so the same scan raises. |
| `Scenarios.EmptyRegionRaises` | gdb_ce.py:68-72 | A region of zero bytes makes the first probe's range empty, so the scan raises. |
| `Scenarios.RescanIsStable` | gdb_ce.py:81-100 | On unchanged memory, two `search_ram` calls and a `search_ram_again` with the same pattern give the same outcome. On success that is the scan's set, and it stays stored. When the scan raises, nothing is stored. |

## Left out

- `write_memory` and `read_memory` (gdb_ce.py:102-106): one-line calls into GDB with no logic of their own. `read_memory` also discards the value it reads.
- The `gdb.Inferior` handle: the constructor does not take it. Each scan takes the memory snapshot it searches instead, and a process that keeps running is a new snapshot for the next call.
- Memory GDB cannot read: in a snapshot, addresses outside `[base, base + |bytes|)` simply never match. GDB would report an error and stop the search, and that error path is not modelled.
- GDB's other argument checks in `search_memory`, such as negative start addresses and ranges that overflow 64 bits: addresses are unbounded integers. Only the refusal of a range of length zero or less is modelled.
- `SearchMemory`: states the search contract and nothing else. GDB's refusal of an empty range is modelled by the scan (`ScanOutcome`, `SearchRamIter`), where the probe is made.
- `RegionEdgesScan`: states what the search contract yields. The real scan then raises, as `RegionEdgesScanRaises` shows.
- An empty pattern: with `ram_size > 0` the source loops forever, yielding the same address; with `ram_size <= 0` the first probe raises. The scan functions and methods require a non-empty pattern. `EmptyPatternStalls` shows why the loop cannot advance.
- Python generator laziness: `__search_ram_iter` is modelled as a loop that builds the whole sequence of hits. Its callers consume the whole generator, so an exception at the final probe discards every hit. The model returns the error in place of the hits.
- Object identity of the returned set: Python returns the very set object it stores in `last_results`, so a caller that mutated it would also change the stored candidates. The model returns set values.
- Patterns as Python 2 strings: modelled as byte sequences.
