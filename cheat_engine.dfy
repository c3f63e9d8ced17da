/** The `GdbCheatEngine` scanner of gdb_ce.py: a cursor loop over the memory
    search primitive, the set of its hits, and the stored `last_results`
    that `search_ram` replaces and `search_ram_again` narrows. */
module CheatEngine {
  import opened Wrappers
  import opened InferiorMemory

  // ---------------------------------------------------------------------
  // The scan as a function of the memory snapshot

  /** The addresses the scan yields once its cursor stands at `prev`: the
      next probe looks for `pattern` in `[prev + |pattern|, endAddress + |pattern|)`
      (its length is computed from `prev`, its start is `|pattern|` further
      on) and the hit becomes the new cursor. */
  function ScanFrom(mem: Snapshot, prev: int, endAddress: int, pattern: seq<byte>): seq<int>
    requires |pattern| > 0
    decreases endAddress + |pattern| - prev
  {
    match SearchMemory(mem, prev + |pattern|, endAddress - prev, pattern)
    case None => []
    case Some(hit) => [hit] + ScanFrom(mem, hit, endAddress, pattern)
  }

  /** One turn of the scan loop: a hit is appended and becomes the cursor. */
  lemma ScanFromStep(mem: Snapshot, prev: int, endAddress: int, pattern: seq<byte>, hits: seq<int>, hit: int)
    requires |pattern| > 0
    requires SearchMemory(mem, prev + |pattern|, endAddress - prev, pattern) == Some(hit)
    ensures hits + ScanFrom(mem, prev, endAddress, pattern) ==
            (hits + [hit]) + ScanFrom(mem, hit, endAddress, pattern)
  {
  }

  /** The hits of a whole scan of the region `[ramAddr, ramAddr + ramSize)`. */
  function Scan(mem: Snapshot, ramAddr: int, ramSize: int, pattern: seq<byte>): seq<int>
    requires |pattern| > 0
  {
    ScanFrom(mem, ramAddr, ramAddr + ramSize, pattern)
  }

  /** The hits of a whole scan, as a set. */
  function ScanSet(mem: Snapshot, ramAddr: int, ramSize: int, pattern: seq<byte>): set<int>
    requires |pattern| > 0
  {
    set a | a in Scan(mem, ramAddr, ramSize, pattern)
  }

  /** Where the cursor stands after the scan from `prev` has yielded `hits`. */
  function LastCursor(prev: int, hits: seq<int>): int
  {
    if hits == [] then prev else hits[|hits| - 1]
  }

  /** The cursor from which the scan's final probe is made: the probe from
      it, unlike every probe before, finds nothing. */
  function FinalCursor(mem: Snapshot, prev: int, endAddress: int, pattern: seq<byte>): int
    requires |pattern| > 0
    decreases endAddress + |pattern| - prev
  {
    match SearchMemory(mem, prev + |pattern|, endAddress - prev, pattern)
    case None => prev
    case Some(hit) => FinalCursor(mem, hit, endAddress, pattern)
  }

  /** The final cursor is the last address the scan yields, or `prev` when
      it yields none. */
  lemma {:induction false} FinalCursorIsLastHit(mem: Snapshot, prev: int, endAddress: int, pattern: seq<byte>)
    requires |pattern| > 0
    ensures FinalCursor(mem, prev, endAddress, pattern) == LastCursor(prev, ScanFrom(mem, prev, endAddress, pattern))
    decreases endAddress + |pattern| - prev
  {
    var found := SearchMemory(mem, prev + |pattern|, endAddress - prev, pattern);
    if found.Some? {
      var rest := ScanFrom(mem, found.value, endAddress, pattern);
      FinalCursorIsLastHit(mem, found.value, endAddress, pattern);
      assert ScanFrom(mem, prev, endAddress, pattern) == [found.value] + rest;
      assert LastCursor(prev, [found.value] + rest) == LastCursor(found.value, rest);
    }
  }

  /** A hit moves the cursor without changing where the scan ends. */
  lemma FinalCursorStep(mem: Snapshot, prev: int, endAddress: int, pattern: seq<byte>, hit: int)
    requires |pattern| > 0
    requires SearchMemory(mem, prev + |pattern|, endAddress - prev, pattern) == Some(hit)
    ensures FinalCursor(mem, prev, endAddress, pattern) == FinalCursor(mem, hit, endAddress, pattern)
  {
  }

  // ---------------------------------------------------------------------
  // An independent description of what the scan finds

  /** `a` is the first occurrence of `pattern` at or after `from`, and lies
      no later than `hi`. */
  predicate FirstOccurrence(mem: Snapshot, from: int, hi: int, pattern: seq<byte>, a: int)
  {
    from <= a <= hi && MatchesAt(mem, a, pattern) &&
    forall b :: from <= b < a ==> !MatchesAt(mem, b, pattern)
  }

  /** No occurrence of `pattern` starts in `[from, hi]`. */
  predicate NoOccurrence(mem: Snapshot, from: int, hi: int, pattern: seq<byte>)
  {
    forall b :: from <= b <= hi ==> !MatchesAt(mem, b, pattern)
  }

  /** Where a scan that skips `width` bytes past each hit looks for hit `i`:
      at `lo` for the first, right after the span of hit `i - 1` otherwise. */
  function WindowStart(lo: int, hits: seq<int>, width: int, i: int): int
    requires 0 <= i <= |hits|
  {
    if i == 0 then lo else hits[i - 1] + width
  }

  /** `hits` is the greedy left-to-right scan of `[lo, hi]`: each hit is the
      first occurrence at or after the end of the previous one (at or after
      `lo` for the first), and no occurrence follows the last hit. */
  predicate IsGreedyScan(mem: Snapshot, lo: int, hi: int, pattern: seq<byte>, hits: seq<int>)
  {
    (forall i {:trigger WindowStart(lo, hits, |pattern|, i)} :: 0 <= i < |hits| ==>
      FirstOccurrence(mem, WindowStart(lo, hits, |pattern|, i), hi, pattern, hits[i])) &&
    NoOccurrence(mem, WindowStart(lo, hits, |pattern|, |hits|), hi, pattern)
  }

  lemma WindowStartShift(lo: int, hit: int, rest: seq<int>, width: int, i: int)
    requires 0 <= i <= |rest|
    ensures WindowStart(lo, [hit] + rest, width, i + 1) == WindowStart(hit + width, rest, width, i)
  {
    if i > 0 { assert ([hit] + rest)[i] == rest[i - 1]; }
  }

  /** A first occurrence followed by the greedy scan of what follows its
      span is the greedy scan of the whole range. */
  lemma GreedyScanCons(mem: Snapshot, lo: int, hi: int, pattern: seq<byte>, hit: int, rest: seq<int>)
    requires FirstOccurrence(mem, lo, hi, pattern, hit)
    requires IsGreedyScan(mem, hit + |pattern|, hi, pattern, rest)
    ensures IsGreedyScan(mem, lo, hi, pattern, [hit] + rest)
  {
    var hits := [hit] + rest;
    forall i | 0 <= i < |hits|
      ensures FirstOccurrence(mem, WindowStart(lo, hits, |pattern|, i), hi, pattern, hits[i])
    {
      if i > 0 {
        WindowStartShift(lo, hit, rest, |pattern|, i - 1);
        assert hits[i] == rest[i - 1];
      }
    }
    WindowStartShift(lo, hit, rest, |pattern|, |rest|);
  }

  /** The scan from cursor `prev` is the greedy scan of `[prev + |pattern|, endAddress]`. */
  lemma {:induction false} ScanIsGreedy(mem: Snapshot, prev: int, endAddress: int, pattern: seq<byte>)
    requires |pattern| > 0
    ensures IsGreedyScan(mem, prev + |pattern|, endAddress, pattern, ScanFrom(mem, prev, endAddress, pattern))
    decreases endAddress + |pattern| - prev
  {
    var lo := prev + |pattern|;
    var found := SearchMemory(mem, lo, endAddress - prev, pattern);
    if found.None? {
      assert ScanFrom(mem, prev, endAddress, pattern) == [];
      assert NoOccurrence(mem, lo, endAddress, pattern);
    } else {
      var hit := found.value;
      ScanFromStep(mem, prev, endAddress, pattern, [], hit);
      ScanIsGreedy(mem, hit, endAddress, pattern);
      GreedyScanCons(mem, lo, endAddress, pattern, hit, ScanFrom(mem, hit, endAddress, pattern));
    }
  }

  /** Dropping the first hit of a greedy scan leaves the greedy scan of what
      follows that hit's span. */
  lemma GreedyScanTail(mem: Snapshot, lo: int, hi: int, pattern: seq<byte>, hits: seq<int>)
    requires hits != [] && IsGreedyScan(mem, lo, hi, pattern, hits)
    ensures IsGreedyScan(mem, hits[0] + |pattern|, hi, pattern, hits[1..])
  {
    var tail := hits[1..];
    assert hits == [hits[0]] + tail;
    forall i | 0 <= i < |tail|
      ensures FirstOccurrence(mem, WindowStart(hits[0] + |pattern|, tail, |pattern|, i), hi, pattern, tail[i])
    {
      WindowStartShift(lo, hits[0], tail, |pattern|, i);
      assert tail[i] == hits[i + 1];
    }
    WindowStartShift(lo, hits[0], tail, |pattern|, |tail|);
  }

  /** The first hit of a greedy scan is the first occurrence in the range. */
  lemma GreedyScanHead(mem: Snapshot, lo: int, hi: int, pattern: seq<byte>, hits: seq<int>)
    requires hits != [] && IsGreedyScan(mem, lo, hi, pattern, hits)
    ensures FirstOccurrence(mem, lo, hi, pattern, hits[0])
  {
    assert WindowStart(lo, hits, |pattern|, 0) == lo;
  }

  /** A greedy scan of a range is unique. */
  lemma {:induction false} GreedyScanUnique(mem: Snapshot, lo: int, hi: int, pattern: seq<byte>, h1: seq<int>, h2: seq<int>)
    requires IsGreedyScan(mem, lo, hi, pattern, h1) && IsGreedyScan(mem, lo, hi, pattern, h2)
    ensures h1 == h2
    decreases |h1|
  {
    if h1 != [] && h2 != [] {
      GreedyScanHead(mem, lo, hi, pattern, h1);
      GreedyScanHead(mem, lo, hi, pattern, h2);
      GreedyScanTail(mem, lo, hi, pattern, h1);
      GreedyScanTail(mem, lo, hi, pattern, h2);
      GreedyScanUnique(mem, h1[0] + |pattern|, hi, pattern, h1[1..], h2[1..]);
      assert h1 == [h1[0]] + h1[1..];
      assert h2 == [h2[0]] + h2[1..];
    } else if h1 != [] {
      GreedyScanHead(mem, lo, hi, pattern, h1);
    } else if h2 != [] {
      GreedyScanHead(mem, lo, hi, pattern, h2);
    }
  }

  /** The scan of a region is exactly the greedy scan of `[ramAddr + |pattern|, ramAddr + ramSize]`. */
  lemma ScanCharacterized(mem: Snapshot, ramAddr: int, ramSize: int, pattern: seq<byte>, hits: seq<int>)
    requires |pattern| > 0
    ensures Scan(mem, ramAddr, ramSize, pattern) == hits <==>
            IsGreedyScan(mem, ramAddr + |pattern|, ramAddr + ramSize, pattern, hits)
  {
    ScanIsGreedy(mem, ramAddr, ramAddr + ramSize, pattern);
    if IsGreedyScan(mem, ramAddr + |pattern|, ramAddr + ramSize, pattern, hits) {
      GreedyScanUnique(mem, ramAddr + |pattern|, ramAddr + ramSize, pattern,
                       hits, Scan(mem, ramAddr, ramSize, pattern));
    }
  }

  /** Succeeding hits of a greedy scan are at least `|pattern|` apart. */
  lemma {:induction false} GreedyScanSpaced(mem: Snapshot, lo: int, hi: int, pattern: seq<byte>, hits: seq<int>, i: int, j: int)
    requires IsGreedyScan(mem, lo, hi, pattern, hits)
    requires 0 <= i < j < |hits|
    ensures hits[i] + |pattern| <= hits[j]
    decreases j - i
  {
    assert FirstOccurrence(mem, WindowStart(lo, hits, |pattern|, j), hi, pattern, hits[j]);
    if i < j - 1 {
      GreedyScanSpaced(mem, lo, hi, pattern, hits, i, j - 1);
    }
  }

  /** What a greedy scan promises about its hits: each is a genuine
      occurrence in `[lo, hi]`, and they increase by at least `|pattern|`. */
  lemma GreedyScanSound(mem: Snapshot, lo: int, hi: int, pattern: seq<byte>, hits: seq<int>)
    requires IsGreedyScan(mem, lo, hi, pattern, hits)
    ensures forall i :: 0 <= i < |hits| ==> lo <= hits[i] <= hi && MatchesAt(mem, hits[i], pattern)
    ensures forall i, j :: 0 <= i < j < |hits| ==> hits[i] + |pattern| <= hits[j]
  {
    forall i, j | 0 <= i < j < |hits|
      ensures hits[i] + |pattern| <= hits[j]
    {
      GreedyScanSpaced(mem, lo, hi, pattern, hits, i, j);
    }
    forall i | 0 <= i < |hits|
      ensures lo <= hits[i] <= hi && MatchesAt(mem, hits[i], pattern)
    {
      assert FirstOccurrence(mem, WindowStart(lo, hits, |pattern|, i), hi, pattern, hits[i]);
      if i > 0 {
        GreedyScanHead(mem, lo, hi, pattern, hits);
        GreedyScanSpaced(mem, lo, hi, pattern, hits, 0, i);
      }
    }
  }

  /** What a greedy scan promises about the occurrences: each one in
      `[lo, hi]` is a hit or starts inside the span of one. */
  lemma {:induction false} GreedyScanCovers(mem: Snapshot, lo: int, hi: int, pattern: seq<byte>, hits: seq<int>, a: int)
    requires IsGreedyScan(mem, lo, hi, pattern, hits)
    requires lo <= a <= hi && MatchesAt(mem, a, pattern)
    ensures exists i :: 0 <= i < |hits| && hits[i] <= a < hits[i] + |pattern|
    decreases |hits|
  {
    if hits != [] {
      GreedyScanHead(mem, lo, hi, pattern, hits);
      if a < hits[0] + |pattern| {
        assert hits[0] <= a < hits[0] + |pattern|;
      } else {
        var tail := hits[1..];
        GreedyScanTail(mem, lo, hi, pattern, hits);
        GreedyScanCovers(mem, hits[0] + |pattern|, hi, pattern, tail, a);
        var k :| 0 <= k < |tail| && tail[k] <= a < tail[k] + |pattern|;
        assert hits[k + 1] == tail[k];
      }
    }
  }

  /** No occurrence in the scanned range is missed unless it starts inside
      the span of a reported address. */
  lemma ScanCovers(mem: Snapshot, ramAddr: int, ramSize: int, pattern: seq<byte>, a: int)
    requires |pattern| > 0
    requires ramAddr + |pattern| <= a <= ramAddr + ramSize && MatchesAt(mem, a, pattern)
    ensures exists h :: h in ScanSet(mem, ramAddr, ramSize, pattern) && h <= a < h + |pattern|
  {
    var hits := Scan(mem, ramAddr, ramSize, pattern);
    ScanIsGreedy(mem, ramAddr, ramAddr + ramSize, pattern);
    GreedyScanCovers(mem, ramAddr + |pattern|, ramAddr + ramSize, pattern, hits, a);
    var k :| 0 <= k < |hits| && hits[k] <= a < hits[k] + |pattern|;
    assert hits[k] in ScanSet(mem, ramAddr, ramSize, pattern);
  }

  /** The scan ends exactly when the search primitive, asked from the last
      cursor, reports no match. */
  lemma {:induction false} ScanStopsOnNoMatch(mem: Snapshot, prev: int, endAddress: int, pattern: seq<byte>)
    requires |pattern| > 0
    ensures var last := LastCursor(prev, ScanFrom(mem, prev, endAddress, pattern));
            SearchMemory(mem, last + |pattern|, endAddress - last, pattern) == None
    decreases endAddress + |pattern| - prev
  {
    var found := SearchMemory(mem, prev + |pattern|, endAddress - prev, pattern);
    if found.Some? {
      var rest := ScanFrom(mem, found.value, endAddress, pattern);
      ScanFromStep(mem, prev, endAddress, pattern, [], found.value);
      ScanStopsOnNoMatch(mem, found.value, endAddress, pattern);
      assert LastCursor(prev, [found.value] + rest) == LastCursor(found.value, rest);
    }
  }

  /** Each hit consumes at least `|pattern|` bytes of `(prev, endAddress]`,
      which bounds how often the loop can go round. */
  lemma {:induction false} ScanFromBound(mem: Snapshot, prev: int, endAddress: int, pattern: seq<byte>)
    requires |pattern| > 0
    ensures |ScanFrom(mem, prev, endAddress, pattern)| * |pattern| <= if prev <= endAddress then endAddress - prev else 0
    decreases endAddress + |pattern| - prev
  {
    var found := SearchMemory(mem, prev + |pattern|, endAddress - prev, pattern);
    if found.Some? {
      var rest := ScanFrom(mem, found.value, endAddress, pattern);
      ScanFromStep(mem, prev, endAddress, pattern, [], found.value);
      ScanFromBound(mem, found.value, endAddress, pattern);
      assert (1 + |rest|) * |pattern| == |pattern| + |rest| * |pattern|;
    }
  }

  /** A scan of a region of `ramSize` bytes reports at most `ramSize / |pattern|`
      addresses: together they account for no more than `ramSize` bytes. */
  lemma ScanCountBound(mem: Snapshot, ramAddr: int, ramSize: nat, pattern: seq<byte>)
    requires |pattern| > 0
    ensures |Scan(mem, ramAddr, ramSize, pattern)| * |pattern| <= ramSize
  {
    ScanFromBound(mem, ramAddr, ramAddr + ramSize, pattern);
  }

  /** A pattern longer than the region is never found: the first probe
      already lies past every candidate. That probe is also the last, so GDB
      refuses it exactly when the region is empty or negative. */
  lemma ScanOfShortRegionIsEmpty(mem: Snapshot, ramAddr: int, ramSize: int, pattern: seq<byte>)
    requires |pattern| > 0 && ramSize < |pattern|
    ensures Scan(mem, ramAddr, ramSize, pattern) == []
    ensures RangeRejected(mem, ramAddr, ramSize, pattern) <==> ramSize <= 0
  {
  }

  // ---------------------------------------------------------------------
  // GDB's refusal of an empty search range

  /** The length `end_address - result_addr` of the scan's final probe, the
      one that ends the loop: the cursor then stands at the last hit, or at
      `ramAddr` when there is none. */
  function FinalProbeLength(mem: Snapshot, ramAddr: int, ramSize: int, pattern: seq<byte>): int
    requires |pattern| > 0
  {
    ramAddr + ramSize - FinalCursor(mem, ramAddr, ramAddr + ramSize, pattern)
  }

  /** GDB's `search_memory` refuses the final probe, so the scan raises
      instead of returning its hits. Every earlier probe was followed by a
      hit, so it had a positive length and was accepted. */
  predicate RangeRejected(mem: Snapshot, ramAddr: int, ramSize: int, pattern: seq<byte>)
    requires |pattern| > 0
  {
    FinalProbeLength(mem, ramAddr, ramSize, pattern) <= 0
  }

  /** What `__search_ram_iter` amounts to once its generator is consumed:
      the hits of the scan, or GDB's error when it refuses the final probe. */
  function ScanOutcome(mem: Snapshot, ramAddr: int, ramSize: int, pattern: seq<byte>): Result<seq<int>, EngineError>
    requires |pattern| > 0
  {
    if RangeRejected(mem, ramAddr, ramSize, pattern) then Failure(EmptySearchRange)
    else Success(Scan(mem, ramAddr, ramSize, pattern))
  }

  /** A successful scan outcome is the greedy scan of the region. */
  lemma ScanOutcomeIsGreedy(mem: Snapshot, ramAddr: int, ramSize: int, pattern: seq<byte>)
    requires |pattern| > 0
    ensures ScanOutcome(mem, ramAddr, ramSize, pattern).Success? ==>
      IsGreedyScan(mem, ramAddr + |pattern|, ramAddr + ramSize, pattern, ScanOutcome(mem, ramAddr, ramSize, pattern).value)
  {
    ScanIsGreedy(mem, ramAddr, ramAddr + ramSize, pattern);
  }

  /** The scan of the region has yielded `hits` so far and its cursor
      stands at `cursor`: what is still to come is the scan from `cursor`,
      and it ends where the whole scan ends. */
  predicate ScannedUpTo(mem: Snapshot, ramAddr: int, ramSize: int, pattern: seq<byte>, hits: seq<int>, cursor: int)
    requires |pattern| > 0
  {
    hits + ScanFrom(mem, cursor, ramAddr + ramSize, pattern) == Scan(mem, ramAddr, ramSize, pattern) &&
    FinalCursor(mem, cursor, ramAddr + ramSize, pattern) == FinalCursor(mem, ramAddr, ramAddr + ramSize, pattern)
  }

  /** Before the first probe nothing has been yielded. */
  lemma ScannedUpToStart(mem: Snapshot, ramAddr: int, ramSize: int, pattern: seq<byte>)
    requires |pattern| > 0
    ensures ScannedUpTo(mem, ramAddr, ramSize, pattern, [], ramAddr)
  {
  }

  /** A hit from the cursor is the next address yielded, and it moves the
      cursor forward. */
  lemma ScannedUpToStep(mem: Snapshot, ramAddr: int, ramSize: int, pattern: seq<byte>, hits: seq<int>, cursor: int, hit: int)
    requires |pattern| > 0
    requires ScannedUpTo(mem, ramAddr, ramSize, pattern, hits, cursor)
    requires SearchMemory(mem, cursor + |pattern|, ramAddr + ramSize - cursor, pattern) == Some(hit)
    ensures cursor < hit
    ensures ScannedUpTo(mem, ramAddr, ramSize, pattern, hits + [hit], hit)
  {
    var endAddress := ramAddr + ramSize;
    var rest := ScanFrom(mem, hit, endAddress, pattern);
    assert ScanFrom(mem, cursor, endAddress, pattern) == [hit] + rest;
    assert hits + ([hit] + rest) == (hits + [hit]) + rest;
    FinalCursorStep(mem, cursor, endAddress, pattern, hit);
  }

  /** When the probe from `cursor` ends the loop, the hits gathered so far
      are the whole scan and that probe is the final one, so the outcome is
      those hits, or GDB's error when that probe's length is not positive. */
  lemma FinalProbeAt(mem: Snapshot, ramAddr: int, ramSize: int, pattern: seq<byte>, hits: seq<int>, cursor: int)
    requires |pattern| > 0
    requires ScannedUpTo(mem, ramAddr, ramSize, pattern, hits, cursor)
    requires ramAddr + ramSize - cursor <= 0 ||
             SearchMemory(mem, cursor + |pattern|, ramAddr + ramSize - cursor, pattern).None?
    ensures ScanOutcome(mem, ramAddr, ramSize, pattern) ==
            if ramAddr + ramSize - cursor <= 0 then Failure(EmptySearchRange) else Success(hits)
    ensures ramAddr + ramSize - cursor > 0 ==>
            IsGreedyScan(mem, ramAddr + |pattern|, ramAddr + ramSize, pattern, hits)
  {
    ScanOutcomeIsGreedy(mem, ramAddr, ramSize, pattern);
    assert ScanFrom(mem, cursor, ramAddr + ramSize, pattern) == [];
    assert hits + [] == hits;
  }

  /** The scan raises exactly when the region is empty or negative, or when
      the last hit starts at the region's end address. */
  lemma RangeRejectedExactly(mem: Snapshot, ramAddr: int, ramSize: int, pattern: seq<byte>)
    requires |pattern| > 0
    ensures var hits := Scan(mem, ramAddr, ramSize, pattern);
      RangeRejected(mem, ramAddr, ramSize, pattern) <==>
      ramSize <= 0 || (hits != [] && hits[|hits| - 1] == ramAddr + ramSize)
  {
    var hits := Scan(mem, ramAddr, ramSize, pattern);
    FinalCursorIsLastHit(mem, ramAddr, ramAddr + ramSize, pattern);
    if hits != [] {
      ScanIsGreedy(mem, ramAddr, ramAddr + ramSize, pattern);
      GreedyScanSound(mem, ramAddr + |pattern|, ramAddr + ramSize, pattern, hits);
      assert ramAddr + |pattern| <= hits[0] <= ramAddr + ramSize;
      assert hits[|hits| - 1] <= ramAddr + ramSize;
    }
  }

  /** When the scan does not raise, every address it yields lies inside the
      region, at least `|pattern|` past its start: a hit at the region's end
      address would have made the final probe's range empty. */
  lemma ScanOutcomeInsideRegion(mem: Snapshot, ramAddr: int, ramSize: int, pattern: seq<byte>)
    requires |pattern| > 0
    ensures ScanOutcome(mem, ramAddr, ramSize, pattern).Success? ==>
      forall a :: a in ScanOutcome(mem, ramAddr, ramSize, pattern).value ==>
        ramAddr + |pattern| <= a < ramAddr + ramSize
  {
    var hits := Scan(mem, ramAddr, ramSize, pattern);
    if !RangeRejected(mem, ramAddr, ramSize, pattern) && hits != [] {
      RangeRejectedExactly(mem, ramAddr, ramSize, pattern);
      ScanIsGreedy(mem, ramAddr, ramAddr + ramSize, pattern);
      GreedyScanSound(mem, ramAddr + |pattern|, ramAddr + ramSize, pattern, hits);
      forall i | 0 <= i < |hits|
        ensures ramAddr + |pattern| <= hits[i] < ramAddr + ramSize
      {
        assert hits[|hits| - 1] < ramAddr + ramSize;
      }
    }
  }

  /** With an empty pattern the cursor never moves: once the search has
      returned `hit`, the next probe starts at `hit` and returns it again,
      so the scan yields `hit` forever. */
  lemma EmptyPatternStalls(mem: Snapshot, prev: int, endAddress: int, hit: int)
    requires SearchMemory(mem, prev, endAddress - prev, []) == Some(hit)
    ensures hit <= endAddress
    ensures SearchMemory(mem, hit, endAddress - hit, []) == Some(hit)
  {
    assert MatchesAt(mem, hit, []);
  }

  // ---------------------------------------------------------------------
  // The scanner object

  /** `GdbCheatEngine.search_ram_again` before any `search_ram`: Python raises
      AttributeError because `last_results` was never assigned.
      `EmptySearchRange`: a probe of the scan asked GDB's `search_memory` for
      a range of length zero or less, which GDB refuses with a Python
      exception instead of searching. */
  datatype EngineError = NoPreviousSearch | EmptySearchRange

  class GdbCheatEngine {
    const ramAddr: int
    const ramSize: int
    /** None until the first `SearchRam`: the attribute does not exist yet. */
    var lastResults: Option<set<int>>

    /** Every stored candidate lies in `(ramAddr, ramAddr + ramSize]`: the
        first probe starts past `ramAddr`, and a scan that yields the region's
        end address raises instead of returning. */
    ghost predicate Valid()
      reads this
    {
      lastResults.Some? ==> forall a :: a in lastResults.value ==> ramAddr < a < ramAddr + ramSize
    }

    constructor (ramAddr: int, ramSize: int)
      ensures Valid()
      ensures this.ramAddr == ramAddr && this.ramSize == ramSize
      ensures lastResults == None
    {
      this.ramAddr := ramAddr;
      this.ramSize := ramSize;
      lastResults := None;
    }

    /** `__search_ram_iter`: the addresses yielded, in order, or the error
        GDB raises when the final probe asks for an empty range. Its callers
        consume the whole generator, so that error replaces every hit. */
    method SearchRamIter(mem: Snapshot, pattern: seq<byte>) returns (r: Result<seq<int>, EngineError>)
      requires |pattern| > 0
      ensures r == ScanOutcome(mem, ramAddr, ramSize, pattern)
      ensures r.Success? ==> IsGreedyScan(mem, ramAddr + |pattern|, ramAddr + ramSize, pattern, r.value)
    {
      var endAddress := ramAddr + ramSize;
      var resultAddr := ramAddr;
      var hits := [];
      ScannedUpToStart(mem, ramAddr, ramSize, pattern);
      while true
        invariant ScannedUpTo(mem, ramAddr, ramSize, pattern, hits, resultAddr)
        decreases endAddress + |pattern| - resultAddr
      {
        var remainingLength := endAddress - resultAddr;
        // GDB's `search_memory` refuses a range of length zero or less.
        if remainingLength <= 0 {
          FinalProbeAt(mem, ramAddr, ramSize, pattern, hits, resultAddr);
          return Failure(EmptySearchRange);
        }
        var found := SearchMemory(mem, resultAddr + |pattern|, remainingLength, pattern);
        if found.None? {
          FinalProbeAt(mem, ramAddr, ramSize, pattern, hits, resultAddr);
          return Success(hits);
        }
        ScannedUpToStep(mem, ramAddr, ramSize, pattern, hits, resultAddr, found.value);
        resultAddr := found.value;
        hits := hits + [resultAddr];
      }
    }

    /** `__search_ram`: the set of the addresses the scan yields. */
    method SearchRamSet(mem: Snapshot, pattern: seq<byte>) returns (r: Result<set<int>, EngineError>)
      requires |pattern| > 0
      ensures r.Failure? <==> RangeRejected(mem, ramAddr, ramSize, pattern)
      ensures r.Failure? ==> r.error == EmptySearchRange
      ensures r.Success? ==> r.value == ScanSet(mem, ramAddr, ramSize, pattern)
      ensures r.Success? ==> forall a :: a in r.value ==>
        ramAddr + |pattern| <= a < ramAddr + ramSize && MatchesAt(mem, a, pattern)
    {
      var scanned := SearchRamIter(mem, pattern);
      if scanned.Failure? {
        return Failure(scanned.error);
      }
      var hits := scanned.value;
      r := Success(set a | a in hits);
      GreedyScanSound(mem, ramAddr + |pattern|, ramAddr + ramSize, pattern, hits);
      ScanOutcomeInsideRegion(mem, ramAddr, ramSize, pattern);
    }

    /** `search_ram`: replace the stored candidates with a fresh scan and
        return it; when the scan raises, nothing is stored. */
    method SearchRam(mem: Snapshot, pattern: seq<byte>) returns (r: Result<set<int>, EngineError>)
      requires Valid() && |pattern| > 0
      modifies this`lastResults
      ensures Valid()
      ensures r.Failure? <==> RangeRejected(mem, ramAddr, ramSize, pattern)
      ensures r.Failure? ==> r.error == EmptySearchRange && lastResults == old(lastResults)
      ensures r.Success? ==> r.value == ScanSet(mem, ramAddr, ramSize, pattern) && lastResults == Some(r.value)
    {
      r := SearchRamSet(mem, pattern);
      if r.Success? {
        lastResults := Some(r.value);
      }
    }

    /** `search_ram_again`: intersect a fresh scan with the stored candidates,
        store the intersection and return it. The scan comes first, so its
        error wins; without stored candidates the call fails. */
    method SearchRamAgain(mem: Snapshot, pattern: seq<byte>) returns (r: Result<set<int>, EngineError>)
      requires Valid() && |pattern| > 0
      modifies this`lastResults
      ensures Valid()
      ensures RangeRejected(mem, ramAddr, ramSize, pattern) ==>
        r == Failure(EmptySearchRange) && lastResults == old(lastResults)
      ensures !RangeRejected(mem, ramAddr, ramSize, pattern) && old(lastResults).None? ==>
        r == Failure(NoPreviousSearch) && lastResults == None
      ensures !RangeRejected(mem, ramAddr, ramSize, pattern) && old(lastResults).Some? ==>
        r == Success(old(lastResults).value * ScanSet(mem, ramAddr, ramSize, pattern)) &&
        lastResults == Some(r.value)
      ensures r.Success? ==>
        r.value <= old(lastResults).value && r.value <= ScanSet(mem, ramAddr, ramSize, pattern)
    {
      var newResults := SearchRamSet(mem, pattern);
      if newResults.Failure? {
        return Failure(newResults.error);
      }
      if lastResults.None? {
        return Failure(NoPreviousSearch);
      }
      lastResults := Some(lastResults.value * newResults.value);
      r := Success(lastResults.value);
    }
  }
}
