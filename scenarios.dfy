/** Concrete sessions with the scanner: the health-points search of the
    usage notes, the edges of the scanned region, and a repeated scan. */
module Scenarios {
  import opened Wrappers
  import opened InferiorMemory
  import opened CheatEngine

  const RamAddr: int := 0x0200_0000

  /** 100 health points as an unsigned 16-bit big-endian counter. */
  const Hp100: seq<byte> := [0x00, 0x64]

  /** Sixteen bytes of RAM, zero except for the counter value at offsets 4 and 10. */
  function TwoCounters(): Snapshot
  {
    Snapshot(RamAddr, seq(16, k => if k == 5 || k == 11 then 0x64 as byte else 0))
  }

  /** 96 health points. */
  const Hp96: seq<byte> := [0x00, 0x60]

  /** The same RAM after the counter at offset 4 dropped to 96. */
  function HpReduced(): Snapshot
  {
    Snapshot(RamAddr, seq(16, k => if k == 5 then 0x60 as byte else if k == 11 then 0x64 else 0))
  }

  lemma TwoCountersOccurrences(a: int)
    ensures MatchesAt(TwoCounters(), a, Hp100) <==> a == RamAddr + 4 || a == RamAddr + 10
  {
    var mem := TwoCounters();
    if MatchesAt(mem, a, Hp100) {
      MatchesAtByte(mem, a, Hp100, 1);
    }
    if a == RamAddr + 4 {
      assert mem.bytes[4..6] == Hp100;
    } else if a == RamAddr + 10 {
      assert mem.bytes[10..12] == Hp100;
    }
  }

  lemma HpReducedOccurrences(a: int)
    ensures MatchesAt(HpReduced(), a, Hp96) <==> a == RamAddr + 4
  {
    var mem := HpReduced();
    if MatchesAt(mem, a, Hp96) {
      MatchesAtByte(mem, a, Hp96, 1);
    }
    if a == RamAddr + 4 {
      assert mem.bytes[4..6] == Hp96;
    }
  }

  /** Scanning the sixteen bytes for 100 HP finds both counters. */
  lemma TwoCountersScan()
    ensures Scan(TwoCounters(), RamAddr, 16, Hp100) == [RamAddr + 4, RamAddr + 10]
  {
    var mem, hits := TwoCounters(), [RamAddr + 4, RamAddr + 10];
    forall a | true
      ensures MatchesAt(mem, a, Hp100) <==> a == RamAddr + 4 || a == RamAddr + 10
    {
      TwoCountersOccurrences(a);
    }
    assert WindowStart(RamAddr + 2, hits, 2, 0) == RamAddr + 2;
    assert WindowStart(RamAddr + 2, hits, 2, 1) == RamAddr + 6;
    assert WindowStart(RamAddr + 2, hits, 2, 2) == RamAddr + 12;
    ScanCharacterized(mem, RamAddr, 16, Hp100, hits);
  }

  /** After the health points dropped, a scan for 96 HP finds only the first counter. */
  lemma HpReducedScan()
    ensures Scan(HpReduced(), RamAddr, 16, Hp96) == [RamAddr + 4]
  {
    var mem, hits := HpReduced(), [RamAddr + 4];
    forall a | true
      ensures MatchesAt(mem, a, Hp96) <==> a == RamAddr + 4
    {
      HpReducedOccurrences(a);
    }
    assert WindowStart(RamAddr + 2, hits, 2, 0) == RamAddr + 2;
    assert WindowStart(RamAddr + 2, hits, 2, 1) == RamAddr + 6;
    ScanCharacterized(mem, RamAddr, 16, Hp96, hits);
  }

  /** The session of the usage notes: search for 100 HP, lose some health,
      refine with 96 HP; and a refinement on a scanner that never searched. */
  method HealthPointsSession() returns (first: Result<set<int>, EngineError>,
                                        refined: Result<set<int>, EngineError>,
                                        premature: Result<set<int>, EngineError>)
    ensures first == Success({RamAddr + 4, RamAddr + 10})
    ensures refined == Success({RamAddr + 4})
    ensures premature == Failure(NoPreviousSearch)
  {
    TwoCountersScan();
    HpReducedScan();
    RangeRejectedExactly(TwoCounters(), RamAddr, 16, Hp100);
    RangeRejectedExactly(HpReduced(), RamAddr, 16, Hp96);
    var ce := new GdbCheatEngine(RamAddr, 16);
    first := ce.SearchRam(TwoCounters(), Hp100);
    assert ScanSet(TwoCounters(), RamAddr, 16, Hp100) == {RamAddr + 4, RamAddr + 10};
    assert ScanSet(HpReduced(), RamAddr, 16, Hp96) == {RamAddr + 4};
    refined := ce.SearchRamAgain(HpReduced(), Hp96);
    assert {RamAddr + 4, RamAddr + 10} * {RamAddr + 4} == {RamAddr + 4};
    var neverSearched := new GdbCheatEngine(RamAddr, 16);
    premature := neverSearched.SearchRamAgain(HpReduced(), Hp96);
  }

  /** Six bytes holding `AA BB` at offsets 0 and 4. */
  function EdgePairs(): Snapshot
  {
    Snapshot(0, seq(6, k => if k == 0 || k == 4 then 0xAA as byte else if k == 1 || k == 5 then 0xBB else 0))
  }

  lemma EdgePairsOccurrences(a: int)
    ensures MatchesAt(EdgePairs(), a, [0xAA, 0xBB]) <==> a == 0 || a == 4
  {
    var mem := EdgePairs();
    if MatchesAt(mem, a, [0xAA, 0xBB]) {
      MatchesAtByte(mem, a, [0xAA, 0xBB], 0);
    }
    if a == 0 {
      assert mem.bytes[0..2] == [0xAA, 0xBB];
    } else if a == 4 {
      assert mem.bytes[4..6] == [0xAA, 0xBB];
    }
  }

  /** Under the search contract alone, scanning the four-byte region
      `[0, 4)` of that memory misses the occurrence at the region's first
      address and yields the one starting at the region's end, which lies
      wholly outside the region. */
  lemma RegionEdgesScan()
    ensures Scan(EdgePairs(), 0, 4, [0xAA, 0xBB]) == [4]
  {
    var mem, hits := EdgePairs(), [4];
    forall a | true
      ensures MatchesAt(mem, a, [0xAA, 0xBB]) <==> a == 0 || a == 4
    {
      EdgePairsOccurrences(a);
    }
    assert WindowStart(2, hits, 2, 0) == 2;
    assert WindowStart(2, hits, 2, 1) == 6;
    ScanCharacterized(mem, 0, 4, [0xAA, 0xBB], hits);
  }

  /** That hit at the region's end leaves the cursor at the end address, so
      the next probe asks GDB for a range of length zero and the whole scan
      raises instead of returning the hit. */
  lemma RegionEdgesScanRaises()
    ensures ScanOutcome(EdgePairs(), 0, 4, [0xAA, 0xBB]) == Failure(EmptySearchRange)
  {
    RegionEdgesScan();
    RangeRejectedExactly(EdgePairs(), 0, 4, [0xAA, 0xBB]);
  }

  /** A region of zero bytes: the very first probe has length zero. */
  lemma EmptyRegionRaises(mem: Snapshot, ramAddr: int, pattern: seq<byte>)
    requires |pattern| > 0
    ensures ScanOutcome(mem, ramAddr, 0, pattern) == Failure(EmptySearchRange)
  {
    RangeRejectedExactly(mem, ramAddr, 0, pattern);
  }

  /** On unchanged memory, searching twice gives the same outcome, and
      refining with the same pattern then keeps the stored candidates as
      they are. When the scan raises, all three calls raise and nothing is
      stored. */
  method RescanIsStable(ce: GdbCheatEngine, mem: Snapshot, pattern: seq<byte>)
    returns (first: Result<set<int>, EngineError>, second: Result<set<int>, EngineError>,
             again: Result<set<int>, EngineError>)
    requires ce.Valid() && |pattern| > 0
    modifies ce
    ensures first == second == again
    ensures first.Success? ==>
      first.value == ScanSet(mem, ce.ramAddr, ce.ramSize, pattern) && ce.lastResults == Some(first.value)
    ensures first.Failure? ==> first.error == EmptySearchRange && ce.lastResults == old(ce.lastResults)
  {
    first := ce.SearchRam(mem, pattern);
    second := ce.SearchRam(mem, pattern);
    again := ce.SearchRamAgain(mem, pattern);
    if second.Success? {
      assert second.value * second.value == second.value;
    }
  }
}
