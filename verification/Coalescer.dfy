/**
 Request coalescing and the read counters of the bus engine (qagml/src/bus_width_amplification.rs).
 At most 16 regions are kept; a request that starts inside or right behind one extends it.
 */
module Coalescer {
  import opened MachineIntegers
  import opened NumberTheory

  const MAX_REGIONS := 16

  datatype Region = Region(addr: u64, size: u64) {
    /** The end as the code computes it. */
    function End(): u64 {
      Wrap64(addr + size)
    }

    /** The end is an address: nothing wraps. */
    predicate Fits() {
      addr + size < TWO_64
    }

    predicate Covers(b: int) {
      addr <= b < addr + size
    }

    /** A request that starts here is merged into the region. */
    predicate Touches(address: int) {
      addr <= address <= End()
    }
  }

  /** A wrapped end is below its start, so nothing touches such a region. */
  lemma TouchedFits(r: Region, address: int)
    requires r.Touches(address)
    ensures r.Fits() && r.End() == r.addr + r.size
  {
  }

  /** The first region that takes the address, or the number of regions. */
  function FirstMatch(regions: seq<Region>, address: int): (k: nat)
    ensures k <= |regions| && (k < |regions| ==> regions[k].Touches(address))
    ensures forall i | 0 <= i < k :: !regions[i].Touches(address)
  {
    if regions == [] then 0
    else if regions[0].Touches(address) then 0
    else
      var k := FirstMatch(regions[1..], address);
      assert forall i | 0 < i < |regions| :: regions[i] == regions[1..][i - 1];
      k + 1
  }

  predicate Merges(regions: seq<Region>, request: Region) {
    FirstMatch(regions, request.addr) < |regions|
  }

  predicate Dropped(regions: seq<Region>, request: Region) {
    !Merges(regions, request) && |regions| >= MAX_REGIONS
  }

  /** The region that starts where r does and ends at the later end. */
  function Extended(r: Region, request: Region): (e: Region)
    requires r.Touches(request.addr)
    ensures e.Fits() && e.addr == r.addr && e.End() >= r.End() && e.size >= r.size
  {
    if request.End() > r.End() then Region(r.addr, request.End() - r.addr) else r
  }

  function After(regions: seq<Region>, request: Region): (after: seq<Region>)
    ensures |regions| <= MAX_REGIONS ==> |after| <= MAX_REGIONS
  {
    var k := FirstMatch(regions, request.addr);
    if k < |regions| then regions[k := Extended(regions[k], request)]
    else if |regions| < MAX_REGIONS then regions + [request]
    else regions
  }

  function AfterAll(requests: seq<Region>): (regions: seq<Region>)
    ensures |regions| <= MAX_REGIONS
  {
    if requests == [] then []
    else After(AfterAll(requests[..|requests| - 1]), requests[|requests| - 1])
  }

  ghost predicate Covered(regions: seq<Region>, b: int) {
    exists i :: 0 <= i < |regions| && regions[i].Covers(b)
  }

  // ----- one request -----

  /** A merged request whose end wraps adds nothing: its end lies before the region's. */
  lemma ExtendedCovers(r: Region, request: Region, b: int)
    requires r.Touches(request.addr)
    ensures Extended(r, request).Covers(b) <==> r.Covers(b) || (request.Fits() && request.Covers(b))
  {
    TouchedFits(r, request.addr);
    EndBelowStart(request);
  }

  lemma EndBelowStart(r: Region)
    ensures if r.Fits() then r.End() == r.addr + r.size else r.End() < r.addr
  {
    if r.Fits() {
      Wrap64Small(r.addr + r.size);
    } else {
      ModOfMultiple(r.addr + r.size - TWO_64, 1, TWO_64);
      Wrap64Small(r.addr + r.size - TWO_64);
    }
  }

  /** The region takes a request that starts inside it or right behind it; a region that wraps takes none. */
  predicate Takes(r: Region, address: int) {
    r.addr + r.size < TWO_64 && r.addr <= address <= r.addr + r.size
  }

  lemma TouchesIsTakes(r: Region, address: int)
    ensures r.Touches(address) <==> Takes(r, address)
  {
    EndBelowStart(r);
  }

  /** A request is merged exactly if some region takes it. */
  lemma MergesIff(regions: seq<Region>, request: Region)
    ensures Merges(regions, request) <==>
            exists i :: 0 <= i < |regions| && regions[i].addr + regions[i].size < 0x1_0000_0000_0000_0000
                        && regions[i].addr <= request.addr <= regions[i].addr + regions[i].size
  {
    forall i | 0 <= i < |regions| ensures regions[i].Touches(request.addr) <==> Takes(regions[i], request.addr) {
      TouchesIsTakes(regions[i], request.addr);
    }
  }

  /** It is the first such region that is extended, to the later of the two ends that do not wrap. */
  lemma FirstExtended(regions: seq<Region>, request: Region, k: nat)
    requires k < |regions| && Takes(regions[k], request.addr)
    requires forall i | 0 <= i < k :: !Takes(regions[i], request.addr)
    ensures var r := regions[k];
            var longer := request.addr + request.size < TWO_64 && request.addr + request.size > r.addr + r.size;
            After(regions, request) ==
            regions[k := if longer then Region(r.addr, request.addr + request.size - r.addr) else r]
  {
    forall i | 0 <= i < |regions| ensures regions[i].Touches(request.addr) <==> Takes(regions[i], request.addr) {
      TouchesIsTakes(regions[i], request.addr);
    }
    EndBelowStart(request);
    EndBelowStart(regions[k]);
    assert FirstMatch(regions, request.addr) == k;
  }

  /** If none takes it the request becomes the last region, unless there are 16. */
  lemma AddedUnlessFull(regions: seq<Region>, request: Region)
    requires forall i | 0 <= i < |regions| :: !Takes(regions[i], request.addr)
    ensures After(regions, request) == if |regions| < 16 then regions + [request] else regions
  {
    MergesIff(regions, request);
  }

  /** The request's bytes are recorded: it is not dropped, and if it is merged its end does not wrap. */
  predicate Recorded(regions: seq<Region>, request: Region) {
    !Dropped(regions, request) && (Merges(regions, request) ==> request.Fits())
  }

  /** What one request adds is exactly its own bytes, unless it is dropped or merged with an end that wraps. */
  lemma OneRequestCovers(regions: seq<Region>, request: Region, b: int)
    ensures Covered(After(regions, request), b) <==>
            Covered(regions, b) || (Recorded(regions, request) && request.Covers(b))
  {
    hide Extended, FirstMatch;
    var k, after := FirstMatch(regions, request.addr), After(regions, request);
    if k < |regions| {
      ExtendedCovers(regions[k], request, b);
      assert after[k] == Extended(regions[k], request);
      forall i | 0 <= i < |regions| && i != k ensures after[i] == regions[i] {
      }
      if i :| 0 <= i < |regions| && regions[i].Covers(b) {
        assert after[i].Covers(b);
      }
    } else if |regions| < MAX_REGIONS {
      assert after[|regions|] == request;
      if i :| 0 <= i < |regions| && regions[i].Covers(b) {
        assert after[i].Covers(b);
      }
    }
  }

  /** The request lies inside one region that ends at an address. */
  ghost predicate Inside(regions: seq<Region>, request: Region) {
    exists i :: 0 <= i < |regions| && regions[i].Fits() && Contains(regions[i], request)
  }

  predicate Contains(r: Region, request: Region) {
    r.addr <= request.addr && request.addr + request.size <= r.addr + r.size
  }

  /** The list only grows: starts stay, ends do not shrink. */
  ghost predicate Grows(before: seq<Region>, after: seq<Region>) {
    && |before| <= |after|
    && forall i | 0 <= i < |before| ::
         && after[i].addr == before[i].addr && after[i].size >= before[i].size
         && (before[i].Fits() ==> after[i].Fits())
  }

  // ----- whole runs -----

  lemma GrowsByOne(regions: seq<Region>, request: Region)
    ensures Grows(regions, After(regions, request))
  {
    var k := FirstMatch(regions, request.addr);
    if k < |regions| {
      TouchedFits(regions[k], request.addr);
      EndBelowStart(Extended(regions[k], request));
    }
  }

  lemma {:induction false} RunGrows(requests: seq<Region>, i: nat)
    requires i <= |requests|
    ensures Grows(AfterAll(requests[..i]), AfterAll(requests))
  {
    if i == |requests| {
      assert requests[..i] == requests;
    } else {
      var rest := requests[..|requests| - 1];
      RunGrows(rest, i);
      assert rest[..i] == requests[..i];
      GrowsByOne(AfterAll(rest), requests[|requests| - 1]);
    }
  }

  /** Request i is recorded when its turn comes. */
  ghost predicate Kept(requests: seq<Region>, i: nat)
    requires i < |requests|
  {
    Recorded(AfterAll(requests[..i]), requests[i])
  }

  ghost predicate CoveredByKept(requests: seq<Region>, b: int) {
    exists i :: 0 <= i < |requests| && Kept(requests, i) && requests[i].Covers(b)
  }

  lemma KeptInPrefix(requests: seq<Region>, n: nat, i: nat)
    requires i < n <= |requests|
    ensures Kept(requests[..n], i) == Kept(requests, i)
  {
    assert requests[..n][..i] == requests[..i];
  }

  lemma CoveredByOneMore(requests: seq<Region>, b: int)
    requires requests != []
    ensures var n := |requests| - 1;
            CoveredByKept(requests, b) <==>
            CoveredByKept(requests[..n], b) || (Kept(requests, n) && requests[n].Covers(b))
  {
    hide Kept;
    var n := |requests| - 1;
    if i :| 0 <= i < n && Kept(requests[..n], i) && requests[..n][i].Covers(b) {
      KeptInPrefix(requests, n, i);
      assert Kept(requests, i) && requests[i].Covers(b);
    }
    if i :| 0 <= i < n && Kept(requests, i) && requests[i].Covers(b) {
      KeptInPrefix(requests, n, i);
      assert Kept(requests[..n], i) && requests[..n][i].Covers(b);
    }
  }

  /** After any run the covered bytes are exactly those of the requests recorded. */
  lemma {:induction false} CoverageExact(requests: seq<Region>, b: int)
    ensures Covered(AfterAll(requests), b) <==> CoveredByKept(requests, b)
  {
    if requests != [] {
      hide Covered, CoveredByKept, Recorded;
      var n := |requests| - 1;
      CoverageExact(requests[..n], b);
      OneRequestCovers(AfterAll(requests[..n]), requests[n], b);
      CoveredByOneMore(requests, b);
    }
  }

  lemma MergedInside(regions: seq<Region>, request: Region)
    requires request.Fits() && Merges(regions, request)
    ensures Inside(After(regions, request), request)
  {
    var k := FirstMatch(regions, request.addr);
    var e := After(regions, request)[k];
    TouchedFits(regions[k], request.addr);
    EndBelowStart(request);
    EndBelowStart(e);
    assert e.Fits() && Contains(e, request);
  }

  lemma InsideGrows(before: seq<Region>, after: seq<Region>, request: Region)
    requires Grows(before, after) && Inside(before, request)
    ensures Inside(after, request)
  {
    var i :| 0 <= i < |before| && before[i].Fits() && Contains(before[i], request);
    assert after[i].Fits() && Contains(after[i], request);
  }

  lemma AfterOneMore(requests: seq<Region>, i: nat)
    requires i < |requests|
    ensures AfterAll(requests[..i + 1]) == After(AfterAll(requests[..i]), requests[i])
  {
    assert requests[..i + 1][..i] == requests[..i];
  }

  /** A request answered with true lies inside one region from then on, exactly if its own end is an address. */
  lemma MergedStaysInside(requests: seq<Region>, i: nat)
    requires i < |requests| && Merges(AfterAll(requests[..i]), requests[i])
    ensures Inside(AfterAll(requests), requests[i]) <==> requests[i].Fits()
  {
    if requests[i].Fits() {
      AfterOneMore(requests, i);
      RunGrows(requests, i + 1);
      hide AfterAll, After, Inside, Grows, Merges;
      MergedInside(AfterAll(requests[..i]), requests[i]);
      InsideGrows(AfterAll(requests[..i + 1]), AfterAll(requests), requests[i]);
    }
  }

  /** It happens: a request is answered with true and none of its bytes is covered. */
  lemma WrappedMergeIsLost(requests: seq<Region>, b: int)
    requires requests == [Region(TWO_64 - 16, 8), Region(TWO_64 - 8, 16)]
    ensures Merges(AfterAll(requests[..1]), requests[1])
    ensures requests[1].Covers(b) ==> !Covered(AfterAll(requests), b)
  {
    var first, second := requests[0], requests[1];
    assert requests[..1] == [first] && [first][..0] == [];
    EndBelowStart(first);
    EndBelowStart(second);
    assert AfterAll([first]) == After([], first) == [first];
    assert Extended(first, second) == first;
    assert AfterAll(requests) == [first];
  }

  // ----- the read counters -----

  datatype Config = Config(enableCache: bool, enableCompression: bool, enableCoalescing: bool)

  datatype Counters = Counters(total: u64, avoided: u64, hits: u64, misses: u64, transferred: u64, bytesAvoided: u64)

  const ZERO := Counters(0, 0, 0, 0, 0, 0)

  datatype Answer = Answer(originalSize: u64, compressedSize: u64, cacheHit: bool, coalesced: bool)

  function SizeOnBus(config: Config, size: u64): u64 {
    if config.enableCompression then size / 1000 else size
  }

  /** A read that the data cache answers; the atomic counters wrap. */
  function CountHit(c: Counters, size: u64): Counters {
    c.(total := Wrap64(c.total + 1), hits := Wrap64(c.hits + 1), avoided := Wrap64(c.avoided + 1),
       bytesAvoided := Wrap64(c.bytesAvoided + size))
  }

  /** A read that goes to the bus. */
  function CountMiss(config: Config, c: Counters, size: u64): Counters {
    c.(total := Wrap64(c.total + 1), misses := if config.enableCache then Wrap64(c.misses + 1) else c.misses,
       transferred := Wrap64(c.transferred + SizeOnBus(config, size)))
  }

  datatype Read = Read(size: u64, hit: bool)

  function CountAll(config: Config, history: seq<Read>): Counters {
    if history == [] then ZERO
    else
      var c, last := CountAll(config, history[..|history| - 1]), history[|history| - 1];
      if last.hit then CountHit(c, last.size) else CountMiss(config, c, last.size)
  }

  lemma CountOneMore(config: Config, history: seq<Read>, read: Read)
    ensures CountAll(config, history + [read]) ==
            if read.hit then CountHit(CountAll(config, history), read.size)
            else CountMiss(config, CountAll(config, history), read.size)
  {
    assert (history + [read])[..|history|] == history;
  }

  function Hits(history: seq<Read>): (n: nat)
    ensures n <= |history|
  {
    if history == [] then 0 else Hits(history[..|history| - 1]) + if history[|history| - 1].hit then 1 else 0
  }

  /** The bytes of all reads that hit, or of all reads that miss. */
  function BytesOf(history: seq<Read>, hit: bool, config: Config): nat {
    if history == [] then 0
    else
      var last := history[|history| - 1];
      BytesOf(history[..|history| - 1], hit, config) +
      if last.hit != hit then 0 else if hit then last.size else SizeOnBus(config, last.size)
  }

  function Requested(history: seq<Read>): nat {
    if history == [] then 0 else Requested(history[..|history| - 1]) + history[|history| - 1].size
  }

  /**
   After any run the counters are, up to wrapping: one total per read, one hit and one avoided
   transaction per hit, one miss for each other read while the cache is on, and the bytes moved and saved.
   */
  lemma {:induction false} CountersExact(config: Config, history: seq<Read>)
    requires !config.enableCache ==> Hits(history) == 0
    ensures CountAll(config, history) ==
            Counters(Wrap64(|history|), Wrap64(Hits(history)), Wrap64(Hits(history)),
                     if config.enableCache then Wrap64(|history| - Hits(history)) else 0,
                     Wrap64(BytesOf(history, false, config)), Wrap64(BytesOf(history, true, config)))
  {
    hide Wrap64;
    Wrap64Small(0);
    if history != [] {
      var rest, last := history[..|history| - 1], history[|history| - 1];
      CountersExact(config, rest);
      Wrap64Adds(|rest|, 1);
      if last.hit {
        Wrap64Adds(Hits(rest), 1);
        Wrap64Adds(BytesOf(rest, true, config), last.size);
      } else {
        Wrap64Adds(|rest| - Hits(rest), 1);
        Wrap64Adds(BytesOf(rest, false, config), SizeOnBus(config, last.size));
      }
    }
  }

  /** Without compression every byte asked for is either transferred or avoided. */
  lemma {:induction false} BytesConserved(config: Config, history: seq<Read>)
    requires !config.enableCompression
    ensures BytesOf(history, false, config) + BytesOf(history, true, config) == Requested(history)
  {
    if history != [] {
      BytesConserved(config, history[..|history| - 1]);
    }
  }

  /** With compression a read of n bytes that misses moves n / 1000, rounded down. */
  lemma {:induction false} CompressedTraffic(config: Config, history: seq<Read>)
    requires config.enableCompression
    ensures var moved, asked := BytesOf(history, false, config),
                                BytesOf(history, false, config.(enableCompression := false));
            1000 * moved <= asked <= 1000 * moved + 999 * (|history| - Hits(history))
  {
    if history != [] {
      CompressedTraffic(config, history[..|history| - 1]);
    }
  }

  // ----- the engine -----

  class BusWidthAmplificationEngine {
    const config: Config
    var transactionCache: map<u64, seq<byte>>
    var coalescedRequests: seq<Region>
    var counters: Counters
    ghost var history: seq<Read>

    ghost predicate Valid()
      reads this
    {
      && |coalescedRequests| <= MAX_REGIONS
      && counters == CountAll(config, history)
      && (!config.enableCache ==> Hits(history) == 0)
    }

    constructor (config: Config)
      ensures Valid() && this.config == config && coalescedRequests == [] && counters == ZERO && history == []
    {
      this.config := config;
      transactionCache, coalescedRequests, counters, history := map[], [], ZERO, [];
    }

    method OptimizeRead(address: u64, size: u64) returns (answer: Answer)
      requires Valid()
      modifies this
      ensures Valid() && transactionCache == old(transactionCache)
      ensures history == old(history) + [Read(size, answer.cacheHit)]
      ensures answer.cacheHit == (config.enableCache && address in transactionCache)
      ensures var goes := !answer.cacheHit && config.enableCoalescing;
              var request := Region(address, size);
              && coalescedRequests == (if goes then After(old(coalescedRequests), request) else old(coalescedRequests))
              && answer.coalesced == (goes && Merges(old(coalescedRequests), request))
      ensures answer.originalSize == size
      ensures answer.compressedSize ==
              if answer.cacheHit then 0 else if config.enableCompression then size / 1000 else size
    {
      hide Wrap64, After, Merges, CountAll;
      CountOneMore(config, history, Read(size, config.enableCache && address in transactionCache));
      assert (history + [Read(size, false)])[..|history|] == history;
      counters := counters.(total := Wrap64(counters.total + 1));
      if config.enableCache {
        if address in transactionCache {
          counters := counters.(hits := Wrap64(counters.hits + 1));
          counters := counters.(avoided := Wrap64(counters.avoided + 1));
          counters := counters.(bytesAvoided := Wrap64(counters.bytesAvoided + size));
          history := history + [Read(size, true)];
          return Answer(size, 0, true, false);
        }
        counters := counters.(misses := Wrap64(counters.misses + 1));
      }
      var compressedSize: u64 := if config.enableCompression then size / 1000 else size;
      var coalesced := false;
      if config.enableCoalescing {
        coalesced := TryCoalesce(address, size);
      }
      counters := counters.(transferred := Wrap64(counters.transferred + compressedSize));
      history := history + [Read(size, false)];
      answer := Answer(size, compressedSize, false, coalesced);
    }

    method TryCoalesce(address: u64, size: u64) returns (merged: bool)
      modifies `coalescedRequests
      ensures coalescedRequests == After(old(coalescedRequests), Region(address, size))
      ensures merged == Merges(old(coalescedRequests), Region(address, size))
    {
      hide Wrap64;
      for i := 0 to |coalescedRequests|
        invariant coalescedRequests == old(coalescedRequests)
        invariant FirstMatch(coalescedRequests, address) >= i
      {
        var existing := coalescedRequests[i];
        var existingEnd := Wrap64(existing.addr + existing.size);
        var newEnd := Wrap64(address + size);
        if address >= existing.addr && address <= existingEnd {
          TouchedFits(existing, address);
          var end := if newEnd > existingEnd then newEnd else existingEnd;
          coalescedRequests := coalescedRequests[i := Region(existing.addr, end - existing.addr)];
          return true;
        }
      }
      if |coalescedRequests| < 16 {
        coalescedRequests := coalescedRequests + [Region(address, size)];
      }
      merged := false;
    }

    method CacheData(address: u64, data: seq<byte>)
      modifies `transactionCache
      ensures transactionCache == old(transactionCache)[address := data]
    {
      transactionCache := transactionCache[address := data];
    }
  }
}
