/**
 * The behaviour of the cache simulator on values: a set is the sequence of
 * its ways, the tag array is the sequence of its sets, and an access maps a
 * state to the next one. The `Cache` class updates its block array in place
 * and is proved to follow these functions exactly.
 */
module CacheModel {
  import opened Bits
  import opened CacheGeometry

  datatype Option<T> = None | Some(value: T)

  /** One enum serves both policies: WRITE_BACK / WRITE_THROUGH for hits,
      WRITE_ALLOCATE / NO_WRITE_ALLOCATE for misses (cache.h). */
  datatype WritePolicy = WriteBack | WriteThrough | WriteAllocate | NoWriteAllocate

  datatype AccessType = Hit | Miss

  /** `cache_block_t`. A block is invalid exactly when its tag is UNDEFINED. */
  datatype Block = Block(lru: nat, dirty: bool, tag: u64)

  /** How the constructor initialises every block. */
  const InvalidBlock: Block := Block(0, false, UNDEFINED)

  datatype Policies = Policies(hit: WritePolicy, miss: WritePolicy)

  /** The statistics fields of the cache object. */
  datatype Counters = Counters(
    accesses: nat,
    readCount: nat,
    readMisses: nat,
    writeCount: nat,
    writeMisses: nat,
    evictions: nat,
    writeThrus: nat,
    writeBacks: nat,
    writeAllocates: nat,
    noWriteAllocates: nat)

  const ZeroCounters: Counters := Counters(0, 0, 0, 0, 0, 0, 0, 0, 0, 0)

  /** The tag array as `sets[set][way]` together with the counters. */
  datatype CacheState = CacheState(sets: seq<seq<Block>>, ctr: Counters)

  /** One line of a trace: `r <address>` is a read, anything else a write. */
  datatype TraceEntry = TraceEntry(isRead: bool, address: u64)

  // ---------------------------------------------------------------------
  // Searches within one set
  // ---------------------------------------------------------------------

  /** The first way holding `tag`, or the number of ways when none does. */
  function FindTag(ways: seq<Block>, tag: u64): (i: nat)
    ensures i <= |ways|
    ensures i < |ways| ==> ways[i].tag == tag
    ensures forall j :: 0 <= j < i ==> ways[j].tag != tag
  {
    if |ways| == 0 then 0
    else if ways[0].tag == tag then 0
    else 1 + FindTag(ways[1..], tag)
  }

  /** The way `evict` selects: the strict `<` keeps the first of several
      ways with the same smallest stamp. */
  ghost predicate IsLruVictim(ways: seq<Block>, w: nat)
  {
    && w < |ways|
    && (forall j :: 0 <= j < |ways| ==> ways[w].lru <= ways[j].lru)
    && (forall j :: 0 <= j < w ==> ways[w].lru < ways[j].lru)
  }

  /** The lowest way whose tag is UNDEFINED. */
  ghost predicate IsFirstFree(ways: seq<Block>, w: nat)
  {
    && w < |ways|
    && ways[w].tag == UNDEFINED
    && (forall j :: 0 <= j < w ==> ways[j].tag != UNDEFINED)
  }

  /** The scan of `evict`, taken over growing prefixes of the set. */
  function LruVictim(ways: seq<Block>): (w: nat)
    requires |ways| > 0
    ensures IsLruVictim(ways, w)
  {
    if |ways| == 1 then 0
    else
      var w := LruVictim(ways[..|ways| - 1]);
      if ways[|ways| - 1].lru < ways[w].lru then |ways| - 1 else w
  }

  /** Only one way satisfies the victim rule, so the search has no choice. */
  lemma LruVictimUnique(ways: seq<Block>, w: nat, v: nat)
    requires IsLruVictim(ways, w) && IsLruVictim(ways, v)
    ensures w == v
  {
    assert ways[w].lru <= ways[v].lru && ways[v].lru <= ways[w].lru;
  }

  // ---------------------------------------------------------------------
  // One access to one set
  // ---------------------------------------------------------------------

  /** The new ways of the set, the result, and the way evicted if any. */
  datatype SetOutcome = SetOutcome(ways: seq<Block>, access: AccessType, victim: Option<nat>)

  /** `read` within the set the address maps to (cache.cc:229-254). */
  function ReadSet(ways: seq<Block>, tag: u64, now: nat): SetOutcome
    requires |ways| > 0
  {
    var h := FindTag(ways, tag);
    if h < |ways| then
      SetOutcome(ways[h := ways[h].(lru := now)], Hit, None)
    else
      var f := FindTag(ways, UNDEFINED);
      if f < |ways| then
        SetOutcome(ways[f := Block(now, false, tag)], Miss, None)
      else
        var v := LruVictim(ways);
        SetOutcome(ways[v := Block(now, false, tag)], Miss, Some(v))
  }

  /** `write` within the set the address maps to (cache.cc:267-313). */
  function WriteSet(ways: seq<Block>, tag: u64, now: nat, p: Policies): SetOutcome
    requires |ways| > 0
  {
    var h := FindTag(ways, tag);
    if h < |ways| then
      if p.hit == WriteThrough then
        SetOutcome(ways[h := ways[h].(lru := now)], Hit, None)
      else
        SetOutcome(ways[h := ways[h].(dirty := true, lru := now)], Hit, None)
    else if p.miss == NoWriteAllocate then
      SetOutcome(ways, Miss, None)
    else
      var f := FindTag(ways, UNDEFINED);
      if f < |ways| then
        SetOutcome(ways[f := Block(now, true, tag)], Miss, None)
      else
        var v := LruVictim(ways);
        SetOutcome(ways[v := Block(now, true, tag)], Miss, Some(v))
  }

  ghost predicate TagIn(ways: seq<Block>, tag: u64)
  {
    exists i :: 0 <= i < |ways| && ways[i].tag == tag
  }

  /** No valid tag appears in two ways of a set. */
  ghost predicate NoDuplicateTags(ways: seq<Block>)
  {
    forall i, j :: 0 <= i < j < |ways| && ways[i].tag == ways[j].tag ==> ways[i].tag == UNDEFINED
  }

  /** A read hits exactly when the set already holds the tag; a write too. */
  lemma HitIffPresent(ways: seq<Block>, tag: u64, now: nat, p: Policies)
    requires |ways| > 0
    ensures ReadSet(ways, tag, now).access == Hit <==> TagIn(ways, tag)
    ensures WriteSet(ways, tag, now, p).access == Hit <==> TagIn(ways, tag)
  {
    if TagIn(ways, tag) {
      var i :| 0 <= i < |ways| && ways[i].tag == tag;
      assert FindTag(ways, tag) <= i;
    }
  }

  /** A read hit on way i refreshes that block's stamp and changes nothing
      else: no tag, no dirty bit, no other block. */
  lemma ReadHitTouchesOnlyLru(ways: seq<Block>, tag: u64, now: nat, i: nat)
    requires NoDuplicateTags(ways) && tag != UNDEFINED
    requires i < |ways| && ways[i].tag == tag
    ensures var o := ReadSet(ways, tag, now);
      && o.access == Hit && o.victim == None
      && |o.ways| == |ways|
      && o.ways[i] == Block(now, ways[i].dirty, ways[i].tag)
      && (forall j :: 0 <= j < |ways| && j != i ==> o.ways[j] == ways[j])
  {
    assert FindTag(ways, tag) == i;
  }

  /** A write hit on way i: write-through refreshes the stamp only and
      leaves the dirty bit; any other hit policy also marks the block dirty.
      Other blocks are untouched. */
  lemma WriteHitPolicy(ways: seq<Block>, tag: u64, now: nat, p: Policies, i: nat)
    requires NoDuplicateTags(ways) && tag != UNDEFINED
    requires i < |ways| && ways[i].tag == tag
    ensures var o := WriteSet(ways, tag, now, p);
      && o.access == Hit && o.victim == None
      && |o.ways| == |ways|
      && o.ways[i].lru == now && o.ways[i].tag == tag
      && o.ways[i].dirty == (if p.hit == WriteThrough then ways[i].dirty else true)
      && (forall j :: 0 <= j < |ways| && j != i ==> o.ways[j] == ways[j])
  {
    assert FindTag(ways, tag) == i;
  }

  /** A read miss installs the tag, clean and stamped, in exactly one way:
      the lowest free way when there is one (no eviction), otherwise the LRU
      victim, which is reported. */
  lemma ReadMissFillsOneWay(ways: seq<Block>, tag: u64, now: nat)
    requires |ways| > 0 && !TagIn(ways, tag)
    ensures var o := ReadSet(ways, tag, now);
      && o.access == Miss
      && exists w :: 0 <= w < |ways| && o.ways == ways[w := Block(now, false, tag)] &&
           if TagIn(ways, UNDEFINED) then IsFirstFree(ways, w) && o.victim == None
           else IsLruVictim(ways, w) && o.victim == Some(w)
  {
    var f := FindTag(ways, UNDEFINED);
    if f < |ways| {
      assert IsFirstFree(ways, f);
    } else {
      var v := LruVictim(ways);
      assert ReadSet(ways, tag, now).ways == ways[v := Block(now, false, tag)];
    }
  }

  /** A write miss under no-write-allocate leaves the set alone; under any
      other miss policy it fills one way like a read miss, but dirty. */
  lemma WriteMissPolicy(ways: seq<Block>, tag: u64, now: nat, p: Policies)
    requires |ways| > 0 && !TagIn(ways, tag)
    ensures var o := WriteSet(ways, tag, now, p);
      && o.access == Miss
      && (p.miss == NoWriteAllocate ==> o.ways == ways && o.victim == None)
      && (p.miss != NoWriteAllocate ==>
           exists w :: 0 <= w < |ways| && o.ways == ways[w := Block(now, true, tag)] &&
             if TagIn(ways, UNDEFINED) then IsFirstFree(ways, w) && o.victim == None
             else IsLruVictim(ways, w) && o.victim == Some(w))
  {
    if p.miss != NoWriteAllocate {
      var f := FindTag(ways, UNDEFINED);
      if f < |ways| {
        assert IsFirstFree(ways, f);
      } else {
        var v := LruVictim(ways);
        assert WriteSet(ways, tag, now, p).ways == ways[v := Block(now, true, tag)];
      }
    }
  }

  /** Replacing one way by a tag the set does not hold keeps tags unique. */
  lemma {:induction false} InstallKeepsUnique(ways: seq<Block>, w: nat, b: Block)
    requires NoDuplicateTags(ways) && w < |ways|
    requires b.tag == UNDEFINED || forall k :: 0 <= k < |ways| && k != w ==> ways[k].tag != b.tag
    ensures NoDuplicateTags(ways[w := b])
  {
  }

  /** In a set without duplicates, a valid tag sits in one way only. */
  lemma OnlyWayWithTag(ways: seq<Block>, h: nat)
    requires NoDuplicateTags(ways) && h < |ways| && ways[h].tag != UNDEFINED
    ensures forall k :: 0 <= k < |ways| && k != h ==> ways[k].tag != ways[h].tag
  {
  }

  /** Every fill is preceded by a full hit check, so in no set does a valid
      tag appear twice, and after the access the tag is present unless a
      no-write-allocate write missed. */
  lemma AccessKeepsTagsUnique(ways: seq<Block>, tag: u64, now: nat, p: Policies)
    requires |ways| > 0 && NoDuplicateTags(ways) && tag != UNDEFINED
    ensures NoDuplicateTags(ReadSet(ways, tag, now).ways)
    ensures NoDuplicateTags(WriteSet(ways, tag, now, p).ways)
    ensures TagIn(ReadSet(ways, tag, now).ways, tag)
    ensures (WriteSet(ways, tag, now, p).access == Miss && p.miss == NoWriteAllocate)
      || TagIn(WriteSet(ways, tag, now, p).ways, tag)
  {
    var h := FindTag(ways, tag);
    var r := ReadSet(ways, tag, now).ways;
    var wr := WriteSet(ways, tag, now, p).ways;
    if h < |ways| {
      OnlyWayWithTag(ways, h);
      InstallKeepsUnique(ways, h, ways[h].(lru := now));
      InstallKeepsUnique(ways, h, ways[h].(dirty := true, lru := now));
      assert r[h].tag == tag && wr[h].tag == tag;
    } else {
      assert !TagIn(ways, tag);
      var f := FindTag(ways, UNDEFINED);
      var w := if f < |ways| then f else LruVictim(ways);
      InstallKeepsUnique(ways, w, Block(now, false, tag));
      InstallKeepsUnique(ways, w, Block(now, true, tag));
      assert r[w].tag == tag;
      if p.miss != NoWriteAllocate {
        assert wr[w].tag == tag;
      }
    }
  }

  // ---------------------------------------------------------------------
  // One access to the whole cache
  // ---------------------------------------------------------------------

  /** There is one set per set index, and every set has at least one way. */
  ghost predicate Fits(g: Geometry, st: CacheState)
  {
    && |st.sets| == g.setCount
    && (forall s :: 0 <= s < |st.sets| ==> |st.sets[s]| > 0)
  }

  /** The counter updates of `evict` (cache.cc:349 and 365-367). */
  function AfterEviction(c: Counters, p: Policies, victimDirty: bool): Counters
  {
    c.(evictions := c.evictions + 1,
       writeBacks := if p.hit == WriteBack && victimDirty then c.writeBacks + 1 else c.writeBacks)
  }

  datatype AccessResult = AccessResult(access: AccessType, state: CacheState)

  /** `read(address)`: the stamp written is `number_memory_accesses`. The
      set index is always in range for a constructed cache (SetIndexField);
      the function is total so that callers need not carry that fact. */
  function ReadAccess(g: Geometry, p: Policies, st: CacheState, address: u64): AccessResult
  {
    var s := SetIndex(g, address);
    if s >= |st.sets| || |st.sets[s]| == 0 then AccessResult(Miss, st)
    else
      var o := ReadSet(st.sets[s], TagOf(g, address), st.ctr.accesses);
      var c := if o.victim.Some? then AfterEviction(st.ctr, p, st.sets[s][o.victim.value].dirty) else st.ctr;
      AccessResult(o.access, CacheState(st.sets[s := o.ways], c))
  }

  /** `write(address)` with its policy counters. */
  function WriteAccess(g: Geometry, p: Policies, st: CacheState, address: u64): AccessResult
  {
    var s := SetIndex(g, address);
    if s >= |st.sets| || |st.sets[s]| == 0 then AccessResult(Miss, st)
    else
      var o := WriteSet(st.sets[s], TagOf(g, address), st.ctr.accesses, p);
      var c0 := st.ctr;
      var c :=
        if o.access == Hit then
          (if p.hit == WriteThrough then c0.(writeThrus := c0.writeThrus + 1) else c0)
        else if p.miss == NoWriteAllocate then
          c0.(noWriteAllocates := c0.noWriteAllocates + 1)
        else if o.victim.Some? then
          var c1 := AfterEviction(c0, p, st.sets[s][o.victim.value].dirty);
          c1.(writeAllocates := c1.writeAllocates + 1)
        else c0;
      AccessResult(o.access, CacheState(st.sets[s := o.ways], c))
  }

  /** The scan finds a tag exactly when the set holds it. */
  lemma FindTagFinds(ways: seq<Block>, tag: u64)
    ensures FindTag(ways, tag) < |ways| <==> TagIn(ways, tag)
  {
    if TagIn(ways, tag) {
      var i :| 0 <= i < |ways| && ways[i].tag == tag;
      assert FindTag(ways, tag) <= i;
    }
  }

  /** The statistics one `read` changes (cache.cc:247 and 348-367): a miss
      into a set with no free way counts one eviction, and also one
      write-back when the hit policy is write-back and the LRU victim is
      dirty. No other counter changes. */
  lemma ReadAccessCounters(g: Geometry, p: Policies, st: CacheState, address: u64)
    requires SetIndex(g, address) < |st.sets| && |st.sets[SetIndex(g, address)]| > 0
    ensures var ways := st.sets[SetIndex(g, address)];
      var evicts := !TagIn(ways, TagOf(g, address)) && !TagIn(ways, UNDEFINED);
      var c := st.ctr;
      ReadAccess(g, p, st, address).state.ctr ==
        c.(evictions := c.evictions + (if evicts then 1 else 0),
           writeBacks := c.writeBacks +
             (if evicts && p.hit == WriteBack && ways[LruVictim(ways)].dirty then 1 else 0))
  {
    var ways := st.sets[SetIndex(g, address)];
    FindTagFinds(ways, TagOf(g, address));
    FindTagFinds(ways, UNDEFINED);
  }

  /** The statistics one `write` changes (cache.cc:270-314 and 348-367):
      a write-through hit counts a write-through; a no-write-allocate miss
      counts a no-write-allocate; a write-allocate miss into a set with no
      free way counts an eviction, a write-allocate, and a write-back when
      the hit policy is write-back and the LRU victim is dirty. A
      write-allocate miss that fills a free way counts nothing. */
  lemma WriteAccessCounters(g: Geometry, p: Policies, st: CacheState, address: u64)
    requires SetIndex(g, address) < |st.sets| && |st.sets[SetIndex(g, address)]| > 0
    ensures var ways := st.sets[SetIndex(g, address)];
      var hit := TagIn(ways, TagOf(g, address));
      var evicts := !hit && p.miss != NoWriteAllocate && !TagIn(ways, UNDEFINED);
      var c := st.ctr;
      WriteAccess(g, p, st, address).state.ctr ==
        c.(evictions := c.evictions + (if evicts then 1 else 0),
           writeBacks := c.writeBacks +
             (if evicts && p.hit == WriteBack && ways[LruVictim(ways)].dirty then 1 else 0),
           writeAllocates := c.writeAllocates + (if evicts then 1 else 0),
           writeThrus := c.writeThrus + (if hit && p.hit == WriteThrough then 1 else 0),
           noWriteAllocates := c.noWriteAllocates + (if !hit && p.miss == NoWriteAllocate then 1 else 0))
    ensures var ways := st.sets[SetIndex(g, address)];
      (!TagIn(ways, TagOf(g, address)) && p.miss != NoWriteAllocate && TagIn(ways, UNDEFINED)) ==>
        WriteAccess(g, p, st, address).state.ctr == st.ctr
  {
    var ways := st.sets[SetIndex(g, address)];
    FindTagFinds(ways, TagOf(g, address));
    FindTagFinds(ways, UNDEFINED);
  }

  /** The body of the loop of `run` for one trace entry (cache.cc:172-200). */
  function Step(g: Geometry, p: Policies, st: CacheState, e: TraceEntry): CacheState
  {
    if e.isRead then
      var a := ReadAccess(g, p, st, e.address);
      var c := a.state.ctr;
      a.state.(ctr := c.(readCount := c.readCount + 1,
                          readMisses := if a.access == Miss then c.readMisses + 1 else c.readMisses,
                          accesses := c.accesses + 1))
    else
      var a := WriteAccess(g, p, st, e.address);
      var c := a.state.ctr;
      a.state.(ctr := c.(writeCount := c.writeCount + 1,
                          writeMisses := if a.access == Miss then c.writeMisses + 1 else c.writeMisses,
                          accesses := c.accesses + 1))
  }

  /** The state after processing the entries in order. */
  function RunTrace(g: Geometry, p: Policies, st: CacheState, es: seq<TraceEntry>): CacheState
    decreases |es|, 1
  {
    if |es| == 0 then st
    else StepLast(g, p, st, es)
  }

  /** The last entry, processed after all the ones before it. */
  function StepLast(g: Geometry, p: Policies, st: CacheState, es: seq<TraceEntry>): CacheState
    requires |es| > 0
    decreases |es|, 0
  {
    Step(g, p, RunTrace(g, p, st, es[..|es| - 1]), es[|es| - 1])
  }

  /** An access keeps the number of sets and of ways per set. */
  lemma StepKeepsShape(g: Geometry, p: Policies, st: CacheState, e: TraceEntry)
    ensures |Step(g, p, st, e).sets| == |st.sets|
    ensures forall s :: 0 <= s < |st.sets| ==> |Step(g, p, st, e).sets[s]| == |st.sets[s]|
  {
  }

  lemma RunTraceSnoc(g: Geometry, p: Policies, st: CacheState, es: seq<TraceEntry>, e: TraceEntry)
    ensures RunTrace(g, p, st, es + [e]) == Step(g, p, RunTrace(g, p, st, es), e)
  {
    assert (es + [e])[..|es|] == es;
  }

  /** How many entries `run(n)` consumes when `remaining` are left: all of
      them when n is 0, otherwise n or fewer if the trace ends first. */
  function RunCount(n: nat, remaining: nat): (k: nat)
    ensures k <= remaining
    ensures n != 0 ==> k <= n
    ensures k < remaining ==> n != 0 && k == n
  {
    if n == 0 || remaining <= n then remaining else n
  }

  /** `num_of_mem_writes()` (cache.cc:392-407). */
  function MemWrites(p: Policies, c: Counters): nat
  {
    (if p.hit == WriteBack then c.writeBacks else c.writeThrus) +
    (if p.miss == WriteAllocate then c.writeAllocates else c.noWriteAllocates)
  }

  // ---------------------------------------------------------------------
  // Counters
  // ---------------------------------------------------------------------

  /** Each entry counts one access, one read or one write, and a miss of the
      matching kind exactly when the access missed. */
  lemma StepCounts(g: Geometry, p: Policies, st: CacheState, e: TraceEntry)
    ensures var c, c' := st.ctr, Step(g, p, st, e).ctr;
      && c'.accesses == c.accesses + 1
      && (e.isRead ==>
            && c'.readCount == c.readCount + 1 && c'.writeCount == c.writeCount
            && c'.writeMisses == c.writeMisses
            && (c'.readMisses == c.readMisses + 1 <==> ReadAccess(g, p, st, e.address).access == Miss)
            && (c'.readMisses == c.readMisses <==> ReadAccess(g, p, st, e.address).access == Hit))
      && (!e.isRead ==>
            && c'.writeCount == c.writeCount + 1 && c'.readCount == c.readCount
            && c'.readMisses == c.readMisses
            && (c'.writeMisses == c.writeMisses + 1 <==> WriteAccess(g, p, st, e.address).access == Miss)
            && (c'.writeMisses == c.writeMisses <==> WriteAccess(g, p, st, e.address).access == Hit))
  {
  }

  lemma AccessesAfterStep(g: Geometry, p: Policies, st: CacheState, e: TraceEntry)
    ensures Step(g, p, st, e).ctr.accesses == st.ctr.accesses + 1
  {
    StepCounts(g, p, st, e);
  }

  /** `run` over a trace counts one access per entry. */
  lemma {:induction false} RunTraceCounts(g: Geometry, p: Policies, st: CacheState, es: seq<TraceEntry>)
    ensures RunTrace(g, p, st, es).ctr.accesses == st.ctr.accesses + |es|
    ensures RunTrace(g, p, st, es).ctr.readCount + RunTrace(g, p, st, es).ctr.writeCount
         == st.ctr.readCount + st.ctr.writeCount + |es|
  {
    if |es| > 0 {
      RunTraceCounts(g, p, st, es[..|es| - 1]);
      StepCounts(g, p, RunTrace(g, p, st, es[..|es| - 1]), es[|es| - 1]);
    }
  }

  /** What the counters always satisfy, given the policies. */
  ghost predicate CountersConsistent(p: Policies, c: Counters)
  {
    && c.accesses == c.readCount + c.writeCount
    && c.readMisses <= c.readCount
    && c.writeMisses <= c.writeCount
    && c.evictions <= c.readMisses + c.writeMisses
    && c.writeBacks <= c.evictions
    && (p.hit != WriteBack ==> c.writeBacks == 0)
    && (p.hit == WriteThrough ==> c.writeThrus + c.writeMisses == c.writeCount)
    && (p.hit != WriteThrough ==> c.writeThrus == 0)
    && (p.miss == NoWriteAllocate ==> c.noWriteAllocates == c.writeMisses && c.writeAllocates == 0)
    && (p.miss != NoWriteAllocate ==> c.noWriteAllocates == 0)
    && c.writeAllocates <= c.writeMisses
    && c.writeAllocates <= c.evictions
  }

  /** Every memory write the statistics report is one write request or one
      eviction; under write-through with no-write-allocate every write goes
      to memory exactly once. */
  lemma MemWritesBound(p: Policies, c: Counters)
    requires CountersConsistent(p, c)
    ensures MemWrites(p, c) <= c.writeCount + c.evictions
    ensures p == Policies(WriteThrough, NoWriteAllocate) ==> MemWrites(p, c) == c.writeCount
  {
  }

  // ---------------------------------------------------------------------
  // The invariant of the tag array
  // ---------------------------------------------------------------------

  /** A block is either untouched since construction, or holds a tag of
      tag_bits bits (never UNDEFINED) and a stamp from an earlier access. */
  ghost predicate BlockOk(g: Geometry, now: nat, b: Block)
  {
    if b.tag == UNDEFINED then b == InvalidBlock
    else b.tag < Pow2(g.tagBits) && b.lru < now
  }

  ghost predicate SetOk(g: Geometry, now: nat, ways: seq<Block>)
  {
    && NoDuplicateTags(ways)
    && (forall w :: 0 <= w < |ways| ==> BlockOk(g, now, ways[w]))
  }

  ghost predicate Inv(g: Geometry, p: Policies, assoc: nat, st: CacheState)
  {
    && WellShaped(g)
    && Fits(g, st)
    && (forall s :: 0 <= s < |st.sets| ==> |st.sets[s]| == assoc)
    && (forall s :: 0 <= s < |st.sets| ==> SetOk(g, st.ctr.accesses, st.sets[s]))
    && CountersConsistent(p, st.ctr)
  }

  /** The state the constructor leaves: every block invalid, all counters 0. */
  function InitialState(setCount: nat, assoc: nat): (st: CacheState)
    ensures |st.sets| == setCount
    ensures forall s :: 0 <= s < setCount ==> |st.sets[s]| == assoc
    ensures forall s, w :: 0 <= s < setCount && 0 <= w < assoc ==> st.sets[s][w] == InvalidBlock
  {
    CacheState(seq(setCount, s => seq(assoc, w => InvalidBlock)), ZeroCounters)
  }

  lemma InitialInv(g: Geometry, p: Policies, assoc: nat)
    requires WellShaped(g) && assoc >= 1
    ensures Inv(g, p, assoc, InitialState(g.setCount, assoc))
  {
  }

  /** The blocks of one set after a read or write are all well formed one
      access later. */
  lemma {:induction false} SetOkAfterAccess(g: Geometry, p: Policies, now: nat, ways: seq<Block>, tag: u64)
    requires SetOk(g, now, ways) && |ways| > 0
    requires tag < Pow2(g.tagBits) && tag != UNDEFINED
    ensures SetOk(g, now + 1, ReadSet(ways, tag, now).ways)
    ensures SetOk(g, now + 1, WriteSet(ways, tag, now, p).ways)
  {
    AccessKeepsTagsUnique(ways, tag, now, p);
    var r := ReadSet(ways, tag, now).ways;
    var wr := WriteSet(ways, tag, now, p).ways;
    forall w | 0 <= w < |ways|
      ensures BlockOk(g, now + 1, r[w]) && BlockOk(g, now + 1, wr[w])
    {
      assert BlockOk(g, now, ways[w]);
    }
  }

  /** Unchanged sets stay well formed as the access counter grows. */
  lemma SetOkLater(g: Geometry, now: nat, ways: seq<Block>)
    requires SetOk(g, now, ways)
    ensures SetOk(g, now + 1, ways)
  {
    forall w | 0 <= w < |ways|
      ensures BlockOk(g, now + 1, ways[w])
    {
      assert BlockOk(g, now, ways[w]);
    }
  }

  /** The evicted block, when valid, counts a write-back only if dirty. */
  lemma VictimDirtyImpliesValid(g: Geometry, now: nat, ways: seq<Block>, v: nat)
    requires SetOk(g, now, ways) && v < |ways| && ways[v].dirty
    ensures ways[v].tag != UNDEFINED
  {
    assert BlockOk(g, now, ways[v]);
  }

  lemma CountersAfterStep(g: Geometry, p: Policies, st: CacheState, e: TraceEntry)
    requires WellShaped(g) && Fits(g, st) && CountersConsistent(p, st.ctr)
    ensures CountersConsistent(p, Step(g, p, st, e).ctr)
  {
    SetIndexField(g, e.address);
    if e.isRead {
      CountersAfterRead(g, p, st, e);
    } else {
      CountersAfterWrite(g, p, st, e);
    }
  }

  lemma CountersAfterRead(g: Geometry, p: Policies, st: CacheState, e: TraceEntry)
    requires e.isRead && SetIndex(g, e.address) < |st.sets|
    requires Fits(g, st) && CountersConsistent(p, st.ctr)
    ensures CountersConsistent(p, Step(g, p, st, e).ctr)
  {
    var o := ReadSet(st.sets[SetIndex(g, e.address)], TagOf(g, e.address), st.ctr.accesses);
    assert o.victim.None? || o.access == Miss;
  }

  lemma CountersAfterWrite(g: Geometry, p: Policies, st: CacheState, e: TraceEntry)
    requires !e.isRead && SetIndex(g, e.address) < |st.sets|
    requires Fits(g, st) && CountersConsistent(p, st.ctr)
    ensures CountersConsistent(p, Step(g, p, st, e).ctr)
  {
    var o := WriteSet(st.sets[SetIndex(g, e.address)], TagOf(g, e.address), st.ctr.accesses, p);
    assert o.victim.None? || (o.access == Miss && p.miss != NoWriteAllocate);
  }

  /** Every trace entry keeps the invariant. */
  lemma {:induction false} StepKeepsInv(g: Geometry, p: Policies, assoc: nat, st: CacheState, e: TraceEntry)
    requires Inv(g, p, assoc, st)
    ensures Inv(g, p, assoc, Step(g, p, st, e))
  {
    SetIndexField(g, e.address);
    TagField(g, e.address);
    var s := SetIndex(g, e.address);
    var t := TagOf(g, e.address);
    var now := st.ctr.accesses;
    var st' := Step(g, p, st, e);
    CountersAfterStep(g, p, st, e);
    SetOkAfterAccess(g, p, now, st.sets[s], t);
    forall s' | 0 <= s' < |st'.sets|
      ensures SetOk(g, st'.ctr.accesses, st'.sets[s'])
    {
      if s' != s {
        SetOkLater(g, now, st.sets[s']);
      }
    }
  }

  /** Every state reachable from construction satisfies the invariant. */
  lemma {:induction false} RunTraceKeepsInv(g: Geometry, p: Policies, assoc: nat, st: CacheState, es: seq<TraceEntry>)
    requires Inv(g, p, assoc, st)
    ensures Inv(g, p, assoc, RunTrace(g, p, st, es))
  {
    if |es| > 0 {
      RunTraceKeepsInv(g, p, assoc, st, es[..|es| - 1]);
      StepKeepsInv(g, p, assoc, RunTrace(g, p, st, es[..|es| - 1]), es[|es| - 1]);
    }
  }

  /** After any trace from a fresh cache: no set holds a valid tag twice,
      and the memory-write statistic is bounded by writes and evictions. */
  lemma ReachableProperties(g: Geometry, p: Policies, assoc: nat, es: seq<TraceEntry>)
    requires WellShaped(g) && assoc >= 1
    ensures var st := RunTrace(g, p, InitialState(g.setCount, assoc), es);
      && (forall s :: 0 <= s < |st.sets| ==> NoDuplicateTags(st.sets[s]))
      && st.ctr.accesses == |es|
      && MemWrites(p, st.ctr) <= st.ctr.writeCount + st.ctr.evictions
  {
    InitialInv(g, p, assoc);
    var st0 := InitialState(g.setCount, assoc);
    RunTraceKeepsInv(g, p, assoc, st0, es);
    RunTraceCounts(g, p, st0, es);
    var st := RunTrace(g, p, st0, es);
    MemWritesBound(p, st.ctr);
    forall s | 0 <= s < |st.sets|
      ensures NoDuplicateTags(st.sets[s])
    {
      assert SetOk(g, st.ctr.accesses, st.sets[s]);
    }
  }

  /** Every access changes only the set the address maps to. Afterwards the
      accessed block carries the newest stamp of its set, unless the access
      was a no-write-allocate write miss, which leaves the set untouched. */
  lemma AccessIsLocal(g: Geometry, p: Policies, assoc: nat, st: CacheState, e: TraceEntry)
    requires Inv(g, p, assoc, st)
    ensures SetIndex(g, e.address) < |st.sets|
    ensures var s := SetIndex(g, e.address);
      var st' := Step(g, p, st, e);
      && |st'.sets| == |st.sets|
      && (forall s' :: 0 <= s' < |st.sets| && s' != s ==> st'.sets[s'] == st.sets[s'])
      && (e.isRead || p.miss != NoWriteAllocate || TagIn(st.sets[s], TagOf(g, e.address)) ==>
           exists w :: 0 <= w < |st'.sets[s]| && st'.sets[s][w].tag == TagOf(g, e.address) &&
             st'.sets[s][w].lru == st.ctr.accesses &&
             forall v :: 0 <= v < |st'.sets[s]| && v != w && st'.sets[s][v].tag != UNDEFINED ==>
               st'.sets[s][v].lru < st'.sets[s][w].lru)
      && (!e.isRead && p.miss == NoWriteAllocate && !TagIn(st.sets[s], TagOf(g, e.address)) ==>
           st'.sets == st.sets)
  {
    SetIndexField(g, e.address);
    TagField(g, e.address);
    var s := SetIndex(g, e.address);
    var t := TagOf(g, e.address);
    var now := st.ctr.accesses;
    var ways := st.sets[s];
    assert SetOk(g, now, ways);
    var o := if e.isRead then ReadSet(ways, t, now) else WriteSet(ways, t, now, p);
    var st' := Step(g, p, st, e);
    assert st'.sets == st.sets[s := o.ways];
    if !e.isRead && p.miss == NoWriteAllocate && !TagIn(ways, t) {
      WriteMissPolicy(ways, t, now, p);
      assert o.ways == ways;
    } else {
      var w: nat;
      if TagIn(ways, t) {
        var i :| 0 <= i < |ways| && ways[i].tag == t;
        ReadHitTouchesOnlyLru(ways, t, now, i);
        WriteHitPolicy(ways, t, now, p, i);
        w := i;
      } else {
        ReadMissFillsOneWay(ways, t, now);
        WriteMissPolicy(ways, t, now, p);
        if e.isRead {
          w :| 0 <= w < |ways| && ReadSet(ways, t, now).ways == ways[w := Block(now, false, t)];
        } else {
          w :| 0 <= w < |ways| && WriteSet(ways, t, now, p).ways == ways[w := Block(now, true, t)];
        }
        assert o.ways == ways[w := Block(now, !e.isRead, t)];
      }
      forall v | 0 <= v < |ways| && v != w && o.ways[v].tag != UNDEFINED
        ensures o.ways[v].lru < now
      {
        assert o.ways[v] == ways[v];
        assert BlockOk(g, now, ways[v]);
      }
      assert |o.ways| == |ways| && o.ways[w].tag == t && o.ways[w].lru == now;
      assert st'.sets[s] == o.ways;
    }
  }

  /** `evict` always names a way of the set. */
  lemma VictimIsAWay(ways: seq<Block>)
    requires |ways| > 0
    ensures LruVictim(ways) < |ways|
  {
  }
}
