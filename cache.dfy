/**
 * The `cache` class: the configuration, the 2-D block array `cache_s[way][set]`
 * updated in place, the statistics counters, and the trace being run. Every
 * method is proved to move the object's view exactly as the functions of
 * `CacheModel` say.
 */
module CacheSimulator {
  import opened Bits
  import opened CacheGeometry
  import opened CacheModel

  /** The `new cache_block_t[...]` allocation and the initialisation loops
      of the constructor (cache.cc:89-100). */
  method NewBlockArray(ways: nat, sets: nat) returns (b: array2<Block>)
    ensures fresh(b) && b.Length0 == ways && b.Length1 == sets
    ensures forall w, s :: 0 <= w < ways && 0 <= s < sets ==> b[w, s] == InvalidBlock
  {
    b := new Block[ways, sets];
    for i := 0 to ways
      invariant forall w, s :: 0 <= w < i && 0 <= s < sets ==> b[w, s] == InvalidBlock
    {
      for j := 0 to sets
        invariant forall w, s :: 0 <= w < i && 0 <= s < sets ==> b[w, s] == InvalidBlock
        invariant forall s :: 0 <= s < j ==> b[i, s] == InvalidBlock
      {
        b[i, j] := InvalidBlock;
      }
    }
  }

  class Cache {
    const size: u32
    const associativity: u32
    const lineSize: u32
    const policies: Policies
    const hitTime: u32
    const missPenalty: u32
    const addressWidth: u32
    const geom: Geometry

    /** `cache_s`, indexed `[way, set]`. */
    const blocks: array2<Block>

    var ctr: Counters

    /** The loaded trace and how far `run` has read it; `run` continues where
        the previous call stopped. */
    var trace: seq<TraceEntry>
    var pos: nat

    ghost predicate Valid()
      reads this
    {
      && IndexInRange(geom)
      && associativity >= 1
      && blocks.Length0 == associativity
      && blocks.Length1 == geom.setCount
      && pos <= |trace|
    }

    /** The ways of one set. */
    ghost function Column(s: nat): (ways: seq<Block>)
      requires s < blocks.Length1
      reads blocks
      ensures |ways| == blocks.Length0
      ensures forall w :: 0 <= w < blocks.Length0 ==> ways[w] == blocks[w, s]
    {
      seq(blocks.Length0, w requires 0 <= w < blocks.Length0 reads blocks => blocks[w, s])
    }

    /** The tag array as `sets[set][way]`. */
    ghost function Sets(): (sets: seq<seq<Block>>)
      reads blocks
      ensures |sets| == blocks.Length1
      ensures forall s :: 0 <= s < blocks.Length1 ==> sets[s] == Column(s)
    {
      seq(blocks.Length1, s requires 0 <= s < blocks.Length1 reads blocks => Column(s))
    }

    ghost function View(): CacheState
      reads this`ctr, blocks
    {
      CacheState(Sets(), ctr)
    }

    lemma ViewFits()
      requires Valid()
      ensures Fits(geom, View())
    {
    }

    /** cache.cc:18-117. The trace stream starts unopened: an empty trace. */
    constructor(size: u32, associativity: u32, lineSize: u32,
                hitPolicy: WritePolicy, missPolicy: WritePolicy,
                hitTime: u32, missPenalty: u32, addressWidth: u32)
      requires ValidConfig(size, associativity, lineSize, addressWidth)
      ensures Valid()
      ensures this.size == size && this.associativity == associativity && this.lineSize == lineSize
      ensures policies == Policies(hitPolicy, missPolicy)
      ensures this.hitTime == hitTime && this.missPenalty == missPenalty
      ensures this.addressWidth == addressWidth
      ensures geom == GeometryOf(size, associativity, lineSize, addressWidth)
      ensures View() == InitialState(geom.setCount, associativity)
      ensures trace == [] && pos == 0
      ensures fresh(blocks)
    {
      this.size := size;
      this.associativity := associativity;
      this.lineSize := lineSize;
      policies := Policies(hitPolicy, missPolicy);
      this.hitTime := hitTime;
      this.missPenalty := missPenalty;
      this.addressWidth := addressWidth;
      GeometryOfShape(size, associativity, lineSize, addressWidth);
      WellShapedIndexInRange(GeometryOf(size, associativity, lineSize, addressWidth));
      var g := ComputeGeometry(size, associativity, lineSize, addressWidth);
      geom := g;
      var b := NewBlockArray(associativity, g.setCount);
      blocks := b;
      ctr := ZeroCounters;
      trace := [];
      pos := 0;
      new;
      InitialSets();
    }

    /** A block array holding only invalid blocks views as the initial state. */
    lemma InitialSets()
      requires forall w, s :: 0 <= w < blocks.Length0 && 0 <= s < blocks.Length1 ==> blocks[w, s] == InvalidBlock
      ensures Sets() == InitialState(blocks.Length1, blocks.Length0).sets
    {
      var init := InitialState(blocks.Length1, blocks.Length0).sets;
      forall t | 0 <= t < blocks.Length1
        ensures Sets()[t] == init[t]
      {
        assert Column(t) == init[t];
      }
    }

    /** Stores one block and changes nothing else in the tag array. */
    method SetBlock(w: nat, s: nat, b: Block)
      requires w < blocks.Length0 && s < blocks.Length1
      modifies blocks
      ensures Sets() == old(Sets())[s := old(Sets())[s][w := b]]
    {
      blocks[w, s] := b;
      assert Column(s) == old(Sets())[s][w := b];
      assert forall t :: 0 <= t < blocks.Length1 && t != s ==> Column(t) == old(Column(t));
    }

    /** The tag-matching scans of `read` and `write` (cache.cc:229-235,
        238-245, 267-269, 294-301): the lowest way holding `tag`, or the
        associativity when none does. */
    method FindWay(s: nat, tag: u64) returns (i: nat)
      requires Valid() && s < blocks.Length1
      ensures i == FindTag(Column(s), tag)
    {
      i := 0;
      while i < associativity
        invariant i <= associativity
        invariant forall j :: 0 <= j < i ==> blocks[j, s].tag != tag
      {
        if blocks[i, s].tag == tag {
          return;
        }
        i := i + 1;
      }
    }

    /** `evict(set)` (cache.cc:348-370): counts the eviction, scans for the
        way of smallest stamp, and counts a write-back for a dirty victim
        under write-back. */
    method Evict(s: nat) returns (way: nat)
      requires Valid() && s < blocks.Length1
      modifies this`ctr
      ensures way == LruVictim(Column(s))
      ensures way < associativity
      ensures ctr == AfterEviction(old(ctr), policies, Column(s)[way].dirty)
    {
      ctr := ctr.(evictions := ctr.evictions + 1);
      ghost var col := Column(s);
      var lru := blocks[0, s].lru;
      way := 0;
      assert col[..1] == [col[0]];
      for i := 1 to associativity
        invariant way == LruVictim(col[..i]) && lru == blocks[way, s].lru
      {
        assert col[..i + 1][..i] == col[..i];
        if blocks[i, s].lru < lru {
          way := i;
          lru := blocks[i, s].lru;
        }
      }
      assert col[..associativity] == col;
      if policies.hit == WriteBack {
        if blocks[way, s].dirty {
          ctr := ctr.(writeBacks := ctr.writeBacks + 1);
        }
      }
    }

    /** `read(address)` (cache.cc:218-255). */
    method Read(address: u64) returns (access: AccessType)
      requires Valid()
      modifies blocks, this`ctr
      ensures Valid()
      ensures AccessResult(access, View()) == ReadAccess(geom, policies, old(View()), address)
    {
      var setIndex := SetIndex(geom, address);
      var tag: u64 := TagOf(geom, address);
      var now := ctr.accesses;
      var i := FindWay(setIndex, tag);
      if i < associativity {
        SetBlock(i, setIndex, blocks[i, setIndex].(lru := now));
        return Hit;
      }
      i := FindWay(setIndex, UNDEFINED);
      if i < associativity {
        SetBlock(i, setIndex, Block(now, false, tag));
        return Miss;
      }
      var way := Evict(setIndex);
      SetBlock(way, setIndex, Block(now, false, tag));
      access := Miss;
    }

    /** `write(address)` (cache.cc:257-315). */
    method Write(address: u64) returns (access: AccessType)
      requires Valid()
      modifies blocks, this`ctr
      ensures Valid()
      ensures AccessResult(access, View()) == WriteAccess(geom, policies, old(View()), address)
    {
      var setIndex := SetIndex(geom, address);
      var tag: u64 := TagOf(geom, address);
      var i := FindWay(setIndex, tag);
      if i < associativity {
        WriteHit(address, i);
        access := Hit;
      } else {
        access := WriteMiss(address);
      }
    }

    /** The hit branch of `write` (cache.cc:267-282). */
    method WriteHit(address: u64, i: nat)
      requires Valid()
      requires i == FindTag(Column(SetIndex(geom, address)), TagOf(geom, address)) < associativity
      modifies blocks, this`ctr
      ensures Valid()
      ensures AccessResult(Hit, View()) == WriteAccess(geom, policies, old(View()), address)
    {
      var setIndex := SetIndex(geom, address);
      var tag: u64 := TagOf(geom, address);
      var now := ctr.accesses;
      ghost var ways := Column(setIndex);
      if policies.hit == WriteThrough {
        assert WriteSet(ways, tag, now, policies) == SetOutcome(ways[i := ways[i].(lru := now)], Hit, None);
        SetBlock(i, setIndex, blocks[i, setIndex].(lru := now));
        ctr := ctr.(writeThrus := ctr.writeThrus + 1);
      } else {
        assert WriteSet(ways, tag, now, policies) ==
          SetOutcome(ways[i := ways[i].(dirty := true, lru := now)], Hit, None);
        SetBlock(i, setIndex, blocks[i, setIndex].(dirty := true, lru := now));
      }
    }

    /** The miss branch of `write` (cache.cc:285-314). */
    method WriteMiss(address: u64) returns (access: AccessType)
      requires Valid()
      requires FindTag(Column(SetIndex(geom, address)), TagOf(geom, address)) == associativity
      modifies blocks, this`ctr
      ensures Valid()
      ensures AccessResult(access, View()) == WriteAccess(geom, policies, old(View()), address)
    {
      var setIndex := SetIndex(geom, address);
      var tag: u64 := TagOf(geom, address);
      var now := ctr.accesses;
      ghost var ways := Column(setIndex);
      if policies.miss == NoWriteAllocate {
        assert WriteSet(ways, tag, now, policies) == SetOutcome(ways, Miss, None);
        assert Sets()[setIndex := ways] == Sets();
        ctr := ctr.(noWriteAllocates := ctr.noWriteAllocates + 1);
        access := Miss;
      } else {
        access := WriteAllocateMiss(address);
      }
    }

    /** A write miss under write-allocate (cache.cc:293-313). */
    method WriteAllocateMiss(address: u64) returns (access: AccessType)
      requires Valid() && policies.miss != NoWriteAllocate
      requires FindTag(Column(SetIndex(geom, address)), TagOf(geom, address)) == associativity
      modifies blocks, this`ctr
      ensures Valid()
      ensures AccessResult(access, View()) == WriteAccess(geom, policies, old(View()), address)
    {
      var setIndex := SetIndex(geom, address);
      var tag: u64 := TagOf(geom, address);
      var now := ctr.accesses;
      ghost var ways := Column(setIndex);
      var i := FindWay(setIndex, UNDEFINED);
      if i < associativity {
        assert WriteSet(ways, tag, now, policies) == SetOutcome(ways[i := Block(now, true, tag)], Miss, None);
        SetBlock(i, setIndex, Block(now, true, tag));
        return Miss;
      }
      var way := Evict(setIndex);
      assert WriteSet(ways, tag, now, policies) == SetOutcome(ways[way := Block(now, true, tag)], Miss, Some(way));
      SetBlock(way, setIndex, Block(now, true, tag));
      ctr := ctr.(writeAllocates := ctr.writeAllocates + 1);
      access := Miss;
    }

    /** `load_trace`: the entries of the trace file, already parsed. */
    method LoadTrace(entries: seq<TraceEntry>)
      requires Valid()
      modifies this`trace, this`pos
      ensures Valid()
      ensures trace == entries && pos == 0
    {
      trace := entries;
      pos := 0;
    }

    /** The body of the loop of `run` for one entry (cache.cc:172-200). */
    method ProcessEntry(e: TraceEntry, ghost st0: CacheState, ghost done: seq<TraceEntry>)
        returns (ghost done': seq<TraceEntry>)
      requires Valid()
      requires View() == RunTrace(geom, policies, st0, done)
      modifies blocks, this`ctr
      ensures Valid()
      ensures done' == done + [e]
      ensures View() == RunTrace(geom, policies, st0, done')
      ensures ctr.accesses == old(ctr.accesses) + 1
    {
      done' := done + [e];
      ghost var before := View();
      RunTraceSnoc(geom, policies, st0, done, e);
      AccessesAfterStep(geom, policies, before, e);
      if e.isRead {
        var access := Read(e.address);
        ctr := ctr.(readCount := ctr.readCount + 1);
        if access == Miss {
          ctr := ctr.(readMisses := ctr.readMisses + 1);
        }
      } else {
        var access := Write(e.address);
        ctr := ctr.(writeCount := ctr.writeCount + 1);
        if access == Miss {
          ctr := ctr.(writeMisses := ctr.writeMisses + 1);
        }
      }
      ctr := ctr.(accesses := ctr.accesses + 1);
    }

    /** `run(num_entries)` (cache.cc:152-204): processes the next
        `num_entries` entries of the trace, or all remaining ones when it is
        0. That the invariant of a reachable cache survives it follows from
        `RunTraceKeepsInv`. */
    method Run(numEntries: u32)
      requires Valid()
      modifies blocks, this`ctr, this`pos
      ensures Valid()
      ensures trace == old(trace)
      ensures pos == old(pos) + RunCount(numEntries, |old(trace)| - old(pos))
      ensures View() == RunTrace(geom, policies, old(View()), trace[old(pos)..pos])
    {
      ghost var start := pos;
      ghost var st0 := View();
      ghost var done: seq<TraceEntry> := [];
      var firstAccess := ctr.accesses;
      while pos < |trace|
        invariant Valid() && trace == old(trace) && start <= pos <= |trace|
        invariant done == trace[start..pos]
        invariant View() == RunTrace(geom, policies, st0, done)
        invariant ctr.accesses == firstAccess + |done|
        invariant numEntries != 0 ==> |done| < numEntries
        decreases |trace| - pos
      {
        var e := trace[pos];
        assert trace[start..pos + 1] == done + [e];
        done := ProcessEntry(e, st0, done);
        pos := pos + 1;
        if numEntries != 0 && ctr.accesses - firstAccess == numEntries {
          break;
        }
      }
    }

    /** `num_of_mem_writes()` (cache.cc:392-409). */
    method NumOfMemWrites() returns (count: nat)
      ensures count == MemWrites(policies, ctr)
    {
      count := 0;
      if policies.hit == WriteBack {
        count := count + ctr.writeBacks;
      } else {
        count := count + ctr.writeThrus;
      }
      if policies.miss == WriteAllocate {
        count := count + ctr.writeAllocates;
      } else {
        count := count + ctr.noWriteAllocates;
      }
    }
  }
}
