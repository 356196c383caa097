/** test6.c: a client that keeps its own array of live blocks and its own free counter,
    both in step with the allocator. */
module Benchmarks {
  import opened Basics
  import opened Words
  import opened Regions
  import opened Laws
  import opened HeapBytes
  import opened Traces
  import opened Systems

  const MAX_TOTAL_ALLOCS: nat := 12000

  /** `struct alloc`. */
  datatype Block = Block(address: nat, size: nat)

  datatype Params = Params(
    deallocateAfterFail: bool,
    jitter: nat,
    mean: nat,
    deallocFalldown: real,
    maxAllocs: nat,
    strategy: Strategy)

  /** What every caller in the program passes. */
  predicate Usable(p: Params) {
    p.jitter <= p.mean && 0.0 < p.deallocFalldown < 1.0 && 0 < p.maxAllocs && Listed(p.strategy)
  }

  /** `rand() % m`, for r the number that `rand` gave. */
  function Rem(r: nat, m: nat): (k: nat)
    requires 0 < m
    ensures k < m
  {
    r % m
  }

  /** How many more blocks a round may ask for when `held` are held, not counting this number itself. */
  function AllocLimit(p: Params, held: nat): (m: nat)
    requires Usable(p) && held < MAX_TOTAL_ALLOCS
    ensures m > 0
  {
    Min(p.maxAllocs, MAX_TOTAL_ALLOCS - held)
  }

  lemma AllocLimitIs(p: Params, held: nat)
    requires Usable(p) && held < MAX_TOTAL_ALLOCS
    ensures AllocLimit(p, held) == if p.maxAllocs < 12000 - held then p.maxAllocs else 12000 - held
  {
  }

  /** The size asked for when `rand()` gives r. */
  function ExpectedSize(p: Params, r: nat): int {
    if p.jitter > 0 then Rem(r, 2 * p.jitter) - p.jitter + p.mean else p.mean
  }

  /** Every expected size lies within the jitter around the mean, and every such size can be drawn. */
  lemma SizesDrawn(p: Params, e: int)
    requires Usable(p)
    ensures (exists r: nat :: ExpectedSize(p, r) == e)
        <==> if p.jitter == 0 then e == p.mean else p.mean - p.jitter <= e < p.mean + p.jitter
  {
    if p.jitter > 0 && p.mean - p.jitter <= e < p.mean + p.jitter {
      SmallRem(e + p.jitter - p.mean, 2 * p.jitter);
      assert ExpectedSize(p, e + p.jitter - p.mean) == e;
    } else if p.jitter == 0 {
      assert ExpectedSize(p, 0) == p.mean;
    }
    hide Rem;
  }

  lemma RemIsRemainder(r: nat, m: nat)
    requires 0 < m
    ensures Rem(r, m) == r % m
  {
  }

  lemma SmallRem(r: nat, m: nat)
    requires r < m
    ensures Rem(r, m) == r
  {
  }

  /** When a benchmark divides by zero, in terms of the first two draws of `rand` and of the value `stale` that the
      first turn finds in its uninitialised `place`. Either no block is asked for at all, or the first one is refused,
      and run_deallocations divides by the number of blocks; or the first turn takes a remainder by that number. */
  predicate Traps(p: Params, rand: nat -> nat, stale: int)
    requires Usable(p)
  {
    if Rem(rand(0), AllocLimit(p, 0)) == 0 then p.deallocateAfterFail
    else stale > 0 || (p.deallocateAfterFail && !FirstGranted(p, rand(1)))
  }

  /** An empty mapping serves the first request, cut to what the client takes to be free. */
  predicate FirstGranted(p: Params, r: nat) {
    Min(ExpectedSize(p, r), INITIAL_SIZE) + HEADER <= INITIAL_SIZE
  }

  /** The condition in terms of the source's own expressions. */
  lemma TrapsExactly(p: Params, rand: nat -> nat, stale: int)
    requires Usable(p)
    ensures Traps(p, rand, stale)
        <==> var maxAllocs := if p.maxAllocs < 12000 then p.maxAllocs else 12000;
             var expected := if p.jitter > 0 then rand(1) % (2 * p.jitter) - p.jitter + p.mean else p.mean;
             if rand(0) % maxAllocs == 0 then p.deallocateAfterFail
             else stale > 0 || (p.deallocateAfterFail && (if expected > 32768 then 32768 else expected) + 8 > 32768)
  {
  }

  lemma FirstGrantedIs(p: Params, r: nat)
    ensures FirstGranted(p, r) <==> Min(ExpectedSize(p, r), INITIAL_SIZE) + HEADER <= INITIAL_SIZE
  {
  }

  /** The same by the first round's events: the remainder of the first turn, else no block after the allocations. */
  lemma TrapsByRound(p: Params, rand: nat -> nat, stale: int)
    requires Usable(p)
    ensures p.maxAllocs > 0
    ensures var upTo := Rem(rand(0), AllocLimit(p, 0));
            Traps(p, rand, stale) <==>
              if 0 < upTo && stale > 0 then true
              else p.deallocateAfterFail && !(upTo > 0 && FirstGranted(p, rand(1)))
  {
    hide Rem, FirstGranted;
  }

  /** The benchmarks that `main` runs, in order. */
  function Shipped(): seq<Params> {
    AllBenchmarks(128) + AllBenchmarks(512)
  }

  function AllBenchmarks(mean: nat): seq<Params> {
    Strategies(mean, mean / 10) + Strategies(mean, mean / 5) + Strategies(mean, mean / 2) + Strategies(mean, mean)
  }

  function Strategies(mean: nat, jitter: nat): seq<Params> {
    [Params(true, jitter, mean, 0.8, 120, WORST_FIT),
     Params(true, jitter, mean, 0.8, 120, BEST_FIT),
     Params(true, jitter, mean, 0.8, 120, FIRST_FIT)]
  }

  /** The parameters of the shipped benchmarks: means of 128 and 512 bytes, jitters of a tenth, a fifth, a half and the
      whole of the mean, and worst, best and first fit in turn. */
  lemma ShippedParameters(i: nat)
    requires i < |Shipped()|
    ensures |Shipped()| == 24
    ensures var mean := if i < 12 then 128 else 512;
            Shipped()[i] == Params(true, mean / [10, 5, 2, 1][i / 3 % 4], mean, 0.8, 120,
                                   [WORST_FIT, BEST_FIT, FIRST_FIT][i % 3])
  {
    assert i in {0, 1, 2, 3, 4, 5, 6, 7, 8, 9, 10, 11, 12, 13, 14, 15, 16, 17, 18, 19, 20, 21, 22, 23};
  }

  /** Each shipped benchmark traps iff the first draw is a multiple of 120 or its stale value is positive. */
  lemma ShippedTraps(i: nat, rand: nat -> nat, stale: int)
    requires i < |Shipped()|
    ensures |Shipped()| == 24 && Usable(Shipped()[i])
    ensures Traps(Shipped()[i], rand, stale) <==> rand(0) % 120 == 0 || stale > 0
  {
    var p := Shipped()[i];
    assert p.maxAllocs == 120 && p.deallocateAfterFail && p.mean <= 512 && p.jitter <= p.mean;
  }

  /** The next limit on releases: the product, truncated. */
  function Falldown(limit: nat, p: Params): int { (limit as real * p.deallocFalldown).Floor }

  // ----- the coupling between client and allocator, on values -----

  function LiveBlocks(rs: seq<Region>): seq<Block> {
    seq(|rs|, k requires 0 <= k < |rs| => Block(PayloadStart(rs[k]), rs[k].size))
  }

  /** The client's blocks are a permutation of the live regions, and its counter differs from the
      allocator's by exactly the headers. */
  ghost predicate Coupled(blocks: seq<Block>, freeSpace: int, heap: Option<Heap>) {
    match heap
    case None => blocks == [] && freeSpace == INITIAL_SIZE
    case Some(h) =>
      && WellFormed(h) && h.size == INITIAL_SIZE
      && multiset(blocks) == multiset(LiveBlocks(h.regions))
      && freeSpace == FreeBytes(h) + HEADER * |blocks|
  }

  lemma CoupledSize(blocks: seq<Block>, freeSpace: int, h: Heap)
    requires Coupled(blocks, freeSpace, Some(h))
    ensures |blocks| == |h.regions|
    ensures 0 <= FreeBytes(h) <= INITIAL_SIZE
    ensures HEADER * |blocks| <= freeSpace <= INITIAL_SIZE
  {
    assert |multiset(blocks)| == |multiset(LiveBlocks(h.regions))|;
    Conservation(h);
    HeadersFit(h.regions);
  }

  lemma {:induction false} HeadersFit(rs: seq<Region>)
    ensures HEADER * |rs| <= Used(rs)
  {
    if rs == [] {
    } else {
      HeadersFit(rs[..|rs| - 1]);
    }
  }

  lemma CountUnique(s: seq<Block>, k: nat)
    requires k < |s| && forall j | 0 <= j < |s| && j != k :: s[j] != s[k]
    ensures multiset(s)[s[k]] == 1
  {
    assert s == s[..k] + [s[k]] + s[k + 1..];
    assert s[k] !in s[..k] && s[k] !in s[k + 1..];
  }

  lemma CountTwice(s: seq<Block>, i: nat, j: nat)
    requires i < j < |s| && s[i] == s[j]
    ensures multiset(s)[s[i]] >= 2
  {
    assert s == s[..i] + [s[i]] + s[i + 1..j] + [s[j]] + s[j + 1..];
  }

  /** No address occurs twice in the client's array, and each is live with the recorded size. */
  lemma CoupledBlocks(blocks: seq<Block>, freeSpace: int, h: Heap)
    requires Coupled(blocks, freeSpace, Some(h))
    ensures forall i | 0 <= i < |blocks| :: IsLive(h.regions, blocks[i].address)
    ensures forall i | 0 <= i < |blocks| :: blocks[i] in LiveBlocks(h.regions)
    ensures forall i, j | 0 <= i < j < |blocks| :: blocks[i].address != blocks[j].address
  {
    var live := LiveBlocks(h.regions);
    forall i | 0 <= i < |blocks|
      ensures blocks[i] in live && IsLive(h.regions, blocks[i].address)
    {
      var k := IndexOfBlock(blocks, freeSpace, h, i);
      assert Payloads(h.regions)[k] == blocks[i].address;
    }
    forall i, j | 0 <= i < j < |blocks|
      ensures blocks[i].address != blocks[j].address
    {
      var k := IndexOfBlock(blocks, freeSpace, h, i);
      var l := IndexOfBlock(blocks, freeSpace, h, j);
      LiveIndex(h, k);
      if blocks[i].address == blocks[j].address {
        CountTwice(blocks, i, j);
        CountUnique(live, k);
      }
    }
  }

  lemma IndexOfBlock(blocks: seq<Block>, freeSpace: int, h: Heap, i: nat) returns (k: nat)
    requires Coupled(blocks, freeSpace, Some(h)) && i < |blocks|
    ensures k < |h.regions| && LiveBlocks(h.regions)[k] == blocks[i]
  {
    assert blocks[i] in multiset(blocks);
    assert blocks[i] in LiveBlocks(h.regions);
    k :| 0 <= k < |LiveBlocks(h.regions)| && LiveBlocks(h.regions)[k] == blocks[i];
  }

  /** A request of the client's is never larger than a mapping, so the code allocates as true arithmetic would. */
  lemma SmallRequest(h: Heap, n: ulong, s: Strategy)
    requires WellFormed(h) && Listed(s) && n <= INITIAL_SIZE
    ensures Sound(h, n, s) && CodeAlloc(h, n, s) == Alloc(h, n, s)
  {
    hide WellFormed, Alloc, CodeAlloc, CanPlace;
    CodeAllocSoundExactly(h, n, s);
  }

  /** A successful allocation keeps the coupling, wherever the client puts the new block. */
  lemma AllocCoupled(blocks: seq<Block>, freeSpace: int, h: Heap, n: nat, s: Strategy, blocks': seq<Block>)
    requires Coupled(blocks, freeSpace, Some(h)) && Listed(s) && Alloc(h, n, s).1.Some?
    requires multiset(blocks') == multiset(blocks) + multiset{Block(Alloc(h, n, s).1.value, n)}
    ensures Coupled(blocks', freeSpace - n, Some(Alloc(h, n, s).0))
  {
    hide WellFormed, LiveBlocks, CanAlloc, FreeBytes, InsertAt, Place, IsLive, Left;
    AllocKeepsWellFormed(h, n, s);
    InsertedBlocks(h, Place(h, RegionSize(n), s).value, n);
    assert |multiset(blocks')| == |multiset(blocks)| + 1;
  }

  lemma InsertedBlocks(h: Heap, k: nat, n: nat)
    requires k <= |h.regions|
    ensures multiset(LiveBlocks(InsertAt(h, k, n).regions))
         == multiset(LiveBlocks(h.regions)) + multiset{Block(Left(h, k) + HEADER, n)}
  {
    var live := LiveBlocks(h.regions);
    assert LiveBlocks(InsertAt(h, k, n).regions) == live[..k] + [Block(Left(h, k) + HEADER, n)] + live[k..];
    assert live == live[..k] + live[k..];
  }

  /** Freeing the client's last block hits a live region, and dropping it keeps the coupling. */
  lemma ReleaseCoupled(blocks: seq<Block>, freeSpace: int, h: Heap)
    requires Coupled(blocks, freeSpace, Some(h)) && blocks != []
    ensures var last := blocks[|blocks| - 1];
            && IsLive(h.regions, last.address)
            && Release(h, last.address).1 == 0
            && Coupled(blocks[..|blocks| - 1], freeSpace + last.size, Some(Release(h, last.address).0))
  {
    var m := |blocks| - 1;
    var k := IndexOfBlock(blocks, freeSpace, h, m);
    ReleaseLive(h, k);
    assert Payloads(h.regions)[k] == blocks[m].address;
    RemovedBlocks(h, k);
    DropAt(blocks, m);
    assert blocks[..m] + blocks[m + 1..] == blocks[..m];
  }

  lemma RemovedBlocks(h: Heap, k: nat)
    requires k < |h.regions|
    ensures multiset(LiveBlocks(RemoveAt(h, k).regions))
         == multiset(LiveBlocks(h.regions)) - multiset{LiveBlocks(h.regions)[k]}
  {
    var live := LiveBlocks(h.regions);
    DropAt(live, k);
    assert LiveBlocks(RemoveAt(h, k).regions) == live[..k] + live[k + 1..];
  }

  /** The array after one turn of the inside-out shuffle. */
  function Shuffled(blocks: seq<Block>, place: nat, b: Block): seq<Block>
    requires place < |blocks| || place == 0
  {
    if place == |blocks| then blocks + [b] else blocks[place := b] + [blocks[place]]
  }

  /** The new block goes to its place, the block that was there to the end, and no other block moves. */
  lemma ShuffledAt(blocks: seq<Block>, place: nat, b: Block)
    requires place < |blocks| || place == 0
    ensures var r := Shuffled(blocks, place, b);
            && |r| == |blocks| + 1 && r[place] == b
            && (place < |blocks| ==> r[|blocks|] == blocks[place])
            && forall i | 0 <= i < |blocks| && i != place :: r[i] == blocks[i]
  {
  }

  /** The shuffle loses no block and doubles none. */
  lemma ShuffleAdds(blocks: seq<Block>, place: nat, b: Block)
    requires place < |blocks| || place == 0
    ensures multiset(Shuffled(blocks, place, b)) == multiset(blocks) + multiset{b}
  {
    if place < |blocks| {
      assert blocks == blocks[..place] + [blocks[place]] + blocks[place + 1..];
      assert blocks[place := b] == blocks[..place] + [b] + blocks[place + 1..];
    }
  }

  /** One request, refused or granted, from any coupled state, whether or not a mapping exists yet. */
  lemma RequestCoupled(blocks: seq<Block>, freeSpace: int, heap: Option<Heap>, base: ulong,
                       n: nat, s: Strategy, place: nat)
    requires Coupled(blocks, freeSpace, heap) && Listed(s) && Legal(OpAlloc(0, base))
    requires place < |blocks| || place == 0
    ensures Alloc(Mapped(heap, base), n, s).1.Some? <==> CanAlloc(Mapped(heap, base), n)
    ensures var (h', r) := Alloc(Mapped(heap, base), n, s);
            match r
            case None => Coupled(blocks, freeSpace, Some(h'))
            case Some(a) => Coupled(Shuffled(blocks, place, Block(a, n)), freeSpace - n, Some(h'))
  {
    EmptyCoupled(base);
    var h := Mapped(heap, base);
    assert Coupled(blocks, freeSpace, Some(h));
    hide WellFormed, LiveBlocks, CanAlloc, FreeBytes, IsLive, Alloc, Shuffled, Coupled;
    AllocKeepsWellFormed(h, n, s);
    var (h', r) := Alloc(h, n, s);
    if r.Some? {
      ShuffleAdds(blocks, place, Block(r.value, n));
      AllocCoupled(blocks, freeSpace, h, n, s, Shuffled(blocks, place, Block(r.value, n)));
    }
  }

  lemma EmptyCoupled(base: nat)
    requires 0 < base && base + INITIAL_SIZE < WORD
    ensures Coupled([], INITIAL_SIZE, Some(Heap(base, INITIAL_SIZE, [])))
  {
  }

  class Benchmark {
    const allocs: array<Block>
    const task: Task
    /** Where vm_mmap will put the task's mapping. */
    const base: ulong
    /** What `rand` gives, draw after draw, once seeded with RAND_SEED. */
    const rand: nat -> nat
    /** What the uninitialised `place` holds in a benchmark, in one of its rounds, at one turn of the loop. */
    const stale: (int, nat, nat) -> int
    /** Draws made since `srand`. */
    var drawn: nat
    var currentResult: int
    var currentStrategy: Strategy
    var freeSpace: int
    var allocsSize: nat
    var maxDeallocs: nat
    var allocsNumber: nat
    var deallocsNumber: nat
    var runs: nat
    /** How many blocks the last round was to allocate, and how many it did. */
    ghost var asked: nat
    ghost var granted: nat

    ghost function Blocks(): seq<Block>
      requires allocsSize <= allocs.Length
      reads this`allocsSize, allocs
    {
      allocs[..allocsSize]
    }

    ghost predicate Valid()
      reads this, allocs, task, task.tsoMm, if task.tsoMm != null then {task.tsoMm.mem} else {}
    {
      && allocsSize < MAX_TOTAL_ALLOCS == allocs.Length
      && this !in task.Footprint() && allocs !in task.Footprint()
      && InStep()
    }

    /** Client and allocator agree. */
    ghost predicate InStep()
      requires allocsSize <= allocs.Length
      reads this`freeSpace, this`allocsSize, this`currentStrategy, allocs
      reads task, task.tsoMm, if task.tsoMm != null then {task.tsoMm.mem} else {}
    {
      && Listed(currentStrategy)
      && Legal(OpAlloc(0, base))
      && task.Valid()
      && Coupled(Blocks(), freeSpace, task.View().heap)
    }

    /** No region is live. */
    ghost predicate Empty()
      reads task, task.tsoMm
    {
      task.tsoMm != null ==> task.tsoMm.regions == []
    }

    lemma EmptyShown()
      requires task.Valid()
      ensures Empty() <==> EmptyHeap(task.View().heap)
    {
    }

    /** A process that has made no call yet. */
    constructor (base: ulong, rand: nat -> nat, stale: (int, nat, nat) -> int)
      requires Legal(OpAlloc(0, base))
      ensures Valid() && fresh(task.Footprint()) && fresh(allocs)
      ensures this.rand == rand && this.stale == stale
      ensures Empty() && allocsSize == 0 && currentResult == -1
    {
      this.base, this.rand, this.stale := base, rand, stale;
      allocs := new Block[MAX_TOTAL_ALLOCS](_ => Block(0, 0));
      task := new Task(0);
      currentResult, drawn := -1, 0;
      currentStrategy := FIRST_FIT;
      freeSpace := INITIAL_SIZE;
      allocsSize, maxDeallocs, allocsNumber, deallocsNumber, runs := 0, 0, 0, 0, 0;
      asked, granted := 0, 0;
    }

    method NextDraw() returns (r: nat)
      modifies this`drawn
      ensures r == rand(old(drawn)) && drawn == old(drawn) + 1
    {
      r := rand(drawn);
      drawn := drawn + 1;
    }

    /** The array and the counter agree with the allocator, in words a client understands. */
    lemma Agreement()
      requires Valid() && task.View().heap.Some?
      ensures var h := task.View().heap.value;
              && freeSpace == task.tsoMm.free + 8 * allocsSize
              && |h.regions| == allocsSize
              && (forall i | 0 <= i < allocsSize :: Block(allocs[i].address, allocs[i].size) in
                    (set k | 0 <= k < |h.regions| :: Block(h.regions[k].addr + 8, h.regions[k].size)))
              && (forall i, j | 0 <= i < j < allocsSize :: allocs[i].address != allocs[j].address)
    {
      var h := task.View().heap.value;
      CoupledBlocks(Blocks(), freeSpace, h);
      CoupledSize(Blocks(), freeSpace, h);
      assert forall i | 0 <= i < allocsSize :: Blocks()[i] == allocs[i];
      forall i | 0 <= i < allocsSize
        ensures exists k :: 0 <= k < |h.regions| && Block(h.regions[k].addr + 8, h.regions[k].size) == allocs[i]
      {
        var k := IndexOfBlock(Blocks(), freeSpace, h, i);
      }
    }

    lemma FreeSpaceBounds()
      requires Valid()
      ensures HEADER * allocsSize <= freeSpace <= INITIAL_SIZE
    {
      if task.View().heap.Some? {
        CoupledSize(Blocks(), freeSpace, task.View().heap.value);
      }
    }

    method TsoAlloc(size: nat) returns (address: Option<nat>)
      requires Valid() && size <= INITIAL_SIZE
      modifies task.Footprint()
      ensures task.Valid() && fresh(task.Footprint() - old(task.Footprint()))
      ensures this !in task.Footprint() && allocs !in task.Footprint()
      ensures var (h', r) := Alloc(Mapped(old(task.View().heap), base), size, currentStrategy);
              task.View().heap == Some(h') && address == r
    {
      hide Rem, Task.Valid, Task.View, Alloc, CodeAlloc, Mapped, Sound, Coupled, Extends;
      CoupledMapped(Blocks(), freeSpace, task.View().heap, base);
      SmallRequest(Mapped(task.View().heap, base), size, currentStrategy);
      var o, sound := task.SysAlloc(size, base, currentStrategy);
      return if o.Allocated? then Some(o.addr) else None;
    }

    /** The size a turn asks for: the expected one, cut to what the client takes to be free. */
    method DrawSize(p: Params) returns (size: nat)
      requires Valid() && Usable(p)
      modifies this`drawn
      ensures size == Min(ExpectedSize(p, rand(old(drawn))), freeSpace)
      ensures var expected := if p.jitter > 0 then rand(old(drawn)) % (2 * p.jitter) - p.jitter + p.mean else p.mean;
              size == if expected > freeSpace then freeSpace else expected
      ensures drawn == old(drawn) + if p.jitter > 0 then 1 else 0
      ensures size <= freeSpace <= INITIAL_SIZE
    {
      hide Rem, Task.Valid, Task.View;
      FreeSpaceBounds();
      if p.jitter > 0 {
        RemIsRemainder(rand(drawn), 2 * p.jitter);
      }
      var expected := p.mean;
      if p.jitter > 0 {
        var r := NextDraw();
        expected := Rem(r, 2 * p.jitter) - p.jitter + p.mean;
      }
      size := if expected > freeSpace then freeSpace else expected;
    }

    /** One turn of the allocation loop: the inside-out shuffle moves an earlier block to the end
        and puts the new block in its place. */
    method AllocateOne(place: nat, size: nat) returns (ok: bool, ghost at: nat)
      requires Valid() && size <= freeSpace <= INITIAL_SIZE
      requires allocsSize < MAX_TOTAL_ALLOCS - 1 && (place == 0 || place < allocsSize)
      modifies this`freeSpace, this`allocsSize, this`allocsNumber, allocs, task.Footprint()
      ensures Valid() && fresh(task.Footprint() - old(task.Footprint()))
      ensures allocsSize - old(allocsSize) == allocsNumber - old(allocsNumber) == if ok then 1 else 0
      ensures Blocks() == if ok then Shuffled(old(Blocks()), place, Block(at, size)) else old(Blocks())
      ensures multiset(old(Blocks())) <= multiset(Blocks())
      ensures ok <==> CanAlloc(Mapped(old(task.View().heap), base), size)
      ensures old(Empty()) ==> (ok <==> size + HEADER <= INITIAL_SIZE)
    {
      hide Rem, Task.Valid, Task.View, Alloc, Mapped, CanAlloc, Shuffled, Coupled, Empty, Legal;
      ghost var blocks, heap := Blocks(), task.View().heap;
      RequestServed(place, size);
      MakeRoom(place);
      var address := TsoAlloc(size);
      assert Blocks() == blocks;
      if address == None {
        return false, 0;
      }
      var b := Block(address.value, size);
      Record(place, b);
      ShuffleAdds(blocks, place, b);
      return true, address.value;
    }

    /** What one request will come to. */
    lemma RequestServed(place: nat, size: nat)
      requires Valid() && (place == 0 || place < allocsSize)
      ensures var heap := Mapped(task.View().heap, base);
              var (h', r) := Alloc(heap, size, currentStrategy);
              && (r.Some? <==> CanAlloc(heap, size))
              && (Empty() ==> (r.Some? <==> size + HEADER <= INITIAL_SIZE))
              && match r
                 case None => Coupled(Blocks(), freeSpace, Some(h'))
                 case Some(a) => Coupled(Shuffled(Blocks(), place, Block(a, size)), freeSpace - size, Some(h'))
    {
      hide Task.Valid, Task.View, Alloc, Mapped, CanAlloc, Shuffled, Coupled, Empty, EmptyHeap;
      EmptyShown();
      EmptyAccepts(Blocks(), freeSpace, task.View().heap, base, size);
      RequestCoupled(Blocks(), freeSpace, task.View().heap, base, size, currentStrategy, place);
    }

    method MakeRoom(place: nat)
      requires allocsSize < allocs.Length && (place == 0 || place < allocsSize)
      modifies allocs
      ensures Blocks() == old(Blocks())
      ensures place < allocsSize ==> allocs[allocsSize] == allocs[place]
    {
      if place != allocsSize {
        allocs[allocsSize] := allocs[place];
      }
    }

    method Record(place: nat, b: Block)
      requires allocsSize < allocs.Length && (place == 0 || place < allocsSize)
      requires place < allocsSize ==> allocs[allocsSize] == allocs[place]
      modifies this`freeSpace, this`allocsSize, this`allocsNumber, allocs
      ensures allocsSize == old(allocsSize) + 1 && allocsNumber == old(allocsNumber) + 1
      ensures freeSpace == old(freeSpace) - b.size
      ensures Blocks() == Shuffled(old(Blocks()), place, b)
    {
      allocs[place] := b;
      allocsSize := allocsSize + 1;
      freeSpace := freeSpace - b.size;
      allocsNumber := allocsNumber + 1;
    }

    /** run_allocations. Its first remainder is always defined. With no block held, the first turn's remainder is
        by zero if the stale value is positive; otherwise a block is held afterwards iff the draw asks for any and
        the first of them is small enough. */
    method RunAllocations(p: Params) returns (ok: bool, trapped: bool)
      requires Valid() && Usable(p)
      modifies this`freeSpace, this`allocsSize, this`allocsNumber, this`drawn, this`asked
      modifies allocs, task.Footprint()
      ensures Valid() && fresh(task.Footprint() - old(task.Footprint()))
      ensures multiset(old(Blocks())) <= multiset(Blocks())
      ensures asked == Rem(rand(old(drawn)), AllocLimit(p, old(allocsSize)))
      ensures var upTo := asked;
              && 0 <= allocsSize - old(allocsSize) == allocsNumber - old(allocsNumber) <= upTo
              && (ok <==> 0 < upTo == allocsSize - old(allocsSize))
              && (trapped <==> 0 < upTo && old(allocsSize) == 0 && stale(currentResult, runs, 0) > 0)
              && (trapped ==> allocsSize == 0)
              && (old(Empty()) && !trapped ==>
                    (allocsSize > 0 <==> upTo > 0 && FirstGranted(p, rand(old(drawn) + 1))))
    {
      hide Rem, InStep, Empty, FirstGranted, AllocLimit, Legal;
      if Empty() {
        EmptySpace();
      }
      var upTo := DrawUpTo(p);
      if upTo == 0 {
        return false, false;
      }
      ok, trapped := AllocateUpTo(p, upTo);
    }

    method DrawUpTo(p: Params) returns (upTo: nat)
      requires Usable(p) && allocsSize < MAX_TOTAL_ALLOCS
      modifies this`drawn, this`asked
      ensures drawn == old(drawn) + 1
      ensures asked == upTo == Rem(rand(old(drawn)), AllocLimit(p, allocsSize)) < MAX_TOTAL_ALLOCS - allocsSize
    {
      hide Rem;
      var room := MAX_TOTAL_ALLOCS - allocsSize;
      var r := NextDraw();
      upTo := Rem(r, if p.maxAllocs < room then p.maxAllocs else room);
      asked := upTo;
    }

    /** The loop of run_allocations: stops at the first refusal. */
    method AllocateUpTo(p: Params, upTo: nat) returns (ok: bool, trapped: bool)
      requires Valid() && Usable(p) && 0 < upTo < MAX_TOTAL_ALLOCS - allocsSize
      requires Empty() ==> allocsSize == 0 && freeSpace == INITIAL_SIZE
      modifies this`freeSpace, this`allocsSize, this`allocsNumber, this`drawn, allocs, task.Footprint()
      ensures Valid() && fresh(task.Footprint() - old(task.Footprint()))
      ensures 0 <= allocsSize - old(allocsSize) == allocsNumber - old(allocsNumber) <= upTo
      ensures ok <==> allocsSize - old(allocsSize) == upTo
      ensures trapped <==> old(allocsSize) == 0 && stale(currentResult, runs, 0) > 0
      ensures trapped ==> allocsSize == 0
      ensures old(Empty()) && !trapped ==> (allocsSize > 0 <==> FirstGranted(p, rand(old(drawn))))
      ensures multiset(old(Blocks())) <= multiset(Blocks())
    {
      hide Rem, InStep, Empty, Min, Legal, Usable, FirstGranted;
      ok, trapped := Turn(p, 0);
      if ok {
        ok := AllocateRest(p, upTo);
      }
    }

    /** The turns after the first, which never trap. */
    method AllocateRest(p: Params, upTo: nat) returns (ok: bool)
      requires Valid() && Usable(p) && 0 < upTo <= MAX_TOTAL_ALLOCS - allocsSize && 0 < allocsSize
      modifies this`freeSpace, this`allocsSize, this`allocsNumber, this`drawn, allocs, task.Footprint()
      ensures Valid() && fresh(task.Footprint() - old(task.Footprint()))
      ensures 0 <= allocsSize - old(allocsSize) == allocsNumber - old(allocsNumber) < upTo
      ensures ok <==> allocsSize - old(allocsSize) == upTo - 1
      ensures multiset(old(Blocks())) <= multiset(Blocks())
    {
      hide Rem, InStep, Empty, Min, Legal, Usable, FirstGranted;
      for i := 1 to upTo
        invariant Valid() && fresh(task.Footprint() - old(task.Footprint()))
        invariant allocsSize == old(allocsSize) + i - 1 && allocsNumber == old(allocsNumber) + i - 1
        invariant multiset(old(Blocks())) <= multiset(Blocks())
      {
        var trapped;
        ok, trapped := Turn(p, i);
        if !ok {
          return;
        }
      }
      return true;
    }

    /** One turn of the loop: draw a place and a size, then allocate. All that the draws decide. */
    method TurnDrawn(p: Params, i: nat) returns (ok: bool, trapped: bool, ghost at: nat)
      requires Valid() && Usable(p) && allocsSize < MAX_TOTAL_ALLOCS - 1
      modifies this`freeSpace, this`allocsSize, this`allocsNumber, this`drawn, allocs, task.Footprint()
      ensures Valid() && fresh(task.Footprint() - old(task.Footprint()))
      ensures allocsSize - old(allocsSize) == allocsNumber - old(allocsNumber) == if ok then 1 else 0
      ensures multiset(old(Blocks())) <= multiset(Blocks())
      ensures trapped <==> old(allocsSize) == 0 && stale(currentResult, runs, i) > 0
      ensures trapped ==> !ok
      ensures !trapped ==>
                var moves := stale(currentResult, runs, i) > 0;
                var place := if moves then Rem(rand(old(drawn)), old(allocsSize)) else 0;
                var draw := old(drawn) + if moves then 1 else 0;
                var size := Min(ExpectedSize(p, rand(draw)), old(freeSpace));
                && drawn == draw + (if p.jitter > 0 then 1 else 0)
                && size >= 0
                && Blocks() == if ok then Shuffled(old(Blocks()), place, Block(at, size)) else old(Blocks())
      ensures old(Empty()) && !trapped && old(allocsSize) == 0 && old(freeSpace) == INITIAL_SIZE ==>
                (ok <==> FirstGranted(p, rand(old(drawn))))
    {
      hide Rem, InStep, Empty, ExpectedSize, Usable, Shuffled, Min, FirstGranted, Legal;
      FirstGrantedIs(p, rand(drawn));
      var place, size := DrawTurn(p, i);
      if place == None {
        return false, true, 0;
      }
      ok, at := AllocateOne(place.value, size);
      return ok, false, at;
    }

    /** The draws of a turn: first the place of the new block, then its size. */
    method DrawTurn(p: Params, i: nat) returns (place: Option<nat>, size: nat)
      requires Valid() && Usable(p)
      modifies this`drawn
      ensures place == None <==> allocsSize == 0 && stale(currentResult, runs, i) > 0
      ensures place.Some? ==>
                var moves := stale(currentResult, runs, i) > 0;
                var draw := old(drawn) + if moves then 1 else 0;
                && (!moves ==> place.value == 0)
                && (moves ==> allocsSize > 0 && place.value == Rem(rand(old(drawn)), allocsSize))
                && drawn == draw + (if p.jitter > 0 then 1 else 0)
                && size == Min(ExpectedSize(p, rand(draw)), freeSpace)
                && size <= freeSpace <= INITIAL_SIZE
    {
      hide Rem, InStep, ExpectedSize, Usable, Min;
      size := 0;
      place := DrawPlace(i);
      if place.Some? {
        size := DrawSize(p);
      }
    }

    /** The same, as far as the loop needs it. */
    method Turn(p: Params, i: nat) returns (ok: bool, trapped: bool)
      requires Valid() && Usable(p) && allocsSize < MAX_TOTAL_ALLOCS - 1
      modifies this`freeSpace, this`allocsSize, this`allocsNumber, this`drawn, allocs, task.Footprint()
      ensures Valid() && fresh(task.Footprint() - old(task.Footprint()))
      ensures allocsSize - old(allocsSize) == allocsNumber - old(allocsNumber) == if ok then 1 else 0
      ensures multiset(old(Blocks())) <= multiset(Blocks())
      ensures trapped <==> old(allocsSize) == 0 && stale(currentResult, runs, i) > 0
      ensures trapped ==> !ok
      ensures old(Empty()) && !trapped && old(allocsSize) == 0 && old(freeSpace) == INITIAL_SIZE ==>
                (ok <==> FirstGranted(p, rand(old(drawn))))
    {
      hide Rem, InStep, Empty, ExpectedSize, Usable, Shuffled, Min, FirstGranted;
      ghost var at;
      ok, trapped, at := TurnDrawn(p, i);
    }

    /** The place of the new block; None stands for the remainder by zero. */
    method DrawPlace(i: nat) returns (place: Option<nat>)
      modifies this`drawn
      ensures place == None <==> allocsSize == 0 && stale(currentResult, runs, i) > 0
      ensures place.Some? && stale(currentResult, runs, i) <= 0 ==> place.value == 0 && drawn == old(drawn)
      ensures place.Some? && stale(currentResult, runs, i) > 0 ==>
                place.value == Rem(rand(old(drawn)), allocsSize) && drawn == old(drawn) + 1
    {
      if stale(currentResult, runs, i) <= 0 {
        return Some(0);
      }
      if allocsSize == 0 {
        return None;
      }
      var r := NextDraw();
      return Some(Rem(r, allocsSize));
    }

    lemma EmptySpace()
      requires Valid() && Empty()
      ensures allocsSize == 0 && freeSpace == INITIAL_SIZE
    {
      EmptyShown();
      if task.View().heap.Some? {
        CoupledSize(Blocks(), freeSpace, task.View().heap.value);
        assert Used(task.View().heap.value.regions) == 0;
      }
    }

    /** tso_free, which this client only ever calls on a live block. */
    method TsoFree(address: nat)
      requires Valid() && task.View().heap.Some? && address < WORD
      requires IsLive(task.View().heap.value.regions, address)
      modifies task.Footprint()
      ensures task.Valid() && fresh(task.Footprint() - old(task.Footprint()))
      ensures this !in task.Footprint() && allocs !in task.Footprint()
      ensures task.View().heap == Some(Release(old(task.View().heap.value), address).0)
    {
      hide Rem, Task.Valid, Task.View, Release, Coupled;
      var o := task.SysFree(address);
    }

    /** run_deallocations_down_to: blocks go from the end of the array. */
    method RunDeallocationsDownTo(downTo: nat)
      requires Valid()
      modifies this`freeSpace, this`allocsSize, this`deallocsNumber, task.Footprint()
      ensures Valid() && fresh(task.Footprint() - old(task.Footprint()))
      ensures allocsSize == if old(allocsSize) > downTo then downTo else old(allocsSize)
      ensures old(allocsSize) - allocsSize == deallocsNumber - old(deallocsNumber)
      ensures Blocks() == old(Blocks())[..allocsSize]
    {
      hide Rem, InStep;
      while allocsSize > downTo
        invariant Valid() && fresh(task.Footprint() - old(task.Footprint()))
        invariant allocsSize <= old(allocsSize) && (old(allocsSize) > downTo ==> downTo <= allocsSize)
        invariant old(allocsSize) <= downTo ==> allocsSize == old(allocsSize)
        invariant old(allocsSize) - allocsSize == deallocsNumber - old(deallocsNumber)
        invariant Blocks() == old(Blocks())[..allocsSize]
        decreases allocsSize
      {
        FreeLast();
      }
    }

    /** One turn of the deallocation loop. */
    method FreeLast()
      requires Valid() && 0 < allocsSize
      modifies this`freeSpace, this`allocsSize, this`deallocsNumber, task.Footprint()
      ensures Valid() && fresh(task.Footprint() - old(task.Footprint()))
      ensures allocsSize == old(allocsSize) - 1 && deallocsNumber == old(deallocsNumber) + 1
      ensures Blocks() == old(Blocks())[..allocsSize]
    {
      hide Rem, Task.Valid, Task.View, Task.Footprint, Release, Coupled, Legal, Payloads;
      ghost var blocks, heap := Blocks(), task.View().heap;
      var last := allocs[allocsSize - 1];
      LastIsLive(blocks, freeSpace, heap);
      TsoFree(last.address);
      Drop(last.size);
    }

    method Drop(size: nat)
      requires 0 < allocsSize <= allocs.Length
      modifies this`freeSpace, this`allocsSize, this`deallocsNumber
      ensures freeSpace == old(freeSpace) + size
      ensures allocsSize == old(allocsSize) - 1 && deallocsNumber == old(deallocsNumber) + 1
      ensures Blocks() == old(Blocks())[..allocsSize]
    {
      deallocsNumber := deallocsNumber + 1;
      freeSpace := freeSpace + size;
      allocsSize := allocsSize - 1;
    }

    /** run_deallocations. The remainder by allocs_size traps exactly when the client holds no block. */
    method RunDeallocations(p: Params) returns (trapped: bool)
      requires Valid() && Usable(p)
      modifies this`freeSpace, this`allocsSize, this`deallocsNumber, this`maxDeallocs, this`drawn, task.Footprint()
      ensures Valid() && fresh(task.Footprint() - old(task.Footprint()))
      ensures trapped <==> old(allocsSize) == 0
      ensures trapped ==> allocsSize == 0 && maxDeallocs == old(maxDeallocs) && deallocsNumber == old(deallocsNumber)
      ensures !trapped ==> 0 < allocsSize <= old(allocsSize)
      ensures !trapped ==>
                maxDeallocs as real <= old(maxDeallocs) as real * p.deallocFalldown < maxDeallocs as real + 1.0
      ensures drawn == old(drawn) + if trapped then 0 else 1
      ensures !trapped && old(maxDeallocs) > 0 ==> maxDeallocs < old(maxDeallocs)
      ensures !trapped && old(maxDeallocs) == 0 ==> maxDeallocs == 0 && allocsSize == old(allocsSize)
      ensures old(allocsSize) - allocsSize == deallocsNumber - old(deallocsNumber)
      ensures !trapped ==>
                old(allocsSize) - allocsSize == Min(Rem(rand(old(drawn)), old(allocsSize)), old(maxDeallocs))
    {
      hide Rem, InStep, Falldown, Legal;
      if allocsSize == 0 {
        return true;
      }
      var r := NextDraw();
      var expected := Rem(r, allocsSize);
      RunDeallocationsDownTo(allocsSize - if expected > maxDeallocs then maxDeallocs else expected);
      Shrinks(maxDeallocs, p);
      FalldownMeans(maxDeallocs, p);
      maxDeallocs := Falldown(maxDeallocs, p);
      return false;
    }

    /** run_full_deallocation. */
    method RunFullDeallocation()
      requires Valid()
      modifies this`freeSpace, this`allocsSize, this`deallocsNumber, task.Footprint()
      ensures Valid() && fresh(task.Footprint() - old(task.Footprint()))
      ensures allocsSize == 0 && Empty() && freeSpace == INITIAL_SIZE
      ensures task.tsoMm != null ==> task.tsoMm.firstRegion == 0 && task.tsoMm.free == INITIAL_SIZE
      ensures old(allocsSize) == deallocsNumber - old(deallocsNumber)
    {
      RunDeallocationsDownTo(0);
      EmptyShown();
      NoBlocksNoRegions(freeSpace, task.View().heap);
    }

    /** init_benchmark and the assignments after it. */
    method Reset(p: Params)
      requires Valid() && Usable(p) && Empty()
      modifies this
      ensures Valid() && Empty()
      ensures allocsSize == allocsNumber == deallocsNumber == runs == drawn == 0
      ensures currentResult == old(currentResult) + 1
      ensures maxDeallocs == p.maxAllocs && currentStrategy == p.strategy && freeSpace == INITIAL_SIZE
    {
      hide Rem, Task.Valid, Task.View, EmptyHeap, Coupled;
      EmptyShown();
      NoRegionsNoBlocks(Blocks(), freeSpace, task.View().heap);
      currentResult := currentResult + 1;
      drawn := 0;
      currentStrategy := p.strategy;
      freeSpace := INITIAL_SIZE;
      maxDeallocs := p.maxAllocs;
      allocsSize := 0;
      allocsNumber, deallocsNumber, runs := 0, 0, 0;
      assert Blocks() == [];
    }

    /** What holds between rounds: once a round has gone through, the client always holds a block. */
    ghost predicate BetweenRounds(p: Params)
      reads this, task, task.tsoMm
    {
      && allocsNumber - deallocsNumber == allocsSize
      && (runs == 0 ==>
            Empty() && allocsSize == allocsNumber == drawn == 0 && maxDeallocs == p.maxAllocs)
      && (runs > 0 ==> allocsSize > 0)
    }

    /** One turn of the endless loop. A turn that goes on decreases (maxDeallocs, MAX_TOTAL_ALLOCS - allocsSize). */
    method Round(p: Params) returns (stop: bool, trapped: bool)
      requires Valid() && Usable(p) && BetweenRounds(p)
      modifies this`freeSpace, this`allocsSize, this`allocsNumber, this`deallocsNumber, this`maxDeallocs, this`runs
      modifies this`drawn, this`asked, allocs, task.Footprint()
      ensures Valid() && fresh(task.Footprint() - old(task.Footprint()))
      ensures runs == old(runs) + 1
      ensures allocsNumber - deallocsNumber == allocsSize
      ensures trapped <==> old(runs) == 0 && Traps(p, rand, stale(currentResult, 1, 0))
      ensures trapped ==> allocsNumber == 0 && !stop
      ensures asked == Rem(rand(old(drawn)), AllocLimit(p, old(allocsSize)))
      ensures allocsNumber >= old(allocsNumber)
      ensures stop <==>
                && !trapped
                && (asked == 0 || allocsNumber - old(allocsNumber) < asked)
                && (old(maxDeallocs) == 0 || !p.deallocateAfterFail)
      ensures stop ==> maxDeallocs == old(maxDeallocs)
      ensures !stop && !trapped ==>
                && BetweenRounds(p)
                && (maxDeallocs < old(maxDeallocs)
                    || (maxDeallocs == old(maxDeallocs) && allocsSize > old(allocsSize)))
    {
      hide Rem, InStep, Empty, Legal, FirstGranted, Falldown, Traps, Min, Usable, AllocLimit;
      TrapsByRound(p, rand, stale(currentResult, 1, 0));
      runs := runs + 1;
      var ok;
      ok, trapped := RunAllocations(p);
      if trapped {
        return false, true;
      }
      if !ok && (maxDeallocs == 0 || !p.deallocateAfterFail) {
        return true, false;
      }
      trapped := RunDeallocations(p);
      return false, trapped;
    }

    /** run_benchmark, started on an empty heap. It ends, and leaves an empty heap, or divides by zero in its first
        round; which of the two, the parameters, the first two draws and the first stale value decide. */
    method RunBenchmark(p: Params) returns (trapped: bool)
      requires Valid() && Usable(p) && Empty()
      modifies this, allocs, task.Footprint()
      ensures Valid() && fresh(task.Footprint() - old(task.Footprint()))
      ensures currentResult == old(currentResult) + 1
      ensures trapped <==> Traps(p, rand, stale(currentResult, 1, 0))
      ensures trapped ==> runs == 1 && allocsNumber == 0
      ensures !trapped ==> (asked == 0 || granted < asked) && (p.deallocateAfterFail ==> maxDeallocs == 0)
      ensures !trapped && task.tsoMm != null ==>
                task.tsoMm.firstRegion == 0 && task.tsoMm.free == INITIAL_SIZE
      ensures !trapped ==> allocsSize == 0 && Empty() && freeSpace == INITIAL_SIZE && allocsNumber == deallocsNumber
    {
      hide Rem, InStep, Empty, Usable, Legal, Traps;
      Reset(p);
      trapped := RunRounds(p);
      if !trapped {
        RunFullDeallocation();
      }
    }

    /** The endless loop. */
    method RunRounds(p: Params) returns (trapped: bool)
      requires Valid() && Usable(p) && BetweenRounds(p) && runs == 0
      modifies this`freeSpace, this`allocsSize, this`allocsNumber, this`deallocsNumber, this`maxDeallocs, this`runs
      modifies this`drawn, this`asked, this`granted, allocs, task.Footprint()
      ensures Valid() && fresh(task.Footprint() - old(task.Footprint()))
      ensures allocsNumber - deallocsNumber == allocsSize
      ensures trapped <==> Traps(p, rand, stale(currentResult, 1, 0))
      ensures trapped ==> runs == 1 && allocsNumber == 0
      ensures !trapped ==> (asked == 0 || granted < asked) && (p.deallocateAfterFail ==> maxDeallocs == 0)
    {
      hide Rem, InStep, Empty, Usable, Legal, Traps, AllocLimit;
      while true
        invariant Valid() && fresh(task.Footprint() - old(task.Footprint()))
        invariant BetweenRounds(p)
        invariant runs > 0 ==> !Traps(p, rand, stale(currentResult, 1, 0))
        decreases maxDeallocs, MAX_TOTAL_ALLOCS - allocsSize
      {
        var stop;
        ghost var before := allocsNumber;
        stop, trapped := Round(p);
        granted := allocsNumber - before;
        if stop || trapped {
          return;
        }
      }
    }

    /** The benchmarks one after another, as main calls them: each one leaves the heap the next one needs, and the
        suite traps exactly when one of them does. */
    method RunSuite(ps: seq<Params>) returns (trapped: bool)
      requires Valid() && Empty() && forall i | 0 <= i < |ps| :: Usable(ps[i])
      modifies this, allocs, task.Footprint()
      ensures Valid() && fresh(task.Footprint() - old(task.Footprint()))
      ensures trapped <==>
                exists i | 0 <= i < |ps| :: Traps(ps[i], rand, stale(old(currentResult) + 1 + i, 1, 0))
      ensures !trapped ==> Empty() && (ps != [] ==> freeSpace == INITIAL_SIZE && allocsSize == 0)
    {
      hide Rem, InStep, Empty, Usable, Legal, Traps;
      for i := 0 to |ps|
        invariant Valid() && Empty() && fresh(task.Footprint() - old(task.Footprint()))
        invariant i > 0 ==> freeSpace == INITIAL_SIZE && allocsSize == 0
        invariant currentResult == old(currentResult) + i
        invariant forall j | 0 <= j < i :: !Traps(ps[j], rand, stale(old(currentResult) + 1 + j, 1, 0))
      {
        trapped := RunBenchmark(ps[i]);
        if trapped {
          return;
        }
      }
      return false;
    }
  }

  /** The program as shipped, from its start: it divides by zero exactly when the seeded generator's first number is a
      multiple of 120, or a benchmark's first turn finds a positive value in `place`. */
  method RunShipped(base: ulong, rand: nat -> nat, stale: (int, nat, nat) -> int) returns (trapped: bool)
    requires Legal(OpAlloc(0, base))
    ensures trapped <==> rand(0) % 120 == 0 || exists i | 0 <= i < 24 :: stale(i, 1, 0) > 0
  {
    var b := new Benchmark(base, rand, stale);
    var ps := Shipped();
    assert |ps| == 24;
    forall i | 0 <= i < 24
      ensures Usable(ps[i]) && (Traps(ps[i], rand, stale(i, 1, 0)) <==> rand(0) % 120 == 0 || stale(i, 1, 0) > 0)
    {
      ShippedTraps(i, rand, stale(i, 1, 0));
    }
    trapped := b.RunSuite(ps);
    assert Traps(ps[0], rand, stale(0, 1, 0)) <==> rand(0) % 120 == 0 || stale(0, 1, 0) > 0;
  }

  /** A positive value in `place` when the first benchmark starts, and none later. */
  function StaleAtFirst(result: int, round: nat, turn: nat): int {
    if result == 0 && round == 1 && turn == 0 then 1 else 0
  }

  /** Every outcome is reached: a generator that gives 0 makes the program divide by zero, one that gives 1 does not,
      unless the first `place` happens to hold a positive value. */
  method BothOutcomes(base: ulong) returns (zero: bool, one: bool, oneButStale: bool)
    requires Legal(OpAlloc(0, base))
    ensures zero && !one && oneButStale
  {
    zero := RunShipped(base, _ => 0, (_, _, _) => 0);
    one := RunShipped(base, _ => 1, (_, _, _) => 0);
    oneButStale := RunShipped(base, _ => 1, StaleAtFirst);
    assert StaleAtFirst(0, 1, 0) > 0;
  }

  ghost predicate EmptyHeap(heap: Option<Heap>) {
    heap.Some? ==> heap.value.regions == []
  }

  lemma EmptyAccepts(blocks: seq<Block>, freeSpace: int, heap: Option<Heap>, base: ulong, n: nat)
    requires Coupled(blocks, freeSpace, heap)
    ensures EmptyHeap(heap) ==> (CanAlloc(Mapped(heap, base), n) <==> n + HEADER <= INITIAL_SIZE)
  {
  }

  lemma CoupledMapped(blocks: seq<Block>, freeSpace: int, heap: Option<Heap>, base: ulong)
    requires Coupled(blocks, freeSpace, heap) && Legal(OpAlloc(0, base))
    ensures WellFormed(Mapped(heap, base))
  {
  }

  /** The client's last block can be freed, and dropped then. */
  lemma LastIsLive(blocks: seq<Block>, freeSpace: int, heap: Option<Heap>)
    requires Coupled(blocks, freeSpace, heap) && blocks != []
    ensures heap.Some?
    ensures var last := blocks[|blocks| - 1];
            && last.address < WORD
            && IsLive(heap.value.regions, last.address)
            && Coupled(blocks[..|blocks| - 1], freeSpace + last.size, Some(Release(heap.value, last.address).0))
  {
    var h, last := heap.value, blocks[|blocks| - 1];
    assert WellFormed(h);
    hide Coupled, Release, WellFormed;
    ReleaseCoupled(blocks, freeSpace, h);
    LiveIsWord(h, last.address);
  }

  lemma LiveIsWord(h: Heap, a: nat)
    requires WellFormed(h) && IsLive(h.regions, a)
    ensures a < WORD
  {
    InRange(h, IndexOf(h.regions, a));
  }

  lemma NoBlocksNoRegions(freeSpace: int, heap: Option<Heap>)
    requires Coupled([], freeSpace, heap)
    ensures EmptyHeap(heap) && freeSpace == INITIAL_SIZE
  {
    if heap.Some? {
      CoupledSize([], freeSpace, heap.value);
    }
  }

  lemma NoRegionsNoBlocks(blocks: seq<Block>, freeSpace: int, heap: Option<Heap>)
    requires Coupled(blocks, freeSpace, heap) && EmptyHeap(heap)
    ensures Coupled([], INITIAL_SIZE, heap)
  {
    if heap.Some? {
      assert LiveBlocks(heap.value.regions) == [];
    }
  }

  lemma FalldownMeans(limit: nat, p: Params)
    ensures Falldown(limit, p) as real <= limit as real * p.deallocFalldown < Falldown(limit, p) as real + 1.0
  {
  }

  /** The truncated product strictly shrinks a positive limit, and keeps 0. */
  lemma Shrinks(limit: nat, p: Params)
    requires Usable(p)
    ensures 0 <= Falldown(limit, p)
    ensures if limit == 0 then Falldown(limit, p) == 0 else Falldown(limit, p) < limit
  {
    if limit > 0 {
      assert limit as real * p.deallocFalldown < limit as real * 1.0;
    }
  }
}
