/** The live regions of one mapping as a value: a list of (address, payload size) in address order.
    Free space is not stored; it is the gaps between consecutive regions.
    Gap 0 lies before the first region, gap k just after region k-1, the last one ends at the mapping's end. */
module Regions {
  import opened Basics
  import opened Words

  /** sizeof(struct tso_mm_region): two 32-bit words. */
  const HEADER: nat := 8

  /** Eight pages. */
  const INITIAL_SIZE: ulong := 8 * 4096

  datatype Region = Region(addr: nat, size: nat)

  datatype Heap = Heap(start: nat, size: nat, regions: seq<Region>)

  /** `current_strategy` holds whatever unsigned number user space sent; only three values are listed. */
  datatype Strategy = FIRST_FIT | BEST_FIT | WORST_FIT | Unlisted(code: nat)

  predicate Listed(s: Strategy) { !s.Unlisted? }

  function RegionSize(n: nat): nat { HEADER + n }

  /** The wrapping `unsigned long` form of the region size. */
  function RegionSize32(n: ulong): ulong { Add(HEADER, n) }

  function PayloadStart(r: Region): nat { r.addr + HEADER }

  function End(r: Region): nat { r.addr + RegionSize(r.size) }

  // ----- gaps and the heap invariant -----

  function Left(h: Heap, k: nat): nat
    requires k <= |h.regions|
  {
    if k == 0 then h.start else End(h.regions[k - 1])
  }

  function Right(h: Heap, k: nat): nat
    requires k <= |h.regions|
  {
    if k == |h.regions| then h.start + h.size else h.regions[k].addr
  }

  function Gap(h: Heap, k: nat): int
    requires k <= |h.regions|
  {
    Right(h, k) - Left(h, k)
  }

  /** Sorted, disjoint and in range, in one clause: no gap is negative. */
  ghost predicate WellFormed(h: Heap) {
    && 0 < h.start
    && h.start + h.size < WORD
    && forall k | 0 <= k <= |h.regions| :: Gap(h, k) >= 0
  }

  lemma {:induction false} Ordered(h: Heap, i: nat, j: nat)
    requires WellFormed(h) && i < j < |h.regions|
    ensures End(h.regions[i]) <= h.regions[j].addr
    decreases j - i
  {
    assert Gap(h, j) >= 0;
    if i + 1 == j {
    } else {
      Ordered(h, i, j - 1);
    }
  }

  /** Regions below index k end at or before gap k; regions from k on start at or after its end. */
  lemma AroundGap(h: Heap, k: nat, j: nat)
    requires WellFormed(h) && k <= |h.regions| && j < |h.regions|
    ensures j < k ==> End(h.regions[j]) <= Left(h, k)
    ensures k <= j ==> Right(h, k) <= h.regions[j].addr
    ensures Left(h, k) <= Right(h, k)
  {
    assert Gap(h, k) >= 0;
    if j < k - 1 {
      Ordered(h, j, k - 1);
    } else if k < j {
      Ordered(h, k, j);
    }
  }

  lemma InRange(h: Heap, i: nat)
    requires WellFormed(h) && i < |h.regions|
    ensures h.start <= h.regions[i].addr && End(h.regions[i]) <= h.start + h.size
  {
    assert Gap(h, 0) >= 0 && Gap(h, |h.regions|) >= 0;
    if 0 < i {
      Ordered(h, 0, i);
    }
    if i < |h.regions| - 1 {
      Ordered(h, i, |h.regions| - 1);
    }
  }

  /** Header-and-payload extents of live regions are pairwise disjoint, inside the mapping and in address order. */
  lemma Disjoint(h: Heap)
    requires WellFormed(h)
    ensures forall i, j | 0 <= i < j < |h.regions| :: End(h.regions[i]) <= h.regions[j].addr
    ensures forall i | 0 <= i < |h.regions| ::
              h.start <= h.regions[i].addr && End(h.regions[i]) <= h.start + h.size
  {
    forall i, j | 0 <= i < j < |h.regions|
      ensures End(h.regions[i]) <= h.regions[j].addr
    {
      Ordered(h, i, j);
    }
    forall i | 0 <= i < |h.regions|
      ensures h.start <= h.regions[i].addr && End(h.regions[i]) <= h.start + h.size
    {
      InRange(h, i);
    }
  }

  // ----- the free counter -----

  function Used(rs: seq<Region>): nat {
    if rs == [] then 0 else Used(rs[..|rs| - 1]) + RegionSize(rs[|rs| - 1].size)
  }

  function FreeBytes(h: Heap): int { h.size - Used(h.regions) }

  lemma {:induction false} UsedConcat(a: seq<Region>, b: seq<Region>)
    ensures Used(a + b) == Used(a) + Used(b)
  {
    if b == [] {
      assert a + b == a;
    } else {
      assert (a + b)[..|a + b| - 1] == a + b[..|b| - 1];
      UsedConcat(a, b[..|b| - 1]);
    }
  }

  function GapSum(h: Heap, m: nat): int
    requires m <= |h.regions| + 1
  {
    if m == 0 then 0 else GapSum(h, m - 1) + Gap(h, m - 1)
  }

  lemma {:induction false} GapSumTelescopes(h: Heap, m: nat)
    requires m <= |h.regions|
    ensures GapSum(h, m + 1) == Right(h, m) - h.start - Used(h.regions[..m])
  {
    if m == 0 {
    } else {
      GapSumTelescopes(h, m - 1);
      assert h.regions[..m][..m - 1] == h.regions[..m - 1];
    }
  }

  /** Conservation: what is not in a live region is in a gap, so the free counter is the sum of the gaps. */
  lemma Conservation(h: Heap)
    requires WellFormed(h)
    ensures FreeBytes(h) == GapSum(h, |h.regions| + 1)
    ensures 0 <= FreeBytes(h) <= h.size
    ensures forall k | 0 <= k <= |h.regions| :: Gap(h, k) <= FreeBytes(h)
  {
    GapSumTelescopes(h, |h.regions|);
    assert h.regions[..|h.regions|] == h.regions;
    forall k | 0 <= k <= |h.regions|
      ensures Gap(h, k) <= FreeBytes(h)
    {
      GapBelowSum(h, k, |h.regions| + 1);
    }
    assert Gap(h, 0) >= 0;
  }

  lemma {:induction false} GapBelowSum(h: Heap, k: nat, m: nat)
    requires WellFormed(h) && k < m <= |h.regions| + 1
    ensures 0 <= GapSum(h, m - 1)
    ensures Gap(h, k) <= GapSum(h, m)
  {
    assert Gap(h, m - 1) >= 0;
    if m == 1 {
    } else if k < m - 1 {
      GapBelowSum(h, k, m - 1);
      assert Gap(h, m - 2) >= 0;
    } else {
      GapBelowSum(h, 0, m - 1);
      assert Gap(h, 0) >= 0;
    }
  }

  // ----- the search -----

  /** The fit test of the search, for a region of `need` bytes; it is strict, so an exact-size gap is refused. */
  predicate Fits(h: Heap, need: nat, k: nat)
    requires k <= |h.regions|
  {
    Gap(h, k) > need
  }

  predicate AnyFit(h: Heap, need: nat) {
    exists k | 0 <= k <= |h.regions| :: Fits(h, need, k)
  }

  /** What each strategy promises about the gap it picks; ties go to the lowest address. */
  ghost predicate Chosen(h: Heap, need: nat, s: Strategy, k: nat)
    requires Listed(s)
  {
    && k <= |h.regions|
    && Fits(h, need, k)
    && match s
       case FIRST_FIT => forall j | 0 <= j < k :: !Fits(h, need, j)
       case BEST_FIT => forall j | 0 <= j <= |h.regions| && Fits(h, need, j) ::
                          Gap(h, k) <= Gap(h, j) && (j < k ==> Gap(h, k) < Gap(h, j))
       case WORST_FIT => forall j | 0 <= j <= |h.regions| && Fits(h, need, j) ::
                           Gap(h, j) <= Gap(h, k) && (j < k ==> Gap(h, j) < Gap(h, k))
  }

  predicate Better(s: Strategy, candidate: int, best: int) {
    match s
    case BEST_FIT => candidate < best
    case WORST_FIT => candidate > best
    case _ => false
  }

  /** One pass over gaps 0..m-1, keeping the best so far. */
  function Choose(h: Heap, need: nat, s: Strategy, m: nat): (r: Option<nat>)
    requires m <= |h.regions| + 1
    ensures r.Some? ==> r.value < m
  {
    if m == 0 then None
    else
      var best := Choose(h, need, s, m - 1);
      if Fits(h, need, m - 1) && (best == None || Better(s, Gap(h, m - 1), Gap(h, best.value)))
      then Some(m - 1)
      else best
  }

  lemma {:induction false} ChooseScans(h: Heap, need: nat, s: Strategy, m: nat)
    requires m <= |h.regions| + 1
    ensures var r := Choose(h, need, s, m);
            match r
            case None => forall j | 0 <= j < m :: !Fits(h, need, j)
            case Some(k) =>
              && k < m
              && Fits(h, need, k)
              && forall j | 0 <= j < m && Fits(h, need, j) ::
                   && !Better(s, Gap(h, j), Gap(h, k))
                   && (j < k ==> Better(s, Gap(h, k), Gap(h, j)))
  {
    if m == 0 {
    } else {
      ChooseScans(h, need, s, m - 1);
    }
  }

  /** The single pass finds exactly the gap its strategy promises, and finds one whenever any gap fits. */
  lemma ChooseIsChosen(h: Heap, need: nat, s: Strategy, k: nat)
    requires Listed(s)
    ensures Choose(h, need, s, |h.regions| + 1) == Some(k) <==> Chosen(h, need, s, k)
    ensures Choose(h, need, s, |h.regions| + 1) == None <==> !AnyFit(h, need)
  {
    ChooseScans(h, need, s, |h.regions| + 1);
    var r := Choose(h, need, s, |h.regions| + 1);
    if r.Some? {
      assert Fits(h, need, r.value);
    }
  }

  /** Where the code's search sends the new region. With an unlisted strategy no gap is ever "best",
      so any fit at all is turned into "before the first region". */
  function Search(h: Heap, need: nat, s: Strategy): (r: Option<nat>)
    ensures r.Some? ==> r.value <= |h.regions|
  {
    if Listed(s) then Choose(h, need, s, |h.regions| + 1)
    else if AnyFit(h, need) then Some(0) else None
  }

  /** Under a listed strategy the search returns the strategy's choice, and fails iff no gap fits. */
  lemma SearchMeaning(h: Heap, need: nat, s: Strategy)
    ensures Listed(s) ==> (Search(h, need, s) == None <==> !AnyFit(h, need))
    ensures Listed(s) ==> forall k: nat :: Chosen(h, need, s, k) ==> k <= |h.regions| && Search(h, need, s) == Some(k)
  {
    if Listed(s) {
      ChooseIsChosen(h, need, s, 0);
      forall k: nat | Chosen(h, need, s, k)
        ensures Search(h, need, s) == Some(k)
      {
        ChooseIsChosen(h, need, s, k);
      }
    }
  }

  // ----- allocation and release on values -----

  function InsertAt(h: Heap, k: nat, n: nat): Heap
    requires k <= |h.regions|
  {
    h.(regions := h.regions[..k] + [Region(Left(h, k), n)] + h.regions[k..])
  }

  function RemoveAt(h: Heap, k: nat): Heap
    requires k < |h.regions|
  {
    h.(regions := h.regions[..k] + h.regions[k + 1..])
  }

  /** The gap an allocation of `need` bytes uses: the counter check first, then the empty list, then the search. */
  function Place(h: Heap, need: nat, s: Strategy): (r: Option<nat>)
    ensures r.Some? ==> r.value <= |h.regions|
  {
    if FreeBytes(h) < need then None
    else if h.regions == [] then Some(0)
    else Search(h, need, s)
  }

  /** New heap and, when a gap was found, the payload address. */
  function Grant(h: Heap, n: nat, gap: Option<nat>): (Heap, Option<nat>)
    requires gap.Some? ==> gap.value <= |h.regions|
  {
    if gap.Some? then (InsertAt(h, gap.value, n), Some(Left(h, gap.value) + HEADER)) else (h, None)
  }

  /** Allocation with the true region size. */
  function Alloc(h: Heap, n: nat, s: Strategy): (Heap, Option<nat>) {
    Grant(h, n, Place(h, RegionSize(n), s))
  }

  /** Allocation as the code does it: the region size wraps, the size stored in the header does not. */
  function CodeAlloc(h: Heap, n: ulong, s: Strategy): (Heap, Option<nat>) {
    Grant(h, n, Place(h, RegionSize32(n), s))
  }

  /** The list without its first region whose payload starts at `a`. */
  function Without(rs: seq<Region>, a: nat): seq<Region> {
    if rs == [] then []
    else if PayloadStart(rs[0]) == a then rs[1..]
    else [rs[0]] + Without(rs[1..], a)
  }

  function Payloads(rs: seq<Region>): seq<nat> {
    seq(|rs|, k requires 0 <= k < |rs| => PayloadStart(rs[k]))
  }

  predicate IsLive(rs: seq<Region>, a: nat) { a in Payloads(rs) }

  /** New heap and return code. An unknown address is reported only when no region, or more than one, is live. */
  function Release(h: Heap, a: nat): (Heap, int) {
    (h.(regions := Without(h.regions, a)),
     if IsLive(h.regions, a) || |h.regions| == 1 then 0 else -1)
  }
}
