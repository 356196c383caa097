/** Laws of the allocator that relate several operations, for every valid heap. */
module Laws {
  import opened Basics
  import opened Words
  import opened Regions

  // ----- gap-sequence laws -----

  function Gaps(h: Heap): seq<int> {
    seq(|h.regions| + 1, k requires 0 <= k <= |h.regions| => Gap(h, k))
  }

  /** Allocation splits the chosen gap into an empty one and the remainder. */
  lemma InsertGaps(h: Heap, k: nat, n: nat)
    requires k <= |h.regions|
    ensures Gaps(InsertAt(h, k, n)) == Gaps(h)[..k] + [0, Gap(h, k) - RegionSize(n)] + Gaps(h)[k + 1..]
  {
  }

  /** Release merges two gaps with the region between them. */
  lemma RemoveGaps(h: Heap, k: nat)
    requires k < |h.regions|
    ensures Gaps(RemoveAt(h, k))
         == Gaps(h)[..k] + [Gap(h, k) + RegionSize(h.regions[k].size) + Gap(h, k + 1)] + Gaps(h)[k + 2..]
  {
  }

  lemma InsertIndex(h: Heap, k: nat, n: nat, i: nat)
    requires k <= |h.regions|
    ensures InsertAt(h, k, n).start == h.start && InsertAt(h, k, n).size == h.size
    ensures var rs := InsertAt(h, k, n).regions;
            && |rs| == |h.regions| + 1
            && (i < k ==> rs[i] == h.regions[i])
            && (i == k ==> rs[i] == Region(Left(h, k), n))
            && (k < i <= |h.regions| ==> rs[i] == h.regions[i - 1])
  {
  }

  lemma RemoveIndex(h: Heap, k: nat, i: nat)
    requires k < |h.regions|
    ensures RemoveAt(h, k).start == h.start && RemoveAt(h, k).size == h.size
    ensures var rs := RemoveAt(h, k).regions;
            && |rs| == |h.regions| - 1
            && (i < k ==> rs[i] == h.regions[i])
            && (k <= i < |h.regions| - 1 ==> rs[i] == h.regions[i + 1])
  {
  }

  lemma InsertGapAt(h: Heap, k: nat, n: nat, j: nat)
    requires k <= |h.regions| && j <= |h.regions| + 1
    ensures Gap(InsertAt(h, k, n), j)
         == if j < k then Gap(h, j)
            else if j == k then 0
            else if j == k + 1 then Gap(h, k) - RegionSize(n)
            else Gap(h, j - 1)
  {
    InsertIndex(h, k, n, j);
    if 0 < j {
      InsertIndex(h, k, n, j - 1);
    }
  }

  lemma RemoveGapAt(h: Heap, k: nat, j: nat)
    requires k < |h.regions| && j < |h.regions|
    ensures Gap(RemoveAt(h, k), j)
         == if j < k then Gap(h, j)
            else if j == k then Gap(h, k) + RegionSize(h.regions[k].size) + Gap(h, k + 1)
            else Gap(h, j + 1)
  {
    RemoveIndex(h, k, j);
    if 0 < j {
      RemoveIndex(h, k, j - 1);
    }
  }

  lemma InsertFreeBytes(h: Heap, k: nat, n: nat)
    requires k <= |h.regions|
    ensures FreeBytes(InsertAt(h, k, n)) == FreeBytes(h) - RegionSize(n)
  {
    UsedMiddle(h.regions[..k], Region(Left(h, k), n), h.regions[k..]);
    UsedConcat(h.regions[..k], h.regions[k..]);
    assert h.regions[..k] + h.regions[k..] == h.regions;
  }

  lemma UsedMiddle(a: seq<Region>, r: Region, b: seq<Region>)
    ensures Used(a + [r] + b) == Used(a) + RegionSize(r.size) + Used(b)
  {
    UsedConcat(a + [r], b);
    assert (a + [r])[..|a|] == a;
  }

  lemma RemoveFreeBytes(h: Heap, k: nat)
    requires k < |h.regions|
    ensures FreeBytes(RemoveAt(h, k)) == FreeBytes(h) + RegionSize(h.regions[k].size)
  {
    UsedMiddle(h.regions[..k], h.regions[k], h.regions[k + 1..]);
    UsedConcat(h.regions[..k], h.regions[k + 1..]);
    assert h.regions[..k] + [h.regions[k]] + h.regions[k + 1..] == h.regions;
  }

  /** A heap with one more region is well formed iff the gap used had room for it. */
  lemma InsertWellFormed(h: Heap, k: nat, n: nat)
    requires WellFormed(h) && k <= |h.regions|
    ensures WellFormed(InsertAt(h, k, n)) <==> Gap(h, k) >= RegionSize(n)
    ensures FreeBytes(InsertAt(h, k, n)) == FreeBytes(h) - RegionSize(n)
  {
    InsertFreeBytes(h, k, n);
    var h' := InsertAt(h, k, n);
    hide InsertAt, Gap, FreeBytes;
    InsertIndex(h, k, n, k);
    InsertGapAt(h, k, n, k + 1);
    if Gap(h, k) >= RegionSize(n) {
      forall j | 0 <= j <= |h'.regions|
        ensures Gap(h', j) >= 0
      {
        InsertGapAt(h, k, n, j);
      }
    }
  }

  lemma RemoveWellFormed(h: Heap, k: nat)
    requires WellFormed(h) && k < |h.regions|
    ensures WellFormed(RemoveAt(h, k))
    ensures FreeBytes(RemoveAt(h, k)) == FreeBytes(h) + RegionSize(h.regions[k].size)
  {
    RemoveFreeBytes(h, k);
    var h' := RemoveAt(h, k);
    hide RemoveAt, Gap, FreeBytes;
    RemoveIndex(h, k, k);
    forall j | 0 <= j <= |h'.regions|
      ensures Gap(h', j) >= 0
    {
      RemoveGapAt(h, k, j);
    }
  }

  // ----- allocation: what it needs and what it keeps -----

  /** Exact success condition for a region of `need` bytes; it does not mention the strategy. */
  predicate CanPlace(h: Heap, need: nat) {
    if h.regions == [] then need <= h.size else AnyFit(h, need)
  }

  predicate CanAlloc(h: Heap, n: nat) { CanPlace(h, RegionSize(n)) }

  /** On a non-empty list the early counter check never refuses a request the search would have placed. */
  lemma PlaceExactly(h: Heap, need: nat, s: Strategy)
    requires WellFormed(h)
    ensures Place(h, need, s).Some? <==> CanPlace(h, need)
    ensures Place(h, need, s).Some? ==>
              var k := Place(h, need, s).value;
              if h.regions == [] then k == 0 && Gap(h, k) >= need
              else if Listed(s) then Chosen(h, need, s, k)
              else k == 0
  {
    Conservation(h);
    if Listed(s) {
      ChooseIsChosen(h, need, s, 0);
      if Choose(h, need, s, |h.regions| + 1).Some? {
        ChooseIsChosen(h, need, s, Choose(h, need, s, |h.regions| + 1).value);
      }
    }
  }

  /** When an allocation may go ahead: under an unlisted strategy, any fit at all sends it to the first gap. */
  predicate Safe(h: Heap, n: nat, s: Strategy) {
    Listed(s) || !CanAlloc(h, n) || h.regions == [] || Gap(h, 0) >= RegionSize(n)
  }

  /** Allocation keeps the heap well formed exactly when it is safe; then it lowers the free count by the region
      size, adds one live address that was not live, and changes nothing when refused. */
  lemma AllocKeepsWellFormed(h: Heap, n: nat, s: Strategy)
    requires WellFormed(h)
    ensures var (h', r) := Alloc(h, n, s);
            && (WellFormed(h') <==> Safe(h, n, s))
            && h'.start == h.start && h'.size == h.size
            && (r.Some? <==> CanAlloc(h, n))
            && (r == None ==> h' == h)
            && (r.Some? ==> FreeBytes(h') == FreeBytes(h) - RegionSize(n))
            && (r.Some? && Safe(h, n, s) ==>
                 && Region(r.value - HEADER, n) in h'.regions
                 && !IsLive(h.regions, r.value)
                 && forall a :: IsLive(h'.regions, a) <==> a == r.value || IsLive(h.regions, a))
  {
    hide WellFormed, Gap, FreeBytes, IsLive, AnyFit;
    PlaceExactly(h, RegionSize(n), s);
    if CanAlloc(h, n) {
      var k := Place(h, RegionSize(n), s).value;
      InsertWellFormed(h, k, n);
      RoomAtPlace(h, n, s, k);
      InsertIndex(h, k, n, k);
      if Safe(h, n, s) {
        assert InsertAt(h, k, n).regions[k] == Region(Left(h, k), n);
        InsertedIsNew(h, k, n);
      }
    }
  }

  /** The chosen gap has room for the region exactly when the allocation is safe. */
  lemma RoomAtPlace(h: Heap, n: nat, s: Strategy, k: nat)
    requires WellFormed(h) && Place(h, RegionSize(n), s) == Some(k)
    ensures Gap(h, k) >= RegionSize(n) <==> Safe(h, n, s)
  {
    PlaceExactly(h, RegionSize(n), s);
  }

  /** When the code's allocation may go ahead: it refuses, or the size does not wrap and the allocation is safe. */
  predicate Sound(h: Heap, n: ulong, s: Strategy) {
    !CanPlace(h, RegionSize32(n)) || (n + HEADER < WORD && Safe(h, n, s))
  }

  /** For every size and every strategy number: the code keeps the heap well formed exactly when its call is sound,
      and a sound call does what true arithmetic would. */
  lemma CodeAllocSoundExactly(h: Heap, n: ulong, s: Strategy)
    requires WellFormed(h)
    ensures WellFormed(CodeAlloc(h, n, s).0) <==> Sound(h, n, s)
    ensures CodeAlloc(h, n, s).1.Some? <==> CanPlace(h, RegionSize32(n))
    ensures Sound(h, n, s) ==> CodeAlloc(h, n, s) == Alloc(h, n, s)
  {
    hide WellFormed, Gap, FreeBytes, AnyFit, InsertAt, Place;
    PlaceExactly(h, RegionSize32(n), s);
    if n + HEADER < WORD {
      AllocKeepsWellFormed(h, n, s);
    } else if CanPlace(h, RegionSize32(n)) {
      var k := Place(h, RegionSize32(n), s).value;
      TooLarge(h, n, s);
      InsertWellFormed(h, k, n);
    } else {
      TooLarge(h, n, s);
    }
  }

  lemma TooLarge(h: Heap, n: nat, s: Strategy)
    requires WellFormed(h) && RegionSize(n) >= WORD
    ensures Place(h, RegionSize(n), s) == None
    ensures forall k | 0 <= k <= |h.regions| :: Gap(h, k) < RegionSize(n)
  {
    Conservation(h);
  }

  /** Where the code's allocation lands, in terms of the gaps alone, for every size and every strategy number. The
      empty list takes an exact fit; otherwise some gap must be strictly larger than the wrapped region size, and the
      lowest, the smallest or the largest such gap is used, ties going to the lowest address. */
  lemma AllocLands(h: Heap, n: ulong, s: Strategy) returns (k: nat)
    requires WellFormed(h)
    ensures k <= |h.regions|
    ensures CodeAlloc(h, n, s).1.Some?
        <==> if h.regions == [] then (n + 8) % 0x1_0000_0000 <= h.size
             else exists j | 0 <= j <= |h.regions| :: Gap(h, j) > (n + 8) % 0x1_0000_0000
    ensures CodeAlloc(h, n, s)
         == if CodeAlloc(h, n, s).1 == None then (h, None)
            else (Heap(h.start, h.size, h.regions[..k] + [Region(Left(h, k), n)] + h.regions[k..]),
                  Some(Left(h, k) + 8))
    ensures CodeAlloc(h, n, s).1.Some? ==> Place(h, RegionSize32(n), s) == Some(k)
    ensures CodeAlloc(h, n, s).1.Some? && h.regions != [] ==>
              var need := (n + 8) % 0x1_0000_0000;
              match s
              case FIRST_FIT => Gap(h, k) > need && forall j | 0 <= j < k :: Gap(h, j) <= need
              case BEST_FIT =>
                && Gap(h, k) > need
                && (forall j | 0 <= j < k && Gap(h, j) > need :: Gap(h, j) > Gap(h, k))
                && (forall j | k < j <= |h.regions| && Gap(h, j) > need :: Gap(h, j) >= Gap(h, k))
              case WORST_FIT =>
                && Gap(h, k) > need
                && (forall j | 0 <= j < k && Gap(h, j) > need :: Gap(h, j) < Gap(h, k))
                && (forall j | k < j <= |h.regions| && Gap(h, j) > need :: Gap(h, j) <= Gap(h, k))
              case Unlisted(_) => k == 0
  {
    hide WellFormed, Gap, Left, FreeBytes, Place;
    var need := RegionSize32(n);
    PlaceExactly(h, need, s);
    var place := Place(h, need, s);
    k := if place.Some? then place.value else 0;
    if h.regions != [] {
      assert CanPlace(h, need) <==> exists j | 0 <= j <= |h.regions| :: Gap(h, j) > need by {
        FitMeans(h, need);
      }
      if place.Some? && Listed(s) {
        ChosenMeans(h, need, s, k);
      }
    }
  }

  lemma FitMeans(h: Heap, need: nat)
    ensures AnyFit(h, need) <==> exists j | 0 <= j <= |h.regions| :: Gap(h, j) > need
  {
    hide Gap;
    if j :| 0 <= j <= |h.regions| && Gap(h, j) > need {
      assert Fits(h, need, j);
    }
  }

  lemma ChosenMeans(h: Heap, need: nat, s: Strategy, k: nat)
    requires Listed(s) && Chosen(h, need, s, k)
    ensures k <= |h.regions| && Gap(h, k) > need
    ensures s == FIRST_FIT ==> forall j | 0 <= j < k :: Gap(h, j) <= need
    ensures s == BEST_FIT ==>
              && (forall j | 0 <= j < k && Gap(h, j) > need :: Gap(h, j) > Gap(h, k))
              && (forall j | k < j <= |h.regions| && Gap(h, j) > need :: Gap(h, j) >= Gap(h, k))
    ensures s == WORST_FIT ==>
              && (forall j | 0 <= j < k && Gap(h, j) > need :: Gap(h, j) < Gap(h, k))
              && (forall j | k < j <= |h.regions| && Gap(h, j) > need :: Gap(h, j) <= Gap(h, k))
  {
    hide Gap;
    forall j | 0 <= j <= |h.regions|
      ensures Fits(h, need, j) <==> Gap(h, j) > need
    {
    }
  }

  /** A strategy number outside the enumeration puts a region on top of a live one. */
  lemma UnlistedStrategyOverlaps()
    ensures var h := Heap(4096, 100, [Region(4096, 10)]);
            && WellFormed(h)
            && CodeAlloc(h, 20, Unlisted(3)) == (Heap(4096, 100, [Region(4096, 20), Region(4096, 10)]), Some(4104))
            && !WellFormed(CodeAlloc(h, 20, Unlisted(3)).0)
  {
    var h := Heap(4096, 100, [Region(4096, 10)]);
    assert Gap(h, 0) == 0 && Gap(h, 1) == 82;
    assert Fits(h, 28, 1);
    assert h.regions[..0] == [] && Used(h.regions) == 18;
    assert Place(h, 28, Unlisted(3)) == Some(0);
    assert InsertAt(h, 0, 20).regions == [Region(4096, 20), Region(4096, 10)];
    CodeAllocSoundExactly(h, 20, Unlisted(3));
  }

  /** A size that wraps passes the counter check of an empty mapping, which grants a block larger than itself. */
  lemma WrappedSizeGranted(base: nat)
    requires 0 < base && base + INITIAL_SIZE < WORD
    ensures var h, n := Heap(base, INITIAL_SIZE, []), 0xFFFF_FFFF;
            && WellFormed(h)
            && RegionSize32(n) == 7
            && CodeAlloc(h, n, FIRST_FIT) == (Heap(base, INITIAL_SIZE, [Region(base, n)]), Some(base + HEADER))
            && !WellFormed(CodeAlloc(h, n, FIRST_FIT).0)
  {
    var h := Heap(base, INITIAL_SIZE, []);
    assert InsertAt(h, 0, 0xFFFF_FFFF).regions == [Region(base, 0xFFFF_FFFF)];
    CodeAllocSoundExactly(h, 0xFFFF_FFFF, FIRST_FIT);
  }

  lemma InsertPayloads(h: Heap, k: nat, n: nat)
    requires k <= |h.regions|
    ensures Payloads(InsertAt(h, k, n).regions)
         == Payloads(h.regions)[..k] + [Left(h, k) + HEADER] + Payloads(h.regions)[k..]
  {
    var rs, p := InsertAt(h, k, n).regions, Payloads(h.regions);
    hide InsertAt, Left;
    InsertIndex(h, k, n, k);
    var q := p[..k] + [Left(h, k) + HEADER] + p[k..];
    forall i | 0 <= i < |rs|
      ensures Payloads(rs)[i] == q[i]
    {
      InsertIndex(h, k, n, i);
    }
  }

  lemma RemovePayloads(h: Heap, k: nat)
    requires k < |h.regions|
    ensures Payloads(RemoveAt(h, k).regions) == Payloads(h.regions)[..k] + Payloads(h.regions)[k + 1..]
  {
    var rs, p := RemoveAt(h, k).regions, Payloads(h.regions);
    hide RemoveAt;
    RemoveIndex(h, k, k);
    forall i | 0 <= i < |rs|
      ensures Payloads(rs)[i] == (p[..k] + p[k + 1..])[i]
    {
      RemoveIndex(h, k, i);
    }
  }

  lemma InsertMember(p: seq<nat>, k: nat, x: nat)
    requires k <= |p|
    ensures forall a :: a in p[..k] + [x] + p[k..] <==> a == x || a in p
  {
    assert p == p[..k] + p[k..];
  }

  lemma RemoveMember(p: seq<nat>, k: nat)
    requires k < |p| && forall j | 0 <= j < |p| && j != k :: p[j] != p[k]
    ensures forall a :: a in p[..k] + p[k + 1..] <==> a != p[k] && a in p
  {
    assert p == p[..k] + [p[k]] + p[k + 1..];
    assert p[k] !in p[..k] && p[k] !in p[k + 1..];
  }

  lemma InsertedIsNew(h: Heap, k: nat, n: nat)
    requires WellFormed(h) && k <= |h.regions| && Gap(h, k) >= RegionSize(n)
    ensures forall j | 0 <= j < |h.regions| :: PayloadStart(h.regions[j]) != Left(h, k) + HEADER
    ensures !IsLive(h.regions, Left(h, k) + HEADER)
    ensures forall a :: IsLive(InsertAt(h, k, n).regions, a) <==> a == Left(h, k) + HEADER || IsLive(h.regions, a)
  {
    var p := Payloads(h.regions);
    forall j | 0 <= j < |h.regions|
      ensures p[j] == PayloadStart(h.regions[j]) != Left(h, k) + HEADER
    {
      AroundGap(h, k, j);
    }
    hide WellFormed, InsertAt, Payloads, Gap, Left;
    InsertPayloads(h, k, n);
    InsertMember(p, k, Left(h, k) + HEADER);
  }

  /** From equal heaps all strategies succeed or fail together and leave equal free counters. */
  lemma StrategiesAgreeOnSuccess(h: Heap, n: nat, s: Strategy, t: Strategy)
    requires WellFormed(h)
    ensures Alloc(h, n, s).1.Some? <==> Alloc(h, n, t).1.Some?
    ensures FreeBytes(Alloc(h, n, s).0) == FreeBytes(Alloc(h, n, t).0)
  {
    AllocKeepsWellFormed(h, n, s);
    AllocKeepsWellFormed(h, n, t);
  }

  /** On a non-empty list the gap used becomes an empty one and a remainder, which is positive unless an unlisted
      strategy sends the region to a first gap no larger than itself: no gap is ever used up by a listed one. */
  lemma RemainderPositive(h: Heap, n: nat, s: Strategy)
    requires WellFormed(h) && h.regions != [] && Alloc(h, n, s).1.Some?
    ensures Place(h, RegionSize(n), s).Some?
    ensures var k := Place(h, RegionSize(n), s).value;
            && Gaps(Alloc(h, n, s).0) == Gaps(h)[..k] + [0, Gap(h, k) - RegionSize(n)] + Gaps(h)[k + 1..]
            && (Gap(h, k) > RegionSize(n) <==> Listed(s) || Gap(h, 0) > RegionSize(n))
  {
    PlaceExactly(h, RegionSize(n), s);
    InsertGaps(h, Place(h, RegionSize(n), s).value, n);
  }

  // ----- comparing strategies -----

  /** The largest of gaps 0..m. */
  function LargestUpTo(h: Heap, m: nat): int
    requires m <= |h.regions|
  {
    if m == 0 then Gap(h, 0)
    else if LargestUpTo(h, m - 1) >= Gap(h, m) then LargestUpTo(h, m - 1) else Gap(h, m)
  }

  function LargestGap(h: Heap): int { LargestUpTo(h, |h.regions|) }

  lemma {:induction false} LargestIsGap(h: Heap, m: nat) returns (k: nat)
    requires m <= |h.regions|
    ensures k <= m && Gap(h, k) == LargestUpTo(h, m)
    ensures forall j | 0 <= j <= m :: Gap(h, j) <= LargestUpTo(h, m)
  {
    k := 0;
    if m == 0 {
    } else {
      k := LargestIsGap(h, m - 1);
      if LargestUpTo(h, m) == Gap(h, m) {
        k := m;
      }
    }
  }

  lemma LargestIsLargest(h: Heap)
    ensures exists k | 0 <= k <= |h.regions| :: Gap(h, k) == LargestGap(h)
    ensures forall j | 0 <= j <= |h.regions| :: Gap(h, j) <= LargestGap(h)
  {
    var k := LargestIsGap(h, |h.regions|);
  }

  /** Every gap left by using gap k2 is matched by one at least as large after using the smaller gap k1. */
  lemma Dominates(h: Heap, n: nat, k1: nat, k2: nat, j: nat) returns (i: nat)
    requires k1 <= |h.regions| && k2 <= |h.regions| && j <= |h.regions| + 1
    requires RegionSize(n) <= Gap(h, k1) <= Gap(h, k2)
    ensures i <= |h.regions| + 1
    ensures Gap(InsertAt(h, k1, n), i) >= Gap(InsertAt(h, k2, n), j)
  {
    hide InsertAt, Gap;
    var origin := if j <= k2 then j else j - 1;
    if j == k2 {
      i := k1;
    } else if origin == k1 {
      i := if k2 < k1 then k2 else if k1 < k2 then k2 + 1 else j;
    } else {
      i := if origin < k1 then origin else origin + 1;
    }
    InsertGapAt(h, k1, n, i);
    InsertGapAt(h, k2, n, j);
  }

  /** Taking a smaller fitting gap never leaves a smaller largest gap. */
  lemma SmallerGapIsKinder(h: Heap, n: nat, k1: nat, k2: nat)
    requires WellFormed(h) && k1 <= |h.regions| && k2 <= |h.regions|
    requires RegionSize(n) <= Gap(h, k1) <= Gap(h, k2)
    ensures LargestGap(InsertAt(h, k1, n)) >= LargestGap(InsertAt(h, k2, n))
  {
    var h1, h2 := InsertAt(h, k1, n), InsertAt(h, k2, n);
    var j := LargestIsGap(h2, |h2.regions|);
    var l := LargestIsGap(h1, |h1.regions|);
    InsertIndex(h, k1, n, k1);
    InsertIndex(h, k2, n, k2);
    hide WellFormed, InsertAt, Gap, LargestUpTo;
    var i := Dominates(h, n, k1, k2, j);
  }

  /** After one successful allocation the largest gap left is greatest under best fit and least under worst fit. */
  lemma StrategyComparison(h: Heap, n: nat)
    requires WellFormed(h) && Alloc(h, n, FIRST_FIT).1.Some?
    ensures LargestGap(Alloc(h, n, BEST_FIT).0) >= LargestGap(Alloc(h, n, FIRST_FIT).0)
    ensures LargestGap(Alloc(h, n, FIRST_FIT).0) >= LargestGap(Alloc(h, n, WORST_FIT).0)
  {
    var need := RegionSize(n);
    PlaceExactly(h, need, BEST_FIT);
    PlaceExactly(h, need, FIRST_FIT);
    PlaceExactly(h, need, WORST_FIT);
    var b, f, w := Place(h, need, BEST_FIT).value, Place(h, need, FIRST_FIT).value, Place(h, need, WORST_FIT).value;
    SmallerGapIsKinder(h, n, b, f);
    SmallerGapIsKinder(h, n, f, w);
  }

  // ----- release -----

  lemma {:induction false} WithoutMatch(rs: seq<Region>, a: nat, k: nat)
    requires k < |rs| && PayloadStart(rs[k]) == a
    requires forall j | 0 <= j < k :: PayloadStart(rs[j]) != a
    ensures Without(rs, a) == rs[..k] + rs[k + 1..]
  {
    if k == 0 {
    } else {
      WithoutMatch(rs[1..], a, k - 1);
    }
  }

  lemma {:induction false} WithoutMiss(rs: seq<Region>, a: nat)
    requires forall j | 0 <= j < |rs| :: PayloadStart(rs[j]) != a
    ensures Without(rs, a) == rs
  {
    if rs == [] {
    } else {
      WithoutMiss(rs[1..], a);
    }
  }

  lemma LiveIndex(h: Heap, k: nat)
    requires WellFormed(h) && k < |h.regions|
    ensures Payloads(h.regions)[k] == PayloadStart(h.regions[k])
    ensures forall j | 0 <= j < |h.regions| && j != k :: PayloadStart(h.regions[j]) != PayloadStart(h.regions[k])
    ensures Without(h.regions, PayloadStart(h.regions[k])) == RemoveAt(h, k).regions
  {
    Disjoint(h);
    WithoutMatch(h.regions, PayloadStart(h.regions[k]), k);
  }

  /** A live address removes exactly its own region. */
  lemma ReleaseLive(h: Heap, k: nat)
    requires WellFormed(h) && k < |h.regions|
    ensures var a := PayloadStart(h.regions[k]);
            && Release(h, a) == (RemoveAt(h, k), 0)
            && WellFormed(RemoveAt(h, k))
            && FreeBytes(RemoveAt(h, k)) == FreeBytes(h) + RegionSize(h.regions[k].size)
            && forall b :: IsLive(RemoveAt(h, k).regions, b) <==> b != a && IsLive(h.regions, b)
  {
    LiveIndex(h, k);
    RemoveWellFormed(h, k);
    ReleasedHeap(h, k);
    var p := Payloads(h.regions);
    assert forall j | 0 <= j < |h.regions| :: p[j] == PayloadStart(h.regions[j]);
    hide WellFormed, RemoveAt, Payloads, FreeBytes, Release;
    RemovePayloads(h, k);
    RemoveMember(p, k);
  }

  lemma ReleasedHeap(h: Heap, k: nat)
    requires k < |h.regions|
    requires Without(h.regions, PayloadStart(h.regions[k])) == RemoveAt(h, k).regions
    ensures Release(h, PayloadStart(h.regions[k])) == (RemoveAt(h, k), 0)
  {
    assert Payloads(h.regions)[k] == PayloadStart(h.regions[k]);
  }

  /** Release changes the list iff its argument is a live payload start, and then takes out just that region; the
      return code says so except when exactly one region is live. */
  lemma ReleaseExactly(h: Heap, a: nat)
    requires WellFormed(h)
    ensures var (h', code) := Release(h, a);
            && WellFormed(h')
            && h'.start == h.start && h'.size == h.size
            && (h' != h <==> IsLive(h.regions, a))
            && (forall b :: IsLive(h'.regions, b) <==> b != a && IsLive(h.regions, b))
            && (code == -1 <==> !IsLive(h.regions, a) && |h.regions| != 1)
            && (code == 0 || code == -1)
  {
    if IsLive(h.regions, a) {
      var k :| 0 <= k < |h.regions| && Payloads(h.regions)[k] == a;
      ReleaseLive(h, k);
      assert |RemoveAt(h, k).regions| == |h.regions| - 1;
    } else {
      assert forall k | 0 <= k < |h.regions| :: Payloads(h.regions)[k] == PayloadStart(h.regions[k]);
      WithoutMiss(h.regions, a);
    }
  }

  /** The same in terms of the regions alone: a live payload address takes out its own region and returns 0; any other
      address changes nothing, and returns 0 when just one region is live and -1 otherwise. */
  lemma ReleaseTakesOut(h: Heap, a: nat)
    requires WellFormed(h)
    ensures forall k | 0 <= k < |h.regions| && h.regions[k].addr + 8 == a ::
              Release(h, a) == (Heap(h.start, h.size, h.regions[..k] + h.regions[k + 1..]), 0)
    ensures (forall k | 0 <= k < |h.regions| :: h.regions[k].addr + 8 != a) ==>
              Release(h, a) == (h, if |h.regions| == 1 then 0 else -1)
  {
    hide WellFormed, Release, FreeBytes, IsLive;
    forall k | 0 <= k < |h.regions| && h.regions[k].addr + 8 == a
      ensures Release(h, a) == (Heap(h.start, h.size, h.regions[..k] + h.regions[k + 1..]), 0)
    {
      ReleaseLive(h, k);
    }
    if forall k | 0 <= k < |h.regions| :: h.regions[k].addr + 8 != a {
      ReleaseMisses(h, a);
    }
  }

  lemma ReleaseMisses(h: Heap, a: nat)
    requires forall k | 0 <= k < |h.regions| :: PayloadStart(h.regions[k]) != a
    ensures Release(h, a) == (h, if |h.regions| == 1 then 0 else -1)
  {
    WithoutMiss(h.regions, a);
  }

  lemma UnknownAddressReportedAsFreed()
    ensures var h := Heap(4096, 100, [Region(4096, 10)]);
            WellFormed(h) && !IsLive(h.regions, 9) && Release(h, 9) == (h, 0)
  {
    var h := Heap(4096, 100, [Region(4096, 10)]);
    assert Gap(h, 0) == 0 && Gap(h, 1) == 82;
    WithoutMiss(h.regions, 9);
  }

  // ----- round trips -----

  /** Releasing a just-allocated block restores the heap, so the same request gets the same address again. */
  lemma RoundTrip(h: Heap, n: nat, s: Strategy)
    requires WellFormed(h) && Alloc(h, n, s).1.Some? && WellFormed(Alloc(h, n, s).0)
    ensures var (h', r) := Alloc(h, n, s);
            && Release(h', r.value) == (h, 0)
            && Alloc(Release(h', r.value).0, n, s) == (h', r)
  {
    hide WellFormed, Gap, FreeBytes, Release, Place, CanAlloc, Safe, InsertAt, RemoveAt;
    PlaceExactly(h, RegionSize(n), s);
    AllocKeepsWellFormed(h, n, s);
    var k := Place(h, RegionSize(n), s).value;
    InsertIndex(h, k, n, k);
    InsertUndone(h, k, n);
    ReleaseLive(InsertAt(h, k, n), k);
  }

  lemma InsertUndone(h: Heap, k: nat, n: nat)
    requires k <= |h.regions|
    ensures k < |InsertAt(h, k, n).regions| && RemoveAt(InsertAt(h, k, n), k) == h
  {
    assert RemoveAt(InsertAt(h, k, n), k).regions == h.regions;
  }

  /** Releasing a live region merges the gaps on both sides of it. */
  lemma ReleaseMerges(h: Heap, k: nat)
    requires WellFormed(h) && k < |h.regions|
    ensures Gaps(Release(h, PayloadStart(h.regions[k])).0)
         == Gaps(h)[..k] + [Gap(h, k) + RegionSize(h.regions[k].size) + Gap(h, k + 1)] + Gaps(h)[k + 2..]
  {
    ReleaseLive(h, k);
    RemoveGaps(h, k);
  }

  /** Releases commute, so only the set of addresses freed matters. */
  lemma ReleasesCommute(h: Heap, a: nat, b: nat)
    ensures Release(Release(h, a).0, b).0 == Release(Release(h, b).0, a).0
  {
    if a != b {
      WithoutCommutes(h.regions, a, b);
    }
  }

  lemma {:induction false} WithoutCommutes(rs: seq<Region>, a: nat, b: nat)
    requires a != b
    ensures Without(Without(rs, a), b) == Without(Without(rs, b), a)
  {
    if rs == [] {
    } else {
      WithoutCommutes(rs[1..], a, b);
      if PayloadStart(rs[0]) != a {
        assert ([rs[0]] + Without(rs[1..], a))[1..] == Without(rs[1..], a);
      }
      if PayloadStart(rs[0]) != b {
        assert ([rs[0]] + Without(rs[1..], b))[1..] == Without(rs[1..], b);
      }
    }
  }

  function ReleaseAll(h: Heap, addrs: seq<nat>): Heap
    decreases |addrs|
  {
    if addrs == [] then h else ReleaseAll(Release(h, addrs[0]).0, addrs[1..])
  }

  lemma DropAt<T>(s: seq<T>, k: nat)
    requires k < |s|
    ensures multiset(s[..k] + s[k + 1..]) == multiset(s) - multiset{s[k]}
  {
    assert s == s[..k] + [s[k]] + s[k + 1..];
  }

  /** Freeing all live blocks, in any order at all, leaves no region and every byte free. */
  lemma {:induction false} DrainInAnyOrder(h: Heap, addrs: seq<nat>)
    requires WellFormed(h)
    requires multiset(addrs) == multiset(Payloads(h.regions))
    ensures ReleaseAll(h, addrs) == Heap(h.start, h.size, [])
    ensures FreeBytes(ReleaseAll(h, addrs)) == h.size
    decreases |addrs|
  {
    hide WellFormed, FreeBytes, RemoveAt, Release, Payloads;
    if addrs == [] {
      NoPayloads(h);
    } else {
      var a, p := addrs[0], Payloads(h.regions);
      assert addrs == [a] + addrs[1..];
      assert a in multiset(addrs);
      var k :| 0 <= k < |p| && p[k] == a;
      PayloadsAt(h.regions, k);
      ReleaseLive(h, k);
      DropAt(p, k);
      RemovePayloads(h, k);
      RemoveIndex(h, k, 0);
      DrainInAnyOrder(RemoveAt(h, k), addrs[1..]);
    }
  }

  lemma PayloadsAt(rs: seq<Region>, k: nat)
    requires k < |Payloads(rs)|
    ensures k < |rs| && Payloads(rs)[k] == PayloadStart(rs[k])
  {
  }

  lemma NoPayloads(h: Heap)
    requires multiset(Payloads(h.regions)) == multiset{}
    ensures h == Heap(h.start, h.size, []) && FreeBytes(h) == h.size
  {
    assert |multiset(Payloads(h.regions))| == |h.regions|;
  }

  // ----- an allocation-only run is a bump allocator -----

  datatype Request = Request(size: ulong, strategy: Strategy)

  /** Final heap and the result of every request, in order. */
  function AllocRun(h: Heap, reqs: seq<Request>): (Heap, seq<Option<nat>>)
    decreases |reqs|
  {
    if reqs == [] then (h, [])
    else
      var (h1, r) := CodeAlloc(h, reqs[0].size, reqs[0].strategy);
      var (h2, rs) := AllocRun(h1, reqs[1..]);
      (h2, [r] + rs)
  }

  /** Every allocation of the run is sound where it is made. */
  predicate SoundRun(h: Heap, reqs: seq<Request>)
    decreases |reqs|
  {
    reqs == [] ||
    (Sound(h, reqs[0].size, reqs[0].strategy)
     && SoundRun(CodeAlloc(h, reqs[0].size, reqs[0].strategy).0, reqs[1..]))
  }

  /** Runs of sizes that do not wrap, under listed strategies, are sound. */
  lemma {:induction false} PlainRunsAreSound(h: Heap, reqs: seq<Request>)
    requires forall i | 0 <= i < |reqs| :: reqs[i].size + HEADER < WORD && Listed(reqs[i].strategy)
    ensures SoundRun(h, reqs)
    decreases |reqs|
  {
    if reqs == [] {
    } else {
      PlainRunsAreSound(CodeAlloc(h, reqs[0].size, reqs[0].strategy).0, reqs[1..]);
    }
  }

  /** The independent reference: one cursor, a request is granted when it fits behind the cursor. */
  function BumpRun(start: nat, end: nat, cursor: nat, reqs: seq<Request>): (nat, seq<Option<nat>>)
    decreases |reqs|
  {
    if reqs == [] then (cursor, [])
    else
      var room := end - cursor;
      var granted := if cursor == start then RegionSize(reqs[0].size) <= room else RegionSize(reqs[0].size) < room;
      var (c, rs) := BumpRun(start, end, if granted then cursor + RegionSize(reqs[0].size) else cursor, reqs[1..]);
      (c, [if granted then Some(cursor + HEADER) else None] + rs)
  }

  ghost predicate Packed(h: Heap) {
    forall k | 0 <= k < |h.regions| :: Gap(h, k) == 0
  }

  lemma PackedAlloc(h: Heap, n: ulong, s: Strategy)
    requires WellFormed(h) && Packed(h) && Sound(h, n, s)
    ensures var (h', r) := CodeAlloc(h, n, s);
            var room := Gap(h, |h.regions|);
            var granted := if h.regions == [] then RegionSize(n) <= room else RegionSize(n) < room;
            && WellFormed(h') && Packed(h')
            && h'.start == h.start && h'.size == h.size
            && r == (if granted then Some(Left(h, |h.regions|) + HEADER) else None)
            && Left(h', |h'.regions|) == Left(h, |h.regions|) + (if granted then RegionSize(n) else 0)
  {
    CodeAllocSoundExactly(h, n, s);
    hide WellFormed, FreeBytes, InsertAt, RegionSize32, CodeAlloc, Sound;
    AllocKeepsWellFormed(h, n, s);
    PlaceExactly(h, RegionSize(n), s);
    if CanAlloc(h, n) {
      var k := Place(h, RegionSize(n), s).value;
      RoomAtPlace(h, n, s, k);
      InsertWellFormed(h, k, n);
      assert k == |h.regions|;
      InsertIndex(h, k, n, k);
      forall j | 0 <= j <= k
        ensures Gap(InsertAt(h, k, n), j) == 0
      {
        InsertGapAt(h, k, n, j);
      }
    } else if h.regions != [] {
      assert !Fits(h, RegionSize(n), |h.regions|);
    }
  }

  lemma {:induction false} PackedCursor(h: Heap, m: nat)
    requires WellFormed(h) && m <= |h.regions|
    ensures Left(h, m) >= h.start + Used(h.regions[..m])
    ensures Packed(h) ==> Left(h, m) == h.start + Used(h.regions[..m])
    ensures m > 0 ==> Left(h, m) > h.start
  {
    if m == 0 {
    } else {
      PackedCursor(h, m - 1);
      assert h.regions[..m][..m - 1] == h.regions[..m - 1];
      assert Gap(h, m - 1) >= 0;
    }
  }

  /** With no release in between, every sound run, whatever its mix of strategies, behaves like one cursor moving up. */
  lemma {:induction false} AllocOnlyRunBumps(h: Heap, reqs: seq<Request>)
    requires WellFormed(h) && Packed(h) && SoundRun(h, reqs)
    ensures var (h', rs) := AllocRun(h, reqs);
            && Packed(h')
            && BumpRun(h.start, h.start + h.size, Left(h, |h.regions|), reqs) == (Left(h', |h'.regions|), rs)
    decreases |reqs|
  {
    hide WellFormed, Packed, CodeAlloc, FreeBytes, Sound;
    if reqs == [] {
    } else {
      PackedCursor(h, |h.regions|);
      PackedAlloc(h, reqs[0].size, reqs[0].strategy);
      AllocOnlyRunBumps(CodeAlloc(h, reqs[0].size, reqs[0].strategy).0, reqs[1..]);
    }
  }
}
