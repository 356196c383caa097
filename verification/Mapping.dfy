/** tsoalloc.c: one mapping, its list threaded through its own bytes, and the system calls on it. */
module Mappings {
  import opened Basics
  import opened Words
  import opened Regions
  import opened Laws
  import opened HeapBytes

  /** `enum FIT_CONDITIONS`, beside the returned predecessor. */
  datatype FitCondition = OK | START | NO_FIT

  /** How a gap is told to the caller: a state, and the address of the region before the gap. */
  function Encode(h: Heap, gap: Option<nat>): (FitCondition, nat)
    requires gap.Some? ==> gap.value <= |h.regions|
  {
    match gap
    case None => (NO_FIT, 0)
    case Some(k) => if k == 0 then (START, 0) else (OK, h.regions[k - 1].addr)
  }

  /** State and predecessor together name one gap only. */
  lemma EncodeUnambiguous(h: Heap, g1: Option<nat>, g2: Option<nat>)
    requires WellFormed(h)
    requires g1.Some? ==> g1.value <= |h.regions|
    requires g2.Some? ==> g2.value <= |h.regions|
    requires Encode(h, g1) == Encode(h, g2)
    ensures g1 == g2
  {
    Disjoint(h);
  }

  lemma EncodedGap(h: Heap, k: nat)
    requires k <= |h.regions|
    ensures Encode(h, Some(k)) == if k == 0 then (START, 0) else (OK, PrevAddr(h, k))
  {
  }

  /** Under first fit the first gap that fits ends the scan. */
  lemma FirstFound(h: Heap, need: nat, i: nat)
    requires i <= |h.regions| && Choose(h, need, FIRST_FIT, i) == None && Fits(h, need, i)
    ensures Choose(h, need, FIRST_FIT, |h.regions| + 1) == Some(i)
  {
    ChooseScans(h, need, FIRST_FIT, i);
    ChooseScans(h, need, FIRST_FIT, |h.regions| + 1);
  }

  /** The search in terms of the gaps alone: it fails iff no gap is strictly larger than the wrapped region size, and
      otherwise picks the lowest, smallest or largest that is, ties going to the lowest address. */
  lemma SearchLands(h: Heap, n: ulong, s: Strategy) returns (k: nat)
    ensures k <= |h.regions|
    ensures Search(h, RegionSize32(n), s) == None
        <==> forall j | 0 <= j <= |h.regions| :: Gap(h, j) <= (n + 8) % 0x1_0000_0000
    ensures Search(h, RegionSize32(n), s).Some? ==>
              && Search(h, RegionSize32(n), s) == Some(k)
              && var need := (n + 8) % 0x1_0000_0000;
                 match s
                 case FIRST_FIT => Gap(h, k) > need && forall j | 0 <= j < k :: Gap(h, j) <= need
                 case BEST_FIT =>
                   && Gap(h, k) > need
                   && (forall j | 0 <= j < k && Gap(h, j) > need :: Gap(h, j) > Gap(h, k))
                   && (forall j | k < j <= |h.regions| && Gap(h, j) > need :: Gap(h, j) >= Gap(h, k))
                 case WORST_FIT =>
                   && Gap(h, k) > need
                   && (forall j | 0 <= j < k && Gap(h, j) > need :: Gap(h, j) < Gap(h, k))
                   && (forall j | k < j <= |h.regions| && Gap(h, j) > need :: Gap(h, j) <= Gap(h, k))
                 case Unlisted(_) => k == 0
  {
    hide Gap, Choose, Chosen, AnyFit;
    var need := RegionSize32(n);
    FitMeans(h, need);
    var r := Search(h, need, s);
    k := if r.Some? then r.value else 0;
    if Listed(s) {
      ChooseIsChosen(h, need, s, k);
      if r.Some? {
        ChosenMeans(h, need, s, k);
      }
    }
  }

  /** The gap the code's search picks has a header outside the mapping: it lies last, smaller than a header. */
  ghost predicate Spills(h: Heap, n: ulong, s: Strategy) {
    var place := Place(h, RegionSize32(n), s);
    place.Some? && !HeaderFits(h, place.value)
  }

  /** What a call finds, in the terms of the gap that the code picks. */
  lemma GapPicked(h: Heap, n: ulong, s: Strategy)
    requires WellFormed(h)
    ensures Spills(h, n, s) ==> n + HEADER >= WORD && !Sound(h, n, s)
    ensures var place := Place(h, RegionSize32(n), s);
            place.Some? ==> (Gap(h, place.value) >= RegionSize(n) <==> Sound(h, n, s))
  {
    hide WellFormed, Gap, FreeBytes, AnyFit, InsertAt, Place, Sound, HeaderFits, RegionSize32;
    CodeAllocSoundExactly(h, n, s);
    var place := Place(h, RegionSize32(n), s);
    if place.Some? {
      InsertWellFormed(h, place.value, n);
      if n + HEADER < WORD {
        SpillsOnlyWrapped(h, n, s);
      }
      if Gap(h, place.value) >= RegionSize(n) {
        RoomForHeader(h, place.value, n);
      }
    }
  }

  lemma SpillsOnlyWrapped(h: Heap, n: ulong, s: Strategy)
    requires WellFormed(h) && n + HEADER < WORD
    ensures !Spills(h, n, s)
  {
    PlaceExactly(h, RegionSize32(n), s);
    var place := Place(h, RegionSize32(n), s);
    if place.Some? {
      NewHeaderInRange(h, place.value);
    }
  }

  lemma NoCarry(a: ulong, b: ulong)
    requires a + b < WORD
    ensures Add(a, b) == a + b
  {
  }

  lemma NoWrap(end: nat, r: nat, size: nat)
    requires r + size <= end < WORD
    ensures Sub(Sub(end, r), size) == end - r - size
  {
  }

  class Mapping {
    const start: ulong
    const size: ulong
    const mem: array<byte>
    var firstRegion: ulong
    var free: ulong
    ghost var regions: seq<Region>

    ghost function H(): Heap
      reads this
    {
      Heap(start, size, regions)
    }

    ghost predicate Valid()
      reads this, mem
    {
      && Describes(regions)
      && free == FreeBytes(H())
    }

    /** Region list `rs` is what the mapping's memory shows. */
    ghost predicate Describes(rs: seq<Region>)
      reads this, mem
    {
      Shows(Heap(start, size, rs), mem[..], firstRegion)
    }

    ghost function Blocks(): map<nat, seq<byte>>
      requires Valid()
      reads this, mem
    {
      Live(H(), mem[..])
    }

    /** tso_mm_initialize, for the range vm_mmap returned. */
    constructor (base: ulong)
      requires 0 < base && base + INITIAL_SIZE < WORD
      ensures Valid() && fresh(mem)
      ensures H() == Heap(base, INITIAL_SIZE, []) && free == INITIAL_SIZE
      ensures Blocks() == map[]
    {
      start := base;
      size := INITIAL_SIZE;
      mem := new byte[INITIAL_SIZE](_ => 0);
      free := INITIAL_SIZE;
      firstRegion := 0;
      regions := [];
    }

    function Next(region: ulong): ulong
      requires start <= region && region - start + HEADER <= mem.Length
      reads mem
    {
      Load(mem[..], region - start)
    }

    function Size(region: ulong): ulong
      requires start <= region && region - start + HEADER <= mem.Length
      reads mem
    {
      Load(mem[..], region - start + 4)
    }

    lemma ReadHeader(i: nat)
      requires Valid() && i < |regions|
      ensures start <= regions[i].addr && regions[i].addr - start + HEADER <= mem.Length
      ensures Next(regions[i].addr) == NextAddr(H(), i + 1)
      ensures Size(regions[i].addr) == regions[i].size
      ensures RegionSize32(regions[i].size) == RegionSize(regions[i].size)
    {
      InRange(H(), i);
      assert HeaderOf(H(), mem[..], i);
    }

    /** Where the two words of a header lie, byte by byte. */
    lemma HeadersInMemory(i: nat)
      requires Valid() && i < |regions|
      ensures var o, next := regions[i].addr - start, if i + 1 < |regions| then regions[i + 1].addr else 0;
              && 0 <= o && o + 8 <= mem.Length
              && next == mem[o] as int + 0x100 * mem[o + 1] as int
                         + 0x1_0000 * mem[o + 2] as int + 0x100_0000 * mem[o + 3] as int
              && regions[i].size == mem[o + 4] as int + 0x100 * mem[o + 5] as int
                                    + 0x1_0000 * mem[o + 6] as int + 0x100_0000 * mem[o + 7] as int
    {
      ReadHeader(i);
    }

    /** At most one region list describes the memory, so the ghost list adds nothing to it. */
    lemma ListIsInMemory(rs: seq<Region>)
      requires Valid()
      ensures Describes(rs) <==> rs == regions
    {
      if Describes(rs) {
        MemoryDeterminesList(Heap(start, size, rs), H(), mem[..], firstRegion);
      }
    }

    /** What the search loop holds after scanning gaps 0..m-1. */
    ghost predicate Scanned(need: nat, s: Strategy, m: nat, state: FitCondition, bestMatch: ulong, bestSize: ulong)
      requires m <= |regions| + 1
      reads this
    {
      var best := Choose(H(), need, s, m);
      && state == (if best.Some? then OK else NO_FIT)
      && (best.Some? && Listed(s) ==>
            bestMatch == PrevAddr(H(), best.value) && bestSize == Gap(H(), best.value) && s != FIRST_FIT)
      && (best == None || !Listed(s) ==> bestMatch == 0)
      && (best == None ==> bestSize == (if s == BEST_FIT then size + 1 else 0))
    }

    lemma ScanStart()
      requires Valid()
      ensures firstRegion == NextAddr(H(), 0) && (firstRegion == 0 <==> regions == [])
      ensures firstRegion != 0 ==> Sub(firstRegion, start) == Gap(H(), 0)
      ensures size + 1 < WORD
    {
      AroundGapBounds(0);
    }

    predicate IsBest(s: Strategy, available: ulong, bestSize: ulong) {
      match s
      case WORST_FIT => available > bestSize
      case BEST_FIT => available < bestSize
      case _ => false
    }

    lemma ScanStep(need: nat, s: Strategy, i: nat, state: FitCondition, bestMatch: ulong, bestSize: ulong)
      requires Valid() && i <= |regions|
      requires Scanned(need, s, i, state, bestMatch, bestSize)
      ensures var available := Gap(H(), i);
              && 0 <= available <= size
              && PrevAddr(H(), i) < WORD
              && (if !Fits(H(), need, i) then Scanned(need, s, i + 1, state, bestMatch, bestSize)
                  else if s == FIRST_FIT then Search(H(), need, s) == Some(i)
                  else if IsBest(s, available, bestSize) then Scanned(need, s, i + 1, OK, PrevAddr(H(), i), available)
                  else Scanned(need, s, i + 1, OK, bestMatch, bestSize))
    {
      AroundGapBounds(i);
      if s == FIRST_FIT && Fits(H(), need, i) {
        FirstFound(H(), need, i);
      }
    }

    /** The two subtractions of the search loop give the gap after region i, without wrapping. */
    lemma GapByWords(i: nat)
      requires Valid() && i < |regions|
      requires start <= regions[i].addr && regions[i].addr - start + HEADER <= mem.Length
      ensures var r := regions[i].addr;
              var end := if Next(r) != 0 then Next(r) else Add(start, size);
              && Next(r) == NextAddr(H(), i + 1)
              && Sub(Sub(end, r), RegionSize32(Size(r))) == Gap(H(), i + 1)
    {
      hide Represents, FreeBytes, Load, WellFormed, Add, Sub, RegionSize32, Describes;
      ReadHeader(i);
      AroundGapBounds(i + 1);
      NoCarry(start, size);
      NoWrap(Right(H(), i + 1), regions[i].addr, RegionSize(regions[i].size));
    }

    /** tso_mm_get_fit; `state` starts as the caller left it, NO_FIT. */
    method GetFit(n: ulong, s: Strategy) returns (state: FitCondition, fit: ulong, ghost k: nat)
      requires Valid()
      ensures (state, fit) == Encode(H(), if regions == [] then Some(0) else Search(H(), RegionSize32(n), s))
      ensures regions == [] ==> state == START && fit == 0
      ensures regions != [] ==>
                (state == NO_FIT <==> forall j | 0 <= j <= |regions| :: Gap(H(), j) <= (n + 8) % 0x1_0000_0000)
      ensures regions != [] && state != NO_FIT ==>
                && k <= |regions|
                && state == (if k == 0 then START else OK)
                && fit == (if k == 0 then 0 else regions[k - 1].addr)
                && var need := (n + 8) % 0x1_0000_0000;
                   match s
                   case FIRST_FIT => Gap(H(), k) > need && forall j | 0 <= j < k :: Gap(H(), j) <= need
                   case BEST_FIT =>
                     && Gap(H(), k) > need
                     && (forall j | 0 <= j < k && Gap(H(), j) > need :: Gap(H(), j) > Gap(H(), k))
                     && (forall j | k < j <= |regions| && Gap(H(), j) > need :: Gap(H(), j) >= Gap(H(), k))
                   case WORST_FIT =>
                     && Gap(H(), k) > need
                     && (forall j | 0 <= j < k && Gap(H(), j) > need :: Gap(H(), j) < Gap(H(), k))
                     && (forall j | k < j <= |regions| && Gap(H(), j) > need :: Gap(H(), j) <= Gap(H(), k))
                   case Unlisted(_) => k == 0
    {
      hide Valid, Gap, Left, Right, Choose, Search, AnyFit, Chosen, WellFormed, Represents;
      ghost var need := RegionSize32(n);
      k := SearchLands(H(), n, s);
      state := NO_FIT;
      var next := firstRegion;
      var previous: ulong := 0;
      var bestMatch: ulong := 0;
      var bestSize: ulong := 0;
      ScanStart();
      if next == 0 {
        return START, 0, 0;
      }
      var available := Sub(next, start);
      if s == BEST_FIT {
        bestSize := size + 1;
      }
      ghost var i := 0;
      while true
        invariant i <= |regions|
        invariant next == NextAddr(H(), i) && previous == PrevAddr(H(), i)
        invariant available == Gap(H(), i)
        invariant Scanned(need, s, i, state, bestMatch, bestSize)
        decreases |regions| - i
      {
        ScanStep(need, s, i, state, bestMatch, bestSize);
        if available > RegionSize32(n) {
          state := OK;
          if s == FIRST_FIT {
            AroundGapBounds(i);
            if previous == 0 {
              state := START;
            }
            return state, previous, k;
          }
          if IsBest(s, available, bestSize) {
            bestSize := available;
            bestMatch := previous;
          }
        }
        previous := next;
        if previous == 0 {
          AroundGapBounds(i);
          break;
        }
        ReadHeader(i);
        GapByWords(i);
        next := Next(next);
        if next != 0 {
          available := Sub(Sub(next, previous), RegionSize32(Size(previous)));
        } else {
          available := Sub(Sub(Add(start, size), previous), RegionSize32(Size(previous)));
        }
        i := i + 1;
      }
      SearchEncoded(need, s, state, bestMatch, bestSize);
      if state == OK && bestMatch == 0 {
        state := START;
      }
      return state, bestMatch, k;
    }

    lemma SearchEncoded(need: nat, s: Strategy, state: FitCondition, bestMatch: ulong, bestSize: ulong)
      requires Valid() && Scanned(need, s, |regions| + 1, state, bestMatch, bestSize)
      ensures (if state == OK && bestMatch == 0 then START else state, bestMatch as nat)
           == Encode(H(), Search(H(), need, s))
    {
      ChooseScans(H(), need, s, |regions| + 1);
      var best := Choose(H(), need, s, |regions| + 1);
      if best.Some? {
        AroundGapBounds(best.value);
      }
    }

    /** A gap's edges are words inside the mapping and its size is at most the mapping's. */
    lemma AroundGapBounds(k: nat)
      requires Valid() && k <= |regions|
      ensures start <= Left(H(), k) <= Right(H(), k) <= start + size < WORD
      ensures NextAddr(H(), k) == 0 <==> k == |regions|
      ensures PrevAddr(H(), k) == 0 <==> k == 0
    {
      Disjoint(H());
      assert Gap(H(), k) >= 0;
    }

    method StoreWord(addr: ulong, w: ulong)
      requires start <= addr && addr - start + 4 <= mem.Length
      modifies mem
      ensures mem[..] == Store(old(mem[..]), addr - start, w)
    {
      var off := addr - start;
      mem[off] := (w % 0x100) as byte;
      mem[off + 1] := (w / 0x100 % 0x100) as byte;
      mem[off + 2] := (w / 0x100 / 0x100 % 0x100) as byte;
      mem[off + 3] := (w / 0x100 / 0x100 / 0x100) as byte;
    }

    /** sys_tso_mm_alloc on an existing mapping, for any size and any strategy number. `outside` is set, and nothing
        done, when the header would go past the end of the mapping: what is there is not part of this model.
        On failure nothing changes and the caller's address stays NULL. */
    method SysAlloc(n: ulong, s: Strategy)
      returns (code: int, address: ulong, outside: bool, ghost gap: nat)
      requires Valid()
      modifies this, mem
      ensures outside <==> CodeAlloc(old(H()), n, s).1.Some? && CodeAlloc(old(H()), n, s).1.value > start + size
      ensures outside ==> unchanged(this) && unchanged(mem) && !Sound(old(H()), n, s)
      ensures !outside ==> H() == CodeAlloc(old(H()), n, s).0
      ensures !outside ==>
                match CodeAlloc(old(H()), n, s).1
                case None => code == -1 && address == 0 && unchanged(this) && unchanged(mem)
                case Some(a) =>
                  && code == 0 && address == a
                  && gap <= |old(regions)|
                  && address == Left(old(H()), gap) + 8
                  && regions == old(regions)[..gap] + [Region(address - 8, n)] + old(regions)[gap..]
                  && (forall o | 0 <= o < mem.Length && mem[..][o] != old(mem[..])[o] ::
                        || address - 8 <= start + o < address
                        || (gap > 0 && old(regions)[gap - 1].addr <= start + o < old(regions)[gap - 1].addr + 4))
      ensures !outside ==>
                (code == 0
                 <==> if old(regions) == [] then (n + 8) % 0x1_0000_0000 <= size
                      else exists j | 0 <= j <= |old(regions)| :: Gap(old(H()), j) > (n + 8) % 0x1_0000_0000)
      ensures !outside && code == 0 && old(regions) != [] ==>
                var h, need := old(H()), (n + 8) % 0x1_0000_0000;
                match s
                case FIRST_FIT => Gap(h, gap) > need && forall j | 0 <= j < gap :: Gap(h, j) <= need
                case BEST_FIT =>
                  && Gap(h, gap) > need
                  && (forall j | 0 <= j < gap && Gap(h, j) > need :: Gap(h, j) > Gap(h, gap))
                  && (forall j | gap < j <= |h.regions| && Gap(h, j) > need :: Gap(h, j) >= Gap(h, gap))
                case WORST_FIT =>
                  && Gap(h, gap) > need
                  && (forall j | 0 <= j < gap && Gap(h, j) > need :: Gap(h, j) < Gap(h, gap))
                  && (forall j | gap < j <= |h.regions| && Gap(h, j) > need :: Gap(h, j) <= Gap(h, gap))
                case Unlisted(_) => gap == 0
      ensures Valid() <==> outside || Sound(old(H()), n, s)
      ensures !Valid() ==> forall rs :: !Describes(rs)
      ensures Sound(old(H()), n, s) ==>
                if code == 0 then Extends(old(Blocks()), Blocks(), address, n) else Blocks() == old(Blocks())
    {
      hide WellFormed, Represents, Gap, Left, Right, Search, AnyFit, FreeBytes, InsertAt, Live, ChangedOnly;
      hide Load, Encode, Sound, Extends, HeaderFits, RegionSize32, CanPlace;
      address, outside := 0, false;
      gap := AllocLands(H(), n, s);
      GapPicked(H(), n, s);
      CodeAllocSoundExactly(H(), n, s);
      ghost var place := Place(H(), RegionSize32(n), s);
      if free < RegionSize32(n) {
        return -1, 0, false, gap;
      }
      var state, fit, _ := GetFit(n, s);
      Placement(n, s, state, fit);
      var position: ulong;
      match state {
        case OK => position := Add(fit, RegionSize32(Size(fit)));
        case START => position := start;
        case NO_FIT => return -1, 0, false, gap;
      }
      LeftBounds(place.value);
      if position + HEADER > start + size {
        return 0, 0, true, gap;
      }
      ghost var before, link := mem[..], PrevAddr(H(), gap);
      Splice(position, n, state, fit, gap);
      FrameMeans(start, before, mem[..], position, position + HEADER, link);
      return 0, Add(position, HEADER), false, gap;
    }

    /** What a caller can test beforehand: the size does not wrap, and under an unlisted strategy the bytes before
        the first region are enough. */
    predicate Guarded(n: ulong, s: Strategy)
      reads this
    {
      n + HEADER < WORD && (Listed(s) || firstRegion == 0 || Sub(firstRegion, start) >= n + HEADER)
    }

    /** A call is sound exactly when it is refused or the caller's test passes. */
    lemma GuardDecides(n: ulong, s: Strategy)
      requires Valid()
      ensures Sound(H(), n, s) <==> CodeAlloc(H(), n, s).1 == None || Guarded(n, s)
    {
      hide Represents, FreeBytes, AnyFit, InsertAt, WellFormed;
      ScanStart();
      CodeAllocSoundExactly(H(), n, s);
    }

    lemma LeftBounds(k: nat)
      requires Valid() && k <= |regions|
      ensures HeaderFits(H(), k) <==> Left(H(), k) + HEADER <= start + size
      ensures start + size < WORD
    {
    }

    /** The search's answer names the gap that `Place` picks, and the position formula its left edge. */
    lemma Placement(n: ulong, s: Strategy, state: FitCondition, fit: ulong)
      requires Valid() && free >= RegionSize32(n)
      requires (state, fit as nat) == Encode(H(), if regions == [] then Some(0) else Search(H(), RegionSize32(n), s))
      ensures var place := Place(H(), RegionSize32(n), s);
              && (state == NO_FIT <==> place == None)
              && (place.Some? ==> (state, fit as nat) == Encode(H(), place))
              && (state == OK ==>
                    && start <= fit && fit - start + HEADER <= mem.Length
                    && Add(fit, RegionSize32(Size(fit))) == Left(H(), place.value))
              && (state == START ==> start == Left(H(), place.value))
    {
      hide Search, FreeBytes, Describes, Load, RegionSize32, Add;
      var place := Place(H(), RegionSize32(n), s);
      if place.Some? {
        AroundGapBounds(place.value);
        if place.value > 0 {
          ReadHeader(place.value - 1);
          NoCarry(regions[place.value - 1].addr, RegionSize(regions[place.value - 1].size));
        }
      }
    }

    /** The second half of sys_tso_mm_alloc: write the header, link it in, count it. */
    method Splice(position: ulong, n: ulong, state: FitCondition, fit: ulong, ghost k: nat)
      requires Valid() && k <= |regions| && HeaderFits(H(), k)
      requires position == Left(H(), k) && state != NO_FIT
      requires (state, fit as nat) == Encode(H(), Some(k))
      modifies this, mem
      ensures H() == InsertAt(old(H()), k, n) && position + HEADER < WORD
      ensures Valid() <==> Gap(old(H()), k) >= RegionSize(n)
      ensures !Valid() ==> forall rs :: !Describes(rs)
      ensures Valid() ==>
                var a := position + HEADER;
                Extends(old(Blocks()), Blocks(), a, n)
      ensures ChangedOnly(start, old(mem[..]), mem[..], position, position + HEADER, PrevAddr(old(H()), k))
    {
      hide WellFormed, Represents, Gap, Left, Right, FreeBytes, InsertAt, Live, ChangedOnly, AllocBytes, HeaderFits;
      hide Store, Load, Encode;
      ghost var h, m, first := H(), mem[..], firstRegion;
      AllocWrites(h, m, first, k, n);
      AllocFrame(h, m, k, n);
      if Gap(h, k) >= RegionSize(n) {
        AllocOutcome(h, m, first, free, k, n);
      } else {
        NoListOutcome(h, m, first, k, n);
      }
      EncodedGap(h, k);
      InsertIndex(h, k, n, k);
      StoreWord(position + 4, n);
      if state == START {
        StoreWord(position, firstRegion);
        firstRegion := position;
      } else {
        StoreWord(position, Next(fit));
        StoreWord(fit, position);
      }
      free := Sub(free, Add(n, HEADER));
      regions := InsertAt(h, k, n).regions;
      assert H() == InsertAt(h, k, n);
    }

    /** sys_tso_mm_free, for any address at all. */
    method SysFree(addr: ulong) returns (code: int)
      requires Valid()
      modifies this, mem
      ensures Valid()
      ensures (H(), code) == Release(old(H()), addr)
      ensures Blocks() == old(Blocks()) - {addr as nat}
      ensures ReleaseFrame(old(H()), addr, old(mem[..]), mem[..])
    {
      hide WellFormed, Represents, FreeBytes, Live, Release, ReleaseFrame, Load, ChangedOnly;
      ScanStart();
      if firstRegion == 0 {
        Missed(addr);
        return -1;
      }
      ReadHeader(0);
      AroundGapBounds(1);
      DataAddress(0);
      var region := firstRegion;
      var data := Add(region, HEADER);
      if data == addr {
        UnlinkFirst(region);
        return 0;
      }
      var previous := region;
      region := Next(region);
      data := Add(region, HEADER);
      ghost var i := 1;
      while region != 0
        invariant 1 <= i <= |regions| && unchanged(this) && unchanged(mem) && mem[..] == old(mem[..])
        invariant region == NextAddr(H(), i) && previous == PrevAddr(H(), i)
        invariant data == Add(region, HEADER)
        invariant region == 0 ==> |regions| == 1
        invariant forall j | 0 <= j < i :: PayloadStart(regions[j]) != addr
        decreases |regions| - i
      {
        AroundGapBounds(i);
        ReadHeader(i);
        DataAddress(i);
        if data == addr {
          UnlinkAfter(previous, region, i);
          return 0;
        }
        previous := region;
        region := Next(region);
        if region == 0 {
          AroundGapBounds(i + 1);
          Missed(addr);
          return -1;
        }
        data := Add(region, HEADER);
        i := i + 1;
      }
      AroundGapBounds(i);
      Missed(addr);
      return 0;
    }

    lemma DataAddress(i: nat)
      requires Valid() && i < |regions|
      ensures regions[i].addr < WORD && Add(regions[i].addr, HEADER) == PayloadStart(regions[i])
    {
      InRange(H(), i);
    }

    method UnlinkFirst(region: ulong)
      requires Valid() && regions != [] && region == firstRegion == regions[0].addr
      modifies this, mem
      ensures Valid()
      ensures (H(), 0) == Release(old(H()), region + HEADER)
      ensures Blocks() == old(Blocks()) - {region + HEADER}
      ensures ReleaseFrame(old(H()), region + HEADER, old(mem[..]), mem[..])
    {
      hide WellFormed, Represents, Gap, FreeBytes, RemoveAt, Live, ChangedOnly, Load, Release, ReleaseBytes;
      ghost var h := H();
      ReadHeader(0);
      IndexIs(h, 0);
      ReleaseOutcome(h, mem[..], firstRegion, free, 0);
      firstRegion := Next(region);
      free := Add(free, RegionSize32(Size(region)));
      regions := RemoveAt(h, 0).regions;
      assert H() == RemoveAt(h, 0);
    }

    method UnlinkAfter(previous: ulong, region: ulong, ghost k: nat)
      requires Valid() && 0 < k < |regions|
      requires previous == regions[k - 1].addr && region == regions[k].addr
      modifies this, mem
      ensures Valid()
      ensures (H(), 0) == Release(old(H()), region + HEADER)
      ensures Blocks() == old(Blocks()) - {region + HEADER}
      ensures ReleaseFrame(old(H()), region + HEADER, old(mem[..]), mem[..])
    {
      hide WellFormed, Represents, Gap, FreeBytes, RemoveAt, Live, ChangedOnly, Load, Store, Release, ReleaseBytes;
      ghost var h := H();
      ReadHeader(k - 1);
      ReadHeader(k);
      IndexIs(h, k);
      ReleaseWrites(h, mem[..], firstRegion, k);
      ReleaseOutcome(h, mem[..], firstRegion, free, k);
      StoreWord(previous, Next(region));
      free := Add(free, RegionSize32(Size(region)));
      regions := RemoveAt(h, k).regions;
      assert H() == RemoveAt(h, k);
    }

    lemma Missed(addr: ulong)
      requires Valid() && forall j | 0 <= j < |regions| :: PayloadStart(regions[j]) != addr
      ensures Release(H(), addr) == (H(), if |regions| == 1 then 0 else -1)
      ensures ReleaseFrame(H(), addr, mem[..], mem[..])
      ensures Blocks() - {addr as nat} == Blocks()
    {
      WithoutMiss(regions, addr);
      LiveKeys(H(), mem[..]);
    }

    /** A user store anywhere in the mapping but into a header. */
    method UserWrite(at: ulong, b: byte)
      requires Valid() && InMapping(H(), at) && OffHeaders(Blocks().Keys, at)
      modifies mem
      ensures Valid()
      ensures Blocks() == Stored(old(Blocks()), at, b)
    {
      hide WellFormed, Represents, FreeBytes, Live, OffHeaders, Stored;
      LengthIsSize();
      StoreKeepsListExactly(H(), mem[..], firstRegion, at, b);
      StoreLive(H(), mem[..], at, b);
      ghost var before := mem[..];
      mem[at - start] := b;
      assert mem[..] == before[at - start := b];
    }

    lemma LengthIsSize()
      requires Valid()
      ensures mem.Length == size
    {
    }
  }
}
