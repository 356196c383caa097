/** How a heap lies in raw memory: each region's header holds the next region's address and its own size,
    just below the payload. `mem[i]` is the byte at address `h.start + i`; address 0 is NULL. */
module HeapBytes {
  import opened Basics
  import opened Words
  import opened Regions
  import opened Laws

  function NextAddr(h: Heap, i: nat): nat {
    if i < |h.regions| then h.regions[i].addr else 0
  }

  function PrevAddr(h: Heap, k: nat): nat
    requires k <= |h.regions|
  {
    if k == 0 then 0 else h.regions[k - 1].addr
  }

  ghost predicate HeaderAt(mem: seq<byte>, off: int, next: nat, size: nat) {
    && 0 <= off
    && off + HEADER <= |mem|
    && Load(mem, off) == next
    && Load(mem, off + 4) == size
  }

  ghost predicate HeaderOf(h: Heap, mem: seq<byte>, i: nat)
    requires i < |h.regions|
  {
    HeaderAt(mem, h.regions[i].addr - h.start, NextAddr(h, i + 1), h.regions[i].size)
  }

  /** The byte-accurate invariant. */
  ghost predicate Represents(h: Heap, mem: seq<byte>, first: ulong) {
    && |mem| == h.size
    && first == NextAddr(h, 0)
    && forall i | 0 <= i < |h.regions| :: HeaderOf(h, mem, i)
  }

  /** The memory, read from `first` on, holds the list of a well-formed heap. */
  ghost predicate Shows(h: Heap, mem: seq<byte>, first: ulong) {
    WellFormed(h) && Represents(h, mem, first)
  }

  /** One block more, at address `a`, of `n` bytes; the others as they were. */
  ghost predicate Extends(live: map<nat, seq<byte>>, live': map<nat, seq<byte>>, a: nat, n: nat) {
    a !in live && a in live' && |live'[a]| == n && live' == live[a := live'[a]]
  }

  /** Only bytes of one header [lo, hi) and of one `next` word at `link` (none if 0) differ. */
  ghost predicate ChangedOnly(start: nat, mem: seq<byte>, mem': seq<byte>, lo: nat, hi: nat, link: nat) {
    && |mem'| == |mem|
    && forall o | 0 <= o < |mem| ::
         mem'[o] != mem[o] ==> lo <= start + o < hi || (link != 0 && link <= start + o < link + 4)
  }

  lemma HeaderUnchanged(mem: seq<byte>, mem': seq<byte>, off: int, next: nat, size: nat)
    requires HeaderAt(mem, off, next, size) && |mem'| == |mem|
    requires forall o | off <= o < off + HEADER :: mem'[o] == mem[o]
    ensures HeaderAt(mem', off, next, size)
  {
  }

  /** The header of a region put in gap k lies inside the mapping, whether or not the gap has room for the payload. */
  predicate HeaderFits(h: Heap, k: nat)
    requires k <= |h.regions|
  {
    Left(h, k) + HEADER <= h.start + h.size
  }

  /** The three word writes of an allocation in gap k. */
  function AllocBytes(h: Heap, mem: seq<byte>, k: nat, n: ulong): (r: seq<byte>)
    requires WellFormed(h) && |mem| == h.size
    requires k <= |h.regions| && HeaderFits(h, k)
    ensures |r| == |mem|
    ensures var p := Left(h, k) - h.start;
            forall o | 0 <= o < |mem| && !(p <= o < p + HEADER)
                       && !(k > 0 && PrevAddr(h, k) - h.start <= o < PrevAddr(h, k) - h.start + 4) ::
              r[o] == mem[o]
  {
    NewHeaderInRange(h, k);
    var p := Left(h, k) - h.start;
    var m := Store(Store(mem, p + 4, n), p, NextAddr(h, k));
    if k == 0 then m else Store(m, PrevAddr(h, k) - h.start, Left(h, k))
  }

  lemma NewHeaderInRange(h: Heap, k: nat)
    requires WellFormed(h) && k <= |h.regions|
    ensures h.start <= Left(h, k) <= Right(h, k) <= h.start + h.size < WORD
    ensures k > 0 ==> h.start <= PrevAddr(h, k) && PrevAddr(h, k) + HEADER <= Left(h, k)
    ensures k < |h.regions| ==> HeaderFits(h, k)
    ensures NextAddr(h, k) < WORD
  {
    assert Gap(h, k) >= 0;
    if k > 0 {
      InRange(h, k - 1);
    }
    if k < |h.regions| {
      InRange(h, k);
    }
  }

  lemma RoomForHeader(h: Heap, k: nat, n: nat)
    requires WellFormed(h) && k <= |h.regions| && Gap(h, k) >= RegionSize(n)
    ensures HeaderFits(h, k) && n + HEADER < WORD
  {
    NewHeaderInRange(h, k);
  }

  lemma AllocRepresents(h: Heap, mem: seq<byte>, first: ulong, k: nat, n: ulong)
    requires WellFormed(h) && Represents(h, mem, first)
    requires k <= |h.regions| && HeaderFits(h, k) && Gap(h, k) >= RegionSize(n)
    ensures Left(h, k) < WORD
    ensures Represents(InsertAt(h, k, n), AllocBytes(h, mem, k, n), if k == 0 then Left(h, k) else first)
  {
    NewHeaderInRange(h, k);
    var h', mem' := InsertAt(h, k, n), AllocBytes(h, mem, k, n);
    InsertIndex(h, k, n, 0);
    hide AllocBytes, InsertAt, Gap, Left, WellFormed;
    forall i | 0 <= i < |h'.regions|
      ensures HeaderOf(h', mem', i)
    {
      HeaderAfterAlloc(h, mem, first, k, n, i);
    }
  }

  /** Up to the new region itself every header is as the list says; behind it only if the gap had room. */
  lemma HeaderAfterAlloc(h: Heap, mem: seq<byte>, first: ulong, k: nat, n: ulong, i: nat)
    requires WellFormed(h) && Represents(h, mem, first)
    requires k <= |h.regions| && HeaderFits(h, k) && i <= |h.regions|
    requires i <= k || Gap(h, k) >= RegionSize(n)
    ensures HeaderOf(InsertAt(h, k, n), AllocBytes(h, mem, k, n), i)
  {
    hide Load, AllocBytes, InsertAt, Gap, HeaderAt, HeaderFits, WellFormed;
    InsertIndex(h, k, n, i);
    InsertIndex(h, k, n, i + 1);
    if i == k {
      NewHeader(h, mem, k, n);
    } else if i == k - 1 {
      PredecessorHeader(h, mem, k, n);
    } else {
      OtherHeader(h, mem, first, k, n, if i < k then i else i - 1);
    }
  }

  lemma NewHeader(h: Heap, mem: seq<byte>, k: nat, n: ulong)
    requires WellFormed(h) && |mem| == h.size
    requires k <= |h.regions| && HeaderFits(h, k)
    ensures HeaderAt(AllocBytes(h, mem, k, n), Left(h, k) - h.start, NextAddr(h, k), n)
  {
    hide Store, Load, WellFormed;
    NewHeaderInRange(h, k);
    var p := Left(h, k) - h.start;
    var m1 := Store(mem, p + 4, n);
    LoadStoreSame(mem, p + 4, n);
    var m2 := Store(m1, p, NextAddr(h, k));
    LoadStoreSame(m1, p, NextAddr(h, k));
    LoadStoreOther(m1, p, NextAddr(h, k), p + 4);
    if k > 0 {
      LoadStoreOther(m2, PrevAddr(h, k) - h.start, Left(h, k), p);
      LoadStoreOther(m2, PrevAddr(h, k) - h.start, Left(h, k), p + 4);
    }
  }

  lemma PredecessorHeader(h: Heap, mem: seq<byte>, k: nat, n: ulong)
    requires WellFormed(h) && |mem| == h.size
    requires 0 < k <= |h.regions| && HeaderFits(h, k)
    requires HeaderOf(h, mem, k - 1)
    ensures HeaderAt(AllocBytes(h, mem, k, n), h.regions[k - 1].addr - h.start, Left(h, k), h.regions[k - 1].size)
  {
    hide Store, Load, WellFormed;
    NewHeaderInRange(h, k);
    var p, q := Left(h, k) - h.start, h.regions[k - 1].addr - h.start;
    var m1 := Store(mem, p + 4, n);
    LoadStoreOther(mem, p + 4, n, q + 4);
    var m2 := Store(m1, p, NextAddr(h, k));
    LoadStoreOther(m1, p, NextAddr(h, k), q + 4);
    LoadStoreSame(m2, q, Left(h, k));
    LoadStoreOther(m2, q, Left(h, k), q + 4);
  }

  lemma OtherHeader(h: Heap, mem: seq<byte>, first: ulong, k: nat, n: ulong, j: nat)
    requires WellFormed(h) && Represents(h, mem, first)
    requires k <= |h.regions| && HeaderFits(h, k)
    requires j < k - 1 || (k <= j < |h.regions| && Gap(h, k) >= RegionSize(n))
    ensures HeaderAt(AllocBytes(h, mem, k, n), h.regions[j].addr - h.start, NextAddr(h, j + 1), h.regions[j].size)
  {
    NewHeaderInRange(h, k);
    InRange(h, j);
    AroundGap(h, k, j);
    if 0 < k {
      AroundGap(h, k - 1, j);
    }
    assert HeaderOf(h, mem, j);
    var off := h.regions[j].addr - h.start;
    hide WellFormed, Gap, AllocBytes, Load;
    HeaderUnchanged(mem, AllocBytes(h, mem, k, n), off, NextAddr(h, j + 1), h.regions[j].size);
  }

  // ----- memory determines the list -----

  ghost predicate Chained(h: Heap, mem: seq<byte>, i: nat)
    requires i < |h.regions|
  {
    HeaderOf(h, mem, i) && h.regions[i].addr != 0
  }

  /** A list that describes the memory agrees with any other up to the first header the other gets wrong. */
  lemma {:induction false} SameChain(g: Heap, h: Heap, mem: seq<byte>, first: ulong, m: nat)
    requires Represents(g, mem, first)
    requires g.start == h.start && first == NextAddr(h, 0) && m <= |h.regions|
    requires forall i | 0 <= i < m :: Chained(h, mem, i)
    ensures m <= |g.regions| && NextAddr(g, m) == NextAddr(h, m)
    ensures forall i | 0 <= i < m :: g.regions[i] == h.regions[i]
  {
    hide Load;
    if m == 0 {
    } else {
      SameChain(g, h, mem, first, m - 1);
      assert Chained(h, mem, m - 1);
      assert g.regions[m - 1].addr == h.regions[m - 1].addr;
      assert HeaderOf(g, mem, m - 1);
    }
  }

  /** Raw memory, read from the first region on, determines the region list. */
  lemma MemoryDeterminesList(g: Heap, h: Heap, mem: seq<byte>, first: ulong)
    requires WellFormed(g) && Represents(g, mem, first) && WellFormed(h) && Represents(h, mem, first)
    requires g.start == h.start
    ensures g == h
  {
    forall i | 0 <= i < |h.regions|
      ensures Chained(h, mem, i)
    {
      InRange(h, i);
    }
    SameChain(g, h, mem, first, |h.regions|);
    if |h.regions| < |g.regions| {
      InRange(g, |h.regions|);
    }
    assert g.regions == h.regions;
  }

  /** After an allocation in a gap without room for it, no region list at all describes the memory. */
  lemma NoListDescribes(h: Heap, mem: seq<byte>, first: ulong, k: nat, n: ulong, g: Heap)
    requires WellFormed(h) && Represents(h, mem, first)
    requires k <= |h.regions| && HeaderFits(h, k) && Gap(h, k) < RegionSize(n)
    requires g.start == h.start && g.size == h.size && WellFormed(g)
    ensures Left(h, k) < WORD
    ensures !Represents(g, AllocBytes(h, mem, k, n), if k == 0 then Left(h, k) else first)
  {
    NewHeaderInRange(h, k);
    var mem', first' := AllocBytes(h, mem, k, n), if k == 0 then Left(h, k) else first;
    if Represents(g, mem', first') {
      var h' := InsertAt(h, k, n);
      InsertIndex(h, k, n, 0);
      forall i | 0 <= i <= k
        ensures Chained(h', mem', i)
      {
        HeaderAfterAlloc(h, mem, first, k, n, i);
        InsertIndex(h, k, n, i);
        if i < k {
          InRange(h, i);
        }
      }
      SameChain(g, h', mem', first', k + 1);
      NextRegionCollides(h, k, n, g);
    }
  }

  lemma NextRegionCollides(h: Heap, k: nat, n: nat, g: Heap)
    requires WellFormed(h) && k <= |h.regions| && Gap(h, k) < RegionSize(n)
    requires g.start == h.start && g.size == h.size && k < |g.regions|
    requires g.regions[k] == Region(Left(h, k), n)
    requires NextAddr(g, k + 1) == NextAddr(h, k)
    ensures !WellFormed(g)
  {
    if WellFormed(g) {
      assert Gap(g, k + 1) >= 0;
      if k < |h.regions| {
        InRange(h, k);
      }
    }
  }

  /** The one word write of a release of region k: its predecessor's `next`, or none when it is the first. */
  function ReleaseBytes(h: Heap, mem: seq<byte>, k: nat): (r: seq<byte>)
    requires WellFormed(h) && |mem| == h.size && k < |h.regions|
    ensures |r| == |mem|
    ensures forall o | 0 <= o < |mem|
                       && !(k > 0 && PrevAddr(h, k) - h.start <= o < PrevAddr(h, k) - h.start + 4) ::
              r[o] == mem[o]
  {
    Disjoint(h);
    if k == 0 then mem else Store(mem, PrevAddr(h, k) - h.start, NextAddr(h, k + 1))
  }

  lemma ReleaseRepresents(h: Heap, mem: seq<byte>, first: ulong, k: nat)
    requires WellFormed(h) && Represents(h, mem, first) && k < |h.regions|
    ensures NextAddr(h, 1) < WORD
    ensures Represents(RemoveAt(h, k), ReleaseBytes(h, mem, k), if k == 0 then NextAddr(h, 1) else first)
  {
    var h', mem' := RemoveAt(h, k), ReleaseBytes(h, mem, k);
    forall i | 0 <= i < |h'.regions|
      ensures HeaderOf(h', mem', i)
    {
      HeaderAfterRelease(h, mem, first, k, i);
    }
    if 1 < |h.regions| {
      InRange(h, 1);
    }
  }

  lemma HeaderAfterRelease(h: Heap, mem: seq<byte>, first: ulong, k: nat, i: nat)
    requires WellFormed(h) && Represents(h, mem, first)
    requires k < |h.regions| && i < |h.regions| - 1
    ensures HeaderOf(RemoveAt(h, k), ReleaseBytes(h, mem, k), i)
  {
    RemoveIndex(h, k, i);
    RemoveIndex(h, k, i + 1);
    hide Load, Store, WellFormed, RemoveAt, ReleaseBytes, HeaderAt;
    var j := if i < k then i else i + 1;
    if j == k - 1 {
      RelinkedHeader(h, mem, k);
    } else {
      KeptHeader(h, mem, first, k, j);
    }
  }

  lemma RelinkedHeader(h: Heap, mem: seq<byte>, k: nat)
    requires WellFormed(h) && |mem| == h.size && 0 < k < |h.regions|
    requires HeaderOf(h, mem, k - 1)
    ensures var r := h.regions[k - 1];
            HeaderAt(ReleaseBytes(h, mem, k), r.addr - h.start, NextAddr(h, k + 1), r.size)
  {
    if k + 1 < |h.regions| {
      InRange(h, k + 1);
    }
    InRange(h, k - 1);
    hide Load, Store, WellFormed;
    var off := h.regions[k - 1].addr - h.start;
    LoadStoreSame(mem, off, NextAddr(h, k + 1));
    LoadStoreOther(mem, off, NextAddr(h, k + 1), off + 4);
  }

  lemma KeptHeader(h: Heap, mem: seq<byte>, first: ulong, k: nat, j: nat)
    requires WellFormed(h) && Represents(h, mem, first)
    requires k < |h.regions| && j < |h.regions| && j != k && j != k - 1
    ensures HeaderAt(ReleaseBytes(h, mem, k), h.regions[j].addr - h.start, NextAddr(h, j + 1), h.regions[j].size)
  {
    InRange(h, j);
    assert HeaderOf(h, mem, j);
    if 0 < k {
      AroundGap(h, k - 1, j);
      AroundGap(h, k, j);
    }
    var off := h.regions[j].addr - h.start;
    hide WellFormed, Load, Store, ReleaseBytes;
    HeaderUnchanged(mem, ReleaseBytes(h, mem, k), off, NextAddr(h, j + 1), h.regions[j].size);
  }

  // ----- the list as raw memory shows it -----

  /** Follow `next` words from `at` until NULL, or until `fuel` regions have been seen. */
  function Walk(mem: seq<byte>, start: nat, at: nat, fuel: nat): seq<nat>
    decreases fuel
  {
    if at == 0 || fuel == 0 || at < start || at - start + 4 > |mem| then []
    else [at] + Walk(mem, start, Load(mem, at - start), fuel - 1)
  }

  function Addresses(h: Heap): seq<nat> {
    seq(|h.regions|, i requires 0 <= i < |h.regions| => h.regions[i].addr)
  }

  lemma {:induction false} WalkFrom(h: Heap, mem: seq<byte>, first: ulong, i: nat, fuel: nat)
    requires WellFormed(h) && Represents(h, mem, first) && i <= |h.regions|
    requires |h.regions| - i <= fuel
    ensures Walk(mem, h.start, NextAddr(h, i), fuel) == Addresses(h)[i..]
    decreases |h.regions| - i
  {
    if i == |h.regions| {
    } else {
      InRange(h, i);
      assert HeaderOf(h, mem, i);
      WalkFrom(h, mem, first, i + 1, fuel - 1);
    }
  }

  /** The list in memory is acyclic: it reaches NULL after exactly the live regions, at strictly rising addresses,
      and no amount of extra fuel makes the walk longer. */
  lemma WalkReachesNull(h: Heap, mem: seq<byte>, first: ulong, fuel: nat)
    requires WellFormed(h) && Represents(h, mem, first) && |h.regions| <= fuel
    ensures var w := Walk(mem, h.start, first, fuel);
            && w == Addresses(h)
            && (forall i, j | 0 <= i < j < |w| :: w[i] < w[j])
  {
    WalkFrom(h, mem, first, 0, fuel);
    Disjoint(h);
  }

  // ----- payloads -----

  ghost function IndexOf(rs: seq<Region>, a: nat): (k: nat)
    requires IsLive(rs, a)
    ensures k < |rs| && PayloadStart(rs[k]) == a
  {
    var k :| 0 <= k < |rs| && Payloads(rs)[k] == a;
    k
  }

  lemma IndexIs(h: Heap, k: nat)
    requires WellFormed(h) && k < |h.regions|
    ensures IsLive(h.regions, PayloadStart(h.regions[k]))
    ensures IndexOf(h.regions, PayloadStart(h.regions[k])) == k
  {
    assert Payloads(h.regions)[k] == PayloadStart(h.regions[k]);
    LiveIndex(h, k);
  }

  /** A release writes at most the `next` word of the region before the one released. */
  ghost predicate ReleaseFrame(h: Heap, a: nat, mem: seq<byte>, mem': seq<byte>) {
    if IsLive(h.regions, a) then ChangedOnly(h.start, mem, mem', 0, 0, PrevAddr(h, IndexOf(h.regions, a)))
    else mem' == mem
  }

  /** In terms of the regions alone: no byte changes for an unknown address, else none but the `next` word before. */
  lemma ReleaseFrameMeans(h: Heap, a: nat, mem: seq<byte>, mem': seq<byte>)
    requires WellFormed(h) && |mem| == h.size
    requires ReleaseFrame(h, a, mem, mem')
    ensures (forall k | 0 <= k < |h.regions| :: h.regions[k].addr + 8 != a) ==> mem' == mem
    ensures |mem'| == |mem|
    ensures forall k, o | 0 <= k < |h.regions| && h.regions[k].addr + 8 == a && 0 <= o < |mem| && mem'[o] != mem[o] ::
              k > 0 && h.regions[k - 1].addr <= h.start + o < h.regions[k - 1].addr + 4
  {
    forall k | 0 <= k < |h.regions| && h.regions[k].addr + 8 == a
      ensures IsLive(h.regions, a) && IndexOf(h.regions, a) == k
    {
      IndexIs(h, k);
    }
  }

  ghost function Contents(h: Heap, mem: seq<byte>, k: nat): (c: seq<byte>)
    requires WellFormed(h) && |mem| == h.size && k < |h.regions|
    ensures |c| == h.regions[k].size
  {
    InRange(h, k);
    mem[PayloadStart(h.regions[k]) - h.start..End(h.regions[k]) - h.start]
  }

  /** The abstract memory: from each live payload address to the bytes of that payload. */
  ghost function Live(h: Heap, mem: seq<byte>): map<nat, seq<byte>>
    requires WellFormed(h) && |mem| == h.size
  {
    map a: nat | a in Payloads(h.regions) :: Contents(h, mem, IndexOf(h.regions, a))
  }

  lemma LiveAt(h: Heap, mem: seq<byte>, k: nat)
    requires WellFormed(h) && |mem| == h.size && k < |h.regions|
    ensures PayloadStart(h.regions[k]) in Live(h, mem)
    ensures Live(h, mem)[PayloadStart(h.regions[k])] == Contents(h, mem, k)
  {
    assert Payloads(h.regions)[k] == PayloadStart(h.regions[k]);
    LiveIndex(h, k);
  }

  lemma LiveKeys(h: Heap, mem: seq<byte>)
    requires WellFormed(h) && |mem| == h.size
    ensures forall a :: a in Live(h, mem) <==> IsLive(h.regions, a)
  {
  }

  /** Two heaps that hold the same region, with the same bytes in its payload, agree on that block. */
  lemma SameBlock(h: Heap, mem: seq<byte>, j: nat, h': Heap, mem': seq<byte>, i: nat)
    requires WellFormed(h) && |mem| == h.size && j < |h.regions|
    requires WellFormed(h') && |mem'| == h'.size && i < |h'.regions|
    requires h.start == h'.start && h.size == h'.size
    requires h'.regions[i] == h.regions[j]
    requires forall o | 0 <= o < |mem| && PayloadStart(h.regions[j]) <= h.start + o < End(h.regions[j]) ::
               mem'[o] == mem[o]
    ensures var a := PayloadStart(h.regions[j]);
            a in Live(h, mem) && a in Live(h', mem') && Live(h', mem')[a] == Live(h, mem)[a]
  {
    LiveAt(h, mem, j);
    LiveAt(h', mem', i);
    InRange(h, j);
    assert Contents(h', mem', i) == Contents(h, mem, j);
  }

  lemma AllocKeepsBlock(h: Heap, mem: seq<byte>, k: nat, n: ulong, j: nat)
    requires WellFormed(h) && |mem| == h.size
    requires k <= |h.regions| && HeaderFits(h, k) && Gap(h, k) >= RegionSize(n) && j < |h.regions|
    ensures WellFormed(InsertAt(h, k, n))
    ensures var live, live' := Live(h, mem), Live(InsertAt(h, k, n), AllocBytes(h, mem, k, n));
            var a := PayloadStart(h.regions[j]);
            a in live && a in live' && live'[a] == live[a]
  {
    InsertWellFormed(h, k, n);
    var i := if j < k then j else j + 1;
    InsertIndex(h, k, n, i);
    NewHeaderInRange(h, k);
    InRange(h, j);
    AroundGap(h, k, j);
    if 0 < k {
      AroundGap(h, k - 1, j);
    }
    SameBlock(h, mem, j, InsertAt(h, k, n), AllocBytes(h, mem, k, n), i);
  }

  lemma MapExtends<K, V>(m: map<K, V>, m': map<K, V>, a: K)
    requires a !in m && forall b :: b in m' <==> b == a || b in m
    requires forall b | b in m :: m'[b] == m[b]
    ensures m' == m[a := m'[a]]
  {
  }

  /** Allocation adds one address and changes no live payload byte. */
  lemma AllocLive(h: Heap, mem: seq<byte>, k: nat, n: ulong)
    requires WellFormed(h) && |mem| == h.size
    requires k <= |h.regions| && HeaderFits(h, k) && Gap(h, k) >= RegionSize(n)
    ensures WellFormed(InsertAt(h, k, n))
    ensures Extends(Live(h, mem), Live(InsertAt(h, k, n), AllocBytes(h, mem, k, n)), Left(h, k) + HEADER, n)
  {
    hide WellFormed, Gap, AllocBytes, InsertAt, Live, Contents, HeaderFits, Left, IsLive, IndexOf;
    var h', mem' := InsertAt(h, k, n), AllocBytes(h, mem, k, n);
    InsertWellFormed(h, k, n);
    InsertedIsNew(h, k, n);
    InsertIndex(h, k, n, k);
    LiveAt(h', mem', k);
    LiveKeys(h, mem);
    LiveKeys(h', mem');
    forall b | IsLive(h.regions, b)
      ensures Live(h', mem')[b] == Live(h, mem)[b]
    {
      AllocKeepsBlock(h, mem, k, n, IndexOf(h.regions, b));
    }
    MapExtends(Live(h, mem), Live(h', mem'), Left(h, k) + HEADER);
  }

  lemma ReleaseKeepsBlock(h: Heap, mem: seq<byte>, k: nat, j: nat)
    requires WellFormed(h) && |mem| == h.size
    requires k < |h.regions| && j < |h.regions| && j != k
    ensures WellFormed(RemoveAt(h, k))
    ensures var live, live' := Live(h, mem), Live(RemoveAt(h, k), ReleaseBytes(h, mem, k));
            var a := PayloadStart(h.regions[j]);
            a in live && a in live' && live'[a] == live[a]
  {
    RemoveWellFormed(h, k);
    var i := if j < k then j else j - 1;
    RemoveIndex(h, k, i);
    InRange(h, j);
    if 0 < k {
      InRange(h, k - 1);
      AroundGap(h, k - 1, j);
      AroundGap(h, k, j);
    }
    SameBlock(h, mem, j, RemoveAt(h, k), ReleaseBytes(h, mem, k), i);
  }

  /** Release drops one address and changes no other live payload byte. */
  lemma ReleaseLiveMap(h: Heap, mem: seq<byte>, k: nat)
    requires WellFormed(h) && |mem| == h.size && k < |h.regions|
    ensures WellFormed(RemoveAt(h, k))
    ensures Live(RemoveAt(h, k), ReleaseBytes(h, mem, k)) == Live(h, mem) - {PayloadStart(h.regions[k])}
  {
    var h', mem', a := RemoveAt(h, k), ReleaseBytes(h, mem, k), PayloadStart(h.regions[k]);
    ReleaseLive(h, k);
    LiveKeys(h, mem);
    LiveKeys(h', mem');
    forall b | IsLive(h.regions, b) && b != a
      ensures Live(h', mem')[b] == Live(h, mem)[b]
    {
      ReleaseKeepsBlock(h, mem, k, IndexOf(h.regions, b));
    }
  }

  // ----- user stores -----

  predicate InMapping(h: Heap, at: nat) { h.start <= at < h.start + h.size }

  /** Address `at` lies in no header: a header is what comes just below a live payload address. */
  predicate OffHeaders(payloads: set<nat>, at: nat) {
    forall a | a in payloads :: !(a - HEADER <= at < a)
  }

  /** What a store at `at` makes of the blocks: the one that holds that address, if any, has the byte changed. */
  ghost function Stored(live: map<nat, seq<byte>>, at: nat, b: byte): map<nat, seq<byte>> {
    map a: nat | a in live :: if a <= at < a + |live[a]| then live[a][at - a := b] else live[a]
  }

  lemma OffHeader(h: Heap, mem: seq<byte>, at: nat, i: nat)
    requires WellFormed(h) && |mem| == h.size && i < |h.regions|
    requires OffHeaders(Live(h, mem).Keys, at)
    ensures !(h.regions[i].addr <= at < h.regions[i].addr + HEADER)
  {
    LiveAt(h, mem, i);
  }

  lemma OnHeader(h: Heap, mem: seq<byte>, at: nat) returns (i: nat)
    requires WellFormed(h) && |mem| == h.size
    requires !OffHeaders(Live(h, mem).Keys, at)
    ensures i < |h.regions| && h.regions[i].addr <= at < h.regions[i].addr + HEADER
  {
    LiveKeys(h, mem);
    var a :| a in Live(h, mem) && a - HEADER <= at < a;
    i := IndexOf(h.regions, a);
  }

  /** A header byte cannot change without one of its two words changing. */
  lemma HeaderBytesMatter(mem: seq<byte>, off: nat, o: nat, b: byte)
    requires off <= o < off + HEADER <= |mem|
    requires Load(mem[o := b], off) == Load(mem, off) && Load(mem[o := b], off + 4) == Load(mem, off + 4)
    ensures mem[o] == b
  {
  }

  lemma StoreKeepsHeaders(h: Heap, mem: seq<byte>, first: ulong, at: nat, b: byte)
    requires WellFormed(h) && Represents(h, mem, first) && InMapping(h, at)
    requires OffHeaders(Live(h, mem).Keys, at)
    ensures Represents(h, mem[at - h.start := b], first)
  {
    var mem' := mem[at - h.start := b];
    hide Load, WellFormed, OffHeaders, Live;
    forall j | 0 <= j < |h.regions|
      ensures HeaderOf(h, mem', j)
    {
      OffHeader(h, mem, at, j);
      assert HeaderOf(h, mem, j);
      HeaderUnchanged(mem, mem', h.regions[j].addr - h.start, NextAddr(h, j + 1), h.regions[j].size);
    }
  }

  /** A store anywhere in the mapping keeps the list readable exactly when it misses every header, or changes
      nothing; freed bytes may be overwritten at will. */
  lemma StoreKeepsListExactly(h: Heap, mem: seq<byte>, first: ulong, at: nat, b: byte)
    requires WellFormed(h) && Represents(h, mem, first) && InMapping(h, at)
    ensures Represents(h, mem[at - h.start := b], first)
        <==> OffHeaders(Live(h, mem).Keys, at) || mem[at - h.start] == b
  {
    var mem' := mem[at - h.start := b];
    if OffHeaders(Live(h, mem).Keys, at) {
      StoreKeepsHeaders(h, mem, first, at, b);
    } else if mem[at - h.start] == b {
      assert mem' == mem;
    } else if Represents(h, mem', first) {
      var i := OnHeader(h, mem, at);
      hide WellFormed, Live, Load;
      assert HeaderOf(h, mem, i) && HeaderOf(h, mem', i);
      HeaderBytesMatter(mem, h.regions[i].addr - h.start, at - h.start, b);
    }
  }

  lemma StoreInBlock(h: Heap, mem: seq<byte>, at: nat, b: byte, k: nat)
    requires WellFormed(h) && |mem| == h.size && InMapping(h, at) && k < |h.regions|
    ensures var a, c := PayloadStart(h.regions[k]), Contents(h, mem, k);
            Contents(h, mem[at - h.start := b], k) == if a <= at < a + |c| then c[at - a := b] else c
  {
    InRange(h, k);
  }

  /** A store changes at most the one byte of the one block that holds it. */
  lemma StoreLive(h: Heap, mem: seq<byte>, at: nat, b: byte)
    requires WellFormed(h) && |mem| == h.size && InMapping(h, at)
    ensures Live(h, mem[at - h.start := b]) == Stored(Live(h, mem), at, b)
  {
    var mem' := mem[at - h.start := b];
    hide WellFormed, Live, Contents, IsLive, IndexOf;
    LiveKeys(h, mem);
    LiveKeys(h, mem');
    forall a | a in Live(h, mem)
      ensures Live(h, mem')[a] == Stored(Live(h, mem), at, b)[a]
    {
      var k := IndexOf(h.regions, a);
      LiveAt(h, mem, k);
      LiveAt(h, mem', k);
      StoreInBlock(h, mem, at, b, k);
    }
  }

  // ----- the same facts in the order the code writes its words -----

  lemma AllocWrites(h: Heap, mem: seq<byte>, first: ulong, k: nat, n: ulong)
    requires WellFormed(h) && Represents(h, mem, first)
    requires k <= |h.regions| && HeaderFits(h, k)
    ensures |mem| == h.size
    ensures h.start <= Left(h, k) && Left(h, k) + HEADER < WORD && Left(h, k) - h.start + HEADER <= |mem|
    ensures k > 0 ==> h.start <= PrevAddr(h, k) < WORD && PrevAddr(h, k) - h.start + HEADER <= |mem|
    ensures var p := Left(h, k) - h.start;
            var sized := Store(mem, p + 4, n);
            AllocBytes(h, mem, k, n) == (
              if k == 0 then Store(sized, p, first)
              else var q := PrevAddr(h, k) - h.start; Store(Store(sized, p, Load(sized, q)), q, Left(h, k)))
  {
    hide WellFormed, Store, Load, Gap, HeaderOf;
    NewHeaderInRange(h, k);
    if 0 < k {
      LoadStoreOther(mem, Left(h, k) - h.start + 4, n, PrevAddr(h, k) - h.start);
      LinkAt(h, mem, k);
    }
  }

  lemma LinkAt(h: Heap, mem: seq<byte>, k: nat)
    requires 0 < k <= |h.regions| && HeaderOf(h, mem, k - 1)
    ensures h.start <= PrevAddr(h, k) && PrevAddr(h, k) - h.start + HEADER <= |mem|
    ensures Load(mem, PrevAddr(h, k) - h.start) == NextAddr(h, k)
  {
  }

  /** Whatever the gap's size, an allocation writes one header and its predecessor's `next` word. */
  lemma AllocFrame(h: Heap, mem: seq<byte>, k: nat, n: ulong)
    requires WellFormed(h) && |mem| == h.size
    requires k <= |h.regions| && HeaderFits(h, k)
    ensures ChangedOnly(h.start, mem, AllocBytes(h, mem, k, n), Left(h, k), Left(h, k) + HEADER, PrevAddr(h, k))
  {
    NewHeaderInRange(h, k);
    hide WellFormed, Store;
    assert k > 0 ==> PrevAddr(h, k) > 0;
  }

  lemma AllocOutcome(h: Heap, mem: seq<byte>, first: ulong, free: ulong, k: nat, n: ulong)
    requires WellFormed(h) && Represents(h, mem, first) && free == FreeBytes(h)
    requires k <= |h.regions| && HeaderFits(h, k) && Gap(h, k) >= RegionSize(n)
    ensures var h', mem' := InsertAt(h, k, n), AllocBytes(h, mem, k, n);
            && Left(h, k) < WORD
            && Shows(h', mem', if k == 0 then Left(h, k) else first)
            && Sub(free, Add(n, HEADER)) == FreeBytes(h')
            && Extends(Live(h, mem), Live(h', mem'), Left(h, k) + HEADER, n)
  {
    assert |mem| == h.size;
    RoomForHeader(h, k, n);
    hide Gap, Left, AllocBytes, Live, FreeBytes, WellFormed, Represents, InsertAt, HeaderFits, Extends, Sub, Add;
    InsertIndex(h, k, n, k);
    AllocRepresents(h, mem, first, k, n);
    AllocLive(h, mem, k, n);
    InsertWellFormed(h, k, n);
    Conservation(InsertAt(h, k, n));
    SubtractSize(free, n);
  }

  lemma SubtractSize(free: ulong, n: ulong)
    requires n + HEADER <= free
    ensures Sub(free, Add(n, HEADER)) == free - (n + HEADER)
  {
  }

  lemma NoListOutcome(h: Heap, mem: seq<byte>, first: ulong, k: nat, n: ulong)
    requires WellFormed(h) && Represents(h, mem, first)
    requires k <= |h.regions| && HeaderFits(h, k) && Gap(h, k) < RegionSize(n)
    ensures Left(h, k) < WORD
    ensures forall rs ::
              !Shows(Heap(h.start, h.size, rs), AllocBytes(h, mem, k, n), if k == 0 then Left(h, k) else first)
  {
    assert |mem| == h.size;
    NewHeaderInRange(h, k);
    hide Gap, Left, AllocBytes, WellFormed, Represents, HeaderFits;
    forall rs | WellFormed(Heap(h.start, h.size, rs))
      ensures !Represents(Heap(h.start, h.size, rs), AllocBytes(h, mem, k, n), if k == 0 then Left(h, k) else first)
    {
      NoListDescribes(h, mem, first, k, n, Heap(h.start, h.size, rs));
    }
  }

  lemma ReleaseWrites(h: Heap, mem: seq<byte>, first: ulong, k: nat)
    requires WellFormed(h) && Represents(h, mem, first) && 0 < k < |h.regions|
    ensures var q, r := h.regions[k - 1].addr - h.start, h.regions[k].addr - h.start;
            && 0 <= q && q + HEADER <= r && r + HEADER <= |mem|
            && ReleaseBytes(h, mem, k) == Store(mem, q, Load(mem, r))
            && Load(ReleaseBytes(h, mem, k), r + 4) == Load(mem, r + 4)
  {
    InRange(h, k - 1);
    InRange(h, k);
    AroundGap(h, k, k - 1);
    assert HeaderOf(h, mem, k);
    var q, r := h.regions[k - 1].addr - h.start, h.regions[k].addr - h.start;
    LoadStoreOther(mem, q, Load(mem, r), r + 4);
  }

  lemma FrameMeans(start: nat, mem: seq<byte>, mem': seq<byte>, lo: nat, hi: nat, link: nat)
    requires ChangedOnly(start, mem, mem', lo, hi, link)
    ensures |mem'| == |mem|
    ensures forall o | 0 <= o < |mem| && mem'[o] != mem[o] ::
              lo <= start + o < hi || (link != 0 && link <= start + o < link + 4)
  {
  }

  lemma ReleaseFrameBytes(h: Heap, mem: seq<byte>, k: nat)
    requires WellFormed(h) && |mem| == h.size && k < |h.regions|
    ensures ChangedOnly(h.start, mem, ReleaseBytes(h, mem, k), 0, 0, PrevAddr(h, k))
    ensures k == 0 ==> ReleaseBytes(h, mem, k) == mem
  {
    if 0 < k {
      InRange(h, k - 1);
    }
  }

  lemma ReleaseOutcome(h: Heap, mem: seq<byte>, first: ulong, free: ulong, k: nat)
    requires WellFormed(h) && Represents(h, mem, first) && free == FreeBytes(h)
    requires k < |h.regions| && RegionSize(h.regions[k].size) < WORD
    ensures var h', mem', a := RemoveAt(h, k), ReleaseBytes(h, mem, k), PayloadStart(h.regions[k]);
            && Release(h, a) == (h', 0)
            && h'.start == h.start && h'.size == h.size
            && NextAddr(h, 1) < WORD
            && Shows(h', mem', if k == 0 then NextAddr(h, 1) else first)
            && Add(free, RegionSize(h.regions[k].size)) == FreeBytes(h') == free + 8 + h.regions[k].size
            && ChangedOnly(h.start, mem, mem', 0, 0, PrevAddr(h, k))
            && Live(h', mem') == Live(h, mem) - {a}
            && (k == 0 ==> mem' == mem)
  {
    hide Gap, Live, FreeBytes, WellFormed, Release, HeaderOf, ReleaseBytes;
    ReleaseFrameBytes(h, mem, k);
    ReleaseLive(h, k);
    ReleaseRepresents(h, mem, first, k);
    ReleaseLiveMap(h, mem, k);
    Conservation(RemoveAt(h, k));
    RemoveIndex(h, k, 0);
  }
}
