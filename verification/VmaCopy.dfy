/** dup_mmap and dup_mm: copying a process's list of memory areas through a pointer to the link to fill,
    with the memory charge and the file references of every copied area accounted for. */
module VmaCopy {
  import opened Basics

  datatype VmFlag = VM_DONTCOPY | VM_ACCOUNT | VM_LOCKED | VM_SHARED | VM_DENYWRITE

  /** `vm_file`, and the inode behind it. */
  datatype Backing = Anonymous | FileBacked(file: nat, inode: nat)

  /** What an area is, apart from its links. */
  datatype Area = Area(pages: nat, flags: set<VmFlag>, backing: Backing)

  /** What an area holds of its file: a reference, a place in the mapping's tree of areas, and by its flags a
      unit taken off `i_writecount` and a unit of `i_mmap_writable`. */
  datatype Hold = FileReference(file: nat) | InTree(inode: nat) | WriteDenied(inode: nat) | SharedWritable(inode: nat)

  datatype AreaCall = VM_ENOUGH_MEMORY | VMA_ALLOC | VMA_DUP_POLICY | ANON_VMA_FORK | COPY_PAGE_RANGE

  /** What the parts not modelled answer, call by call; 0 is success. `area(i, c)` is call c for the i-th area. */
  datatype Answers = Answers(
    allocateMm: int, mmInit: int, ksmFork: int, khugepagedFork: int, area: (nat, AreaCall) -> int, binfmt: int)

  const ENOMEM: int := -12

  // ----- the specification -----

  function CopyOf(a: Area): Area { a.(flags := a.flags - {VM_LOCKED}) }

  /** The areas a child gets: those not marked VM_DONTCOPY, unlocked, in order. */
  function Copies(s: seq<Area>): seq<Area> {
    if s == [] then []
    else
      var last := s[|s| - 1];
      Copies(s[..|s| - 1]) + if VM_DONTCOPY in last.flags then [] else [CopyOf(last)]
  }

  /** What dup_mmap reports for the i-th area, `a`: a page-table failure keeps its own code. */
  function AreaError(env: Answers, a: Area, i: nat): int {
    if VM_DONTCOPY in a.flags then 0
    else if BeforeLink(env, a, i) then ENOMEM
    else env.area(i, COPY_PAGE_RANGE)
  }

  /** Some call made before the area is linked fails. */
  predicate BeforeLink(env: Answers, a: Area, i: nat) {
    || (VM_ACCOUNT in a.flags && env.area(i, VM_ENOUGH_MEMORY) != 0)
    || env.area(i, VMA_ALLOC) != 0 || env.area(i, VMA_DUP_POLICY) != 0 || env.area(i, ANON_VMA_FORK) != 0
  }

  /** The first error among areas 0..n-1. */
  function FirstError(env: Answers, s: seq<Area>, n: nat): int
    requires n <= |s|
  {
    if n == 0 then 0
    else if FirstError(env, s, n - 1) != 0 then FirstError(env, s, n - 1)
    else AreaError(env, s[n - 1], n - 1)
  }

  function MmapError(env: Answers, s: seq<Area>): int {
    if env.ksmFork != 0 then env.ksmFork
    else if env.khugepagedFork != 0 then env.khugepagedFork
    else FirstError(env, s, |s|)
  }

  lemma {:induction false} FirstErrorStays(env: Answers, s: seq<Area>, m: nat, n: nat)
    requires m <= n <= |s| && FirstError(env, s, m) != 0
    ensures FirstError(env, s, n) == FirstError(env, s, m)
  {
    if m == n {
    } else {
      FirstErrorStays(env, s, m, n - 1);
    }
  }

  /** The copy succeeds iff no area fails, and then no call for any inherited area failed. */
  lemma {:induction false} NoErrorMeans(env: Answers, s: seq<Area>, n: nat)
    requires n <= |s|
    ensures FirstError(env, s, n) == 0 <==> forall i | 0 <= i < n :: AreaError(env, s[i], i) == 0
  {
    if n == 0 {
    } else {
      NoErrorMeans(env, s, n - 1);
    }
  }

  /** The error in terms of the calls made: ksm and khugepaged first, then area by area. An inheritable area passes
      when none of its calls fails; the first that does not gives -12, or page copying's own code. */
  lemma MmapErrorMeans(env: Answers, s: seq<Area>)
    ensures env.ksmFork != 0 ==> MmapError(env, s) == env.ksmFork
    ensures env.ksmFork == 0 && env.khugepagedFork != 0 ==> MmapError(env, s) == env.khugepagedFork
    ensures env.ksmFork == 0 && env.khugepagedFork == 0 ==>
              (MmapError(env, s) == 0
               <==> forall i | 0 <= i < |s| && VM_DONTCOPY !in s[i].flags ::
                      && (VM_ACCOUNT in s[i].flags ==> env.area(i, VM_ENOUGH_MEMORY) == 0)
                      && env.area(i, VMA_ALLOC) == 0 && env.area(i, VMA_DUP_POLICY) == 0
                      && env.area(i, ANON_VMA_FORK) == 0 && env.area(i, COPY_PAGE_RANGE) == 0)
  {
    NoErrorMeans(env, s, |s|);
    forall i | 0 <= i < |s|
      ensures AreaError(env, s[i], i) == 0
          <==> VM_DONTCOPY !in s[i].flags ==>
                 && (VM_ACCOUNT in s[i].flags ==> env.area(i, VM_ENOUGH_MEMORY) == 0)
                 && env.area(i, VMA_ALLOC) == 0 && env.area(i, VMA_DUP_POLICY) == 0
                 && env.area(i, ANON_VMA_FORK) == 0 && env.area(i, COPY_PAGE_RANGE) == 0
    {
    }
  }

  lemma FirstFailingArea(env: Answers, s: seq<Area>, i: nat)
    requires env.ksmFork == 0 && env.khugepagedFork == 0 && i < |s| && VM_DONTCOPY !in s[i].flags
    requires forall j | 0 <= j < i && VM_DONTCOPY !in s[j].flags ::
               && (VM_ACCOUNT in s[j].flags ==> env.area(j, VM_ENOUGH_MEMORY) == 0)
               && env.area(j, VMA_ALLOC) == 0 && env.area(j, VMA_DUP_POLICY) == 0
               && env.area(j, ANON_VMA_FORK) == 0 && env.area(j, COPY_PAGE_RANGE) == 0
    ensures (VM_ACCOUNT in s[i].flags && env.area(i, VM_ENOUGH_MEMORY) != 0)
            || env.area(i, VMA_ALLOC) != 0 || env.area(i, VMA_DUP_POLICY) != 0 || env.area(i, ANON_VMA_FORK) != 0 ==>
              MmapError(env, s) == -12
    ensures (VM_ACCOUNT in s[i].flags ==> env.area(i, VM_ENOUGH_MEMORY) == 0)
            && env.area(i, VMA_ALLOC) == 0 && env.area(i, VMA_DUP_POLICY) == 0 && env.area(i, ANON_VMA_FORK) == 0
            && env.area(i, COPY_PAGE_RANGE) != 0 ==>
              MmapError(env, s) == env.area(i, COPY_PAGE_RANGE)
  {
    NoErrorMeans(env, s, i);
    forall j | 0 <= j < i
      ensures AreaError(env, s[j], j) == 0
    {
    }
    ErrorAt(env, s, i);
  }

  function AreaCharge(a: Area): nat { if VM_ACCOUNT in a.flags then a.pages else 0 }

  function Charge(s: seq<Area>): nat {
    if s == [] then 0 else Charge(s[..|s| - 1]) + AreaCharge(s[|s| - 1])
  }

  function AreaHolds(a: Area): multiset<Hold> {
    match a.backing
    case Anonymous => multiset{}
    case FileBacked(file, inode) =>
      multiset{FileReference(file), InTree(inode)}
      + (if VM_DENYWRITE in a.flags then multiset{WriteDenied(inode)} else multiset{})
      + (if VM_SHARED in a.flags then multiset{SharedWritable(inode)} else multiset{})
  }

  function Holds(s: seq<Area>): multiset<Hold> {
    if s == [] then multiset{} else Holds(s[..|s| - 1]) + AreaHolds(s[|s| - 1])
  }

  /** The charge counts the pages of the accounted areas. */
  lemma ChargeCounts(s: seq<Area>, a: Area)
    ensures Charge([]) == 0 && SkippedPages([]) == 0
    ensures Charge(s + [a]) == Charge(s) + if VM_ACCOUNT in a.flags then a.pages else 0
    ensures SkippedPages(s + [a]) == SkippedPages(s) + if VM_DONTCOPY in a.flags then a.pages else 0
  {
    assert (s + [a])[..|s|] == s;
  }

  ghost predicate Has(a: Area, h: Hold) {
    a.backing.FileBacked?
    && match h
       case FileReference(file) => a.backing.file == file
       case InTree(inode) => a.backing.inode == inode
       case WriteDenied(inode) => a.backing.inode == inode && VM_DENYWRITE in a.flags
       case SharedWritable(inode) => a.backing.inode == inode && VM_SHARED in a.flags
  }

  lemma AreaHoldsOnce(a: Area, h: Hold)
    ensures AreaHolds(a)[h] == if Has(a, h) then 1 else 0
  {
  }

  lemma {:induction false} HoldersCount(s: seq<Area>, h: Hold)
    ensures Holds(s)[h] == |set i | 0 <= i < |s| && Has(s[i], h)|
  {
    hide AreaHolds, Has;
    var holders := set i | 0 <= i < |s| && Has(s[i], h);
    if s == [] {
      assert holders == {};
    } else {
      var m := |s| - 1;
      HoldersCount(s[..m], h);
      AreaHoldsOnce(s[m], h);
      var front := set i | 0 <= i < |s[..m]| && Has(s[..m][i], h);
      assert holders == front + if Has(s[m], h) then {m} else {};
    }
  }

  /** Each counter of a file or inode is raised by the number of areas that hold it: all areas of the file, all of the
      inode, those that deny writing and those that are shared. */
  lemma HoldsCount(s: seq<Area>, h: Hold)
    ensures Holds(s)[h]
         == |set i | 0 <= i < |s| && s[i].backing.FileBacked?
                     && match h
                        case FileReference(file) => s[i].backing.file == file
                        case InTree(inode) => s[i].backing.inode == inode
                        case WriteDenied(inode) => s[i].backing.inode == inode && VM_DENYWRITE in s[i].flags
                        case SharedWritable(inode) => s[i].backing.inode == inode && VM_SHARED in s[i].flags|
  {
    hide Holds;
    HoldersCount(s, h);
    assert (set i | 0 <= i < |s| && Has(s[i], h))
        == set i | 0 <= i < |s| && s[i].backing.FileBacked?
                   && match h
                      case FileReference(file) => s[i].backing.file == file
                      case InTree(inode) => s[i].backing.inode == inode
                      case WriteDenied(inode) => s[i].backing.inode == inode && VM_DENYWRITE in s[i].flags
                      case SharedWritable(inode) => s[i].backing.inode == inode && VM_SHARED in s[i].flags;
  }

  /** A counted `exe_file` pointer. */
  function ExeHold(exe: Option<nat>): multiset<Hold> {
    if exe.Some? then multiset{FileReference(exe.value)} else multiset{}
  }

  function SkippedPages(s: seq<Area>): nat {
    if s == [] then 0
    else SkippedPages(s[..|s| - 1]) + if VM_DONTCOPY in s[|s| - 1].flags then s[|s| - 1].pages else 0
  }

  /** Copying keeps order: the copy of a list is the copy of its front followed by the copy of its rest. */
  lemma {:induction false} CopiesKeepOrder(s: seq<Area>, i: nat)
    requires i <= |s|
    ensures Copies(s[..i]) <= Copies(s)
    ensures Copies(s) == Copies(s[..i]) + Copies(s[i..])
    decreases |s|
  {
    if i == |s| {
      assert s[..i] == s;
    } else {
      var m := |s| - 1;
      CopiesKeepOrder(s[..m], i);
      assert s[..m][..i] == s[..i] && s[..m][i..] == s[i..][..m - i];
    }
  }

  /** Where the inheritable areas lie in the parent's list. */
  function Kept(s: seq<Area>): seq<nat> {
    if s == [] then []
    else
      var m := |s| - 1;
      Kept(s[..m]) + if VM_DONTCOPY in s[m].flags then [] else [m]
  }

  ghost predicate CopyAt(s: seq<Area>, c: Area, p: nat) {
    p < |s| && VM_DONTCOPY !in s[p].flags && c == Area(s[p].pages, s[p].flags - {VM_LOCKED}, s[p].backing)
  }

  lemma {:induction false} KeptInOrder(s: seq<Area>)
    ensures forall j | 0 <= j < |Kept(s)| :: Kept(s)[j] < |s|
    ensures forall i, j | 0 <= i < j < |Kept(s)| :: Kept(s)[i] < Kept(s)[j]
    ensures forall p | 0 <= p < |s| && VM_DONTCOPY !in s[p].flags :: p in Kept(s)
  {
    if s == [] {
    } else {
      var m := |s| - 1;
      KeptInOrder(s[..m]);
      forall p | 0 <= p < |s| && VM_DONTCOPY !in s[p].flags
        ensures p in Kept(s)
      {
        assert p < m ==> s[..m][p] == s[p] && p in Kept(s[..m]);
      }
    }
  }

  lemma {:induction false} CopiesAreKept(s: seq<Area>, j: nat)
    requires j < |Copies(s)| || j < |Kept(s)|
    ensures |Copies(s)| == |Kept(s)| && CopyAt(s, Copies(s)[j], Kept(s)[j])
    decreases |s|
  {
    SameCount(s);
    var m := |s| - 1;
    if j < |Kept(s[..m])| {
      CopiesAreKept(s[..m], j);
      assert s[..m][Kept(s[..m])[j]] == s[Kept(s[..m])[j]];
    } else {
      SameCount(s[..m]);
    }
  }

  lemma {:induction false} SameCount(s: seq<Area>)
    ensures |Copies(s)| == |Kept(s)|
  {
    if s == [] {
    } else {
      SameCount(s[..|s| - 1]);
    }
  }

  /** The copy, area by area: `idx` lists the inheritable areas of the parent, all of them and in order, and the
      child's j-th area is the one at idx[j] with VM_LOCKED taken off its flags and nothing else changed. */
  lemma CopiesExactly(s: seq<Area>) returns (idx: seq<nat>)
    ensures |idx| == |Copies(s)|
    ensures forall j | 0 <= j < |idx| ::
              && idx[j] < |s| && VM_DONTCOPY !in s[idx[j]].flags
              && Copies(s)[j] == Area(s[idx[j]].pages, s[idx[j]].flags - {VM_LOCKED}, s[idx[j]].backing)
    ensures forall i, j | 0 <= i < j < |idx| :: idx[i] < idx[j]
    ensures forall p | 0 <= p < |s| && VM_DONTCOPY !in s[p].flags :: p in idx
  {
    hide Copies, Kept;
    idx := Kept(s);
    SameCount(s);
    KeptInOrder(s);
    forall j | 0 <= j < |idx|
      ensures CopyAt(s, Copies(s)[j], idx[j])
    {
      CopiesAreKept(s, j);
    }
  }

  /** A child's areas are all inheritable and none is locked, and every inheritable area is there. */
  lemma {:induction false} CopiesMeaning(s: seq<Area>)
    ensures forall j | 0 <= j < |Copies(s)| :: VM_LOCKED !in Copies(s)[j].flags && VM_DONTCOPY !in Copies(s)[j].flags
    ensures forall j | 0 <= j < |s| && VM_DONTCOPY !in s[j].flags :: CopyOf(s[j]) in Copies(s)
  {
    if s == [] {
    } else {
      var m := |s| - 1;
      CopiesMeaning(s[..m]);
      assert forall j | 0 <= j < m :: s[..m][j] == s[j];
    }
  }

  /** A child is never charged more than its parent nor holds more of any file, and exactly as much when it
      inherits everything. */
  lemma {:induction false} CopiesCharge(s: seq<Area>)
    ensures Charge(Copies(s)) <= Charge(s) && Holds(Copies(s)) <= Holds(s)
    ensures (forall j | 0 <= j < |s| :: VM_DONTCOPY !in s[j].flags) ==>
              |Copies(s)| == |s| && Charge(Copies(s)) == Charge(s) && Holds(Copies(s)) == Holds(s)
  {
    hide Charge, Holds, Copies, AreaCharge, AreaHolds, CopyOf;
    if s == [] {
      NothingHeld();
    } else {
      var m := |s| - 1;
      CopiesCharge(s[..m]);
      Snoc(s, m);
      assert s[..m + 1] == s;
      CopyCharge(s[m]);
      ChargeSnoc(Copies(s[..m]), CopyOf(s[m]));
      assert forall j | 0 <= j < m :: s[..m][j] == s[j];
    }
  }

  lemma NothingHeld()
    ensures Copies([]) == [] && Charge([]) == SkippedPages([]) == 0 && Holds([]) == multiset{}
  {
  }

  lemma Snoc(s: seq<Area>, i: nat)
    requires i < |s|
    ensures Copies(s[..i + 1])
         == if VM_DONTCOPY in s[i].flags then Copies(s[..i]) else Copies(s[..i]) + [CopyOf(s[i])]
    ensures SkippedPages(s[..i + 1]) == SkippedPages(s[..i]) + (if VM_DONTCOPY in s[i].flags then s[i].pages else 0)
    ensures Charge(s[..i + 1]) == Charge(s[..i]) + AreaCharge(s[i])
    ensures Holds(s[..i + 1]) == Holds(s[..i]) + AreaHolds(s[i])
  {
    assert s[..i + 1][..i] == s[..i];
    assert Copies(s[..i]) + [] == Copies(s[..i]);
  }

  /** The first error so far, after one more area. */
  lemma ErrorAt(env: Answers, s: seq<Area>, i: nat)
    requires i < |s| && FirstError(env, s, i) == 0
    ensures FirstError(env, s, i + 1) == AreaError(env, s[i], i)
    ensures VM_DONTCOPY in s[i].flags ==> AreaError(env, s[i], i) == 0
    ensures AreaError(env, s[i], i) != 0 ==> FirstError(env, s, |s|) == AreaError(env, s[i], i)
  {
    if AreaError(env, s[i], i) != 0 {
      FirstErrorStays(env, s, i + 1, |s|);
    }
  }

  /** Unlocking changes neither the charge nor what is held of the file. */
  lemma CopyCharge(a: Area)
    ensures AreaCharge(CopyOf(a)) == AreaCharge(a) && AreaHolds(CopyOf(a)) == AreaHolds(a)
  {
  }

  lemma ChargeSnoc(s: seq<Area>, a: Area)
    ensures Charge(s + [a]) == Charge(s) + AreaCharge(a)
    ensures Holds(s + [a]) == Holds(s) + AreaHolds(a)
  {
    assert (s + [a])[..|s|] == s;
  }

  // ----- the objects -----

  class Vma {
    const pages: nat
    const backing: Backing
    var flags: set<VmFlag>
    var vmNext: Vma?
    var vmPrev: Vma?

    function Value(): Area
      reads this
    {
      Area(pages, flags, backing)
    }

    /** kmem_cache_alloc followed by `*tmp = *mpnt`: links and all. */
    constructor CopyFrom(v: Vma)
      ensures Value() == v.Value() && vmNext == v.vmNext && vmPrev == v.vmPrev
    {
      pages, backing := v.pages, v.backing;
      flags := v.flags;
      vmNext := v.vmNext;
      vmPrev := v.vmPrev;
    }
  }

  class Mm {
    var mmap: Vma?
    var mapCount: nat
    var totalVm: int
    /** None for NULL. */
    var exeFile: Option<nat>

    /** mm_init, on a copy of the parent's mm: `exe_file` is still the parent's pointer, not counted. */
    constructor (oldmm: Mm)
      ensures mmap == null && mapCount == 0 && totalVm == oldmm.totalVm && exeFile == oldmm.exeFile
    {
      mmap := null;
      mapCount := 0;
      totalVm := oldmm.totalVm;
      exeFile := oldmm.exeFile;
    }
  }

  /** System-wide: the memory commitment, and what areas hold of files. */
  class Accounts {
    var pages: int
    var holds: multiset<Hold>

    /** The `if (file)` step of dup_mmap. */
    method TakeFile(tmp: Vma)
      modifies this`holds
      ensures holds == old(holds) + AreaHolds(tmp.Value())
    {
      if tmp.backing.FileBacked? {
        holds := holds + multiset{FileReference(tmp.backing.file)};
        if VM_DENYWRITE in tmp.flags {
          holds := holds + multiset{WriteDenied(tmp.backing.inode)};
        }
        if VM_SHARED in tmp.flags {
          holds := holds + multiset{SharedWritable(tmp.backing.inode)};
        }
        holds := holds + multiset{InTree(tmp.backing.inode)};
      }
    }

    /** What closing an area gives back. */
    method DropFile(vma: Vma)
      modifies this`holds
      ensures holds == old(holds) - AreaHolds(vma.Value())
    {
      holds := holds - AreaHolds(vma.Value());
    }
  }

  ghost predicate NextAt(s: seq<Vma>, j: nat)
    requires j < |s|
    reads s[j]
  {
    s[j].vmNext == if j + 1 < |s| then s[j + 1] else null
  }

  ghost predicate PrevAt(s: seq<Vma>, j: nat)
    requires j < |s|
    reads s[j]
  {
    s[j].vmPrev == if j == 0 then null else s[j - 1]
  }

  /** `s` is the list that starts at `head`, forwards. */
  ghost predicate IsList(head: Vma?, s: seq<Vma>)
    reads s
  {
    && head == (if s == [] then null else s[0])
    && forall j {:trigger NextAt(s, j)} | 0 <= j < |s| :: NextAt(s, j)
  }

  /** ... and backwards, with no node twice. */
  ghost predicate IsDoubleList(head: Vma?, s: seq<Vma>)
    reads s
  {
    && IsList(head, s)
    && (forall j {:trigger PrevAt(s, j)} | 0 <= j < |s| :: PrevAt(s, j))
    && (forall i, j | 0 <= i < j < |s| :: s[i] != s[j])
  }

  ghost function Values(s: seq<Vma>): (r: seq<Area>)
    reads s
    ensures |r| == |s| && forall j | 0 <= j < |s| :: r[j] == s[j].Value()
  {
    seq(|s|, j requires 0 <= j < |s| reads s => s[j].Value())
  }

  /** In a double list each node's neighbours point back at it. */
  lemma LinksAreInverse(head: Vma?, s: seq<Vma>, j: nat)
    requires IsDoubleList(head, s) && j < |s|
    ensures s[j].vmNext != null ==> s[j].vmNext in s && s[j].vmNext.vmPrev == s[j]
    ensures s[j].vmPrev != null ==> s[j].vmPrev in s && s[j].vmPrev.vmNext == s[j]
    ensures head == s[0]
    ensures s[j].vmNext == if j + 1 < |s| then s[j + 1] else null
    ensures s[j].vmPrev == if j == 0 then null else s[j - 1]
    ensures forall i | 0 <= i < |s| && i != j :: s[i] != s[j]
  {
    assert NextAt(s, j) && PrevAt(s, j);
    if j + 1 < |s| {
      assert PrevAt(s, j + 1);
    }
    if 0 < j {
      assert NextAt(s, j - 1);
    }
  }

  // ----- dup_mmap -----

  /** "Link in the new vma": `*pprev = tmp`, where pprev is &mm->mmap at first and &prev->vm_next later. */
  method Link(mm: Mm, prev: Vma?, tmp: Vma, ghost child: seq<Vma>)
    requires IsDoubleList(mm.mmap, child) && mm.mapCount == |child|
    requires prev == (if child == [] then null else child[|child| - 1])
    requires tmp !in child && tmp.vmNext == tmp.vmPrev == null
    modifies mm`mmap, mm`mapCount, prev, tmp
    ensures IsDoubleList(mm.mmap, child + [tmp]) && mm.mapCount == |child + [tmp]|
    ensures Values(child + [tmp]) == old(Values(child)) + [old(tmp.Value())]
    ensures mm.totalVm == old(mm.totalVm)
  {
    if prev == null {
      mm.mmap := tmp;
    } else {
      prev.vmNext := tmp;
    }
    tmp.vmPrev := prev;
    mm.mapCount := mm.mapCount + 1;
    ghost var s := child + [tmp];
    forall j | 0 <= j < |s|
      ensures NextAt(s, j) && PrevAt(s, j)
    {
      if j < |child| {
        assert old(NextAt(child, j)) && old(PrevAt(child, j));
      }
    }
  }

  /** One turn of the loop for an area that is inherited. */
  method CopyArea(mm: Mm, accounts: Accounts, mpnt: Vma, prev: Vma?, i: nat, env: Answers, ghost child: seq<Vma>)
    returns (retval: int, linked: Vma?)
    requires IsDoubleList(mm.mmap, child) && mm.mapCount == |child| && mpnt !in child
    requires prev == (if child == [] then null else child[|child| - 1])
    requires VM_DONTCOPY !in mpnt.flags
    modifies mm`mmap, mm`mapCount, mm`totalVm, accounts, prev
    ensures retval == AreaError(env, old(mpnt.Value()), i)
    ensures linked == null ==>
              && retval != 0 && unchanged(accounts)
              && unchanged(mm) && (prev != null ==> unchanged(prev))
    ensures linked != null ==>
              && fresh(linked)
              && IsDoubleList(mm.mmap, child + [linked]) && mm.mapCount == |child + [linked]|
              && Values(child + [linked]) == old(Values(child)) + [CopyOf(old(mpnt.Value()))]
              && accounts.pages == old(accounts.pages) + AreaCharge(old(mpnt.Value()))
              && accounts.holds == old(accounts.holds) + AreaHolds(old(mpnt.Value()))
    ensures mm.totalVm == old(mm.totalVm)
  {
    hide AreaHolds, Values, NextAt, PrevAt;
    ghost var area := mpnt.Value();
    CopyCharge(area);
    var charge := 0;
    label fail_nomem: {
      if VM_ACCOUNT in mpnt.flags {
        if env.area(i, VM_ENOUGH_MEMORY) != 0 { break fail_nomem; }
        accounts.pages := accounts.pages + mpnt.pages;
        charge := mpnt.pages;
      }
      if env.area(i, VMA_ALLOC) != 0 { break fail_nomem; }
      var tmp := new Vma.CopyFrom(mpnt);
      if env.area(i, VMA_DUP_POLICY) != 0 { break fail_nomem; }
      if env.area(i, ANON_VMA_FORK) != 0 { break fail_nomem; }
      tmp.flags := tmp.flags - {VM_LOCKED};
      tmp.vmNext, tmp.vmPrev := null, null;
      accounts.TakeFile(tmp);
      Link(mm, prev, tmp, child);
      return env.area(i, COPY_PAGE_RANGE), tmp;
    }
    accounts.pages := accounts.pages - charge;
    return ENOMEM, null;
  }

  /** The child's state, and the accounts opened at `pages` and `holds`, when dup_mmap has dealt with `seen`. */
  ghost predicate Copied(mm: Mm, accounts: Accounts, total: int, pages: int, holds: multiset<Hold>,
                         child: seq<Vma>, seen: seq<Area>)
    reads mm, accounts, child
  {
    && IsDoubleList(mm.mmap, child) && mm.mapCount == |child|
    && Values(child) == Copies(seen)
    && accounts.pages == pages + Charge(Copies(seen))
    && accounts.holds == holds + Holds(Copies(seen))
    && mm.totalVm == total - SkippedPages(seen)
  }

  lemma ExeHoldIs(exe: Option<nat>)
    ensures ExeHold(exe) == if exe.Some? then multiset{FileReference(exe.value)} else multiset{}
  {
  }

  /** get_mm_exe_file, stored in the new mm; the parent's own reference keeps the file alive. */
  method GetMmExeFile(mm: Mm, oldmm: Mm, accounts: Accounts)
    requires mm != oldmm
    modifies mm`exeFile, accounts`holds
    ensures mm.exeFile == oldmm.exeFile
    ensures accounts.holds == old(accounts.holds) + ExeHold(oldmm.exeFile)
  {
    mm.exeFile := oldmm.exeFile;
    if mm.exeFile.Some? {
      accounts.holds := accounts.holds + multiset{FileReference(mm.exeFile.value)};
    }
  }

  /** set_mm_exe_file: the new file is taken before the old one is dropped. */
  method SetMmExeFile(mm: Mm, newFile: Option<nat>, accounts: Accounts)
    modifies mm`exeFile, accounts`holds
    ensures mm.exeFile == newFile
    ensures accounts.holds
         == (if newFile == None then old(accounts.holds) else old(accounts.holds) + ExeHold(newFile))
            - ExeHold(old(mm.exeFile))
  {
    var oldFile := mm.exeFile;
    if newFile.Some? {
      accounts.holds := accounts.holds + multiset{FileReference(newFile.value)};
    }
    mm.exeFile := newFile;
    if oldFile.Some? {
      accounts.holds := accounts.holds - multiset{FileReference(oldFile.value)};
    }
  }

  /** dup_mmap. `seen` is how many of the parent's areas were dealt with: all of them exactly on success. */
  method DupMmap(mm: Mm, oldmm: Mm, accounts: Accounts, env: Answers, ghost parent: seq<Vma>)
    returns (retval: int, ghost child: seq<Vma>, ghost seen: nat, ghost idx: seq<nat>)
    requires mm != oldmm && IsList(oldmm.mmap, parent)
    requires mm.mmap == null && mm.mapCount == 0
    modifies mm, accounts
    ensures IsDoubleList(mm.mmap, child) && mm.mapCount == |child| && fresh(child)
    ensures seen <= |parent| && (retval == 0 ==> seen == |parent|)
    ensures retval == MmapError(env, old(Values(parent)))
    ensures Values(child) == Copies(old(Values(parent))[..seen])
    ensures |idx| == |child| && forall i, j | 0 <= i < j < |idx| :: idx[i] < idx[j]
    ensures forall j | 0 <= j < |child| ::
              && idx[j] < seen && VM_DONTCOPY !in parent[idx[j]].flags
              && child[j].pages == parent[idx[j]].pages && child[j].backing == parent[idx[j]].backing
              && child[j].flags == parent[idx[j]].flags - {VM_LOCKED}
    ensures forall p | 0 <= p < seen && VM_DONTCOPY !in parent[p].flags :: p in idx
    ensures accounts.pages == old(accounts.pages) + Charge(Values(child))
    ensures mm.exeFile == oldmm.exeFile
    ensures accounts.holds
         == old(accounts.holds)
            + (if oldmm.exeFile.Some? then multiset{FileReference(oldmm.exeFile.value)} else multiset{})
            + Holds(Values(child))
    ensures mm.totalVm == oldmm.totalVm - SkippedPages(old(Values(parent))[..seen])
  {
    hide Copies, Charge, Holds, SkippedPages, FirstError, Values, NextAt, PrevAt;
    NothingHeld();
    child, seen, idx := [], 0, [];
    GetMmExeFile(mm, oldmm, accounts);
    mm.totalVm := oldmm.totalVm;
    retval := env.ksmFork;
    if retval != 0 {
      return;
    }
    retval := env.khugepagedFork;
    if retval != 0 {
      return;
    }
    ghost var areas := Values(parent);
    retval, child, seen := CopyAreas(mm, oldmm, accounts, env, parent);
    idx := CopiesExactly(areas[..seen]);
    assert Values(parent) == areas;
  }

  lemma NothingCopied(mm: Mm, accounts: Accounts)
    requires mm.mmap == null && mm.mapCount == 0
    ensures Copied(mm, accounts, mm.totalVm, accounts.pages, accounts.holds, [], [])
  {
  }

  /** The loop of dup_mmap. */
  method CopyAreas(mm: Mm, oldmm: Mm, accounts: Accounts, env: Answers, ghost parent: seq<Vma>)
    returns (retval: int, ghost child: seq<Vma>, ghost seen: nat)
    requires mm != oldmm && IsList(oldmm.mmap, parent)
    requires mm.mmap == null && mm.mapCount == 0 && mm.totalVm == oldmm.totalVm
    modifies mm`mmap, mm`mapCount, mm`totalVm, accounts
    ensures fresh(child)
    ensures seen <= |parent| && (retval == 0 ==> seen == |parent|)
    ensures retval == FirstError(env, old(Values(parent)), |parent|)
    ensures Copied(mm, accounts, oldmm.totalVm, old(accounts.pages), old(accounts.holds),
                   child, old(Values(parent))[..seen])
  {
    hide Values, AreaError, Copied;
    ghost var areas, pages, holds := Values(parent), accounts.pages, accounts.holds;
    NothingHeld();
    NothingCopied(mm, accounts);
    retval, child, seen := 0, [], 0;
    var prev: Vma? := null;
    var mpnt := oldmm.mmap;
    var i := 0;
    while mpnt != null
      invariant seen == i <= |parent| && retval == 0
      invariant mpnt == if i < |parent| then parent[i] else null
      invariant IsList(oldmm.mmap, parent) && Values(parent) == areas
      invariant Last(child, prev) && fresh(child)
      invariant FirstError(env, areas, i) == 0
      invariant Copied(mm, accounts, oldmm.totalVm, pages, holds, child, areas[..i])
      decreases |parent| - i
    {
      assert NextAt(parent, i);
      ErrorAt(env, areas, i);
      ghost var before := child;
      retval, prev, child, seen :=
        CopyNext(mm, accounts, mpnt, prev, i, env, child, areas, oldmm.totalVm, pages, holds);
      assert child == before + child[|before|..];
      if retval != 0 {
        return;
      }
      mpnt := mpnt.vmNext;
      i := i + 1;
    }
    assert areas[..i] == areas;
  }

  ghost predicate Last(child: seq<Vma>, prev: Vma?) {
    prev == if child == [] then null else child[|child| - 1]
  }

  /** One turn: skip the area, or copy it. */
  method CopyNext(mm: Mm, accounts: Accounts, mpnt: Vma, prev: Vma?, i: nat, env: Answers, ghost child: seq<Vma>,
                  ghost areas: seq<Area>, ghost total: int, ghost pages: int, ghost holds: multiset<Hold>)
    returns (retval: int, last: Vma?, ghost child': seq<Vma>, ghost seen: nat)
    requires i < |areas| && areas[i] == mpnt.Value() && mpnt !in child
    requires Copied(mm, accounts, total, pages, holds, child, areas[..i])
    requires Last(child, prev)
    modifies mm`mmap, mm`mapCount, mm`totalVm, accounts, prev
    ensures retval == AreaError(env, areas[i], i)
    ensures i <= seen <= i + 1 && (retval == 0 ==> seen == i + 1)
    ensures Last(child', last) && child <= child' && fresh(child'[|child|..])
    ensures Copied(mm, accounts, total, pages, holds, child', areas[..seen])
  {
    hide Copies, Charge, Holds, SkippedPages, Values, NextAt, PrevAt, CopyOf, AreaCharge, AreaHolds;
    Snoc(areas, i);
    if VM_DONTCOPY in mpnt.flags {
      mm.totalVm := mm.totalVm - mpnt.pages;
      return 0, prev, child, i + 1;
    }
    CopyCharge(areas[i]);
    ChargeSnoc(Copies(areas[..i]), CopyOf(areas[i]));
    var linked;
    retval, linked := CopyArea(mm, accounts, mpnt, prev, i, env, child);
    if linked == null {
      return retval, prev, child, i;
    }
    return retval, linked, child + [linked], i + 1;
  }

  /** exit_mmap, as mmput calls it for the last user: walk the list, close each area and give the charge back. */
  method ExitMmap(mm: Mm, accounts: Accounts, ghost s: seq<Vma>)
    requires IsList(mm.mmap, s)
    modifies accounts
    ensures accounts.pages == old(accounts.pages) - Charge(Values(s))
    ensures accounts.holds == old(accounts.holds) - Holds(Values(s))
  {
    hide Values, AreaHolds, Charge, Holds;
    NothingHeld();
    var accounted := 0;
    var vma := mm.mmap;
    ghost var i, areas := 0, Values(s);
    while vma != null
      invariant i <= |s| && vma == if i < |s| then s[i] else null
      invariant accounted == Charge(areas[..i]) && accounts.pages == old(accounts.pages)
      invariant accounts.holds == old(accounts.holds) - Holds(areas[..i])
      decreases |s| - i
    {
      assert NextAt(s, i);
      Snoc(areas, i);
      if VM_ACCOUNT in vma.flags {
        accounted := accounted + vma.pages;
      }
      accounts.DropFile(vma);
      vma := vma.vmNext;
      i := i + 1;
    }
    assert areas[..i] == areas;
    accounts.pages := accounts.pages - accounted;
    assert Values(s) == areas;
  }

  /** The holds are those before, `holds`, and what one mm has of its exe file and its areas `s`. */
  ghost predicate Settled(now: multiset<Hold>, holds: multiset<Hold>, exe: Option<nat>, s: seq<Area>) {
    now == holds + ExeHold(exe) + Holds(s)
  }

  lemma AllGivenBack(now: multiset<Hold>, holds: multiset<Hold>, exe: Option<nat>, s: seq<Area>)
    requires Settled(now, holds, exe, s)
    ensures now - Holds(s) - ExeHold(exe) == holds
  {
  }

  /** mmput for the last user, as far as memory areas and files go: dup_mmap's takings are given back. */
  method MmPut(mm: Mm, accounts: Accounts, ghost s: seq<Vma>, ghost pages: int, ghost holds: multiset<Hold>)
    requires IsList(mm.mmap, s)
    requires accounts.pages == pages + Charge(Values(s))
    requires Settled(accounts.holds, holds, mm.exeFile, Values(s))
    modifies mm`exeFile, accounts
    ensures accounts.pages == pages && accounts.holds == holds
  {
    hide Charge, Holds, ExeHold, Values, NextAt, Settled;
    AllGivenBack(accounts.holds, holds, mm.exeFile, Values(s));
    ExitMmap(mm, accounts, s);
    SetMmExeFile(mm, None, accounts);
  }

  /** dup_mm: a faithful copy that is charged for and holds its files, or no copy, no charge and no hold. */
  method DupMm(oldmm: Mm, accounts: Accounts, env: Answers, ghost parent: seq<Vma>)
    returns (mm: Mm?, ghost child: seq<Vma>)
    requires IsList(oldmm.mmap, parent)
    modifies accounts
    ensures mm != null
        <==> env.allocateMm == env.mmInit == env.binfmt == 0 && MmapError(env, old(Values(parent))) == 0
    ensures mm != null ==>
              && fresh(mm) && fresh(child)
              && IsDoubleList(mm.mmap, child) && mm.mapCount == |child|
              && Values(child) == Copies(old(Values(parent)))
              && mm.totalVm == oldmm.totalVm - SkippedPages(old(Values(parent)))
              && mm.exeFile == oldmm.exeFile
    ensures mm == null ==> accounts.pages == old(accounts.pages) && accounts.holds == old(accounts.holds)
    ensures mm != null ==>
              && accounts.pages == old(accounts.pages) + Charge(Values(child))
              && accounts.holds == old(accounts.holds) + ExeHold(mm.exeFile) + Holds(Values(child))
  {
    hide Copies, Charge, Holds, ExeHold, SkippedPages, MmapError, Values, NextAt, PrevAt;
    child := [];
    if env.allocateMm != 0 || env.mmInit != 0 {
      return null, [];
    }
    mm := new Mm(oldmm);
    ghost var areas, pages, holds, seen, idx := Values(parent), accounts.pages, accounts.holds, 0, [];
    var err;
    ExeHoldIs(oldmm.exeFile);
    err, child, seen, idx := DupMmap(mm, oldmm, accounts, env, parent);
    if err != 0 || env.binfmt != 0 {
      MmPut(mm, accounts, child, pages, holds);
      return null, child;
    }
    assert areas[..seen] == areas;
  }
}
