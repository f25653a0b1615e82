/**
 What mempool.c does to the chunks of one array size exponent of a pool, as a
 memory of links and a list of puddles: expanding, getting, returning, and
 freeing the puddles nothing is used of.
 */
module Mempool {
  import opened MergeSort
  import opened Puddles
  import opened Sweep
  import opened Reclaim

  // ---- what a pool keeps true ----------------------------------------------

  /** Everything a pool keeps true of one exponent's chunks. */
  ghost predicate Sane(m: Memory, head: nat, free: seq<nat>, nrofFree: int, nrofAllocated: int,
                       ps: seq<Puddle>, size: nat)
  {
    && Apart(ps, size) && AllAllocated(m, ps, size)
    && (forall c: nat :: c in m ==> c > END_MARKER && InPuddles(ps, size, c))
    && Linked(m, head, free, END_MARKER) && NoDup(free)
    && (forall c: nat :: c in m ==> (m[c] != NULL <==> c in free))
    && nrofFree == |free| && nrofAllocated == |m|
  }

  /** Chunks in use. */
  ghost function LiveIn(m: Memory): set<nat> { set c: nat | c in m && m[c] == NULL }

  ghost predicate Fresh(m: Memory, base: nat, n: nat) {
    base > END_MARKER && forall c: nat :: InRange(base, n, c) ==> c !in m
  }

  // ---- expanding -----------------------------------------------------------

  /** xcalloc() of a puddle's chunks. */
  function Zeroed(base: nat, size: nat): (m: Memory)
    ensures |m| == size && forall c: nat :: c in m <==> InRange(base, size, c)
    ensures forall c: nat :: c in m ==> m[c] == NULL
  {
    if size == 0 then map[]
    else
      var m := Zeroed(base, size - 1);
      assert m[base + size - 1 := NULL].Keys == m.Keys + {base + size - 1};
      m[base + size - 1 := NULL]
  }

  /** The first n chunks of a new puddle are linked in order. */
  ghost predicate Chain(m: Memory, was: Memory, base: nat, n: nat, size: nat) {
    && n <= size
    && (forall c: nat :: c in m <==> c in was || InRange(base, size, c))
    && (forall c: nat :: c in was ==> m[c] == was[c])
    && forall c: nat :: InRange(base, n, c) ==> m[c] == if c + 1 < base + size then c + 1 else END_MARKER
  }

  method LinkPuddle(was: Memory, base: nat, size: nat) returns (m: Memory)
    requires size > 0 && Fresh(was, base, size)
    ensures Chain(m, was, base, size, size) && |m| == |was| + size
  {
    ChainBegins(was, base, size);
    hide Fresh, Chain, Zeroed;
    m := was + Zeroed(base, size);
    var i := 0;
    while i < size
      invariant 0 <= i <= size && Chain(m, was, base, i, size) && |m| == |was| + size
    {
      ChainStep(m, was, base, i, size);
      m := m[base + i := if i < size - 1 then base + i + 1 else END_MARKER];
      i := i + 1;
    }
  }

  lemma ChainBegins(was: Memory, base: nat, size: nat)
    requires Fresh(was, base, size)
    ensures Chain(was + Zeroed(base, size), was, base, 0, size) && |was + Zeroed(base, size)| == |was| + size
  {
    hide Zeroed;
    var added := Zeroed(base, size);
    JoinSize(was, added);
  }

  lemma JoinSize(a: Memory, b: Memory)
    requires forall c: nat :: c in b ==> c !in a
    ensures |a + b| == |a| + |b|
  {
    assert (a + b).Keys == a.Keys + b.Keys && a.Keys !! b.Keys;
  }

  lemma ChainStep(m: Memory, was: Memory, base: nat, i: nat, size: nat)
    requires Fresh(was, base, size) && Chain(m, was, base, i, size) && i < size
    ensures var m' := m[base + i := if i < size - 1 then base + i + 1 else END_MARKER];
      Chain(m', was, base, i + 1, size) && |m'| == |m|
  {
    assert InRange(base, size, base + i);
    assert m[base + i := if i < size - 1 then base + i + 1 else END_MARKER].Keys == m.Keys;
  }

  ghost function Addresses(base: nat, n: nat): (s: seq<nat>)
    ensures |s| == n
  {
    seq(n, (i: nat) => base + i)
  }

  /** A shelf with nothing free, expanded: everything in use stays in use, and the
   new puddle is the free list. */
  lemma Expanded(was: Memory, m: Memory, head: nat, ps: seq<Puddle>, base: nat, size: nat, p: Puddle, free: seq<nat>)
    requires size > 0 && Fresh(was, base, size) && Chain(m, was, base, size, size) && |m| == |was| + size
    requires Sane(was, head, free, 0, |was|, ps, size) && p.base == base
    ensures Sane(m, base, Addresses(base, size), size, |m|, [p] + ps, size)
    ensures LiveIn(m) == LiveIn(was)
  {
    hide Linked, NoDup, Apart, AllAllocated, Addresses, InPuddles, LiveIn, Fresh, Chain;
    ExpandedLinked(was, m, base, size);
    ExpandedPuddles(was, m, ps, base, size, p);
    ExpandedLive(was, m, head, free, ps, base, size);
    assert |Addresses(base, size)| == size;
  }

  lemma ExpandedLive(was: Memory, m: Memory, head: nat, free: seq<nat>, ps: seq<Puddle>, base: nat, size: nat)
    requires size > 0 && Fresh(was, base, size) && Chain(m, was, base, size, size)
    requires Sane(was, head, free, 0, |was|, ps, size)
    ensures LiveIn(m) == LiveIn(was)
    ensures forall c: nat :: c in m ==> (m[c] != NULL <==> InRange(base, size, c))
  {
    assert forall c: nat :: c in was ==> was[c] == NULL && m[c] == was[c];
    hide Linked, NoDup, Apart, AllAllocated, InPuddles;
  }

  lemma ExpandedLinked(was: Memory, m: Memory, base: nat, size: nat)
    requires size > 0 && Fresh(was, base, size) && Chain(m, was, base, size, size)
    ensures Linked(m, base, Addresses(base, size), END_MARKER) && NoDup(Addresses(base, size))
    ensures forall c: nat :: c in Addresses(base, size) <==> InRange(base, size, c)
    ensures forall c: nat :: InRange(base, size, c) ==> c in m && m[c] != NULL
  {
    var s := Addresses(base, size);
    forall i | 0 <= i < size
      ensures s[i] in m
    {
      assert InRange(base, size, s[i]);
    }
    forall c: nat | InRange(base, size, c)
      ensures c in s
    {
      assert s[c - base] == c;
    }
  }

  lemma ExpandedPuddles(was: Memory, m: Memory, ps: seq<Puddle>, base: nat, size: nat, p: Puddle)
    requires size > 0 && Fresh(was, base, size) && Chain(m, was, base, size, size) && p.base == base
    requires Apart(ps, size) && AllAllocated(was, ps, size)
    requires forall c: nat :: c in was ==> c > END_MARKER && InPuddles(ps, size, c)
    ensures Apart([p] + ps, size) && AllAllocated(m, [p] + ps, size)
    ensures forall c: nat :: c in m ==> c > END_MARKER && InPuddles([p] + ps, size, c)
  {
    var all := [p] + ps;
    assert all[1..] == ps;
    forall k | 0 <= k < |ps|
      ensures ps[k].base + size <= base || base + size <= ps[k].base
    {
      var overlap := if ps[k].base < base then base else ps[k].base;
      assert Allocated(was, ps[k].base, size);
      assert InRange(ps[k].base, size, overlap) ==> overlap in was;
      assert InRange(base, size, overlap) ==> overlap !in was;
    }
    forall k | 0 <= k < |all|
      ensures Allocated(m, all[k].base, size)
    {
      assert k > 0 ==> all[k] == ps[k - 1];
    }
    forall c: nat | c in m
      ensures c > END_MARKER && InPuddles(all, size, c)
    {
      InPuddlesCons(all, size, c);
    }
  }

  // ---- reclaiming ----------------------------------------------------------

  lemma {:induction false} UsedCounts(m: Memory, base: nat, n: nat, c: nat)
    requires Allocated(m, base, n) && InRange(base, n, c) && m[c] == NULL
    ensures |FreeOf(m, base, n)| < n
  {
    if c != base + n - 1 {
      UsedCounts(m, base, n - 1, c);
    }
  }

  /** What the sweep leaves of each puddle it kept, in any order. */
  lemma SweptKept(was: Memory, m: Memory, ps: seq<Puddle>, sorted: seq<Puddle>, size: nat, k: nat)
    requires Swept(was, m, ps, |ps|, size, size) && multiset(sorted) == multiset(Kept(was, ps, size)) && k < |sorted|
    ensures Allocated(was, sorted[k].base, size) && Allocated(m, sorted[k].base, size)
    ensures Local(m, sorted[k], FreeOf(was, sorted[k].base, size)) && |FreeOf(was, sorted[k].base, size)| < size
  {
    hide FreeOf, Local, Kept, Allocated;
    var j := PermutedMember(sorted, Kept(was, ps, size), k);
    var i := KeptFrom(was, ps, size, j);
    assert Done(was, m, ps[i], size, size);
  }

  lemma SortedReady(was: Memory, m: Memory, ps: seq<Puddle>, sorted: seq<Puddle>, size: nat)
    requires size > 0 && Swept(was, m, ps, |ps|, size, size) && multiset(sorted) == multiset(Kept(was, ps, size))
    requires Apart(ps, size) && forall c: nat :: c in was ==> c > END_MARKER
    ensures Ready(was, m, sorted, size)
  {
    hide FreeOf, Local, Kept, Allocated, Done;
    KeptApart(was, ps, size);
    PermutedApart(Kept(was, ps, size), sorted, size);
    forall k | 0 <= k < |sorted|
      ensures Allocated(was, sorted[k].base, size) && Local(m, sorted[k], FreeOf(was, sorted[k].base, size))
    {
      SweptKept(was, m, ps, sorted, size, k);
    }
  }

  /** After the sweep, the chunks there are are those of the kept puddles. */
  lemma SweptChunks(was: Memory, m: Memory, ps: seq<Puddle>, sorted: seq<Puddle>, size: nat, c: nat)
    requires Swept(was, m, ps, |ps|, size, size) && multiset(sorted) == multiset(Kept(was, ps, size))
    requires forall c: nat :: c in was ==> InPuddles(ps, size, c)
    ensures c in m <==> InPuddles(sorted, size, c)
    ensures c in was && was[c] == NULL ==> c in m
  {
    hide FreeOf, Local, Kept, Unused;
    if c in was {
      var i :| 0 <= i < |ps| && InRange(ps[i].base, size, c);
      assert Done(was, m, ps[i], size, size) && Allocated(was, ps[i].base, size);
      if was[c] == NULL {
        UsedCounts(was, ps[i].base, size, c);
        UnusedMeans(was, ps[i], size);
      }
      if c in m {
        assert !Unused(was, ps[i], size);
        KeptChunks(was, ps, size, c);
        PermutedChunks(Kept(was, ps, size), sorted, size, c);
      }
    }
    if InPuddles(sorted, size, c) {
      var k :| 0 <= k < |sorted| && InRange(sorted[k].base, size, c);
      SweptKept(was, m, ps, sorted, size, k);
    }
  }

  lemma UnusedMeans(m: Memory, p: Puddle, size: nat)
    requires Allocated(m, p.base, size)
    ensures Unused(m, p, size) <==> |FreeOf(m, p.base, size)| == size
  {}

  /** A linked list's chunks all link somewhere. */
  lemma LinkedFree(m: Memory, head: nat, s: seq<nat>, c: nat)
    requires Linked(m, head, s, END_MARKER) && (forall c: nat :: c in m ==> c > END_MARKER) && c in s
    ensures c in m && m[c] != NULL
  {
    var i :| 0 <= i < |s| && s[i] == c;
    if i < |s| - 1 {
      assert m[s[i]] == s[i + 1] && s[i + 1] in m;
    }
  }

  /** The free list that relinking makes is sane again, and everything in use is
   still there and still in use. */
  lemma Reclaimed(was: Memory, m: Memory, m': Memory, head: nat, ps: seq<Puddle>, sorted: seq<Puddle>, size: nat)
    requires size > 0 && Swept(was, m, ps, |ps|, size, size) && multiset(sorted) == multiset(Kept(was, ps, size))
    requires Apart(ps, size) && forall c: nat :: c in was ==> c > END_MARKER && InPuddles(ps, size, c)
    requires AllAllocated(was, sorted, size) && Ready(was, m, sorted, size)
    requires Linked(m', head, FreeIn(was, sorted, size), END_MARKER) && Elsewhere(m, m', FreeIn(was, sorted, size))
    ensures Sane(m', head, FreeIn(was, sorted, size), |FreeIn(was, sorted, size)|, |m'|, sorted, size)
    ensures LiveIn(m') == LiveIn(was)
  {
    hide FreeOf, FreeIn, Kept, Local, InPuddles, Apart, Linked;
    var free := FreeIn(was, sorted, size);
    FreeInDistinct(was, sorted, size);
    forall c: nat
      ensures c in m' ==> c > END_MARKER && InPuddles(sorted, size, c)
      ensures InPuddles(sorted, size, c) ==> c in m'
      ensures c in m' ==> (m'[c] != NULL <==> c in free)
      ensures c in m' && m'[c] == NULL <==> c in was && was[c] == NULL
    {
      SweptChunks(was, m, ps, sorted, size, c);
      FreeInMembers(was, sorted, size, c);
      if c in free {
        LinkedFree(m', head, free, c);
      }
    }
    forall k | 0 <= k < |sorted|
      ensures Allocated(m', sorted[k].base, size)
    {
      SweptKept(was, m, ps, sorted, size, k);
    }
  }

  /** The free list loses exactly the freed puddles' chunks. */
  lemma ReclaimedCount(was: Memory, free: seq<nat>, head: nat, nrofFree: int, nrofAllocated: int, ps: seq<Puddle>,
                       sorted: seq<Puddle>, size: nat)
    requires size > 0 && Sane(was, head, free, nrofFree, nrofAllocated, ps, size)
    requires multiset(sorted) == multiset(Kept(was, ps, size)) && AllAllocated(was, sorted, size)
    ensures |Kept(was, ps, size)| <= |ps|
    ensures |FreeIn(was, sorted, size)| + Times(size, |ps| - |Kept(was, ps, size)|) == nrofFree
  {
    hide FreeOf, FreeIn, Kept, InPuddles, Linked, Allocated;
    var kept := Kept(was, ps, size);
    KeptApart(was, ps, size);
    KeptCounts(was, ps, size);
    PermutedApart(kept, sorted, size);
    FreeInDistinct(was, kept, size);
    FreeInDistinct(was, sorted, size);
    FreeInDistinct(was, ps, size);
    forall c: nat
      ensures c in FreeIn(was, ps, size) <==> c in free
      ensures c in FreeIn(was, kept, size) <==> c in FreeIn(was, sorted, size)
    {
      SameFree(was, free, head, nrofFree, nrofAllocated, ps, kept, sorted, size, c);
    }
    SameLength(FreeIn(was, ps, size), free);
    SameLength(FreeIn(was, kept, size), FreeIn(was, sorted, size));
  }

  lemma SameFree(was: Memory, free: seq<nat>, head: nat, nrofFree: int, nrofAllocated: int, ps: seq<Puddle>,
                 kept: seq<Puddle>, sorted: seq<Puddle>, size: nat, c: nat)
    requires Sane(was, head, free, nrofFree, nrofAllocated, ps, size)
    requires multiset(sorted) == multiset(kept) && AllAllocated(was, sorted, size) && AllAllocated(was, kept, size)
    ensures c in FreeIn(was, ps, size) <==> c in free
    ensures c in FreeIn(was, kept, size) <==> c in FreeIn(was, sorted, size)
  {
    hide FreeIn, Allocated, NoDup, Apart, InPuddles;
    FreeInMembers(was, ps, size, c);
    FreeInMembers(was, kept, size, c);
    FreeInMembers(was, sorted, size, c);
    if InPuddles(kept, size, c) {
      PermutedChunks(kept, sorted, size, c);
    }
    if InPuddles(sorted, size, c) {
      PermutedChunks(sorted, kept, size, c);
    }
    if c in free {
      var i :| 0 <= i < |free| && free[i] == c;
      assert free[i] in was;
    }
  }

  lemma KeptNone(m: Memory, ps: seq<Puddle>)
    requires AllAllocated(m, ps, 0)
    ensures Kept(m, ps, 0) == []
  {
    if Kept(m, ps, 0) != [] {
      var j := KeptFrom(m, ps, 0, 0);
      UnusedMeans(m, ps[j], 0);
    }
  }

  /** A pool with one chunk, in use, of which a scan that looks at none finds
   nothing in use. */
  lemma TooSmall()
    ensures var m, ps := map[2 := NULL], [Puddle(2, NULL, NULL, 0)];
      && Sane(m, END_MARKER, [], 0, 1, ps, 1) && LiveIn(m) == {2}
      && AllAllocated(m, ps, 0) && Kept(m, ps, 0) == []
  {
    var m, ps := map[2 := NULL], [Puddle(2, NULL, NULL, 0)];
    assert InRange(ps[0].base, 1, 2);
    KeptNone(m, ps);
  }

  lemma SweptNone(was: Memory, m: Memory, ps: seq<Puddle>, size: nat)
    requires Swept(was, m, ps, |ps|, 0, size) && forall c: nat :: c in was ==> InPuddles(ps, size, c)
    ensures m == map[]
  {
    forall c: nat | c in was
      ensures c !in m
    {
      var i :| 0 <= i < |ps| && InRange(ps[i].base, size, c);
      assert Done(was, m, ps[i], 0, size) && Allocated(was, ps[i].base, 0);
      UnusedMeans(was, ps[i], 0);
    }
    assert m.Keys == {};
  }

  lemma AnyRanks(s: seq<Puddle>)
    ensures Ranks(ByFree, Members(s))
  {}

  /** mempool_free_puddles() for one exponent. When expanding never had to round
   up, everything in use stays and every puddle with nothing in use goes; else
   the scan finds every puddle unused, and all of them go. */
  method FreePuddles(was: Memory, ps: seq<Puddle>, scan: nat, size: nat, epoch: nat,
                     ghost head: nat, ghost free: seq<nat>, ghost nrofFree: int, ghost nrofAllocated: int)
    returns (m: Memory, head': nat, sorted: seq<Puddle>, freed: nat, epoch': nat)
    requires size > 0 && (scan == size || scan == 0) && Sane(was, head, free, nrofFree, nrofAllocated, ps, size)
    ensures epoch' == Saturated(epoch, freed) && freed + |sorted| == |ps|
    ensures AllAllocated(was, sorted, size)
    ensures scan == size ==>
      && Sane(m, head', FreeIn(was, sorted, size), nrofFree - Times(size, freed), nrofAllocated - Times(size, freed),
              sorted, size)
      && LiveIn(m) == LiveIn(was) && m.Keys <= was.Keys
      && multiset(sorted) == multiset(Kept(was, ps, size)) && Sorted(ByFree, sorted)
    ensures scan == 0 ==> m == map[] && sorted == [] && head' == END_MARKER
  {
    hide Kept, Linked, Elsewhere, FreeIn, FreeOf, Swept, Apart, Ready, SortOf, Sorted, LiveIn, Allocated, InPuddles;
    var kept;
    m, kept, freed, epoch' := SweepPuddles(was, ps, scan, size, epoch);
    AnyRanks(kept);
    SortSorts(ByFree, kept);
    sorted := SortOf(ByFree, kept);
    ghost var swept := m;
    if scan == size {
      SortedReady(was, m, ps, sorted, size);
    } else {
      ScanAllocated(was, ps, scan, size);
      KeptNone(was, ps);
      SweptNone(was, m, ps, size);
      NothingReady(was, size);
    }
    m, head' := Relink(m, sorted, was, size);
    if scan == size {
      Reclaimed(was, swept, m, head', ps, sorted, size);
      ReclaimedCount(was, free, head, nrofFree, nrofAllocated, ps, sorted, size);
      SweptWithin(was, swept, m, ps, FreeIn(was, sorted, size), size);
    } else {
      NothingLinked(swept, m, head', was, size);
    }
  }

  lemma NothingReady(was: Memory, size: nat)
    ensures Ready(was, map[], [], size)
  {}

  lemma NothingLinked(swept: Memory, m: Memory, head: nat, was: Memory, size: nat)
    requires swept == map[] && AllAllocated(was, [], size)
    requires Linked(m, head, FreeIn(was, [], size), END_MARKER) && Elsewhere(swept, m, FreeIn(was, [], size))
    ensures m == map[] && head == END_MARKER
  {}

  lemma SweptWithin(was: Memory, swept: Memory, m: Memory, ps: seq<Puddle>, changed: seq<nat>, size: nat)
    requires Swept(was, swept, ps, |ps|, size, size) && Elsewhere(swept, m, changed)
    ensures m.Keys <= was.Keys && |m| == |swept|
  {
    assert |m| == |m.Keys| == |swept.Keys|;
  }

  lemma {:induction false} AllFree(m: Memory, base: nat, n: nat)
    requires Allocated(m, base, n) && forall c: nat :: InRange(base, n, c) ==> m[c] != NULL
    ensures |FreeOf(m, base, n)| == n
  {
    if n > 0 {
      AllFree(m, base, n - 1);
    }
  }

  /** A puddle is freed exactly when none of its chunks is in use. */
  lemma UnusedExactly(m: Memory, p: Puddle, size: nat)
    requires Allocated(m, p.base, size)
    ensures Unused(m, p, size) <==> forall c: nat :: InRange(p.base, size, c) ==> m[c] != NULL
  {
    if c: nat :| InRange(p.base, size, c) && m[c] == NULL {
      UsedCounts(m, p.base, size, c);
    } else {
      AllFree(m, p.base, size);
    }
  }

  // ---- getting and returning -----------------------------------------------

  /** Changing one chunk's link moves no chunk. */
  lemma SameChunks(m: Memory, c: nat, v: nat, ps: seq<Puddle>, size: nat)
    requires c in m && AllAllocated(m, ps, size)
    ensures AllAllocated(m[c := v], ps, size) && |m[c := v]| == |m| && m[c := v].Keys == m.Keys
  {
    var m' := m[c := v];
    assert m'.Keys == m.Keys && |m'| == |m'.Keys|;
    forall k | 0 <= k < |ps|
      ensures Allocated(m', ps[k].base, size)
    {
      assert Allocated(m, ps[k].base, size);
    }
  }

  lemma NoDupTail(free: seq<nat>)
    requires NoDup(free) && free != []
    ensures NoDup(free[1..]) && free[0] !in free[1..]
    ensures forall c: nat :: c in free <==> c == free[0] || c in free[1..]
  {
    var rest := free[1..];
    assert forall i :: 0 <= i < |rest| ==> rest[i] == free[i + 1] && rest[i] != free[0];
    assert free == [free[0]] + rest;
  }

  lemma TakenLinks(m: Memory, head: nat, free: seq<nat>)
    requires Linked(m, head, free, END_MARKER) && NoDup(free) && free != []
    ensures head == free[0] && head in m
    ensures Linked(m[head := NULL], m[head], free[1..], END_MARKER) && NoDup(free[1..])
    ensures forall c: nat :: c in free <==> c == head || c in free[1..]
    ensures head !in free[1..]
  {
    hide NoDup;
    NoDupTail(free);
    var rest := free[1..];
    assert forall i :: 0 <= i < |rest| ==> rest[i] == free[i + 1] && rest[i] in rest;
    assert |free| > 1 ==> m[free[0]] == free[1];
  }

  lemma LiveTaken(m: Memory, head: nat)
    requires head in m && m[head] != NULL
    ensures LiveIn(m[head := NULL]) == LiveIn(m) + {head} && head !in LiveIn(m)
  {}

  lemma Taken(m: Memory, head: nat, free: seq<nat>, nrofFree: int, nrofAllocated: int, ps: seq<Puddle>, size: nat)
    requires Sane(m, head, free, nrofFree, nrofAllocated, ps, size) && free != []
    ensures head in m && m[head] != NULL
    ensures Sane(m[head := NULL], m[head], free[1..], nrofFree - 1, nrofAllocated, ps, size)
    ensures LiveIn(m[head := NULL]) == LiveIn(m) + {head} && head !in LiveIn(m)
  {
    hide InPuddles, Apart, Linked, NoDup, AllAllocated, LiveIn;
    TakenLinks(m, head, free);
    LiveTaken(m, head);
    SameChunks(m, head, NULL, ps, size);
  }

  lemma NoDupCons(c: nat, free: seq<nat>)
    requires NoDup(free) && c !in free
    ensures NoDup([c] + free)
  {
    var s := [c] + free;
    assert forall i :: 0 <= i < |free| ==> s[i + 1] == free[i] && free[i] != c;
  }

  lemma LinkedCons(m: Memory, head: nat, free: seq<nat>, tail: nat, c: nat)
    requires Linked(m, head, free, tail) && c in m && forall i :: 0 <= i < |free| ==> free[i] != c
    ensures Linked(m[c := head], c, [c] + free, tail)
  {
    var m', s := m[c := head], [c] + free;
    forall i | 0 <= i < |s|
      ensures s[i] in m' && (i < |free| ==> m'[s[i]] == s[i + 1])
    {
      assert if i > 0 then s[i] == free[i - 1] else s[i] == c;
      assert i < |free| ==> s[i + 1] == free[i];
    }
  }

  lemma GivenLinks(m: Memory, head: nat, free: seq<nat>, c: nat)
    requires Linked(m, head, free, END_MARKER) && NoDup(free) && c in m && c !in free
    requires forall c: nat :: c in m ==> c > END_MARKER
    ensures head != NULL
    ensures Linked(m[c := head], c, [c] + free, END_MARKER) && NoDup([c] + free)
  {
    hide NoDup;
    NoDupCons(c, free);
    LinkedCons(m, head, free, END_MARKER, c);
  }

  lemma LiveGiven(m: Memory, c: nat, v: nat)
    requires v != NULL
    ensures LiveIn(m[c := v]) == LiveIn(m) - {c}
  {}

  lemma Given(m: Memory, head: nat, free: seq<nat>, nrofFree: int, nrofAllocated: int,
              ps: seq<Puddle>, size: nat, c: nat)
    requires Sane(m, head, free, nrofFree, nrofAllocated, ps, size) && c in m && m[c] == NULL
    ensures Sane(m[c := head], c, [c] + free, nrofFree + 1, nrofAllocated, ps, size)
    ensures LiveIn(m[c := head]) == LiveIn(m) - {c}
  {
    hide InPuddles, Apart, Linked, NoDup, AllAllocated, LiveIn;
    GivenLinks(m, head, free, c);
    LiveGiven(m, c, head);
    SameChunks(m, c, head, ps, size);
    assert forall x: nat :: x in [c] + free <==> x == c || x in free;
  }
}
