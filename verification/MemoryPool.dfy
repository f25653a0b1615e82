/**
 The pools of mempool.c: the chunks of each array size exponent, and the epoch
 that tells whether any chunk's storage was ever freed since a snapshot.
 */
module MemoryPool {
  import opened Arithmetic
  import opened MergeSort
  import opened Puddles
  import opened Sweep
  import opened Reclaim
  import opened Mempool

  const NROF_FREELISTS: nat := 8

  /** One array size exponent of a pool. */
  class Shelf {
    /** expand_size >> exponent; a puddle has at least one chunk all the same. */
    const expand: nat
    const bypass: bool
    var memory: Memory
    var freelist: nat
    var nrofFree: int
    var nrofAllocated: int
    var puddles: seq<Puddle>
    ghost var free: seq<nat>

    function Size(): (size: nat)
      ensures size > 0
    {
      if expand == 0 then 1 else expand
    }

    /** Pooled chunks are sane; when bypassing, every chunk is its own, in use. */
    ghost predicate Valid()
      reads this
    {
      if bypass then
        && puddles == [] && free == [] && freelist == END_MARKER && nrofFree == 0
        && (forall c: nat :: c in memory ==> c > END_MARKER && memory[c] == NULL) && nrofAllocated == |memory|
      else Sane(memory, freelist, free, nrofFree, nrofAllocated, puddles, Size())
    }

    /** Chunks in use. */
    ghost function Live(): set<nat>
      reads this
    {
      LiveIn(memory)
    }

    constructor (expand: nat, bypass: bool)
      ensures Valid() && Live() == {} && memory == map[] && this.expand == expand && this.bypass == bypass
      ensures nrofFree == 0
    {
      this.expand, this.bypass := expand, bypass;
      memory, freelist, nrofFree, nrofAllocated, puddles, free := map[], END_MARKER, 0, 0, [], [];
    }

    /** mempool_expand(), its storage put at a given address. */
    method Expand(base: nat)
      requires Valid() && !bypass && nrofFree == 0 && Fresh(memory, base, Size())
      modifies this
      ensures Valid() && nrofFree == Size() > 0 && Live() == old(Live())
      ensures memory.Keys == old(memory.Keys) + Chunks(base, Size()) && freelist == base
    {
      hide Sane, LiveIn, Fresh, Chain, Chunks, Addresses;
      ghost var was := memory;
      memory := LinkShelf(memory, freelist, free, nrofFree, nrofAllocated, puddles, base, Size());
      ChainKeys(memory, was, base, Size());
      freelist := base;
      nrofAllocated := nrofAllocated + Size();
      nrofFree := Size();
      puddles := [Puddle(base, NULL, NULL, 0)] + puddles;
      free := Addresses(base, Size());
    }

    /** mempool_get_chunk(): a chunk that was not in use, and now is. */
    method Get(base: nat) returns (chunk: nat)
      requires Valid() && Fresh(memory, base, if bypass then 1 else Size())
      modifies this
      ensures Valid() && chunk !in old(Live()) && Live() == old(Live()) + {chunk}
      ensures old(memory.Keys) <= memory.Keys <= old(memory.Keys) + Chunks(base, if bypass then 1 else Size())
      ensures !bypass && old(nrofFree) != 0 ==> chunk == old(freelist) && memory.Keys == old(memory.Keys)
      ensures bypass || old(nrofFree) == 0 ==> chunk == base
      ensures !bypass ==> nrofFree == (if old(nrofFree) == 0 then Size() else old(nrofFree)) - 1
    {
      hide Sane, Fresh, LiveIn, Chunks;
      if bypass {
        chunk := GetLoose(base);
        return;
      }
      if nrofFree == 0 {
        Expand(base);
      }
      chunk := Take();
    }

    /** A chunk of its own. */
    method GetLoose(base: nat) returns (chunk: nat)
      requires Valid() && bypass && Fresh(memory, base, 1)
      modifies this
      ensures Valid() && chunk !in old(Live()) && Live() == old(Live()) + {chunk}
      ensures memory.Keys == old(memory.Keys) + Chunks(base, 1) && chunk == base
    {
      hide Sane, LiveIn, Fresh, Chunks;
      Loosed(memory, base);
      memory := memory[base := NULL];
      nrofAllocated := nrofAllocated + 1;
      chunk := base;
    }

    /** The first free chunk. */
    method Take() returns (chunk: nat)
      requires Valid() && !bypass && nrofFree != 0
      modifies this
      ensures Valid() && chunk !in old(Live()) && Live() == old(Live()) + {chunk}
      ensures chunk == old(freelist) && memory.Keys == old(memory.Keys) && nrofFree == old(nrofFree) - 1
    {
      hide Sane, LiveIn;
      FreeShelf(memory, freelist, free, nrofFree, nrofAllocated, puddles, Size());
      Taken(memory, freelist, free, nrofFree, nrofAllocated, puddles, Size());
      chunk := freelist;
      freelist := memory[chunk];
      nrofFree := nrofFree - 1;
      memory := memory[chunk := NULL];
      free := free[1..];
      assert memory.Keys == old(memory.Keys);
    }

    /** mempool_return_chunk(): refused, by aborting, for a chunk that is free. */
    method Return(chunk: nat) returns (ok: bool)
      requires Valid() && chunk in memory
      modifies this
      ensures ok <==> chunk in old(Live())
      ensures ok ==> Valid() && Live() == old(Live()) - {chunk}
      ensures ok && !bypass ==> memory.Keys == old(memory.Keys) && freelist == chunk && nrofFree == old(nrofFree) + 1
      ensures ok && bypass ==> memory.Keys == old(memory.Keys) - {chunk}
      ensures !ok ==> memory == old(memory)
    {
      hide Sane;
      if memory[chunk] != NULL {
        return false;
      }
      if bypass {
        memory := memory - {chunk};
        nrofAllocated := nrofAllocated - 1;
        assert memory.Keys == old(memory.Keys) - {chunk};
        assert |memory| == |memory.Keys| && |old(memory)| == |old(memory).Keys|;
      } else {
        Given(memory, freelist, free, nrofFree, nrofAllocated, puddles, Size(), chunk);
        memory := memory[chunk := freelist];
        freelist := chunk;
        nrofFree := nrofFree + 1;
        free := [chunk] + free;
        assert memory.Keys == old(memory.Keys);
      }
      return true;
    }

    /** mempool_free_puddles() for this exponent: provided the expand size is not
     too small for it, exactly the puddles with nothing in use are freed, all in
     use stays in use, and every other free chunk is on the free list again.
     Otherwise everything is freed, in use or not, and the counts are left. */
    method FreeUnused(epoch: nat) returns (freed: nat, epoch': nat)
      requires Valid()
      modifies this
      ensures epoch' == Saturated(epoch, freed) && memory.Keys <= old(memory.Keys)
      ensures freed == 0 ==> memory.Keys == old(memory.Keys)
      ensures bypass ==> freed == 0 && Valid() && Live() == old(Live())
      ensures !bypass ==> freed + |puddles| == |old(puddles)|
      ensures !bypass && expand > 0 ==>
        && Valid() && Live() == old(Live()) && AllAllocated(old(memory), old(puddles), Size())
        && multiset(puddles) == multiset(Kept(old(memory), old(puddles), Size())) && Sorted(ByFree, puddles)
      ensures !bypass && expand == 0 ==> memory == map[] && puddles == [] && nrofFree == old(nrofFree)
      ensures Valid() <==> bypass || expand > 0 || old(puddles) == []
      ensures Live() == old(Live()) <==> bypass || expand > 0 || old(Live()) == {}
    {
      hide Sane, Kept, Sorted;
      if bypass {
        return 0, epoch;
      }
      ghost var was, head, list, count, total, before := memory, freelist, free, nrofFree, nrofAllocated, puddles;
      ShelfPuddles(memory, freelist, free, nrofFree, nrofAllocated, puddles, Size());
      memory, freelist, puddles, freed, epoch' :=
        FreePuddles(memory, puddles, expand, Size(), epoch, freelist, free, nrofFree, nrofAllocated);
      nrofFree := nrofFree - Times(expand, freed);
      nrofAllocated := nrofAllocated - Times(expand, freed);
      if expand > 0 {
        free := FreeIn(was, puddles, Size());
        NoneFreed(was, memory, head, freelist, list, free, count, nrofFree, total, nrofAllocated,
                  before, puddles, Size(), freed);
      } else {
        TimesNothing(freed);
        AllFreed(was, memory, head, freelist, list, free, count, nrofFree, total, nrofAllocated, before, puddles);
      }
    }
  }

  lemma Loosed(m: Memory, base: nat)
    requires Fresh(m, base, 1) && forall c: nat :: c in m ==> c > END_MARKER && m[c] == NULL
    ensures var m' := m[base := NULL];
      && m'.Keys == m.Keys + Chunks(base, 1) && |m'| == |m| + 1
      && LiveIn(m') == LiveIn(m) + {base} && base !in LiveIn(m) && base > END_MARKER
  {
    var m' := m[base := NULL];
    FreshHere(m, base);
    hide Fresh;
    LooseKeys(m, base);
    AllLive(m);
    AllLive(m');
  }

  lemma FreshHere(m: Memory, base: nat)
    requires Fresh(m, base, 1)
    ensures base !in m && base > END_MARKER && Chunks(base, 1) == {base}
  {
    assert InRange(base, 1, base);
  }

  lemma LooseKeys(m: Memory, base: nat)
    requires base !in m
    ensures m[base := NULL].Keys == m.Keys + {base} && |m[base := NULL]| == |m| + 1
  {
    var m' := m[base := NULL];
    assert m'.Keys == m.Keys + {base} && |m'| == |m'.Keys| && |m| == |m.Keys|;
  }

  lemma AllLive(m: Memory)
    requires forall c: nat :: c in m ==> m[c] == NULL
    ensures LiveIn(m) == m.Keys
  {}

  lemma EmptyShelf(m: Memory, head: nat, free: seq<nat>, nrofFree: int, nrofAllocated: int, ps: seq<Puddle>, size: nat)
    requires Sane(m, head, free, nrofFree, nrofAllocated, ps, size) && nrofFree == 0
    ensures Sane(m, head, free, 0, |m|, ps, size) && nrofAllocated == |m|
  {}

  /** Links a puddle into the memory of a shelf without free chunks. */
  method LinkShelf(was: Memory, ghost head: nat, ghost free: seq<nat>, nrofFree: int, nrofAllocated: int,
                   ghost ps: seq<Puddle>, base: nat, size: nat) returns (m: Memory)
    requires size > 0 && Sane(was, head, free, nrofFree, nrofAllocated, ps, size) && nrofFree == 0
    requires Fresh(was, base, size)
    ensures Sane(m, base, Addresses(base, size), size, nrofAllocated + size, [Puddle(base, NULL, NULL, 0)] + ps, size)
    ensures LiveIn(m) == LiveIn(was) && Chain(m, was, base, size, size)
  {
    hide Sane, LiveIn, Fresh, Chain, Addresses;
    m := LinkPuddle(was, base, size);
    EmptyShelf(was, head, free, nrofFree, nrofAllocated, ps, size);
    Expanded(was, m, head, ps, base, size, Puddle(base, NULL, NULL, 0), free);
  }

  lemma FreeShelf(m: Memory, head: nat, free: seq<nat>, nrofFree: int, nrofAllocated: int, ps: seq<Puddle>, size: nat)
    requires Sane(m, head, free, nrofFree, nrofAllocated, ps, size) && nrofFree != 0
    ensures free != [] && nrofFree > 0
  {}

  lemma ChainKeys(m: Memory, was: Memory, base: nat, size: nat)
    requires Chain(m, was, base, size, size)
    ensures m.Keys == was.Keys + Chunks(base, size)
  {}

  lemma ShelfPuddles(m: Memory, head: nat, free: seq<nat>, nrofFree: int, nrofAllocated: int,
                     ps: seq<Puddle>, size: nat)
    requires Sane(m, head, free, nrofFree, nrofAllocated, ps, size)
    ensures AllAllocated(m, ps, size)
  {}

  lemma {:induction false} TimesNothing(n: nat)
    ensures Times(0, n) == 0
  {
    if n > 0 {
      TimesNothing(n - 1);
    }
  }

  /** Where nothing was freed, no storage went. */
  lemma NoneFreed(was: Memory, m: Memory, head: nat, head': nat, free: seq<nat>, free': seq<nat>,
                  count: int, count': int, total: int, total': int, ps: seq<Puddle>, ps': seq<Puddle>,
                  size: nat, freed: nat)
    requires Sane(was, head, free, count, total, ps, size) && Sane(m, head', free', count', total', ps', size)
    requires m.Keys <= was.Keys && total' == total - Times(size, freed)
    ensures freed == 0 ==> m.Keys == was.Keys
  {
    if freed == 0 {
      assert |m.Keys| == |was.Keys|;
      SameSize(m.Keys, was.Keys);
    }
  }

  lemma SameSize(a: set<nat>, b: set<nat>)
    requires a <= b && |a| == |b|
    ensures a == b
  {
    assert b == a + (b - a) && |b| == |a| + |b - a|;
  }

  lemma NoStorage(m: Memory, size: nat)
    requires forall c: nat :: c in m ==> InPuddles([], size, c)
    ensures m == map[]
  {
    assert forall c: nat :: c !in m;
  }

  lemma AllFreed(was: Memory, m: Memory, head: nat, head': nat, free: seq<nat>, free': seq<nat>,
                 count: int, count': int, total: int, total': int, ps: seq<Puddle>, ps': seq<Puddle>)
    requires Sane(was, head, free, count, total, ps, 1) && m == map[] && ps' == [] && head' == END_MARKER
    requires free' == free && count' == count && total' == total
    ensures Sane(m, head', free', count', total', ps', 1) <==> ps == []
    ensures ps == [] ==> was == map[]
  {
    if ps == [] {
      NoStorage(was, 1);
    } else {
      assert Allocated(was, ps[0].base, 1) && InRange(ps[0].base, 1, ps[0].base);
      assert ps[0].base in was && |was| > 0;
    }
  }

  // ---- the pool ------------------------------------------------------------

  /** What freeing does to an exponent that held some storage and puddles and had
   some chunks in use: it stays sound exactly when its expand size serves it or
   it had no puddle, and its chunks stay in use exactly when it serves it or
   none was; where it does not serve it no storage is left. */
  ghost predicate Thinned(shelf: Shelf, storage: set<nat>, puddles: seq<Puddle>, live: set<nat>)
    reads shelf
  {
    && shelf.memory.Keys <= storage
    && (shelf.Valid() <==> shelf.expand > 0 || puddles == [])
    && (shelf.Live() == live <==> shelf.expand > 0 || live == {})
    && (puddles == [] ==> live == {})
    && (shelf.expand == 0 ==> shelf.memory == map[])
  }

  /** The epoch after some storage was freed that many times. */
  function EpochAfter(reclaimed: nat): nat { if reclaimed < UINT64_MAX then reclaimed else UINT64_MAX }

  lemma NotedEpoch(reclaimed: nat, freed: nat)
    ensures Saturated(EpochAfter(reclaimed), freed) == EpochAfter(reclaimed + freed)
    ensures Noted(EpochAfter(reclaimed)) == EpochAfter(reclaimed + 1)
  {}

  /** mempool_reclamation_is_current() */
  predicate IsCurrent(epoch: nat, snapshot: nat) { snapshot != UINT64_MAX && epoch == snapshot }

  /** Every state of a pool's run: how often storage was freed, and the storage. */
  datatype Moment = Moment(reclaimed: nat, storage: set<nat>)

  ghost predicate Follows(a: Moment, b: Moment) {
    a.reclaimed <= b.reclaimed && (a.reclaimed == b.reclaimed ==> a.storage <= b.storage)
  }

  /** expand_size >> exponent */
  function Halved(n: nat, exponent: nat): nat { if exponent == 0 then n else Halved(n / 2, exponent - 1) }

  class Pool {
    const expandSize: nat
    const shelves: seq<Shelf>
    const bypass: bool
    const allowFreeing: bool
    var epoch: nat
    /** How often storage was freed, ever. */
    ghost var reclaimed: nat

    ghost predicate Shaped()
      reads this
    {
      && |shelves| == NROF_FREELISTS
      && (forall i, j :: 0 <= i < j < |shelves| ==> shelves[i] != shelves[j])
      && forall i :: 0 <= i < |shelves| ==> shelves[i].bypass == bypass && shelves[i].expand == Halved(expandSize, i)
    }

    ghost predicate Valid()
      reads this, shelves
    {
      && Shaped() && epoch == EpochAfter(reclaimed)
      && (forall i :: 0 <= i < |shelves| ==> shelves[i].Valid())
      && forall i, j :: 0 <= i < j < |shelves| ==> shelves[i].memory.Keys !! shelves[j].memory.Keys
    }

    /** The expand size serves every exponent that has puddles. */
    predicate Scannable()
      reads this, shelves
    {
      forall i :: 0 <= i < |shelves| ==> shelves[i].expand > 0 || shelves[i].puddles == []
    }

    ghost predicate FreshHere(base: nat, n: nat)
      reads this, shelves
    {
      forall i :: 0 <= i < |shelves| ==> Fresh(shelves[i].memory, base, n)
    }

    /** Storage the pool holds. */
    ghost function Storage(): set<nat>
      reads this, shelves
    {
      set i, c | 0 <= i < |shelves| && c in shelves[i].memory :: c
    }

    ghost function Now(): Moment
      reads this, shelves
    {
      Moment(reclaimed, Storage())
    }

    /** mempool_create() */
    constructor (expandSize: nat, bypass: bool, allowFreeing: bool)
      ensures Valid() && Storage() == {} && reclaimed == 0 && fresh(shelves)
      ensures this.expandSize == expandSize && this.bypass == bypass && this.allowFreeing == allowFreeing
      ensures forall i :: 0 <= i < |shelves| ==> shelves[i].nrofFree == 0
    {
      hide Shelf.Valid;
      var made: seq<Shelf> := [];
      while |made| < NROF_FREELISTS
        invariant |made| <= NROF_FREELISTS
        invariant forall i :: 0 <= i < |made| ==> fresh(made[i]) && made[i].Valid()
        invariant forall i :: 0 <= i < |made| ==> made[i].memory == map[] && made[i].nrofFree == 0
        invariant forall i :: 0 <= i < |made| ==> made[i].bypass == bypass && made[i].expand == Halved(expandSize, i)
        invariant forall i, j :: 0 <= i < j < |made| ==> made[i] != made[j]
      {
        var shelf := new Shelf(Halved(expandSize, |made|), bypass);
        made := made + [shelf];
      }
      this.expandSize, this.bypass, this.allowFreeing, this.shelves := expandSize, bypass, allowFreeing, made;
      epoch, reclaimed := 0, 0;
    }

    /** mempool_get_chunk(): never a chunk in use, of any exponent. */
    method GetChunk(exponent: nat, base: nat) returns (chunk: nat)
      requires Valid() && exponent < NROF_FREELISTS
      requires FreshHere(base, if bypass then 1 else shelves[exponent].Size())
      modifies shelves[exponent]
      ensures Valid() && reclaimed == old(reclaimed) && Follows(old(Now()), Now())
      ensures forall i :: 0 <= i < |shelves| ==> chunk !in old(shelves[i].Live())
      ensures shelves[exponent].Live() == old(shelves[exponent].Live()) + {chunk}
      ensures chunk == if bypass || old(shelves[exponent].nrofFree) == 0 then base else old(shelves[exponent].freelist)
    {
      hide Shelf.Valid, Chunks, LiveIn, Fresh;
      FreshApart(base, if bypass then 1 else shelves[exponent].Size());
      LiveStored();
      chunk := shelves[exponent].Get(base);
      LiveStored();
      assert forall i :: 0 <= i < |shelves| && i != exponent ==> shelves[i].memory == old(shelves[i].memory);
    }

    lemma FreshApart(base: nat, n: nat)
      requires FreshHere(base, n)
      ensures forall i :: 0 <= i < |shelves| ==> shelves[i].memory.Keys !! Chunks(base, n)
    {
      forall i | 0 <= i < |shelves|
        ensures shelves[i].memory.Keys !! Chunks(base, n)
      {
        assert Fresh(shelves[i].memory, base, n);
      }
    }

    lemma LiveStored()
      ensures forall i :: 0 <= i < |shelves| ==> shelves[i].Live() <= shelves[i].memory.Keys
    {}

    /** mempool_return_chunk(): frees the storage at once when bypassing. */
    method ReturnChunk(exponent: nat, chunk: nat) returns (ok: bool)
      requires Valid() && exponent < NROF_FREELISTS && chunk in shelves[exponent].memory
      modifies this, shelves[exponent]
      ensures ok <==> chunk in old(shelves[exponent].Live())
      ensures ok ==> Valid() && shelves[exponent].Live() == old(shelves[exponent].Live()) - {chunk}
      ensures ok ==> reclaimed == old(reclaimed) + if bypass then 1 else 0
      ensures ok && !bypass ==> Storage() == old(Storage())
      ensures Follows(old(Now()), Now())
      ensures !ok ==> reclaimed == old(reclaimed) && Storage() == old(Storage())
    {
      hide Shelf.Valid, LiveIn;
      NotedEpoch(reclaimed, 0);
      ok := shelves[exponent].Return(chunk);
      if ok && bypass {
        epoch := Noted(epoch);
        reclaimed := reclaimed + 1;
      }
      assert forall i :: 0 <= i < |shelves| && i != exponent ==> shelves[i].memory == old(shelves[i].memory);
    }

    /** mempool_reclaim(): storage is freed exactly as often as the epoch says.
     Where the expand size serves every exponent nothing in use is freed; where
     it does not, what was in use goes and the pool is no longer sound. */
    method Reclaim() returns (freed: nat)
      requires Valid()
      modifies this, shelves
      ensures !allowFreeing || bypass ==> freed == 0
      ensures Shaped() && reclaimed == old(reclaimed) + freed && epoch == EpochAfter(reclaimed)
      ensures Storage() <= old(Storage())
      ensures freed == 0 ==> Storage() == old(Storage())
      ensures Follows(old(Now()), Now())
      ensures Valid() <==> !allowFreeing || bypass || old(Scannable())
      ensures forall i :: 0 <= i < |shelves| ==>
        (shelves[i].Live() == old(shelves[i].Live())
         <==> !allowFreeing || bypass || shelves[i].expand > 0 || old(shelves[i].Live()) == {})
      ensures !allowFreeing || bypass || old(Scannable()) ==>
        forall i :: 0 <= i < |shelves| ==> shelves[i].Live() == old(shelves[i].Live())
      ensures forall i :: 0 <= i < |shelves| ==> shelves[i].memory.Keys <= old(shelves[i].memory.Keys)
      ensures allowFreeing && !bypass ==>
        forall i :: 0 <= i < |shelves| && shelves[i].expand == 0 ==> shelves[i].memory == map[]
    {
      hide Shelf.Valid, LiveIn;
      freed := 0;
      if allowFreeing && !bypass {
        freed := FreePuddles();
      }
    }

    /** mempool_free_puddles(), exponent by exponent. */
    method FreePuddles() returns (freed: nat)
      requires Valid() && !bypass
      modifies this, shelves
      ensures Shaped() && reclaimed == old(reclaimed) + freed && epoch == EpochAfter(reclaimed)
      ensures forall j :: 0 <= j < |shelves| ==>
        Thinned(shelves[j], old(shelves[j].memory.Keys), old(shelves[j].puddles), old(shelves[j].Live()))
      ensures forall j :: 0 <= j < |shelves| && freed == 0 ==>
        shelves[j].memory.Keys == old(shelves[j].memory.Keys)
    {
      hide Shelf.Valid, LiveIn, Thinned, Sorted, Kept, AllAllocated, EpochAfter, Saturated;
      freed := 0;
      var i := 0;
      while i < NROF_FREELISTS
        invariant 0 <= i <= NROF_FREELISTS && Shaped()
        invariant reclaimed == old(reclaimed) + freed && epoch == EpochAfter(reclaimed)
        invariant forall j :: i <= j < |shelves| ==> unchanged(shelves[j])
        invariant forall j :: i <= j < |shelves| ==> shelves[j].Valid()
        invariant forall j :: 0 <= j < i ==>
          Thinned(shelves[j], old(shelves[j].memory.Keys), old(shelves[j].puddles), old(shelves[j].Live()))
        invariant forall j :: 0 <= j < i && freed == 0 ==> shelves[j].memory.Keys == old(shelves[j].memory.Keys)
      {
        var more;
        NotedEpoch(reclaimed, 0);
        more := FreeAt(i);
        freed := freed + more;
        i := i + 1;
      }
    }

    method FreeAt(i: nat) returns (freed: nat)
      requires Shaped() && i < |shelves| && shelves[i].Valid() && !bypass && epoch == EpochAfter(reclaimed)
      modifies `epoch, `reclaimed, shelves[i]
      ensures reclaimed == old(reclaimed) + freed && epoch == EpochAfter(reclaimed)
      ensures Thinned(shelves[i], old(shelves[i].memory.Keys), old(shelves[i].puddles), old(shelves[i].Live()))
      ensures freed == 0 ==> shelves[i].memory.Keys == old(shelves[i].memory.Keys)
    {
      hide Shelf.Valid, LiveIn, Sorted, Kept, AllAllocated;
      EmptyLive(i);
      freed, epoch := shelves[i].FreeUnused(epoch);
      NotedEpoch(reclaimed, freed);
      reclaimed := reclaimed + freed;
    }

    lemma EmptyLive(i: nat)
      requires i < |shelves| && shelves[i].Valid() && !shelves[i].bypass
      ensures shelves[i].puddles == [] ==> shelves[i].Live() == {}
    {
      if shelves[i].puddles == [] {
        NoStorage(shelves[i].memory, shelves[i].Size());
      }
    }
  }

  // ---- the reclamation that fails --------------------------------------------

  /** From a new pool that expands by one, a chunk of the first array size and one
   reclamation: the chunk was handed out, never returned, and its storage is gone. */
  method ReclaimInUse(base: nat) returns (pool: Pool, chunk: nat)
    requires base > END_MARKER
    ensures pool.expandSize == 1 && pool.allowFreeing && !pool.bypass && pool.Shaped()
    ensures chunk == base && chunk !in pool.Storage() && !pool.Valid() && pool.reclaimed > 0
  {
    hide Shelf.Valid, Pool.Valid, Pool.Storage, LiveIn, Shelf.Live;
    pool := new Pool(1, false, true);
    OneExpand(pool);
    NewFresh(pool, base, 1);
    chunk := pool.GetChunk(1, base);
    HeldOnce(pool, 1, chunk);
    OneExpand(pool);
    var _ := pool.Reclaim();
    Gone(pool, chunk);
  }

  lemma OneExpand(pool: Pool)
    requires pool.Valid() && pool.expandSize == 1
    ensures pool.Shaped() && pool.shelves[1].expand == 0
    ensures pool.shelves[1].Live() != {} && !pool.bypass ==> !pool.Scannable()
  {
    hide LiveIn;
    HalvedOnce();
    if pool.shelves[1].puddles == [] && !pool.bypass {
      pool.EmptyLive(1);
    }
  }

  /** A chunk in use is stored in its own exponent only. */
  lemma HeldOnce(pool: Pool, exponent: nat, chunk: nat)
    requires pool.Valid() && exponent < |pool.shelves| && chunk in pool.shelves[exponent].Live()
    ensures chunk in pool.Storage()
    ensures forall i :: 0 <= i < |pool.shelves| && i != exponent ==> chunk !in pool.shelves[i].memory.Keys
  {
    hide Shelf.Valid;
    assert chunk in pool.shelves[exponent].memory.Keys;
  }

  lemma Gone(pool: Pool, chunk: nat)
    requires forall i :: 0 <= i < |pool.shelves| ==> chunk !in pool.shelves[i].memory.Keys
    ensures chunk !in pool.Storage()
  {}

  lemma HalvedOnce()
    ensures Halved(1, 1) == 0
  {}

  lemma NewFresh(pool: Pool, base: nat, n: nat)
    requires pool.Storage() == {} && base > END_MARKER
    ensures pool.FreshHere(base, n)
  {
    forall i, c: nat | 0 <= i < |pool.shelves| && InRange(base, n, c)
      ensures c !in pool.shelves[i].memory
    {
      assert c !in pool.Storage();
    }
  }

  // ---- runs ----------------------------------------------------------------

  /** What a run asks of a pool: a chunk, with the address any new storage for it
   would get; the return of a chunk; or a reclaim. */
  datatype Op = Take(exponent: nat, base: nat) | Give(exponent: nat, chunk: nat) | Shrink

  /** Whether an operation respects the pool's and the allocator's contracts: new
   storage is none the pool holds, and only chunks in use are returned. */
  predicate Proper(pool: Pool, op: Op)
    reads pool, pool.shelves
  {
    match op
    case Take(exponent, base) =>
      exponent < |pool.shelves| && base > END_MARKER
      && var n := if pool.bypass then 1 else pool.shelves[exponent].Size();
         forall i: nat, c: nat :: i < |pool.shelves| && base <= c < base + n ==> c !in pool.shelves[i].memory
    case Give(exponent, chunk) =>
      exponent < |pool.shelves| && chunk in pool.shelves[exponent].memory
      && pool.shelves[exponent].memory[chunk] == NULL
    case Shrink => true
  }

  /** Whether an operation leaves the pool sound. */
  predicate Keeps(pool: Pool, op: Op)
    reads pool, pool.shelves
  {
    op != Shrink || !pool.allowFreeing || pool.bypass || pool.Scannable()
  }

  method Perform(pool: Pool, op: Op)
    requires pool.Valid() && Proper(pool, op)
    modifies pool, pool.shelves
    ensures Follows(old(pool.Now()), pool.Now()) && pool.epoch == EpochAfter(pool.reclaimed)
    ensures pool.Valid() <==> old(Keeps(pool, op))
  {
    hide Shelf.Valid, LiveIn, Fresh;
    match op {
      case Take(exponent, base) =>
        ProperFresh(pool, exponent, base);
        var _ := pool.GetChunk(exponent, base);
      case Give(exponent, chunk) =>
        InUse(pool.shelves[exponent], chunk);
        var _ := pool.ReturnChunk(exponent, chunk);
      case Shrink =>
        var _ := pool.Reclaim();
    }
  }

  lemma ProperFresh(pool: Pool, exponent: nat, base: nat)
    requires Proper(pool, Take(exponent, base))
    ensures pool.FreshHere(base, if pool.bypass then 1 else pool.shelves[exponent].Size())
  {}

  lemma InUse(shelf: Shelf, chunk: nat)
    requires chunk in shelf.memory && shelf.memory[chunk] == NULL
    ensures chunk in shelf.Live()
  {}

  /** Any operations in any order, improper ones passed over, until a reclaim
   breaks the pool: its moments are a history. */
  method Run(pool: Pool, ops: seq<Op>) returns (sound: bool, ghost h: seq<Moment>)
    requires pool.Valid()
    modifies pool, pool.shelves
    ensures History(h) && |h| >= 1 && h[0] == old(pool.Now()) && h[|h| - 1] == pool.Now()
    ensures pool.epoch == EpochAfter(pool.reclaimed) && (sound <==> pool.Valid())
    ensures IsCurrent(pool.epoch, old(pool.epoch)) ==> old(pool.Storage()) <= pool.Storage()
    ensures !pool.allowFreeing || pool.bypass || pool.expandSize >= 128 ==> sound && |h| == |ops| + 1
  {
    hide Shelf.Valid, Pool.Valid, Pool.Storage, Proper, Keeps, Follows, History, EpochAfter;
    Sound(pool);
    sound, h := true, [pool.Now()];
    HistoryStarts(pool.Now());
    var i := 0;
    while i < |ops| && sound
      invariant 0 <= i <= |ops| && |h| == i + 1 && h[0] == old(pool.Now()) && h[i] == pool.Now() && History(h)
      invariant pool.epoch == EpochAfter(pool.reclaimed) && (sound <==> pool.Valid())
      invariant !pool.allowFreeing || pool.bypass || pool.expandSize >= 128 ==> sound
      decreases |ops| - i
    {
      ghost var before := pool.Now();
      Sound(pool);
      FollowsItself(before);
      if Proper(pool, ops[i]) {
        sound := Keeps(pool, ops[i]);
        Perform(pool, ops[i]);
      }
      HistoryGrows(h, pool.Now());
      h := h + [pool.Now()];
      i := i + 1;
    }
    Unmoved(h);
  }

  lemma Sound(pool: Pool)
    requires pool.Valid()
    ensures pool.epoch == EpochAfter(pool.reclaimed)
    ensures !pool.allowFreeing || pool.bypass || pool.expandSize >= 128 ==> forall op: Op :: Keeps(pool, op)
  {
    if pool.expandSize >= 128 {
      forall i | 0 <= i < |pool.shelves|
        ensures pool.shelves[i].expand > 0
      {
        Halving(pool.expandSize, i);
      }
    }
  }

  /** 128 chunks are enough for each of the 8 exponents. */
  lemma Halving(n: nat, exponent: nat)
    requires n >= 128 && exponent < NROF_FREELISTS
    ensures Halved(n, exponent) > 0
  {
    HalvedStep(n, exponent, 0);
  }

  lemma {:induction false} HalvedStep(n: nat, exponent: nat, done: nat)
    requires exponent + done <= 7 && n >= Power(7 - done)
    ensures Halved(n, exponent) > 0
    decreases exponent
  {
    if exponent > 0 {
      HalvedStep(n / 2, exponent - 1, done + 1);
    }
  }

  lemma FollowsItself(m: Moment)
    ensures Follows(m, m)
  {}

  lemma HistoryStarts(m: Moment)
    ensures History([m])
  {}

  lemma HistoryGrows(h: seq<Moment>, m: Moment)
    requires |h| >= 1 && History(h) && Follows(h[|h| - 1], m)
    ensures History(h + [m])
  {}

  /** A snapshot taken before a run that is current after it. */
  lemma Unmoved(h: seq<Moment>)
    requires |h| >= 1 && History(h)
    ensures var a, b := h[0], h[|h| - 1];
      IsCurrent(EpochAfter(b.reclaimed), EpochAfter(a.reclaimed)) ==> a.storage <= b.storage
  {
    if IsCurrent(EpochAfter(h[|h| - 1].reclaimed), EpochAfter(h[0].reclaimed)) {
      CurrentMeansKept(h, 0, |h| - 1);
    }
  }

  /** What the operations of a pool keep between any two states. */
  ghost predicate History(h: seq<Moment>) { forall i :: 0 <= i < |h| - 1 ==> Follows(h[i], h[i + 1]) }

  lemma {:induction false} HistoryFollows(h: seq<Moment>, i: nat, j: nat)
    requires History(h) && i <= j < |h|
    ensures Follows(h[i], h[j])
    decreases j - i
  {
    if i < j {
      HistoryFollows(h, i, j - 1);
      assert Follows(h[j - 1], h[j]);
    }
  }

  /** A snapshot that is still current means no storage there was then is gone. */
  lemma CurrentMeansKept(h: seq<Moment>, i: nat, j: nat)
    requires History(h) && i <= j < |h|
    requires IsCurrent(EpochAfter(h[j].reclaimed), EpochAfter(h[i].reclaimed))
    ensures h[j].reclaimed == h[i].reclaimed && h[i].storage <= h[j].storage
  {
    HistoryFollows(h, i, j);
  }

  /** Saturation: once the epoch has reached its end, no snapshot is current. */
  lemma SaturatedNeverCurrent(reclaimed: nat, snapshot: nat)
    requires reclaimed >= UINT64_MAX
    ensures !IsCurrent(EpochAfter(reclaimed), snapshot)
  {}
}
