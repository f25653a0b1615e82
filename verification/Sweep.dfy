/**
 mempool_free_puddles() for one array size exponent: the puddles nothing of is
 in use are freed, and the free chunks of the others relinked.
 */
module Sweep {
  import opened Arithmetic
  import opened Puddles

  /** mempool_note_reclamation() */
  function Noted(epoch: nat): nat { if epoch < UINT64_MAX then epoch + 1 else epoch }

  /** Nothing of a puddle is in use. */
  ghost predicate Unused(m: Memory, p: Puddle, size: nat)
    requires Allocated(m, p.base, size)
  {
    |FreeOf(m, p.base, size)| == size
  }

  ghost function Scanned(m: Memory, base: nat, size: nat): Puddle
    requires Allocated(m, base, size)
  {
    var s := FreeOf(m, base, size);
    Puddle(base, if s == [] then NULL else s[0], if s == [] then NULL else s[|s| - 1], |s|)
  }

  /** The puddles that are kept, last first, as they were pushed back. */
  ghost function Kept(m: Memory, ps: seq<Puddle>, size: nat): seq<Puddle>
    requires AllAllocated(m, ps, size)
  {
    if ps == [] then []
    else
      var p := ps[|ps| - 1];
      var rest := Kept(m, ps[..|ps| - 1], size);
      if Unused(m, p, size) then rest else [Scanned(m, p.base, size)] + rest
  }

  /** A puddle of size chunks of which a scan looks at the first. */
  lemma ScanAllocated(m: Memory, ps: seq<Puddle>, scan: nat, size: nat)
    requires AllAllocated(m, ps, size) && scan <= size
    ensures AllAllocated(m, ps, scan)
  {
    forall k | 0 <= k < |ps|
      ensures Allocated(m, ps[k].base, scan)
    {
      assert Allocated(m, ps[k].base, size);
      Narrow(m, ps[k].base, scan, size);
    }
  }

  lemma Narrow(m: Memory, base: nat, scan: nat, size: nat)
    requires Allocated(m, base, size) && scan <= size
    ensures Allocated(m, base, scan)
  {
    forall c: nat | InRange(base, scan, c)
      ensures c in m
    {
      assert InRange(base, size, c);
    }
  }

  /** The sweep's state once the first k puddles are done. */
  ghost predicate Swept(was: Memory, m: Memory, ps: seq<Puddle>, k: nat, scan: nat, size: nat) {
    && AllAllocated(was, ps, size) && AllAllocated(was, ps, scan) && k <= |ps|
    && (forall c: nat :: c in m ==> c in was && (was[c] == NULL ==> m[c] == NULL))
    && (forall j :: k <= j < |ps| ==> SameOn(was, m, ps[j].base, size))
    && forall j :: 0 <= j < k ==> Done(was, m, ps[j], scan, size)
  }

  ghost predicate Done(was: Memory, m: Memory, p: Puddle, scan: nat, size: nat)
    requires Allocated(was, p.base, scan)
  {
    if Unused(was, p, scan) then Gone(m, p.base, size)
    else Allocated(m, p.base, size) && Local(m, Scanned(was, p.base, scan), FreeOf(was, p.base, scan))
  }

  ghost predicate Gone(m: Memory, base: nat, size: nat) {
    forall c: nat :: InRange(base, size, c) ==> c !in m
  }

  /** What is done stays done when other chunks change. */
  lemma DoneStays(was: Memory, m: Memory, m': Memory, p: Puddle, scan: nat, size: nat)
    requires scan <= size && Allocated(was, p.base, scan) && Done(was, m, p, scan, size)
    requires forall c: nat :: InRange(p.base, size, c) ==> (c in m <==> c in m') && (c in m ==> m[c] == m'[c])
    ensures Done(was, m', p, scan, size)
  {
    hide FreeOf;
    var s := FreeOf(was, p.base, scan);
    if !Unused(was, p, scan) && s != [] {
      assert forall i :: 0 <= i < |s| ==> InRange(p.base, scan, s[i]) && InRange(p.base, size, s[i]);
    }
  }

  /** One puddle's chunks change, and those of no other. */
  ghost predicate ChangedIn(m: Memory, m': Memory, base: nat, size: nat) {
    forall c: nat :: !InRange(base, size, c) ==> (c in m <==> c in m') && (c in m ==> m[c] == m'[c])
  }

  lemma SweptStep(was: Memory, m: Memory, m': Memory, ps: seq<Puddle>, k: nat, scan: nat, size: nat)
    requires Swept(was, m, ps, k, scan, size) && k < |ps| && Apart(ps, size) && scan <= size
    requires ChangedIn(m, m', ps[k].base, size) && Done(was, m', ps[k], scan, size)
    requires forall c: nat :: InRange(ps[k].base, size, c) && c in m' ==> c in was && (was[c] == NULL ==> m'[c] == NULL)
    ensures Swept(was, m', ps, k + 1, scan, size)
  {
    hide Done, FreeOf, Local, Unused;
    forall j | 0 <= j < k
      ensures Done(was, m', ps[j], scan, size)
    {
      assert forall c: nat :: InRange(ps[j].base, size, c) ==> !InRange(ps[k].base, size, c);
      DoneStays(was, m, m', ps[j], scan, size);
    }
    forall j | k + 1 <= j < |ps|
      ensures SameOn(was, m', ps[j].base, size)
    {
      assert forall c: nat :: InRange(ps[j].base, size, c) ==> !InRange(ps[k].base, size, c);
    }
  }

  lemma ScannedIs(was: Memory, m: Memory, p: Puddle, scan: nat)
    requires Allocated(was, p.base, scan) && Local(m, p, FreeOf(was, p.base, scan))
    ensures p == Scanned(was, p.base, scan)
  {
    hide FreeOf;
  }

  lemma ScanKept(was: Memory, m: Memory, m': Memory, p: Puddle, scan: nat, size: nat)
    requires SameOn(was, m, p.base, size) && Allocated(was, p.base, size) && scan <= size
    requires Allocated(m, p.base, scan) && Allocated(was, p.base, scan)
    requires Local(m', p, FreeOf(m, p.base, scan)) && Elsewhere(m, m', FreeOf(m, p.base, scan))
    ensures p == Scanned(was, p.base, scan) && ChangedIn(m, m', p.base, size) && m'.Keys == m.Keys
    ensures Unused(was, p, scan) <==> p.nrofFree == scan
    ensures !Unused(was, p, scan) ==> Done(was, m', p, scan, size)
    ensures forall c: nat :: InRange(p.base, size, c) && c in m' ==> c in was && (was[c] == NULL ==> m'[c] == NULL)
  {
    hide FreeOf, Linked;
    forall c: nat | InRange(p.base, scan, c)
      ensures c in m && was[c] == m[c]
    {
      assert InRange(p.base, size, c);
    }
    FreeSame(was, m, p.base, scan);
    ScannedIs(was, m', p, scan);
    forall c: nat | InRange(p.base, size, c)
      ensures c in m'
    {
      assert c in m;
    }
    assert forall c: nat :: c in FreeOf(was, p.base, scan) ==> InRange(p.base, scan, c) && InRange(p.base, size, c);
    assert forall c: nat :: InRange(p.base, size, c) && was[c] == NULL ==> c !in FreeOf(was, p.base, scan);
  }

  /** free() of a puddle's chunks. */
  function Without(m: Memory, base: nat, size: nat): (m': Memory)
    ensures forall c: nat :: c in m' <==> c in m && !InRange(base, size, c)
    ensures forall c: nat :: c in m' ==> m'[c] == m[c]
  {
    m - Chunks(base, size)
  }

  lemma WithoutSize(m: Memory, base: nat, size: nat)
    requires Allocated(m, base, size)
    ensures |Without(m, base, size)| == |m| - size
  {
    var gone := Chunks(base, size);
    ChunksSize(base, size);
    assert gone <= m.Keys;
    assert Without(m, base, size).Keys == m.Keys - gone;
  }

  lemma KeptStep(was: Memory, ps: seq<Puddle>, k: nat, scan: nat)
    requires AllAllocated(was, ps, scan) && k < |ps|
    ensures AllAllocated(was, ps[..k], scan) && AllAllocated(was, ps[..k + 1], scan) && Allocated(was, ps[k].base, scan)
    ensures Kept(was, ps[..k + 1], scan) ==
      (if Unused(was, ps[k], scan) then [] else [Scanned(was, ps[k].base, scan)]) + Kept(was, ps[..k], scan)
  {
    hide FreeOf;
    assert ps[..k + 1][..k] == ps[..k];
    var rest := Kept(was, ps[..k], scan);
    assert [] + rest == rest;
  }

  ghost function Saturated(epoch: nat, freed: nat): nat {
    if epoch + freed < UINT64_MAX then epoch + freed else if epoch < UINT64_MAX then UINT64_MAX else epoch
  }

  /** The first loop over the puddles: counts, frees and keeps them. The scan
   looks at fewer chunks than a puddle has when expanding had to round up. */
  method SweepPuddles(was: Memory, ps: seq<Puddle>, scan: nat, size: nat, epoch: nat) returns
    (m: Memory, kept: seq<Puddle>, freed: nat, epoch': nat)
    requires size > 0 && scan <= size && Apart(ps, size) && AllAllocated(was, ps, size)
    ensures Swept(was, m, ps, |ps|, scan, size) && kept == Kept(was, ps, scan)
    ensures freed + |kept| == |ps| && epoch' == Saturated(epoch, freed)
    ensures |m| + Times(size, freed) == |was|
  {
    hide Kept, Done, FreeOf, Local, Apart, Allocated;
    m, kept, freed, epoch' := was, [], 0, epoch;
    SweepBegins(was, ps, scan, size);
    var k := 0;
    while k < |ps|
      invariant 0 <= k <= |ps| && Swept(was, m, ps, k, scan, size) && AllAllocated(was, ps[..k], scan)
      invariant kept == Kept(was, ps[..k], scan)
      invariant freed + |kept| == k && epoch' == Saturated(epoch, freed)
      invariant |m| + Times(size, freed) == |was|
    {
      m, kept, freed, epoch' := SweepOne(was, m, ps, k, scan, size, kept, freed, epoch', epoch);
      k := k + 1;
    }
    assert ps[..k] == ps;
  }

  function Times(size: nat, n: nat): nat { if n == 0 then 0 else Times(size, n - 1) + size }

  lemma SweepBegins(was: Memory, ps: seq<Puddle>, scan: nat, size: nat)
    requires AllAllocated(was, ps, size) && scan <= size
    ensures AllAllocated(was, ps, scan)
    ensures Swept(was, was, ps, 0, scan, size) && AllAllocated(was, ps[..0], scan) && Kept(was, ps[..0], scan) == []
  {
    ScanAllocated(was, ps, scan, size);
    forall j | 0 <= j < |ps|
      ensures SameOn(was, was, ps[j].base, size)
    {
      assert Allocated(was, ps[j].base, size);
    }
  }

  lemma SweptHere(was: Memory, m: Memory, ps: seq<Puddle>, k: nat, scan: nat, size: nat)
    requires Swept(was, m, ps, k, scan, size) && k < |ps| && scan <= size
    ensures SameOn(was, m, ps[k].base, size) && Allocated(m, ps[k].base, size) && Allocated(was, ps[k].base, size)
    ensures Allocated(was, ps[k].base, scan) && Allocated(m, ps[k].base, scan) && AllAllocated(was, ps, scan)
  {
    assert SameOn(was, m, ps[k].base, size);
    Narrow(m, ps[k].base, scan, size);
  }

  method SweepOne(was: Memory, m: Memory, ps: seq<Puddle>, k: nat, scan: nat, size: nat, kept: seq<Puddle>, freed: nat,
                  epoch: nat, ghost epoch0: nat)
    returns (m': Memory, kept': seq<Puddle>, freed': nat, epoch': nat)
    requires size > 0 && scan <= size && Apart(ps, size) && Swept(was, m, ps, k, scan, size) && k < |ps|
    requires AllAllocated(was, ps[..k], scan) && kept == Kept(was, ps[..k], scan)
    requires freed + |kept| == k && epoch == Saturated(epoch0, freed) && |m| + Times(size, freed) == |was|
    ensures Swept(was, m', ps, k + 1, scan, size) && AllAllocated(was, ps[..k + 1], scan)
    ensures kept' == Kept(was, ps[..k + 1], scan)
    ensures freed' + |kept'| == k + 1 && epoch' == Saturated(epoch0, freed') && |m'| + Times(size, freed') == |was|
  {
    hide Kept, Done, FreeOf, Local, Apart, Allocated, Swept, SameOn, Elsewhere, AllAllocated;
    SweptHere(was, m, ps, k, scan, size);
    KeptStep(was, ps, k, scan);
    var p;
    m', p := ScanPuddle(m, ps[k].base, scan);
    ScanKept(was, m, m', p, scan, size);
    SameBase(was, m', p, ps[k], scan, size);
    if p.nrofFree == scan {
      freed', kept', epoch' := freed + 1, kept, Noted(epoch);
      FreedStep(was, m, m', p, scan, size);
      m' := Without(m', p.base, size);
      SameBase(was, m', p, ps[k], scan, size);
      assert [] + kept == kept;
    } else {
      freed', kept', epoch' := freed, [p] + kept, epoch;
    }
    SweptStep(was, m, m', ps, k, scan, size);
  }

  lemma SameBase(was: Memory, m: Memory, p: Puddle, q: Puddle, scan: nat, size: nat)
    requires Allocated(was, p.base, scan) && p.base == q.base
    ensures Unused(was, p, scan) <==> Unused(was, q, scan)
    ensures Done(was, m, p, scan, size) <==> Done(was, m, q, scan, size)
  {}

  lemma FreedStep(was: Memory, m: Memory, m': Memory, p: Puddle, scan: nat, size: nat)
    requires Allocated(was, p.base, scan) && Unused(was, p, scan) && Allocated(m, p.base, size)
    requires ChangedIn(m, m', p.base, size) && m'.Keys == m.Keys
    ensures var m'' := Without(m', p.base, size);
      && ChangedIn(m, m'', p.base, size) && Done(was, m'', p, scan, size) && |m''| + size == |m|
      && forall c: nat :: InRange(p.base, size, c) ==> c !in m''
  {
    hide FreeOf;
    WithoutSize(m', p.base, size);
    assert |m'| == |m'.Keys| == |m|;
  }
}
