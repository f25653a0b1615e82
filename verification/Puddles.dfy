/**
 Chunk memory of mempool.c: chunks linked by their 'next' field, the puddles
 they are allocated in, and what a scan of a puddle finds free.
 */
module Puddles {

  /** 'next' of every chunk there is, by address. A chunk in use links to NULL; a
   free one to the next free chunk, or to the end marker. */
  type Memory = map<nat, nat>

  const NULL: nat := 0
  const END_MARKER: nat := 1

  datatype Puddle = Puddle(base: nat, firstFree: nat, lastFree: nat, nrofFree: nat)

  predicate InRange(base: nat, size: nat, c: nat) { base <= c < base + size }

  /** A puddle's chunks. */
  function Chunks(base: nat, size: nat): (s: set<nat>)
    ensures forall c: nat :: c in s <==> InRange(base, size, c)
  {
    set c: nat | base <= c < base + size && InRange(base, size, c)
  }

  lemma {:induction false} ChunksSize(base: nat, size: nat)
    ensures |Chunks(base, size)| == size
  {
    if size == 0 {
      assert Chunks(base, size) == {};
    } else {
      ChunksSize(base, size - 1);
      assert Chunks(base, size) == Chunks(base, size - 1) + {base + size - 1};
    }
  }

  ghost predicate Allocated(m: Memory, base: nat, size: nat) {
    forall c: nat :: InRange(base, size, c) ==> c in m
  }

  /** Whether a chunk belongs to one of some puddles. */
  ghost predicate InPuddles(ps: seq<Puddle>, size: nat, c: nat) {
    exists k :: 0 <= k < |ps| && InRange(ps[k].base, size, c)
  }

  ghost predicate Apart(ps: seq<Puddle>, size: nat) {
    forall j, k :: 0 <= j < k < |ps| ==>
      ps[j].base + size <= ps[k].base || ps[k].base + size <= ps[j].base
  }

  ghost predicate NoDup(s: seq<nat>) { forall i, j :: 0 <= i < j < |s| ==> s[i] != s[j] }

  /** A list of chunks linked in order, from a head to a tail. */
  ghost predicate Linked(m: Memory, head: nat, s: seq<nat>, tail: nat) {
    && (forall i :: 0 <= i < |s| ==> s[i] in m)
    && (if s == [] then head == tail else head == s[0] && m[s[|s| - 1]] == tail)
    && forall i :: 0 <= i < |s| - 1 ==> m[s[i]] == s[i + 1]
  }

  /** The free chunks among the first n of a puddle, last first. */
  ghost function FreeOf(m: Memory, base: nat, n: nat): (s: seq<nat>)
    requires Allocated(m, base, n)
    ensures |s| <= n && NoDup(s)
    ensures forall i :: 0 <= i < |s| ==> InRange(base, n, s[i]) && m[s[i]] != NULL
    ensures forall c: nat :: InRange(base, n, c) && m[c] != NULL ==> c in s
  {
    if n == 0 then []
    else if m[base + n - 1] != NULL then [base + n - 1] + FreeOf(m, base, n - 1)
    else FreeOf(m, base, n - 1)
  }

  ghost predicate SameOn(a: Memory, b: Memory, base: nat, n: nat) {
    forall c: nat :: InRange(base, n, c) ==> c in a && c in b && a[c] == b[c]
  }

  lemma {:induction false} FreeSame(a: Memory, b: Memory, base: nat, n: nat)
    requires SameOn(a, b, base, n)
    ensures Allocated(a, base, n) && Allocated(b, base, n) && FreeOf(a, base, n) == FreeOf(b, base, n)
  {
    if n > 0 {
      assert InRange(base, n, base + n - 1);
      FreeSame(a, b, base, n - 1);
    }
  }

  /** Two memories that agree but for some chunks. */
  ghost predicate Elsewhere(a: Memory, b: Memory, s: seq<nat>) {
    a.Keys == b.Keys && forall c: nat :: c in a && c !in s ==> a[c] == b[c]
  }

  /** A puddle's free chunks as a local list. */
  ghost predicate Local(m: Memory, p: Puddle, s: seq<nat>) {
    && p.nrofFree == |s|
    && (if s == [] then p.firstFree == p.lastFree == NULL
        else Linked(m, p.firstFree, s, NULL) && p.lastFree == s[|s| - 1])
  }

  method PushLocal(m: Memory, p: Puddle, chunk: nat, ghost was: Memory, ghost s: seq<nat>)
    returns (m': Memory, p': Puddle)
    requires chunk in m && chunk !in s && Local(m, p, s) && Elsewhere(was, m, s)
    ensures p'.base == p.base && Local(m', p', [chunk] + s) && Elsewhere(was, m', [chunk] + s)
  {
    if p.nrofFree == 0 {
      m' := m[chunk := NULL];
      p' := Puddle(p.base, chunk, chunk, 1);
    } else {
      m' := m[chunk := p.firstFree];
      p' := Puddle(p.base, chunk, p.lastFree, p.nrofFree + 1);
    }
    assert forall i :: 0 <= i < |s| ==> s[i] != chunk;
    assert m'.Keys == m.Keys;
  }

  lemma FreeStep(m: Memory, m': Memory, base: nat, size: nat, j: nat)
    requires Allocated(m, base, size) && j <= size
    ensures Allocated(m, base, j)
    ensures Elsewhere(m, m', FreeOf(m, base, j)) && j < size ==>
      Allocated(m, base, j + 1) && base + j in m' && base + j !in FreeOf(m, base, j) && m'[base + j] == m[base + j]
    ensures j < size ==>
      Allocated(m, base, j + 1) && base + j in m
      && FreeOf(m, base, j + 1) == (if m[base + j] != NULL then [base + j] else []) + FreeOf(m, base, j)
  {
    assert InRange(base, size, base + j) || j == size;
  }

  /** Counts a puddle's free chunks and links them into a local list. */
  method ScanPuddle(m: Memory, base: nat, size: nat) returns (m': Memory, p: Puddle)
    requires Allocated(m, base, size)
    ensures p.base == base && Local(m', p, FreeOf(m, base, size)) && Elsewhere(m, m', FreeOf(m, base, size))
  {
    hide FreeOf, Local, Elsewhere, Allocated;
    m', p := m, Puddle(base, NULL, NULL, 0);
    var j := 0;
    FreeStep(m, m', base, size, 0);
    NothingFree(m, p);
    while j < size
      invariant 0 <= j <= size && Allocated(m, base, j)
      invariant p.base == base && Local(m', p, FreeOf(m, base, j)) && Elsewhere(m, m', FreeOf(m, base, j))
    {
      var chunk := base + j;
      FreeStep(m, m', base, size, j);
      if m'[chunk] != NULL {
        m', p := PushLocal(m', p, chunk, m, FreeOf(m, base, j));
      } else {
        assert [] + FreeOf(m, base, j) == FreeOf(m, base, j);
      }
      j := j + 1;
      FreeStep(m, m', base, size, j);
    }
  }

  lemma NothingFree(m: Memory, p: Puddle)
    requires p == Puddle(p.base, NULL, NULL, 0)
    ensures FreeOf(m, p.base, 0) == [] && Local(m, p, []) && Elsewhere(m, m, [])
  {}

  // ---- lists without repetition --------------------------------------------

  lemma {:induction false} OnceEach(s: seq<nat>, x: nat)
    requires NoDup(s)
    ensures multiset(s)[x] == if x in s then 1 else 0
  {
    if s != [] {
      var n := |s| - 1;
      assert s == s[..n] + [s[n]];
      assert s[n] !in s[..n];
      OnceEach(s[..n], x);
      assert multiset(s) == multiset(s[..n]) + multiset([s[n]]);
    }
  }

  /** Lists of the same elements, none repeated, are as long as each other. */
  lemma SameLength(s: seq<nat>, t: seq<nat>)
    requires NoDup(s) && NoDup(t) && forall x :: x in s <==> x in t
    ensures multiset(s) == multiset(t) && |s| == |t|
  {
    forall x: nat
      ensures multiset(s)[x] == multiset(t)[x]
    {
      OnceEach(s, x);
      OnceEach(t, x);
    }
    assert multiset(s) == multiset(t);
    assert |multiset(s)| == |s| && |multiset(t)| == |t|;
  }

  // ---- the free chunks of some puddles -------------------------------------

  ghost predicate AllAllocated(m: Memory, ps: seq<Puddle>, size: nat) {
    forall k :: 0 <= k < |ps| ==> Allocated(m, ps[k].base, size)
  }

  ghost function FreeIn(m: Memory, ps: seq<Puddle>, size: nat): (s: seq<nat>)
    requires AllAllocated(m, ps, size)
  {
    if ps == [] then [] else FreeOf(m, ps[0].base, size) + FreeIn(m, ps[1..], size)
  }

  /** They are exactly the chunks of the puddles that do not link to NULL. */
  lemma {:induction false} FreeInMembers(m: Memory, ps: seq<Puddle>, size: nat, c: nat)
    requires AllAllocated(m, ps, size)
    ensures c in FreeIn(m, ps, size) <==> InPuddles(ps, size, c) && c in m && m[c] != NULL
  {
    if ps != [] {
      FreeInMembers(m, ps[1..], size, c);
      InPuddlesCons(ps, size, c);
      assert Allocated(m, ps[0].base, size);
    }
  }

  lemma InPuddlesCons(ps: seq<Puddle>, size: nat, c: nat)
    requires ps != []
    ensures InPuddles(ps, size, c) <==> InRange(ps[0].base, size, c) || InPuddles(ps[1..], size, c)
  {
    if k :| 0 <= k < |ps| && InRange(ps[k].base, size, c) {
      if k > 0 {
        assert ps[1..][k - 1] == ps[k];
      }
    }
    if k :| 0 <= k < |ps[1..]| && InRange(ps[1..][k].base, size, c) {
      assert ps[k + 1] == ps[1..][k];
    }
  }

  lemma {:induction false} FreeInDistinct(m: Memory, ps: seq<Puddle>, size: nat)
    requires AllAllocated(m, ps, size) && Apart(ps, size)
    ensures NoDup(FreeIn(m, ps, size))
  {
    if ps != [] {
      FreeInDistinct(m, ps[1..], size);
      var a, b := FreeOf(m, ps[0].base, size), FreeIn(m, ps[1..], size);
      forall x | x in a
        ensures x !in b
      {
        FreeInMembers(m, ps[1..], size, x);
        HeadApart(ps, size, x);
      }
    }
  }

  lemma HeadApart(ps: seq<Puddle>, size: nat, c: nat)
    requires ps != [] && Apart(ps, size) && InRange(ps[0].base, size, c)
    ensures !InPuddles(ps[1..], size, c)
  {
    forall k | 0 <= k < |ps[1..]|
      ensures !InRange(ps[1..][k].base, size, c)
    {
      assert ps[1..][k] == ps[k + 1];
    }
  }
}
