/**
 The second half of mempool_free_puddles(): the kept puddles in order of their
 free chunks, and the free list made of theirs.
 */
module Reclaim {
  import opened Puddles
  import opened Sweep

  // ---- joining local lists -------------------------------------------------

  ghost function Joined(m: Memory, a: seq<nat>, b: seq<nat>): Memory
    requires b != []
  {
    (if a == [] then m else m[a[|a| - 1] := b[0]])[b[|b| - 1] := END_MARKER]
  }

  lemma JoinLinks(m: Memory, head: nat, a: seq<nat>, b: seq<nat>)
    requires Linked(m, head, a, END_MARKER) && b != [] && Linked(m, b[0], b, NULL) && NoDup(a + b)
    ensures Linked(Joined(m, a, b), if a == [] then b[0] else head, a + b, END_MARKER)
    ensures Elsewhere(m, Joined(m, a, b), a + b)
  {
    var m', s := Joined(m, a, b), a + b;
    assert m'.Keys == m.Keys;
    assert s[|s| - 1] == b[|b| - 1];
    if a != [] {
      assert s[|a| - 1] == a[|a| - 1] && s[|a|] == b[0];
    }
    forall i | 0 <= i < |s| - 1
      ensures m'[s[i]] == s[i + 1]
    {
      assert s[i] != s[|s| - 1];
      if i < |a| - 1 {
        assert s[i] == a[i] && s[i + 1] == a[i + 1] && s[i] != s[|a| - 1];
      } else if i >= |a| {
        assert s[i] == b[i - |a|] && s[i + 1] == b[i + 1 - |a|];
        assert a != [] ==> s[i] != s[|a| - 1];
      }
    }
  }

  lemma {:induction false} FreeInSnoc(m: Memory, ps: seq<Puddle>, size: nat)
    requires AllAllocated(m, ps, size) && ps != []
    ensures AllAllocated(m, ps[..|ps| - 1], size) && Allocated(m, ps[|ps| - 1].base, size)
    ensures FreeIn(m, ps, size) == FreeIn(m, ps[..|ps| - 1], size) + FreeOf(m, ps[|ps| - 1].base, size)
  {
    var n := |ps| - 1;
    hide FreeOf;
    if n == 0 {
      assert FreeIn(m, ps[1..], size) == [] == FreeIn(m, ps[..0], size);
      var s := FreeOf(m, ps[0].base, size);
      assert s + [] == s == [] + s;
    } else {
      FreeInSnoc(m, ps[1..], size);
      assert ps[1..][..n - 1] == ps[..n][1..];
    }
  }

  lemma LocalElsewhere(m: Memory, m': Memory, p: Puddle, s: seq<nat>, changed: seq<nat>)
    requires Local(m, p, s) && Elsewhere(m, m', changed) && forall c: nat :: c in s ==> c !in changed
    ensures Local(m', p, s)
  {}

  /** What relinking starts from: puddles whose free chunks form local lists. */
  ghost predicate Ready(was: Memory, m: Memory, ps: seq<Puddle>, size: nat) {
    && Apart(ps, size) && AllAllocated(was, ps, size)
    && (forall c: nat :: c in m ==> c > END_MARKER)
    && forall k :: 0 <= k < |ps| ==> Local(m, ps[k], FreeOf(was, ps[k].base, size))
  }

  lemma ReadyStep(was: Memory, m: Memory, m': Memory, ps: seq<Puddle>, t: nat, size: nat)
    requires Ready(was, m, ps, size) && t < |ps|
    ensures AllAllocated(was, ps[..t], size) && AllAllocated(was, ps[..t + 1], size) && Allocated(was, ps[t].base, size)
    ensures var acc, s := FreeIn(was, ps[..t], size), FreeOf(was, ps[t].base, size);
      && FreeIn(was, ps[..t + 1], size) == acc + s && NoDup(acc + s)
      && (Elsewhere(m, m', acc) ==> Local(m', ps[t], s))
      && (ps[t].nrofFree == 0 <==> s == [])
  {
    hide FreeOf, Linked, Elsewhere, Local, NoDup, FreeIn;
    FreeSplit(was, ps, t, size);
    var acc, s := FreeIn(was, ps[..t], size), FreeOf(was, ps[t].base, size);
    NoDupApart(acc, s);
    if Elsewhere(m, m', acc) {
      LocalElsewhere(m, m', ps[t], s, acc);
    }
    LocalCount(m, ps[t], s);
  }

  lemma LocalCount(m: Memory, p: Puddle, s: seq<nat>)
    requires Local(m, p, s)
    ensures p.nrofFree == 0 <==> s == []
  {}

  lemma FreeSplit(was: Memory, ps: seq<Puddle>, t: nat, size: nat)
    requires Apart(ps, size) && AllAllocated(was, ps, size) && t < |ps|
    ensures AllAllocated(was, ps[..t], size) && AllAllocated(was, ps[..t + 1], size) && Allocated(was, ps[t].base, size)
    ensures var acc, s := FreeIn(was, ps[..t], size), FreeOf(was, ps[t].base, size);
      FreeIn(was, ps[..t + 1], size) == acc + s && NoDup(acc + s)
  {
    hide FreeOf, Allocated, NoDup, FreeIn;
    var next := ps[..t + 1];
    assert next[..t] == ps[..t];
    FreeInSnoc(was, next, size);
    FreeInDistinct(was, next, size);
  }

  lemma NoDupApart(a: seq<nat>, b: seq<nat>)
    requires NoDup(a + b)
    ensures forall c: nat :: c in b ==> c !in a
  {
    forall i, j | 0 <= i < |a| && 0 <= j < |b|
      ensures a[i] != b[j]
    {
      assert (a + b)[i] == a[i] && (a + b)[|a| + j] == b[j];
    }
  }

  /** One puddle's free chunks joined to the free list. */
  method RelinkOne(m: Memory, head: nat, last: nat, p: Puddle,
                   ghost was: Memory, ghost acc: seq<nat>, ghost s: seq<nat>)
    returns (m': Memory, head': nat, last': nat)
    requires Linked(m, head, acc, END_MARKER) && (acc != [] ==> last == acc[|acc| - 1]) && NoDup(acc + s)
    requires (forall c: nat :: c in m ==> c > END_MARKER) && Elsewhere(was, m, acc) && Local(m, p, s)
    ensures Linked(m', head', acc + s, END_MARKER) && (acc + s != [] ==> last' == (acc + s)[|acc + s| - 1])
    ensures (forall c: nat :: c in m' ==> c > END_MARKER) && Elsewhere(was, m', acc + s)
  {
    m', head', last' := m, head, last;
    if p.nrofFree > 0 {
      JoinLinks(m, head, acc, s);
      if head == END_MARKER {
        head' := p.firstFree;
      } else {
        m' := m'[last := p.firstFree];
      }
      m' := m'[p.lastFree := END_MARKER];
      last' := p.lastFree;
      JoinElsewhere(was, m, m', acc, s);
    } else {
      assert acc + s == acc;
    }
  }

  lemma JoinElsewhere(was: Memory, m: Memory, m': Memory, acc: seq<nat>, s: seq<nat>)
    requires Elsewhere(was, m, acc) && Elsewhere(m, m', acc + s)
    ensures Elsewhere(was, m', acc + s)
  {}

  /** The last loop: the free list from the sorted puddles' local lists. */
  method Relink(m: Memory, ps: seq<Puddle>, ghost was: Memory, size: nat) returns (m': Memory, head: nat)
    requires Ready(was, m, ps, size)
    ensures AllAllocated(was, ps, size)
    ensures Linked(m', head, FreeIn(was, ps, size), END_MARKER) && Elsewhere(m, m', FreeIn(was, ps, size))
  {
    hide FreeOf, FreeIn, Local, Elsewhere, NoDup, Linked, Ready, Allocated;
    var last := END_MARKER;
    m', head := m, END_MARKER;
    RelinkBegins(was, m, ps, size);
    var t := 0;
    ghost var acc: seq<nat> := [];
    while t < |ps|
      invariant 0 <= t <= |ps| && AllAllocated(was, ps[..t], size) && acc == FreeIn(was, ps[..t], size)
      invariant Linked(m', head, acc, END_MARKER) && (acc != [] ==> last == acc[|acc| - 1])
      invariant (forall c: nat :: c in m' ==> c > END_MARKER) && Elsewhere(m, m', acc)
    {
      ReadyStep(was, m, m', ps, t, size);
      ghost var s := FreeOf(was, ps[t].base, size);
      m', head, last := RelinkOne(m', head, last, ps[t], m, acc, s);
      acc := acc + s;
      t := t + 1;
    }
    assert ps[..t] == ps;
  }

  lemma RelinkBegins(was: Memory, m: Memory, ps: seq<Puddle>, size: nat)
    requires Ready(was, m, ps, size)
    ensures AllAllocated(was, ps, size) && AllAllocated(was, ps[..0], size) && FreeIn(was, ps[..0], size) == []
    ensures Linked(m, END_MARKER, [], END_MARKER) && Elsewhere(m, m, []) && forall c: nat :: c in m ==> c > END_MARKER
  {}

  // ---- the puddles that are kept -------------------------------------------

  lemma NothingKept(m: Memory, size: nat)
    ensures Kept(m, [], size) == []
  {}

  lemma {:induction false} KeptFrom(m: Memory, ps: seq<Puddle>, size: nat, k: nat) returns (j: nat)
    requires AllAllocated(m, ps, size) && k < |Kept(m, ps, size)|
    ensures j < |ps| && Allocated(m, ps[j].base, size) && !Unused(m, ps[j], size)
    ensures Kept(m, ps, size)[k] == Scanned(m, ps[j].base, size)
    decreases |ps|
  {
    hide Kept, Unused, Scanned, Allocated;
    NothingKept(m, size);
    var n := |ps| - 1;
    KeptStep(m, ps, n, size);
    assert ps[..n + 1] == ps;
    if !Unused(m, ps[n], size) && k == 0 {
      j := n;
    } else {
      j := KeptFrom(m, ps[..n], size, if Unused(m, ps[n], size) then k else k - 1);
      assert ps[..n][j] == ps[j];
    }
  }

  lemma {:induction false} KeptHas(m: Memory, ps: seq<Puddle>, size: nat, j: nat) returns (k: nat)
    requires AllAllocated(m, ps, size) && j < |ps| && Allocated(m, ps[j].base, size) && !Unused(m, ps[j], size)
    ensures k < |Kept(m, ps, size)| && Kept(m, ps, size)[k] == Scanned(m, ps[j].base, size)
    decreases |ps|
  {
    hide FreeOf, Kept, Unused, Scanned;
    var n := |ps| - 1;
    KeptStep(m, ps, n, size);
    assert ps[..n + 1] == ps;
    if j == n {
      k := 0;
    } else {
      assert ps[..n][j] == ps[j];
      k := KeptHas(m, ps[..n], size, j);
      k := if Unused(m, ps[n], size) then k else k + 1;
    }
  }

  lemma ApartCons(p: Puddle, rest: seq<Puddle>, size: nat)
    requires Apart(rest, size)
    requires forall k :: 0 <= k < |rest| ==> rest[k].base + size <= p.base || p.base + size <= rest[k].base
    ensures Apart([p] + rest, size)
  {
    var s := [p] + rest;
    forall j, k | 0 <= j < k < |s|
      ensures s[j].base + size <= s[k].base || s[k].base + size <= s[j].base
    {
      assert s[k] == rest[k - 1] && (j > 0 ==> s[j] == rest[j - 1]);
    }
  }

  lemma ApartTake(ps: seq<Puddle>, size: nat, n: nat)
    requires Apart(ps, size) && n <= |ps|
    ensures Apart(ps[..n], size)
  {}

  lemma ScannedBase(m: Memory, base: nat, size: nat)
    requires Allocated(m, base, size)
    ensures Scanned(m, base, size).base == base
  {}

  lemma KeptAllocated(m: Memory, ps: seq<Puddle>, size: nat)
    requires AllAllocated(m, ps, size)
    ensures AllAllocated(m, Kept(m, ps, size), size)
  {
    hide Kept, Unused, Scanned, Allocated;
    var kept := Kept(m, ps, size);
    forall k | 0 <= k < |kept|
      ensures Allocated(m, kept[k].base, size)
    {
      var j := KeptFrom(m, ps, size, k);
      ScannedBase(m, ps[j].base, size);
    }
  }

  lemma {:induction false} KeptApart(m: Memory, ps: seq<Puddle>, size: nat)
    requires AllAllocated(m, ps, size) && Apart(ps, size)
    ensures Apart(Kept(m, ps, size), size) && AllAllocated(m, Kept(m, ps, size), size)
    decreases |ps|
  {
    hide Kept, Unused, Scanned, Allocated;
    KeptAllocated(m, ps, size);
    NothingKept(m, size);
    if ps != [] {
      var n := |ps| - 1;
      KeptStep(m, ps, n, size);
      assert ps[..n + 1] == ps;
      ApartTake(ps, size, n);
      KeptApart(m, ps[..n], size);
      var rest := Kept(m, ps[..n], size);
      assert [] + rest == rest;
      ScannedBase(m, ps[n].base, size);
      forall k | 0 <= k < |rest|
        ensures rest[k].base + size <= ps[n].base || ps[n].base + size <= rest[k].base
      {
        var j := KeptFrom(m, ps[..n], size, k);
        assert ps[..n][j] == ps[j];
        ScannedBase(m, ps[j].base, size);
      }
      ApartCons(Scanned(m, ps[n].base, size), rest, size);
    }
  }

  /** The chunks of the kept puddles are those of the puddles in use. */
  lemma KeptChunks(m: Memory, ps: seq<Puddle>, size: nat, c: nat)
    requires AllAllocated(m, ps, size)
    ensures InPuddles(Kept(m, ps, size), size, c) <==>
      exists j :: 0 <= j < |ps| && InRange(ps[j].base, size, c)
                  && Allocated(m, ps[j].base, size) && !Unused(m, ps[j], size)
  {
    hide Kept, Unused, FreeOf;
    var kept := Kept(m, ps, size);
    if k :| 0 <= k < |kept| && InRange(kept[k].base, size, c) {
      var j := KeptFrom(m, ps, size, k);
      assert InRange(ps[j].base, size, c);
    }
    if j :| 0 <= j < |ps| && InRange(ps[j].base, size, c) && Allocated(m, ps[j].base, size) && !Unused(m, ps[j], size) {
      var k := KeptHas(m, ps, size, j);
      assert InRange(kept[k].base, size, c);
    }
  }

  /** Keeping drops exactly the free chunks of the freed puddles. */
  lemma {:induction false} KeptCounts(m: Memory, ps: seq<Puddle>, size: nat)
    requires AllAllocated(m, ps, size) && AllAllocated(m, Kept(m, ps, size), size)
    ensures |Kept(m, ps, size)| <= |ps|
    ensures |FreeIn(m, ps, size)| == |FreeIn(m, Kept(m, ps, size), size)| + Times(size, |ps| - |Kept(m, ps, size)|)
    decreases |ps|
  {
    hide FreeOf, FreeIn, Kept, AllAllocated, Scanned, Allocated, Times;
    if ps == [] {
      KeptEmpty(m, ps, size);
    } else {
      var n := |ps| - 1;
      FreeInSnoc(m, ps, size);
      var rest := Kept(m, ps[..n], size);
      KeptTail(m, ps, size);
      KeptStep(m, ps, n, size);
      assert ps[..n + 1] == ps && [] + rest == rest;
      KeptCounts(m, ps[..n], size);
      TimesStep(size, n - |rest|);
    }
  }

  lemma TimesStep(size: nat, n: nat)
    ensures Times(size, n + 1) == Times(size, n) + size
  {}

  lemma KeptEmpty(m: Memory, ps: seq<Puddle>, size: nat)
    requires ps == [] && AllAllocated(m, ps, size)
    ensures Kept(m, ps, size) == [] && FreeIn(m, ps, size) == [] && Times(size, 0) == 0
  {}

  lemma KeptTail(m: Memory, ps: seq<Puddle>, size: nat)
    requires AllAllocated(m, ps, size) && AllAllocated(m, Kept(m, ps, size), size) && ps != []
    ensures var n := |ps| - 1;
      var rest := Kept(m, ps[..n], size);
      && AllAllocated(m, rest, size)
      && (!Unused(m, ps[n], size) ==>
           FreeIn(m, Kept(m, ps, size), size) == FreeOf(m, ps[n].base, size) + FreeIn(m, rest, size))
  {
    hide FreeOf;
    var n := |ps| - 1;
    var rest := Kept(m, ps[..n], size);
    var kept := Kept(m, ps, size);
    forall k | 0 <= k < |rest|
      ensures Allocated(m, rest[k].base, size)
    {
      var j := KeptFrom(m, ps[..n], size, k);
    }
    if !Unused(m, ps[n], size) {
      assert kept[1..] == rest;
    }
  }

  // ---- sorting them --------------------------------------------------------

  /** sort_puddle_by_nrof_free() > 0 */
  predicate ByFree(a: Puddle, b: Puddle) { a.nrofFree > b.nrofFree }

  lemma PermutedMember(a: seq<Puddle>, b: seq<Puddle>, k: nat) returns (j: nat)
    requires multiset(a) == multiset(b) && k < |a|
    ensures j < |b| && b[j] == a[k]
  {
    assert a[k] in multiset(b);
    j :| 0 <= j < |b| && b[j] == a[k];
  }

  lemma PermutedChunks(a: seq<Puddle>, b: seq<Puddle>, size: nat, c: nat)
    requires multiset(a) == multiset(b) && InPuddles(a, size, c)
    ensures InPuddles(b, size, c)
  {
    var k :| 0 <= k < |a| && InRange(a[k].base, size, c);
    var j := PermutedMember(a, b, k);
    assert InRange(b[j].base, size, c);
  }

  /** A puddle that occurs twice does so at two places. */
  lemma {:induction false} TwicePlaces(s: seq<Puddle>, p: Puddle) returns (i: nat, j: nat)
    requires multiset(s)[p] >= 2
    ensures i < j < |s| && s[i] == p && s[j] == p
  {
    var n := |s| - 1;
    assert s == s[..n] + [s[n]];
    assert multiset(s) == multiset(s[..n]) + multiset([s[n]]);
    if s[n] == p {
      assert p in multiset(s[..n]);
      i :| 0 <= i < n && s[..n][i] == p;
      j := n;
    } else {
      i, j := TwicePlaces(s[..n], p);
    }
  }

  lemma TwoPlaces(s: seq<Puddle>, i: nat, j: nat)
    requires i < j < |s| && s[i] == s[j]
    ensures multiset(s)[s[i]] >= 2
  {
    assert s == s[..j] + [s[j]] + s[j + 1..];
    assert multiset(s) == multiset(s[..j]) + multiset([s[j]]) + multiset(s[j + 1..]);
    assert s[i] == s[..j][i];
  }

  lemma PermutedApart(a: seq<Puddle>, b: seq<Puddle>, size: nat)
    requires multiset(a) == multiset(b) && Apart(a, size) && size > 0
    ensures Apart(b, size)
  {
    forall j, k | 0 <= j < k < |b|
      ensures b[j].base + size <= b[k].base || b[k].base + size <= b[j].base
    {
      if b[j] == b[k] {
        TwoPlaces(b, j, k);
        var i, i' := TwicePlaces(a, b[j]);
        assert false;
      } else {
        var i := PermutedMember(b, a, j);
        var i' := PermutedMember(b, a, k);
      }
    }
  }
}
