/**
 What sort_linked_list() of math.c computes, as functions on sequences: deal the
 records onto two tapes, then merge ever longer blocks until one tape is empty.
 */
module MergeSort {

  /** compare(p, q) > 0: p belongs after q. */
  type Order<!T> = (T, T) -> bool

  /** A comparison some records can be sorted by: total and transitive, with
   ties allowed. */
  ghost predicate Ranks<T>(after: Order<T>, all: set<T>) {
    && (forall x, y :: x in all && y in all ==> !after(x, y) || !after(y, x))
    && (forall x, y, z :: x in all && y in all && z in all && !after(x, y) && !after(y, z) ==> !after(x, z))
  }

  ghost predicate Sorted<T>(after: Order<T>, s: seq<T>) {
    forall i, j :: 0 <= i < j < |s| ==> !after(s[i], s[j])
  }

  ghost predicate Among<T>(s: seq<T>, all: set<T>) { forall i :: 0 <= i < |s| ==> s[i] in all }

  function Take<T>(s: seq<T>, n: nat): (r: seq<T>)
    ensures |r| == if n < |s| then n else |s|
  {
    if n < |s| then s[..n] else s
  }

  function Drop<T>(s: seq<T>, n: nat): (r: seq<T>)
    ensures |r| == if n < |s| then |s| - n else 0
  {
    if n < |s| then s[n..] else []
  }

  // ---- merging two blocks --------------------------------------------------

  function Merge<T>(after: Order<T>, a: seq<T>, b: seq<T>): (r: seq<T>)
    ensures |r| == |a| + |b|
    decreases |a| + |b|
  {
    if a == [] then b
    else if b == [] || !after(a[0], b[0]) then [a[0]] + Merge(after, a[1..], b)
    else [b[0]] + Merge(after, a, b[1..])
  }

  lemma {:induction false} MergeKeeps<T>(after: Order<T>, a: seq<T>, b: seq<T>)
    ensures multiset(Merge(after, a, b)) == multiset(a) + multiset(b)
    decreases |a| + |b|
  {
    if a == [] {
      assert multiset(a) + multiset(b) == multiset(b);
    } else if b == [] || !after(a[0], b[0]) {
      MergeKeeps(after, a[1..], b);
      PrependKeeps(Merge(after, a[1..], b), a, b);
    } else {
      MergeKeeps(after, a, b[1..]);
      PrependKeeps(Merge(after, a, b[1..]), b, a);
    }
  }

  lemma PrependKeeps<T>(merged: seq<T>, a: seq<T>, b: seq<T>)
    requires a != [] && multiset(merged) == multiset(a[1..]) + multiset(b)
    ensures multiset([a[0]] + merged) == multiset(a) + multiset(b)
  {
    assert a == [a[0]] + a[1..];
  }

  /** A record below all of a and b comes first in their merge. */
  lemma HeadFirst<T>(after: Order<T>, x: T, s: seq<T>)
    requires Sorted(after, s) && forall y :: y in s ==> !after(x, y)
    ensures Sorted(after, [x] + s)
  {}

  lemma MergeMembers<T>(after: Order<T>, a: seq<T>, b: seq<T>, y: T)
    requires y in Merge(after, a, b)
    ensures y in a || y in b
  {
    MergeKeeps(after, a, b);
    assert y in multiset(Merge(after, a, b));
  }

  lemma {:induction false} MergeSorted<T>(after: Order<T>, a: seq<T>, b: seq<T>, all: set<T>)
    requires Ranks(after, all) && Among(a, all) && Among(b, all)
    requires Sorted(after, a) && Sorted(after, b)
    ensures Sorted(after, Merge(after, a, b))
    decreases |a| + |b|
  {
    if a != [] && (b == [] || !after(a[0], b[0])) {
      MergeSorted(after, a[1..], b, all);
      forall y | y in Merge(after, a[1..], b)
        ensures !after(a[0], y)
      {
        MergeMembers(after, a[1..], b, y);
      }
      HeadFirst(after, a[0], Merge(after, a[1..], b));
    } else if a != [] {
      MergeSorted(after, a, b[1..], all);
      forall y | y in Merge(after, a, b[1..])
        ensures !after(b[0], y)
      {
        MergeMembers(after, a, b[1..], y);
      }
      HeadFirst(after, b[0], Merge(after, a, b[1..]));
    }
  }

  // ---- one pass ------------------------------------------------------------

  /** Two tapes hold sorted blocks of a size, taken from them in turn starting
   with the first; only the globally last block may be short. */
  ghost predicate Alternating<T>(after: Order<T>, size: nat, a: seq<T>, b: seq<T>)
    requires size > 0
    decreases |a| + |b|
  {
    if |a| < size then Sorted(after, a) && b == []
    else Sorted(after, a[..size]) && Alternating(after, size, b, a[size..])
  }

  /** One pass merges the blocks in pairs, onto the output tapes in turn. */
  function Pass<T>(after: Order<T>, size: nat, a: seq<T>, b: seq<T>): (out: (seq<T>, seq<T>))
    requires size > 0
    ensures |out.0| + |out.1| <= |a| + |b|
    decreases |a|
  {
    if a == [] then ([], [])
    else
      var block := Merge(after, Take(a, size), Take(b, size));
      var rest := Pass(after, size, Drop(a, size), Drop(b, size));
      (block + rest.1, rest.0)
  }

  lemma FirstBlock<T>(after: Order<T>, size: nat, a: seq<T>, b: seq<T>)
    requires size > 0 && Alternating(after, size, a, b)
    ensures Sorted(after, Take(a, size)) && Alternating(after, size, b, Drop(a, size))
    ensures |a| < size ==> b == []
  {
    hide Sorted;
    if |a| == size {
      assert a[..size] == a && a[size..] == [];
    } else if |a| < size {
      Empty(after);
    }
  }

  lemma Empty<T>(after: Order<T>)
    ensures Sorted(after, [])
  {}

  /** The blocks a pass merges first are sorted, the rest still alternates, and
   only blocks that end both tapes are short. */
  lemma FirstBlocks<T>(after: Order<T>, size: nat, a: seq<T>, b: seq<T>)
    requires size > 0 && Alternating(after, size, a, b)
    ensures Sorted(after, Take(a, size)) && Sorted(after, Take(b, size))
    ensures Alternating(after, size, Drop(a, size), Drop(b, size))
    ensures |Take(a, size)| + |Take(b, size)| < size + size ==> Drop(a, size) == [] && Drop(b, size) == []
    ensures a == [] ==> b == []
    ensures b != [] ==> size <= |a|
  {
    hide Sorted, Alternating, Take;
    FirstBlock(after, size, a, b);
    FirstBlock(after, size, b, Drop(a, size));
  }

  lemma TakeDrop<T>(s: seq<T>, n: nat, all: set<T>)
    ensures s == Take(s, n) + Drop(s, n)
    ensures Among(s, all) <==> Among(Take(s, n), all) && Among(Drop(s, n), all)
  {
    if n < |s| {
      assert forall i :: n <= i < |s| ==> s[i] == s[n..][i - n];
    }
  }

  lemma PassOut<T>(after: Order<T>, size: nat, block: seq<T>, first: seq<T>, second: seq<T>)
    requires size > 0 && Sorted(after, block) && |block| <= size && Alternating(after, size, first, second)
    requires |block| < size ==> first == [] && second == []
    ensures Alternating(after, size, block + second, first)
  {
    hide Sorted;
    if |block| < size {
      assert block + second == block;
    } else {
      assert (block + second)[..size] == block && (block + second)[size..] == second;
    }
  }

  /** A pass over alternating tapes leaves alternating tapes of blocks twice as
   long, and loses no record. */
  lemma {:induction false} PassAlternates<T>(after: Order<T>, size: nat, a: seq<T>, b: seq<T>, all: set<T>)
    requires size > 0 && Ranks(after, all) && Among(a, all) && Among(b, all) && Alternating(after, size, a, b)
    ensures var (x, y) := Pass(after, size, a, b);
      && Alternating(after, size + size, x, y)
      && multiset(x) + multiset(y) == multiset(a) + multiset(b)
      && |x| + |y| == |a| + |b| && Among(x, all) && Among(y, all)
    decreases |a|
  {
    hide Sorted, Among, Ranks, Merge, Alternating;
    FirstBlocks(after, size, a, b);
    if a == [] {
      Nothing(after, size, a, b, all);
    } else {
      TakeDrop(a, size, all);
      TakeDrop(b, size, all);
      PassAlternates(after, size, Drop(a, size), Drop(b, size), all);
      PassStep(after, size, a, b, all);
    }
  }

  lemma Nothing<T>(after: Order<T>, size: nat, a: seq<T>, b: seq<T>, all: set<T>)
    requires a == [] && b == [] && size > 0
    ensures var (x, y) := Pass(after, size, a, b);
      && Alternating(after, size + size, x, y)
      && multiset(x) + multiset(y) == multiset(a) + multiset(b)
      && |x| + |y| == |a| + |b| && Among(x, all) && Among(y, all)
  {}

  lemma PassStep<T>(after: Order<T>, size: nat, a: seq<T>, b: seq<T>, all: set<T>)
    requires size > 0 && a != [] && Ranks(after, all) && Alternating(after, size, a, b)
    requires Among(Take(a, size), all) && Among(Take(b, size), all)
    requires var (x, y) := Pass(after, size, Drop(a, size), Drop(b, size));
      && Alternating(after, size + size, x, y)
      && multiset(x) + multiset(y) == multiset(Drop(a, size)) + multiset(Drop(b, size))
      && |x| + |y| == |Drop(a, size)| + |Drop(b, size)| && Among(x, all) && Among(y, all)
    ensures var (x, y) := Pass(after, size, a, b);
      && Alternating(after, size + size, x, y)
      && multiset(x) + multiset(y) == multiset(a) + multiset(b)
      && |x| + |y| == |a| + |b| && Among(x, all) && Among(y, all)
  {
    hide Sorted, Ranks, Merge, Alternating, Among;
    var A, B := Take(a, size), Take(b, size);
    var block := Merge(after, A, B);
    var rest := Pass(after, size, Drop(a, size), Drop(b, size));
    FirstBlocks(after, size, a, b);
    MergeSorted(after, A, B, all);
    MergeKeeps(after, A, B);
    PassOut(after, size + size, block, rest.0, rest.1);
    PassLast(after, a, b, size, block, rest, all);
  }

  lemma PassLast<T>(after: Order<T>, a: seq<T>, b: seq<T>, size: nat, block: seq<T>, rest: (seq<T>, seq<T>),
                    all: set<T>)
    requires multiset(block) == multiset(Take(a, size)) + multiset(Take(b, size))
    requires |block| == |Take(a, size)| + |Take(b, size)|
    requires multiset(rest.0) + multiset(rest.1) == multiset(Drop(a, size)) + multiset(Drop(b, size))
    requires |rest.0| + |rest.1| == |Drop(a, size)| + |Drop(b, size)|
    requires Among(Take(a, size), all) && Among(Take(b, size), all) && Among(rest.1, all)
    ensures multiset(block + rest.1) + multiset(rest.0) == multiset(a) + multiset(b)
    ensures |block + rest.1| + |rest.0| == |a| + |b| && Among(block + rest.1, all)
  {
    hide Among, Take, Drop;
    BlockAmong(Take(a, size), Take(b, size), block, rest.1, all);
    TakeDrop(a, size, all);
    TakeDrop(b, size, all);
    Regroup(Take(a, size), Drop(a, size), Take(b, size), Drop(b, size), block, rest.0, rest.1);
  }

  lemma BlockAmong<T>(a: seq<T>, b: seq<T>, block: seq<T>, s: seq<T>, all: set<T>)
    requires multiset(block) == multiset(a) + multiset(b) && Among(a, all) && Among(b, all) && Among(s, all)
    ensures Among(block + s, all)
  {
    forall i | 0 <= i < |block|
      ensures block[i] in all
    {
      assert block[i] in multiset(block);
    }
  }

  lemma Regroup<T>(a: seq<T>, a': seq<T>, b: seq<T>, b': seq<T>, block: seq<T>, x: seq<T>, y: seq<T>)
    requires multiset(block) == multiset(a) + multiset(b) && multiset(x) + multiset(y) == multiset(a') + multiset(b')
    ensures multiset(block + y) + multiset(x) == multiset(a + a') + multiset(b + b')
  {
    assert multiset(block + y) == multiset(block) + multiset(y);
    assert multiset(a + a') == multiset(a) + multiset(a');
    assert multiset(b + b') == multiset(b) + multiset(b');
    assert multiset(block) + multiset(y) + multiset(x) == multiset(block) + (multiset(x) + multiset(y));
  }

  // ---- all passes ----------------------------------------------------------

  /** Passes of doubling block size, until the second tape is empty, as it is
   whenever the first is short of a block. */
  function Rounds<T>(after: Order<T>, size: nat, a: seq<T>, b: seq<T>): seq<T>
    requires size > 0
    decreases |a| + |b| - size
  {
    if b == [] || |a| < size then a
    else
      var out := Pass(after, size, a, b);
      Rounds(after, size + size, out.0, out.1)
  }

  lemma {:induction false} RoundsSort<T>(after: Order<T>, size: nat, a: seq<T>, b: seq<T>, all: set<T>)
    requires size > 0 && Ranks(after, all) && Among(a, all) && Among(b, all) && Alternating(after, size, a, b)
    ensures var r := Rounds(after, size, a, b);
      Sorted(after, r) && multiset(r) == multiset(a) + multiset(b)
    decreases |a| + |b| - size
  {
    hide Sorted, Among, Ranks, Alternating;
    FirstBlocks(after, size, a, b);
    if b == [] {
      OnlyBlock(after, size, a);
      assert multiset(a) + multiset(b) == multiset(a);
    } else {
      PassAlternates(after, size, a, b, all);
      var out := Pass(after, size, a, b);
      RoundsSort(after, size + size, out.0, out.1, all);
    }
  }

  lemma OnlyBlock<T>(after: Order<T>, size: nat, a: seq<T>)
    requires size > 0 && Alternating(after, size, a, [])
    ensures Sorted(after, a)
  {
    hide Sorted;
    if |a| >= size {
      assert Alternating(after, size, [], a[size..]);
      assert a == a[..size];
    }
  }

  // ---- dealing -------------------------------------------------------------

  /** Deals records to the front of two tapes in turn. */
  function Deal<T>(s: seq<T>, a: seq<T>, b: seq<T>): (out: (seq<T>, seq<T>))
    ensures |out.0| + |out.1| == |s| + |a| + |b|
    decreases |s|
  {
    if s == [] then (a, b)
    else
      var rest := Deal(s[1..], b, [s[0]] + a);
      (rest.1, rest.0)
  }

  lemma {:induction false} DealKeeps<T>(s: seq<T>, a: seq<T>, b: seq<T>)
    requires |a| == |b| || |a| + 1 == |b|
    ensures var (x, y) := Deal(s, a, b);
      && multiset(x) + multiset(y) == multiset(s) + multiset(a) + multiset(b)
      && (if |a| == |b| then |y| <= |x| <= |y| + 1 else |x| <= |y| <= |x| + 1)
    decreases |s|
  {
    if s == [] {
      assert multiset(s) + multiset(a) + multiset(b) == multiset(a) + multiset(b);
    } else {
      DealKeeps(s[1..], b, [s[0]] + a);
      DealOne(s, a, b);
    }
  }

  lemma DealOne<T>(s: seq<T>, a: seq<T>, b: seq<T>)
    requires s != []
    ensures multiset(s[1..]) + multiset(b) + multiset([s[0]] + a) == multiset(s) + multiset(a) + multiset(b)
  {
    assert s == [s[0]] + s[1..];
  }

  lemma {:induction false} SinglesAlternate<T>(after: Order<T>, a: seq<T>, b: seq<T>)
    requires |b| <= |a| <= |b| + 1
    ensures Alternating(after, 1, a, b)
    decreases |a| + |b|
  {
    if a != [] {
      SinglesAlternate(after, b, a[1..]);
    }
  }

  // ---- the whole sort ------------------------------------------------------

  ghost function Members<T>(s: seq<T>): (all: set<T>)
    ensures Among(s, all)
  {
    set x | x in s
  }

  /** What the tapes hold before the first pass. */
  lemma Dealt<T>(after: Order<T>, s: seq<T>)
    ensures var (a, b) := Deal(s, [], []);
      && Among(a, Members(s)) && Among(b, Members(s)) && Alternating(after, 1, a, b)
      && multiset(a) + multiset(b) == multiset(s)
  {
    hide Alternating, Deal, Among;
    DealKeeps(s, [], []);
    var out := Deal(s, [], []);
    SinglesAlternate(after, out.0, out.1);
    assert multiset(s) + multiset([]) + multiset([]) == multiset(s);
    PartsAmong(out.0, out.1, s);
  }

  lemma PartsAmong<T>(x: seq<T>, y: seq<T>, s: seq<T>)
    requires multiset(x) + multiset(y) == multiset(s)
    ensures Among(x, Members(s)) && Among(y, Members(s))
  {
    forall i | 0 <= i < |x|
      ensures x[i] in s
    {
      assert x[i] in multiset(x) && x[i] in multiset(s);
    }
    forall i | 0 <= i < |y|
      ensures y[i] in s
    {
      assert y[i] in multiset(y) && y[i] in multiset(s);
    }
  }

  /** sort_linked_list() as a function of the list. */
  function SortOf<T>(after: Order<T>, s: seq<T>): seq<T> {
    var tapes := Deal(s, [], []);
    Rounds(after, 1, tapes.0, tapes.1)
  }

  /** It sorts every list, and loses and invents no record. */
  lemma SortSorts<T>(after: Order<T>, s: seq<T>)
    requires Ranks(after, Members(s))
    ensures Sorted(after, SortOf(after, s)) && multiset(SortOf(after, s)) == multiset(s)
    ensures |SortOf(after, s)| == |s|
  {
    hide Sorted, Among, Ranks, Alternating, Deal, Members;
    Dealt(after, s);
    var tapes := Deal(s, [], []);
    RoundsSort(after, 1, tapes.0, tapes.1, Members(s));
    assert |multiset(SortOf(after, s))| == |SortOf(after, s)| && |multiset(s)| == |s|;
  }
}
