/**
 sort_linked_list() of math.c, relinking records in place. The four tapes are
 the pair being read and the pair being written.
 */
module LinkedSort {
  import opened MergeSort

  class Record {
    var next: Record?
  }

  type Records = seq<Record>

  datatype Tape = Tape(first: Record?, last: Record?, count: nat)

  ghost predicate Chained(s: Records)
    reads s
  {
    forall i :: 0 <= i < |s| - 1 ==> s[i].next == s[i + 1]
  }

  /** A tape that holds some records in order; what the last one links to does
   not matter, as the count tells where the tape ends. */
  ghost predicate Holds(t: Tape, s: Records)
    reads s
  {
    t.count == |s| && (s != [] ==> t.first == s[0]) && Chained(s)
  }

  ghost predicate EndsAt(t: Tape, s: Records) {
    s != [] ==> t.last == s[|s| - 1]
  }

  /** A list from p up to an end marker. */
  ghost predicate IsList(p: Record?, s: Records, end: Record?)
    reads s
  {
    && Chained(s) && end !in s
    && (if s == [] then p == end else p == s[0] && s[|s| - 1].next == end)
  }

  /** No record twice, on one tape or on two. */
  ghost predicate Once(all: multiset<Record>) { forall r :: r in all ==> all[r] == 1 }

  ghost function All(a: Records, b: Records, x: Records, y: Records): multiset<Record> {
    multiset(a) + multiset(b) + multiset(x) + multiset(y)
  }

  lemma Separate(a: Records, b: Records, x: Records, y: Records, r: Record)
    requires Once(All(a, b, x, y))
    ensures r in a ==> r !in b && r !in x && r !in y
    ensures r in b ==> r !in x && r !in y
    ensures r in x ==> r !in y
  {
    assert All(a, b, x, y)[r] == multiset(a)[r] + multiset(b)[r] + multiset(x)[r] + multiset(y)[r];
    assert r in a <==> r in multiset(a);
    assert r in b <==> r in multiset(b);
    assert r in x <==> r in multiset(x);
    assert r in y <==> r in multiset(y);
  }

  lemma LastOnce(a: Records, b: Records, x: Records, y: Records)
    requires Once(All(a, b, x, y)) && x != []
    ensures x[|x| - 1] !in x[..|x| - 1]
  {
    var r := x[|x| - 1];
    assert x == x[..|x| - 1] + [r];
    assert All(a, b, x, y)[r] == multiset(a)[r] + multiset(b)[r] + multiset(x)[r] + multiset(y)[r];
    assert multiset(x) == multiset(x[..|x| - 1]) + multiset{r};
    assert r in x[..|x| - 1] <==> r in multiset(x[..|x| - 1]);
  }

  // ---- one record ----------------------------------------------------------

  /** Moves the first record of one tape to the end of another. */
  method Move(input: Tape, output: Tape, ghost s: Records, ghost o: Records) returns (input': Tape, output': Tape)
    requires Holds(input, s) && s != [] && Holds(output, o) && EndsAt(output, o)
    requires forall r :: r in o ==> r !in s
    requires o != [] ==> o[|o| - 1] !in o[..|o| - 1]
    modifies if output.count == 0 then {} else {output.last}
    ensures Holds(input', s[1..])
    ensures Holds(output', o + [s[0]]) && EndsAt(output', o + [s[0]])
  {
    var chosen := input.first;
    assert |s| > 1 ==> s[0].next == s[1];
    input' := input.(first := chosen.next, count := input.count - 1);
    if output.count == 0 {
      output' := Tape(chosen, chosen, 1);
    } else {
      assert output.last == o[|o| - 1] && output.last in o;
      output.last.next := chosen;
      output' := output.(last := chosen, count := output.count + 1);
      assert forall i :: 0 <= i < |o| - 1 ==> o[i] in o[..|o| - 1];
    }
  }

  // ---- one block -----------------------------------------------------------

  lemma StepFirst(after: Order<Record>, a: Records, n0: nat, b: Records, n1: nat)
    requires n0 > 0 && a != [] && (n1 == 0 || b == [] || !after(a[0], b[0]))
    ensures Merge(after, Take(a, n0), Take(b, n1)) == [a[0]] + Merge(after, Take(a[1..], n0 - 1), Take(b, n1))
    ensures Drop(a, n0) == Drop(a[1..], n0 - 1)
  {
    assert Take(a, n0)[1..] == Take(a[1..], n0 - 1);
    assert Take(a, n0)[0] == a[0];
  }

  lemma StepSecond(after: Order<Record>, a: Records, n0: nat, b: Records, n1: nat)
    requires n1 > 0 && b != [] && (n0 == 0 || a == [] || after(a[0], b[0]))
    ensures Merge(after, Take(a, n0), Take(b, n1)) == [b[0]] + Merge(after, Take(a, n0), Take(b[1..], n1 - 1))
    ensures Drop(b, n1) == Drop(b[1..], n1 - 1)
  {
    assert Take(b, n1)[1..] == Take(b[1..], n1 - 1);
    assert Take(b, n1)[0] == b[0];
  }

  lemma BlockDone(after: Order<Record>, a: Records, n0: nat, b: Records, n1: nat)
    requires (n0 == 0 || a == []) && (n1 == 0 || b == [])
    ensures Merge(after, Take(a, n0), Take(b, n1)) == []
    ensures Drop(a, n0) == a && Drop(b, n1) == b
  {}

  ghost predicate Merging(t0: Tape, t1: Tape, out: Tape, a: Records, b: Records, o: Records, y: Records)
    reads a, b, o
  {
    Once(All(a, b, o, y)) && Holds(t0, a) && Holds(t1, b) && Holds(out, o) && EndsAt(out, o)
  }

  lemma MovedOnce(a: Records, b: Records, o: Records, y: Records)
    requires Once(All(a, b, o, y)) && a != []
    ensures All(a[1..], b, o + [a[0]], y) == All(a, b, o, y) == All(b, a[1..], o + [a[0]], y)
  {
    assert a == [a[0]] + a[1..];
  }

  /** Moves the first record of the first of two tapes. */
  method Choose(t0: Tape, t1: Tape, out: Tape, ghost a: Records, ghost b: Records, ghost o: Records, ghost y: Records)
    returns (t0': Tape, out': Tape)
    requires a != [] && Merging(t0, t1, out, a, b, o, y)
    modifies if out.count == 0 then {} else {out.last}
    ensures Merging(t0', t1, out', a[1..], b, o + [a[0]], y)
    ensures All(a[1..], b, o + [a[0]], y) == All(a, b, o, y)
  {
    hide Chained;
    forall r | r in o
      ensures r !in a && r !in b
    {
      Separate(a, b, o, y, r);
    }
    if o != [] {
      LastOnce(a, b, o, y);
      assert out.last in o && out.last !in b;
    }
    MovedOnce(a, b, o, y);
    t0', out' := Move(t0, out, a, o);
    assert Holds(t1, b);
  }

  /** The tape the next record comes from, if any does. */
  method Pick(after: Order<Record>, n0: nat, n1: nat, t0: Tape, t1: Tape, ghost a: Records, ghost b: Records)
    returns (stop: bool, second: bool)
    requires Holds(t0, a) && Holds(t1, b)
    ensures stop <==> (n0 == 0 || a == []) && (n1 == 0 || b == [])
    ensures !stop && second ==> n1 > 0 && b != [] && (n0 == 0 || a == [] || after(a[0], b[0]))
    ensures !stop && !second ==> n0 > 0 && a != [] && (n1 == 0 || b == [] || !after(a[0], b[0]))
  {
    if n0 == 0 || t0.count == 0 {
      if n1 == 0 || t1.count == 0 {
        return true, false;
      }
      return false, true;
    } else if n1 == 0 || t1.count == 0 {
      return false, false;
    }
    return false, after(t0.first, t1.first);
  }

  lemma Swapped(t0: Tape, t1: Tape, out: Tape, a: Records, b: Records, o: Records, y: Records)
    ensures All(a, b, o, y) == All(b, a, o, y)
    ensures Merging(t0, t1, out, a, b, o, y) <==> Merging(t1, t0, out, b, a, o, y)
  {
    hide Holds, Once;
    assert All(a, b, o, y) == All(b, a, o, y);
  }

  /** What is left to merge of a block, after what was merged already. */
  ghost function Outlook(after: Order<Record>, a: Records, n0: nat, b: Records, n1: nat, done: Records): Records {
    done + Merge(after, Take(a, n0), Take(b, n1))
  }

  lemma Onward(done: Records, r: Record, rest: Records)
    ensures done + ([r] + rest) == done + [r] + rest
  {}

  /** What is on the tapes of a block came from where it began. */
  ghost predicate Known(s0: Records, s1: Records, done: Records, all: set<Record>) {
    (forall r :: r in s0 ==> r in all) && (forall r :: r in s1 ==> r in all) && (forall r :: r in done ==> r in all)
  }

  lemma KnownStep(s0: Records, s1: Records, done: Records, all: set<Record>)
    requires Known(s0, s1, done, all)
    ensures s0 != [] ==> Known(s0[1..], s1, done + [s0[0]], all)
    ensures s1 != [] ==> Known(s0, s1[1..], done + [s1[0]], all)
  {}

  lemma Start(a: Records, b: Records, o: Records, all: set<Record>)
    requires all == set r | r in a + b + o
    ensures Known(a, b, o, all)
  {}

  lemma Tapes(t0: Tape, t1: Tape, out: Tape, s0: Records, s1: Records, done: Records, y: Records, all: set<Record>)
    requires Merging(t0, t1, out, s0, s1, done, y) && Known(s0, s1, done, all)
    ensures Holds(t0, s0) && Holds(t1, s1) && (out.count != 0 ==> out.last in all)
  {
    if done != [] {
      assert done[|done| - 1] in done;
    }
  }

  /** Merges one block of each input tape onto the end of an output tape. */
  method MergeBlock(after: Order<Record>, size: nat, t0: Tape, t1: Tape, out: Tape,
                    ghost a: Records, ghost b: Records, ghost o: Records, ghost y: Records)
    returns (t0': Tape, t1': Tape, out': Tape)
    requires size > 0 && Merging(t0, t1, out, a, b, o, y)
    modifies a, b, o
    ensures var o' := Outlook(after, a, size, b, size, o);
      && Merging(t0', t1', out', Drop(a, size), Drop(b, size), o', y)
      && All(Drop(a, size), Drop(b, size), o', y) == All(a, b, o, y)
  {
    hide *;
    t0', t1', out' := t0, t1, out;
    var n0, n1 := size, size;
    ghost var s0, s1, done := a, b, o;
    ghost var all := set r | r in a + b + o;
    Start(a, b, o, all);
    while true
      invariant Merging(t0', t1', out', s0, s1, done, y) && All(s0, s1, done, y) == All(a, b, o, y)
      invariant Outlook(after, s0, n0, s1, n1, done) == Outlook(after, a, size, b, size, o)
      invariant Drop(s0, n0) == Drop(a, size) && Drop(s1, n1) == Drop(b, size)
      invariant Known(s0, s1, done, all)
      decreases |s0| + |s1|
    {
      Tapes(t0', t1', out', s0, s1, done, y, all);
      KnownStep(s0, s1, done, all);
      var stop, second := Pick(after, n0, n1, t0', t1', s0, s1);
      if stop {
        break;
      }
      if second {
        SecondStep(after, s0, n0, s1, n1, done);
        Swapped(t0', t1', out', s0, s1, done, y);
        t1', out' := Choose(t1', t0', out', s1, s0, done, y);
        n1 := n1 - 1;
        done, s1 := done + [s1[0]], s1[1..];
        Swapped(t0', t1', out', s0, s1, done, y);
      } else {
        FirstStep(after, s0, n0, s1, n1, done);
        t0', out' := Choose(t0', t1', out', s0, s1, done, y);
        n0 := n0 - 1;
        done, s0 := done + [s0[0]], s0[1..];
      }
    }
    Finished(after, s0, n0, s1, n1, done);
  }

  lemma Finished(after: Order<Record>, a: Records, n0: nat, b: Records, n1: nat, done: Records)
    requires (n0 == 0 || a == []) && (n1 == 0 || b == [])
    ensures Outlook(after, a, n0, b, n1, done) == done && Drop(a, n0) == a && Drop(b, n1) == b
  {
    BlockDone(after, a, n0, b, n1);
    assert done + [] == done;
  }

  lemma FirstStep(after: Order<Record>, a: Records, n0: nat, b: Records, n1: nat, done: Records)
    requires n0 > 0 && a != [] && (n1 == 0 || b == [] || !after(a[0], b[0]))
    ensures Outlook(after, a[1..], n0 - 1, b, n1, done + [a[0]]) == Outlook(after, a, n0, b, n1, done)
    ensures Drop(a, n0) == Drop(a[1..], n0 - 1)
  {
    StepFirst(after, a, n0, b, n1);
    hide Merge, Take;
    Onward(done, a[0], Merge(after, Take(a[1..], n0 - 1), Take(b, n1)));
  }

  lemma SecondStep(after: Order<Record>, a: Records, n0: nat, b: Records, n1: nat, done: Records)
    requires n1 > 0 && b != [] && (n0 == 0 || a == [] || after(a[0], b[0]))
    ensures Outlook(after, a, n0, b[1..], n1 - 1, done + [b[0]]) == Outlook(after, a, n0, b, n1, done)
    ensures Drop(b, n1) == Drop(b[1..], n1 - 1)
  {
    StepSecond(after, a, n0, b, n1);
    hide Merge, Take;
    Onward(done, b[0], Merge(after, Take(a, n0), Take(b[1..], n1 - 1)));
  }

  // ---- one pass ------------------------------------------------------------

  ghost predicate Passing(t0: Tape, t1: Tape, x: Tape, y: Tape, a: Records, b: Records, ox: Records, oy: Records)
    reads a, b, ox, oy
  {
    Merging(t0, t1, x, a, b, ox, oy) && Holds(y, oy) && EndsAt(y, oy)
  }

  lemma PassingSwapped(t0: Tape, t1: Tape, x: Tape, y: Tape, a: Records, b: Records, ox: Records, oy: Records)
    requires Passing(t0, t1, x, y, a, b, ox, oy)
    ensures Passing(t0, t1, y, x, a, b, oy, ox)
    ensures All(a, b, oy, ox) == All(a, b, ox, oy)
  {
    hide Holds, Once;
    assert All(a, b, oy, ox) == All(a, b, ox, oy);
  }

  /** One block onto the tape whose turn it is, leaving the other alone. */
  method OutputBlock(after: Order<Record>, size: nat, t0: Tape, t1: Tape, x: Tape, y: Tape,
                     ghost a: Records, ghost b: Records, ghost ox: Records, ghost oy: Records)
    returns (t0': Tape, t1': Tape, x': Tape)
    requires size > 0 && Passing(t0, t1, x, y, a, b, ox, oy)
    modifies a, b, ox
    ensures var o' := Outlook(after, a, size, b, size, ox);
      && Passing(t0', t1', x', y, Drop(a, size), Drop(b, size), o', oy)
      && All(Drop(a, size), Drop(b, size), o', oy) == All(a, b, ox, oy)
  {
    hide Merging, Passing, Outlook, All, Once, Drop;
    Apart(t0, t1, x, y, a, b, ox, oy);
    t0', t1', x' := MergeBlock(after, size, t0, t1, x, a, b, ox, oy);
    assert forall r :: r in oy ==> r.next == old(r.next);
    assert old(Chained(oy)) && Chained(oy);
    Joined(t0', t1', x', y, Drop(a, size), Drop(b, size), Outlook(after, a, size, b, size, ox), oy);
  }

  lemma Apart(t0: Tape, t1: Tape, x: Tape, y: Tape, a: Records, b: Records, ox: Records, oy: Records)
    requires Passing(t0, t1, x, y, a, b, ox, oy)
    ensures Merging(t0, t1, x, a, b, ox, oy) && Holds(y, oy) && EndsAt(y, oy)
    ensures forall r :: r in oy ==> r !in a && r !in b && r !in ox
  {
    hide Holds;
    forall r | r in oy
      ensures r !in a && r !in b && r !in ox
    {
      Separate(a, b, ox, oy, r);
    }
  }

  lemma Joined(t0: Tape, t1: Tape, x: Tape, y: Tape, a: Records, b: Records, ox: Records, oy: Records)
    requires Merging(t0, t1, x, a, b, ox, oy) && Holds(y, oy) && EndsAt(y, oy)
    ensures Passing(t0, t1, x, y, a, b, ox, oy)
  {}

  /** What a pass is to write, given what it wrote already and whose turn it is. */
  ghost function Rejoined(ox: Records, oy: Records, second: bool, rest: (Records, Records)): (Records, Records) {
    if second then (ox + rest.1, oy + rest.0) else (ox + rest.0, oy + rest.1)
  }

  lemma PassOnward(after: Order<Record>, size: nat, a: Records, b: Records, ox: Records, oy: Records)
    requires size > 0 && a != []
    ensures var rest := Pass(after, size, Drop(a, size), Drop(b, size));
      && Rejoined(Outlook(after, a, size, b, size, ox), oy, true, rest)
         == Rejoined(ox, oy, false, Pass(after, size, a, b))
      && Rejoined(ox, Outlook(after, a, size, b, size, oy), false, rest)
         == Rejoined(ox, oy, true, Pass(after, size, a, b))
  {
    hide Merge;
    var rest := Pass(after, size, Drop(a, size), Drop(b, size));
    var block := Merge(after, Take(a, size), Take(b, size));
    assert ox + (block + rest.1) == ox + block + rest.1;
    assert oy + (block + rest.1) == oy + block + rest.1;
  }

  lemma PassStarts(after: Order<Record>, size: nat, a: Records, b: Records)
    requires size > 0
    ensures Rejoined([], [], false, Pass(after, size, a, b)) == Pass(after, size, a, b)
  {
    var out := Pass(after, size, a, b);
    assert [] + out.0 == out.0 && [] + out.1 == out.1;
    hide Pass;
  }

  lemma PassEnds(after: Order<Record>, size: nat, a: Records, b: Records, ox: Records, oy: Records, second: bool)
    requires size > 0 && a == []
    ensures Rejoined(ox, oy, second, Pass(after, size, a, b)) == (ox, oy)
  {
    assert ox + [] == ox && oy + [] == oy;
  }

  /** Every record on the tapes was on the tapes the pass began with. */
  lemma SameKnown(a: Records, b: Records, s0: Records, s1: Records, ox: Records, oy: Records)
    requires All(s0, s1, ox, oy) == All(a, b, [], [])
    ensures forall i :: 0 <= i < |s0| ==> s0[i] in a || s0[i] in b
    ensures forall i :: 0 <= i < |s1| ==> s1[i] in a || s1[i] in b
    ensures forall i :: 0 <= i < |ox| ==> ox[i] in a || ox[i] in b
    ensures forall i :: 0 <= i < |oy| ==> oy[i] in a || oy[i] in b
  {
    forall r | r in s0 || r in s1 || r in ox || r in oy
      ensures r in a || r in b
    {
      assert r in s0 ==> r in multiset(s0);
      assert r in s1 ==> r in multiset(s1);
      assert r in ox ==> r in multiset(ox);
      assert r in oy ==> r in multiset(oy);
      assert r in All(s0, s1, ox, oy) && r in All(a, b, [], []);
      assert r in multiset(a) || r in multiset(b);
    }
  }

  /** One round of the merging loop: every block pair of the input tapes. */
  method PassTapes(after: Order<Record>, size: nat, t0: Tape, t1: Tape, ghost a: Records, ghost b: Records)
    returns (x: Tape, y: Tape)
    requires size > 0 && Alternating(after, size, a, b)
    requires Holds(t0, a) && Holds(t1, b) && Once(All(a, b, [], []))
    modifies a, b
    ensures var out := Pass(after, size, a, b);
      && Holds(x, out.0) && EndsAt(x, out.0) && Holds(y, out.1) && EndsAt(y, out.1)
      && All(out.0, out.1, [], []) == All(a, b, [], [])
  {
    hide *;
    var scrap0: Record?, scrap1: Record? := *, *;
    x, y := Tape(scrap0, scrap0, 0), Tape(scrap1, scrap1, 0);
    var second := false;
    var in0, in1 := t0, t1;
    ghost var s0, s1, ox: Records, oy: Records := a, b, [], [];
    PassBegins(t0, t1, x, y, a, b);
    PassStarts(after, size, a, b);
    while in0.count != 0
      invariant Passing(in0, in1, x, y, s0, s1, ox, oy) && All(s0, s1, ox, oy) == All(a, b, [], [])
      invariant Rejoined(ox, oy, second, Pass(after, size, s0, s1)) == Pass(after, size, a, b)
      invariant Alternating(after, size, s0, s1)
      decreases |s0|
    {
      Counted(in0, in1, x, y, s0, s1, ox, oy);
      FirstBlocks(after, size, s0, s1);
      PassOnward(after, size, s0, s1, ox, oy);
      SameKnown(a, b, s0, s1, ox, oy);
      if second {
        PassingSwapped(in0, in1, x, y, s0, s1, ox, oy);
        in0, in1, y := OutputBlock(after, size, in0, in1, y, x, s0, s1, oy, ox);
        oy := Outlook(after, s0, size, s1, size, oy);
        s0, s1 := Drop(s0, size), Drop(s1, size);
        PassingSwapped(in0, in1, y, x, s0, s1, oy, ox);
      } else {
        in0, in1, x := OutputBlock(after, size, in0, in1, x, y, s0, s1, ox, oy);
        ox := Outlook(after, s0, size, s1, size, ox);
        s0, s1 := Drop(s0, size), Drop(s1, size);
      }
      second := !second;
    }
    Counted(in0, in1, x, y, s0, s1, ox, oy);
    FirstBlocks(after, size, s0, s1);
    PassEnds(after, size, s0, s1, ox, oy, second);
    PassDone(x, y, in0, in1, a, b, s0, s1, ox, oy);
  }

  lemma PassBegins(t0: Tape, t1: Tape, x: Tape, y: Tape, a: Records, b: Records)
    requires Holds(t0, a) && Holds(t1, b) && Once(All(a, b, [], [])) && x.count == y.count == 0
    ensures Passing(t0, t1, x, y, a, b, [], [])
  {}

  lemma Counted(t0: Tape, t1: Tape, x: Tape, y: Tape, a: Records, b: Records, ox: Records, oy: Records)
    requires Passing(t0, t1, x, y, a, b, ox, oy)
    ensures t0.count == |a| && t1.count == |b|
  {}

  lemma PassDone(x: Tape, y: Tape, in0: Tape, in1: Tape, a: Records, b: Records,
                 s0: Records, s1: Records, ox: Records, oy: Records)
    requires Passing(in0, in1, x, y, s0, s1, ox, oy) && s0 == [] && s1 == []
    requires All(s0, s1, ox, oy) == All(a, b, [], [])
    ensures Holds(x, ox) && EndsAt(x, ox) && Holds(y, oy) && EndsAt(y, oy)
    ensures All(ox, oy, [], []) == All(a, b, [], [])
  {
    hide Holds, EndsAt;
    assert All(ox, oy, [], []) == All([], [], ox, oy);
  }

  // ---- dealing -------------------------------------------------------------

  /** Pushes the first record of the list onto the front of a tape. */
  method Push(p: Record, tape: Tape, ghost rest: Records, ghost s: Records) returns (next: Record?, tape': Tape)
    requires rest != [] && p == rest[0] && Holds(tape, s) && p !in s && p !in rest[1..]
    modifies p
    ensures next == old(p.next) && tape'.first == p && p.next == tape.first
    ensures Holds(tape', [p] + s)
  {
    next := p.next;
    p.next := tape.first;
    tape' := tape.(first := p, count := tape.count + 1);
  }

  ghost predicate Dealing(p: Record?, end: Record?, t: Tape, u: Tape, rest: Records, a: Records, b: Records)
    reads rest, a, b
  {
    IsList(p, rest, end) && Holds(t, a) && Holds(u, b) && Once(All(rest, a, b, []))
  }

  lemma HeadOnce(rest: Records, a: Records, b: Records, y: Records)
    requires Once(All(rest, a, b, y)) && rest != []
    ensures rest[0] !in rest[1..] && rest[0] !in a && rest[0] !in b && rest[0] !in y
    ensures All(rest[1..], [rest[0]] + a, b, y) == All(rest, a, b, y)
  {
    var r := rest[0];
    Separate(rest, a, b, y, r);
    assert rest == [r] + rest[1..];
    assert All(rest, a, b, y)[r] == multiset(rest)[r] + multiset(a)[r] + multiset(b)[r] + multiset(y)[r];
    assert multiset(rest) == multiset{r} + multiset(rest[1..]);
    assert r in rest[1..] <==> r in multiset(rest[1..]);
  }

  /** One record dealt to the tape whose turn it is. */
  method DealOnto(p: Record, end: Record?, tape: Tape, other: Tape,
                  ghost rest: Records, ghost a: Records, ghost b: Records)
    returns (next: Record?, tape': Tape)
    requires rest != [] && Dealing(p, end, tape, other, rest, a, b)
    modifies p
    ensures Dealing(next, end, tape', other, rest[1..], [rest[0]] + a, b)
    ensures All(rest[1..], [rest[0]] + a, b, []) == All(rest, a, b, [])
    ensures p == rest[0] && p.next == tape.first && tape'.first == p
  {
    HeadOnce(rest, a, b, []);
    hide Once, All;
    Tail(p, end, rest);
    ghost var after := rest[1..];
    next, tape' := Push(p, tape, rest, a);
    assert forall i :: 0 <= i < |after| ==> after[i] != p;
    assert forall i :: 0 <= i < |b| ==> b[i] != p;
  }

  lemma Tail(p: Record, end: Record?, rest: Records)
    requires rest != [] && IsList(p, rest, end)
    ensures p == rest[0] && IsList(p.next, rest[1..], end)
  {
    if |rest| > 1 {
      assert rest[0].next == rest[1];
    }
  }

  /** What dealing the rest is to leave on the tapes, whoever's turn it is. */
  ghost function Turned(second: bool, rest: Records, a: Records, b: Records): (Records, Records) {
    if second then (Deal(rest, b, a).1, Deal(rest, b, a).0) else Deal(rest, a, b)
  }

  lemma TurnedStep(rest: Records, a: Records, b: Records)
    requires rest != []
    ensures Turned(false, rest, a, b) == Turned(true, rest[1..], [rest[0]] + a, b)
    ensures Turned(true, rest, a, b) == Turned(false, rest[1..], a, [rest[0]] + b)
  {}

  /** A tape built up from a NULL one still ends in NULL. */
  ghost predicate NullTail(t: Tape, a: Records)
    reads a
  {
    if a == [] then t.first == null else a[|a| - 1].next == null
  }

  lemma DealingSwapped(p: Record?, end: Record?, t: Tape, u: Tape, rest: Records, a: Records, b: Records)
    ensures Dealing(p, end, t, u, rest, a, b) <==> Dealing(p, end, u, t, rest, b, a)
    ensures All(rest, a, b, []) == All(rest, b, a, [])
  {
    hide Once, Holds, IsList;
    assert All(rest, a, b, []) == All(rest, b, a, []);
  }

  lemma DealtAll(p: Record?, end: Record?, t0: Tape, t1: Tape, rest: Records, a: Records, b: Records, s: Records)
    requires Dealing(p, end, t0, t1, rest, a, b) && All(rest, a, b, []) == All(s, [], [], [])
    ensures p == end <==> rest == []
    ensures rest != [] ==> p == rest[0] && rest[0] !in a
    ensures forall i :: 0 <= i < |rest| ==> rest[i] in s
    ensures forall i :: 0 <= i < |a| ==> a[i] in s
    ensures rest == [] ==> Turned(true, rest, a, b) == Turned(false, rest, a, b) == (a, b)
    ensures rest == [] ==> Holds(t0, a) && Holds(t1, b) && All(a, b, [], []) == All(s, [], [], [])
  {
    hide Holds, Chained, Once;
    SameKnown(s, [], rest, a, b, []);
    if rest == [] {
      assert All(a, b, [], []) == All([], a, b, []);
    } else {
      HeadOnce(rest, a, b, []);
    }
  }

  /** The first loop: the records dealt alternately to the first two tapes. */
  method Distribute(p: Record?, end: Record?, ghost s: Records) returns (t0: Tape, t1: Tape)
    requires IsList(p, s, end) && Once(All(s, [], [], []))
    modifies s
    ensures var (a, b) := Deal(s, [], []);
      && Holds(t0, a) && Holds(t1, b) && All(a, b, [], []) == All(s, [], [], []) && NullTail(t0, a)
  {
    hide Dealing, All, Deal, Turned, Once, Holds, IsList, Chained;
    var scrap0: Record?, scrap1: Record? := *, *;
    t0, t1 := Tape(null, scrap0, 0), Tape(scrap1, scrap1, 0);
    var second := false;
    var q := p;
    ghost var rest, a: Records, b: Records := s, [], [];
    DealBegins(p, end, t0, t1, s);
    while q != end
      invariant Dealing(q, end, t0, t1, rest, a, b) && All(rest, a, b, []) == All(s, [], [], [])
      invariant Turned(second, rest, a, b) == Deal(s, [], []) && NullTail(t0, a)
      decreases |rest|
    {
      DealtAll(q, end, t0, t1, rest, a, b, s);
      TurnedStep(rest, a, b);
      if second {
        DealingSwapped(q, end, t0, t1, rest, a, b);
        q, t1 := DealOnto(q, end, t1, t0, rest, b, a);
        rest, b := rest[1..], [rest[0]] + b;
        DealingSwapped(q, end, t0, t1, rest, a, b);
      } else {
        q, t0 := DealOnto(q, end, t0, t1, rest, a, b);
        rest, a := rest[1..], [rest[0]] + a;
      }
      second := !second;
    }
    DealtAll(q, end, t0, t1, rest, a, b, s);
  }

  lemma DealBegins(p: Record?, end: Record?, t0: Tape, t1: Tape, s: Records)
    requires IsList(p, s, end) && Once(All(s, [], [], [])) && t0.count == t1.count == 0 && t0.first == null
    ensures Dealing(p, end, t0, t1, s, [], []) && NullTail(t0, []) && Turned(false, s, [], []) == Deal(s, [], [])
  {}

  // ---- the whole sort ------------------------------------------------------

  /** Between rounds: two alternating tapes that sort to what the list does. */
  ghost predicate Sorting(after: Order<Record>, size: nat, t0: Tape, t1: Tape, a: Records, b: Records, s: Records)
    reads a, b
  {
    && size > 0 && Holds(t0, a) && Holds(t1, b) && All(a, b, [], []) == All(s, [], [], [])
    && Once(All(s, [], [], [])) && Ranks(after, Members(s))
    && Among(a, Members(s)) && Among(b, Members(s)) && Alternating(after, size, a, b)
    && Rounds(after, size, a, b) == SortOf(after, s)
  }

  /** The tape a list of at least two records ends on knows its last record; a
   shorter list was never merged. */
  ghost predicate Tailed(t0: Tape, a: Records, b: Records)
    reads a
  {
    if |a| + |b| >= 2 && b == [] then EndsAt(t0, a) else |a| + |b| >= 2 || NullTail(t0, a)
  }

  lemma DealtSorting(after: Order<Record>, t0: Tape, t1: Tape, a: Records, b: Records, s: Records)
    requires (a, b) == Deal(s, [], []) && Holds(t0, a) && Holds(t1, b) && NullTail(t0, a)
    requires All(a, b, [], []) == All(s, [], [], []) && Once(All(s, [], [], [])) && Ranks(after, Members(s))
    ensures Sorting(after, 1, t0, t1, a, b, s) && Tailed(t0, a, b)
  {
    hide Holds, Chained, Once, All, Ranks, Deal, Members, Among, Alternating, NullTail, Rounds;
    Dealt(after, s);
    DealKeeps(s, [], []);
  }

  /** What a round needs, and what it leads to. */
  lemma RoundReady(after: Order<Record>, size: nat, t0: Tape, t1: Tape, a: Records, b: Records, s: Records)
    requires Sorting(after, size, t0, t1, a, b, s) && b != []
    ensures size > 0 && Holds(t0, a) && Holds(t1, b) && Once(All(a, b, [], [])) && Alternating(after, size, a, b)
    ensures size <= |a|
    ensures var out := Pass(after, size, a, b);
      && Rounds(after, size + size, out.0, out.1) == SortOf(after, s)
      && Alternating(after, size + size, out.0, out.1) && Among(out.0, Members(s)) && Among(out.1, Members(s))
      && |out.0| + |out.1| == |a| + |b|
  {
    hide Holds, Chained, Once, All, Ranks, Members, Among, Alternating, SortOf, Pass;
    FirstBlocks(after, size, a, b);
    PassAlternates(after, size, a, b, Members(s));
  }

  lemma RoundDone(after: Order<Record>, size: nat, t0: Tape, t1: Tape, a: Records, b: Records, s: Records)
    requires size > 0 && Holds(t0, a) && EndsAt(t0, a) && Holds(t1, b) && All(a, b, [], []) == All(s, [], [], [])
    requires Once(All(s, [], [], [])) && Ranks(after, Members(s))
    requires Among(a, Members(s)) && Among(b, Members(s)) && Alternating(after, size, a, b)
    requires Rounds(after, size, a, b) == SortOf(after, s) && |a| + |b| >= 2
    ensures Sorting(after, size, t0, t1, a, b, s) && Tailed(t0, a, b)
  {}

  lemma SortingFacts(after: Order<Record>, size: nat, t0: Tape, t1: Tape, a: Records, b: Records, s: Records)
    requires Sorting(after, size, t0, t1, a, b, s)
    ensures t1.count == |b| && t0.count == |a| && Holds(t0, a)
    ensures |a| + |b| == |s| && Ranks(after, Members(s)) && Once(All(s, [], [], []))
    ensures forall i :: 0 <= i < |a| ==> a[i] in s
    ensures forall i :: 0 <= i < |b| ==> b[i] in s
    ensures b == [] ==> a == SortOf(after, s)
    ensures All(a, b, [], []) == All(s, [], [], [])
  {
    hide Chained, Once, Ranks, Alternating, SortOf, Members;
    SameKnown(s, [], a, b, [], []);
    assert |All(a, b, [], [])| == |a| + |b| && |All(s, [], [], [])| == |s|;
  }

  /** The merging rounds: they end with everything on the first tape. */
  method MergeTapes(after: Order<Record>, in0: Tape, in1: Tape,
                    ghost in0s: Records, ghost in1s: Records, ghost s: Records)
    returns (t0: Tape, ghost a: Records)
    requires Sorting(after, 1, in0, in1, in0s, in1s, s) && Tailed(in0, in0s, in1s)
    modifies s
    ensures a == SortOf(after, s) && Holds(t0, a) && Tailed(t0, a, []) && |a| == |s|
  {
    hide *;
    var t1 := in1;
    ghost var b := in1s;
    t0, a := in0, in0s;
    var size := 1;
    SortingFacts(after, size, t0, t1, a, b, s);
    while t1.count != 0
      invariant Sorting(after, size, t0, t1, a, b, s) && Tailed(t0, a, b)
      invariant t1.count == |b| && |a| + |b| == |s|
      decreases |s| - size
    {
      SortingFacts(after, size, t0, t1, a, b, s);
      RoundReady(after, size, t0, t1, a, b, s);
      ghost var out := Pass(after, size, a, b);
      t0, t1 := PassTapes(after, size, t0, t1, a, b);
      a, b := out.0, out.1;
      size := size + size;
      RoundDone(after, size, t0, t1, a, b, s);
      SortingFacts(after, size, t0, t1, a, b, s);
    }
    SortingFacts(after, size, t0, t1, a, b, s);
  }

  /** sort_linked_list(): every list, relinked into its sorted permutation and
   counted; yet a list of fewer than two records ends in NULL whatever its end
   marker was, so the marker is only kept for longer lists. */
  method SortLinkedList(p: Record?, after: Order<Record>, end: Record?, ghost s: Records)
    returns (first: Record?, count: nat)
    requires IsList(p, s, end) && Once(All(s, [], [], [])) && Ranks(after, Members(s))
    modifies s
    ensures count == |s|
    ensures Sorted(after, SortOf(after, s)) && multiset(SortOf(after, s)) == multiset(s)
    ensures IsList(first, SortOf(after, s), if |s| >= 2 then end else null)
    ensures IsList(first, SortOf(after, s), end) <==> |s| >= 2 || end == null
  {
    hide *;
    SortSorts(after, s);
    Unmarked(p, s, end);
    var t0, t1 := Distribute(p, end, s);
    ghost var tapes := Deal(s, [], []);
    DealtSorting(after, t0, t1, tapes.0, tapes.1, s);
    ghost var a;
    t0, a := MergeTapes(after, t0, t1, tapes.0, tapes.1, s);
    Permuted(a, s, end);
    CloseList(t0, end, a);
    Ends(t0.first, a, end);
    return t0.first, t0.count;
  }

  lemma Unmarked(p: Record?, s: Records, end: Record?)
    requires IsList(p, s, end)
    ensures end !in s
  {}

  lemma Permuted(a: Records, s: Records, end: Record?)
    requires multiset(a) == multiset(s) && Once(All(s, [], [], [])) && end !in s
    ensures Once(All([], [], a, [])) && end !in a && forall i :: 0 <= i < |a| ==> a[i] in s
  {
    assert All([], [], a, []) == multiset(a) == multiset(s) == All(s, [], [], []);
    assert forall r :: r in a <==> r in multiset(a);
    assert forall r :: r in s <==> r in multiset(s);
  }

  method CloseList(t: Tape, end: Record?, ghost a: Records)
    requires Holds(t, a) && Tailed(t, a, []) && Once(All([], [], a, [])) && end !in a
    modifies a
    ensures IsList(t.first, a, if |a| >= 2 then end else null) && t.count == |a|
  {
    hide Once, All;
    if t.count > 1 {
      LastOnce([], [], a, []);
      assert forall i :: 0 <= i < |a| - 1 ==> a[i] in a[..|a| - 1];
      t.last.next := end;
    }
  }

  lemma Ends(first: Record?, a: Records, end: Record?)
    requires IsList(first, a, if |a| >= 2 then end else null) && end !in a
    ensures IsList(first, a, end) <==> |a| >= 2 || end == null
  {}

  /** The end marker is not returned for an empty list, as promised it would be. */
  method EmptyList(after: Order<Record>, end: Record) returns (first: Record?, count: nat)
    ensures count == 0 && first == null && first != end
  {
    assert All([], [], [], []) == multiset{};
    first, count := SortLinkedList(end, after, end, []);
  }

  /** A single record loses its end marker. */
  method SingleRecord(after: Order<Record>, r: Record, end: Record) returns (first: Record?, count: nat)
    requires r.next == end && r != end && !after(r, r)
    modifies r
    ensures count == 1 && first == r && r.next == null
  {
    assert All([r], [], [], []) == multiset{r};
    first, count := SortLinkedList(r, after, end, [r]);
    SingleSorted(after, r);
  }

  lemma SingleSorted(after: Order<Record>, r: Record)
    requires Ranks(after, Members([r]))
    ensures SortOf(after, [r]) == [r]
  {
    SortSorts(after, [r]);
    var s := SortOf(after, [r]);
    assert |s| == 1 && s[0] in multiset(s);
  }
}
