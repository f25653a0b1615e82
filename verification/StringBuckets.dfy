/**
 One bucket of the shared string table of shstr.c: a doubly linked list whose
 head links back to its slot of the table, which the top bit of its reference
 count tells.
 */
module StringBuckets {

  /** The bytes of a C string before its NUL. */
  type Text = t: seq<bv8> | 0 !in t

  const TOPBIT: nat := 0x8000_0000_0000_0000

  /** The union of a shared string: its slot of the table, or the entry before. */
  datatype Back = Slot(index: nat) | Previous(entry: Entry)

  class Entry {
    const text: Text
    var next: Entry?
    var refcount: nat
    var back: Back

    /** new_shared_string(), its union set by the caller at once. */
    constructor (text: Text, back: Back)
      ensures this.text == text && next == null && refcount == 1 && this.back == back
    {
      this.text, next, refcount, this.back := text, null, 1, back;
    }
  }

  predicate Top(refcount: nat) { refcount >= TOPBIT }

  /** refcount & ~TOPBIT */
  function Count(refcount: nat): nat { if Top(refcount) then refcount - TOPBIT else refcount }

  /** refcount | TOPBIT */
  function WithTop(refcount: nat): nat { if Top(refcount) then refcount else refcount + TOPBIT }

  // ---- a bucket's list -----------------------------------------------------

  ghost predicate NodeOk(chain: seq<Entry>, i: nat, index: nat)
    requires i < |chain|
    reads chain
  {
    var e := chain[i];
    && e.next == (if i + 1 < |chain| then chain[i + 1] else null)
    && e.back == (if i == 0 then Slot(index) else Previous(chain[i - 1]))
    && 1 <= Count(e.refcount) < TOPBIT && (Top(e.refcount) <==> i == 0)
  }

  ghost predicate Distinct(chain: seq<Entry>) {
    forall i, j :: 0 <= i < j < |chain| ==> chain[i].text != chain[j].text
  }

  ghost predicate Bucket(head: Entry?, chain: seq<Entry>, index: nat)
    reads chain
  {
    && head == (if chain == [] then null else chain[0])
    && (forall i :: 0 <= i < |chain| ==> NodeOk(chain, i, index))
    && Distinct(chain)
  }

  /** What a bucket holds, as values. */
  ghost function Pairs(chain: seq<Entry>): (p: seq<(Text, nat)>)
    reads chain
    ensures |p| == |chain| && forall i :: 0 <= i < |p| ==> p[i] == (chain[i].text, Count(chain[i].refcount))
  {
    if chain == [] then []
    else Pairs(chain[..|chain| - 1]) + [(chain[|chain| - 1].text, Count(chain[|chain| - 1].refcount))]
  }

  /** Outstanding references to a text, by a linear scan. */
  function CountOf(p: seq<(Text, nat)>, text: Text): nat {
    if p == [] then 0 else if p[0].0 == text then p[0].1 else CountOf(p[1..], text)
  }

  predicate Keyed(p: seq<(Text, nat)>) {
    forall i, j :: 0 <= i < j < |p| ==> p[i].0 != p[j].0
  }

  // ---- counts --------------------------------------------------------------

  lemma {:induction false} CountFound(p: seq<(Text, nat)>, i: nat)
    requires Keyed(p) && i < |p|
    ensures CountOf(p, p[i].0) == p[i].1
  {
    if i > 0 {
      CountFound(p[1..], i - 1);
    }
  }

  lemma {:induction false} CountMissing(p: seq<(Text, nat)>, text: Text)
    requires forall i :: 0 <= i < |p| ==> p[i].0 != text
    ensures CountOf(p, text) == 0
  {
    if p != [] {
      CountMissing(p[1..], text);
    }
  }

  /** Changing one text's count changes no other's. */
  lemma {:induction false} CountUpdated(p: seq<(Text, nat)>, i: nat, n: nat, text: Text)
    requires i < |p| && p[i].0 != text
    ensures CountOf(p[i := (p[i].0, n)], text) == CountOf(p, text)
  {
    if i > 0 {
      assert p[i := (p[i].0, n)][1..] == p[1..][i - 1 := (p[i].0, n)];
      CountUpdated(p[1..], i - 1, n, text);
    } else {
      assert p[0 := (p[0].0, n)][1..] == p[1..];
    }
  }

  lemma {:induction false} CountAppended(p: seq<(Text, nat)>, pair: (Text, nat), text: Text)
    requires pair.0 != text
    ensures CountOf(p + [pair], text) == CountOf(p, text)
  {
    if p != [] {
      assert (p + [pair])[1..] == p[1..] + [pair];
      CountAppended(p[1..], pair, text);
    }
  }

  lemma {:induction false} CountRemoved(p: seq<(Text, nat)>, i: nat, text: Text)
    requires i < |p| && p[i].0 != text
    ensures CountOf(p[..i] + p[i + 1..], text) == CountOf(p, text)
  {
    if i > 0 {
      assert (p[..i] + p[i + 1..])[1..] == p[1..][..i - 1] + p[1..][i..];
      CountRemoved(p[1..], i - 1, text);
    } else {
      assert p[..0] + p[1..] == p[1..];
    }
  }

  // ---- operations on a bucket ----------------------------------------------

  /** Finds a text: the head first, then down the list. */
  method Search(head: Entry, text: Text, ghost chain: seq<Entry>, ghost index: nat)
    returns (found: bool, e: Entry, ghost k: nat)
    requires Bucket(head, chain, index)
    ensures k < |chain| && e == chain[k]
    ensures found ==> e.text == text
    ensures !found ==> k == |chain| - 1 && forall i :: 0 <= i < |chain| ==> chain[i].text != text
  {
    e, k := head, 0;
    assert NodeOk(chain, 0, index);
    if e.text == text {
      return true, e, k;
    }
    while e.next != null
      invariant k < |chain| && e == chain[k] && NodeOk(chain, k, index)
      invariant forall i :: 0 <= i <= k ==> chain[i].text != text
      decreases |chain| - k
    {
      e, k := e.next, k + 1;
      assert NodeOk(chain, k, index);
      if e.text == text {
        return true, e, k;
      }
    }
    found := false;
  }

  /** refcount + 1, as an unsigned long */
  function Incremented(refcount: nat): nat { (refcount + 1) % (2 * TOPBIT) }

  /** An increment counts, but for the last count there is room for. */
  lemma Increment(refcount: nat)
    requires 1 <= Count(refcount) < TOPBIT
    ensures var n := Incremented(refcount);
      && (Count(refcount) < TOPBIT - 1 ==> Count(n) == Count(refcount) + 1 && (Top(n) <==> Top(refcount)))
      && (Count(refcount) == TOPBIT - 1 ==> Count(n) == 0)
  {}

  /** What the count of the k-th entry of a bucket may be. */
  predicate CountFits(refcount: nat, k: nat) { 1 <= Count(refcount) < TOPBIT && (Top(refcount) <==> k == 0) }

  /** Changes one entry's count, by which the bucket stays one or not. */
  method SetCount(e: Entry, refcount: nat, ghost head: Entry?, ghost chain: seq<Entry>, ghost k: nat, ghost index: nat)
    requires Bucket(head, chain, index) && k < |chain| && e == chain[k]
    modifies e`refcount
    ensures Bucket(head, chain, index) <==> CountFits(refcount, k)
    ensures Pairs(chain) == old(Pairs(chain))[k := (e.text, Count(refcount))]
    ensures e.refcount == refcount
  {
    hide Pairs;
    ghost var before := Pairs(chain);
    OneEntry(chain, k);
    assert NodeOk(chain, k, index);
    e.refcount := refcount;
    forall i | 0 <= i < |chain| && i != k
      ensures NodeOk(chain, i, index)
    {
      assert old(NodeOk(chain, i, index));
    }
    assert NodeOk(chain, k, index) <==> CountFits(refcount, k);
    PairsAre(chain, before[k := (e.text, Count(refcount))]);
  }

  /** Links a new entry after the last. */
  method Append(last: Entry, e: Entry, ghost head: Entry?, ghost chain: seq<Entry>, ghost index: nat)
    requires Bucket(head, chain, index) && chain != [] && last == chain[|chain| - 1]
    requires e !in chain && e.next == null && e.refcount == 1 && e.back == Previous(last)
    requires forall i :: 0 <= i < |chain| ==> chain[i].text != e.text
    modifies last`next
    ensures Bucket(head, chain + [e], index) && Pairs(chain + [e]) == old(Pairs(chain)) + [(e.text, 1)]
  {
    ghost var all := chain + [e];
    assert forall i :: 0 <= i < |chain| ==> NodeOk(chain, i, index);
    last.next := e;
    assert forall i :: 0 <= i < |chain| - 1 ==> chain[i] != last;
    forall i | 0 <= i < |all|
      ensures NodeOk(all, i, index)
    {
      if i < |chain| {
        assert old(NodeOk(chain, i, index));
      }
    }
  }

  /** Every entry of a bucket occurs in it once. */
  lemma OneEntry(chain: seq<Entry>, k: nat)
    requires Distinct(chain) && k < |chain|
    ensures forall i :: 0 <= i < |chain| && i != k ==> chain[i] != chain[k]
  {}

  lemma DistinctWithout(chain: seq<Entry>, k: nat)
    requires Distinct(chain) && k < |chain|
    ensures Distinct(chain[..k] + chain[k + 1..])
  {
    var rest := chain[..k] + chain[k + 1..];
    forall i, j | 0 <= i < j < |rest|
      ensures rest[i].text != rest[j].text
    {
      assert rest[i] == chain[if i < k then i else i + 1] && rest[j] == chain[if j < k then j else j + 1];
    }
  }

  lemma PairsAre(chain: seq<Entry>, p: seq<(Text, nat)>)
    requires |p| == |chain| && forall i :: 0 <= i < |p| ==> p[i] == (chain[i].text, Count(chain[i].refcount))
    ensures Pairs(chain) == p
  {
    hide Pairs;
  }

  lemma PairsWithout(chain: seq<Entry>, k: nat)
    requires k < |chain|
    ensures Pairs(chain[..k] + chain[k + 1..]) == Pairs(chain)[..k] + Pairs(chain)[k + 1..]
  {
    hide Pairs;
  }

  /** Takes the head off: the next entry, if any, becomes the head. */
  method DropHead(e: Entry, ghost chain: seq<Entry>, ghost index: nat) returns (head: Entry?)
    requires Bucket(e, chain, index)
    modifies if e.next == null then {} else {e.next}
    ensures Bucket(head, chain[1..], index)
    ensures Pairs(chain[1..]) == old(Pairs(chain))[1..]
  {
    hide Pairs, Distinct, WithTop, Count, Top;
    WithoutHead(chain);
    assert NodeOk(chain, 0, index);
    head := e.next;
    if head != null {
      OneEntry(chain, 1);
      assert NodeOk(chain, 1, index);
      PromoteSecond(head, e.back, chain, index);
    }
  }

  lemma WithoutHead(chain: seq<Entry>)
    requires Distinct(chain)
    ensures chain != [] ==> Distinct(chain[1..]) && Pairs(chain[1..]) == Pairs(chain)[1..]
  {
    hide Pairs, Distinct;
    if chain != [] {
      var p := Pairs(chain);
      assert chain[..0] + chain[1..] == chain[1..] && p[..0] + p[1..] == p[1..];
      PairsWithout(chain, 0);
      DistinctWithout(chain, 0);
    }
  }

  /** The second entry of a bucket takes the head's place. */
  method PromoteSecond(head: Entry, back: Back, ghost chain: seq<Entry>, ghost index: nat)
    requires |chain| >= 2 && head == chain[1] && back == Slot(index)
    requires forall i :: 0 <= i < |chain| ==> NodeOk(chain, i, index)
    requires forall i :: 0 <= i < |chain| && i != 1 ==> chain[i] != head
    modifies head`back, head`refcount
    ensures forall i :: 0 <= i < |chain| - 1 ==> NodeOk(chain[1..], i, index)
    ensures Pairs(chain[1..]) == old(Pairs(chain[1..]))
  {
    hide Pairs, Count, Top;
    ghost var rest := chain[1..];
    assert NodeOk(chain, 1, index);
    Promote(head, back, rest);
    forall i | 2 <= i < |chain|
      ensures NodeOk(chain, i, index)
    {
      assert old(NodeOk(chain, i, index));
    }
    TailOk(chain, index);
  }

  lemma TailOk(chain: seq<Entry>, index: nat)
    requires |chain| >= 2 && forall i :: 2 <= i < |chain| ==> NodeOk(chain, i, index)
    requires chain[1].next == (if 2 < |chain| then chain[2] else null) && chain[1].back == Slot(index)
    requires 1 <= Count(chain[1].refcount) < TOPBIT && Top(chain[1].refcount)
    ensures forall i :: 0 <= i < |chain| - 1 ==> NodeOk(chain[1..], i, index)
  {
    hide Count, Top;
    forall i | 0 <= i < |chain| - 1
      ensures NodeOk(chain[1..], i, index)
    {
      assert i > 0 ==> NodeOk(chain, i + 1, index);
    }
  }

  /** Makes an entry the head. */
  method Promote(head: Entry, back: Back, ghost rest: seq<Entry>)
    requires rest != [] && head == rest[0] && forall i :: 1 <= i < |rest| ==> rest[i] != head
    requires Count(head.refcount) < TOPBIT
    modifies head`back, head`refcount
    ensures head.back == back && Count(head.refcount) == old(Count(head.refcount)) && Top(head.refcount)
    ensures Pairs(rest) == old(Pairs(rest))
  {
    hide Pairs;
    head.back := back;
    head.refcount := WithTop(head.refcount);
  }

  /** Takes an entry that is not the head out of the list. */
  method DropInner(e: Entry, ghost head: Entry?, ghost chain: seq<Entry>, ghost k: nat, ghost index: nat)
    requires Bucket(head, chain, index) && 0 < k < |chain| && e == chain[k] && e.back.Previous?
    modifies e.back.entry`next, if e.next == null then {} else {e.next}
    ensures Bucket(head, chain[..k] + chain[k + 1..], index)
    ensures Pairs(chain[..k] + chain[k + 1..]) == old(Pairs(chain))[..k] + old(Pairs(chain))[k + 1..]
  {
    hide Pairs, Distinct, Count, Top;
    ghost var rest := chain[..k] + chain[k + 1..];
    ghost var before := Pairs(rest);
    PairsWithout(chain, k);
    DistinctWithout(chain, k);
    OneEntry(chain, k - 1);
    assert NodeOk(chain, k, index) && NodeOk(chain, k - 1, index);
    var previous := e.back.entry;
    if e.next != null {
      OneEntry(chain, k + 1);
      e.next.back := e.back;
    }
    previous.next := e.next;
    forall i | 0 <= i < |rest|
      ensures NodeOk(rest, i, index)
    {
      assert old(NodeOk(chain, if i < k then i else i + 1, index));
    }
    PairsAre(rest, before);
  }
}
