/**
 The shared string table of shstr.c: every text has one entry for as long as
 references to it are outstanding.
 */
module SharedStrings {
  import opened Arithmetic
  import opened StringBuckets

  const TABLESIZE: nat := 8266
  const MAXSTRING: nat := 20
  const INT_LIMIT: nat := 0x8000_0000

  // ---- the hash ------------------------------------------------------------

  /** A plain char, signed, widened to unsigned long. */
  function Widened(c: bv8): bv64 {
    if c < 128 then c as bv64 else c as bv64 | 0xFFFF_FFFF_FFFF_FF00
  }

  function NextRot(rot: nat): (r: nat)
    requires rot < 56
    ensures r < 56
  {
    if rot + 2 >= 56 then 0 else rot + 2
  }

  function MixChar(hash: bv64, c: bv8, rot: nat): bv64
    requires rot < 56
  {
    hash ^ (Widened(c) << rot)
  }

  function Mixed(text: Text, i: nat, rot: nat, hash: bv64): bv64
    requires rot < 56
    decreases |text| - i
  {
    if i >= MAXSTRING || i >= |text| then hash
    else Mixed(text, i + 1, NextRot(rot), MixChar(hash, text[i], rot))
  }

  /** hashstr(): the bucket of a text. */
  function Hash(text: Text): (h: nat)
    ensures h < TABLESIZE
  {
    Mixed(text, 0, 0, 0) as nat % TABLESIZE
  }

  lemma MixedStep(text: Text, i: nat, rot: nat, hash: bv64)
    requires rot < 56
    ensures i < MAXSTRING && i < |text| ==>
      Mixed(text, i, rot, hash) == Mixed(text, i + 1, NextRot(rot), MixChar(hash, text[i], rot))
    ensures i >= MAXSTRING || i >= |text| ==> Mixed(text, i, rot, hash) == hash
  {
    hide MixChar, NextRot;
  }

  method HashString(text: Text) returns (h: nat)
    ensures h == Hash(text)
  {
    hide Mixed, MixChar;
    var hash: bv64, i, rot := 0, 0, 0;
    while i < MAXSTRING && i < |text|
      invariant 0 <= i <= |text| && 0 <= rot < 56
      invariant Mixed(text, i, rot, hash) == Mixed(text, 0, 0, 0)
      decreases |text| - i
    {
      MixedStep(text, i, rot, hash);
      hash := MixChar(hash, text[i], rot);
      rot := rot + 2;
      if rot >= 56 {
        rot := 0;
      }
      i := i + 1;
    }
    MixedStep(text, i, rot, hash);
    h := hash as nat % TABLESIZE;
  }

  /** The first n characters, each moved two bits further than the one before. */
  function Folded(text: Text, n: nat): bv64
    requires n <= MAXSTRING && n <= |text|
  {
    if n == 0 then 0
    else
      var bits := 2 * (n - 1);
      Folded(text, n - 1) ^ (Widened(text[n - 1]) << bits)
  }

  lemma FoldStep(text: Text, i: nat)
    requires i < MAXSTRING && i < |text|
    ensures Folded(text, i + 1) == MixChar(Folded(text, i), text[i], 2 * i) && NextRot(2 * i) == 2 * (i + 1)
  {
    hide Widened;
    RotOn(i);
    hide NextRot;
    var bits := 2 * (i + 1 - 1);
    assert bits == 2 * i;
  }

  lemma RotOn(i: nat)
    requires i < MAXSTRING
    ensures NextRot(2 * i) == 2 * (i + 1)
  {}

  lemma {:induction false} FoldOn(text: Text, i: nat)
    requires i <= MAXSTRING && i <= |text|
    ensures Mixed(text, i, 2 * i, Folded(text, i)) == Folded(text, Min(MAXSTRING, |text|))
    decreases MAXSTRING - i
  {
    hide Mixed, Folded, MixChar, NextRot;
    MixedStep(text, i, 2 * i, Folded(text, i));
    if i < MAXSTRING && i < |text| {
      FoldStep(text, i);
      FoldOn(text, i + 1);
    }
  }

  /** The hash is the exclusive or of the first twenty characters, each two bits
   above the one before: no text is long enough for the rotation to start again. */
  lemma HashFolds(text: Text)
    ensures Hash(text) == Folded(text, Min(20, |text|)) as nat % TABLESIZE
  {
    FoldOn(text, 0);
    hide Mixed;
  }

  /** Only the first characters of a text decide its bucket. */
  lemma {:induction false} MixedPrefix(a: Text, b: Text, i: nat, rot: nat, hash: bv64)
    requires rot < 56 && i <= MAXSTRING
    requires if |a| < MAXSTRING then a == b else MAXSTRING <= |b| && a[..MAXSTRING] == b[..MAXSTRING]
    ensures Mixed(a, i, rot, hash) == Mixed(b, i, rot, hash)
    decreases MAXSTRING - i
  {
    hide Mixed, MixChar, NextRot;
    MixedStep(a, i, rot, hash);
    MixedStep(b, i, rot, hash);
    if i < MAXSTRING && i < |a| && i < |b| {
      assert |a| >= MAXSTRING ==> a[i] == a[..MAXSTRING][i] == b[..MAXSTRING][i] == b[i];
      MixedPrefix(a, b, i + 1, NextRot(rot), MixChar(hash, a[i], rot));
    }
  }

  /** A count narrowed to int. */
  function AsInt(n: nat): int {
    var low := n % (2 * INT_LIMIT);
    if low < INT_LIMIT then low else low - 2 * INT_LIMIT
  }

  /** Narrowing keeps exactly the counts that fit; the first that does not
   becomes negative. */
  lemma AsIntExact(n: nat)
    ensures AsInt(n) == n <==> n < INT_LIMIT
    ensures AsInt(INT_LIMIT) == 0 - INT_LIMIT
  {}

  // ---- the table -----------------------------------------------------------

  /** One bucket and the texts that belong in it. */
  ghost predicate Settled(head: Entry?, chain: seq<Entry>, b: nat)
    reads chain
  {
    Bucket(head, chain, b) && forall i :: 0 <= i < |chain| ==> Hash(chain[i].text) == b
  }

  /** The buckets hold exactly the entries, each where its text belongs. */
  ghost predicate Filed(chains: seq<seq<Entry>>, entries: set<Entry>) {
    && |chains| == TABLESIZE
    && (forall b, e :: 0 <= b < |chains| && e in chains[b] ==> e in entries)
    && forall e :: e in entries ==> e in chains[Hash(e.text)]
  }

  lemma FiledWith(chains: seq<seq<Entry>>, entries: set<Entry>, b: nat, e: Entry)
    requires Filed(chains, entries) && b == Hash(e.text)
    ensures Filed(chains[b := chains[b] + [e]], entries + {e})
  {
    hide Hash;
  }

  lemma FiledWithout(chains: seq<seq<Entry>>, entries: set<Entry>, b: nat, e: Entry, rest: seq<Entry>)
    requires Filed(chains, entries) && b == Hash(e.text)
    requires forall i :: 0 <= i < |chains| && i != b ==> e !in chains[i]
    requires forall x :: x in rest <==> x in chains[b] && x != e
    ensures Filed(chains[b := rest], entries - {e})
  {
    hide Hash;
  }

  class Table {
    const slots: array<Entry?>
    ghost var chains: seq<seq<Entry>>
    ghost var entries: set<Entry>

    ghost predicate Valid()
      reads this, slots, entries
    {
      && slots.Length == TABLESIZE && Filed(chains, entries)
      && forall b :: 0 <= b < TABLESIZE ==> Settled(slots[b], chains[b], b)
    }

    /** Outstanding references to a text. */
    ghost function Refs(text: Text): nat
      requires Valid()
      reads this, slots, entries
    {
      CountOf(Pairs(chains[Hash(text)]), text)
    }

    constructor ()
      ensures Valid() && fresh(slots) && entries == {} && forall text :: Refs(text) == 0
    {
      slots := new Entry?[TABLESIZE](_ => null);
      chains := seq(TABLESIZE, _ => []);
      entries := {};
    }

    /** An entry's text has as many references as the entry counts. */
    lemma EntryRefs(e: Entry)
      requires Valid() && e in entries
      ensures Refs(e.text) == Count(e.refcount) && 0 < Count(e.refcount) < TOPBIT
    {
      hide Hash;
      var b := Hash(e.text);
      var k :| 0 <= k < |chains[b]| && chains[b][k] == e;
      assert Settled(slots[b], chains[b], b) && NodeOk(chains[b], k, b);
      CountFound(Pairs(chains[b]), k);
    }

    /** Equal texts have one and the same entry. */
    lemma OneEntryPerText(e: Entry, f: Entry)
      requires Valid() && e in entries && f in entries && e.text == f.text
      ensures e == f
    {
      hide Hash;
      var b := Hash(e.text);
      assert Settled(slots[b], chains[b], b);
    }

    /** Only heads carry the top bit, and back links lead back. */
    lemma Links(e: Entry)
      requires Valid() && e in entries
      ensures Top(e.refcount) <==> slots[Hash(e.text)] == e
      ensures Top(e.refcount) <==> e.back == Slot(Hash(e.text))
      ensures !Top(e.refcount) ==> e.back.Previous? && e.back.entry in entries && e.back.entry.next == e
      ensures e.next != null ==> e.next in entries && e.next.back == Previous(e)
    {
      hide Hash;
      var b := Hash(e.text);
      var k :| 0 <= k < |chains[b]| && chains[b][k] == e;
      assert Settled(slots[b], chains[b], b) && NodeOk(chains[b], k, b);
      OneEntry(chains[b], 0);
      if k > 0 {
        assert NodeOk(chains[b], k - 1, b);
      }
      if k + 1 < |chains[b]| {
        assert NodeOk(chains[b], k + 1, b);
      }
    }

    /** find_string(): the entry of a text exactly while references to it are
     outstanding. */
    method FindString(text: Text) returns (e: Entry?)
      requires Valid()
      ensures e != null <==> Refs(text) > 0
      ensures e != null ==> e in entries && e.text == text
    {
      hide Hash;
      var b := HashString(text);
      assert Settled(slots[b], chains[b], b);
      var head := slots[b];
      if head == null {
        return null;
      }
      var found, last, k := Search(head, text, chains[b], b);
      if !found {
        CountMissing(Pairs(chains[b]), text);
        return null;
      }
      EntryRefs(last);
      return last;
    }

    /** query_refcount(): the count, as an int. */
    method QueryRefcount(e: Entry) returns (n: int)
      requires Valid() && e in entries
      ensures n == AsInt(Refs(e.text))
    {
      EntryRefs(e);
      n := AsInt(Count(e.refcount));
    }

    /** An entry belongs to no other bucket than its own. */
    lemma Elsewhere(e: Entry, b: nat)
      requires Valid() && e in entries && b < TABLESIZE && b != Hash(e.text)
      ensures e !in chains[b]
    {
      assert Settled(slots[b], chains[b], b);
    }

    /** add_refcount(), which add_string() does to an entry it finds: one more
     reference, as long as the count has room for it. */
    method AddRefcount(e: Entry)
      requires Valid() && e in entries
      modifies e
      ensures Valid() <==> old(Refs(e.text)) < TOPBIT - 1
      ensures Valid() ==> Refs(e.text) == old(Refs(e.text)) + 1
      ensures Valid() ==> forall text :: text != e.text ==> Refs(text) == old(Refs(text))
    {
      hide Hash, Bucket, Pairs, CountOf;
      EntryRefs(e);
      Increment(e.refcount);
      hide Count, Top, Incremented;
      Recount(e, Incremented(e.refcount));
      if Valid() {
        EntryRefs(e);
      }
    }

    /** Changes an entry's count, by which the table stays one or not. */
    method Recount(e: Entry, refcount: nat)
      requires Valid() && e in entries
      modifies e`refcount
      ensures Valid() <==> 1 <= Count(refcount) < TOPBIT && (Top(refcount) <==> old(Top(e.refcount)))
      ensures Valid() ==> forall text :: text != e.text ==> Refs(text) == old(Refs(text))
      ensures e.refcount == refcount
    {
      hide Hash, Bucket, Pairs, CountOf;
      ghost var b := Hash(e.text);
      ghost var k :| 0 <= k < |chains[b]| && chains[b][k] == e;
      ghost var was := Pairs(chains[b]);
      forall i | 0 <= i < TABLESIZE && i != b
        ensures e !in chains[i]
      {
        Elsewhere(e, i);
      }
      assert Settled(slots[b], chains[b], b);
      NodeFacts(slots[b], chains[b], b, k);
      SetCount(e, refcount, slots[b], chains[b], k, b);
      forall i | 0 <= i < TABLESIZE && i != b
        ensures Settled(slots[i], chains[i], i) && Pairs(chains[i]) == old(Pairs(chains[i]))
      {
        assert old(Settled(slots[i], chains[i], i));
      }
      assert Settled(slots[b], chains[b], b) <==> CountFits(refcount, k);
      forall text | text != e.text
        ensures CountOf(Pairs(chains[Hash(text)]), text) == old(CountOf(Pairs(chains[Hash(text)]), text))
      {
        CountUpdated(was, k, Count(refcount), text);
      }
    }

    /** add_string(): the entry of the text, new only if there was none. */
    method AddString(text: Text) returns (e: Entry)
      requires Valid()
      modifies this, slots, entries
      ensures e in entries && e.text == text && entries == old(entries) + {e}
      ensures e !in old(entries) ==> fresh(e)
      ensures Valid() <==> old(Refs(text)) < TOPBIT - 1
      ensures Valid() ==> Refs(text) == old(Refs(text)) + 1
      ensures Valid() ==> forall t :: t != text ==> Refs(t) == old(Refs(t))
    {
      hide Hash, Bucket, Pairs, CountOf;
      var b := HashString(text);
      var head := slots[b];
      assert Settled(slots[b], chains[b], b);
      if head == null {
        EmptyBucket(b);
        e := AddFirst(text, b);
        return;
      }
      var found, last, k := Search(head, text, chains[b], b);
      e := last;
      if found {
        AddRefcount(e);
      } else {
        CountMissing(Pairs(chains[b]), text);
        e := AddLast(text, b, last);
      }
    }

    /** A new entry at the head of an empty bucket. */
    method AddFirst(text: Text, b: nat) returns (e: Entry)
      requires Valid() && b == Hash(text) && slots[b] == null
      modifies this, slots
      ensures Valid() && fresh(e) && e.text == text && entries == old(entries) + {e}
      ensures Refs(text) == old(Refs(text)) + 1
      ensures forall t :: t != text ==> Refs(t) == old(Refs(t))
    {
      hide Hash, Bucket, Pairs, CountOf;
      EmptyBucket(b);
      e := new Entry(text, Slot(b));
      FiledWith(chains, entries, b, e);
      assert chains[b] + [e] == [e];
      e.refcount := WithTop(e.refcount);
      slots[b] := e;
      chains := chains[b := [e]];
      entries := entries + {e};
      SingleBucket(e, b);
      forall i | 0 <= i < TABLESIZE && i != b
        ensures Settled(slots[i], chains[i], i) && Pairs(chains[i]) == old(Pairs(chains[i]))
      {
        assert old(Settled(slots[i], chains[i], i));
      }
    }

    /** A new entry after the last of a bucket that does not hold the text. */
    method AddLast(text: Text, b: nat, last: Entry) returns (e: Entry)
      requires Valid() && b == Hash(text) && chains[b] != [] && last == chains[b][|chains[b]| - 1]
      requires forall i :: 0 <= i < |chains[b]| ==> chains[b][i].text != text
      modifies this, last
      ensures Valid() && fresh(e) && e.text == text && entries == old(entries) + {e}
      ensures Refs(text) == old(Refs(text)) + 1
      ensures forall t :: t != text ==> Refs(t) == old(Refs(t))
    {
      hide Hash, Settled, Pairs, CountOf;
      ghost var was, chain := Pairs(chains[b]), chains[b];
      assert Settled(slots[b], chains[b], b) && last in entries;
      CountMissing(was, text);
      Belongs(slots[b], chain, b, |chain| - 1);
      forall i | 0 <= i < TABLESIZE && i != b
        ensures last !in chains[i]
      {
        Elsewhere(last, i);
      }
      e := AppendNew(text, b, last, slots[b], chain);
      FiledWith(chains, entries, b, e);
      hide Filed;
      chains := chains[b := chain + [e]];
      entries := entries + {e};
      forall i | 0 <= i < TABLESIZE && i != b
        ensures Settled(slots[i], chains[i], i) && Pairs(chains[i]) == old(Pairs(chains[i]))
      {
        assert old(Settled(slots[i], chains[i], i));
      }
      AppendedCounts(was, text, slots[b], chain + [e], b);
    }

    /** free_string_shared(): the last reference takes the entry with it. */
    method FreeString(e: Entry)
      requires Valid() && e in entries
      modifies this, slots, entries
      ensures Valid() && Refs(e.text) == old(Refs(e.text)) - 1
      ensures forall t :: t != e.text ==> Refs(t) == old(Refs(t))
      ensures entries == if old(Refs(e.text)) == 1 then old(entries) - {e} else old(entries)
    {
      hide Hash, Bucket, Pairs, CountOf, Settled;
      EntryRefs(e);
      Links(e);
      var refcount := e.refcount - 1;
      if Count(refcount) == 0 {
        Remove(e);
      } else {
        Recount(e, refcount);
        EntryRefs(e);
      }
    }

    lemma ChainStored(b: nat)
      requires Valid() && b < TABLESIZE
      ensures |chains| == TABLESIZE && forall i :: 0 <= i < |chains[b]| ==> chains[b][i] in entries
    {}

    /** Buckets share no entry. */
    lemma OtherBuckets(b: nat)
      requires Valid() && b < TABLESIZE
      ensures forall i, j :: 0 <= i < TABLESIZE && i != b && 0 <= j < |chains[i]| ==> chains[i][j] !in chains[b]
      ensures forall i, e :: 0 <= i < TABLESIZE && i != b && e in chains[b] ==> e !in chains[i]
    {
      forall i, j | 0 <= i < TABLESIZE && i != b && 0 <= j < |chains[i]|
        ensures chains[i][j] !in chains[b]
      {
        Belongs(slots[i], chains[i], i, j);
        Elsewhere(chains[i][j], b);
      }
    }

    method Detach(e: Entry, ghost chain: seq<Entry>, ghost k: nat, ghost b: nat)
      requires b < slots.Length && Settled(slots[b], chain, b) && k < |chain| && chain[k] == e
      modifies slots, chain
      ensures Settled(slots[b], chain[..k] + chain[k + 1..], b)
      ensures Pairs(chain[..k] + chain[k + 1..]) == old(Pairs(chain))[..k] + old(Pairs(chain))[k + 1..]
      ensures forall i :: 0 <= i < slots.Length && i != b ==> slots[i] == old(slots[i])
    {
      hide Hash, Pairs, Settled;
      NodeFacts(slots[b], chain, b, k);
      if Top(e.refcount) {
        var head := DetachHead(e, chain, b);
        slots[e.back.index] := head;
      } else {
        DetachInner(e, slots[b], chain, k, b);
      }
    }

    /** Takes an entry out of its bucket's list, leaving the other buckets. */
    method DetachFrom(e: Entry, ghost b: nat, ghost k: nat)
      requires Valid() && b < TABLESIZE && k < |chains[b]| && e == chains[b][k]
      modifies slots, entries
      ensures Settled(slots[b], chains[b][..k] + chains[b][k + 1..], b)
      ensures Pairs(chains[b][..k] + chains[b][k + 1..]) == old(Pairs(chains[b]))[..k] + old(Pairs(chains[b]))[k + 1..]
      ensures forall i :: 0 <= i < TABLESIZE && i != b ==>
        Settled(slots[i], chains[i], i) && Pairs(chains[i]) == old(Pairs(chains[i]))
    {
      hide Hash, Pairs, Settled;
      assert Settled(slots[b], chains[b], b);
      OtherBuckets(b);
      ChainStored(b);
      Detach(e, chains[b], k, b);
      forall i | 0 <= i < TABLESIZE && i != b
        ensures Settled(slots[i], chains[i], i) && Pairs(chains[i]) == old(Pairs(chains[i]))
      {
        assert old(Settled(slots[i], chains[i], i));
      }
    }

    /** Frees an entry: out of its list and, if it is the head, of its slot. */
    method Remove(e: Entry)
      requires Valid() && e in entries
      modifies this, slots, entries
      ensures Valid() && entries == old(entries) - {e} && Refs(e.text) == 0
      ensures forall t :: t != e.text ==> Refs(t) == old(Refs(t))
    {
      ghost var b := Hash(e.text);
      ghost var k :| 0 <= k < |chains[b]| && chains[b][k] == e;
      hide Hash, Pairs, CountOf, Settled, Keyed, Filed, Valid;
      CanRemove(e, b, k);
      RemoveAt(e, b, k);
      ChainStored(b);
    }

    method RemoveAt(e: Entry, ghost b: nat, ghost k: nat)
      requires Valid() && e in entries && b == Hash(e.text) && k < |chains[b]| && e == chains[b][k]
      modifies this, slots, entries
      ensures Valid() && entries == old(entries) - {e}
      ensures Pairs(chains[b]) == old(Pairs(chains[b]))[..k] + old(Pairs(chains[b]))[k + 1..]
      ensures forall i :: 0 <= i < TABLESIZE && i != b ==> Pairs(chains[i]) == old(Pairs(chains[i]))
    {
      hide Hash, Pairs, Settled, Filed;
      ChainStored(b);
      ghost var rest := chains[b][..k] + chains[b][k + 1..];
      CanRemove(e, b, k);
      DetachFrom(e, b, k);
      chains := chains[b := rest];
      entries := entries - {e};
    }

    lemma CanRemove(e: Entry, b: nat, k: nat)
      requires Valid() && e in entries && b == Hash(e.text) && k < |chains[b]| && e == chains[b][k]
      ensures var rest := chains[b][..k] + chains[b][k + 1..];
        Filed(chains[b := rest], entries - {e})
      ensures var p := Pairs(chains[b]);
        && (forall t :: t != e.text ==> CountOf(p[..k] + p[k + 1..], t) == CountOf(p, t))
        && CountOf(p[..k] + p[k + 1..], e.text) == 0
    {
      hide Hash, Pairs, CountOf, Settled, Keyed;
      assert Settled(slots[b], chains[b], b);
      ChainFacts(slots[b], chains[b], b, k);
      RemovedCounts(Pairs(chains[b]), k);
      OtherBuckets(b);
      FiledWithout(chains, entries, b, e, chains[b][..k] + chains[b][k + 1..]);
    }

    lemma EmptyBucket(b: nat)
      requires b < TABLESIZE && Valid() && slots[b] == null
      ensures chains[b] == [] && Pairs(chains[b]) == [] && forall text :: CountOf([], text) == 0
    {
      assert Settled(slots[b], chains[b], b);
    }
  }

  method AppendNew(text: Text, ghost b: nat, last: Entry, ghost head: Entry?, ghost chain: seq<Entry>)
    returns (e: Entry)
    requires Settled(head, chain, b) && chain != [] && last == chain[|chain| - 1] && Hash(text) == b
    requires forall i :: 0 <= i < |chain| ==> chain[i].text != text
    modifies last`next
    ensures fresh(e) && e.text == text && Settled(head, chain + [e], b)
    ensures Pairs(chain + [e]) == old(Pairs(chain)) + [(text, 1)]
  {
    hide Hash, Bucket, Pairs;
    e := new Entry(text, Previous(last));
    Append(last, e, head, chain, b);
  }

  lemma NodeFacts(head: Entry?, chain: seq<Entry>, b: nat, k: nat)
    requires Settled(head, chain, b) && k < |chain|
    ensures Top(chain[k].refcount) == (k == 0)
    ensures k == 0 ==> chain[k].back == Slot(b) && head == chain[k]
    ensures k > 0 ==> chain[k].back.Previous? && chain[k].back.entry in chain
    ensures chain[k].next != null ==> chain[k].next in chain && chain[k].next != chain[k]
  {
    hide Hash, Count, Top;
    assert NodeOk(chain, k, b);
    OneEntry(chain, k);
    hide Distinct;
  }

  lemma ChainFacts(head: Entry?, chain: seq<Entry>, b: nat, k: nat)
    requires Settled(head, chain, b) && k < |chain|
    ensures Keyed(Pairs(chain))
    ensures forall x :: x in chain[..k] + chain[k + 1..] <==> x in chain && x != chain[k]
  {
    hide Hash, Pairs, NodeOk;
    OneEntry(chain, k);
    var rest := chain[..k] + chain[k + 1..];
    forall x | x in chain && x != chain[k]
      ensures x in rest
    {
      var j :| 0 <= j < |chain| && chain[j] == x;
      assert rest[if j < k then j else j - 1] == x;
    }
  }

  lemma RemovedCounts(p: seq<(Text, nat)>, k: nat)
    requires Keyed(p) && k < |p|
    ensures forall t :: t != p[k].0 ==> CountOf(p[..k] + p[k + 1..], t) == CountOf(p, t)
    ensures CountOf(p[..k] + p[k + 1..], p[k].0) == 0
  {
    CountMissing(p[..k] + p[k + 1..], p[k].0);
    forall t | t != p[k].0
      ensures CountOf(p[..k] + p[k + 1..], t) == CountOf(p, t)
    {
      CountRemoved(p, k, t);
    }
  }

  method DetachHead(e: Entry, ghost chain: seq<Entry>, ghost b: nat) returns (head: Entry?)
    requires Settled(e, chain, b) && chain != []
    modifies if e.next == null then {} else {e.next}
    ensures Settled(head, chain[..0] + chain[1..], b)
    ensures Pairs(chain[..0] + chain[1..]) == old(Pairs(chain))[..0] + old(Pairs(chain))[1..]
  {
    hide Hash, Bucket, Pairs;
    head := DropHead(e, chain, b);
    assert chain[..0] + chain[1..] == chain[1..];
    ghost var p := old(Pairs(chain));
    assert p[..0] + p[1..] == p[1..];
  }

  method DetachInner(e: Entry, ghost head: Entry?, ghost chain: seq<Entry>, ghost k: nat, ghost b: nat)
    requires Settled(head, chain, b) && 0 < k < |chain| && e == chain[k] && e.back.Previous?
    modifies e.back.entry`next, if e.next == null then {} else {e.next}
    ensures Settled(head, chain[..k] + chain[k + 1..], b)
    ensures Pairs(chain[..k] + chain[k + 1..]) == old(Pairs(chain))[..k] + old(Pairs(chain))[k + 1..]
  {
    hide Hash, Bucket, Pairs;
    DropInner(e, head, chain, k, b);
  }

  lemma Belongs(head: Entry?, chain: seq<Entry>, b: nat, k: nat)
    requires Settled(head, chain, b) && k < |chain|
    ensures Hash(chain[k].text) == b
  {}

  lemma AppendedCounts(was: seq<(Text, nat)>, text: Text, head: Entry?, chain: seq<Entry>, b: nat)
    requires Settled(head, chain, b) && Pairs(chain) == was + [(text, 1)]
    ensures CountOf(Pairs(chain), text) == 1
    ensures forall t :: t != text ==> CountOf(Pairs(chain), t) == CountOf(was, t)
  {
    hide Hash, Pairs;
    CountFound(Pairs(chain), |was|);
    forall t | t != text
      ensures CountOf(Pairs(chain), t) == CountOf(was, t)
    {
      CountAppended(was, (text, 1), t);
    }
  }

  lemma SingleBucket(e: Entry, b: nat)
    requires e.next == null && e.back == Slot(b) && e.refcount == TOPBIT + 1
    ensures Bucket(e, [e], b) && Pairs([e]) == [(e.text, 1)]
    ensures forall text :: CountOf([(e.text, 1)], text) == if text == e.text then 1 else 0
  {}
}
