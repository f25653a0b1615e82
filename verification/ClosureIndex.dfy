/**
 A built closure of celestial_closure.c: fragments that pairwise share no cell,
 and the per-depth index that finds the fragment of a window cell.
 */
module ClosureIndex {
  import opened Arithmetic
  import opened Packets
  import opened ClosureCodec
  import opened ClosureRoundTrip

  const WINDOW_MAX: int := 255

  // ---- what a closure is ---------------------------------------------------

  predicate Covers(f: Fragment, depth: int, x: int, y: int) {
    f.depth == depth && f.x <= x < f.x + f.width && f.y <= y < f.y + f.height
  }

  /** A covered cell's place in its fragment's row-major values. */
  lemma CellPlace(f: Fragment, x: int, y: int)
    requires Typed(f) && Covers(f, f.depth, x, y)
    ensures 0 <= x - f.x + f.width * (y - f.y) < |f.values|
  {
    IndexFacts(f.width, f.height, x - f.x, y - f.y);
  }

  function CellValue(f: Fragment, x: int, y: int): (v: nat)
    requires Typed(f) && Covers(f, f.depth, x, y)
    ensures v < UINT32
  {
    CellPlace(f, x, y);
    f.values[x - f.x + f.width * (y - f.y)]
  }

  ghost predicate Disjoint(fs: seq<Fragment>) {
    forall i, j, depth, x, y :: 0 <= i < j < |fs| ==> !(Covers(fs[i], depth, x, y) && Covers(fs[j], depth, x, y))
  }

  /** The value of a window cell by a linear scan: of the first fragment from i
   on that covers it, or zero. */
  function Scan(fs: seq<Fragment>, depth: int, x: int, y: int, i: nat): nat
    requires AllTyped(fs) && i <= |fs|
    decreases |fs| - i
  {
    if i == |fs| then 0
    else if Covers(fs[i], depth, x, y) then CellValue(fs[i], x, y)
    else Scan(fs, depth, x, y, i + 1)
  }

  function ValueAt(fs: seq<Fragment>, depth: int, x: int, y: int): nat
    requires AllTyped(fs)
  {
    Scan(fs, depth, x, y, 0)
  }

  lemma {:induction false} ScanFinds(fs: seq<Fragment>, depth: int, x: int, y: int, i: nat, j: nat)
    requires AllTyped(fs) && Disjoint(fs) && i <= j < |fs| && Covers(fs[j], depth, x, y)
    ensures Scan(fs, depth, x, y, i) == CellValue(fs[j], x, y)
    decreases j - i
  {
    hide CellValue;
    if i < j {
      assert !(Covers(fs[j], depth, x, y) && Covers(fs[i], depth, x, y));
      ScanFinds(fs, depth, x, y, i + 1, j);
    }
  }

  lemma {:induction false} ScanMisses(fs: seq<Fragment>, depth: int, x: int, y: int, i: nat)
    requires AllTyped(fs) && i <= |fs| && forall j :: i <= j < |fs| ==> !Covers(fs[j], depth, x, y)
    ensures Scan(fs, depth, x, y, i) == 0
    decreases |fs| - i
  {
    if i < |fs| {
      ScanMisses(fs, depth, x, y, i + 1);
    }
  }

  /** A fragment's j-th value is that of column j mod width and row j / width. */
  lemma CellOfEntry(f: Fragment, j: nat)
    requires Typed(f) && j < |f.values|
    ensures f.width > 0
    ensures var x, y := f.x + j % f.width, f.y + j / f.width;
      Covers(f, f.depth, x, y) && CellValue(f, x, y) == f.values[j]
  {
    CoordinateFacts(f.width, f.height, j);
  }

  /** So every value sent is the value of one window cell. */
  lemma EntryIsCell(fs: seq<Fragment>, i: nat, j: nat)
    requires AllTyped(fs) && Disjoint(fs) && i < |fs| && j < |fs[i].values|
    ensures fs[i].width > 0
    ensures ValueAt(fs, fs[i].depth, fs[i].x + j % fs[i].width, fs[i].y + j / fs[i].width) == fs[i].values[j]
  {
    hide CellValue, Typed, Covers, Disjoint;
    assert Typed(fs[i]);
    CellOfEntry(fs[i], j);
    ScanFinds(fs, fs[i].depth, fs[i].x + j % fs[i].width, fs[i].y + j / fs[i].width, 0, i);
  }

  /** A cell that exits to the sky has no closure cell above it but an outside
   record. */
  ghost predicate SkyClear(fs: seq<Fragment>)
    requires AllTyped(fs)
  {
    forall i, x, y :: 0 <= i < |fs| && Covers(fs[i], fs[i].depth, x, y) && fs[i].depth < DEPTH_MAX
                      && Bit(CellValue(fs[i], x, y), SKY_EXIT)
      ==> ValueAt(fs, fs[i].depth + 1, x, y) in {0, OUTSIDE_RECORD}
  }

  predicate WindowValid(w: int, h: int) { 0 < w <= WINDOW_MAX && 0 < h <= WINDOW_MAX }

  /** Everything celestial_closure_build() demands. */
  ghost predicate Buildable(fs: seq<Fragment>, w: int, h: int) {
    && WindowValid(w, h) && |fs| <= FRAGMENTS_MAX
    && AllFragmentsValid(fs, w, h) && AllTyped(fs)
    && Disjoint(fs) && SkyClear(fs)
  }

  // ---- the pigeonhole ------------------------------------------------------

  /** A number of its own for every cell of every depth of a window. */
  function Key(w: nat, h: nat, depth: int, x: int, y: int): int {
    x + w * (y + h * (depth + DEPTH_MAX))
  }

  predicate InBox(w: nat, h: nat, depth: int, x: int, y: int) {
    DepthValid(depth) && 0 <= x < w && 0 <= y < h
  }

  lemma KeyInRange(w: nat, h: nat, depth: int, x: int, y: int)
    requires InBox(w, h, depth, x, y)
    ensures 0 <= Key(w, h, depth, x, y) < w * h * DEPTHS
    ensures 0 <= y + h * (depth + DEPTH_MAX) < h * DEPTHS
  {
    IndexFacts(h, DEPTHS, y, depth + DEPTH_MAX);
    IndexFacts(w, h * DEPTHS, x, y + h * (depth + DEPTH_MAX));
    assert w * (h * DEPTHS) == w * h * DEPTHS;
  }

  lemma KeyInjective(w: nat, h: nat, depth: int, x: int, y: int, depth': int, x': int, y': int)
    requires InBox(w, h, depth, x, y) && InBox(w, h, depth', x', y')
    requires Key(w, h, depth, x, y) == Key(w, h, depth', x', y')
    ensures depth == depth' && x == x' && y == y'
  {
    var q, q' := y + h * (depth + DEPTH_MAX), y' + h * (depth' + DEPTH_MAX);
    KeyInRange(w, h, depth, x, y);
    KeyInRange(w, h, depth', x', y');
    DivUnique(x + w * q, w, q, x);
    DivUnique(x' + w * q', w, q', x');
    DivUnique(q, h, depth + DEPTH_MAX, y);
    DivUnique(q', h, depth' + DEPTH_MAX, y');
  }

  ghost predicate Distinct(s: seq<int>) { forall i, j :: 0 <= i < j < |s| ==> s[i] != s[j] }

  /** n pigeons, k holes. */
  lemma {:induction false} Pigeonhole(s: seq<int>, k: nat)
    requires Distinct(s) && forall i :: 0 <= i < |s| ==> 0 <= s[i] < k
    ensures |s| <= k
    decreases k
  {
    if s != [] {
      assert 0 <= s[0] < k;
      if exists i :: 0 <= i < |s| && s[i] == k - 1 {
        var i :| 0 <= i < |s| && s[i] == k - 1;
        var t := s[..i] + s[i + 1..];
        Pigeonhole(t, k - 1);
      } else {
        Pigeonhole(s, k - 1);
      }
    }
  }

  /** The keys of a fragment's cells, in its values' order. */
  ghost function Keys(f: Fragment, w: nat, h: nat): (s: seq<int>)
    requires Typed(f)
    ensures |s| == |f.values|
  {
    seq(|f.values|, j requires 0 <= j < |f.values| =>
      CoordinateFacts(f.width, f.height, j);
      Key(w, h, f.depth, f.x + j % f.width, f.y + j / f.width))
  }

  lemma KeyOf(f: Fragment, w: nat, h: nat, j: int)
    requires FragmentValid(f, w, h) && 0 <= j < |f.values|
    ensures var x, y := f.x + j % f.width, f.y + j / f.width;
      && Covers(f, f.depth, x, y) && InBox(w, h, f.depth, x, y)
      && j == x - f.x + f.width * (y - f.y)
      && Keys(f, w, h)[j] == Key(w, h, f.depth, x, y)
      && 0 <= Keys(f, w, h)[j] < w * h * DEPTHS
  {
    CoordinateFacts(f.width, f.height, j);
    hide AllValid, Key;
    KeyInRange(w, h, f.depth, f.x + j % f.width, f.y + j / f.width);
  }

  lemma KeysDistinct(f: Fragment, w: nat, h: nat)
    requires FragmentValid(f, w, h)
    ensures Distinct(Keys(f, w, h))
  {
    hide Keys;
    forall i, j | 0 <= i < j < |f.values|
      ensures Keys(f, w, h)[i] != Keys(f, w, h)[j]
    {
      KeyOf(f, w, h, i);
      KeyOf(f, w, h, j);
      hide FragmentValid, Key, Covers;
      if Keys(f, w, h)[i] == Keys(f, w, h)[j] {
        KeyInjective(w, h, f.depth, f.x + i % f.width, f.y + i / f.width,
                     f.depth, f.x + j % f.width, f.y + j / f.width);
      }
    }
  }

  /** The keys of all fragments' cells. */
  ghost function AllKeys(fs: seq<Fragment>, w: nat, h: nat): (s: seq<int>)
    requires AllTyped(fs)
    ensures |s| == TotalCells(fs)
  {
    if fs == [] then [] else Keys(fs[0], w, h) + AllKeys(fs[1..], w, h)
  }

  lemma TailDisjoint(fs: seq<Fragment>)
    requires fs != [] && Disjoint(fs)
    ensures Disjoint(fs[1..])
  {
    forall i, j, depth, x, y | 0 <= i < j < |fs[1..]|
      ensures !(Covers(fs[1..][i], depth, x, y) && Covers(fs[1..][j], depth, x, y))
    {
      assert !(Covers(fs[i + 1], depth, x, y) && Covers(fs[j + 1], depth, x, y));
    }
  }

  /** Every key of some fragments is that of a cell one of them covers. */
  lemma {:induction false} KeyCovered(fs: seq<Fragment>, w: nat, h: nat, k: int) returns (i: nat, j: nat)
    requires AllFragmentsValid(fs, w, h) && AllTyped(fs) && 0 <= k < TotalCells(fs)
    ensures i < |fs| && j < |fs[i].values| && AllKeys(fs, w, h)[k] == Keys(fs[i], w, h)[j]
    decreases |fs|
  {
    TailValid(fs, w, h);
    hide AllFragmentsValid, AllTyped, Keys;
    if k < |fs[0].values| {
      i, j := 0, k;
    } else {
      i, j := KeyCovered(fs[1..], w, h, k - |fs[0].values|);
      i := i + 1;
    }
  }

  /** Two cells of different fragments never share a key. */
  lemma KeysApart(f: Fragment, g: Fragment, w: nat, h: nat, i: nat, j: nat)
    requires FragmentValid(f, w, h) && FragmentValid(g, w, h) && i < |f.values| && j < |g.values|
    requires forall depth, x, y :: !(Covers(f, depth, x, y) && Covers(g, depth, x, y))
    ensures Keys(f, w, h)[i] != Keys(g, w, h)[j]
  {
    KeyOf(f, w, h, i);
    KeyOf(g, w, h, j);
    var x, y := f.x + i % f.width, f.y + i / f.width;
    assert !(Covers(f, f.depth, x, y) && Covers(g, f.depth, x, y));
    hide Keys, FragmentValid, Key;
    if Keys(f, w, h)[i] == Keys(g, w, h)[j] {
      KeyInjective(w, h, f.depth, x, y, g.depth, g.x + j % g.width, g.y + j / g.width);
    }
  }

  lemma {:induction false} AllKeysDistinct(fs: seq<Fragment>, w: nat, h: nat)
    requires AllFragmentsValid(fs, w, h) && AllTyped(fs) && Disjoint(fs)
    ensures Distinct(AllKeys(fs, w, h))
    ensures forall k :: 0 <= k < TotalCells(fs) ==> 0 <= AllKeys(fs, w, h)[k] < w * h * DEPTHS
    decreases |fs|
  {
    if fs != [] {
      TailValid(fs, w, h);
      TailDisjoint(fs);
      AllKeysDistinct(fs[1..], w, h);
      KeysDistinct(fs[0], w, h);
      HeadApart(fs, w, h);
      hide Keys, AllTyped, AllFragmentsValid, Disjoint, FragmentValid, AllKeys;
      JoinDistinct(Keys(fs[0], w, h), AllKeys(fs[1..], w, h));
      KeysJoin(fs, w, h);
    }
  }

  lemma KeysJoin(fs: seq<Fragment>, w: nat, h: nat)
    requires fs != [] && AllTyped(fs) && AllTyped(fs[1..])
    ensures AllKeys(fs, w, h) == Keys(fs[0], w, h) + AllKeys(fs[1..], w, h)
  {
    hide Keys;
  }

  lemma JoinDistinct(a: seq<int>, b: seq<int>)
    requires Distinct(a) && Distinct(b) && forall i, j :: 0 <= i < |a| && 0 <= j < |b| ==> a[i] != b[j]
    ensures Distinct(a + b)
  {}

  lemma HeadApart(fs: seq<Fragment>, w: nat, h: nat)
    requires fs != [] && AllFragmentsValid(fs, w, h) && AllTyped(fs) && AllTyped(fs[1..]) && Disjoint(fs)
    ensures forall i, k :: 0 <= i < |fs[0].values| && 0 <= k < TotalCells(fs[1..]) ==>
      Keys(fs[0], w, h)[i] != AllKeys(fs[1..], w, h)[k]
    ensures forall i :: 0 <= i < |fs[0].values| ==> 0 <= Keys(fs[0], w, h)[i] < w * h * DEPTHS
  {
    TailValid(fs, w, h);
    hide Keys, AllKeys, AllTyped, FragmentValid;
    forall i | 0 <= i < |fs[0].values|
      ensures 0 <= Keys(fs[0], w, h)[i] < w * h * DEPTHS
    {
      KeyOf(fs[0], w, h, i);
    }
    forall i, k | 0 <= i < |fs[0].values| && 0 <= k < TotalCells(fs[1..])
      ensures Keys(fs[0], w, h)[i] != AllKeys(fs[1..], w, h)[k]
    {
      var n, j := KeyCovered(fs[1..], w, h, k);
      assert fs[1..][n] == fs[n + 1] && FragmentValid(fs[n + 1], w, h);
      assert forall depth, x, y :: !(Covers(fs[0], depth, x, y) && Covers(fs[n + 1], depth, x, y));
      KeysApart(fs[0], fs[n + 1], w, h, i, j);
    }
  }

  /** Disjoint fragments never claim more cells than the window has over all
   its depths, so the decoder's total never turns a closure away. */
  lemma DisjointTotal(fs: seq<Fragment>, w: nat, h: nat)
    requires AllFragmentsValid(fs, w, h) && AllTyped(fs) && Disjoint(fs) && WindowValid(w, h)
    ensures TotalCells(fs) <= TotalMax(w, h)
  {
    AllKeysDistinct(fs, w, h);
    Pigeonhole(AllKeys(fs, w, h), w * h * DEPTHS);
  }

  // ---- the built closure ---------------------------------------------------

  class Closure {
    const generation: nat
    const width: nat
    const height: nat
    const fragments: seq<Fragment>
    /** By depth, row and column: the fragment's number plus one, or zero. */
    const index: array3<nat>

    ghost predicate Valid()
      reads index
    {
      && generation < UINT32 && Buildable(fragments, width, height)
      && Indexed(index, fragments, |fragments|, width, height)
    }

    /** celestial_closure_value(): the linear scan's value, by one lookup. */
    method Value(depth: int, x: int, y: int) returns (v: nat)
      requires Valid()
      ensures v == ValueAt(fragments, depth, x, y)
    {
      v := Lookup(index, fragments, width, height, depth, x, y);
    }

    constructor (generation: nat, width: nat, height: nat, fragments: seq<Fragment>, index: array3<nat>)
      requires generation < UINT32 && Buildable(fragments, width, height)
      requires Indexed(index, fragments, |fragments|, width, height)
      ensures Valid()
      ensures this.generation == generation && this.width == width && this.height == height
      ensures this.fragments == fragments && this.index == index
    {
      this.generation, this.width, this.height := generation, width, height;
      this.fragments, this.index := fragments, index;
    }
  }

  /** The index entry of a cell among the first n fragments. */
  ghost predicate EntryIs(entry: nat, fs: seq<Fragment>, n: nat, depth: int, x: int, y: int)
    requires n <= |fs|
  {
    if entry == 0 then forall i :: 0 <= i < n ==> !Covers(fs[i], depth, x, y)
    else entry <= n && Covers(fs[entry - 1], depth, x, y)
  }

  ghost predicate IndexShape(index: array3<nat>, w: nat, h: nat) {
    index.Length0 == DEPTHS && index.Length1 == h && index.Length2 == w
  }

  ghost predicate Indexed(index: array3<nat>, fs: seq<Fragment>, n: nat, w: nat, h: nat)
    reads index
  {
    && IndexShape(index, w, h) && n <= |fs|
    && forall depth, x, y :: InBox(w, h, depth, x, y) ==> EntryIs(index[depth + DEPTH_MAX, y, x], fs, n, depth, x, y)
  }

  lemma OutsideWindow(fs: seq<Fragment>, w: int, h: int, depth: int, x: int, y: int)
    requires AllFragmentsValid(fs, w, h) && AllTyped(fs)
    requires !DepthValid(depth) || x < 0 || y < 0 || x >= w || y >= h
    ensures ValueAt(fs, depth, x, y) == 0
  {
    forall j | 0 <= j < |fs|
      ensures !Covers(fs[j], depth, x, y)
    {
      assert FragmentValid(fs[j], w, h);
    }
    ScanMisses(fs, depth, x, y, 0);
  }

  lemma IndexValue(index: array3<nat>, fs: seq<Fragment>, w: nat, h: nat, depth: int, x: int, y: int)
    requires AllTyped(fs) && Disjoint(fs) && Indexed(index, fs, |fs|, w, h) && InBox(w, h, depth, x, y)
    ensures var entry := index[depth + DEPTH_MAX, y, x];
      && entry <= |fs|
      && if entry == 0 then ValueAt(fs, depth, x, y) == 0
         else Covers(fs[entry - 1], depth, x, y) && ValueAt(fs, depth, x, y) == CellValue(fs[entry - 1], x, y)
  {
    var entry := index[depth + DEPTH_MAX, y, x];
    assert EntryIs(entry, fs, |fs|, depth, x, y);
    hide CellValue, Disjoint, AllTyped;
    if entry == 0 {
      ScanMisses(fs, depth, x, y, 0);
    } else {
      ScanFinds(fs, depth, x, y, 0, entry - 1);
    }
  }

  /** The lookup of celestial_closure_value(), for every integer depth, x and y. */
  method Lookup(index: array3<nat>, fs: seq<Fragment>, w: nat, h: nat, depth: int, x: int, y: int) returns (v: nat)
    requires AllFragmentsValid(fs, w, h) && AllTyped(fs) && Disjoint(fs) && Indexed(index, fs, |fs|, w, h)
    ensures v == ValueAt(fs, depth, x, y)
  {
    if depth < -DEPTH_MAX || depth > DEPTH_MAX || x < 0 || y < 0 || x >= w || y >= h {
      OutsideWindow(fs, w, h, depth, x, y);
      return 0;
    }
    var found := index[depth + DEPTH_MAX, y, x];
    IndexValue(index, fs, w, h, depth, x, y);
    if found == 0 {
      return 0;
    }
    var f := fs[found - 1];
    CellPlace(f, x, y);
    v := f.values[x - f.x + f.width * (y - f.y)];
  }
}
