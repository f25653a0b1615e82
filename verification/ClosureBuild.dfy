/**
 Building a closure: the checks of celestial_closure_build() and the index it
 fills.
 */
module ClosureBuild {
  import opened Packets
  import opened ClosureCodec
  import opened ClosureRoundTrip
  import opened ClosureIndex

  // ---- checks without the index -------------------------------------------

  method ValuesAreValid(values: seq<nat>) returns (ok: bool)
    requires forall j :: 0 <= j < |values| ==> values[j] < UINT32
    ensures ok == AllValid(values)
  {
    for j := 0 to |values|
      invariant forall i :: 0 <= i < j ==> ValueValid(values[i])
    {
      if !ValueValid(values[j]) {
        return false;
      }
    }
    return true;
  }

  method FragmentsAreValid(fs: seq<Fragment>, w: int, h: int) returns (ok: bool)
    requires AllTyped(fs)
    ensures ok == AllFragmentsValid(fs, w, h)
  {
    hide AllValid;
    for i := 0 to |fs|
      invariant forall j :: 0 <= j < i ==> FragmentValid(fs[j], w, h)
    {
      var f := fs[i];
      assert Typed(f);
      if f.depth < -DEPTH_MAX || f.depth > DEPTH_MAX || f.width == 0 || f.height == 0
         || f.x + f.width > w || f.y + f.height > h {
        assert !FragmentValid(fs[i], w, h);
        return false;
      }
      var valid := ValuesAreValid(f.values);
      if !valid {
        assert !FragmentValid(fs[i], w, h);
        return false;
      }
    }
    return true;
  }

  // ---- the index -----------------------------------------------------------

  /** A cell of fragment f that the marking loops have passed: every earlier row,
   and the first columns of the present one. */
  predicate Passed(f: Fragment, depth: int, x: int, y: int, column: int, row: int) {
    Covers(f, depth, x, y) && (y < f.y + row || (y == f.y + row && x < f.x + column))
  }

  /** The index while fragment n is being marked. */
  ghost predicate Marking(index: array3<nat>, fs: seq<Fragment>, n: nat, w: nat, h: nat, column: int, row: int)
    reads index
  {
    && IndexShape(index, w, h) && n < |fs|
    && forall depth, x, y :: InBox(w, h, depth, x, y) ==>
      var entry := index[depth + DEPTH_MAX, y, x];
      if Passed(fs[n], depth, x, y, column, row)
      then entry == n + 1 && forall i :: 0 <= i < n ==> !Covers(fs[i], depth, x, y)
      else EntryIs(entry, fs, n, depth, x, y)
  }

  lemma MarkingStarts(index: array3<nat>, fs: seq<Fragment>, n: nat, w: nat, h: nat)
    requires n < |fs| && Indexed(index, fs, n, w, h)
    ensures Marking(index, fs, n, w, h, 0, 0)
  {
    forall depth, x, y | InBox(w, h, depth, x, y)
      ensures EntryIs(index[depth + DEPTH_MAX, y, x], fs, n, depth, x, y)
    {}
  }

  lemma MarkingRow(index: array3<nat>, fs: seq<Fragment>, n: nat, w: nat, h: nat, row: int)
    requires n < |fs| && Marking(index, fs, n, w, h, fs[n].width, row)
    ensures Marking(index, fs, n, w, h, 0, row + 1)
  {
    hide EntryIs;
  }

  /** A fragment marked whole shares no cell with those before it. */
  lemma MarkingEnds(index: array3<nat>, fs: seq<Fragment>, n: nat, w: nat, h: nat)
    requires n < |fs| && Marking(index, fs, n, w, h, 0, fs[n].height) && FragmentValid(fs[n], w, h)
    ensures Indexed(index, fs, n + 1, w, h)
    ensures forall i, depth, x, y :: 0 <= i < n ==> !(Covers(fs[i], depth, x, y) && Covers(fs[n], depth, x, y))
  {
    forall i, depth, x, y | 0 <= i < n && Covers(fs[n], depth, x, y)
      ensures !Covers(fs[i], depth, x, y)
    {
      assert InBox(w, h, depth, x, y) && Passed(fs[n], depth, x, y, 0, fs[n].height);
    }
    forall depth, x, y | InBox(w, h, depth, x, y)
      ensures EntryIs(index[depth + DEPTH_MAX, y, x], fs, n + 1, depth, x, y)
    {
      assert Passed(fs[n], depth, x, y, 0, fs[n].height) <==> Covers(fs[n], depth, x, y);
    }
  }

  /** One cell of the marking loops. */
  method MarkCell(index: array3<nat>, fs: seq<Fragment>, n: nat, w: nat, h: nat, column: nat, row: nat)
    returns (ok: bool)
    requires n < |fs| && FragmentValid(fs[n], w, h) && column < fs[n].width && row < fs[n].height
    requires Marking(index, fs, n, w, h, column, row)
    modifies index
    ensures ok ==> Marking(index, fs, n, w, h, column + 1, row)
    ensures !ok ==> !Disjoint(fs)
  {
    var f := fs[n];
    var x, y := f.x + column, f.y + row;
    assert InBox(w, h, f.depth, x, y) && Covers(f, f.depth, x, y) && !Passed(f, f.depth, x, y, column, row);
    var entry := index[f.depth + DEPTH_MAX, y, x];
    assert EntryIs(entry, fs, n, f.depth, x, y);
    ok := entry == 0;
    index[f.depth + DEPTH_MAX, y, x] := n + 1;
    if !ok {
      assert Covers(fs[entry - 1], f.depth, x, y) && Covers(fs[n], f.depth, x, y);
    }
  }

  method MarkFragment(index: array3<nat>, fs: seq<Fragment>, n: nat, w: nat, h: nat) returns (ok: bool)
    requires n < |fs| && FragmentValid(fs[n], w, h) && Indexed(index, fs, n, w, h)
    modifies index
    ensures ok ==> Indexed(index, fs, n + 1, w, h)
    ensures ok ==> forall i, depth, x, y :: 0 <= i < n ==> !(Covers(fs[i], depth, x, y) && Covers(fs[n], depth, x, y))
    ensures !ok ==> !Disjoint(fs)
  {
    var f := fs[n];
    MarkingStarts(index, fs, n, w, h);
    hide Marking, Disjoint, Indexed, FragmentValid;
    var row := 0;
    while row < f.height
      invariant 0 <= row <= f.height && Marking(index, fs, n, w, h, 0, row)
    {
      var column := 0;
      while column < f.width
        invariant 0 <= column <= f.width && Marking(index, fs, n, w, h, column, row)
      {
        ok := MarkCell(index, fs, n, w, h, column, row);
        if !ok {
          return false;
        }
        column := column + 1;
      }
      MarkingRow(index, fs, n, w, h, row);
      row := row + 1;
    }
    MarkingEnds(index, fs, n, w, h);
    return true;
  }

  /** The index loop: it succeeds exactly when no two fragments share a cell. */
  method MarkAll(fs: seq<Fragment>, w: nat, h: nat) returns (ok: bool, index: array3<nat>)
    requires AllFragmentsValid(fs, w, h)
    ensures ok <==> Disjoint(fs)
    ensures ok ==> Indexed(index, fs, |fs|, w, h)
    ensures fresh(index)
  {
    index := new nat[DEPTHS, h, w]((d, y, x) => 0);
    hide FragmentValid;
    for n := 0 to |fs|
      invariant Indexed(index, fs, n, w, h)
      invariant forall i, j, depth, x, y :: 0 <= i < j < n ==>
        !(Covers(fs[i], depth, x, y) && Covers(fs[j], depth, x, y))
    {
      assert FragmentValid(fs[n], w, h);
      ok := MarkFragment(index, fs, n, w, h);
      if !ok {
        return false, index;
      }
    }
    return true, index;
  }

  // ---- sky exits -----------------------------------------------------------

  /** One cell's sky exit is clear, or it has none. */
  ghost predicate ExitClear(fs: seq<Fragment>, f: Fragment, x: int, y: int)
    requires AllTyped(fs) && Typed(f) && Covers(f, f.depth, x, y)
  {
    if f.depth < DEPTH_MAX && Bit(CellValue(f, x, y), SKY_EXIT)
    then ValueAt(fs, f.depth + 1, x, y) == 0 || ValueAt(fs, f.depth + 1, x, y) == OUTSIDE_RECORD
    else true
  }

  ghost predicate FragmentClear(fs: seq<Fragment>, f: Fragment, column: int, row: int)
    requires AllTyped(fs) && Typed(f)
  {
    forall x, y :: Passed(f, f.depth, x, y, column, row) ==> ExitClear(fs, f, x, y)
  }

  lemma ClearMeans(fs: seq<Fragment>)
    requires AllTyped(fs)
    ensures SkyClear(fs) <==> forall i :: 0 <= i < |fs| ==> FragmentClear(fs, fs[i], 0, fs[i].height)
  {
    hide ValueAt, CellValue;
    if SkyClear(fs) {
      forall i | 0 <= i < |fs|
        ensures FragmentClear(fs, fs[i], 0, fs[i].height)
      {}
    } else {
      var i, x, y :| 0 <= i < |fs| && Covers(fs[i], fs[i].depth, x, y) && fs[i].depth < DEPTH_MAX
                     && Bit(CellValue(fs[i], x, y), SKY_EXIT)
                     && ValueAt(fs, fs[i].depth + 1, x, y) !in {0, OUTSIDE_RECORD};
      assert Passed(fs[i], fs[i].depth, x, y, 0, fs[i].height) && !ExitClear(fs, fs[i], x, y);
    }
  }

  lemma ClearRow(fs: seq<Fragment>, f: Fragment, row: int)
    requires AllTyped(fs) && Typed(f)
    ensures FragmentClear(fs, f, f.width, row) <==> FragmentClear(fs, f, 0, row + 1)
    ensures FragmentClear(fs, f, 0, 0)
  {
    hide ExitClear;
    assert forall x, y :: Passed(f, f.depth, x, y, f.width, row) <==> Passed(f, f.depth, x, y, 0, row + 1);
  }

  lemma PassedNext(f: Fragment, column: nat, row: nat)
    requires column < f.width && row < f.height
    ensures forall x, y :: Passed(f, f.depth, x, y, column, row) ==> Passed(f, f.depth, x, y, column + 1, row)
    ensures Passed(f, f.depth, f.x + column, f.y + row, column + 1, row)
    ensures forall x, y :: Passed(f, f.depth, x, y, column + 1, row) ==>
      Passed(f, f.depth, x, y, column, row) || (x == f.x + column && y == f.y + row)
  {}

  lemma ClearCell(fs: seq<Fragment>, f: Fragment, column: nat, row: nat)
    requires AllTyped(fs) && Typed(f) && column < f.width && row < f.height
    ensures FragmentClear(fs, f, column + 1, row) <==>
      FragmentClear(fs, f, column, row) && ExitClear(fs, f, f.x + column, f.y + row)
  {
    hide ExitClear;
    var x0, y0 := f.x + column, f.y + row;
    PassedNext(f, column, row);
    hide Passed;
    assert Passed(f, f.depth, x0, y0, column + 1, row);
  }

  lemma ClearGrows(fs: seq<Fragment>, f: Fragment, column: nat, row: nat)
    requires AllTyped(fs) && Typed(f) && column <= f.width && row < f.height
    ensures FragmentClear(fs, f, 0, f.height) ==> FragmentClear(fs, f, column, row)
  {
    hide ExitClear;
    assert forall x, y :: Passed(f, f.depth, x, y, column, row) ==> Passed(f, f.depth, x, y, 0, f.height);
  }

  method FragmentExitsClear(index: array3<nat>, fs: seq<Fragment>, w: nat, h: nat, f: Fragment) returns (ok: bool)
    requires AllFragmentsValid(fs, w, h) && AllTyped(fs) && Disjoint(fs) && Indexed(index, fs, |fs|, w, h) && Typed(f)
    ensures ok == FragmentClear(fs, f, 0, f.height)
  {
    hide AllFragmentsValid, AllTyped, Disjoint, Indexed, FragmentClear, ValueAt, Typed, CellValue;
    if f.depth >= DEPTH_MAX {
      NoExits(fs, f);
      return true;
    }
    var row := 0;
    ClearRow(fs, f, 0);
    while row < f.height
      invariant 0 <= row <= f.height && FragmentClear(fs, f, 0, row)
    {
      var column := 0;
      while column < f.width
        invariant 0 <= column <= f.width && FragmentClear(fs, f, column, row)
      {
        var x, y := f.x + column, f.y + row;
        ClearCell(fs, f, column, row);
        ClearGrows(fs, f, column + 1, row);
        var clear := ExitIsClear(index, fs, w, h, f, x, y);
        if !clear {
          return false;
        }
        column := column + 1;
      }
      ClearRow(fs, f, row);
      row := row + 1;
    }
    return true;
  }

  lemma NoExits(fs: seq<Fragment>, f: Fragment)
    requires AllTyped(fs) && Typed(f) && f.depth >= DEPTH_MAX
    ensures FragmentClear(fs, f, 0, f.height)
  {}

  method ExitIsClear(index: array3<nat>, fs: seq<Fragment>, w: nat, h: nat, f: Fragment, x: nat, y: nat)
    returns (ok: bool)
    requires AllFragmentsValid(fs, w, h) && AllTyped(fs) && Disjoint(fs) && Indexed(index, fs, |fs|, w, h)
    requires Typed(f) && Covers(f, f.depth, x, y) && f.depth < DEPTH_MAX
    ensures ok == ExitClear(fs, f, x, y)
  {
    CellPlace(f, x, y);
    if !Bit(f.values[x - f.x + f.width * (y - f.y)], SKY_EXIT) {
      return true;
    }
    var above := Lookup(index, fs, w, h, f.depth + 1, x, y);
    return above == 0 || above == OUTSIDE_RECORD;
  }

  method SkyIsClear(index: array3<nat>, fs: seq<Fragment>, w: nat, h: nat) returns (ok: bool)
    requires AllFragmentsValid(fs, w, h) && AllTyped(fs) && Disjoint(fs) && Indexed(index, fs, |fs|, w, h)
    ensures ok == SkyClear(fs)
  {
    ClearMeans(fs);
    hide SkyClear, FragmentClear, Disjoint, Indexed;
    for i := 0 to |fs|
      invariant forall j :: 0 <= j < i ==> FragmentClear(fs, fs[j], 0, fs[j].height)
    {
      var clear := FragmentExitsClear(index, fs, w, h, fs[i]);
      if !clear {
        return false;
      }
    }
    return true;
  }

  // ---- building ------------------------------------------------------------

  /** celestial_closure_build(): a closure exactly when everything holds. */
  method Build(generation: nat, w: int, h: int, fs: seq<Fragment>) returns (c: Closure?)
    requires generation < UINT32 && AllTyped(fs)
    ensures c != null <==> Buildable(fs, w, h)
    ensures c != null ==> c.Valid() && fresh(c.index)
    ensures c != null ==> c.generation == generation && c.fragments == fs && c.width == w && c.height == h
  {
    hide Disjoint, SkyClear, Indexed;
    if w <= 0 || h <= 0 || w > WINDOW_MAX || h > WINDOW_MAX || |fs| > FRAGMENTS_MAX {
      return null;
    }
    var valid := FragmentsAreValid(fs, w, h);
    if !valid {
      return null;
    }
    var disjoint, index := MarkAll(fs, w, h);
    if !disjoint {
      return null;
    }
    var clear := SkyIsClear(index, fs, w, h);
    if !clear {
      return null;
    }
    c := new Closure(generation, w, h, fs, index);
  }
}
