/**
 Decoding what the closure codec writes rebuilds what was written.
 */
module ClosureRoundTrip {
  import opened Packets
  import opened ClosureCodec

  lemma OneRun(n: Byte, v: nat, tail: seq<Byte>, rest: seq<Byte>, cells: nat)
    requires 1 <= n <= cells && v < UINT32 && ValueValid(v)
    ensures var b := [n] + Bytes32(v) + tail + rest;
      RunValid(b, cells) && b[0] == n && Word32(b[1..5]) == v && b[5..] == tail + rest
  {
    Words32(v);
    hide ValueValid, Word32, Bytes32;
    var b := [n] + Bytes32(v) + tail + rest;
    assert b[1..5] == Bytes32(v);
  }

  lemma ParseStep(b: seq<Byte>, cells: nat, whole: seq<nat>, vs: seq<nat>, rest: seq<Byte>)
    requires cells > 0 && RunValid(b, cells) && ParseRuns(b[5..], cells - b[0]) == Got(vs, rest)
    requires whole == Repeat(Word32(b[1..5]), b[0]) + vs
    ensures ParseRuns(b, cells) == Got(whole, rest)
  {
    hide ValueValid, Word32;
  }

  lemma RunSplit(values: seq<nat>, i: nat, n: nat)
    requires i < i + n <= |values| && forall j :: i <= j < i + n ==> values[j] == values[i]
    ensures values[i..] == Repeat(values[i], n) + values[i + n..]
  {}

  lemma EncodeRun(values: seq<nat>, i: nat, n: nat)
    requires i < |values| && AllValid(values) && n == RunFrom(values, i, 1)
    ensures EncodeRuns(values, i) == [n] + Bytes32(values[i]) + EncodeRuns(values, i + n)
  {
    hide ValueValid, Bytes32, RunFrom;
  }

  /** The first run of the cells from i on, and what follows it. */
  lemma EncodeStep(values: seq<nat>, i: nat, n: nat)
    requires i < |values| && AllValid(values) && n == RunFrom(values, i, 1)
    ensures EncodeRuns(values, i) == [n] + Bytes32(values[i]) + EncodeRuns(values, i + n)
    ensures values[i..] == Repeat(values[i], n) + values[i + n..]
  {
    hide ValueValid, Bytes32, RunFrom, EncodeRuns, Repeat;
    EncodeRun(values, i, n);
    RunEqual(values, i, 1);
    RunSplit(values, i, n);
  }

  lemma NoRuns(values: seq<nat>, rest: seq<Byte>)
    requires AllValid(values)
    ensures ParseRuns(EncodeRuns(values, |values|) + rest, 0) == Got(values[|values|..], rest)
  {
    assert EncodeRuns(values, |values|) + rest == rest && values[|values|..] == [];
  }

  /** Runs written are runs read. */
  lemma {:induction false} RunsRoundTrip(values: seq<nat>, i: nat, rest: seq<Byte>)
    requires i <= |values| && AllValid(values)
    ensures ParseRuns(EncodeRuns(values, i) + rest, |values| - i) == Got(values[i..], rest)
    decreases |values| - i
  {
    hide ValueValid, Word32, Bytes32, RunValid, EncodeRuns, ParseRuns, RunFrom;
    if i == |values| {
      NoRuns(values, rest);
    } else {
      var n := RunFrom(values, i, 1);
      EncodeStep(values, i, n);
      OneRun(n, values[i], EncodeRuns(values, i + n), rest, |values| - i);
      RunsRoundTrip(values, i + n, rest);
      ParseStep(EncodeRuns(values, i) + rest, |values| - i, values[i..], values[i + n..], rest);
    }
  }

  /** What the codec requires of a fragment of a window. */
  ghost predicate FragmentValid(f: Fragment, w: int, h: int) {
    && Typed(f) && DepthValid(f.depth) && f.width != 0 && f.height != 0
    && f.x + f.width <= w && f.y + f.height <= h
    && AllValid(f.values)
  }

  ghost predicate AllFragmentsValid(fs: seq<Fragment>, w: int, h: int) {
    forall i :: 0 <= i < |fs| ==> FragmentValid(fs[i], w, h)
  }

  function TotalCells(fs: seq<Fragment>): nat {
    if fs == [] then 0 else |fs[0].values| + TotalCells(fs[1..])
  }

  lemma FragmentRoundTrip(f: Fragment, w: int, h: int, total: nat, rest: seq<Byte>)
    requires FragmentValid(f, w, h) && total + |f.values| <= TotalMax(w, h)
    ensures ParseFragment(EncodeFragment(f) + rest, w, h, total) == Got(f, rest)
  {
    hide EncodeRuns, ParseRuns, TotalMax, AllValid, DepthValid;
    var b := EncodeFragment(f) + rest;
    var runs := EncodeRuns(f.values, 0);
    assert b[6..] == runs + rest;
    Int8RoundTrip(f.depth);
    CellsNonzero(f.width, f.height);
    RunsRoundTrip(f.values, 0, rest);
    assert f.values[0..] == f.values;
    assert HeaderCells(b) == |f.values|;
  }

  lemma CellsNonzero(w: nat, h: nat)
    ensures w * h != 0 <==> w != 0 && h != 0
  {}

  lemma EncodeLast(fs: seq<Fragment>, f: Fragment)
    requires Typed(f) && AllTyped(fs) && AllTyped(fs + [f])
    ensures EncodeFragments(fs + [f]) == EncodeFragments(fs) + EncodeFragment(f)
  {
    hide Typed, EncodeFragment;
    var all := fs + [f];
    assert all[..|all| - 1] == fs && all[|all| - 1] == f;
  }

  lemma {:induction false} EncodeCons(f: Fragment, fs: seq<Fragment>)
    requires Typed(f) && AllTyped(fs)
    ensures AllTyped([f] + fs)
    ensures EncodeFragments([f] + fs) == EncodeFragment(f) + EncodeFragments(fs)
    decreases |fs|
  {
    hide EncodeFragment, EncodeFragments, Typed;
    if fs == [] {
      EncodeLast([], f);
      assert [f] + fs == [] + [f];
      EncodeNone();
    } else {
      var init, last := fs[..|fs| - 1], fs[|fs| - 1];
      assert fs == init + [last] && [f] + fs == ([f] + init) + [last];
      EncodeCons(f, init);
      EncodeLast(init, last);
      EncodeLast([f] + init, last);
    }
  }

  lemma EncodeNone()
    ensures EncodeFragments([]) == []
  {}

  lemma TailValid(fs: seq<Fragment>, w: int, h: int)
    requires fs != [] && AllFragmentsValid(fs, w, h)
    ensures FragmentValid(fs[0], w, h) && AllFragmentsValid(fs[1..], w, h) && AllTyped(fs[1..])
  {
    forall i | 0 <= i < |fs[1..]|
      ensures FragmentValid(fs[1..][i], w, h)
    {
      assert FragmentValid(fs[i + 1], w, h);
    }
  }

  lemma ParseFragmentsStep(b: seq<Byte>, n: nat, w: int, h: int, total: nat,
                           f: Fragment, rest: seq<Byte>, fs: seq<Fragment>, end: seq<Byte>)
    requires n > 0 && ParseFragment(b, w, h, total) == Got(f, rest)
    requires ParseFragments(rest, n - 1, w, h, total + |f.values|) == Got(fs, end)
    ensures ParseFragments(b, n, w, h, total) == Got([f] + fs, end)
  {
    hide ParseFragment, TotalMax;
  }

  lemma NoFragments(w: int, h: int, total: nat, rest: seq<Byte>)
    ensures ParseFragments(EncodeFragments([]) + rest, 0, w, h, total) == Got([], rest)
  {
    assert EncodeFragments([]) + rest == rest;
  }

  /** The first fragment of an encoding, and what follows it. */
  lemma EncodeSplit(fs: seq<Fragment>, rest: seq<Byte>)
    requires fs != [] && AllTyped(fs) && AllTyped(fs[1..])
    ensures EncodeFragments(fs) + rest == EncodeFragment(fs[0]) + (EncodeFragments(fs[1..]) + rest)
    ensures fs == [fs[0]] + fs[1..]
  {
    hide Typed, EncodeFragment;
    EncodeCons(fs[0], fs[1..]);
    hide EncodeFragments;
    assert fs == [fs[0]] + fs[1..];
  }

  lemma FragmentsStep(fs: seq<Fragment>, w: int, h: int, total: nat, rest: seq<Byte>)
    requires fs != [] && FragmentValid(fs[0], w, h) && total + |fs[0].values| <= TotalMax(w, h)
    requires AllTyped(fs) && AllTyped(fs[1..])
    requires ParseFragments(EncodeFragments(fs[1..]) + rest, |fs| - 1, w, h, total + |fs[0].values|)
          == Got(fs[1..], rest)
    ensures ParseFragments(EncodeFragments(fs) + rest, |fs|, w, h, total) == Got(fs, rest)
  {
    hide FragmentValid, AllTyped, TotalMax, EncodeFragment, EncodeFragments, ParseFragment, ParseFragments;
    var after := EncodeFragments(fs[1..]) + rest;
    FragmentRoundTrip(fs[0], w, h, total, after);
    ParseFragmentsStep(EncodeFragment(fs[0]) + after, |fs|, w, h, total, fs[0], after, fs[1..], rest);
    EncodeSplit(fs, rest);
  }

  lemma CellsSplit(fs: seq<Fragment>)
    requires fs != []
    ensures TotalCells(fs) == |fs[0].values| + TotalCells(fs[1..])
  {}

  /** Fragments written are fragments read. */
  lemma {:induction false} FragmentsRoundTrip(fs: seq<Fragment>, w: int, h: int, total: nat, rest: seq<Byte>)
    requires AllFragmentsValid(fs, w, h) && total + TotalCells(fs) <= TotalMax(w, h)
    ensures AllTyped(fs)
    ensures ParseFragments(EncodeFragments(fs) + rest, |fs|, w, h, total) == Got(fs, rest)
    decreases |fs|
  {
    hide AllFragmentsValid, FragmentValid, AllTyped, TotalCells, TotalMax, EncodeFragments, ParseFragments;
    ValidTyped(fs, w, h);
    if fs == [] {
      NoFragments(w, h, total, rest);
    } else {
      TailValid(fs, w, h);
      CellsSplit(fs);
      FragmentsRoundTrip(fs[1..], w, h, total + |fs[0].values|, rest);
      FragmentsStep(fs, w, h, total, rest);
    }
  }

  lemma ValidTyped(fs: seq<Fragment>, w: int, h: int)
    requires AllFragmentsValid(fs, w, h)
    ensures AllTyped(fs)
  {}

  /** A payload encoded from valid fragments is framed, and parses back to the
   same generation and fragments. */
  lemma PayloadRoundTrip(generation: nat, fs: seq<Fragment>, w: int, h: int)
    requires generation < UINT32 && |fs| < UINT16
    requires AllFragmentsValid(fs, w, h) && TotalCells(fs) <= TotalMax(w, h)
    ensures AllTyped(fs)
    ensures var data := Encode(generation, fs);
      && 6 <= |data| && Word32(data[..4]) == generation && Word16(data[4..6]) == |fs|
      && Parse(data, w, h) == Got(fs, []) && Framed(data, w, h)
  {
    FragmentsRoundTrip(fs, w, h, 0, []);
    var data := Encode(generation, fs);
    Words32(generation);
    Words16(|fs|);
    hide Bytes32, Bytes16, Word32, Word16, EncodeFragments, ParseFragments;
    assert data[..4] == Bytes32(generation) && data[4..6] == Bytes16(|fs|);
    assert data[6..] == EncodeFragments(fs) + [];
    ParsersAgree(data, w, h);
    assert AllDepthsValid(fs) by {
      forall i | 0 <= i < |fs|
        ensures DepthValid(fs[i].depth)
      {
        assert FragmentValid(fs[i], w, h);
      }
    }
  }

  // ---- sizes ---------------------------------------------------------------

  /** Runs of the cells from i on. */
  function Runs(values: seq<nat>, i: nat): nat
    requires i <= |values|
    decreases |values| - i
  {
    if i == |values| then 0 else 1 + Runs(values, i + RunFrom(values, i, 1))
  }

  lemma {:induction false} RunsSize(values: seq<nat>, i: nat)
    requires i <= |values| && forall j :: 0 <= j < |values| ==> values[j] < UINT32
    ensures |EncodeRuns(values, i)| == 5 * Runs(values, i)
    decreases |values| - i
  {
    hide Bytes32;
    if i < |values| {
      RunsSize(values, i + RunFrom(values, i, 1));
    }
  }

  /** celestial_closure_size() without its header. */
  function FragmentsSize(fs: seq<Fragment>): nat {
    if fs == [] then 0
    else FragmentsSize(fs[..|fs| - 1]) + 6 + 5 * Runs(fs[|fs| - 1].values, 0)
  }

  /** The size computed without encoding is the encoding's length. */
  lemma {:induction false} SizeIsLength(fs: seq<Fragment>)
    requires AllTyped(fs)
    ensures |EncodeFragments(fs)| == FragmentsSize(fs)
    decreases |fs|
  {
    if fs != [] {
      SizeIsLength(fs[..|fs| - 1]);
      RunsSize(fs[|fs| - 1].values, 0);
      hide EncodeRuns, Runs;
    }
  }
}
