/**
 The CELESTIAL_STRUCTURE codec of celestial_closure.c: the run-length encoding
 of a closure's fragments, the framing check that reads a payload without
 allocating anything, and the second parser that builds the fragments.
 */
module ClosureCodec {
  import opened Packets

  const DEPTH_MAX: int := 6
  const DEPTHS: nat := 13
  const FRAGMENTS_MAX: nat := 256

  // ---- cell values ---------------------------------------------------------

  predicate Bit(value: nat, weight: nat)
    requires weight > 0
  {
    value / weight % 2 == 1
  }

  const IN: nat := 0x8000
  const COVER_OPEN: nat := 0x1_0000
  const SKY_EXIT: nat := 0x2_0000
  const CONTINUOUS_UP: nat := 0x40_0000
  const OUTSIDE: nat := 0x800_0000
  const OUTSIDE_RECORD: nat := 0x800_8000
  const VALUE_LIMIT: nat := 0x1000_0000

  /** celestial_closure_value_valid() */
  predicate ValueValid(value: nat)
    requires value < UINT32
  {
    if Bit(value, OUTSIDE) then value == OUTSIDE_RECORD
    else
      value == 0
      || (value < VALUE_LIMIT && Bit(value, IN)
          && (!Bit(value, SKY_EXIT) || (!Bit(value, CONTINUOUS_UP) && Bit(value, COVER_OPEN))))
  }

  /** What a single map contributes at a single depth, row by row. */
  datatype Fragment = Fragment(depth: int, x: nat, y: nat, width: nat, height: nat, slot: nat, values: seq<nat>)

  /** What the C types of a fragment hold. */
  ghost predicate Typed(f: Fragment) {
    && -128 <= f.depth < 128 && f.x < UINT8 && f.y < UINT8 && f.width < UINT8 && f.height < UINT8 && f.slot < UINT8
    && |f.values| == f.width * f.height
    && forall j :: 0 <= j < |f.values| ==> f.values[j] < UINT32
  }

  ghost predicate AllTyped(fs: seq<Fragment>) { forall i :: 0 <= i < |fs| ==> Typed(fs[i]) }

  ghost predicate AllValid(values: seq<nat>) {
    forall j :: 0 <= j < |values| ==> values[j] < UINT32 && ValueValid(values[j])
  }

  // ---- encoding ------------------------------------------------------------

  /** A run from i that has n equal cells so far: at most 255 of them. */
  function RunFrom(values: seq<nat>, i: nat, n: nat): (r: nat)
    requires 1 <= n <= 255 && i + n <= |values|
    ensures n <= r <= 255 && i + r <= |values|
    decreases 255 - n
  {
    if i + n < |values| && n < 255 && values[i + n] == values[i] then RunFrom(values, i, n + 1) else n
  }

  lemma {:induction false} RunEqual(values: seq<nat>, i: nat, n: nat)
    requires 1 <= n <= 255 && i + n <= |values|
    requires forall j :: i <= j < i + n ==> values[j] == values[i]
    ensures forall j :: i <= j < i + RunFrom(values, i, n) ==> values[j] == values[i]
    decreases 255 - n
  {
    if i + n < |values| && n < 255 && values[i + n] == values[i] {
      RunEqual(values, i, n + 1);
    }
  }

  /** The runs of the cells from i on. */
  function EncodeRuns(values: seq<nat>, i: nat): seq<Byte>
    requires i <= |values| && forall j :: 0 <= j < |values| ==> values[j] < UINT32
    decreases |values| - i
  {
    if i == |values| then []
    else
      var n := RunFrom(values, i, 1);
      [n] + Bytes32(values[i]) + EncodeRuns(values, i + n)
  }

  function EncodeFragment(f: Fragment): seq<Byte>
    requires Typed(f)
  {
    [ByteOfInt8(f.depth), f.x, f.y, f.width, f.height, f.slot] + EncodeRuns(f.values, 0)
  }

  function EncodeFragments(fs: seq<Fragment>): seq<Byte>
    requires AllTyped(fs)
  {
    if fs == [] then []
    else EncodeFragments(fs[..|fs| - 1]) + EncodeFragment(fs[|fs| - 1])
  }

  /** A whole payload. */
  function Encode(generation: nat, fs: seq<Fragment>): seq<Byte>
    requires generation < UINT32 && |fs| < UINT16 && AllTyped(fs)
  {
    Bytes32(generation) + Bytes16(|fs|) + EncodeFragments(fs)
  }

  // ---- the second parser ---------------------------------------------------

  datatype Parsed<T> = Failed | Got(value: T, rest: seq<Byte>)

  function Repeat(v: nat, n: nat): (r: seq<nat>)
    ensures |r| == n && forall j :: 0 <= j < n ==> r[j] == v
  {
    seq(n, _ => v)
  }

  /** The run at the front of some bytes, if it is one. */
  predicate RunValid(b: seq<Byte>, cells: nat) {
    5 <= |b| && 1 <= b[0] <= cells && ValueValid(Word32(b[1..5]))
  }

  /** Runs that fill exactly the given number of cells. */
  function ParseRuns(b: seq<Byte>, cells: nat): (r: Parsed<seq<nat>>)
    ensures r.Got? ==> |r.value| == cells && |r.rest| <= |b|
    ensures r.Got? ==> AllValid(r.value)
    decreases |b|
  {
    if cells == 0 then Got([], b)
    else if !RunValid(b, cells) then Failed
    else
      match ParseRuns(b[5..], cells - b[0])
      case Failed => Failed
      case Got(values, rest) => Got(Repeat(Word32(b[1..5]), b[0]) + values, rest)
  }

  /** Cells that fragments claim in total, which disjoint ones cannot exceed. */
  function TotalMax(w: int, h: int): nat {
    if w > 0 && h > 0 then w * h * DEPTHS else 0
  }

  function HeaderCells(b: seq<Byte>): nat
    requires 6 <= |b|
  {
    b[3] as nat * b[4] as nat
  }

  /** A fragment's header, but for its depth. */
  predicate HeaderValid(b: seq<Byte>, w: int, h: int, total: nat) {
    && 6 <= |b| && HeaderCells(b) != 0
    && b[1] as int + b[3] as int <= w && b[2] as int + b[4] as int <= h
    && total + HeaderCells(b) <= TotalMax(w, h)
  }

  function ParseFragment(b: seq<Byte>, w: int, h: int, total: nat): (r: Parsed<Fragment>)
    ensures r.Got? ==> Typed(r.value) && |r.rest| <= |b| - 6 && |r.value.values| == HeaderCells(b)
  {
    if !HeaderValid(b, w, h, total) then Failed
    else
      match ParseRuns(b[6..], HeaderCells(b))
      case Failed => Failed
      case Got(values, rest) => Got(Fragment(Int8OfByte(b[0]), b[1], b[2], b[3], b[4], b[5], values), rest)
  }

  /** n fragments, after ones that claimed total cells. */
  function ParseFragments(b: seq<Byte>, n: nat, w: int, h: int, total: nat): (r: Parsed<seq<Fragment>>)
    ensures r.Got? ==> |r.value| == n && AllTyped(r.value)
    decreases n
  {
    if n == 0 then Got([], b)
    else
      match ParseFragment(b, w, h, total)
      case Failed => Failed
      case Got(f, rest) =>
        match ParseFragments(rest, n - 1, w, h, total + |f.values|)
        case Failed => Failed
        case Got(fs, end) => Got([f] + fs, end)
  }

  // ---- the framing check ---------------------------------------------------

  /** What is left after skipping the runs of some cells. */
  function SkipRuns(b: seq<Byte>, cells: nat): (r: Parsed<()>)
    decreases |b|
  {
    if cells == 0 then Got((), b)
    else if !RunValid(b, cells) then Failed
    else SkipRuns(b[5..], cells - b[0])
  }

  predicate DepthValid(depth: int) { -DEPTH_MAX <= depth <= DEPTH_MAX }

  function SkipFragments(b: seq<Byte>, n: nat, w: int, h: int, total: nat): (r: Parsed<()>)
    decreases n
  {
    if n == 0 then Got((), b)
    else if !HeaderValid(b, w, h, total) || !DepthValid(Int8OfByte(b[0])) then Failed
    else
      match SkipRuns(b[6..], HeaderCells(b))
      case Failed => Failed
      case Got(_, rest) => SkipFragments(rest, n - 1, w, h, total + HeaderCells(b))
  }

  /** closure_payload_framed() as a predicate on the payload. */
  predicate Framed(data: seq<Byte>, w: int, h: int) {
    6 <= |data|
    && var r := SkipFragments(data[6..], Word16(data[4..6]), w, h, 0);
       r.Got? && r.rest == []
  }

  ghost predicate AllDepthsValid(fs: seq<Fragment>) {
    forall i :: 0 <= i < |fs| ==> DepthValid(fs[i].depth)
  }

  // ---- the two parsers agree ----------------------------------------------

  lemma {:induction false} RunsAgree(b: seq<Byte>, cells: nat)
    ensures SkipRuns(b, cells).Got? <==> ParseRuns(b, cells).Got?
    ensures SkipRuns(b, cells).Got? ==> SkipRuns(b, cells).rest == ParseRuns(b, cells).rest
    ensures SkipRuns(b, cells).Got? && cells > 0 ==> |SkipRuns(b, cells).rest| <= |b| - 5
    ensures SkipRuns(b, cells).Got? ==> |SkipRuns(b, cells).rest| <= |b|
    decreases |b|
  {
    hide ValueValid;
    if cells > 0 && RunValid(b, cells) {
      RunsAgree(b[5..], cells - b[0]);
    }
  }

  /** The framing check accepts exactly what the second parser accepts with
   every depth in range, and both stop at the same byte. */
  lemma {:induction false} FragmentsAgree(b: seq<Byte>, n: nat, w: int, h: int, total: nat)
    ensures var s, p := SkipFragments(b, n, w, h, total), ParseFragments(b, n, w, h, total);
      && (s.Got? <==> p.Got? && AllDepthsValid(p.value))
      && (s.Got? ==> s.rest == p.rest && 11 * n + |s.rest| <= |b|)
      && (s.Got? && n > 0 ==> total + n <= TotalMax(w, h))
    decreases n
  {
    hide TotalMax, HeaderCells, ParseRuns, SkipRuns, ValueValid;
    hide AllDepthsValid, DepthValid, Typed, AllTyped, Int8OfByte;
    NoDepths();
    if n > 0 && HeaderValid(b, w, h, total) {
      RunsAgree(b[6..], HeaderCells(b));
      var f := ParseFragment(b, w, h, total);
      if f.Got? {
        var rest := ParseFragments(f.rest, n - 1, w, h, total + |f.value.values|);
        FragmentsAgree(f.rest, n - 1, w, h, total + HeaderCells(b));
        if rest.Got? {
          DepthsCons(f.value, rest.value);
        }
      }
    }
  }

  lemma NoDepths()
    ensures AllDepthsValid([])
  {}

  lemma DepthsCons(f: Fragment, fs: seq<Fragment>)
    ensures AllDepthsValid([f] + fs) <==> DepthValid(f.depth) && AllDepthsValid(fs)
  {
    var all := [f] + fs;
    assert all[0] == f && forall i :: 0 <= i < |fs| ==> all[i + 1] == fs[i];
    if AllDepthsValid(all) {
      forall i | 0 <= i < |fs|
        ensures DepthValid(fs[i].depth)
      {
        assert DepthValid(all[i + 1].depth);
      }
    }
  }

  /** celestial_closure_decode()'s checks between the two parsers. */
  predicate CountValid(count: nat, length: nat, w: int, h: int) {
    count <= FRAGMENTS_MAX && count * 11 <= length - 6 && (w > 0 && h > 0 ==> count <= w * h * DEPTHS)
  }

  /** The whole second parse. */
  function Parse(data: seq<Byte>, w: int, h: int): Parsed<seq<Fragment>>
    requires 6 <= |data|
  {
    ParseFragments(data[6..], Word16(data[4..6]), w, h, 0)
  }

  /** The two parsers agree: a payload is framed exactly when the second parse
   consumes all of it with every depth in range; and of the count checks made
   in between, only the fragment limit can still fail. */
  lemma ParsersAgree(data: seq<Byte>, w: int, h: int)
    requires 6 <= |data|
    ensures var p := Parse(data, w, h);
      Framed(data, w, h) <==> p.Got? && p.rest == [] && AllDepthsValid(p.value)
    ensures Framed(data, w, h) ==>
      (CountValid(Word16(data[4..6]), |data|, w, h) <==> Word16(data[4..6]) <= FRAGMENTS_MAX)
  {
    FragmentsAgree(data[6..], Word16(data[4..6]), w, h, 0);
    hide SkipFragments, ParseFragments;
  }
}
