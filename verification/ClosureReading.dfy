/**
 Reading a closure's payload: the framing check, which allocates nothing, and
 the second parse through the packet reader, which builds the fragments.
 */
module ClosureReading {
  import opened Packets
  import opened ClosureCodec

  // ---- the framing check ---------------------------------------------------

  /** The run loop of closure_payload_framed(). */
  method FrameRuns(data: seq<Byte>, start: nat, cells: nat) returns (ok: bool, pos: nat)
    requires start <= |data|
    ensures start <= pos <= |data|
    ensures ok <==> SkipRuns(data[start..], cells).Got?
    ensures ok ==> SkipRuns(data[start..], cells).rest == data[pos..]
  {
    hide ValueValid, Word32;
    pos := start;
    var cell := 0;
    while cell < cells
      invariant 0 <= cell <= cells && start <= pos <= |data|
      invariant SkipRuns(data[start..], cells) == SkipRuns(data[pos..], cells - cell)
      decreases cells - cell
    {
      if |data| - pos < 5 {
        return false, pos;
      }
      var length, value := data[pos], Word32(data[pos + 1..pos + 5]);
      RunAt(data, pos, cells - cell);
      if length == 0 || length > cells - cell || !ValueValid(value) {
        return false, pos;
      }
      cell := cell + length;
      pos := pos + 5;
    }
    ok := true;
  }

  lemma RunAt(data: seq<Byte>, pos: nat, cells: nat)
    requires pos + 5 <= |data|
    ensures RunValid(data[pos..], cells)
       <==> 1 <= data[pos] <= cells && ValueValid(Word32(data[pos + 1..pos + 5]))
    ensures data[pos..][5..] == data[pos + 5..]
  {
    hide ValueValid, Word32;
    assert data[pos..][1..5] == data[pos + 1..pos + 5];
  }

  /** closure_payload_framed() */
  method PayloadFramed(data: seq<Byte>, w: int, h: int) returns (ok: bool)
    ensures ok == Framed(data, w, h)
  {
    hide SkipRuns, TotalMax, Word16;
    if |data| < 6 {
      return false;
    }
    var count := Word16(data[4..6]);
    var pos, total := 6, 0;
    var totalMax := TotalMax(w, h);
    var i := 0;
    while i < count
      invariant 0 <= i <= count && 6 <= pos <= |data| && 0 <= total
      invariant SkipFragments(data[6..], count, w, h, 0) == SkipFragments(data[pos..], count - i, w, h, total)
      decreases count - i
    {
      if |data| - pos < 6 {
        return false;
      }
      var depth := Int8OfByte(data[pos]);
      var x, y, width, height: nat := data[pos + 1], data[pos + 2], data[pos + 3], data[pos + 4];
      var cells := width * height;
      var before := total;
      total := total + cells;
      HeaderAt(data, pos, w, h, before);
      if depth < -DEPTH_MAX || depth > DEPTH_MAX || cells == 0 || x + width > w || y + height > h
         || total > totalMax {
        return false;
      }
      var framed;
      framed, pos := FrameRuns(data, pos + 6, cells);
      if !framed {
        return false;
      }
      i := i + 1;
    }
    ok := pos == |data|;
    assert data[pos..] == [] <==> pos == |data|;
  }

  lemma HeaderAt(data: seq<Byte>, pos: nat, w: int, h: int, total: nat)
    requires pos + 6 <= |data|
    ensures var b, cells := data[pos..], data[pos + 3] as nat * data[pos + 4] as nat;
      && HeaderCells(b) == cells && b[0] == data[pos] && b[6..] == data[pos + 6..]
      && (HeaderValid(b, w, h, total)
          <==> cells != 0 && data[pos + 1] as int + data[pos + 3] as int <= w
               && data[pos + 2] as int + data[pos + 4] as int <= h && total + cells <= TotalMax(w, h))
  {
    hide TotalMax;
  }

  // ---- the second parse ----------------------------------------------------

  /** One run through the reader. */
  method ReadRun(reader: Reader, cells: nat) returns (ok: bool, length: nat, value: nat)
    requires reader.Valid() && reader.error == NoError
    modifies reader
    ensures reader.Valid()
    ensures ok <==> RunValid(old(reader.Rest()), cells)
    ensures ok ==> reader.error == NoError && reader.Rest() == old(reader.Rest())[5..]
    ensures ok ==> length == old(reader.Rest())[0] && value == Word32(old(reader.Rest())[1..5])
  {
    hide ValueValid, Word32;
    ghost var front := reader.Rest();
    length := reader.ReadUint8();
    value := reader.ReadUint32();
    ok := reader.error == NoError && length != 0 && length <= cells && ValueValid(value);
    if 5 <= |front| {
      assert front[1..5] == front[1..][..4] && front[1..][4..] == front[5..];
    }
  }

  /** The run loop of celestial_closure_decode(), filling a cell array. */
  method ReadRuns(reader: Reader, values: array<nat>) returns (ok: bool)
    requires reader.Valid() && reader.error == NoError
    modifies reader, values
    ensures reader.Valid()
    ensures ok <==> ParseRuns(old(reader.Rest()), values.Length).Got?
    ensures ok ==> reader.error == NoError
    ensures ok ==> ParseRuns(old(reader.Rest()), values.Length) == Got(values[..], reader.Rest())
  {
    hide RunValid, Word32;
    var cell: nat := 0;
    ghost var b := reader.Rest();
    PrefixedNone(ParseRuns(b, values.Length));
    assert values[..0] == [];
    while cell < values.Length
      invariant 0 <= cell <= values.Length && reader.Valid() && reader.error == NoError
      invariant ParseRuns(b, values.Length) == Prefixed(values[..cell], ParseRuns(reader.Rest(), values.Length - cell))
      decreases values.Length - cell
    {
      ghost var front := reader.Rest();
      var valid, length, value := ReadRun(reader, values.Length - cell);
      if !valid {
        return false;
      }
      RunLength(front, values.Length - cell);
      ghost var filled := values[..cell];
      Fill(values, cell, length, value);
      PrefixedTwice(filled, Repeat(value, length), ParseRuns(front[5..], values.Length - cell - length));
      cell := cell + length;
    }
    assert values[..cell] == values[..] == values[..] + [];
    return true;
  }

  lemma RunLength(b: seq<Byte>, cells: nat)
    requires RunValid(b, cells)
    ensures 5 <= |b| && 1 <= b[0] <= cells
    ensures ParseRuns(b, cells) == Prefixed(Repeat(Word32(b[1..5]), b[0]), ParseRuns(b[5..], cells - b[0]))
  {
    hide ValueValid, Word32;
  }

  lemma PrefixedNone(p: Parsed<seq<nat>>)
    ensures Prefixed([], p) == p
  {
    if p.Got? {
      assert [] + p.value == p.value;
    }
  }

  /** A parse whose cells follow others already read. */
  ghost function Prefixed(done: seq<nat>, p: Parsed<seq<nat>>): Parsed<seq<nat>> {
    if p.Got? then Got(done + p.value, p.rest) else Failed
  }

  lemma PrefixedTwice(a: seq<nat>, b: seq<nat>, p: Parsed<seq<nat>>)
    ensures Prefixed(a, Prefixed(b, p)) == Prefixed(a + b, p)
  {
    if p.Got? {
      assert a + (b + p.value) == a + b + p.value;
    }
  }

  method Fill(values: array<nat>, cell: nat, length: nat, value: nat)
    requires cell + length <= values.Length
    modifies values
    ensures values[..cell + length] == old(values[..cell]) + Repeat(value, length)
  {
    var i := 0;
    while i < length
      invariant 0 <= i <= length
      invariant values[..cell] == old(values[..cell])
      invariant forall j :: cell <= j < cell + i ==> values[j] == value
    {
      values[cell + i] := value;
      i := i + 1;
    }
  }

  /** One fragment through the reader: a truncated header reads as zeros and
   leaves the reader failed, which rejects it. */
  method ReadFragment(reader: Reader, w: int, h: int, total: nat) returns (ok: bool, f: Fragment)
    requires reader.Valid() && reader.error == NoError
    modifies reader
    ensures reader.Valid()
    ensures ok <==> ParseFragment(old(reader.Rest()), w, h, total).Got?
    ensures ok ==> reader.error == NoError
    ensures ok ==> ParseFragment(old(reader.Rest()), w, h, total) == Got(f, reader.Rest())
  {
    hide ParseRuns, TotalMax;
    ghost var b := reader.Rest();
    var header := ReadHeader(reader);
    var width: nat, height: nat := header.width, header.height;
    var cells := width * height;
    f := header;
    if reader.error != NoError || cells == 0 || header.x + header.width > w || header.y + header.height > h
       || total + cells > TotalMax(w, h) {
      return false, f;
    }
    var values := new nat[cells];
    ok := ReadRuns(reader, values);
    f := header.(values := values[..]);
  }

  method ReadHeader(reader: Reader) returns (f: Fragment)
    requires reader.Valid() && reader.error == NoError
    modifies reader
    ensures reader.Valid()
    ensures reader.error == NoError <==> 6 <= |old(reader.Rest())|
    ensures reader.error == NoError ==>
      var b := old(reader.Rest());
      reader.Rest() == b[6..] && f == Fragment(Int8OfByte(b[0]), b[1], b[2], b[3], b[4], b[5], [])
  {
    var depth := reader.ReadUint8();
    var x := reader.ReadUint8();
    var y := reader.ReadUint8();
    var width := reader.ReadUint8();
    var height := reader.ReadUint8();
    var slot := reader.ReadUint8();
    f := Fragment(Int8OfByte(depth), x, y, width, height, slot, []);
  }

  /** The fragment loop of celestial_closure_decode(). */
  method ReadFragments(reader: Reader, count: nat, w: int, h: int) returns (ok: bool, fs: seq<Fragment>)
    requires reader.Valid() && reader.error == NoError
    modifies reader
    ensures reader.Valid()
    ensures ok <==> ParseFragments(old(reader.Rest()), count, w, h, 0).Got?
    ensures ok ==> reader.error == NoError
    ensures ok ==> ParseFragments(old(reader.Rest()), count, w, h, 0) == Got(fs, reader.Rest())
  {
    hide ParseFragment;
    fs := [];
    var total: nat, parsed: nat := 0, 0;
    ghost var b := reader.Rest();
    Before([], ParseFragments(b, count, w, h, 0));
    while parsed < count
      invariant 0 <= parsed <= count && reader.Valid() && reader.error == NoError
      invariant ParseFragments(b, count, w, h, 0)
             == After(fs, ParseFragments(reader.Rest(), count - parsed, w, h, total))
      decreases count - parsed
    {
      ghost var front := reader.Rest();
      var valid, f := ReadFragment(reader, w, h, total);
      if !valid {
        return false, [];
      }
      ghost var rest := ParseFragments(reader.Rest(), count - parsed - 1, w, h, total + |f.values|);
      AfterTwice(fs, f, rest);
      fs := fs + [f];
      total := total + |f.values|;
      parsed := parsed + 1;
    }
    Before(fs, Got([], reader.Rest()));
    return true, fs;
  }

  /** A parse whose fragments follow others already read. */
  ghost function After(done: seq<Fragment>, p: Parsed<seq<Fragment>>): Parsed<seq<Fragment>> {
    if p.Got? then Got(done + p.value, p.rest) else Failed
  }

  lemma Before(fs: seq<Fragment>, p: Parsed<seq<Fragment>>)
    ensures fs == [] ==> After(fs, p) == p
    ensures p.Got? && p.value == [] ==> After(fs, p) == Got(fs, p.rest)
  {
    if p.Got? {
      assert [] + p.value == p.value && fs + [] == fs;
    }
  }

  lemma AfterTwice(fs: seq<Fragment>, f: Fragment, p: Parsed<seq<Fragment>>)
    ensures After(fs, After([f], p)) == After(fs + [f], p)
  {
    if p.Got? {
      assert fs + ([f] + p.value) == fs + [f] + p.value;
    }
  }
}
