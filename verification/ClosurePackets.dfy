/**
 The loops of the closure codec: sizing and writing a closure, checking a
 payload's framing without allocating, and reading its fragments.
 */
module ClosurePackets {
  import opened Packets
  import opened ClosureCodec
  import opened ClosureRoundTrip

  // ---- sizing --------------------------------------------------------------

  /** The scan for a run's end, which sizing and writing share. */
  method ScanRun(values: seq<nat>, i: nat) returns (length: nat)
    requires i < |values|
    ensures length == RunFrom(values, i, 1)
  {
    length := 1;
    while i + length < |values| && length < 255 && values[i + length] == values[i]
      invariant 1 <= length <= 255 && i + length <= |values|
      invariant RunFrom(values, i, length) == RunFrom(values, i, 1)
    {
      length := length + 1;
    }
  }

  /** fragment_runs() */
  method FragmentRuns(f: Fragment) returns (runs: nat)
    ensures runs == Runs(f.values, 0)
  {
    runs := 0;
    var i := 0;
    while i < |f.values|
      invariant 0 <= i <= |f.values|
      invariant runs + Runs(f.values, i) == Runs(f.values, 0)
    {
      var length := ScanRun(f.values, i);
      runs := runs + 1;
      i := i + length;
    }
  }

  /** celestial_closure_size(): the exact length of the encoding. */
  method Size(fs: seq<Fragment>) returns (size: nat)
    requires AllTyped(fs)
    ensures size == 6 + FragmentsSize(fs) == 6 + |EncodeFragments(fs)|
  {
    SizeIsLength(fs);
    hide EncodeFragments;
    size := 6;
    for i := 0 to |fs|
      invariant size == 6 + FragmentsSize(fs[..i])
    {
      var runs := FragmentRuns(fs[i]);
      assert fs[..i + 1][..i] == fs[..i];
      size := size + 6 + 5 * runs;
    }
    assert fs[..|fs|] == fs;
  }

  // ---- writing -------------------------------------------------------------

  /** The six header bytes of a fragment. */
  method PutHeader(packet: Writer, f: Fragment, ghost start: seq<Byte>, ghost before: seq<Byte>)
    requires packet.Valid() && Typed(f) && Written(packet, start, before)
    modifies packet, packet.data
    ensures packet.Valid() && packet.limit == old(packet.limit)
    ensures packet.data == old(packet.data) || fresh(packet.data)
    ensures Written(packet, start, before + [ByteOfInt8(f.depth), f.x, f.y, f.width, f.height, f.slot])
  {
    hide Written, ByteOfInt8;
    var depth := ByteOfInt8(f.depth);
    Put8(packet, depth, start, before);
    Put8(packet, f.x, start, before + [depth]);
    Put8(packet, f.y, start, before + [depth] + [f.x]);
    Put8(packet, f.width, start, before + [depth] + [f.x] + [f.y]);
    Put8(packet, f.height, start, before + [depth] + [f.x] + [f.y] + [f.width]);
    Put8(packet, f.slot, start, before + [depth] + [f.x] + [f.y] + [f.width] + [f.height]);
    SixBytes(before, depth, f.x, f.y, f.width, f.height, f.slot);
  }

  lemma SixBytes(before: seq<Byte>, a: Byte, b: Byte, c: Byte, d: Byte, e: Byte, f: Byte)
    ensures before + [a] + [b] + [c] + [d] + [e] + [f] == before + [a, b, c, d, e, f]
  {}

  lemma Regroup(a: seq<Byte>, b: seq<Byte>, c: seq<Byte>, d: seq<Byte>, e: seq<Byte>)
    ensures a + b + c + d == a + (b + (c + d))
    ensures b + (c + d + e) == b + (c + d) + e
  {}

  /** The runs of a fragment. */
  method PutRuns(packet: Writer, f: Fragment, ghost start: seq<Byte>, ghost before: seq<Byte>)
    requires packet.Valid() && Typed(f) && Written(packet, start, before)
    modifies packet, packet.data
    ensures packet.Valid() && packet.limit == old(packet.limit)
    ensures packet.data == old(packet.data) || fresh(packet.data)
    ensures Written(packet, start, before + EncodeRuns(f.values, 0))
  {
    hide Written, Bytes32, RunFrom;
    var cell := 0;
    ghost var done: seq<Byte> := [];
    assert before + [] == before && [] + EncodeRuns(f.values, 0) == EncodeRuns(f.values, 0);
    while cell < |f.values|
      invariant 0 <= cell <= |f.values|
      invariant packet.Valid() && packet.limit == old(packet.limit)
      invariant packet.data == old(packet.data) || fresh(packet.data)
      invariant Written(packet, start, before + done)
      invariant done + EncodeRuns(f.values, cell) == EncodeRuns(f.values, 0)
    {
      var length := ScanRun(f.values, cell);
      var value := f.values[cell];
      Put8(packet, length, start, before + done);
      Put32(packet, value, start, before + done + [length]);
      Regroup(before, done, [length], Bytes32(value), EncodeRuns(f.values, cell + length));
      done := done + ([length] + Bytes32(value));
      cell := cell + length;
    }
    assert done + [] == done;
  }

  method PutFragment(packet: Writer, f: Fragment, ghost start: seq<Byte>, ghost before: seq<Byte>)
    requires packet.Valid() && Typed(f) && Written(packet, start, before)
    modifies packet, packet.data
    ensures packet.Valid() && packet.limit == old(packet.limit)
    ensures packet.data == old(packet.data) || fresh(packet.data)
    ensures Written(packet, start, before + EncodeFragment(f))
  {
    ghost var header: seq<Byte> := [ByteOfInt8(f.depth), f.x, f.y, f.width, f.height, f.slot];
    hide Written, EncodeRuns;
    PutHeader(packet, f, start, before);
    PutRuns(packet, f, start, before + header);
    assert before + header + EncodeRuns(f.values, 0) == before + (header + EncodeRuns(f.values, 0));
  }

  method PutFragments(packet: Writer, fs: seq<Fragment>, ghost start: seq<Byte>, ghost before: seq<Byte>)
    requires packet.Valid() && AllTyped(fs) && Written(packet, start, before)
    modifies packet, packet.data
    ensures packet.Valid() && packet.limit == old(packet.limit)
    ensures packet.data == old(packet.data) || fresh(packet.data)
    ensures Written(packet, start, before + EncodeFragments(fs))
  {
    hide Written, EncodeFragment, Typed;
    assert before + EncodeFragments(fs[..0]) == before;
    for i := 0 to |fs|
      invariant packet.Valid() && packet.limit == old(packet.limit)
      invariant packet.data == old(packet.data) || fresh(packet.data)
      invariant Written(packet, start, before + EncodeFragments(fs[..i]))
    {
      PutFragment(packet, fs[i], start, before + EncodeFragments(fs[..i]));
      assert fs[..i + 1][..i] == fs[..i];
      assert before + EncodeFragments(fs[..i]) + EncodeFragment(fs[i])
          == before + (EncodeFragments(fs[..i]) + EncodeFragment(fs[i]));
    }
    assert fs[..|fs|] == fs;
  }

  /** celestial_closure_write() of a built closure: the whole payload or, when it
   does not fit, no byte of it. */
  method Write(packet: Writer, generation: nat, fs: seq<Fragment>) returns (ok: bool)
    requires packet.Valid() && generation < UINT32 && AllTyped(fs)
    modifies packet, packet.data
    ensures packet.Valid()
    ensures ok <==> |fs| <= FRAGMENTS_MAX && old(packet.error) == NoError
                    && |Encode(generation, fs)| <= PAYLOAD_MAX
                    && |old(packet.Contents())| + |Encode(generation, fs)| <= old(packet.limit)
    ensures ok ==> packet.Contents() == old(packet.Contents()) + Encode(generation, fs)
    ensures !ok ==> packet.Contents() == old(packet.Contents())
  {
    if |fs| > FRAGMENTS_MAX {
      return false;
    }
    var size := Size(fs);
    hide EncodeFragments, Bytes32, Bytes16;
    assert size == |Encode(generation, fs)|;
    if size > PAYLOAD_MAX || packet.error != NoError {
      return false;
    }
    var mark := packet.len;
    ghost var start := packet.Contents();
    assert start + [] == start && [] + Bytes32(generation) == Bytes32(generation);
    assert Written(packet, start, []);
    hide Written;
    Put32(packet, generation, start, []);
    Put16(packet, |fs|, start, Bytes32(generation));
    PutFragments(packet, fs, start, Bytes32(generation) + Bytes16(|fs|));
    WrittenAll(packet, start, Encode(generation, fs));
    ok := packet.error == NoError;
    if !ok {
      packet.Rollback(mark);
    }
  }
}
