/**
 Where a payload keeps what it says, byte by byte: the most significant first,
 and every field at its place.
 */
module WireFormat {
  import opened Arithmetic
  import opened Packets
  import opened Solver
  import opened Orbit
  import opened CelestialProtocol
  import C = ClosureCodec

  // ---- numbers -------------------------------------------------------------

  /** The number some bytes write in base 256, the most significant first. */
  function Positional(b: seq<Byte>): nat {
    if b == [] then 0 else Positional(b[..|b| - 1]) * 256 + b[|b| - 1]
  }

  function Field(data: seq<Byte>, at: nat, size: nat): nat
    requires at + size <= |data|
  {
    Positional(data[at..at + size])
  }

  lemma PositionalJoin(a: seq<Byte>, b: seq<Byte>)
    requires |b| == 4
    ensures Positional(a + b) == Positional(a) * UINT32 + Positional(b)
  {
    PositionalStep(a, b[0]);
    PositionalStep(a + [b[0]], b[1]);
    PositionalStep(a + [b[0], b[1]], b[2]);
    PositionalStep(a + [b[0], b[1], b[2]], b[3]);
    assert a + [b[0]] + [b[1]] == a + [b[0], b[1]];
    assert a + [b[0], b[1]] + [b[2]] == a + [b[0], b[1], b[2]];
    assert a + [b[0], b[1], b[2]] + [b[3]] == a + b;
    PositionalFour(b);
    hide Positional;
  }

  lemma PositionalStep(a: seq<Byte>, c: Byte)
    ensures Positional(a + [c]) == Positional(a) * 256 + c
  {
    assert (a + [c])[..|a|] == a;
  }

  lemma PositionalTwo(b: seq<Byte>)
    requires |b| == 2
    ensures Positional(b) == b[0] as nat * 256 + b[1]
  {
    PositionalStep([], b[0]);
    PositionalStep([b[0]], b[1]);
    assert [] + [b[0]] == [b[0]] && [b[0]] + [b[1]] == b;
    hide Positional;
    assert Positional([]) == 0 by { PositionalNone(); }
  }

  lemma PositionalNone()
    ensures Positional([]) == 0
  {}

  lemma PositionalFour(b: seq<Byte>)
    requires |b| == 4
    ensures Positional(b) == b[0] as nat * 0x100_0000 + b[1] as nat * 0x1_0000 + b[2] as nat * 0x100 + b[3]
  {
    PositionalTwo(b[..2]);
    PositionalStep(b[..2], b[2]);
    PositionalStep(b[..3], b[3]);
    assert b[..2] + [b[2]] == b[..3] && b[..3] + [b[3]] == b;
    hide Positional;
  }

  /** Integers are written with their most significant byte first, and read so. */
  lemma BigEndian(v: nat)
    requires v <= UINT64_MAX
    ensures v < UINT16 ==> Positional(Bytes16(v)) == v
    ensures v < UINT32 ==> Positional(Bytes32(v)) == v
    ensures Positional(Bytes64(v)) == v
  {
    if v < UINT16 {
      PositionalTwo(Bytes16(v));
      Words16(v);
    }
    if v < UINT32 {
      Words32(v);
      PositionalFour(Bytes32(v));
    }
    Words64(v);
    Words32(v / UINT32);
    Words32(v % UINT32);
    PositionalFour(Bytes32(v / UINT32));
    PositionalFour(Bytes32(v % UINT32));
    PositionalJoin(Bytes32(v / UINT32), Bytes32(v % UINT32));
    hide Positional, Bytes32, Bytes16;
  }

  lemma ReadBigEndian(b: seq<Byte>)
    ensures |b| == 2 ==> Word16(b) == Positional(b)
    ensures |b| == 4 ==> Word32(b) == Positional(b)
    ensures |b| == 8 ==> Word64(b) == Positional(b)
  {
    hide Positional, Bytes16, Bytes32, Bytes64, Word16, Word32, Word64;
    if |b| == 2 {
      BytesOfWord16(b);
      BigEndian(Word16(b));
    } else if |b| == 4 {
      BytesOfWord32(b);
      BigEndian(Word32(b));
    } else if |b| == 8 {
      BytesOfWord64(b);
      BigEndian(Word64(b));
    }
  }

  // ---- the CELESTIAL payload -----------------------------------------------

  predicate RgbAt(b: seq<Byte>, at: nat, c: Rgb) {
    at + 6 <= |b| && Field(b, at, 2) == c.red && Field(b, at + 2, 2) == c.green && Field(b, at + 4, 2) == c.blue
  }

  /** An hour of the day, of the year and of the month. */
  predicate PhaseAt(b: seq<Byte>, at: nat, i: Inputs) {
    at + 5 <= |b| && b[at] == i.solarHour && Field(b, at + 1, 2) == i.seasonPhase && Field(b, at + 3, 2) == i.lunarAge
  }

  /** A slot from a place on: its number, its profile and both hours. */
  predicate SlotAt(b: seq<Byte>, at: nat, s: Slot) {
    var i := s.current;
    && at + 43 <= |b| && b[at] == s.id
    && RgbAt(b, at + 1, i.dayLinear) && RgbAt(b, at + 7, i.nightLinear)
    && Field(b, at + 13, 2) == i.dayBrightness && Field(b, at + 15, 2) == i.nightBrightness
    && RgbAt(b, at + 17, i.moonLinear) && b[at + 23] == i.moonMax
    && RgbAt(b, at + 24, i.starlightLinear) && b[at + 30] == i.starlightStrength
    && Field(b, at + 31, 2) == i.lunarPeriod
    && PhaseAt(b, at + 33, i) && PhaseAt(b, at + 38, s.next)
  }

  /** Bytes from a place on are some other bytes. */
  predicate PartAt(b: seq<Byte>, at: nat, part: seq<Byte>) { at + |part| <= |b| && b[at..at + |part|] == part }

  lemma PartOfPart(b: seq<Byte>, at: nat, part: seq<Byte>, inner: nat, small: seq<Byte>)
    requires PartAt(b, at, part) && PartAt(part, inner, small)
    ensures PartAt(b, at + inner, small)
  {
    forall j | 0 <= j < |small|
      ensures b[at + inner..at + inner + |small|][j] == small[j]
    {
      assert small[j] == part[inner..inner + |small|][j] == part[inner + j] == b[at..at + |part|][inner + j];
    }
  }

  lemma WordAt(b: seq<Byte>, at: nat, v: nat)
    requires v < UINT16 && PartAt(b, at, Bytes16(v))
    ensures at + 2 <= |b| && Field(b, at, 2) == v
  {
    BigEndian(v);
  }

  lemma RgbWritten(b: seq<Byte>, at: nat, c: Rgb)
    requires Colors(c) && PartAt(b, at, RgbBytes(c))
    ensures RgbAt(b, at, c)
  {
    hide Bytes16, Positional;
    var part := RgbBytes(c);
    assert PartAt(part, 0, Bytes16(c.red)) && PartAt(part, 2, Bytes16(c.green)) && PartAt(part, 4, Bytes16(c.blue));
    hide PartAt;
    PartOfPart(b, at, part, 0, Bytes16(c.red));
    PartOfPart(b, at, part, 2, Bytes16(c.green));
    PartOfPart(b, at, part, 4, Bytes16(c.blue));
    WordAt(b, at, c.red);
    WordAt(b, at + 2, c.green);
    WordAt(b, at + 4, c.blue);
  }

  lemma PhaseWritten(b: seq<Byte>, at: nat, i: Inputs)
    requires Fits(i) && i.solarHour < UINT8 && PartAt(b, at, PhaseBytes(i))
    ensures PhaseAt(b, at, i)
  {
    hide Bytes16, Positional;
    var part := PhaseBytes(i);
    assert PartAt(part, 1, Bytes16(i.seasonPhase)) && PartAt(part, 3, Bytes16(i.lunarAge));
    assert part[0] == i.solarHour && b[at] == b[at..at + 5][0];
    PartOfPart(b, at, part, 1, Bytes16(i.seasonPhase));
    PartOfPart(b, at, part, 3, Bytes16(i.lunarAge));
    WordAt(b, at + 1, i.seasonPhase);
    WordAt(b, at + 3, i.lunarAge);
  }

  lemma SolarWritten(b: seq<Byte>, at: nat, i: Inputs)
    requires Fits(i) && PartAt(b, at, SolarBytes(i))
    ensures RgbAt(b, at, i.dayLinear) && RgbAt(b, at + 6, i.nightLinear)
    ensures at + 16 <= |b| && Field(b, at + 12, 2) == i.dayBrightness && Field(b, at + 14, 2) == i.nightBrightness
  {
    hide Bytes16, RgbBytes, RgbAt, Positional;
    var part := SolarBytes(i);
    assert PartAt(part, 0, RgbBytes(i.dayLinear)) && PartAt(part, 6, RgbBytes(i.nightLinear));
    assert PartAt(part, 12, Bytes16(i.dayBrightness)) && PartAt(part, 14, Bytes16(i.nightBrightness));
    hide PartAt;
    PartOfPart(b, at, part, 0, RgbBytes(i.dayLinear));
    PartOfPart(b, at, part, 6, RgbBytes(i.nightLinear));
    PartOfPart(b, at, part, 12, Bytes16(i.dayBrightness));
    PartOfPart(b, at, part, 14, Bytes16(i.nightBrightness));
    RgbWritten(b, at, i.dayLinear);
    RgbWritten(b, at + 6, i.nightLinear);
    WordAt(b, at + 12, i.dayBrightness);
    WordAt(b, at + 14, i.nightBrightness);
  }

  lemma LunarWritten(b: seq<Byte>, at: nat, i: Inputs)
    requires Fits(i) && PartAt(b, at, LunarBytes(i))
    ensures at + 16 <= |b| && RgbAt(b, at, i.moonLinear) && b[at + 6] == i.moonMax
    ensures RgbAt(b, at + 7, i.starlightLinear) && b[at + 13] == i.starlightStrength
    ensures Field(b, at + 14, 2) == i.lunarPeriod
  {
    hide Bytes16, RgbBytes, RgbAt, Positional;
    var part := LunarBytes(i);
    assert PartAt(part, 0, RgbBytes(i.moonLinear)) && PartAt(part, 7, RgbBytes(i.starlightLinear));
    assert PartAt(part, 14, Bytes16(i.lunarPeriod)) && part[6] == i.moonMax && part[13] == i.starlightStrength;
    assert b[at + 6] == b[at..at + 16][6] && b[at + 13] == b[at..at + 16][13];
    PartOfPart(b, at, part, 0, RgbBytes(i.moonLinear));
    PartOfPart(b, at, part, 7, RgbBytes(i.starlightLinear));
    PartOfPart(b, at, part, 14, Bytes16(i.lunarPeriod));
    hide PartAt;
    RgbWritten(b, at, i.moonLinear);
    RgbWritten(b, at + 7, i.starlightLinear);
    WordAt(b, at + 14, i.lunarPeriod);
  }

  lemma SlotWritten(b: seq<Byte>, at: nat, s: Slot)
    requires SlotFits(s) && SlotValid(s) && PartAt(b, at, SlotBytes(s))
    ensures SlotAt(b, at, s)
  {
    hide Bytes16, RgbAt, SolarBytes, LunarBytes, PhaseBytes, PhaseAt, Positional;
    var part, i := SlotBytes(s), s.current;
    assert PartAt(part, 1, SolarBytes(i)) && PartAt(part, 17, LunarBytes(i));
    assert PartAt(part, 33, PhaseBytes(i)) && PartAt(part, 38, PhaseBytes(s.next)) && part[0] == s.id;
    assert b[at] == b[at..at + 43][0];
    PartOfPart(b, at, part, 1, SolarBytes(i));
    PartOfPart(b, at, part, 17, LunarBytes(i));
    PartOfPart(b, at, part, 33, PhaseBytes(i));
    PartOfPart(b, at, part, 38, PhaseBytes(s.next));
    hide PartAt;
    SolarWritten(b, at + 1, i);
    LunarWritten(b, at + 17, i);
    PhaseWritten(b, at + 33, i);
    PhaseWritten(b, at + 38, s.next);
  }

  lemma {:induction false} SlotPlaced(slots: seq<Slot>, k: nat)
    requires AllFit(slots) && k < |slots|
    ensures PartAt(SlotsBytes(slots), 43 * k, SlotBytes(slots[k]))
    decreases |slots|
  {
    hide SlotBytes, SlotFits;
    var last := |slots| - 1;
    if k < last {
      SlotPlaced(slots[..last], k);
      assert SlotsBytes(slots)[43 * k..43 * k + 43] == SlotsBytes(slots[..last])[43 * k..43 * k + 43];
    }
  }

  /** A message's payload: generation, start and number of slots in its first 13
   bytes, then 43 for every slot, each field at its own place. */
  lemma CelestialLayout(generation: nat, start: nat, slots: seq<Slot>)
    requires IsMessage(generation, start, slots)
    ensures var b := CelestialProtocol.Encode(generation, start, slots);
      && |b| == 13 + 43 * |slots|
      && Field(b, 0, 4) == generation && Field(b, 4, 8) == start && b[12] == |slots|
      && forall k: nat :: k < |slots| ==> SlotAt(b, 13 + 43 * k, slots[k])
  {
    hide SlotsBytes, SlotBytes, SlotFits, SlotValid, SlotAt, Positional, Bytes32, Bytes64, Increasing;
    var b, head := CelestialProtocol.Encode(generation, start, slots), HeadBytes(generation, start, |slots|);
    BigEndian(generation);
    BigEndian(start);
    assert b[0..4] == Bytes32(generation) && b[4..12] == Bytes64(start) && b[12] == |slots|;
    assert PartAt(b, 13, SlotsBytes(slots));
    hide PartAt;
    forall k: nat | k < |slots|
      ensures SlotAt(b, 13 + 43 * k, slots[k])
    {
      SlotPlaced(slots, k);
      PartOfPart(b, 13, SlotsBytes(slots), 43 * k, SlotBytes(slots[k]));
      SlotWritten(b, 13 + 43 * k, slots[k]);
    }
  }

  // ---- the closure's payload -----------------------------------------------

  /** A fragment from a place on: its six bytes and its runs. */
  ghost predicate FragmentAt(b: seq<Byte>, at: nat, f: C.Fragment)
    requires C.Typed(f)
  {
    && at + 6 <= |b| && (b[at] as int - f.depth) % 256 == 0
    && b[at + 1] == f.x && b[at + 2] == f.y && b[at + 3] == f.width && b[at + 4] == f.height && b[at + 5] == f.slot
    && PartAt(b, at + 6, C.EncodeRuns(f.values, 0))
  }

  lemma {:induction false} FragmentPlaced(fs: seq<C.Fragment>, k: nat)
    requires C.AllTyped(fs) && k < |fs|
    ensures PartAt(C.EncodeFragments(fs), |C.EncodeFragments(fs[..k])|, C.EncodeFragment(fs[k]))
    decreases |fs|
  {
    hide C.EncodeFragment, C.Typed;
    var last := |fs| - 1;
    if k < last {
      FragmentPlaced(fs[..last], k);
      assert fs[..last][..k] == fs[..k];
      FrontStays(C.EncodeFragments(fs[..last]), C.EncodeFragment(fs[last]), |C.EncodeFragments(fs[..k])|,
                 C.EncodeFragment(fs[k]));
    } else {
      assert fs[..last] == fs[..k];
    }
  }

  lemma FrontStays(a: seq<Byte>, rest: seq<Byte>, at: nat, part: seq<Byte>)
    requires PartAt(a, at, part)
    ensures PartAt(a + rest, at, part)
  {
    assert (a + rest)[at..at + |part|] == a[at..at + |part|];
  }

  lemma FragmentWritten(b: seq<Byte>, at: nat, f: C.Fragment)
    requires C.Typed(f) && PartAt(b, at, C.EncodeFragment(f))
    ensures FragmentAt(b, at, f)
  {
    hide C.EncodeRuns;
    var part := C.EncodeFragment(f);
    assert PartAt(part, 6, C.EncodeRuns(f.values, 0));
    PartOfPart(b, at, part, 6, C.EncodeRuns(f.values, 0));
    var whole := b[at..at + |part|];
    assert b[at] == whole[0] && b[at + 1] == whole[1] && b[at + 2] == whole[2];
    assert b[at + 3] == whole[3] && b[at + 4] == whole[4] && b[at + 5] == whole[5];
  }

  /** A run's five bytes: how many cells, at most 255 and as many as are alike, and
   the value of each; the other cells' runs follow. */
  lemma RunLayout(values: seq<nat>, i: nat) returns (n: nat)
    requires i < |values| && C.AllValid(values)
    ensures 1 <= n <= 255 && i + n <= |values| && forall j :: i <= j < i + n ==> values[j] == values[i]
    ensures n == 255 || i + n == |values| || values[i + n] != values[i]
    ensures var b := C.EncodeRuns(values, i);
      |b| >= 5 && b[0] == n && Field(b, 1, 4) == values[i] && b[5..] == C.EncodeRuns(values, i + n)
  {
    hide C.ValueValid, Bytes32, Positional;
    n := C.RunFrom(values, i, 1);
    C.RunEqual(values, i, 1);
    RunEnds(values, i, 1);
    BigEndian(values[i]);
    hide C.RunFrom;
    assert C.EncodeRuns(values, i)[1..5] == Bytes32(values[i]);
  }

  lemma {:induction false} RunEnds(values: seq<nat>, i: nat, n: nat)
    requires 1 <= n <= 255 && i + n <= |values|
    ensures var r := C.RunFrom(values, i, n);
      r == 255 || i + r == |values| || values[i + r] != values[i]
    decreases 255 - n
  {
    if i + n < |values| && n < 255 && values[i + n] == values[i] {
      RunEnds(values, i, n + 1);
    }
  }

  /** A closure's payload: generation, number of fragments, and every fragment
   right after the ones before it. */
  lemma ClosureLayout(generation: nat, fs: seq<C.Fragment>)
    requires generation < UINT32 && |fs| < UINT16 && C.AllTyped(fs)
    ensures var b := C.Encode(generation, fs);
      && |b| >= 6 && Field(b, 0, 4) == generation && Field(b, 4, 2) == |fs|
      && forall k: nat :: k < |fs| ==> C.AllTyped(fs[..k]) && FragmentAt(b, |C.Encode(generation, fs[..k])|, fs[k])
  {
    hide C.EncodeFragment, C.EncodeFragments, C.Typed, Bytes32, Bytes16, Positional;
    var b := C.Encode(generation, fs);
    BigEndian(generation);
    BigEndian(|fs|);
    assert b[0..4] == Bytes32(generation) && b[4..6] == Bytes16(|fs|) && PartAt(b, 6, C.EncodeFragments(fs));
    hide FragmentAt, PartAt;
    forall k: nat | k < |fs|
      ensures C.AllTyped(fs[..k]) && FragmentAt(b, |C.Encode(generation, fs[..k])|, fs[k])
    {
      FragmentPlaced(fs, k);
      PartOfPart(b, 6, C.EncodeFragments(fs), |C.EncodeFragments(fs[..k])|, C.EncodeFragment(fs[k]));
      FragmentWritten(b, |C.Encode(generation, fs[..k])|, fs[k]);
    }
  }
}
