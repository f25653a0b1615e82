/**
 The CELESTIAL codec of celestial_model.c: the profile slots of one hour and the
 next, written as one payload and read back. What reading accepts is exactly
 what writing produces.
 */
module CelestialProtocol {
  import opened Arithmetic
  import opened Packets
  import opened Solver
  import opened Orbit

  const SLOTS_MAX: nat := 255
  const SLOT_NONE: nat := 255
  const HOUR: nat := 3600

  datatype Slot = Slot(id: nat, current: Inputs, next: Inputs)

  /** celestial_protocol_same_profile(): only the phases differ. */
  predicate SameProfile(a: Inputs, b: Inputs) {
    a == b.(solarHour := a.solarHour, seasonPhase := a.seasonPhase, lunarAge := a.lunarAge)
  }

  predicate SlotValid(s: Slot) {
    s.id < SLOT_NONE && InputsValid(s.current) && InputsValid(s.next) && SameProfile(s.current, s.next)
  }

  /** The identifiers strictly increase. */
  predicate Increasing(slots: seq<Slot>) { forall i :: 0 < i < |slots| ==> slots[i - 1].id < slots[i].id }

  predicate AllSlotsValid(slots: seq<Slot>) { forall i :: 0 <= i < |slots| ==> SlotValid(slots[i]) }

  predicate StartValid(start: nat) { start % HOUR == 0 && start <= UINT64_MAX - HOUR }

  /** What the C types of inputs hold. */
  predicate Fits(i: Inputs) {
    && TypedInputs(i) && i.dayBrightness < UINT16 && i.nightBrightness < UINT16 && i.moonMax < UINT8
    && i.starlightStrength < UINT8 && i.lunarPeriod < UINT16
    && i.solarHour < UINT16 && i.seasonPhase < UINT16 && i.lunarAge < UINT16
  }

  predicate SlotFits(s: Slot) { s.id < UINT8 && Fits(s.current) && Fits(s.next) }

  predicate AllFit(slots: seq<Slot>) { forall i :: 0 <= i < |slots| ==> SlotFits(slots[i]) }

  /** Everything a payload may say. */
  predicate IsMessage(generation: nat, start: nat, slots: seq<Slot>) {
    && generation < UINT32 && StartValid(start) && |slots| <= SLOTS_MAX
    && AllFit(slots) && AllSlotsValid(slots) && Increasing(slots)
  }

  // ---- the bytes -----------------------------------------------------------

  function RgbBytes(c: Rgb): (b: seq<Byte>)
    requires Colors(c)
    ensures |b| == 6
  {
    Bytes16(c.red) + Bytes16(c.green) + Bytes16(c.blue)
  }

  /** Day and night. */
  function SolarBytes(i: Inputs): (b: seq<Byte>)
    requires Fits(i)
    ensures |b| == 16
  {
    RgbBytes(i.dayLinear) + RgbBytes(i.nightLinear) + Bytes16(i.dayBrightness) + Bytes16(i.nightBrightness)
  }

  /** The moon and the stars. */
  function LunarBytes(i: Inputs): (b: seq<Byte>)
    requires Fits(i)
    ensures |b| == 16
  {
    RgbBytes(i.moonLinear) + [i.moonMax] + RgbBytes(i.starlightLinear) + [i.starlightStrength] + Bytes16(i.lunarPeriod)
  }

  function PhaseBytes(i: Inputs): (b: seq<Byte>)
    requires Fits(i)
    ensures |b| == 5
  {
    [i.solarHour % UINT8] + Bytes16(i.seasonPhase) + Bytes16(i.lunarAge)
  }

  function SlotBytes(s: Slot): (b: seq<Byte>)
    requires SlotFits(s)
    ensures |b| == 43
  {
    [s.id] + SolarBytes(s.current) + LunarBytes(s.current) + PhaseBytes(s.current) + PhaseBytes(s.next)
  }

  function SlotsBytes(slots: seq<Slot>): (b: seq<Byte>)
    requires AllFit(slots)
    ensures |b| == 43 * |slots|
  {
    if slots == [] then [] else SlotsBytes(slots[..|slots| - 1]) + SlotBytes(slots[|slots| - 1])
  }

  function HeadBytes(generation: nat, start: nat, count: Byte): (b: seq<Byte>)
    requires generation < UINT32 && start <= UINT64_MAX
    ensures |b| == 13
  {
    Bytes32(generation) + Bytes64(start) + [count]
  }

  function Encode(generation: nat, start: nat, slots: seq<Slot>): (b: seq<Byte>)
    requires generation < UINT32 && start <= UINT64_MAX && |slots| <= SLOTS_MAX && AllFit(slots)
    ensures |b| == 13 + 43 * |slots|
  {
    HeadBytes(generation, start, |slots|) + SlotsBytes(slots)
  }

  // ---- what bytes determine ------------------------------------------------

  lemma SplitEqual(a: seq<Byte>, x: seq<Byte>, b: seq<Byte>, y: seq<Byte>)
    requires |a| == |b| && a + x == b + y
    ensures a == b && x == y
  {
    assert a == (a + x)[..|a|] && b == (b + y)[..|a|];
    assert x == (a + x)[|a|..] && y == (b + y)[|a|..];
  }

  lemma RgbDetermined(c: Rgb, d: Rgb)
    requires Colors(c) && Colors(d) && RgbBytes(c) == RgbBytes(d)
    ensures c == d
  {
    hide Bytes16, Word16;
    SplitEqual(Bytes16(c.red) + Bytes16(c.green), Bytes16(c.blue), Bytes16(d.red) + Bytes16(d.green), Bytes16(d.blue));
    SplitEqual(Bytes16(c.red), Bytes16(c.green), Bytes16(d.red), Bytes16(d.green));
    Same16(c.red, d.red);
    Same16(c.green, d.green);
    Same16(c.blue, d.blue);
  }

  lemma Same16(v: nat, w: nat)
    requires v < UINT16 && w < UINT16 && Bytes16(v) == Bytes16(w)
    ensures v == w
  {
    hide Bytes16, Word16;
    Words16(v);
    Words16(w);
  }

  lemma SolarDetermined(i: Inputs, j: Inputs)
    requires Fits(i) && Fits(j) && SolarBytes(i) == SolarBytes(j)
    ensures i.dayLinear == j.dayLinear && i.nightLinear == j.nightLinear
    ensures i.dayBrightness == j.dayBrightness && i.nightBrightness == j.nightBrightness
  {
    hide RgbBytes, Bytes16, Colors;
    Colored(i);
    Colored(j);
    var a, b := RgbBytes(i.dayLinear) + RgbBytes(i.nightLinear), RgbBytes(j.dayLinear) + RgbBytes(j.nightLinear);
    SplitEqual(a + Bytes16(i.dayBrightness), Bytes16(i.nightBrightness),
               b + Bytes16(j.dayBrightness), Bytes16(j.nightBrightness));
    SplitEqual(a, Bytes16(i.dayBrightness), b, Bytes16(j.dayBrightness));
    SplitEqual(RgbBytes(i.dayLinear), RgbBytes(i.nightLinear), RgbBytes(j.dayLinear), RgbBytes(j.nightLinear));
    RgbDetermined(i.dayLinear, j.dayLinear);
    RgbDetermined(i.nightLinear, j.nightLinear);
    Same16(i.dayBrightness, j.dayBrightness);
    Same16(i.nightBrightness, j.nightBrightness);
  }

  lemma Colored(i: Inputs)
    requires Fits(i)
    ensures Colors(i.dayLinear) && Colors(i.nightLinear) && Colors(i.moonLinear) && Colors(i.starlightLinear)
  {}

  lemma LunarDetermined(i: Inputs, j: Inputs)
    requires Fits(i) && Fits(j) && LunarBytes(i) == LunarBytes(j)
    ensures i.moonLinear == j.moonLinear && i.starlightLinear == j.starlightLinear
    ensures i.moonMax == j.moonMax && i.starlightStrength == j.starlightStrength && i.lunarPeriod == j.lunarPeriod
  {
    hide RgbBytes, Bytes16, Colors;
    Colored(i);
    Colored(j);
    var a, b := RgbBytes(i.moonLinear) + [i.moonMax], RgbBytes(j.moonLinear) + [j.moonMax];
    var c, d := a + RgbBytes(i.starlightLinear), b + RgbBytes(j.starlightLinear);
    SplitEqual(c + [i.starlightStrength], Bytes16(i.lunarPeriod), d + [j.starlightStrength], Bytes16(j.lunarPeriod));
    SplitEqual(c, [i.starlightStrength], d, [j.starlightStrength]);
    SplitEqual(a, RgbBytes(i.starlightLinear), b, RgbBytes(j.starlightLinear));
    SplitEqual(RgbBytes(i.moonLinear), [i.moonMax], RgbBytes(j.moonLinear), [j.moonMax]);
    SameByte(i.moonMax, j.moonMax);
    SameByte(i.starlightStrength, j.starlightStrength);
    RgbDetermined(i.moonLinear, j.moonLinear);
    RgbDetermined(i.starlightLinear, j.starlightLinear);
    Same16(i.lunarPeriod, j.lunarPeriod);
  }

  lemma SameByte(v: Byte, w: Byte)
    requires [v] == [w]
    ensures v == w
  {
    assert [v][0] == [w][0];
  }

  lemma PhaseDetermined(i: Inputs, j: Inputs)
    requires Fits(i) && Fits(j) && i.solarHour < UINT8 && j.solarHour < UINT8 && PhaseBytes(i) == PhaseBytes(j)
    ensures i.solarHour == j.solarHour && i.seasonPhase == j.seasonPhase && i.lunarAge == j.lunarAge
  {
    hide Bytes16;
    SplitEqual([i.solarHour] + Bytes16(i.seasonPhase), Bytes16(i.lunarAge),
               [j.solarHour] + Bytes16(j.seasonPhase), Bytes16(j.lunarAge));
    SplitEqual([i.solarHour], Bytes16(i.seasonPhase), [j.solarHour], Bytes16(j.seasonPhase));
    SameByte(i.solarHour, j.solarHour);
    Same16(i.seasonPhase, j.seasonPhase);
    Same16(i.lunarAge, j.lunarAge);
  }

  /** A slot whose bytes can be told from others': its two hours share a profile
   and each fits a byte. */
  predicate Plain(s: Slot) {
    SlotFits(s) && SameProfile(s.current, s.next) && s.current.solarHour < UINT8 && s.next.solarHour < UINT8
  }

  lemma SlotDetermined(s: Slot, t: Slot)
    requires Plain(s) && Plain(t) && SlotBytes(s) == SlotBytes(t)
    ensures s == t
  {
    hide SolarBytes, LunarBytes, PhaseBytes, Fits;
    var a, b := [s.id] + SolarBytes(s.current), [t.id] + SolarBytes(t.current);
    var c, d := a + LunarBytes(s.current), b + LunarBytes(t.current);
    SplitEqual(c + PhaseBytes(s.current), PhaseBytes(s.next), d + PhaseBytes(t.current), PhaseBytes(t.next));
    SplitEqual(c, PhaseBytes(s.current), d, PhaseBytes(t.current));
    SplitEqual(a, LunarBytes(s.current), b, LunarBytes(t.current));
    SplitEqual([s.id], SolarBytes(s.current), [t.id], SolarBytes(t.current));
    SameByte(s.id, t.id);
    SolarDetermined(s.current, t.current);
    LunarDetermined(s.current, t.current);
    PhaseDetermined(s.current, t.current);
    PhaseDetermined(s.next, t.next);
  }

  predicate AllPlain(slots: seq<Slot>) { forall i :: 0 <= i < |slots| ==> Plain(slots[i]) }

  /** Slots whose bytes begin the bytes of others begin those. */
  lemma {:induction false} SlotsDetermined(acc: seq<Slot>, x: seq<Byte>, slots: seq<Slot>)
    requires AllPlain(acc) && AllPlain(slots) && AllFit(acc) && AllFit(slots) && |acc| <= |slots|
    requires SlotsBytes(acc) + x == SlotsBytes(slots)
    ensures acc == slots[..|acc|]
    decreases |slots| + |acc|
  {
    hide SlotsBytes, Plain, SlotFits;
    if |acc| < |slots| {
      SlotsShorter(acc, x, slots);
      SlotsDetermined(acc, SlotsBytes(slots[..|slots| - 1])[43 * |acc|..], slots[..|slots| - 1]);
      assert slots[..|slots| - 1][..|acc|] == slots[..|acc|];
    } else if acc != [] {
      var n := |acc| - 1;
      SlotsLast(acc, x, slots);
      SlotDetermined(acc[n], slots[n]);
      SlotsDetermined(acc[..n], [], slots[..n]);
      assert acc == acc[..n] + [acc[n]] && slots == slots[..n] + [slots[n]];
    }
  }

  lemma SlotsLast(acc: seq<Slot>, x: seq<Byte>, slots: seq<Slot>)
    requires AllFit(acc) && AllFit(slots) && |acc| == |slots| > 0 && SlotsBytes(acc) + x == SlotsBytes(slots)
    ensures var n := |acc| - 1;
      SlotsBytes(acc[..n]) + [] == SlotsBytes(slots[..n]) && SlotBytes(acc[n]) == SlotBytes(slots[n])
  {
    hide SlotBytes, SlotFits;
    var n := |acc| - 1;
    assert |x| == 0 && SlotsBytes(acc) == SlotsBytes(acc) + x;
    SplitEqual(SlotsBytes(acc[..n]), SlotBytes(acc[n]), SlotsBytes(slots[..n]), SlotBytes(slots[n]));
    assert SlotsBytes(acc[..n]) + [] == SlotsBytes(acc[..n]);
  }

  lemma SlotsShorter(acc: seq<Slot>, x: seq<Byte>, slots: seq<Slot>)
    requires AllFit(acc) && AllFit(slots) && |acc| < |slots| && SlotsBytes(acc) + x == SlotsBytes(slots)
    ensures SlotsBytes(acc) + SlotsBytes(slots[..|slots| - 1])[43 * |acc|..] == SlotsBytes(slots[..|slots| - 1])
  {
    hide SlotBytes, SlotFits;
    var n := |slots| - 1;
    LongerStart(SlotsBytes(acc), x, SlotsBytes(slots[..n]), SlotBytes(slots[n]), 43 * |acc|);
  }

  lemma LongerStart(a: seq<Byte>, x: seq<Byte>, b: seq<Byte>, y: seq<Byte>, n: nat)
    requires |a| == n <= |b| && a + x == b + y
    ensures a + b[n..] == b
  {
    assert (a + x)[..n] == a && (b + y)[..n] == b[..n];
  }

  /** A message that begins with bytes that were read has what was read. */
  lemma MessageBegins(generation: nat, start: nat, count: Byte, acc: seq<Slot>, rest: seq<Byte>,
                      generation': nat, start': nat, slots: seq<Slot>)
    requires generation < UINT32 && start <= UINT64_MAX && |acc| <= count && AllPlain(acc) && AllFit(acc)
    requires IsMessage(generation', start', slots)
    requires HeadBytes(generation, start, count) + SlotsBytes(acc) + rest == Encode(generation', start', slots)
    ensures generation == generation' && start == start' && count == |slots| && acc == slots[..|acc|]
  {
    hide Bytes32, Word32, Bytes64, Word64, SlotsBytes, SlotValid, SlotFits, Plain;
    var h := Bytes32(generation) + Bytes64(start);
    var h' := Bytes32(generation') + Bytes64(start');
    assert HeadBytes(generation, start, count) + SlotsBytes(acc) + rest
        == HeadBytes(generation, start, count) + (SlotsBytes(acc) + rest);
    SplitEqual(h + [count], SlotsBytes(acc) + rest, h' + [|slots|], SlotsBytes(slots));
    SplitEqual(h, [count], h', [|slots|]);
    SameByte(count, |slots|);
    SplitEqual(Bytes32(generation), Bytes64(start), Bytes32(generation'), Bytes64(start'));
    Words32(generation);
    Words32(generation');
    Words64(start);
    Words64(start');
    ValidPlain(slots);
    SlotsDetermined(acc, rest, slots);
  }

  lemma ValidPlain(slots: seq<Slot>)
    requires AllFit(slots) && AllSlotsValid(slots)
    ensures AllPlain(slots)
  {}

  // ---- writing -------------------------------------------------------------

  method PutRgb(packet: Writer, c: Rgb, ghost start: seq<Byte>, ghost before: seq<Byte>)
    requires packet.Valid() && Colors(c) && Written(packet, start, before)
    modifies packet, packet.data
    ensures packet.Valid() && packet.limit == old(packet.limit)
    ensures packet.data == old(packet.data) || fresh(packet.data)
    ensures Written(packet, start, before + RgbBytes(c))
  {
    hide Written, Bytes16;
    Put16(packet, c.red, start, before);
    Put16(packet, c.green, start, before + Bytes16(c.red));
    Put16(packet, c.blue, start, before + Bytes16(c.red) + Bytes16(c.green));
    Three(before, Bytes16(c.red), Bytes16(c.green), Bytes16(c.blue));
  }

  lemma Three(a: seq<Byte>, b: seq<Byte>, c: seq<Byte>, d: seq<Byte>)
    ensures a + b + c + d == a + (b + c + d)
  {}

  lemma Four(a: seq<Byte>, b: seq<Byte>, c: seq<Byte>, d: seq<Byte>, e: seq<Byte>)
    ensures a + b + c + d + e == a + (b + c + d + e)
  {}

  lemma Five(a: seq<Byte>, b: seq<Byte>, c: seq<Byte>, d: seq<Byte>, e: seq<Byte>, f: seq<Byte>)
    ensures a + b + c + d + e + f == a + (b + c + d + e + f)
  {}

  /** The profile's constants, day and night first. */
  method PutSolar(packet: Writer, i: Inputs, ghost start: seq<Byte>, ghost before: seq<Byte>)
    requires packet.Valid() && Fits(i) && Written(packet, start, before)
    modifies packet, packet.data
    ensures packet.Valid() && packet.limit == old(packet.limit)
    ensures packet.data == old(packet.data) || fresh(packet.data)
    ensures Written(packet, start, before + SolarBytes(i))
  {
    hide Written, Bytes16, RgbBytes, Colors;
    Colored(i);
    ghost var a, b, c := RgbBytes(i.dayLinear), RgbBytes(i.nightLinear), Bytes16(i.dayBrightness);
    PutRgb(packet, i.dayLinear, start, before);
    PutRgb(packet, i.nightLinear, start, before + a);
    Put16(packet, i.dayBrightness, start, before + a + b);
    Put16(packet, i.nightBrightness, start, before + a + b + c);
    Four(before, a, b, c, Bytes16(i.nightBrightness));
  }

  method PutLunar(packet: Writer, i: Inputs, ghost start: seq<Byte>, ghost before: seq<Byte>)
    requires packet.Valid() && Fits(i) && Written(packet, start, before)
    modifies packet, packet.data
    ensures packet.Valid() && packet.limit == old(packet.limit)
    ensures packet.data == old(packet.data) || fresh(packet.data)
    ensures Written(packet, start, before + LunarBytes(i))
  {
    hide Written, Bytes16, RgbBytes, Colors;
    Colored(i);
    ghost var a: seq<Byte>, b: seq<Byte>, c := RgbBytes(i.moonLinear), [i.moonMax], RgbBytes(i.starlightLinear);
    ghost var d: seq<Byte> := [i.starlightStrength];
    PutRgb(packet, i.moonLinear, start, before);
    Put8(packet, i.moonMax, start, before + a);
    PutRgb(packet, i.starlightLinear, start, before + a + b);
    Put8(packet, i.starlightStrength, start, before + a + b + c);
    Put16(packet, i.lunarPeriod, start, before + a + b + c + d);
    Five(before, a, b, c, d, Bytes16(i.lunarPeriod));
  }

  method PutPhases(packet: Writer, i: Inputs, ghost start: seq<Byte>, ghost before: seq<Byte>)
    requires packet.Valid() && Fits(i) && Written(packet, start, before)
    modifies packet, packet.data
    ensures packet.Valid() && packet.limit == old(packet.limit)
    ensures packet.data == old(packet.data) || fresh(packet.data)
    ensures Written(packet, start, before + PhaseBytes(i))
  {
    hide Written, Bytes16;
    ghost var a: seq<Byte>, b := [i.solarHour % UINT8], Bytes16(i.seasonPhase);
    Put8(packet, i.solarHour % UINT8, start, before);
    Put16(packet, i.seasonPhase, start, before + a);
    Put16(packet, i.lunarAge, start, before + a + b);
    Three(before, a, b, Bytes16(i.lunarAge));
  }

  method PutSlot(packet: Writer, s: Slot, ghost start: seq<Byte>, ghost before: seq<Byte>)
    requires packet.Valid() && SlotFits(s) && Written(packet, start, before)
    modifies packet, packet.data
    ensures packet.Valid() && packet.limit == old(packet.limit)
    ensures packet.data == old(packet.data) || fresh(packet.data)
    ensures Written(packet, start, before + SlotBytes(s))
  {
    hide Written, SolarBytes, LunarBytes, PhaseBytes, Fits;
    ghost var a: seq<Byte>, b, c := [s.id], SolarBytes(s.current), LunarBytes(s.current);
    ghost var d := PhaseBytes(s.current);
    Put8(packet, s.id, start, before);
    PutSolar(packet, s.current, start, before + a);
    PutLunar(packet, s.current, start, before + a + b);
    PutPhases(packet, s.current, start, before + a + b + c);
    PutPhases(packet, s.next, start, before + a + b + c + d);
    Five(before, a, b, c, d, PhaseBytes(s.next));
  }

  method PutSlots(packet: Writer, slots: seq<Slot>, ghost start: seq<Byte>, ghost before: seq<Byte>)
    requires packet.Valid() && AllFit(slots) && Written(packet, start, before)
    modifies packet, packet.data
    ensures packet.Valid() && packet.limit == old(packet.limit)
    ensures packet.data == old(packet.data) || fresh(packet.data)
    ensures Written(packet, start, before + SlotsBytes(slots))
  {
    hide Written, SlotBytes, SlotFits;
    assert before + SlotsBytes(slots[..0]) == before;
    for i := 0 to |slots|
      invariant packet.Valid() && packet.limit == old(packet.limit)
      invariant packet.data == old(packet.data) || fresh(packet.data)
      invariant Written(packet, start, before + SlotsBytes(slots[..i]))
    {
      PutSlot(packet, slots[i], start, before + SlotsBytes(slots[..i]));
      assert slots[..i + 1][..i] == slots[..i];
      assert before + SlotsBytes(slots[..i]) + SlotBytes(slots[i])
          == before + (SlotsBytes(slots[..i]) + SlotBytes(slots[i]));
    }
    assert slots[..|slots|] == slots;
  }

  /** The first loop of a write: whether every slot is valid and after the last. */
  method SlotsAreValid(slots: seq<Slot>) returns (ok: bool)
    ensures ok <==> AllSlotsValid(slots) && Increasing(slots)
  {
    hide SlotValid;
    for i := 0 to |slots|
      invariant AllSlotsValid(slots[..i]) && Increasing(slots[..i])
    {
      if (i != 0 && slots[i].id <= slots[i - 1].id) || !SlotValid(slots[i]) {
        return false;
      }
    }
    assert slots[..|slots|] == slots;
    return true;
  }

  /** celestial_protocol_write(): the whole payload, or no byte of it; refused
   exactly for a start that is no hour's, too many or invalid slots, a packet
   already in error, or one without the room. */
  method Write(packet: Writer, generation: nat, start: nat, slots: seq<Slot>) returns (ok: bool)
    requires packet.Valid() && generation < UINT32 && start <= UINT64_MAX && AllFit(slots)
    modifies packet, packet.data
    ensures packet.Valid()
    ensures ok <==> IsMessage(generation, start, slots) && old(packet.error) == NoError
                    && |old(packet.Contents())| + 13 + 43 * |slots| <= old(packet.limit)
    ensures ok ==> packet.Contents() == old(packet.Contents()) + Encode(generation, start, slots)
    ensures !ok ==> packet.Contents() == old(packet.Contents())
  {
    hide SlotsBytes, Bytes32, Bytes64, AllFit, AllSlotsValid, Increasing, StartValid;
    if |slots| > SLOTS_MAX || !StartValid(start) || packet.error != NoError {
      return false;
    }
    var valid := SlotsAreValid(slots);
    if !valid {
      return false;
    }
    var mark := packet.len;
    ghost var held := packet.Contents();
    assert held + [] == held && [] + Bytes32(generation) == Bytes32(generation);
    assert Written(packet, held, []);
    hide Written;
    Put32(packet, generation, held, []);
    Put64(packet, start, held, Bytes32(generation));
    Put8(packet, |slots|, held, Bytes32(generation) + Bytes64(start));
    PutSlots(packet, slots, held, HeadBytes(generation, start, |slots|));
    WrittenAll(packet, held, Encode(generation, start, slots));
    ok := packet.error == NoError;
    if !ok {
      packet.Rollback(mark);
    }
  }

  // ---- reading -------------------------------------------------------------

  method GetRgb(reader: Reader, ghost start: seq<Byte>, ghost before: seq<Byte>) returns (c: Rgb)
    requires reader.Valid() && Consumed(reader, start, before)
    modifies reader
    ensures reader.Valid() && Colors(c) && Consumed(reader, start, before + RgbBytes(c))
  {
    hide Consumed, Bytes16;
    var red := Get16(reader, start, before);
    var green := Get16(reader, start, before + Bytes16(red));
    var blue := Get16(reader, start, before + Bytes16(red) + Bytes16(green));
    c := Rgb(red, green, blue);
    Three(before, Bytes16(red), Bytes16(green), Bytes16(blue));
  }

  method GetSolar(reader: Reader, i: Inputs, ghost start: seq<Byte>, ghost before: seq<Byte>) returns (r: Inputs)
    requires reader.Valid() && Consumed(reader, start, before) && Fits(i)
    modifies reader
    ensures reader.Valid() && Fits(r) && Consumed(reader, start, before + SolarBytes(r))
    ensures r == i.(dayLinear := r.dayLinear, nightLinear := r.nightLinear,
                    dayBrightness := r.dayBrightness, nightBrightness := r.nightBrightness)
  {
    hide Consumed, Bytes16, RgbBytes, Colors;
    var day := GetRgb(reader, start, before);
    var night := GetRgb(reader, start, before + RgbBytes(day));
    var dayBrightness := Get16(reader, start, before + RgbBytes(day) + RgbBytes(night));
    var nightBrightness := Get16(reader, start, before + RgbBytes(day) + RgbBytes(night) + Bytes16(dayBrightness));
    r := i.(dayLinear := day, nightLinear := night, dayBrightness := dayBrightness, nightBrightness := nightBrightness);
    Four(before, RgbBytes(day), RgbBytes(night), Bytes16(dayBrightness), Bytes16(nightBrightness));
  }

  method GetLunar(reader: Reader, i: Inputs, ghost start: seq<Byte>, ghost before: seq<Byte>) returns (r: Inputs)
    requires reader.Valid() && Consumed(reader, start, before) && Fits(i)
    modifies reader
    ensures reader.Valid() && Fits(r) && Consumed(reader, start, before + LunarBytes(r))
    ensures r == i.(moonLinear := r.moonLinear, moonMax := r.moonMax, starlightLinear := r.starlightLinear,
                    starlightStrength := r.starlightStrength, lunarPeriod := r.lunarPeriod)
  {
    hide Consumed, Bytes16, RgbBytes, Colors;
    var moon := GetRgb(reader, start, before);
    ghost var a := RgbBytes(moon);
    var moonMax := Get8(reader, start, before + a);
    var stars := GetRgb(reader, start, before + a + [moonMax]);
    ghost var c := RgbBytes(stars);
    var strength := Get8(reader, start, before + a + [moonMax] + c);
    var period := Get16(reader, start, before + a + [moonMax] + c + [strength]);
    r := i.(moonLinear := moon, moonMax := moonMax, starlightLinear := stars, starlightStrength := strength,
            lunarPeriod := period);
    Five(before, a, [moonMax], c, [strength], Bytes16(period));
  }

  method GetPhases(reader: Reader, i: Inputs, ghost start: seq<Byte>, ghost before: seq<Byte>) returns (r: Inputs)
    requires reader.Valid() && Consumed(reader, start, before) && Fits(i)
    modifies reader
    ensures reader.Valid() && Fits(r) && r.solarHour < UINT8 && Consumed(reader, start, before + PhaseBytes(r))
    ensures SameProfile(r, i)
  {
    hide Consumed, Bytes16, Colors;
    var hour := Get8(reader, start, before);
    var season := Get16(reader, start, before + [hour]);
    var age := Get16(reader, start, before + [hour] + Bytes16(season));
    r := i.(solarHour := hour, seasonPhase := season, lunarAge := age);
    Three(before, [hour], Bytes16(season), Bytes16(age));
    assert [r.solarHour % UINT8] == [hour];
  }

  const NOTHING := Inputs(BLACK, BLACK, 0, 0, BLACK, 0, BLACK, 0, 0, 0, 0, 0)

  lemma SameSolar(i: Inputs, j: Inputs)
    requires Fits(i) && Fits(j) && i.dayLinear == j.dayLinear && i.nightLinear == j.nightLinear
    requires i.dayBrightness == j.dayBrightness && i.nightBrightness == j.nightBrightness
    ensures SolarBytes(i) == SolarBytes(j)
  {}

  lemma SameLunar(i: Inputs, j: Inputs)
    requires Fits(i) && Fits(j) && SameProfile(i, j)
    ensures LunarBytes(i) == LunarBytes(j)
  {}

  /** One slot: the next hour takes the profile that was read for this one. */
  method GetSlot(reader: Reader, ghost start: seq<Byte>, ghost before: seq<Byte>) returns (s: Slot)
    requires reader.Valid() && Consumed(reader, start, before)
    modifies reader
    ensures reader.Valid() && Plain(s) && Consumed(reader, start, before + SlotBytes(s))
  {
    hide Consumed, SolarBytes, LunarBytes, PhaseBytes, Fits;
    var id := Get8(reader, start, before);
    NothingFits();
    var solar := GetSolar(reader, NOTHING, start, before + [id]);
    var profile := GetLunar(reader, solar, start, before + [id] + SolarBytes(solar));
    SameSolar(solar, profile);
    ghost var front := before + [id] + SolarBytes(solar) + LunarBytes(profile);
    var current := GetPhases(reader, profile, start, front);
    var next := GetPhases(reader, profile, start, front + PhaseBytes(current));
    SameSolar(profile, current);
    SameLunar(profile, current);
    s := Slot(id, current, next);
    Five(before, [id], SolarBytes(current), LunarBytes(current), PhaseBytes(current), PhaseBytes(next));
  }

  lemma NothingFits()
    ensures Fits(NOTHING)
  {}

  /** The payload of a message. */
  ghost predicate Says(data: seq<Byte>, generation: nat, start: nat, slots: seq<Slot>) {
    IsMessage(generation, start, slots) && data == Encode(generation, start, slots)
  }

  /** The payload of none. */
  ghost predicate NoMessage(data: seq<Byte>) {
    forall generation: nat, start: nat, slots: seq<Slot> :: !Says(data, generation, start, slots)
  }

  /** Bytes that begin like a payload but go on like none. */
  lemma Refused(data: seq<Byte>, generation: nat, start: nat, count: Byte, acc: seq<Slot>, rest: seq<Byte>)
    requires generation < UINT32 && start <= UINT64_MAX && |acc| <= count && AllPlain(acc) && AllFit(acc)
    requires data == HeadBytes(generation, start, count) + SlotsBytes(acc) + rest
    requires !StartValid(start) || !AllSlotsValid(acc) || !Increasing(acc) || |rest| != 43 * (count - |acc|)
    ensures NoMessage(data)
  {
    hide Says, HeadBytes, SlotsBytes, AllPlain, AllFit, AllSlotsValid, Increasing, StartValid;
    forall generation': nat, start': nat, slots: seq<Slot>
      ensures !Says(data, generation', start', slots)
    {
      if Says(data, generation', start', slots) {
        SaysElse(data, generation, start, count, acc, rest, generation', start', slots);
      }
    }
  }

  lemma SaysElse(data: seq<Byte>, generation: nat, start: nat, count: Byte, acc: seq<Slot>, rest: seq<Byte>,
                 generation': nat, start': nat, slots: seq<Slot>)
    requires generation < UINT32 && start <= UINT64_MAX && |acc| <= count && AllPlain(acc) && AllFit(acc)
    requires data == HeadBytes(generation, start, count) + SlotsBytes(acc) + rest
    requires Says(data, generation', start', slots)
    ensures StartValid(start) && AllSlotsValid(acc) && Increasing(acc) && |rest| == 43 * (count - |acc|)
  {
    hide HeadBytes, SlotsBytes, SlotValid, SlotFits, Plain;
    MessageBegins(generation, start, count, acc, rest, generation', start', slots);
    SlotsTake(slots, |acc|);
  }

  lemma SlotsTake(slots: seq<Slot>, n: nat)
    requires AllSlotsValid(slots) && Increasing(slots) && n <= |slots|
    ensures AllSlotsValid(slots[..n]) && Increasing(slots[..n])
  {
    hide SlotValid;
  }

  lemma TooShort(data: seq<Byte>)
    requires |data| < 13
    ensures NoMessage(data)
  {
    hide HeadBytes, SlotsBytes, AllFit, AllSlotsValid, Increasing, StartValid;
  }

  /** The slots of a payload whose head was read, and nothing after them. */
  method GetSlots(reader: Reader, generation: nat, start: nat, count: Byte, ghost data: seq<Byte>)
    returns (ok: bool, slots: seq<Slot>)
    requires reader.Valid() && generation < UINT32 && StartValid(start) && reader.error == NoError
    requires Consumed(reader, data, HeadBytes(generation, start, count))
    modifies reader
    ensures ok ==> |slots| == count && Says(data, generation, start, slots)
    ensures !ok ==> NoMessage(data)
  {
    hide HeadBytes, SlotsBytes, SlotBytes, SlotValid, StartValid, NoMessage, Consumed, Says;
    hide AllPlain, AllFit, AllSlotsValid, Increasing, Plain;
    StartFits(start);
    ghost var head := HeadBytes(generation, start, count);
    ok, slots := false, [];
    NoSlots(head);
    var i: nat := 0;
    while i < count
      invariant i <= count && reader.Valid() && reader.error == NoError && |slots| == i
      invariant AllPlain(slots) && AllFit(slots) && AllSlotsValid(slots) && Increasing(slots)
      invariant Consumed(reader, data, head + SlotsBytes(slots))
    {
      ConsumedIs(reader, data, head + SlotsBytes(slots));
      ghost var rest := reader.Rest();
      var s := GetSlot(reader, data, head + SlotsBytes(slots));
      OneMore(slots, s, head);
      ConsumedIs(reader, data, head + SlotsBytes(slots + [s]));
      if reader.error != NoError {
        Refused(data, generation, start, count, slots, rest);
        return;
      }
      if s.id >= SLOT_NONE || (i != 0 && s.id <= slots[i - 1].id) || !InputsValid(s.current) || !InputsValid(s.next) {
        NotValid(slots, s);
        Refused(data, generation, start, count, slots + [s], reader.Rest());
        return;
      }
      StillValid(slots, s);
      slots := slots + [s];
      i := i + 1;
    }
    ConsumedIs(reader, data, head + SlotsBytes(slots));
    ok := reader.Finish();
    if ok {
      SaysThis(data, generation, start, count, slots);
    } else {
      Refused(data, generation, start, count, slots, reader.Rest());
    }
  }

  lemma StartFits(start: nat)
    requires StartValid(start)
    ensures start <= UINT64_MAX
  {}

  lemma NoSlots(head: seq<Byte>)
    ensures AllPlain([]) && AllFit([]) && AllSlotsValid([]) && Increasing([]) && head + SlotsBytes([]) == head
  {}

  lemma SaysThis(data: seq<Byte>, generation: nat, start: nat, count: Byte, slots: seq<Slot>)
    requires generation < UINT32 && StartValid(start) && |slots| == count
    requires AllFit(slots) && AllSlotsValid(slots) && Increasing(slots)
    requires data == HeadBytes(generation, start, count) + SlotsBytes(slots) + []
    ensures Says(data, generation, start, slots)
  {
    hide HeadBytes, SlotsBytes, AllFit, AllSlotsValid, Increasing;
  }

  lemma StillValid(slots: seq<Slot>, s: Slot)
    requires AllSlotsValid(slots) && Increasing(slots)
    requires Plain(s) && s.id < SLOT_NONE && InputsValid(s.current) && InputsValid(s.next)
    requires slots != [] ==> slots[|slots| - 1].id < s.id
    ensures AllSlotsValid(slots + [s]) && Increasing(slots + [s])
  {}

  /** celestial_protocol_read(): what it accepts is a payload that writing gives for
   what it returns, and what it refuses writing never gives. */
  method Read(data: seq<Byte>) returns (ok: bool, generation: nat, start: nat, slots: seq<Slot>)
    ensures ok ==> Says(data, generation, start, slots)
    ensures !ok ==> NoMessage(data)
  {
    hide SlotsBytes, StartValid, NoMessage, Consumed, Bytes32, Bytes64, Says;
    ok, slots := false, [];
    var reader := new Reader(data);
    BeginsReading(reader, data);
    generation := Get32(reader, data, []);
    start := Get64(reader, data, [] + Bytes32(generation));
    var count := Get8(reader, data, [] + Bytes32(generation) + Bytes64(start));
    assert [] + Bytes32(generation) == Bytes32(generation);
    ConsumedIs(reader, data, HeadBytes(generation, start, count));
    if reader.error != NoError {
      TooShort(data);
      return;
    }
    if count > SLOTS_MAX || !StartValid(start) {
      NoSlots(HeadBytes(generation, start, count));
      Refused(data, generation, start, count, [], reader.Rest());
      return;
    }
    ok, slots := GetSlots(reader, generation, start, count, data);
  }

  lemma BeginsReading(reader: Reader, data: seq<Byte>)
    requires reader.Valid() && reader.error == NoError && reader.Rest() == data
    ensures Consumed(reader, data, [])
  {
    assert [] + data == data;
  }

  lemma ConsumedIs(reader: Reader, data: seq<Byte>, before: seq<Byte>)
    requires reader.Valid() && Consumed(reader, data, before)
    ensures reader.error == NoError <==> |before| <= |data|
    ensures reader.error == NoError ==> data == before + reader.Rest()
  {}

  lemma OneMore(slots: seq<Slot>, s: Slot, head: seq<Byte>)
    requires AllPlain(slots) && AllFit(slots) && Plain(s)
    ensures AllPlain(slots + [s]) && AllFit(slots + [s])
    ensures head + SlotsBytes(slots + [s]) == head + SlotsBytes(slots) + SlotBytes(s)
  {
    hide SlotBytes;
    assert (slots + [s])[..|slots|] == slots;
    assert head + (SlotsBytes(slots) + SlotBytes(s)) == head + SlotsBytes(slots) + SlotBytes(s);
  }

  lemma NotValid(slots: seq<Slot>, s: Slot)
    requires s.id >= SLOT_NONE || !InputsValid(s.current) || !InputsValid(s.next)
      || (slots != [] && s.id <= slots[|slots| - 1].id)
    ensures !AllSlotsValid(slots + [s]) || !Increasing(slots + [s])
  {
    var all := slots + [s];
    assert all[|slots|] == s && (slots != [] ==> all[|slots| - 1] == slots[|slots| - 1]);
    if AllSlotsValid(all) {
      assert SlotValid(all[|slots|]);
    }
  }

  // ---- round trip ----------------------------------------------------------

  /** No two messages share a payload. */
  lemma OneMessage(data: seq<Byte>, generation: nat, start: nat, slots: seq<Slot>,
                   generation': nat, start': nat, slots': seq<Slot>)
    requires Says(data, generation, start, slots) && Says(data, generation', start', slots')
    ensures generation == generation' && start == start' && slots == slots'
  {
    hide HeadBytes, SlotsBytes, SlotValid, SlotFits, Plain;
    ValidPlain(slots);
    assert HeadBytes(generation, start, |slots|) + SlotsBytes(slots) + [] == data;
    MessageBegins(generation, start, |slots|, slots, [], generation', start', slots');
  }

  /** What is written to an empty packet is read back, exactly where it is valid. */
  method WriteThenRead(generation: nat, start: nat, slots: seq<Slot>, size: nat, expand: nat)
    returns (ok: bool, generation': nat, start': nat, slots': seq<Slot>)
    requires generation < UINT32 && start <= UINT64_MAX && AllFit(slots)
    ensures ok <==> IsMessage(generation, start, slots)
    ensures ok ==> generation' == generation && start' == start && slots' == slots
  {
    hide Encode, AllFit, AllSlotsValid, Increasing, StartValid, NoMessage;
    generation', start', slots' := 0, 0, [];
    var packet := new Writer(size, expand);
    var written := Write(packet, generation, start, slots);
    if !written {
      return false, 0, 0, [];
    }
    var data := packet.data[..packet.len];
    assert [] + Encode(generation, start, slots) == Encode(generation, start, slots);
    assert Says(data, generation, start, slots);
    ok, generation', start', slots' := Read(data);
    if ok {
      OneMessage(data, generation', start', slots', generation, start, slots);
    } else {
      Contradicted(data, generation, start, slots);
    }
  }

  lemma Contradicted(data: seq<Byte>, generation: nat, start: nat, slots: seq<Slot>)
    requires Says(data, generation, start, slots)
    ensures !NoMessage(data)
  {
    hide Says;
  }
}
