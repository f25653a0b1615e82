/**
 The publication sequence of metaserver_publisher_sequence.c: numbers reserved
 in two slot files so that, whatever fails and wherever the process dies, none
 is ever handed out twice.
 */
module PublishSequence {
  import opened Arithmetic

  // ---- the two files -------------------------------------------------------

  /** A slot file: missing, a sequence number, or anything that is not one. */
  datatype Slot = Absent | Holding(value: nat) | Garbage

  predicate SlotValid(s: Slot) { s.Holding? ==> 1 <= s.value <= UINT64_MAX }

  function ValueOf(s: Slot): nat { if s.Holding? then s.value else 0 }

  function Highest(a: Slot, b: Slot): nat {
    if ValueOf(a) < ValueOf(b) then ValueOf(b) else ValueOf(a)
  }

  /** What befalls a file operation: nothing, a failure before or after it took
   effect, or the process dying before or after it did. */
  datatype Fault = Fine | Fails | FailsLate | Dies | DiesLate

  datatype Reading = Missing | Found(value: nat) | Unreadable

  class Disk {
    var first: Slot
    var second: Slot
    /** What will befall the coming operations; after these, nothing. */
    var faults: seq<Fault>
    /** The process has died: nothing it would still do happens. */
    var dead: bool

    ghost predicate Valid()
      reads this
    {
      && SlotValid(first) && SlotValid(second)
      && (first.Holding? && second.Holding? ==> first.value != second.value)
    }

    /** The highest number either file holds. */
    ghost function HighWater(): nat
      reads this
    {
      Highest(first, second)
    }

    ghost predicate Faultless()
      reads this
    {
      faults == [] && !dead && first != Garbage && second != Garbage
    }

    function At(i: nat): Slot
      requires i < 2
      reads this
    {
      if i == 0 then first else second
    }

    method NextFault() returns (fault: Fault)
      modifies this`faults
      ensures old(faults) == [] ==> fault == Fine && faults == []
    {
      if faults == [] {
        return Fine;
      }
      fault := faults[0];
      faults := faults[1..];
    }

    /** path_read_secret() and the checks of its canonical number. */
    method Read(i: nat) returns (r: Reading)
      requires i < 2 && !dead
      modifies this`faults, this`dead
      ensures old(Faultless()) ==> Faultless() && r != Unreadable
      ensures dead ==> r == Unreadable
      ensures r == Missing ==> At(i) == Absent
      ensures r.Found? ==> At(i) == Holding(r.value)
    {
      var fault := NextFault();
      if fault == Dies || fault == DiesLate {
        dead := true;
        return Unreadable;
      }
      if fault != Fine || At(i) == Garbage {
        return Unreadable;
      }
      var slot := At(i);
      return if slot.Absent? then Missing else Found(slot.value);
    }

    method Put(i: nat, slot: Slot)
      requires i < 2
      modifies this`first, this`second
      ensures At(i) == slot && At(1 - i) == old(At(1 - i))
    {
      if i == 0 {
        first := slot;
      } else {
        second := slot;
      }
    }

    /** unlink(): whether it reports success; it may happen and report failure. */
    method Unlink(i: nat) returns (ok: bool)
      requires i < 2 && !dead
      modifies this
      ensures old(Faultless()) ==> Faultless() && ok
      ensures ok ==> At(i) == Absent && !dead
      ensures At(i) == Absent || At(i) == old(At(i))
      ensures At(1 - i) == old(At(1 - i))
    {
      var fault := NextFault();
      if fault == Dies || fault == DiesLate {
        dead := true;
      }
      if fault == Fails || fault == Dies {
        return false;
      }
      Put(i, Absent);
      return fault == Fine;
    }

    /** path_secret_create_atomic(): never replaces a file, and the whole number
     appears or nothing does; it may appear and report failure. */
    method Create(i: nat, value: nat) returns (ok: bool)
      requires i < 2 && !dead
      modifies this
      ensures old(Faultless()) && old(At(i)) == Absent ==> Faultless() && ok
      ensures ok ==> At(i) == Holding(value) && !dead
      ensures At(i) == old(At(i)) || (old(At(i)) == Absent && At(i) == Holding(value))
      ensures At(1 - i) == old(At(1 - i))
    {
      var fault := NextFault();
      if fault == Dies || fault == DiesLate {
        dead := true;
      }
      if fault == Fails || fault == Dies || At(i) != Absent {
        return false;
      }
      Put(i, Holding(value));
      return fault == Fine;
    }
  }

  // ---- the protocol --------------------------------------------------------

  datatype Outcome = Ok | Error | Exhausted | Died

  /** metaserver_publish_sequence_read() */
  method ReadSlots(disk: Disk) returns (ok: bool, first: Slot, second: Slot, highwater: nat)
    requires disk.Valid() && !disk.dead
    modifies disk`faults, disk`dead
    ensures ok ==> !disk.dead && first == disk.first && second == disk.second && highwater == disk.HighWater()
    ensures ok ==> first != Garbage && second != Garbage
    ensures old(disk.Faultless()) ==> ok && disk.Faultless()
  {
    first, second, highwater := Absent, Absent, 0;
    var r := disk.Read(0);
    if r == Unreadable {
      return false, first, second, 0;
    }
    if r.Found? {
      first, highwater := Holding(r.value), Max(highwater, r.value);
    }
    r := disk.Read(1);
    if r == Unreadable {
      return false, first, second, 0;
    }
    if r.Found? {
      second, highwater := Holding(r.value), Max(highwater, r.value);
    }
    ok := !(first.Holding? && second.Holding? && first.value == second.value);
  }

  /** The slot a new number goes to: a missing one, else the lower one. */
  function Target(first: Slot, second: Slot): nat {
    if first.Absent? then 0
    else if second.Absent? then 1
    else if ValueOf(first) < ValueOf(second) then 0 else 1
  }

  /** Clears the target if it must be. */
  method Clear(disk: Disk, first: Slot, second: Slot) returns (ok: bool)
    requires disk.Valid() && !disk.dead && first == disk.first && second == disk.second
    requires first != Garbage && second != Garbage
    modifies disk
    ensures disk.Valid() && disk.HighWater() == old(disk.HighWater())
    ensures ok ==> !disk.dead && disk.At(Target(first, second)) == Absent
    ensures ok ==> disk.At(1 - Target(first, second)) == old(disk.At(1 - Target(first, second)))
    ensures old(disk.Faultless()) ==> ok && disk.Faultless()
  {
    ok := true;
    if first.Holding? && second.Holding? {
      ok := disk.Unlink(Target(first, second));
    }
  }

  /** Publishes the number: either the file is created, or a second look at both
   files finds it there after all. */
  method Publish(disk: Disk, target: nat, desired: nat) returns (ok: bool)
    requires disk.Valid() && !disk.dead && target < 2 && disk.At(target) == Absent
    requires disk.HighWater() < desired <= UINT64_MAX
    modifies disk
    ensures disk.Valid()
    ensures disk.At(1 - target) == old(disk.At(1 - target))
    ensures disk.At(target) == Absent || disk.At(target) == Holding(desired)
    ensures ok ==> !disk.dead && disk.At(target) == Holding(desired)
    ensures old(disk.Faultless()) ==> ok && disk.Faultless()
  {
    ok := disk.Create(target, desired);
    if !ok && !disk.dead {
      var again, _, _, highwater := ReadSlots(disk);
      ok := again && highwater == desired;
    }
  }

  /** Clears the target, publishes the number there and drops the old one. */
  method Replace(disk: Disk, first: Slot, second: Slot, desired: nat) returns (r: Outcome)
    requires disk.Valid() && !disk.dead && first == disk.first && second == disk.second
    requires first != Garbage && second != Garbage && disk.HighWater() < desired <= UINT64_MAX
    modifies disk
    ensures disk.Valid() && (r == Died <==> disk.dead) && r != Exhausted
    ensures disk.HighWater() == old(disk.HighWater()) || disk.HighWater() == desired
    ensures r == Ok ==> disk.HighWater() == desired
    ensures old(disk.Faultless()) ==> r == Ok && disk.Faultless()
    ensures old(disk.Faultless()) ==> {disk.first, disk.second} == {Holding(desired), Absent}
  {
    var target := Target(first, second);
    var ok := Clear(disk, first, second);
    if !ok {
      return if disk.dead then Died else Error;
    }
    ok := Publish(disk, target, desired);
    if !ok {
      return if disk.dead then Died else Error;
    }
    var previous := if target == 0 then second else first;
    if previous.Holding? && previous.value < desired {
      var _ := disk.Unlink(1 - target);
    }
    return if disk.dead then Died else Ok;
  }

  /** metaserver_publish_sequence_persist(): the high-water mark becomes the
   desired one or stays, and never otherwise moves. */
  method Persist(disk: Disk, desired: nat) returns (r: Outcome)
    requires disk.Valid() && !disk.dead && desired <= UINT64_MAX
    modifies disk
    ensures disk.Valid() && (r == Died <==> disk.dead) && r != Exhausted
    ensures disk.HighWater() == old(disk.HighWater())
      || (disk.HighWater() == desired && desired > old(disk.HighWater()))
    ensures r == Ok ==> disk.HighWater() >= desired
    ensures old(disk.Faultless()) ==> r == Ok && disk.Faultless()
    ensures old(disk.Faultless()) && desired > old(disk.HighWater()) ==>
      {disk.first, disk.second} == {Holding(desired), Absent}
  {
    var ok, first, second, highwater := ReadSlots(disk);
    if !ok {
      return if disk.dead then Died else Error;
    }
    if desired <= highwater {
      return Ok;
    }
    r := Replace(disk, first, second, desired);
  }

  datatype Call = Reserve(minimum: nat) | Recover(minimumNext: nat)

  predicate CallValid(c: Call) {
    if c.Reserve? then c.minimum <= UINT64_MAX else c.minimumNext <= UINT64_MAX
  }

  /** The mark a call is after. */
  function Desired(c: Call, highwater: nat): nat
    requires c.Recover? ==> c.minimumNext > 0
  {
    if c.Reserve? then Max(highwater + 1, c.minimum) else Max(highwater, c.minimumNext - 1)
  }

  /** What a call may do to the high-water mark, and what it may answer, wherever
   it failed or died. */
  predicate Allowed(before: nat, c: Call, outcome: Outcome, sequence: nat, after: nat) {
    if c == Reserve(0) || c == Recover(0) then outcome == Error && after == before && sequence == 0
    else
      && (outcome == Exhausted ==> before == UINT64_MAX)
      && (before == UINT64_MAX ==> outcome != Ok && after == before)
      && (after == before || after == Desired(c, before))
      && (outcome == Ok ==> after == Desired(c, before))
      && sequence == (if outcome == Ok && c.Reserve? then after else 0)
  }

  /** A call that succeeds goes no further than it has to: it reserves the least
   number above the mark and not below its minimum, or moves the mark the least that
   lets no smaller number be reserved next. */
  lemma NoFurther(before: nat, c: Call, outcome: Outcome, sequence: nat, after: nat, n: nat)
    requires Allowed(before, c, outcome, sequence, after) && outcome == Ok
    ensures c.Reserve? ==> sequence == after > before && sequence >= c.minimum
    ensures c.Reserve? && n > before && n >= c.minimum ==> sequence <= n
    ensures c.Recover? ==> after >= before && after + 1 >= c.minimumNext
    ensures c.Recover? && n >= before && n + 1 >= c.minimumNext ==> after <= n
  {}

  /** metaserver_publish_sequence_reserve() */
  method ReserveNext(disk: Disk, minimum: nat) returns (r: Outcome, sequence: nat)
    requires disk.Valid() && !disk.dead && minimum <= UINT64_MAX
    modifies disk
    ensures disk.Valid() && (r == Died <==> disk.dead)
    ensures Allowed(old(disk.HighWater()), Reserve(minimum), r, sequence, disk.HighWater())
    ensures old(disk.Faultless()) && minimum > 0 ==>
      disk.Faultless() && r == if old(disk.HighWater()) == UINT64_MAX then Exhausted else Ok
  {
    if minimum == 0 {
      return Error, 0;
    }
    var ok, _, _, highwater := ReadSlots(disk);
    if !ok {
      return if disk.dead then Died else Error, 0;
    }
    if highwater == UINT64_MAX {
      return Exhausted, 0;
    }
    var desired := Max(highwater + 1, minimum);
    r := Persist(disk, desired);
    sequence := if r == Ok then desired else 0;
  }

  /** metaserver_publish_sequence_recover() */
  method RecoverTo(disk: Disk, minimumNext: nat) returns (r: Outcome)
    requires disk.Valid() && !disk.dead && minimumNext <= UINT64_MAX
    modifies disk
    ensures disk.Valid() && (r == Died <==> disk.dead)
    ensures Allowed(old(disk.HighWater()), Recover(minimumNext), r, 0, disk.HighWater())
    ensures old(disk.Faultless()) && minimumNext > 0 ==>
      disk.Faultless() && r == if old(disk.HighWater()) == UINT64_MAX then Exhausted else Ok
  {
    if minimumNext == 0 {
      return Error;
    }
    var ok, _, _, highwater := ReadSlots(disk);
    if !ok {
      return if disk.dead then Died else Error;
    }
    if highwater == UINT64_MAX {
      return Exhausted;
    }
    r := Persist(disk, Max(highwater, minimumNext - 1));
  }

  // ---- whole runs ----------------------------------------------------------

  /** One call of a run; after a death the process starts again. */
  datatype Step = Step(before: nat, call: Call, outcome: Outcome, sequence: nat, after: nat)

  /** A run of calls, each starting from the files the one before it left. */
  ghost predicate Run(steps: seq<Step>) {
    && (forall i :: 0 <= i < |steps| ==>
         CallValid(steps[i].call)
         && Allowed(steps[i].before, steps[i].call, steps[i].outcome, steps[i].sequence, steps[i].after))
    && forall i :: 0 <= i < |steps| - 1 ==> steps[i + 1].before == steps[i].after
  }

  lemma {:induction false} NeverDecreases(steps: seq<Step>, i: nat, j: nat)
    requires Run(steps) && i <= j < |steps|
    ensures steps[i].before <= steps[i].after
    ensures i < j ==> steps[i].after <= steps[j].before
    ensures steps[i].before <= steps[j].before
    decreases j - i
  {
    assert Allowed(steps[i].before, steps[i].call, steps[i].outcome, steps[i].sequence, steps[i].after);
    if i < j {
      assert steps[i + 1].before == steps[i].after;
      NeverDecreases(steps, i + 1, j);
    }
  }

  /** Over every run, whatever failed and wherever the process died: reserved
   numbers strictly increase, and none is below its minimum. */
  lemma ReservedIncrease(steps: seq<Step>, i: nat, j: nat)
    requires Run(steps) && i < j < |steps|
    requires steps[i].call.Reserve? && steps[i].outcome == Ok && steps[j].call.Reserve? && steps[j].outcome == Ok
    ensures steps[i].sequence < steps[j].sequence
    ensures steps[i].call.minimum <= steps[i].sequence && steps[j].call.minimum <= steps[j].sequence
  {
    NeverDecreases(steps, i, j);
    assert Allowed(steps[i].before, steps[i].call, steps[i].outcome, steps[i].sequence, steps[i].after);
    assert Allowed(steps[j].before, steps[j].call, steps[j].outcome, steps[j].sequence, steps[j].after);
  }

  /** After a recovery to m, every later reservation is at least m. */
  lemma RecoveredBound(steps: seq<Step>, i: nat, j: nat)
    requires Run(steps) && i < j < |steps|
    requires steps[i].call.Recover? && steps[i].outcome == Ok && steps[j].call.Reserve? && steps[j].outcome == Ok
    ensures steps[j].sequence >= steps[i].call.minimumNext
  {
    NeverDecreases(steps, i, j);
    assert Allowed(steps[i].before, steps[i].call, steps[i].outcome, steps[i].sequence, steps[i].after);
    assert Allowed(steps[j].before, steps[j].call, steps[j].outcome, steps[j].sequence, steps[j].after);
  }

  /** Even a call that failed or died never gives its number back: whatever it
   made of the high-water mark is burned. */
  lemma BurnedNumbers(steps: seq<Step>, i: nat, j: nat)
    requires Run(steps) && i < j < |steps| && steps[j].call.Reserve? && steps[j].outcome == Ok
    ensures steps[j].sequence > steps[i].after
  {
    NeverDecreases(steps, i, j);
    assert Allowed(steps[j].before, steps[j].call, steps[j].outcome, steps[j].sequence, steps[j].after);
  }

  method Restart(disk: Disk)
    requires disk.Valid()
    modifies disk`dead
    ensures disk.Valid() && !disk.dead && disk.HighWater() == old(disk.HighWater())
  {
    disk.dead := false;
  }

  /** Any calls against any files and any faults make such a run. */
  method Perform(disk: Disk, calls: seq<Call>) returns (steps: seq<Step>)
    requires disk.Valid() && forall i :: 0 <= i < |calls| ==> CallValid(calls[i])
    modifies disk
    ensures disk.Valid() && |steps| == |calls| && Run(steps)
    ensures forall i :: 0 <= i < |calls| ==> steps[i].call == calls[i]
    ensures steps != [] ==> steps[0].before == old(disk.HighWater()) && steps[|steps| - 1].after == disk.HighWater()
  {
    steps := [];
    for i := 0 to |calls|
      invariant disk.Valid() && |steps| == i && Run(steps)
      invariant forall j :: 0 <= j < i ==> steps[j].call == calls[j]
      invariant if i == 0 then disk.HighWater() == old(disk.HighWater())
                else steps[0].before == old(disk.HighWater()) && steps[i - 1].after == disk.HighWater()
    {
      Restart(disk);
      var step := PerformOne(disk, calls[i]);
      steps := steps + [step];
    }
  }

  method PerformOne(disk: Disk, c: Call) returns (step: Step)
    requires disk.Valid() && !disk.dead && CallValid(c)
    modifies disk
    ensures disk.Valid() && step.call == c
    ensures step.before == old(disk.HighWater()) && step.after == disk.HighWater()
    ensures Allowed(step.before, c, step.outcome, step.sequence, step.after)
  {
    var before := Highest(disk.first, disk.second);
    var outcome, sequence := Error, 0;
    if c.Reserve? {
      outcome, sequence := ReserveNext(disk, c.minimum);
    } else {
      outcome := RecoverTo(disk, c.minimumNext);
    }
    step := Step(before, c, outcome, sequence, Highest(disk.first, disk.second));
  }
}
