/**
 Solving one fragment of a closure, row by row: celestial_closure_solve_begin()
 and celestial_closure_solve_step().
 */
module ClosureJobs {
  import opened Relaxation
  import opened Solver
  import opened Jobs
  import ClosureIndex
  import ClosureRoundTrip
  import opened ClosureSolve

  const DARK := Light(0, Rgb(0, 0, 0))

  /** The solve of one fragment: its handle is its number plus one. */
  function ProblemOf(v: L.View, number: nat, m: Model): Problem
    requires v.Valid() && number < |v.fragments|
  {
    Problem(SolverLattice(v), number + 1, m, v.fragments[number].width, v.fragments[number].height)
  }

  /** What a fragment's cell shows: the solved light, or none outside the
   closure. */
  ghost function ShownAt(v: L.View, number: nat, m: Model, x: int, y: int): Light
    requires v.Valid() && number < |v.fragments| && Typed(m)
    requires InGrid(v.fragments[number].width, v.fragments[number].height, x, y)
  {
    if FragmentCell(v, number, x, y) == 0 then DARK else SolvedAt(ProblemOf(v, number, m), x, y)
  }

  function FragmentCell(v: L.View, number: nat, x: int, y: int): nat
    requires v.Valid() && number < |v.fragments|
    requires InGrid(v.fragments[number].width, v.fragments[number].height, x, y)
  {
    var f := v.fragments[number];
    ClosureIndex.CellPlace(f, f.x + x, f.y + y);
    f.values[x + f.width * y]
  }

  lemma FragmentEntry(v: L.View, number: nat, x: int, y: int)
    requires v.Valid() && number < |v.fragments|
    requires InGrid(v.fragments[number].width, v.fragments[number].height, x, y)
    ensures var f := v.fragments[number];
      0 <= x + f.width * y < |f.values| && FragmentCell(v, number, x, y) == f.values[x + f.width * y]
  {
    hide ClosureIndex.SkyClear;
    Arithmetic.IndexFacts(v.fragments[number].width, v.fragments[number].height, x, y);
  }

  /** What clearing looks at is the closure's own value of the cell. */
  lemma FragmentCellIs(v: L.View, number: nat, x: int, y: int)
    requires v.Valid() && number < |v.fragments|
    requires InGrid(v.fragments[number].width, v.fragments[number].height, x, y)
    ensures var f := v.fragments[number];
      FragmentCell(v, number, x, y) == ClosureIndex.ValueAt(v.fragments, f.depth, f.x + x, f.y + y)
  {
    hide ClosureIndex.ValueAt, ClosureIndex.Disjoint, ClosureIndex.SkyClear, FragmentCell;
    var f := v.fragments[number];
    FragmentEntry(v, number, x, y);
    Arithmetic.IndexFacts(f.width, f.height, x, y);
    ClosureIndex.EntryIsCell(v.fragments, number, x + f.width * y);
  }

  class ClosureJob {
    const view: L.View
    const number: nat
    const model: Model
    const grant: bool
    const values: array2<int>
    const rgb: array2<Rgb>
    var solver: Job?
    /** The output row that is cleared outside the closure next. */
    var clearRow: nat

    ghost function Repr(): set<object>
      reads this
    {
      {this, values, rgb} + if solver == null then {} else {solver} + solver.Buffers()
    }

    predicate Sized() {
      && number < |view.fragments|
      && values.Length0 == rgb.Length0 == view.fragments[number].height
      && values.Length1 == rgb.Length1 == view.fragments[number].width
    }

    function H(): nat
      requires Sized()
    {
      view.fragments[number].height
    }

    /** The rows cleared so far show what they are to show, the others what the
     solver solved. */
    ghost predicate Cleared(n: nat)
      requires view.Valid() && Sized() && Typed(model)
      reads values, rgb
    {
      forall x, y :: InGrid(view.fragments[number].width, H(), x, y) ==>
        Light(values[y, x], rgb[y, x])
        == if y < n then ShownAt(view, number, model, x, y) else SolvedAt(ProblemOf(view, number, model), x, y)
    }

    ghost predicate Solving()
      requires view.Valid() && Sized() && solver != null
      reads this, Repr()
    {
      && solver.Valid() && solver.stage != StageDone && clearRow == 0
      && solver.problem == ProblemOf(view, number, model) && solver.grant == grant
      && solver.values == values && solver.rgb == rgb
    }

    ghost predicate Valid()
      reads this, Repr()
    {
      && view.Valid() && Sized() && H() > 0 && Typed(model)
      && if solver != null then Solving() else clearRow <= H() && Cleared(clearRow)
    }

    /** Steps left until the job is done. */
    ghost function StepsLeft(): int
      requires Valid()
      reads this, Repr()
    {
      if solver != null then solver.StepsLeft() + H() - 1 else H() - clearRow
    }

    /** celestial_closure_solve_begin() */
    constructor (v: L.View, number: nat, m: Model, grant: bool, junk: (int, int, int) -> nat,
                 values: array2<int>, rgb: array2<Rgb>)
      requires v.Valid() && number < |v.fragments| && Typed(m)
      requires values.Length0 == rgb.Length0 == v.fragments[number].height
      requires values.Length1 == rgb.Length1 == v.fragments[number].width
      ensures Valid() && fresh(Repr() - {values, rgb})
      ensures view == v && this.number == number && model == m && this.grant == grant
      ensures this.values == values && this.rgb == rgb
      ensures StepsLeft() == SolveSteps(ProblemOf(v, number, m), grant) + v.fragments[number].height - 1 > 0
    {
      hide SolverLattice, SolveSteps, Job.Valid;
      FragmentSized(v, number);
      var job := new Job(ProblemOf(v, number, m), grant, junk, values, rgb);
      StepsToDo(job);
      job.StepsAre();
      view, this.number, model, this.grant, this.values, this.rgb := v, number, m, grant, values, rgb;
      solver, clearRow := job, 0;
    }

    /** One row: the cells outside the closure are cleared, the others stay. */
    method ClearOne(n: nat)
      requires view.Valid() && Sized() && Typed(model) && n < H() && Cleared(n)
      modifies values, rgb
      ensures Cleared(n + 1)
    {
      hide SolvedAt, ProblemOf, ShownAt, FragmentCell, L.View.Valid;
      var w := view.fragments[number].width;
      var x := 0;
      while x < w
        invariant 0 <= x <= w && RowCleared(n, x)
      {
        ClearNext(n, x);
        x := x + 1;
      }
    }

    /** As Cleared(n), and the first k cells of row n are done as well. */
    ghost predicate RowCleared(n: nat, k: int)
      requires view.Valid() && Sized() && Typed(model)
      reads values, rgb
    {
      forall x, y :: InGrid(view.fragments[number].width, H(), x, y) ==>
        Light(values[y, x], rgb[y, x])
        == if y < n || (y == n && x < k) then ShownAt(view, number, model, x, y)
           else SolvedAt(ProblemOf(view, number, model), x, y)
    }

    method ClearNext(n: nat, x: nat)
      requires view.Valid() && Sized() && Typed(model)
      requires n < H() && x < view.fragments[number].width && RowCleared(n, x)
      modifies values, rgb
      ensures RowCleared(n, x + 1)
    {
      hide SolvedAt, ProblemOf, FragmentCell, L.View.Valid;
      assert InGrid(view.fragments[number].width, H(), x, n);
      if FragmentCell(view, number, x, n) == 0 {
        values[n, x] := 0;
        rgb[n, x] := Rgb(0, 0, 0);
      }
    }

    /** celestial_closure_solve_step() */
    method Step() returns (status: Status)
      requires Valid()
      modifies Repr()
      ensures Valid() && Repr() <= old(Repr())
      ensures status == Done <==> StepsLeft() == 0
      ensures StepsLeft() == if old(StepsLeft()) == 0 then 0 else old(StepsLeft()) - 1
      ensures status == Done ==> solver == null && Cleared(H())
      ensures old(StepsLeft()) == 0 ==> solver == null
      ensures old(StepsLeft()) == 0 ==> forall x, y :: InGrid(view.fragments[number].width, H(), x, y) ==>
        values[y, x] == old(values[y, x]) && rgb[y, x] == old(rgb[y, x])
    {
      hide SolvedAt, ProblemOf, ShownAt, L.View.Valid, Job.Valid, Job.StepsLeft, Cleared;
      if solver != null {
        status := StepSolver();
        if status != Done {
          return;
        }
      }
      if clearRow < H() {
        ClearOne(clearRow);
        clearRow := clearRow + 1;
      }
      status := if clearRow < H() then Pending else Done;
    }

    /** One step of the solver, which is dropped once it is done. */
    method StepSolver() returns (status: Status)
      requires Valid() && solver != null
      modifies this`solver, solver, solver.Buffers()
      ensures Valid() && Repr() <= old(Repr()) && clearRow == 0
      ensures status == Done <==> solver == null
      ensures solver == null ==> old(StepsLeft()) == H()
      ensures solver != null ==> StepsLeft() == old(StepsLeft()) - 1 > 0
    {
      hide SolvedAt, ProblemOf, ShownAt, L.View.Valid, Job.Valid, Cleared;
      status := solver.Step();
      if status == Done {
        DoneCleared(solver);
        solver := null;
      } else {
        solver.StepsAre();
      }
    }

    lemma DoneCleared(job: Job)
      requires view.Valid() && Sized() && Typed(model)
      requires job.Valid() && job.stage == StageDone && job.problem == ProblemOf(view, number, model)
      requires job.values == values && job.rgb == rgb
      ensures Cleared(0)
    {
      hide SolvedAt, ShownAt, GoalOf;
    }
  }

  /** celestial_closure_solve(): the fragment's cells of the closure show the
   plain solve on the closure's lattice, its other cells nothing, after the
   solver's steps and one more for every row but the first. */
  method SolveFragment(v: L.View, number: nat, m: Model, grant: bool, junk: (int, int, int) -> nat,
                       values: array2<int>, rgb: array2<Rgb>) returns (steps: nat)
    requires v.Valid() && number < |v.fragments| && Typed(m)
    requires values.Length0 == rgb.Length0 == v.fragments[number].height
    requires values.Length1 == rgb.Length1 == v.fragments[number].width
    modifies values, rgb
    ensures steps == SolveSteps(ProblemOf(v, number, m), grant) + v.fragments[number].height - 1
    ensures forall x, y :: InGrid(v.fragments[number].width, v.fragments[number].height, x, y) ==>
      Light(values[y, x], rgb[y, x]) == ShownAt(v, number, m, x, y)
  {
    hide SolveSteps, SolvedAt, ProblemOf, ShownAt, L.View.Valid, ClosureJob.Valid, ClosureJob.StepsLeft;
    var job := new ClosureJob(v, number, m, grant, junk, values, rgb);
    ghost var total := job.StepsLeft();
    var status := Pending;
    steps := 0;
    while status == Pending
      invariant job.Valid() && fresh(job.Repr() - {values, rgb}) && job.StepsLeft() >= 0
      invariant steps + job.StepsLeft() == total && (status == Done ==> job.StepsLeft() == 0 && job.Cleared(job.H()))
      invariant status == Pending ==> job.StepsLeft() > 0
      decreases job.StepsLeft(), status == Pending
    {
      status := job.Step();
      steps := steps + 1;
    }
  }

  lemma FragmentSized(v: L.View, number: nat)
    requires v.Valid() && number < |v.fragments|
    ensures 0 < v.fragments[number].width && 0 < v.fragments[number].height
  {
    assert ClosureRoundTrip.FragmentValid(v.fragments[number], v.width, v.height);
  }
}
