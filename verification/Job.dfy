/**
 The row-stepped solve of celestial_solver.c: a state machine that traces,
 relaxes and publishes one row per step over buffers it never initialises in
 bulk, skips unlit fields and an absent moon, alternates two grids while it
 relaxes, and may or may not be granted a table of spill coefficients.

 The job is proved against SolvedAt, which knows none of this.
 */
module Jobs {
  import opened Relaxation
  import opened Lattices
  import opened Solver
  import opened SolverRows

  datatype Option<T> = None | Some(value: T)

  datatype Stage = StageSky | StageSun | StageMoon | StageSpill | StageRelax | StagePublish | StageDone

  datatype Status = Pending | Done

  /** The grids a goal is made of. */
  lemma GoalGrids(p: Problem)
    ensures var goal := GoalOf(p);
      && goal.direct == LightGrid(p, Sun, p.model.direct)
      && goal.apertureDirect == ApertureGrid(p, Sun, p.model.direct)
      && goal.diffuse == LightGrid(p, Sky, p.model.diffuse)
      && goal.starlight == LightGrid(p, Sky, p.model.starlight)
      && goal.moon == LightGrid(p, Moon, p.model.moon)
      && goal.moonAperture == ApertureGrid(p, Moon, p.model.moon)
      && goal.spill == SpillOf(p)
  {}

  lemma GoalShaped(p: Problem)
    ensures Shaped(GoalOf(p), p.Width(), p.Height())
  {}

  /** One of the passes over a field, given its first grid. */
  ghost function Relaxing(goal: Goal, k: nat, pass: nat): Grid
    requires k < 3
  {
    Passes(goal.Field(k), goal.spill, pass)
  }

  /** Steps of the relaxation from field k on: H rows of four passes a lit field. */
  ghost function FieldSteps(goal: Goal, h: nat, k: nat): nat
    requires k <= 3
    decreases 3 - k
  {
    if k == 3 then 0
    else (if LitRows(goal.Field(k), goal.Field(k).height) then h + h + h + h else 0) + FieldSteps(goal, h, k + 1)
  }

  class Job {
    /** The dimension snapshot, the lattice, the map and the model. */
    const problem: Problem
    /** Whether the lattice grants the memory of a spill table. */
    const grant: bool
    /** What unwritten table entries happen to hold. */
    const junk: (int, int, int) -> nat
    const values: array2<int>
    const rgb: array2<Rgb>
    const direct: array2<int>
    const diffuse: array2<int>
    const apertureDirect: array2<int>
    const moon: array2<int>
    const moonAperture: array2<int>
    const starlight: array2<int>
    /** What a pass writes while it reads a field, or the reverse. */
    const relaxNext: array2<int>
    var table: Option<Table>
    var stage: Stage
    var row: nat
    var relaxed: nat
    var pass: nat
    /** Whether each relaxed field has a nonzero cell. */
    var litDiffuse: bool
    var litAperture: bool
    var litStarlight: bool
    /** What a solve with no stages would transport. */
    ghost const goal: Goal

    ghost function Buffers(): set<object> {
      {direct, diffuse, apertureDirect, moon, moonAperture, starlight, relaxNext, values, rgb}
    }

    predicate IsLit(k: nat)
      requires k < 3
      reads this`litDiffuse, this`litAperture, this`litStarlight
    {
      if k == 0 then litDiffuse else if k == 1 then litAperture else litStarlight
    }

    /** The grid of a relaxed field. */
    function Field(k: nat): array2<int>
      requires k < 3
    {
      if k == 0 then diffuse else if k == 1 then apertureDirect else starlight
    }

    function H(): nat { problem.Height() }

    function W(): nat { problem.Width() }

    // ---- invariants --------------------------------------------------------

    ghost predicate Sized(a: array2<int>) { a.Length0 == H() && a.Length1 == W() }

    /** Buffer sizes, and no two buffers the same. */
    ghost predicate Shape() {
      && Sized(direct) && Sized(diffuse) && Sized(apertureDirect) && Sized(moon) && Sized(moonAperture)
      && Sized(starlight) && Sized(relaxNext)
      && values.Length0 == rgb.Length0 == problem.mapHeight && values.Length1 == rgb.Length1 == problem.mapWidth
      && problem.mapHeight > 0 && Typed(problem.model)
      && Shaped(goal, W(), H())
      && Distinct()
    }

    ghost predicate Distinct() {
      && direct != diffuse && direct != apertureDirect && direct != moon && direct != moonAperture
      && direct != starlight && direct != relaxNext && direct != values
      && diffuse != apertureDirect && diffuse != moon && diffuse != moonAperture
      && diffuse != starlight && diffuse != relaxNext && diffuse != values
      && apertureDirect != moon && apertureDirect != moonAperture
      && apertureDirect != starlight && apertureDirect != relaxNext && apertureDirect != values
      && moon != moonAperture && moon != starlight && moon != relaxNext && moon != values
      && moonAperture != starlight && moonAperture != relaxNext && moonAperture != values
      && starlight != relaxNext && starlight != values
      && relaxNext != values
    }

    /** The first n rows of the sky's fields, and of the grids it clears. */
    ghost predicate SkyRows(n: nat)
      reads this`litDiffuse, this`litStarlight, diffuse, starlight, moon, moonAperture
    {
      && RowsAre(diffuse, goal.diffuse, n) && RowsAre(starlight, goal.starlight, n)
      && (litDiffuse <==> LitRows(goal.diffuse, n)) && (litStarlight <==> LitRows(goal.starlight, n))
      && (problem.model.moon == 0 ==> MoonRows(n))
    }

    ghost predicate SunRows(n: nat)
      reads this`litAperture, direct, apertureDirect
    {
      && RowsAre(direct, goal.direct, n) && RowsAre(apertureDirect, goal.apertureDirect, n)
      && (litAperture <==> LitRows(goal.apertureDirect, n))
    }

    ghost predicate MoonRows(n: nat)
      reads moon, moonAperture
    {
      RowsAre(moon, goal.moon, n) && RowsAre(moonAperture, goal.moonAperture, n)
    }

    /** Which fields are lit is known once the rays are traced. */
    ghost predicate LitExact()
      reads this`litDiffuse, this`litAperture, this`litStarlight
    {
      && (litDiffuse <==> LitRows(goal.diffuse, H())) && (litAperture <==> LitRows(goal.apertureDirect, H()))
      && (litStarlight <==> LitRows(goal.starlight, H()))
    }

    /** The grids no relaxation touches. */
    ghost predicate Steady()
      reads direct, moon, moonAperture
    {
      RowsAre(direct, goal.direct, H()) && MoonRows(H())
    }

    /** Fields below k are relaxed, the others are as traced. */
    ghost predicate Fields(k: nat)
      reads diffuse, apertureDirect, starlight
    {
      && RowsAre(diffuse, if 0 < k then Relaxing(goal, 0, goal.passes) else goal.diffuse, H())
      && RowsAre(apertureDirect, if 1 < k then Relaxing(goal, 1, goal.passes) else goal.apertureDirect, H())
      && RowsAre(starlight, if 2 < k then Relaxing(goal, 2, goal.passes) else goal.starlight, H())
    }

    /** As Fields(k), but for field k itself. */
    ghost predicate OtherFields(k: nat)
      requires k < 3
      reads diffuse, apertureDirect, starlight
    {
      && (k != 0 ==> RowsAre(diffuse, Relaxing(goal, 0, goal.passes), H()))
      && (k != 1 ==>
            RowsAre(apertureDirect, if 1 < k then Relaxing(goal, 1, goal.passes) else goal.apertureDirect, H()))
      && (k != 2 ==> RowsAre(starlight, goal.starlight, H()))
    }

    ghost predicate TableReady(n: nat)
      reads this`table
    {
      table.Some? ==> grant && TableRows(table.value, problem, n)
    }

    function From(): array2<int>
      requires relaxed < 3
      reads this`relaxed, this`pass
    {
      if pass % 2 == 0 then Field(relaxed) else relaxNext
    }

    function To(): array2<int>
      requires relaxed < 3
      reads this`relaxed, this`pass
    {
      if pass % 2 == 0 then relaxNext else Field(relaxed)
    }

    /** Everything a pass keeps, with n rows of it written. */
    ghost predicate PassInv(n: nat)
      reads this, Buffers()
    {
      && relaxed < 3 && pass < PASSES && IsLit(relaxed)
      && LitExact() && Steady() && OtherFields(relaxed) && TableReady(H())
      && RowsAre(From(), Relaxing(goal, relaxed, pass), H()) && RowsAre(To(), Relaxing(goal, relaxed, pass + 1), n)
    }

    ghost predicate Published(n: nat)
      requires values.Length0 == rgb.Length0 == problem.mapHeight && values.Length1 == rgb.Length1 == problem.mapWidth
      requires Typed(problem.model)
      reads values, rgb
    {
      forall x, y :: 0 <= y < n && InGrid(problem.mapWidth, problem.mapHeight, x, y) ==>
        Light(values[y, x], rgb[y, x]) == SolvedAt(problem, x, y)
    }

    ghost predicate SkyInv()
      reads this, diffuse, starlight, moon, moonAperture
    {
      row < H() && table.None? && !litAperture && SkyRows(row)
    }

    ghost predicate SunInv()
      reads this, Buffers()
    {
      row < H() && table.None? && SkyRows(H()) && SunRows(row)
    }

    ghost predicate MoonInv()
      reads this, Buffers()
    {
      row < H() && table.None? && problem.model.moon != 0 && SkyRows(H()) && SunRows(H()) && MoonRows(row)
    }

    ghost predicate SpillReady()
      reads this, Buffers()
    {
      LitExact() && Steady() && Fields(0)
    }

    ghost predicate SpillInv()
      reads this, Buffers()
    {
      row < H() && SpillReady() && (row == 0 <==> table.None?) && TableReady(row)
    }

    ghost predicate PublishInv()
      reads this, Buffers()
      requires Shape()
    {
      row < problem.mapHeight && table.None? && Steady() && Fields(3) && Published(row)
    }

    /** The state after any number of steps. */
    ghost predicate Valid()
      reads this, Buffers()
    {
      Shape() && goal == GoalOf(problem) && match stage
        case StageSky => SkyInv()
        case StageSun => SunInv()
        case StageMoon => MoonInv()
        case StageSpill => SpillInv()
        case StageRelax => row < H() && PassInv(row)
        case StagePublish => PublishInv()
        case StageDone => Published(problem.mapHeight)
    }

    // ---- progress ----------------------------------------------------------

    /** Steps from the start of the spill stage, or of what replaces it. */
    ghost function TailSteps(): nat
      requires Shape()
    {
      var fields := FieldSteps(goal, H(), 0);
      (if fields == 0 then 0 else (if grant then H() else 1) + fields) + problem.mapHeight
    }

    ghost function MoonSteps(): nat { if problem.model.moon == 0 then 0 else H() }

    ghost function PassSteps(): nat
      reads this`pass
      requires pass < PASSES
    {
      if pass == 0 then 0 else if pass == 1 then H() else if pass == 2 then H() + H() else H() + H() + H()
    }

    /** Steps left until the job is done. */
    ghost function StepsLeft(): int
      reads this, Buffers()
      requires Valid()
    {
      match stage
      case StageSky => H() - row + H() + MoonSteps() + TailSteps()
      case StageSun => H() - row + MoonSteps() + TailSteps()
      case StageMoon => H() - row + TailSteps()
      case StageSpill => (if grant then H() - row else 1) + FieldSteps(goal, H(), 0) + problem.mapHeight
      case StageRelax => FieldSteps(goal, H(), relaxed) - PassSteps() - row + problem.mapHeight
      case StagePublish => problem.mapHeight - row
      case StageDone => 0
    }

    /** celestial_solver_job_create(), once the dimensions are known. */
    constructor (p: Problem, grant: bool, junk: (int, int, int) -> nat, values: array2<int>, rgb: array2<Rgb>)
      requires Typed(p.model) && p.mapHeight > 0
      requires values.Length0 == rgb.Length0 == p.mapHeight && values.Length1 == rgb.Length1 == p.mapWidth
      ensures Valid() && problem == p && this.grant == grant && this.values == values && this.rgb == rgb
      ensures stage == StageSky && row == 0
      ensures fresh(Buffers() - {values, rgb})
    {
      hide GoalOf, SolvedAt, Relaxing, TableRows, FieldSteps, Valid, SkyRows;
      problem, this.grant, this.junk, this.values, this.rgb := p, grant, junk, values, rgb;
      direct := new int[p.Height(), p.Width()];
      diffuse := new int[p.Height(), p.Width()];
      apertureDirect := new int[p.Height(), p.Width()];
      moon := new int[p.Height(), p.Width()];
      moonAperture := new int[p.Height(), p.Width()];
      starlight := new int[p.Height(), p.Width()];
      relaxNext := new int[p.Height(), p.Width()];
      table, stage, row, relaxed, pass := None, StageSky, 0, 0, 0;
      litDiffuse, litAperture, litStarlight := false, false, false;
      goal := GoalOf(p);
      new;
      GoalShaped(p);
      Begins();
    }

    /** No row is traced yet. */
    lemma Begins()
      requires Shape() && goal == GoalOf(problem) && stage == StageSky && row == 0 && table.None?
      requires !litDiffuse && !litAperture && !litStarlight
      ensures Valid()
    {
      hide GoalOf, SolvedAt, Relaxing, TableRows, FieldSteps;
    }

    // ---- the ray stages ----------------------------------------------------

    /** One row of sky rays. */
    method SkyLightStep()
      requires Shape() && goal == GoalOf(problem) && row < H()
      requires RowsAre(diffuse, goal.diffuse, row) && RowsAre(starlight, goal.starlight, row)
      requires (litDiffuse <==> LitRows(goal.diffuse, row)) && (litStarlight <==> LitRows(goal.starlight, row))
      modifies this`litDiffuse, this`litStarlight, diffuse, starlight
      ensures RowsAre(diffuse, goal.diffuse, row + 1) && RowsAre(starlight, goal.starlight, row + 1)
      ensures (litDiffuse <==> LitRows(goal.diffuse, row + 1)) && (litStarlight <==> LitRows(goal.starlight, row + 1))
    {
      GoalGrids(problem);
      hide GoalOf, LightGrid, ApertureGrid, LitRow, LitRows;
      var skyLit, starLit := SkyRow(problem, diffuse, starlight, row, goal.diffuse, goal.starlight);
      LitNext(goal.diffuse, row);
      LitNext(goal.starlight, row);
      litDiffuse, litStarlight := litDiffuse || skyLit, litStarlight || starLit;
    }

    /** One row of the sky stage, which clears the moon's rows in its absence. */
    method SkyStep()
      requires Shape() && goal == GoalOf(problem) && SkyInv()
      modifies this`litDiffuse, this`litStarlight, diffuse, starlight, moon, moonAperture
      ensures SkyRows(row + 1)
    {
      hide GoalOf, LitRows;
      SkyLightStep();
      if problem.model.moon == 0 {
        ClearMoonRow();
      }
    }

    method ClearMoonRow()
      requires Shape() && goal == GoalOf(problem) && row < H() && problem.model.moon == 0 && MoonRows(row)
      modifies moon, moonAperture
      ensures MoonRows(row + 1)
    {
      NoMoon(problem, Moon);
      GoalGrids(problem);
      hide GoalOf, LightGrid, ApertureGrid;
      ClearRow(moon, row);
      ClearRow(moonAperture, row);
      assert RowIs(moon, goal.moon, row) && RowIs(moonAperture, goal.moonAperture, row);
    }

    method SunStep()
      requires Shape() && goal == GoalOf(problem) && row < H() && SunRows(row)
      modifies this`litAperture, direct, apertureDirect
      ensures SunRows(row + 1)
    {
      GoalGrids(problem);
      hide GoalOf, LightGrid, ApertureGrid, LitRow, LitRows;
      var litRow := TransportRow(problem, Sun, problem.model.direct, direct, apertureDirect, row,
                                 goal.direct, goal.apertureDirect);
      LitNext(goal.apertureDirect, row);
      litAperture := litAperture || litRow;
    }

    method MoonStep()
      requires Shape() && goal == GoalOf(problem) && row < H() && MoonRows(row)
      modifies moon, moonAperture
      ensures MoonRows(row + 1)
    {
      GoalGrids(problem);
      hide GoalOf, LightGrid, ApertureGrid;
      var unused := TransportRow(problem, Moon, problem.model.moon, moon, moonAperture, row,
                                 goal.moon, goal.moonAperture);
    }

    // ---- relaxation --------------------------------------------------------

    /** An unlit field is already relaxed. */
    lemma FieldSkipped(k: nat)
      requires k < 3 && Shape() && LitExact() && !IsLit(k) && Fields(k)
      ensures Fields(k + 1)
      ensures !LitRows(goal.Field(k), goal.Field(k).height)
    {
      UnlitWithin(goal.Field(k));
      UnlitStays(goal.Field(k), goal.spill, goal.passes);
      hide LitRows, RowsAre;
    }

    /** A lit field's first pass reads it whole and has written nothing. */
    lemma FieldStarts(k: nat)
      requires k <= 3 && Shape() && Fields(k)
      ensures k < 3 ==> OtherFields(k) && RowsAre(Field(k), Relaxing(goal, k, 0), H())
      ensures k < 3 ==> RowsAre(relaxNext, Relaxing(goal, k, 1), 0)
    {}

    lemma PassBegins()
      requires Shape() && relaxed < 3 && pass == 0 && IsLit(relaxed)
      requires LitExact() && Steady() && Fields(relaxed) && TableReady(H())
      ensures PassInv(0)
    {
      hide LitExact, Steady, TableReady, Relaxing, RowsAre;
      FieldStarts(relaxed);
    }

    /** job_next_relaxed(): the next lit field from k on, or the publication. An
     unlit field relaxes to itself, and the table is released at the end. */
    method NextRelaxed(k: nat)
      requires k <= 3 && Shape()
      requires LitExact() && Steady() && Fields(k) && TableReady(H())
      modifies this`relaxed, this`pass, this`row, this`stage, this`table
      ensures stage == StageRelax || stage == StagePublish
      ensures stage == StageRelax ==> row == 0 && pass == 0 && PassInv(0)
      ensures stage == StagePublish ==> row == 0 && table.None? && Steady() && Fields(3)
      ensures FieldSteps(goal, H(), k) == if stage == StageRelax then FieldSteps(goal, H(), relaxed) else 0
    {
      hide Fields, Steady, LitExact, TableReady, PassInv, FieldSteps;
      var next := SkipUnlit(k);
      relaxed, pass, row := next, 0, 0;
      if relaxed == 3 {
        table := None;
        stage := StagePublish;
      } else {
        stage := StageRelax;
        PassBegins();
      }
    }

    /** The first lit field from k on, or 3. */
    method SkipUnlit(k: nat) returns (next: nat)
      requires k <= 3 && Shape() && LitExact() && Fields(k)
      ensures k <= next <= 3 && Fields(next) && (next < 3 ==> IsLit(next))
      ensures FieldSteps(goal, H(), k) == if next == 3 then 0 else FieldSteps(goal, H(), next)
    {
      hide LitRows, Relaxing, RowsAre, FieldSteps;
      next := k;
      while next < 3 && !IsLit(next)
        invariant k <= next <= 3
        invariant Fields(next)
        invariant FieldSteps(goal, H(), next) == FieldSteps(goal, H(), k)
      {
        FieldSkipped(next);
        FieldCount(goal, H(), next);
        next := next + 1;
      }
      FieldCount(goal, H(), 3);
    }

    /** The coefficients a relaxation reads: the table's, or the lattice's. */
    function SpillSource(): SpillFn
      reads this`table
    {
      if table.None? then SpillOf(problem)
      else
        var t := table.value;
        (x, y, dx, dy) => TableRead(t, x, y, dx, dy)
    }

    lemma SpillSourceSame()
      requires TableReady(H())
      ensures SameSpill(W(), H(), 0, 0, SpillSource(), SpillOf(problem))
    {
      hide TableRead, SpillCoefficient, TableRows;
      if table.Some? {
        TableSpill(table.value, problem);
      }
    }

    /** One row of the current pass. */
    method RelaxRowStep(from: array2<int>, to: array2<int>, ghost g: Grid)
      requires from != to && Sized(from) && Sized(to) && row < H()
      requires g.width == W() && g.height == H() && RowsAre(from, g, H()) && RowsAre(to, Pass(g, goal.spill), row)
      requires SameSpill(W(), H(), 0, 0, SpillSource(), goal.spill)
      modifies to
      ensures RowsAre(to, Pass(g, goal.spill), row + 1)
    {
      hide SameSpill, Best;
      SnapshotIs(from, g);
      ghost var spill := SpillSource();
      RelaxRow(from, to, row, SpillSource());
      forall x | 0 <= x < W()
        ensures RelaxCell(g, spill, x, row) == RelaxCell(g, goal.spill, x, row)
      {
        SpillInside(g, spill, goal.spill, x, row, 9);
      }
    }

    /** Steps left of the relaxation. */
    ghost function RelaxLeft(): int
      requires Shape() && (stage == StageRelax ==> relaxed < 3 && pass < PASSES)
      reads this
    {
      if stage == StageRelax then FieldSteps(goal, H(), relaxed) - PassSteps() - row else 0
    }

    /** A finished pass hands its grid to the next, or completes the field. */
    lemma PassDone(k: nat, p: nat)
      requires Shape() && k < 3 && p < PASSES
      requires RowsAre(if p % 2 == 0 then relaxNext else Field(k), Relaxing(goal, k, p + 1), H())
      requires OtherFields(k)
      ensures p + 1 < PASSES ==> RowsAre(if p % 2 == 0 then Field(k) else relaxNext, Relaxing(goal, k, p + 2), 0)
      ensures p + 1 == PASSES ==> Fields(k + 1)
    {}

    lemma PassFollows(k: nat, p: nat)
      requires k < 3
      ensures Relaxing(goal, k, p + 1) == Pass(Relaxing(goal, k, p), goal.spill)
    {}

    /** One row of the current pass, which writes the other grid only. */
    method RelaxRows()
      requires Shape() && goal.spill == SpillOf(problem) && row < H() && PassInv(row)
      modifies To()
      ensures PassInv(row + 1)
    {
      hide LitRows, TableRows, Relaxing, SameSpill;
      SpillSourceSame();
      PassFollows(relaxed, pass);
      RelaxRowStep(From(), To(), Relaxing(goal, relaxed, pass));
    }

    /** The counters after a row, and the grids' exchange after a pass. */
    method RelaxCounters()
      requires Shape() && stage == StageRelax && row < H() && PassInv(row + 1)
      modifies this`relaxed, this`pass, this`row, this`stage, this`table
      ensures stage == StageRelax || stage == StagePublish
      ensures stage == StageRelax ==> row < H() && PassInv(row)
      ensures stage == StagePublish ==> row == 0 && table.None? && Steady() && Fields(3)
      ensures RelaxLeft() == old(RelaxLeft()) - 1
    {
      hide LitRows, TableRows, FieldSteps, Relaxing, RowsAre;
      row := row + 1;
      if row == H() {
        NextPass();
      }
    }

    /** Every row of a pass is written. */
    method NextPass()
      requires Shape() && stage == StageRelax && row == H() && PassInv(row)
      modifies this`relaxed, this`pass, this`row, this`stage, this`table
      ensures stage == StageRelax || stage == StagePublish
      ensures stage == StageRelax ==> row < H() && PassInv(row)
      ensures stage == StagePublish ==> row == 0 && table.None? && Steady() && Fields(3)
      ensures RelaxLeft() == old(RelaxLeft())
    {
      hide LitRows, TableRows, FieldSteps, Relaxing, RowsAre;
      PassDone(relaxed, pass);
      row := 0;
      pass := pass + 1;
      if pass == PASSES {
        FieldCount(goal, H(), relaxed);
        NextRelaxed(relaxed + 1);
      }
    }

    method RelaxStep()
      requires Shape() && goal.spill == SpillOf(problem) && stage == StageRelax && row < H() && PassInv(row)
      modifies this`relaxed, this`pass, this`row, this`stage, this`table, To()
      ensures stage == StageRelax || stage == StagePublish
      ensures stage == StageRelax ==> row < H() && PassInv(row)
      ensures stage == StagePublish ==> row == 0 && table.None? && Steady() && Fields(3)
      ensures RelaxLeft() == old(RelaxLeft()) - 1
    {
      hide LitRows, TableRows, FieldSteps, Relaxing, RowsAre, SkyRows, SunRows;
      RelaxRows();
      RelaxCounters();
    }

    // ---- the spill table ---------------------------------------------------

    /** spill_table_allocate(): nothing is written, whatever the memory holds. */
    method AllocateTable() returns (t: Table)
      ensures TableRows(t, problem, 0)
    {
      hide SpillCoefficient;
      var f := junk;
      t := seq(H(), y => seq(W(), x => seq(8, n => f(x, y, n))));
    }

    method SpillStep()
      requires Shape() && stage == StageSpill && row < H() && SpillReady() && TableReady(row)
      requires row == 0 <==> table.None?
      modifies this`relaxed, this`pass, this`row, this`stage, this`table
      ensures stage == StageSpill ==> row == old(row) + 1 < H() && SpillReady() && TableReady(row) && table.Some?
      ensures stage == StageSpill || stage == StageRelax || stage == StagePublish
      ensures stage == StageRelax ==> row == 0 && pass == 0 && PassInv(0)
      ensures stage == StagePublish ==> row == 0 && table.None? && Steady() && Fields(3)
      ensures stage != StageSpill ==> (if grant then old(row) + 1 == H() else old(row) == 0)
      ensures stage != StageSpill ==>
        FieldSteps(goal, H(), 0) == if stage == StageRelax then FieldSteps(goal, H(), relaxed) else 0
    {
      hide LitRows, TableRows, FieldSteps, RowsAre, MoonRows;
      if row == 0 && grant {
        var t := AllocateTable();
        table := Some(t);
      }
      if table.None? {
        NextRelaxed(0);
        return;
      }
      var filled := FillRow(problem, table.value, row);
      table := Some(filled);
      row := row + 1;
      if row == H() {
        NextRelaxed(0);
      }
    }

    // ---- publication -------------------------------------------------------

    method PublishRow()
      requires Shape() && goal == GoalOf(problem) && row < problem.mapHeight
      requires Steady() && Fields(3) && Published(row)
      modifies values, rgb
      ensures Published(row + 1)
    {
      hide SolvedAt, RowsAre, Relaxing;
      var x := 0;
      while x < problem.mapWidth
        invariant 0 <= x <= problem.mapWidth
        invariant Steady() && Fields(3) && Published(row)
        invariant forall u :: 0 <= u < x ==> Light(values[row, u], rgb[row, u]) == SolvedAt(problem, u, row)
      {
        var light := PublishCell(x);
        values[row, x] := light.value;
        rgb[row, x] := light.rgb;
        x := x + 1;
      }
    }

    method PublishCell(x: nat) returns (light: Light)
      requires Shape() && goal == GoalOf(problem) && row < problem.mapHeight && x < problem.mapWidth
      requires Steady() && Fields(3)
      ensures light == SolvedAt(problem, x, row)
    {
      hide GoalOf, Publish, Passes;
      var gx, gy := x + PASSES, row + PASSES;
      light := Publish(problem.model, Components(direct[gy, gx], diffuse[gy, gx], apertureDirect[gy, gx],
                                                 moon[gy, gx], moonAperture[gy, gx], starlight[gy, gx]));
    }

    // ---- the step ----------------------------------------------------------

    /** What a ray stage has after writing its current row. */
    ghost predicate RayRowDone()
      reads this, Buffers()
    {
      row < H() && table.None? && match stage
        case StageSky => SkyRows(row + 1) && !litAperture
        case StageSun => SkyRows(H()) && SunRows(row + 1)
        case StageMoon => problem.model.moon != 0 && SkyRows(H()) && SunRows(H()) && MoonRows(row + 1)
        case _ => false
    }

    /** The rows of rays left, this one included. */
    ghost function RaysLeft(): int
      reads this`stage, this`row
    {
      match stage
      case StageSky => H() - row + H() + MoonSteps()
      case StageSun => H() - row + MoonSteps()
      case StageMoon => H() - row
      case _ => 0
    }

    lemma NoRows()
      requires Shape()
      ensures !litAperture ==> SunRows(0)
      ensures MoonRows(0)
    {}

    lemma AnyLit()
      requires Shape() && LitExact()
      ensures FieldSteps(goal, H(), 0) == 0 <==> !litDiffuse && !litAperture && !litStarlight
    {
      hide LitRows;
      FieldCount(goal, H(), 0);
      FieldCount(goal, H(), 1);
      FieldCount(goal, H(), 2);
    }

    lemma RaysReady()
      requires Shape() && SkyRows(H()) && SunRows(H()) && MoonRows(H())
      ensures SpillReady()
    {
      hide LitRows, Relaxing;
    }

    /** The end of a ray row. Without a moon its stage is skipped, and without a
     lit field to relax so is the table. */
    method RayCounters()
      requires Shape() && RayRowDone()
      modifies this`relaxed, this`pass, this`row, this`stage, this`table
      ensures match stage
        case StageSky => SkyInv()
        case StageSun => SunInv()
        case StageMoon => MoonInv()
        case StageSpill => SpillInv() && row == 0 && FieldSteps(goal, H(), 0) > 0
        case StagePublish => row == 0 && table.None? && Steady() && Fields(3) && FieldSteps(goal, H(), 0) == 0
        case _ => false
      ensures RaysLeft() == old(RaysLeft()) - 1
    {
      hide LitRows, FieldSteps, RowsAre, Relaxing;
      NoRows();
      row := row + 1;
      if row == H() {
        row := 0;
        stage := if stage == StageSky then StageSun else if stage == StageSun then StageMoon else StageSpill;
        if stage == StageMoon && problem.model.moon == 0 {
          stage := StageSpill;
        }
        if stage == StageSpill {
          RaysReady();
          AnyLit();
          if !litDiffuse && !litAperture && !litStarlight {
            AllUnlit();
            NextRelaxed(3);
          }
        }
      }
    }

    /** With no lit field every field is already relaxed. */
    lemma AllUnlit()
      requires Shape() && LitExact() && Fields(0) && !litDiffuse && !litAperture && !litStarlight
      ensures Fields(3)
    {
      hide LitRows, RowsAre, Relaxing;
      FieldSkipped(0);
      FieldSkipped(1);
      FieldSkipped(2);
    }

    lemma StepsAre()
      requires Valid()
      ensures stage == StageSky || stage == StageSun || stage == StageMoon ==> StepsLeft() == RaysLeft() + TailSteps()
      ensures stage == StageRelax ==> StepsLeft() == RelaxLeft() + problem.mapHeight
      ensures stage == StageDone <==> StepsLeft() <= 0
    {
      hide GoalOf, LitRows, RowsAre, SolvedAt, Relaxing, TableRows;
      if stage == StageRelax {
        FieldCount(goal, H(), relaxed);
        hide FieldSteps;
      }
    }

    method RayStep()
      requires Valid() && (stage == StageSky || stage == StageSun || stage == StageMoon)
      modifies this`relaxed, this`pass, this`row, this`stage, this`table, this`litDiffuse, this`litAperture,
        this`litStarlight, diffuse, starlight, direct, apertureDirect, moon, moonAperture
      ensures Valid() && StepsLeft() == old(StepsLeft()) - 1 && stage != StageDone
    {
      hide GoalOf, LitRows, RowsAre, SolvedAt, Relaxing, FieldSteps;
      StepsAre();
      match stage {
        case StageSky => SkyStep();
        case StageSun => SunStep();
        case StageMoon => MoonStep();
      }
      RayCounters();
      StepsAre();
    }

    method PublishStep()
      requires Valid() && stage == StagePublish
      modifies this`row, this`stage, values, rgb
      ensures Valid() && StepsLeft() == old(StepsLeft()) - 1
    {
      hide GoalOf, LitRows, RowsAre, SolvedAt, Relaxing, FieldSteps, TableRows;
      StepsAre();
      PublishRow();
      row := row + 1;
      if row == problem.mapHeight {
        stage := StageDone;
      }
    }

    /** celestial_solver_job_step() */
    method Step() returns (status: Status)
      requires Valid()
      modifies this, Buffers()
      ensures Valid() && (status == Done <==> stage == StageDone)
      ensures StepsLeft() == if old(stage) == StageDone then 0 else old(StepsLeft()) - 1
      ensures old(stage) == StageDone ==> unchanged(this, Buffers())
    {
      hide GoalOf, LitRows, RowsAre, SolvedAt, Relaxing, FieldSteps, TableRows;
      StepsAre();
      match stage {
        case StageSpill =>
          SpillStep();
        case StageRelax =>
          GoalGrids(problem);
          RelaxStep();
        case StagePublish =>
          PublishStep();
        case StageDone =>
        case _ =>
          RayStep();
      }
      status := if stage == StageDone then Done else Pending;
    }
  }

  lemma FieldCount(goal: Goal, h: nat, k: nat)
    requires k <= 3
    ensures FieldSteps(goal, h, k)
         == if k == 3 then 0
            else (if LitRows(goal.Field(k), goal.Field(k).height) then h + h + h + h else 0)
                 + FieldSteps(goal, h, k + 1)
  {}

  /** How many of the relaxed fields have a nonzero cell. */
  ghost function LitFields(goal: Goal): nat {
    (if LitRows(goal.diffuse, goal.diffuse.height) then 1 else 0)
    + (if LitRows(goal.apertureDirect, goal.apertureDirect.height) then 1 else 0)
    + (if LitRows(goal.starlight, goal.starlight.height) then 1 else 0)
  }

  /** Steps of a whole solve: the rows of the sky, the sun and a moon, the
   table or the step that finds it declined, four passes of every lit field,
   and the map's own rows. */
  ghost function SolveSteps(p: Problem, grant: bool): int {
    var h, k := p.Height(), LitFields(GoalOf(p));
    2 * h + (if p.model.moon != 0 then h else 0)
    + (if k > 0 then (if grant then h else 1) + 4 * h * k else 0)
    + p.mapHeight
  }

  lemma FieldStepsAre(goal: Goal, h: nat)
    ensures FieldSteps(goal, h, 0) == 4 * h * LitFields(goal)
  {
    hide LitRows;
    FieldCount(goal, h, 0);
    FieldCount(goal, h, 1);
    FieldCount(goal, h, 2);
    FieldCount(goal, h, 3);
    hide FieldSteps;
    var k := LitFields(goal);
    assert k == 0 || k == 1 || k == 2 || k == 3;
    assert 4 * h * 1 == h + h + h + h && 4 * h * 2 == 2 * (4 * h) && 4 * h * 3 == 3 * (4 * h);
  }

  lemma StepsToDo(job: Job)
    requires job.Valid() && job.stage == StageSky && job.row == 0
    ensures job.StepsLeft() == SolveSteps(job.problem, job.grant)
  {
    FieldStepsAre(job.goal, job.H());
    hide LitRows, LitFields, RowsAre, FieldSteps;
    var h, k := job.H(), LitFields(job.goal);
    assert k > 0 ==> 4 * h * k > 0;
  }

  /** celestial_solver_solve(): repeated steps write every map cell exactly as
   the plain trace, relax and publish would, in exactly SolveSteps steps,
   whether or not the table was granted and whatever the buffers held. */
  method Solve(l: Lattice, site: Handle, model: Model, grant: bool, junk: (int, int, int) -> nat,
               values: array2<int>, rgb: array2<Rgb>) returns (ok: bool, steps: nat)
    requires Typed(model)
    requires ValidDimensions(l, site) ==>
      values.Length0 == rgb.Length0 == l.dimensions(site).1 && values.Length1 == rgb.Length1 == l.dimensions(site).0
    modifies values, rgb
    ensures ok <==> ValidDimensions(l, site)
    ensures ok ==>
      var p := Problem(l, site, model, l.dimensions(site).0, l.dimensions(site).1);
      && steps == SolveSteps(p, grant)
      && forall x, y :: InGrid(p.mapWidth, p.mapHeight, x, y) ==> Light(values[y, x], rgb[y, x]) == SolvedAt(p, x, y)
    ensures !ok ==> unchanged(values, rgb)
  {
    steps := 0;
    var (w, h) := l.dimensions(site);
    if w < 1 || h < 1 || w > DIMENSION_MAX || h > DIMENSION_MAX {
      return false, 0;
    }
    hide SolvedAt, SolveSteps, GoalOf;
    var p := Problem(l, site, model, w, h);
    var job := new Job(p, grant, junk, values, rgb);
    StepsToDo(job);
    var status := Pending;
    while status == Pending
      invariant job.Valid() && (status == Done <==> job.stage == StageDone)
      invariant fresh(job) && fresh(job.Buffers() - {values, rgb})
      invariant steps + job.StepsLeft() == SolveSteps(p, grant)
      decreases job.StepsLeft(), status == Pending
    {
      job.StepsAre();
      status := job.Step();
      steps := steps + 1;
    }
    ok := true;
  }
}
