# Verified model of the shared celestial lighting engine and its companions

Atrinik's server and client both run the deterministic lighting engine of
`libatrinik`, and have to compute the same light bit for bit. This project
models that engine in Dafny and proves what the engine is for: that the
resumable, shortcut-taking job computes exactly what a plain
"trace, relax four times, publish" would; that nothing beyond the halo can
change a published cell; that a light closure sent over the wire is the light
closure received; that every published value stays in range without one
saturation; and that open ground shows the whole light of its hour. Five smaller pieces of the library are modelled beside it: the
four-tape list sort, unbiased random ranges, the crash-safe publication
sequence, the puddle allocator and the shared string table.

## How the model is laid out

| files | what they model |
|---|---|
| `Arithmetic`, `FixedPoint`, `Relaxation`, `Orbit`, `Daylight` | `celestial_model.c`: rounding, scaling, transmission, the relaxation pass, an hour's sources, publishing |
| `CelestialProtocol` | `celestial_model.c`: the codec that carries an hour's inputs |
| `Lattice`, `Traversal`, `TraversalOrder`, `Ties`, `SquareRoot`, `Rays`, `Azimuths` | `celestial_solver.c`: the lattice callbacks, the exact grid cursor with ties, the bounded ray and the way it walks |
| `Solver`, `SolverRows`, `Job`, `EndToEnd`, `Seams`, `SpillFaces`, `OpenSky` | `celestial_solver.c`: the plain solve, the rows of the stages, the stepped job, the bound over model and solver, walking a segment both ways, the faces of spill, and the solve of open ground |
| `Packet` | `packet.c`: the bounded writer and reader with sticky errors |
| `ClosureCodec`, `ClosureRoundTrip`, `ClosurePackets`, `ClosureReading`, `ClosureIndex`, `ClosureBuild`, `ClosureDecode`, `ClosureLattice`, `ClosureCells`, `ClosureSolve`, `ClosureSpill`, `ClosureJob` | `celestial_closure.c`: the run-length codec, its two parsers, the index, the build, the lattice on the index and the cells it reads, and solving a fragment on it |
| `WireFormat` | `packet.c` with `celestial_model.c` and `celestial_closure.c`: the places of both payloads' fields |
| `RaySlopes`, `ClosureRays`, `OpenClosure`, `OrbitRays` | `celestial_closure.c` with `celestial_solver.c` and `celestial_model.c`: how the rays of a solve end, and which slopes fill a ray's event bound |
| `MergeSort`, `LinkedSort`, `RandomRange` | `math.c`: the sort as functions and on linked records, the random ranges |
| `PublishSequence` | `metaserver_publisher_sequence.c` |
| `Puddles`, `Sweep`, `Reclaim`, `Mempool`, `MemoryPool` | `mempool.c` |
| `StringBuckets`, `SharedStrings` | `shstr.c` |

Code that changes things step by step is a class or a method with loops
(`Cursor`, `Ray`, `Job`, `ClosureJob`, `Writer`, `Reader`, `Closure`, `Disk`,
`Shelf`, `Pool`, `Table`, the linked `Record` and `Entry`), proved against a function
or a predicate on values; what the engine promises is then proved about that
function over all inputs, all runs or all reachable states.

What the environment decides is a parameter or a nondeterministic value: the
lattice's callbacks are pure functions (a lattice answers the same question
the same way during a solve), whether the spill table's memory is granted is a
boolean, memory that C leaves uninitialised has arbitrary contents, the place
where `calloc` puts storage is an argument that is only required to be unused,
random draws are a sequence, and each file operation meets an arbitrary fault.

## What was found

* `sort_linked_list` keeps its end marker only for lists of at least two
  records. The comment above it promises the end marker for the empty list;
  the code returns, or leaves behind, `NULL` there and for a single record.
  `LinkedSort.SortLinkedList` states exactly when the marker survives: with two
  records or more, or when the marker is `NULL`, which is how `mempool.c` calls it.
* `mempool_free_puddles` counts `expand_size >> exponent` chunks in a puddle,
  while `mempool_expand` allocates at least one. When the shift gives zero every
  puddle looks unused and is freed, chunks in use included, and the free counts
  are left behind. `MemoryPool.Shelf.FreeUnused` states both ways when the
  allocator's invariant and its chunks in use survive a reclamation,
  `MemoryPool.Pool.Reclaim` the same of a whole pool, and `Mempool.KeptNone` that
  otherwise no puddle is kept.
* `add_refcount` and `add_string` increment a count whose top bit marks heads.
  The reference after 2^63 - 1 of a text runs into that bit or wraps to zero;
  `SharedStrings.Table.AddRefcount` states that the table survives exactly below.
* `query_refcount` narrows a `long` count to `int`: it is the count exactly while
  the count is below 2^31.
* The comment in `lattice_sky` has it that taking a fully open top for the sky lets
  rays of the lowest depth fit their 45 events. It does where the top is fully
  open; under one that is not, a ray that takes 32 cells sideways and 13 levels up
  one at a time can meet the bound, and may have only sky before it.
  `OpenClosure.BoundMetExactly` and `SkyLostExactly` give the slopes,
  `EastLosesSky` one of them, and `OrbitRays.NoSolveRayLost` shows that the
  orbit has none: no light the engine computes with is lost so.
* In `closure_payload_framed` and `celestial_closure_decode` the two later count
  checks, the second cell total and every check of the second parse are
  redundant: after the framing check only the fragment limit, the window, an
  overlap or a contradicted sky exit can still reject a payload.

## Model

| member | source | states |
|---|---|---|
| `FixedPoint.Round` | libatrinik/celestial_model.c:45-50 | The result is the nearest integer to the quotient, ties upwards, for every numerator and denominator; `RoundUnique` shows there is only one such integer. |
| `FixedPoint.RoundUnique` | libatrinik/celestial_model.c:45-50 | An integer that meets the nearest-integer bounds is the rounding's result. |
| `FixedPoint.ScaleBounded` | libatrinik/celestial_model.c:52-61 | A scale of at most one never increases a value and never saturates. |
| `FixedPoint.TransmitMonotone` | libatrinik/celestial_model.c:63-66 | Through one crossing a brighter value never becomes darker than a dimmer one. |
| `FixedPoint.CarryMonotone` | libatrinik/celestial_model.c:259-278 | Through any crossings, rounded at each, a brighter source never gives a darker receiver. |
| `FixedPoint.CarryJoins` | libatrinik/celestial_model.c:259-278 | Crossings nearer the receiver carry what those nearer the source leave: the light is rounded from the source inwards. |
| `FixedPoint.CarryOne` | libatrinik/celestial_model.c:63-66 | A single crossing leaves the light times its share of 256, to the nearest integer. |
| `FixedPoint.RayValue` | libatrinik/celestial_model.c:259-278 | The loop from the source side computes the light of the crossings, and its aperture share is all of it when any crossing is an aperture and none otherwise. |
| `Relaxation.RelaxCellIsMax` | libatrinik/celestial_model.c:280-309 | A relaxed cell is exactly the maximum of its own light and what each neighbour inside the grid offers. |
| `Relaxation.PointSource` | libatrinik/celestial_model.c:280-309 | A single lit cell gives each neighbour the light that comes through the seam from it to the neighbour, then 192 or over a corner 181 of 256, rounded at both; itself all of its light; other cells nothing. |
| `Relaxation.Diagonal` | libatrinik/celestial_model.c:303-303 | The two falloffs are three quarters and the largest 256th below the square root of a half. |
| `Relaxation.RelaxRow` | libatrinik/celestial_model.c:280-309 | The in-place row loop writes exactly the relaxed row into the other grid and nothing else. |
| `Relaxation.RelaxAll` | libatrinik/celestial_model.c:332-335 | A pass's rows together are exactly one pass over the grid. |
| `Relaxation.Relax` | libatrinik/celestial_model.c:311-348 | The exchanging grids leave exactly four passes in the caller's grid, skipping an unlit one changes nothing, and a grid is refused exactly when it has no cell, when its bytes are more than a size can count, or when it is lit and its scratch grid is not granted. |
| `Relaxation.PassesWithin` | libatrinik/celestial_model.c:280-309 | After any number of passes no cell exceeds the brightest source and none is negative. |
| `Relaxation.PassesGrow` | libatrinik/celestial_model.c:280-309 | No cell ever loses light to a pass. |
| `Relaxation.UnlitStays` | libatrinik/celestial_solver.c:614-627 | An unlit grid relaxes to itself whatever the coefficients, so skipping it equals computing it. |
| `Relaxation.HaloSufficient` | libatrinik/celestial_model.c:280-309 | If a grid lies in a larger one with the same values and the same coefficients between its cells, then after k passes the two agree on every cell at least k inside. |
| `Relaxation.SpillInside` | libatrinik/celestial_solver.c:536-545 | A relaxation depends on no coefficient but those between cells of the grid. |
| `Orbit.EvaluateBounded` | libatrinik/celestial_model.c:214-257 | Every valid hour of every valid profile gives sources, colours and directions in the ranges the solver relies on; the rows of `Daylight` state which. |
| `Orbit.SolarBounded` | libatrinik/celestial_model.c:214-257 | Whatever the lunar inputs are the sun's part keeps to its ranges, and lunar inputs out of theirs leave neither moon nor stars. |
| `Orbit.DaylightRises` | libatrinik/celestial_model.c:214-257 | Within a season, whatever the lunar inputs are, a higher sun never gives less direct or diffuse light; overhead it gives all of it, below the horizon no direct light, and below twilight none. |
| `Orbit.LunarBounded` | libatrinik/celestial_model.c:128-179 | Phase, illumination, hour, azimuth, elevation, strength and starlight of every valid lunar input are in range. |
| `Orbit.MoonTrailsSun` | libatrinik/celestial_model.c:128-179 | The moon trails the sun by an hour for every twenty-fourth of its period: a new moon stands at the sun unlit, a full moon opposite it fully lit. |
| `Daylight.OrbitTurns` | libatrinik/celestial_model.c:25-28 | From every hour to the next the orbit turns by the same angle, to within what rounding the table may cost. |
| `Daylight.OrbitHalfTurn` | libatrinik/celestial_model.c:25-28 | Twelve hours later the orbit stands as far below the horizon as it stood above; it climbs from midnight to noon, crossing the horizon at six. |
| `Daylight.OrbitCircles` | libatrinik/celestial_model.c:30-39 | The azimuth goes clockwise, through the east in the morning, and its eight parts are parts of the height: south from the height of ten, east and west within an hour of the horizon. |
| `Daylight.SeasonLowers` | libatrinik/celestial_model.c:41-43 | The season lowers the sun by nothing in midsummer and a quarter in midwinter, symmetrically about both. |
| `Daylight.SunStands` | libatrinik/celestial_model.c:73-83 | The sun's height is the orbit's times the season's factor to the nearest integer, and twilight ends where it stands an hour before sunrise. |
| `Daylight.DayShines` | libatrinik/celestial_model.c:220-231 | By day direct and diffuse light are the sun's height's share of 960 and of 64 to 320, to the nearest integer. |
| `Daylight.HoursOfDay` | libatrinik/celestial_model.c:214-231 | In every season direct light lasts from seven to seventeen, half light stands at six and eighteen, twilight at five and nineteen, and stars are seen in the other nine hours; the sun stands where the orbit is. |
| `Daylight.DayFollowsSun` | libatrinik/celestial_model.c:233-243 | Brightness and every colour channel are the night's until the sun rises, the day's where it stands overhead, and between them in proportion to its height, to the nearest integer. |
| `Daylight.DayComesNearer` | libatrinik/celestial_model.c:233-243 | As the sun rises brightness and every colour channel only ever move towards the day's. |
| `Daylight.MoonStands` | libatrinik/celestial_model.c:128-179 | The moon stands where the orbit is at the hour it trails the sun to, in its own colour; it shines only off its new phase and above the horizon, and full and overhead with all its strength. |
| `Daylight.MoonRises` | libatrinik/celestial_model.c:150-169 | A moon no nearer its new phase and no lower gives no less light. |
| `Daylight.MoonPhases` | libatrinik/celestial_model.c:148-154 | Each phase is an eighth of the period, and what is lit grows by equal parts to the full moon and shrinks as it grew. |
| `Traversal.FirstCrossing` | libatrinik/celestial_solver.c:102-184 | The axis loop finds exactly the set of axes whose next crossing time is the earliest, compared without division. |
| `Traversal.CursorsInRange` | libatrinik/celestial_solver.c:50-184 | From every direction and segment, on every lattice, every position, endpoint and cell to resolve stays within the coordinate limit and the event limit together, and the products that compare crossing times stay below 2^31. |
| `Traversal.EventFits` | libatrinik/celestial_solver.c:102-184 | The cells and faces of every tie fit an event's seven cells and twelve faces. |
| `Ties.FacesAreEdges` | libatrinik/celestial_solver.c:102-184 | The faces of an event are exactly the edges of the box it crosses, each from the cell behind to the cell one step along its normal. |
| `Ties.CellsAreCorners` | libatrinik/celestial_solver.c:102-184 | Its cells are exactly those of the box's corners but the one it comes from, its destination the far corner's, and it is valid exactly when all of them resolve. |
| `Traversal.Cursor.TouchCells` | libatrinik/celestial_solver.c:102-184 | The mask loop resolves exactly the cells a tie touches, and says whether all of them resolved. |
| `Traversal.Cursor.CrossFaces` | libatrinik/celestial_solver.c:102-184 | The nested mask and axis loops list exactly the faces of a tie, in the same order. |
| `Traversal.Cursor.Next` | libatrinik/celestial_solver.c:102-184 | The mutating cursor step returns the event and reaches the state that the traversal function gives. |
| `TraversalOrder.NoOvershoot` | libatrinik/celestial_solver.c:102-184 | No axis is crossed past its displacement while another is pending. |
| `TraversalOrder.DrainExact` | libatrinik/celestial_solver.c:102-184 | A travelling cursor's remaining events are exactly those of the remaining crossing counts, in order. |
| `TraversalOrder.SegmentExact` | libatrinik/celestial_solver.c:78-184 | For every displacement in range, wherever the lattice resolves the box it spans, the segment ends exactly on its endpoint, each event crosses exactly the earliest axes, the event limit is never hit, and only the last event is terminal. |
| `TraversalOrder.BackStep` | libatrinik/celestial_solver.c:102-184 | The event before any point of a segment, walked backwards, crosses the same axes. |
| `TraversalOrder.SegmentReversed` | libatrinik/celestial_solver.c:78-184 | The reversed segment has as many events and crosses the same axis sets in reverse order. |
| `SquareRoot.Sqrt` | libatrinik/celestial_solver.c:186-201 | The digit loop, though its sums would wrap at 2^64, returns the exact floor square root of every 64-bit value. |
| `Rays.RayDirection` | libatrinik/celestial_solver.c:216-237 | The direction computed with the integer square root is that of the azimuth and elevation, whose ways round the compass the four rows below state. |
| `Azimuths.EastWalksEast` | libatrinik/celestial_solver.c:203-237 | A ray towards a source in the east walks to greater x, by the root of what its elevation leaves of the unit. |
| `Azimuths.QuarterTurn` | libatrinik/celestial_solver.c:203-237 | A quarter turn of any azimuth clockwise turns its ray from (x, y) to (-y, x). |
| `Azimuths.HalfTurn` | libatrinik/celestial_solver.c:203-237 | Opposite azimuths give opposite rays. |
| `Azimuths.Between` | libatrinik/celestial_solver.c:203-237 | Each diagonal goes the way of both its neighbours, along either by the root of half of what is left. |
| `Rays.DirectionSound` | libatrinik/celestial_solver.c:216-237 | Every compass direction and elevation 1 to 32768 gives a nonzero direction no longer than the unit and inside the cursor's bound. |
| `Rays.StepSound` | libatrinik/celestial_solver.c:239-315 | Every step of every ray keeps its counts and coefficients in bounds, so the array-full guard never cuts a crossing off. |
| `Rays.StepsBounded` | libatrinik/celestial_solver.c:239-315 | A ray that is not done has at most one step more left than events. |
| `Rays.RayBounded` | libatrinik/celestial_solver.c:216-321 | Every ray ends within 46 steps with at most 45 crossings of coefficients 1 to 256; its value is between darkness and the source, and the aperture share is all of it or nothing. |
| `Rays.Ray.constructor` | libatrinik/celestial_solver.c:216-237 | A ray starts at its cell or, below the horizon or unresolved, ended; its arrays may hold anything. |
| `Rays.LeavesAnyOf` | libatrinik/celestial_solver.c:239-315 | The first face loop finds exactly whether some upward face leaves for the sky. |
| `Rays.CrossWeakest` | libatrinik/celestial_solver.c:273-304 | A crossing's coefficient is the least of the faces that transmit, whole where none does, and it is an aperture exactly when one of them is; no other crossing is. |
| `Rays.StepRecords` | libatrinik/celestial_solver.c:239-315 | A step records, exactly where the ray goes through its event and light comes back that way, the weakest light that leaves the cell ahead for the one behind, and whether it has reached the sky; anything else ends the ray. |
| `Rays.CrossAll` | libatrinik/celestial_solver.c:239-315 | The second face loop stops exactly at a face that blocks the ray, and otherwise finds the weakest crossing. |
| `Rays.Ray.Step` | libatrinik/celestial_solver.c:239-315 | The mutating ray step, with its face loops, reaches the state the step function gives. |
| `Solver.ReachesMeansWalk` | libatrinik/celestial_solver.c:357-393 | The halo cell is reached exactly when the whole walk's events are passable and it ends. |
| `Solver.HaloIsWalked` | libatrinik/celestial_solver.c:357-393 | A scratch cell is the map's own cell of its place; beyond the map's edge it is there exactly when the walk from the nearest map cell is passable to its end. |
| `Solver.WalkToHalo` | libatrinik/celestial_solver.c:357-393 | The cursor loop succeeds exactly when the whole segment is passable and ends. |
| `Solver.FindHaloCell` | libatrinik/celestial_solver.c:357-393 | The cursor loop resolves exactly the halo cell of every scratch coordinate, or none. |
| `Solver.ComputeSpill` | libatrinik/celestial_solver.c:419-449 | The face loops compute exactly the spill coefficient between any two neighbouring cells, which the rows below state in terms of the faces between them. |
| `SpillFaces.SpillIsLeast` | libatrinik/celestial_solver.c:419-449 | What spills into a cell from a neighbour comes through the face from there to here or, over a corner, through all four of the two by two cells: the least light of those faces if every one joins usable cells, and nothing otherwise. |
| `SpillFaces.LeastUnique` | libatrinik/celestial_solver.c:444-448 | That least light is one number. |
| `ClosureSpill.ClosureSpills` | libatrinik/celestial_closure.c:411-512 | On a closure those are the faces from the map's neighbouring cell to the map's own, wherever the halo cell's map counts from. |
| `ClosureSpill.SpillsBothWays` | libatrinik/celestial_closure.c:491-512 | Between two cells of a solve the faces light spills through join their cells one way exactly when they do the other way. |
| `Solver.FieldsTraced` | libatrinik/celestial_solver.c:549-700 | Both fields of the sun come from the ray towards the sun, both of the moon from the ray towards the moon, diffuse light and starlight from straight up, each with its own strength. |
| `SolverRows.TraceCell` | libatrinik/celestial_solver.c:395-405 | A scratch cell's ray, stepped until it is done, ends as the plain backtrace of that cell does. |
| `SolverRows.SkyRow` | libatrinik/celestial_solver.c:680-700 | One sky row writes both sky fields' rows from a single ray a cell, and says exactly whether each has light. |
| `SolverRows.TransportRow` | libatrinik/celestial_solver.c:549-566 | One sun or moon row writes exactly the light and aperture rows of the plain solve. |
| `SolverRows.NoMoon` | libatrinik/celestial_solver.c:694-699 | A solve without a moon has all-zero moon grids, so clearing rows equals tracing them. |
| `SolverRows.FillCell` | libatrinik/celestial_solver.c:505-521 | A cell's slots answer for every neighbour inside the grid, whatever they held. |
| `SolverRows.FillRow` | libatrinik/celestial_solver.c:505-521 | Filling a row writes every entry that a relaxation will ask for, whatever the memory held. |
| `SolverRows.TableSpill` | libatrinik/celestial_solver.c:536-545 | A filled table and the lattice itself relax every cell alike. |
| `Jobs.Job.constructor` | libatrinik/celestial_solver.c:629-673 | A created job satisfies the job invariant at its first stage, with arbitrary buffer contents. |
| `Jobs.Job.Step` | libatrinik/celestial_solver.c:675-773 | Every step from every reachable state keeps the invariant and brings the end one step nearer; a job that is done stays done and its outputs stay what they are. |
| `Jobs.Job.RayCounters` | libatrinik/celestial_solver.c:758-772 | After a row of rays the job is in the stage that follows: past the moon without one, past the table and the relaxation without a lit field. |
| `Jobs.Job.SpillStep` | libatrinik/celestial_solver.c:712-725 | A step of the table's stage fills a row, or finds the table declined and goes on without it. |
| `Jobs.Job.NextRelaxed` | libatrinik/celestial_solver.c:614-627 | The next lit field, or the publication, with every skipped field already what relaxing it would give. |
| `Jobs.Job.RelaxRows` | libatrinik/celestial_solver.c:726-739 | One row of a pass is written to the grid that is not being read. |
| `Jobs.Job.RelaxCounters` | libatrinik/celestial_solver.c:614-738 | After a row of a pass the grids exchange, or the field is complete and the next lit one begins, with the invariant of that state. |
| `Jobs.Job.PublishRow` | libatrinik/celestial_solver.c:740-755 | A row of outputs is written exactly as the plain solve publishes it, and earlier rows stay. |
| `Jobs.StepsToDo` | libatrinik/celestial_solver.c:675-773 | A new job takes two rows of rays a scratch row, a third under a moon, the table's rows or its declined step, four passes a lit field, and the map's rows: exactly that many steps. |
| `Jobs.Solve` | libatrinik/celestial_solver.c:790-803 | Repeated steps write every map cell exactly as the plain trace, relax and publish would, in exactly that many steps, whether or not the table is granted and whatever the buffers held. |
| `EndToEnd.PublishBounded` | libatrinik/celestial_model.c:355-377 | Bounded sources publish bounded light, with no saturation. |
| `EndToEnd.SolveBounded` | libatrinik/celestial_model.c:214-377 | For every valid hour and every lattice each published scalar is in 0..9002, each channel between 0 and the scalar, and no arithmetic saturates. |
| `EndToEnd.PublishedIgnoresBeyond` | libatrinik/celestial_solver.c:740-752 | A published cell is the same when any larger grid that agrees on the scratch grid is relaxed instead: nothing beyond the halo matters. |
| `OpenSky.OpenLight` | libatrinik/celestial_solver.c:216-315 | In open air a source that is up, and steep enough to leave a ray's reach upwards, gives every cell all of its light and none through an opening. |
| `OpenSky.OpenSkySolved` | libatrinik/celestial_solver.c:675-773 | There every cell of a map is published with all the light of each source that is up. |
| `OpenSky.OpenSkyHour` | libatrinik/celestial_model.c:214-377 | And at every hour of every valid profile with the whole light of the hour: no source of any hour is too low for that. |
| `Packets.Writer.Ensure` | libatrinik/packet.c:275-316 | There is room exactly when the packet is not in error and its limit allows it; contents never change, and the overflow error is never raised. |
| `Packets.Writer.WriteUint8` | libatrinik/packet.c:357-371 | One byte is appended, or nothing and a sticky error. |
| `Packets.Writer.WriteUint16` | libatrinik/packet.c:383-392 | Two big-endian bytes are appended, or nothing and a sticky error. |
| `Packets.Writer.WriteUint32` | libatrinik/packet.c:405-422 | Four big-endian bytes are appended, or nothing and a sticky error. |
| `Packets.Writer.WriteUint64` | libatrinik/packet.c:437-456 | Eight big-endian bytes are appended or none, with a sticky error. |
| `Packets.Writer.Rollback` | libatrinik/packet.c:253-265 | The contents up to the mark are restored. |
| `Packets.Reader.Take` | libatrinik/packet.c:736-757 | The next bytes are returned and consumed, or nothing is and the first error sticks. |
| `Packets.Reader.ReadUint8` | libatrinik/packet.c:852-855 | The next byte is returned, or zero once reading has failed. |
| `Packets.Reader.ReadUint16` | libatrinik/packet.c:864-867 | The next two bytes are returned as a word, or zero once reading has failed. |
| `Packets.Reader.ReadUint32` | libatrinik/packet.c:876-881 | The next four bytes are returned as a word, or zero once reading has failed. |
| `Packets.Reader.ReadUint64` | libatrinik/packet.c:890-896 | The next eight bytes are returned as a word, or zero once reading has failed. |
| `Packets.Reader.Finish` | libatrinik/packet.c:708-714 | Reading was complete exactly when there was no error and no byte is left. |
| `Packets.Words32` | libatrinik/packet.c:405-415 | A 32-bit word read back from its bytes is that word. |
| `Packets.BytesOfWord64` | libatrinik/packet.c:890-896 | Eight bytes read as a word are the bytes written for that word. |
| `WireFormat.BigEndian` | libatrinik/packet.c:383-456 | Written integers are numbers in base 256 with the most significant byte first. |
| `WireFormat.ReadBigEndian` | libatrinik/packet.c:864-896 | And are read as such numbers. |
| `CelestialProtocol.SlotDetermined` | libatrinik/celestial_model.c:436-450 | A slot's 43 bytes determine it: profile and both hours. |
| `CelestialProtocol.Write` | libatrinik/celestial_model.c:409-457 | The whole payload is appended exactly for an hour's start, at most 255 valid slots in increasing order and a packet with the room and no error; otherwise nothing is. |
| `CelestialProtocol.Read` | libatrinik/celestial_model.c:472-525 | What is accepted is the payload of a valid message and gives that message; what is refused is the payload of none. |
| `CelestialProtocol.OneMessage` | libatrinik/celestial_model.c:409-525 | No two messages share a payload. |
| `CelestialProtocol.WriteThenRead` | libatrinik/celestial_model.c:409-525 | Written to an empty packet and read back, every valid message comes out as it went in, and no other is written. |
| `WireFormat.CelestialLayout` | libatrinik/celestial_model.c:409-457 | A payload has generation, start and number of slots in its first 13 bytes, then 43 for every slot: number, day, night, moon, stars, period and both hours, each field at its own place. |
| `ClosureCodec.RunEqual` | libatrinik/celestial_closure.c:145-157 | A scanned run's cells are all equal to its first. |
| `ClosureCodec.FragmentsAgree` | libatrinik/celestial_closure.c:216-346 | From any point of a payload the framing check accepts exactly what the second parse accepts with every depth in range, both stop at the same byte, and each fragment takes at least eleven bytes and one cell. |
| `ClosureCodec.ParsersAgree` | libatrinik/celestial_closure.c:216-346 | A payload is framed exactly when the second parse consumes all of it with depths in range; of the count checks in between only the fragment limit can fail. |
| `ClosureRoundTrip.RunsRoundTrip` | libatrinik/celestial_closure.c:167-207 | The runs written for any cells parse back to those cells, whatever follows. |
| `ClosureRoundTrip.FragmentsRoundTrip` | libatrinik/celestial_closure.c:167-207 | Any valid fragments written parse back to themselves, leaving exactly what follows. |
| `ClosureRoundTrip.PayloadRoundTrip` | libatrinik/celestial_closure.c:167-346 | A whole payload is framed and gives back its generation and fragments. |
| `ClosureRoundTrip.SizeIsLength` | libatrinik/celestial_closure.c:159-165 | The size computed without encoding is the encoding's length. |
| `WireFormat.ClosureLayout` | libatrinik/celestial_closure.c:167-207 | A payload has its generation and number of fragments in its first six bytes, then every fragment right after the ones before it: depth, position, size and slot in six bytes, then its runs. |
| `WireFormat.RunLayout` | libatrinik/celestial_closure.c:189-198 | A run is five bytes, a length and a value: as many cells as are alike, at most 255, and the others' runs follow. |
| `ClosurePackets.FragmentRuns` | libatrinik/celestial_closure.c:145-157 | The loop counts exactly the runs the encoding has. |
| `ClosurePackets.Size` | libatrinik/celestial_closure.c:159-165 | The computed size is the exact length of what is written. |
| `ClosurePackets.Write` | libatrinik/celestial_closure.c:167-207 | The whole encoding is appended, or nothing is: exactly when the packet is in error or it does not fit. |
| `ClosureReading.FrameRuns` | libatrinik/celestial_closure.c:240-251 | The run loop skips exactly the runs of a fragment's cells, or fails where they are malformed. |
| `ClosureReading.PayloadFramed` | libatrinik/celestial_closure.c:216-254 | The allocation-free loop decides exactly whether a payload is framed, for all bytes and windows. |
| `ClosureReading.ReadRuns` | libatrinik/celestial_closure.c:325-334 | The run loop through the reader fills the cell array exactly as the run parser gives it, or fails where that fails. |
| `ClosureReading.ReadFragment` | libatrinik/celestial_closure.c:307-335 | One fragment is read exactly as it parses; a truncated header reads as zeros and is rejected. |
| `ClosureReading.ReadFragments` | libatrinik/celestial_closure.c:301-335 | The fragment loop returns exactly the parsed fragments and leaves exactly the rest. |
| `ClosureIndex.Pigeonhole` | libatrinik/celestial_closure.c:301-319 | Distinct numbers below a bound are no more than the bound. |
| `ClosureIndex.DisjointTotal` | libatrinik/celestial_closure.c:301-319 | Fragments that share no cell never claim more cells than the window has over all depths, so the decoder's total never rejects one. |
| `ClosureIndex.Lookup` | libatrinik/celestial_closure.c:353-368 | For every integer depth and coordinates one index lookup gives what a linear scan of the fragments gives; `EntryIsCell` states which entry that is. |
| `ClosureIndex.Closure.Value` | libatrinik/celestial_closure.c:353-368 | A built closure answers every cell as the linear scan of its fragments does; which entry that is, `EntryIsCell` states. |
| `ClosureIndex.CellOfEntry` | libatrinik/celestial_closure.c:366-367 | A fragment's j-th value belongs to its column j mod width and row j / width. |
| `ClosureIndex.EntryIsCell` | libatrinik/celestial_closure.c:353-368 | And is what the closure has at that cell of the window, at the fragment's depth. |
| `ClosureIndex.ScanFinds` | libatrinik/celestial_closure.c:353-368 | Among fragments sharing no cell the linear scan finds the one that covers a cell, wherever it stands. |
| `ClosureBuild.FragmentsAreValid` | libatrinik/celestial_closure.c:77-86 | The loop before any allocation decides exactly whether every fragment lies in the window with valid cells. |
| `ClosureBuild.MarkFragment` | libatrinik/celestial_closure.c:93-106 | Marking one fragment fails only when two fragments share a cell; else it indexes all its cells and shows it apart from the earlier ones. |
| `ClosureBuild.MarkAll` | libatrinik/celestial_closure.c:93-106 | The index loop succeeds exactly when no two fragments share a cell of a depth, and then the index is complete. |
| `ClosureBuild.SkyIsClear` | libatrinik/celestial_closure.c:107-124 | The last loop decides exactly whether a sky exit is contradicted by a cell above it. |
| `ClosureBuild.Build` | libatrinik/celestial_closure.c:63-134 | A closure is built exactly when window, count, fragments, disjointness and sky exits allow it. |
| `ClosureDecode.ParseFramed` | libatrinik/celestial_closure.c:278-336 | After the framing check the whole second parse can only be turned away by the fragment limit. |
| `ClosureDecode.Decode` | libatrinik/celestial_closure.c:256-346 | A payload decodes exactly when it is framed, within the limits, disjoint and its sky exits are clear, and to exactly what it says. |
| `ClosureDecode.EncodedDecodes` | libatrinik/celestial_closure.c:167-346 | Every closure that fits a packet decodes to its own generation and fragments. |
| `ClosureDecode.WriteThenDecode` | libatrinik/celestial_closure.c:167-346 | Writing any closure to an empty packet and decoding that packet rebuilds it, exactly when its size fits. |
| `ClosureLattice.ResolvedPlace` | libatrinik/celestial_closure.c:411-445 | A point resolves exactly when its depth is in range, to a cell that names that same place. |
| `ClosureLattice.PathIndependent` | libatrinik/celestial_closure.c:411-445 | Resolving on from any resolved cell's handle and local coordinates gives the cell that resolving the summed offset from the original handle gives, and fails where that fails. |
| `ClosureLattice.OneName` | libatrinik/celestial_closure.c:411-445 | Two points resolve to the same handle and local coordinates exactly when they are the same place. |
| `ClosureLattice.RaysResolve` | libatrinik/celestial_closure.c:370-374 | From any of the closure's depths everything a ray can climb to resolves: the open air reaches past the last event. |
| `ClosureLattice.ResolvedValue` | libatrinik/celestial_closure.c:402-445 | A resolved cell carries the closure's own value of its place, an outside record counting as none. |
| `ClosureLattice.ContinuousReversed` | libatrinik/celestial_closure.c:491-512 | A face is continuous whichever way light crosses it. |
| `ClosureLattice.VerticalReversed` | libatrinik/celestial_closure.c:531-570 | A vertical face transmits the same both ways, apertures included. |
| `ClosureLattice.Light` | libatrinik/celestial_closure.c:531-570 | Every face of every closure transmits one of the four class coefficients, so at most 256; the rows below state which. |
| `ClosureCells.WallRead` | libatrinik/celestial_closure.c:516-529 | The lattice reads each wall of a cell, its class and whether it is an opening, from the bits of its own face and no others. |
| `ClosureCells.JoinRead` | libatrinik/celestial_closure.c:482-489 | The continuity bit of a direction is the one for the neighbour on that side. |
| `ClosureCells.WordValid` | libatrinik/celestial_closure.c:43-55 | A cell's value is valid exactly when a sky exit lies under an open cover and goes on into nothing above. |
| `ClosureCells.ValueIsWord` | libatrinik/celestial_closure.c:43-55 | Every valid value is that of such a cell, air or an outside record. |
| `ClosureCells.OneWallOnly` | libatrinik/celestial_closure.c:516-529 | Another wall to one side changes nothing that is read of the other sides, of the neighbours or of what is above. |
| `ClosureCells.SkyWhere` | libatrinik/celestial_closure.c:459-479 | An upward face leaves for the sky exactly out of a cell that claims it, out of the closure's top where that is fully open, and out of air into air. |
| `ClosureCells.BetweenPlaces` | libatrinik/celestial_closure.c:491-570 | Between two neighbouring places of every built closure light goes through the wall named for the place it goes to, or through the floor between them under an open cover; they join exactly where both go on into each other in one profile. |
| `ClosureLattice.SkyExitSkipsNothing` | libatrinik/celestial_closure.c:108-124 | In every built closure the cell above one with a sky exit resolves to open air or an outside record: no cell is skipped. |
| `ClosureLattice.OpenTopTransmits` | libatrinik/celestial_closure.c:459-479 | Where the top is taken for sky, crossing it would have transmitted fully and through no aperture. |
| `Seams.EventBack` | libatrinik/celestial_solver.c:102-184 | A tie met on the way back touches, cell for cell, what the tie at that place touched on the way there. |
| `Seams.ReachesBack` | libatrinik/celestial_solver.c:357-393 | On every lattice whose faces are seams and whose cells do not depend on where they are resolved from, a segment is passable forwards exactly when it is backwards. |
| `ClosureSolve.ClosureSeamless` | libatrinik/celestial_closure.c:491-512 | Every built closure's faces are such seams, whatever its cells' bits. |
| `ClosureSolve.ClosureSameWay` | libatrinik/celestial_closure.c:411-445 | From a cell a closure resolved, the way back meets exactly the cells of the way there. |
| `ClosureSolve.HaloBothWays` | libatrinik/celestial_closure.c:491-512 | Malformed, one-sided continuity bits never let light pass one way only: a halo cell is reached from the map exactly when the map is reached from it. |
| `RaySlopes.NextAxes` | libatrinik/celestial_solver.c:116-135 | After given crossings sideways and upwards, the slope alone decides what a ray of the compass crosses next. |
| `RaySlopes.SkimsOn` | libatrinik/celestial_solver.c:116-135 | A slope that skims comes to 32 crossings sideways and 13 upwards one at a time, never leaving that box early. |
| `ClosureRays.EventsResolve` | libatrinik/celestial_closure.c:370-374 | At every step of every ray from any closure depth, halo cells in open air included, all cells the next event touches resolve. |
| `ClosureRays.BoundMet` | libatrinik/celestial_closure.c:466-470 | A ray meets its event bound only from the lowest depth, after 32 events sideways and 13 upwards that never fall together, and out of the top through a cell that claims no sky and is not fully open. |
| `ClosureRays.PastBound` | libatrinik/celestial_solver.c:112-115 | What the bound cuts off is the sky, one crossing away and within reach, exactly where the slope goes up next; elsewhere it is a crossing out of reach anyway. |
| `OpenClosure.BoundMetExactly` | libatrinik/celestial_closure.c:466-470 | For every azimuth and elevation: some ray of some built closure meets the bound exactly when the slope skims. |
| `OpenClosure.SkyLostExactly` | libatrinik/celestial_closure.c:466-470 | And some ray loses the sky to the bound exactly when the slope skims and then goes up next. |
| `OpenClosure.EastLosesSky` | libatrinik/celestial_closure.c:466-470 | A light in the east at elevation 12689 is such an input: from the bottom of an open closure its ray ends with only sky above it. |
| `OrbitRays.OrbitNeverSkims` | libatrinik/celestial_model.c:214-257 | No hour, season or age gives the sun or the moon a slope that skims, and the zenith does not. |
| `OrbitRays.NoRayLost` | libatrinik/celestial_closure.c:466-470 | Towards every source of every hour, from every depth of every built closure, no ray meets the bound: it ends in the sky or where its reach, a wall between resolved cells or an opaque crossing holds it up. |
| `OrbitRays.NoSolveRayLost` | libatrinik/celestial_solver.c:239-315 | So it is with every ray a solve on a closure sends from its map and its halo. |
| `ClosureJobs.ClosureJob.constructor` | libatrinik/celestial_closure.c:610-634 | A job over any fragment of a built closure begins with its solver's job and a known number of steps to go. |
| `ClosureJobs.ClosureJob.Step` | libatrinik/celestial_closure.c:636-660 | Every step keeps the job's invariant and brings its end one step nearer; a job that is done changes no output. |
| `ClosureJobs.SolveFragment` | libatrinik/celestial_closure.c:610-683 | A fragment's closure cells show the plain solve on the closure's lattice and its other cells nothing, after the solver's steps and one more for every row but the first. |
| `ClosureJobs.FragmentCellIs` | libatrinik/celestial_closure.c:636-660 | The fragment cell that decides whether an output is cleared is what the closure has there. |
| `ClosureLattice.ResolveCell` | libatrinik/celestial_closure.c:411-445 | Resolving by the built index gives the cell the linear definition gives. |
| `MergeSort.MergeSorted` | libatrinik/math.c:407-441 | Merging two sorted blocks gives a sorted block, for every total preorder. |
| `MergeSort.PassAlternates` | libatrinik/math.c:396-442 | A pass over two tapes whose sorted blocks alternate leaves two such tapes with blocks twice as long, only the globally last one short, and loses no record. |
| `MergeSort.RoundsSort` | libatrinik/math.c:390-443 | Passes until the second tape is empty end, with everything on the first tape, sorted. |
| `MergeSort.SortSorts` | libatrinik/math.c:359-454 | For every list and every total preorder the result is a sorted permutation of the list. |
| `LinkedSort.Pick` | libatrinik/math.c:411-427 | The next record comes from the second tape exactly when the first has none left in its block or its record belongs after. |
| `LinkedSort.Choose` | libatrinik/math.c:429-440 | The record moves from the front of its tape to the end of the output tape, and no other link that matters changes. |
| `LinkedSort.MergeBlock` | libatrinik/math.c:405-441 | The relinking loop moves exactly the merge of the two tapes' first blocks to the end of the output tape. |
| `LinkedSort.PassTapes` | libatrinik/math.c:396-442 | One round of relinking leaves on the output tapes exactly what a pass gives. |
| `LinkedSort.Distribute` | libatrinik/math.c:376-388 | Dealing the list leaves the records alternately, reversed, on the first two tapes. |
| `LinkedSort.MergeTapes` | libatrinik/math.c:390-443 | The rounds end with the sorted list on the first tape, and its last record known when there are two or more. |
| `LinkedSort.SortLinkedList` | libatrinik/math.c:359-454 | The list is relinked in place into its sorted permutation and counted, and keeps its end marker exactly when it has two records or the marker is NULL. |
| `LinkedSort.EmptyList` | libatrinik/math.c:356-357 | Sorting an empty list with an end marker returns NULL, not the marker. |
| `LinkedSort.SingleRecord` | libatrinik/math.c:445-447 | Sorting a single record replaces its end marker by NULL. |
| `RandomRange.ThresholdIsRemainder` | libatrinik/math.c:145-146 | The rejection threshold is 2^64 mod span, so the accepted draws divide evenly. |
| `RandomRange.HitsCounted` | libatrinik/math.c:148-153 | Any whole number of spans holds each residue that many times. |
| `RandomRange.Unbiased` | libatrinik/math.c:137-154 | For every range each result is given by exactly floor(2^64 / span) of the accepted draws. |
| `RandomRange.InRange` | libatrinik/math.c:137-154 | Exactly the results of the range are ever given. |
| `RandomRange.ResultsInTurn` | libatrinik/math.c:153-153 | Consecutive draws give consecutive results, the least again after the greatest. |
| `RandomRange.ChanceFair` | libatrinik/math.c:166-183 | Of the accepted draws exactly one in n is a hit. |
| `RandomRange.Stream.Accept` | libatrinik/math.c:148-150 | The rejection loop consumes exactly the rejected draws and the first accepted one. |
| `RandomRange.Stream.Range` | libatrinik/math.c:137-154 | The result comes from the first accepted draw, and every draw up to it is consumed. |
| `RandomRange.Stream.Chance` | libatrinik/math.c:166-183 | The first accepted draw decides, and n = 0 draws nothing. |
| `PublishSequence.ReadSlots` | libatrinik/metaserver_publisher_sequence.c:22-59 | What is read is what both files hold, or an error. |
| `PublishSequence.Clear` | libatrinik/metaserver_publisher_sequence.c:75-86 | Making room for a number removes the lower of two and never the highest. |
| `PublishSequence.Publish` | libatrinik/metaserver_publisher_sequence.c:88-101 | A number counts as published exactly when its file is there, even if creating it reported failure. |
| `PublishSequence.Persist` | libatrinik/metaserver_publisher_sequence.c:62-108 | Whatever fails and wherever the process dies, the high-water mark stays or becomes the desired one and the files never hold equal numbers; without faults it succeeds and leaves one file. |
| `PublishSequence.ReserveNext` | libatrinik/metaserver_publisher_sequence.c:110-136 | A reserved number exceeds the old mark, is at least the minimum and is the new mark; without faults a number is reserved unless all are used up. |
| `PublishSequence.RecoverTo` | libatrinik/metaserver_publisher_sequence.c:139-159 | A recovery raises the mark to just below the next number wanted, or fails leaving it there or where it was. |
| `PublishSequence.NoFurther` | libatrinik/metaserver_publisher_sequence.c:110-159 | A reserved number is the least above the mark and not below the minimum, and a recovery moves the mark no further than it has to. |
| `PublishSequence.NeverDecreases` | libatrinik/metaserver_publisher_sequence.c:62-159 | Over every run of calls, failures and deaths the high-water mark never decreases. |
| `PublishSequence.ReservedIncrease` | libatrinik/metaserver_publisher_sequence.c:110-136 | Over every run the reserved numbers strictly increase and none is below its minimum. |
| `PublishSequence.RecoveredBound` | libatrinik/metaserver_publisher_sequence.c:139-159 | After a recovery every later reserved number is at least the one asked for. |
| `PublishSequence.BurnedNumbers` | libatrinik/metaserver_publisher_sequence.c:93-101 | A number a failed or dying call may have published is never reserved again. |
| `PublishSequence.Perform` | libatrinik/metaserver_publisher_sequence.c:110-159 | Any calls against any files and any faults make such a run. |
| `Puddles.ScanPuddle` | libatrinik/mempool.c:154-175 | The scan links exactly a puddle's free chunks into a local list and counts them. |
| `Sweep.SweepPuddles` | libatrinik/mempool.c:149-195 | Exactly the puddles whose scan finds every chunk free are freed, each noted in the epoch first, and the others keep their chunks and a list of their free ones. |
| `Sweep.SweepOne` | libatrinik/mempool.c:150-195 | One puddle is freed and noted, or kept with its free chunks listed; the others are untouched. |
| `Reclaim.RelinkOne` | libatrinik/mempool.c:208-219 | One puddle's free chunks are joined to the end of the free list. |
| `Reclaim.Relink` | libatrinik/mempool.c:204-219 | The new free list is exactly the kept puddles' free chunks, puddle by puddle in sorted order. |
| `Mempool.UnusedExactly` | libatrinik/mempool.c:177-178 | A puddle counts as unused exactly when no chunk of it is in use. |
| `Mempool.KeptNone` | libatrinik/mempool.c:146-178 | When the expand size is too small for the exponent no puddle is kept, in use or not. |
| `Mempool.TooSmall` | libatrinik/mempool.c:146-178 | A pool with one chunk in use and an expand size too small keeps no puddle. |
| `Mempool.FreePuddles` | libatrinik/mempool.c:132-223 | A reclamation keeps everything in use, frees exactly the unused puddles and puts every other free chunk on the list, sorted by puddle; or, with the expand size too small, frees everything. |
| `Mempool.LinkPuddle` | libatrinik/mempool.c:494-507 | The loop links the new chunks in order up to the end marker and touches no other chunk. |
| `Mempool.Expanded` | libatrinik/mempool.c:469-515 | A new puddle's chunks become the free list and change nothing that exists. |
| `MemoryPool.Shelf.Expand` | libatrinik/mempool.c:469-515 | Expanding an empty free list adds one puddle and leaves everything in use as it is. |
| `MemoryPool.Shelf.Get` | libatrinik/mempool.c:517-551 | The chunk was not in use and now is, and nothing else changed use. |
| `MemoryPool.Shelf.Return` | libatrinik/mempool.c:553-588 | Exactly chunks in use are accepted; the chunk becomes the first free one, or its storage goes when bypassing. |
| `MemoryPool.Shelf.FreeUnused` | libatrinik/mempool.c:132-223 | The invariant survives exactly when the expand size serves the exponent or it has no puddle, and everything in use exactly when it does or nothing is in use. |
| `MemoryPool.Pool.constructor` | libatrinik/mempool.c:225-261 | A new pool holds no storage and satisfies the invariant. |
| `MemoryPool.Pool.GetChunk` | libatrinik/mempool.c:517-551 | The chunk given was in use in no exponent of the pool, and no storage went. |
| `MemoryPool.Pool.ReturnChunk` | libatrinik/mempool.c:553-588 | Storage goes, and the epoch advances, exactly when bypassing. |
| `MemoryPool.Pool.Reclaim` | libatrinik/mempool.c:590-598 | The epoch advances once for every puddle freed and storage only shrinks; where freeing is allowed the pool stays sound exactly when the expand size serves every exponent with puddles, and an exponent's chunks in use stay exactly when it serves that exponent or none is in use. |
| `MemoryPool.ReclaimInUse` | libatrinik/mempool.c:146-195 | A pool that expands by one reaches the failure: a chunk of the first array size, handed out and never returned, has lost its storage after one reclamation. |
| `MemoryPool.Run` | libatrinik/mempool.c:517-610 | Any gets, returns and reclaims in any order make a history; an epoch that is current again at the end means all earlier storage is still there; and the pool is sound to the end if it may not free or expands by at least 128. |
| `MemoryPool.CurrentMeansKept` | libatrinik/mempool.c:606-610 | In every history a snapshot that is still current means no storage there was at the snapshot has been freed since. |
| `MemoryPool.SaturatedNeverCurrent` | libatrinik/mempool.c:120-124 | Once the epoch has saturated no snapshot is ever current. |
| `StringBuckets.Search` | libatrinik/shstr.c:211-248 | A bucket's list is searched completely: the entry found has the text, and otherwise no entry has it. |
| `StringBuckets.Append` | libatrinik/shstr.c:161-171 | A new entry is linked after the last, both ways. |
| `StringBuckets.DropHead` | libatrinik/shstr.c:257-268 | Freeing a head makes the next entry the head, top bit, back link and all. |
| `StringBuckets.DropInner` | libatrinik/shstr.c:269-277 | Freeing an inner entry relinks its neighbours both ways. |
| `SharedStrings.HashString` | libatrinik/shstr.c:72-92 | The loop computes the hash of the text's first characters, within the table. |
| `SharedStrings.HashFolds` | libatrinik/shstr.c:72-92 | The hash is the exclusive or of the first twenty characters, each two bits above the one before; no text makes the rotation start again. |
| `SharedStrings.MixedPrefix` | libatrinik/shstr.c:72-92 | Only the first twenty characters of a text decide its bucket. |
| `SharedStrings.Table.EntryRefs` | libatrinik/shstr.c:122-281 | In every reachable table an entry's count is its text's outstanding references, and positive. |
| `SharedStrings.Table.OneEntryPerText` | libatrinik/shstr.c:122-196 | Equal texts have one and the same entry. |
| `SharedStrings.Table.Links` | libatrinik/shstr.c:250-281 | Exactly the heads carry the top bit and link to their slot; every other entry links back to the one before it. |
| `SharedStrings.Table.FindString` | libatrinik/shstr.c:211-248 | A text is found exactly while references to it are outstanding, and as its one entry. |
| `SharedStrings.Table.AddString` | libatrinik/shstr.c:122-196 | The text's references grow by one and no other's change, exactly as long as there are fewer than 2^63 - 1; an entry is made only when there was none. |
| `SharedStrings.Table.AddRefcount` | libatrinik/shstr.c:198-204 | The entry's text gains a reference and no other text does, exactly as long as it has fewer than 2^63 - 1; one more breaks the table. |
| `SharedStrings.Table.Remove` | libatrinik/shstr.c:255-279 | The entry leaves its bucket, and its slot if it was the head; no other text's references change. |
| `SharedStrings.Table.FreeString` | libatrinik/shstr.c:250-281 | The text's references shrink by one and no other's change; the entry goes exactly with the last. |
| `SharedStrings.Table.QueryRefcount` | libatrinik/shstr.c:206-209 | The answer is the count narrowed to an int. |
| `SharedStrings.AsIntExact` | libatrinik/shstr.c:206-209 | The narrowed count is the count exactly below 2^31, and negative at 2^31. |

## Left out

- Allocation failures other than a declined spill table or scratch grid, and `NULL` arguments: they only add refusing branches.
- The lattice's `observe` hook as a call with side effects: it is a pure predicate here, consulted where the code consults it.
- Grids are arrays of rows and columns, and the closure index one of depths, rows and columns, instead of one flat array each; the arithmetic of flat indices is modelled for fragment values only.
- A face with a cell outside its own map, which no resolving gives: the closure's callbacks answer it arbitrarily here.
- `celestial_lunar_phase_name` and the projection of profile colours: tables and plain scaling.
- Packet strings, views, scopes, floats, compression and sensitive storage; the integer writers and readers that neither codec uses.
- The four tapes of the sort are the pair being read and the pair being written, not one array addressed by exclusive or.
- The generator behind the random draws and its seeding; a stream is finite here, so the rejection loops may run out of draws, which they report.
- Chunk addresses are counted in chunks, not bytes; constructors, destructors, validators, leak reports and statistics of the pools; `pool_puddle`, the pool that holds the puddles themselves. The puddle list is a sequence, its linked sort being modelled in `LinkedSort`.
- Reordering of disk writes, and other processes writing the sequence files: a death loses nothing that was done before it.
- A plain `char` is signed when the string hash widens it; where it is unsigned a text with bytes above 127 belongs in another bucket.
- The sort's block size doubles without bound, where an `unsigned long` would wrap for lists of more than 2^63 records.
- Files, sockets, threads, logging, signals, consoles, paths and everything built on OpenSSL, zlib, libidn2 and curl.
- `map_protocol_inspect`, the ellipse tests, `isqrt`, `rng_real` and the colour space: floating point or not part of the engine.
