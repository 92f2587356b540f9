/** The kept tag rows: one full read of the host's rows, shared until the tracks
    change, patched row by row as edits land.

    A reader reads the host row by row without holding the lock on the kept
    rows, so edits and index changes run in between; it keeps what it read only
    if the generation has not moved. Every interleaving of the steps below is a
    run. Atomics are sequentially consistent and each lock's section is one step. */
module TagRows {
  import opened Order

  type Path = string
  type Rows = map<Path, seq<string>>

  /** A change to the host that the cache has not been told of yet. An edit
      re-reads its rows before it patches; an index change drops them all. */
  datatype Change = Edit(paths: set<Path>, reread: Option<Rows>) | Index(paths: set<Path>)

  datatype Reader = Reader(generation: nat, rows: Rows)

  /** `arcs` are the shared row tables allocated so far; `handed` those someone
      outside the cache still holds. */
  datatype State = State(
    host: Rows,
    arcs: seq<Rows>,
    handed: set<nat>,
    kept: Option<nat>,
    generation: nat,
    reader: Option<Reader>,
    changes: map<nat, Change>)

  datatype Step =
    | WriteHost(id: nat, rows: Rows)
    | ChangeIndex(id: nat, host: Rows)
    | Reread(id: nat)
    | Patch(id: nat)
    | SkipPatch(id: nat)
    | DropRows(id: nat)
    | BeginRead
    | ReadRow(path: Path)
    | KeepRead
    | FailRead
    | Share
    | Release(arc: nat)

  function Restrict(rows: Rows, paths: set<Path>): Rows {
    map p | p in rows && p in paths :: rows[p]
  }

  function Differing(a: Rows, b: Rows): set<Path> {
    set p | p in a.Keys + b.Keys && (p !in a || p !in b || a[p] != b[p])
  }

  predicate WellFormed(s: State) {
    (s.kept.Some? ==> s.kept.value < |s.arcs|) && forall arc :: arc in s.handed ==> arc < |s.arcs|
  }

  predicate Untouched(s: State, paths: set<Path>) {
    forall id :: id in s.changes && s.changes[id].Edit? ==> s.changes[id].paths !! paths
  }

  predicate Enabled(s: State, step: Step) {
    WellFormed(s) && match step
    case WriteHost(id, rows) => id !in s.changes && rows.Keys <= s.host.Keys
    case ChangeIndex(id, host) => id !in s.changes
    case Reread(id) => id in s.changes && s.changes[id].Edit?
    case Patch(id) => id in s.changes && s.changes[id].Edit? && s.changes[id].reread.Some?
    case SkipPatch(id) => id in s.changes && s.changes[id].Edit?
    case DropRows(id) => id in s.changes && s.changes[id].Index?
    case BeginRead => s.reader.None? && s.kept.None?
    case ReadRow(path) => s.reader.Some? && path in s.host
    case KeepRead => s.reader.Some?
    case FailRead => s.reader.Some?
    case Share => s.kept.Some?
    case Release(arc) => true
  }

  /** `all` with the rows it shares with `rows` replaced, and no row added. */
  function Patched(all: Rows, rows: Rows): Rows {
    map p | p in all :: if p in rows then rows[p] else all[p]
  }

  /** The patch under the lock: in place when nobody else holds the rows, on a
      copy when somebody does. */
  function PatchKept(s: State, rows: Rows): State
    requires s.kept.Some? ==> s.kept.value < |s.arcs|
  {
    var t := s.(generation := s.generation + 1);
    if s.kept.None? then t
    else if s.kept.value in s.handed then
      t.(arcs := s.arcs + [Patched(s.arcs[s.kept.value], rows)], kept := Some(|s.arcs|))
    else
      t.(arcs := s.arcs[s.kept.value := Patched(s.arcs[s.kept.value], rows)])
  }

  function Next(s: State, step: Step): State
    requires Enabled(s, step)
  {
    match step
    case WriteHost(id, rows) => s.(host := s.host + rows, changes := s.changes[id := Edit(rows.Keys, None)])
    case ChangeIndex(id, host) => s.(host := host, changes := s.changes[id := Index(Differing(s.host, host))])
    case Reread(id) => s.(changes := s.changes[id := s.changes[id].(reread := Some(Restrict(s.host, s.changes[id].paths)))])
    case Patch(id) => PatchKept(s.(changes := s.changes - {id}), s.changes[id].reread.value)
    case SkipPatch(id) => s.(changes := s.changes - {id})
    case DropRows(id) => s.(changes := s.changes - {id}, generation := s.generation + 1, kept := None)
    case BeginRead => s.(reader := Some(Reader(s.generation, map[])))
    case ReadRow(path) => s.(reader := Some(s.reader.value.(rows := s.reader.value.rows[path := s.host[path]])))
    case KeepRead =>
      s.(arcs := s.arcs + [s.reader.value.rows], handed := s.handed + {|s.arcs|}, reader := None,
         kept := if s.generation == s.reader.value.generation then Some(|s.arcs|) else s.kept)
    case FailRead => s.(reader := None)
    case Share => s.(handed := s.handed + {s.kept.value})
    case Release(arc) => s.(handed := s.handed - {arc})
  }

  ghost predicate InFlight(s: State, path: Path) {
    exists id :: id in s.changes && path in s.changes[id].paths
  }

  ghost predicate Current(s: State, rows: Rows) {
    forall p :: p in rows && !InFlight(s, p) ==> p in s.host && rows[p] == s.host[p]
  }

  /** Kept rows are the host's rows, except where a change is still on its way. */
  ghost predicate Coherent(s: State) {
    s.kept.Some? ==> s.kept.value < |s.arcs| && Current(s, s.arcs[s.kept.value])
  }

  ghost predicate Inv(s: State) {
    && Coherent(s)
    && WellFormed(s)
    && (s.reader.Some? ==> s.reader.value.generation <= s.generation)
    && (s.reader.Some? && s.reader.value.generation == s.generation ==> Current(s, s.reader.value.rows))
    && (forall id :: id in s.changes && s.changes[id].Edit? ==>
          s.changes[id].paths <= s.host.Keys
          && (s.changes[id].reread.Some? ==> s.changes[id].reread.value == Restrict(s.host, s.changes[id].paths)))
    && (forall id, other :: id in s.changes && other in s.changes && id != other && s.changes[id].Edit? && s.changes[other].Edit? ==>
          s.changes[id].paths !! s.changes[other].paths)
  }

  /** Rows that have the host's row of each edited track no other change is on its way to. */
  ghost predicate HasTheEdit(s: State, id: nat, rows: Rows)
    requires id in s.changes
  {
    forall p :: p in rows && p in s.changes[id].paths && !InFlight(s.(changes := s.changes - {id}), p) ==>
      p in s.host && rows[p] == s.host[p]
  }

  /** An edit can end unpatched: the kept rows have it already, and so has a read
      that could still be kept. */
  ghost predicate Harmless(s: State, id: nat)
    requires id in s.changes
  {
    && (s.kept.Some? ==> s.kept.value < |s.arcs| && HasTheEdit(s, id, s.arcs[s.kept.value]))
    && (s.reader.Some? && s.reader.value.generation == s.generation ==> HasTheEdit(s, id, s.reader.value.rows))
  }

  /** What the cache needs of its callers: nobody changes a track on the host
      while an edit of it is under way, and no patch is left out that matters. */
  ghost predicate Disciplined(s: State, step: Step) {
    match step
    case WriteHost(_, rows) => Untouched(s, rows.Keys)
    case ChangeIndex(_, host) => Untouched(s, Differing(s.host, host))
    case SkipPatch(id) => id in s.changes ==> Harmless(s, id)
    case _ => true
  }

  lemma FlightGrows(s: State, t: State, id: nat, paths: set<Path>)
    requires t.changes.Keys == s.changes.Keys + {id} && t.changes[id].paths == paths
    requires forall other :: other in s.changes && other != id ==> t.changes[other] == s.changes[other]
    requires id in s.changes ==> s.changes[id].paths == paths
    ensures forall p :: InFlight(t, p) <==> InFlight(s, p) || p in paths
  {
  }

  lemma FlightShrinks(s: State, t: State, id: nat, path: Path)
    requires id in s.changes && t.changes == s.changes - {id} && path !in s.changes[id].paths
    ensures InFlight(s, path) ==> InFlight(t, path)
  {
    if InFlight(s, path) {
      var other :| other in s.changes && path in s.changes[other].paths;
      assert other in t.changes;
    }
  }

  /** Kept rows after a patch: the edited tracks hold what the host holds. */
  lemma PatchIsCurrent(s: State, t: State, id: nat, rows: Rows)
    requires Inv(s) && id in s.changes && s.changes[id].Edit? && s.changes[id].reread.Some?
    requires Current(s, rows) && t.host == s.host && t.changes == s.changes - {id}
    ensures Current(t, Patched(rows, s.changes[id].reread.value))
  {
    forall p | p in rows && !InFlight(t, p) ensures p in s.host && Patched(rows, s.changes[id].reread.value)[p] == s.host[p] {
      if p !in s.changes[id].paths {
        FlightShrinks(s, t, id, p);
      }
    }
  }

  lemma WriteKeepsInv(s: State, id: nat, rows: Rows)
    requires Inv(s) && Enabled(s, WriteHost(id, rows)) && Disciplined(s, WriteHost(id, rows))
    ensures Inv(Next(s, WriteHost(id, rows)))
  {
    var t := Next(s, WriteHost(id, rows));
    FlightGrows(s, t, id, rows.Keys);
    hide InFlight;
    forall other | other in s.changes && s.changes[other].Edit?
      ensures s.changes[other].paths <= t.host.Keys
      ensures Restrict(t.host, s.changes[other].paths) == Restrict(s.host, s.changes[other].paths)
    {
      assert s.changes[other].paths !! rows.Keys;
    }
  }

  lemma HostStepKeepsInv(s: State, step: Step)
    requires Inv(s) && Enabled(s, step) && Disciplined(s, step)
    requires step.ChangeIndex? || step.Reread?
    ensures Inv(Next(s, step))
  {
    var t := Next(s, step);
    match step {
      case ChangeIndex(id, host) =>
        FlightGrows(s, t, id, Differing(s.host, host));
        IndexChangeSparesEdits(s, t, id, host);
        hide InFlight;
      case Reread(id) =>
        FlightGrows(s, t, id, s.changes[id].paths);
        hide InFlight;
    }
  }

  lemma RowsAfterSkip(s: State, id: nat, rows: Rows)
    requires Inv(s) && Enabled(s, SkipPatch(id)) && Current(s, rows)
    ensures Current(Next(s, SkipPatch(id)), rows) <==> HasTheEdit(s, id, rows)
  {
    var t := Next(s, SkipPatch(id));
    forall p | p in rows && p !in s.changes[id].paths && !InFlight(t, p) ensures p in s.host && rows[p] == s.host[p] {
      FlightShrinks(s, t, id, p);
    }
    hide InFlight;
  }

  /** Skipping a patch keeps the invariant exactly when it is harmless. */
  lemma SkipKeepsInvIff(s: State, id: nat)
    requires Inv(s) && Enabled(s, SkipPatch(id))
    ensures Inv(Next(s, SkipPatch(id))) <==> Harmless(s, id)
  {
    if s.kept.Some? {
      RowsAfterSkip(s, id, s.arcs[s.kept.value]);
    }
    if s.reader.Some? && s.reader.value.generation == s.generation {
      RowsAfterSkip(s, id, s.reader.value.rows);
    }
    hide Current, InFlight, HasTheEdit;
  }

  /** Every step that keeps the discipline keeps the invariant. */
  lemma StepKeepsInv(s: State, step: Step)
    requires Inv(s) && Enabled(s, step) && Disciplined(s, step)
    ensures Inv(Next(s, step))
  {
    var t := Next(s, step);
    if step.WriteHost? {
      WriteKeepsInv(s, step.id, step.rows);
    } else if step.ChangeIndex? || step.Reread? {
      HostStepKeepsInv(s, step);
    } else if step.Patch? {
      if s.kept.Some? {
        PatchIsCurrent(s, t, step.id, s.arcs[s.kept.value]);
      }
      hide InFlight, Current, Patched;
    } else if step.SkipPatch? {
      SkipKeepsInvIff(s, step.id);
    }
  }

  lemma IndexChangeSparesEdits(s: State, t: State, id: nat, host: Rows)
    requires Inv(s) && Untouched(s, Differing(s.host, host)) && t.host == host
    requires id !in s.changes && t.changes == s.changes[id := Index(Differing(s.host, host))]
    ensures forall other :: other in t.changes && t.changes[other].Edit? ==>
      t.changes[other].paths <= host.Keys
      && (t.changes[other].reread.Some? ==> t.changes[other].reread.value == Restrict(host, t.changes[other].paths))
  {
    forall other | other in t.changes && t.changes[other].Edit?
      ensures t.changes[other].paths <= host.Keys
      ensures Restrict(host, t.changes[other].paths) == Restrict(s.host, t.changes[other].paths)
    {
      assert forall p :: p in s.changes[other].paths ==> p !in Differing(s.host, host);
    }
  }

  predicate EnabledRun(s: State, steps: seq<Step>)
    decreases |steps|
  {
    steps == [] || (Enabled(s, steps[0]) && EnabledRun(Next(s, steps[0]), steps[1..]))
  }

  function Run(s: State, steps: seq<Step>): State
    requires EnabledRun(s, steps)
    decreases |steps|
  {
    if steps == [] then s else Run(Next(s, steps[0]), steps[1..])
  }

  ghost predicate DisciplinedRun(s: State, steps: seq<Step>)
    requires EnabledRun(s, steps)
    decreases |steps|
  {
    steps == [] || (Disciplined(s, steps[0]) && DisciplinedRun(Next(s, steps[0]), steps[1..]))
  }

  function Initial(host: Rows): State {
    State(host, [], {}, None, 0, None, map[])
  }

  lemma {:induction false} RunKeepsInv(s: State, steps: seq<Step>)
    requires Inv(s) && EnabledRun(s, steps) && DisciplinedRun(s, steps)
    ensures Inv(Run(s, steps))
    decreases |steps|
  {
    hide Inv, Enabled, Disciplined, Next;
    if steps != [] {
      StepKeepsInv(s, steps[0]);
      RunKeepsInv(Next(s, steps[0]), steps[1..]);
    }
  }

  /** Over any disciplined run, every kept row with no change on its way is the
      host's row; with none on its way at all, every kept row is. */
  lemma KeptRowsAreCurrent(host: Rows, steps: seq<Step>)
    requires EnabledRun(Initial(host), steps) && DisciplinedRun(Initial(host), steps)
    ensures var s := Run(Initial(host), steps);
      && Coherent(s)
      && (s.changes == map[] && s.kept.Some? ==>
            forall p :: p in s.arcs[s.kept.value] ==> p in s.host && s.arcs[s.kept.value][p] == s.host[p])
  {
    RunKeepsInv(Initial(host), steps);
  }

  /** A shared row table does not change while somebody holds it, whatever runs. */
  lemma {:induction false} HandedRowsNeverChange(s: State, steps: seq<Step>, arc: nat)
    requires WellFormed(s) && EnabledRun(s, steps) && arc in s.handed
    requires forall step :: step in steps ==> step != Release(arc)
    ensures arc < |Run(s, steps).arcs| && Run(s, steps).arcs[arc] == s.arcs[arc]
    decreases |steps|
  {
    if steps == [] {
      assert arc < |s.arcs|;
    } else {
      assert steps[0] in steps;
      HandedRowsSurvive(s, steps[0], arc);
      hide Next, Enabled, WellFormed;
      assert forall step :: step in steps[1..] ==> step in steps;
      HandedRowsNeverChange(Next(s, steps[0]), steps[1..], arc);
    }
  }

  lemma HandedRowsSurvive(s: State, step: Step, arc: nat)
    requires WellFormed(s) && Enabled(s, step) && arc in s.handed && step != Release(arc)
    ensures WellFormed(Next(s, step)) && arc in Next(s, step).handed
    ensures arc < |s.arcs| && arc < |Next(s, step).arcs| && Next(s, step).arcs[arc] == s.arcs[arc]
  {
  }

  // ------------------------------------------- what the discipline is for

  lemma KeepAtOnce(s: State)
    requires WellFormed(s) && s.reader.Some?
    ensures EnabledRun(s, [KeepRead]) && DisciplinedRun(s, [KeepRead]) && Run(s, [KeepRead]) == Next(s, KeepRead)
  {
    assert [KeepRead][1..] == [];
  }

  /** Every run that keeps the discipline from here on ends with its kept rows current. */
  ghost predicate StaysCoherent(s: State) {
    forall steps :: EnabledRun(s, steps) && DisciplinedRun(s, steps) ==> Coherent(Run(s, steps))
  }

  lemma CoherentNow(s: State)
    requires StaysCoherent(s)
    ensures Coherent(s)
  {
    assert EnabledRun(s, []) && DisciplinedRun(s, []) && Run(s, []) == s;
  }

  lemma CoherentWhenKept(s: State)
    requires StaysCoherent(s) && WellFormed(s) && s.reader.Some? && s.reader.value.generation == s.generation
    ensures Current(s, s.reader.value.rows)
  {
    KeepAtOnce(s);
    hide Run, EnabledRun, DisciplinedRun;
    var t := Next(s, KeepRead);
    assert Coherent(t);
    assert t.arcs[t.kept.value] == s.reader.value.rows;
  }

  /** Whether an edit may end without its patch shows at that moment: whatever
      disciplined steps follow, kept rows stay current exactly when those kept
      now, and those of a read that can still be kept, hold the host's row now of
      every edited track no other change is on its way to. */
  lemma SkippedPatchIsHarmlessIff(s: State, id: nat)
    requires Inv(s) && Enabled(s, SkipPatch(id))
    ensures StaysCoherent(Next(s, SkipPatch(id))) <==> Harmless(s, id)
  {
    var t := Next(s, SkipPatch(id));
    SkipKeepsInvIff(s, id);
    if Harmless(s, id) {
      forall steps | EnabledRun(t, steps) && DisciplinedRun(t, steps) ensures Coherent(Run(t, steps)) {
        RunKeepsInv(t, steps);
      }
    }
    if StaysCoherent(t) {
      CoherentNow(t);
      if t.reader.Some? && t.reader.value.generation == t.generation {
        CoherentWhenKept(t);
      }
      StaysInv(s, id);
    }
  }

  lemma StaysInv(s: State, id: nat)
    requires Inv(s) && Enabled(s, SkipPatch(id))
    requires var t := Next(s, SkipPatch(id));
      Coherent(t) && (t.reader.Some? && t.reader.value.generation == t.generation ==> Current(t, t.reader.value.rows))
    ensures Inv(Next(s, SkipPatch(id)))
  {
    hide Current, InFlight;
  }

  /** The edit path's own case: with no rows kept, only a read under way matters. */
  lemma SkippedPatchDuringRead(s: State, id: nat)
    requires Inv(s) && Enabled(s, SkipPatch(id)) && s.kept.None?
    ensures StaysCoherent(Next(s, SkipPatch(id))) <==>
      (s.reader.Some? && s.reader.value.generation == s.generation ==>
         forall p :: p in s.reader.value.rows && p in s.changes[id].paths && !InFlight(Next(s, SkipPatch(id)), p) ==>
           p in s.host && s.reader.value.rows[p] == s.host[p])
  {
    hide StaysCoherent, InFlight;
    SkippedPatchIsHarmlessIff(s, id);
  }

  lemma RunFrom(s: State, step: Step, rest: seq<Step>)
    requires Enabled(s, step) && EnabledRun(Next(s, step), rest)
    ensures EnabledRun(s, [step] + rest) && Run(s, [step] + rest) == Run(Next(s, step), rest)
  {
    assert ([step] + rest)[1..] == rest;
  }

  const OLD: seq<string> := ["old"]
  const NEW: seq<string> := ["new"]
  const NEWER: seq<string> := ["newer"]

  /** Nothing is on its way to the cache, and the row it keeps of a track is not the host's. */
  ghost predicate StaleForGood(s: State, path: Path) {
    && s.changes == map[]
    && s.kept.Some? && s.kept.value < |s.arcs| && path in s.arcs[s.kept.value]
    && (path !in s.host || s.arcs[s.kept.value][path] != s.host[path])
  }

  /** The edit path leaves the patch out when no rows are kept, even with a read
      under way: the read keeps the row from before the edit, and nothing is
      left to correct it. */
  lemma UnpatchedEditLeavesAStaleRow()
    ensures var s := Initial(map["a" := OLD]);
      var steps := [BeginRead, ReadRow("a"), WriteHost(0, map["a" := NEW]), SkipPatch(0), KeepRead];
      EnabledRun(s, steps) && StaleForGood(Run(s, steps), "a")
  {
    var s0 := Initial(map["a" := OLD]);
    var s1, s2 := RowRead(s0);
    var s3, s4, s5 := EditUnpatched(s2);
    hide Next, Enabled, StaleForGood, Initial;
    RunFrom(s4, KeepRead, []);
    RunFrom(s3, SkipPatch(0), [KeepRead]);
    RunFrom(s2, WriteHost(0, map["a" := NEW]), [SkipPatch(0), KeepRead]);
    RunFrom(s1, ReadRow("a"), [WriteHost(0, map["a" := NEW]), SkipPatch(0), KeepRead]);
    RunFrom(s0, BeginRead, [ReadRow("a"), WriteHost(0, map["a" := NEW]), SkipPatch(0), KeepRead]);
    assert [BeginRead] + [ReadRow("a"), WriteHost(0, map["a" := NEW]), SkipPatch(0), KeepRead] ==
      [BeginRead, ReadRow("a"), WriteHost(0, map["a" := NEW]), SkipPatch(0), KeepRead];
  }

  /** Two edits of one track at once, from the start: the first is re-read before
      the second lands and patches after it. */
  lemma OverlappingEditsLeaveAStaleRow()
    ensures var s := Initial(map["a" := OLD]);
      var steps := [BeginRead, ReadRow("a"), KeepRead, Release(0), WriteHost(0, map["a" := NEW]),
                    Reread(0), WriteHost(1, map["a" := NEWER]), Reread(1), Patch(1), Patch(0)];
      EnabledRun(s, steps) && StaleForGood(Run(s, steps), "a")
  {
    var s0 := Initial(map["a" := OLD]);
    var s := FirstEdit(s0);
    var late := [Reread(0), WriteHost(1, map["a" := NEWER]), Reread(1), Patch(1), Patch(0)];
    OverlapFrom(s);
    var early := [BeginRead, ReadRow("a"), KeepRead, Release(0), WriteHost(0, map["a" := NEW])];
    hide Next, Enabled, StaleForGood;
    RunInTwo(s0, early, late);
    assert early + late == [BeginRead, ReadRow("a"), KeepRead, Release(0), WriteHost(0, map["a" := NEW]),
                            Reread(0), WriteHost(1, map["a" := NEWER]), Reread(1), Patch(1), Patch(0)];
  }

  lemma RowRead(s: State) returns (s1: State, s2: State)
    requires s == Initial(map["a" := OLD])
    ensures Enabled(s, BeginRead) && s1 == Next(s, BeginRead)
    ensures Enabled(s1, ReadRow("a")) && s2 == Next(s1, ReadRow("a"))
    ensures s2 == s.(reader := Some(Reader(0, map["a" := OLD])))
  {
    s1 := Next(s, BeginRead);
    s2 := Next(s1, ReadRow("a"));
    assert s2.reader.value.rows == map["a" := OLD];
  }

  lemma EditUnpatched(s: State) returns (s1: State, s2: State, s3: State)
    requires s == Initial(map["a" := OLD]).(reader := Some(Reader(0, map["a" := OLD])))
    ensures Enabled(s, WriteHost(0, map["a" := NEW])) && s1 == Next(s, WriteHost(0, map["a" := NEW]))
    ensures Enabled(s1, SkipPatch(0)) && s2 == Next(s1, SkipPatch(0))
    ensures Enabled(s2, KeepRead) && s3 == Next(s2, KeepRead) && StaleForGood(s3, "a")
  {
    s1 := Next(s, WriteHost(0, map["a" := NEW]));
    s2 := Next(s1, SkipPatch(0));
    assert s2.changes == map[];
    s3 := Next(s2, KeepRead);
  }

  lemma {:induction false} RunInTwo(s: State, a: seq<Step>, b: seq<Step>)
    requires EnabledRun(s, a) && EnabledRun(Run(s, a), b)
    ensures EnabledRun(s, a + b) && Run(s, a + b) == Run(Run(s, a), b)
    decreases |a|
  {
    if a == [] {
      assert a + b == b;
    } else {
      assert (a + b)[0] == a[0] && (a + b)[1..] == a[1..] + b;
      hide Enabled, Next;
      RunInTwo(Next(s, a[0]), a[1..], b);
    }
  }

  /** A full read kept and let go of, then the first edit. */
  lemma FirstEdit(s0: State) returns (s: State)
    requires s0 == Initial(map["a" := OLD])
    ensures var early := [BeginRead, ReadRow("a"), KeepRead, Release(0), WriteHost(0, map["a" := NEW])];
      EnabledRun(s0, early) && s == Run(s0, early)
    ensures s.host == map["a" := NEW] && s.changes == map[0 := Edit({"a"}, None)] && s.handed == {}
    ensures s.kept == Some(0) && s.arcs == [map["a" := OLD]] && s.reader == None
  {
    var s1, s2 := RowRead(s0);
    var s3 := Next(s2, KeepRead);
    var s4 := Next(s3, Release(0));
    s := Next(s4, WriteHost(0, map["a" := NEW]));
    assert (map["a" := NEW]).Keys == {"a"};
    assert s.host == map["a" := NEW];
    hide Next, Enabled;
    RunFrom(s4, WriteHost(0, map["a" := NEW]), []);
    RunFrom(s3, Release(0), [WriteHost(0, map["a" := NEW])]);
    RunFrom(s2, KeepRead, [Release(0), WriteHost(0, map["a" := NEW])]);
    RunFrom(s1, ReadRow("a"), [KeepRead, Release(0), WriteHost(0, map["a" := NEW])]);
    RunFrom(s0, BeginRead, [ReadRow("a"), KeepRead, Release(0), WriteHost(0, map["a" := NEW])]);
    assert [BeginRead] + [ReadRow("a"), KeepRead, Release(0), WriteHost(0, map["a" := NEW])] ==
      [BeginRead, ReadRow("a"), KeepRead, Release(0), WriteHost(0, map["a" := NEW])];
  }

  lemma OverlapFrom(s: State)
    requires s.host == map["a" := NEW] && s.changes == map[0 := Edit({"a"}, None)] && s.handed == {}
    requires s.kept == Some(0) && s.arcs == [map["a" := OLD]] && s.reader == None
    ensures var steps := [Reread(0), WriteHost(1, map["a" := NEWER]), Reread(1), Patch(1), Patch(0)];
      EnabledRun(s, steps) && StaleForGood(Run(s, steps), "a")
  {
    var s1, s2, s3 := SecondEdit(s);
    PatchesInTheWrongOrder(s3);
    hide Next, Enabled, StaleForGood;
    var s4 := Next(s3, Patch(1));
    RunFrom(s4, Patch(0), []);
    RunFrom(s3, Patch(1), [Patch(0)]);
    RunFrom(s2, Reread(1), [Patch(1), Patch(0)]);
    RunFrom(s1, WriteHost(1, map["a" := NEWER]), [Reread(1), Patch(1), Patch(0)]);
    RunFrom(s, Reread(0), [WriteHost(1, map["a" := NEWER]), Reread(1), Patch(1), Patch(0)]);
    assert [Reread(0)] + [WriteHost(1, map["a" := NEWER]), Reread(1), Patch(1), Patch(0)] ==
      [Reread(0), WriteHost(1, map["a" := NEWER]), Reread(1), Patch(1), Patch(0)];
  }

  lemma SecondEdit(s: State) returns (s1: State, s2: State, s3: State)
    requires s.host == map["a" := NEW] && s.changes == map[0 := Edit({"a"}, None)] && s.handed == {}
    requires s.kept == Some(0) && s.arcs == [map["a" := OLD]]
    ensures Enabled(s, Reread(0)) && s1 == Next(s, Reread(0))
    ensures Enabled(s1, WriteHost(1, map["a" := NEWER])) && s2 == Next(s1, WriteHost(1, map["a" := NEWER]))
    ensures Enabled(s2, Reread(1)) && s3 == Next(s2, Reread(1))
    ensures s3.host == map["a" := NEWER] && s3.handed == {} && s3.kept == Some(0) && s3.arcs == [map["a" := OLD]]
    ensures s3.changes == map[0 := Edit({"a"}, Some(map["a" := NEW])), 1 := Edit({"a"}, Some(map["a" := NEWER]))]
  {
    hide Patched, Differing;
    s1 := Next(s, Reread(0));
    s2 := Next(s1, WriteHost(1, map["a" := NEWER]));
    s3 := Next(s2, Reread(1));
    assert Restrict(map["a" := NEW], {"a"}) == map["a" := NEW];
    assert s2.host == map["a" := NEWER];
    assert (map["a" := NEWER]).Keys == {"a"};
    assert Restrict(map["a" := NEWER], {"a"}) == map["a" := NEWER];
  }

  lemma PatchesInTheWrongOrder(s: State)
    requires s.host == map["a" := NEWER] && s.handed == {} && s.kept == Some(0) && s.arcs == [map["a" := OLD]]
    requires s.changes == map[0 := Edit({"a"}, Some(map["a" := NEW])), 1 := Edit({"a"}, Some(map["a" := NEWER]))]
    ensures Enabled(s, Patch(1)) && Enabled(Next(s, Patch(1)), Patch(0))
    ensures StaleForGood(Next(Next(s, Patch(1)), Patch(0)), "a")
  {
    var t := Next(s, Patch(1));
    assert Patched(map["a" := OLD], map["a" := NEWER]) == map["a" := NEWER];
    assert t.changes == map[0 := Edit({"a"}, Some(map["a" := NEW]))];
    assert t.arcs == [map["a" := NEWER]];
    assert Patched(map["a" := NEWER], map["a" := NEW]) == map["a" := NEW];
    assert Next(t, Patch(0)).changes == map[];
  }

  // ---------------------------------------------------- what is kept, and when

  /** How often the steps move the generation. */
  function Moves(steps: seq<Step>): nat {
    if steps == [] then 0 else (if steps[0].Patch? || steps[0].DropRows? then 1 else 0) + Moves(steps[1..])
  }

  lemma {:induction false} NoMovesIff(steps: seq<Step>)
    ensures Moves(steps) == 0 <==> forall step :: step in steps ==> !step.Patch? && !step.DropRows?
  {
    if steps != [] {
      NoMovesIff(steps[1..]);
      assert steps[0] in steps && forall step :: step in steps <==> step == steps[0] || step in steps[1..];
    }
  }

  /** A read under way stays of its generation, and nothing is kept before it is. */
  lemma {:induction false} ReadGoesOn(s: State, steps: seq<Step>)
    requires EnabledRun(s, steps) && s.reader.Some? && s.kept.None?
    requires forall step :: step in steps ==> !step.KeepRead? && !step.FailRead?
    ensures var t := Run(s, steps);
      && t.reader.Some? && t.reader.value.generation == s.reader.value.generation
      && t.kept.None? && t.generation == s.generation + Moves(steps)
    decreases |steps|
  {
    if steps != [] {
      assert steps[0] in steps;
      var next := Next(s, steps[0]);
      assert next.reader.Some? && next.reader.value.generation == s.reader.value.generation && next.kept.None?;
      assert next.generation == s.generation + if steps[0].Patch? || steps[0].DropRows? then 1 else 0;
      hide Enabled, Next;
      ReadGoesOn(next, steps[1..]);
    }
  }

  /** A read is kept, with the rows it has, exactly when nothing was patched or
      dropped while it went on; its reader has them either way. */
  lemma ReadIsKeptIff(s: State, during: seq<Step>)
    requires Enabled(s, BeginRead) && EnabledRun(Next(s, BeginRead), during)
    requires forall step :: step in during ==> !step.KeepRead? && !step.FailRead?
    requires Enabled(Run(Next(s, BeginRead), during), KeepRead)
    ensures var read := Run(Next(s, BeginRead), during);
      var t := Next(read, KeepRead);
      && (t.kept.Some? <==> forall step :: step in during ==> !step.Patch? && !step.DropRows?)
      && (t.kept.Some? ==> t.kept.value < |t.arcs| && t.arcs[t.kept.value] == read.reader.value.rows)
      && |read.arcs| in t.handed && t.arcs == read.arcs + [read.reader.value.rows]
  {
    ReadGoesOn(Next(s, BeginRead), during);
    NoMovesIff(during);
  }

  function Reads(paths: seq<Path>): seq<Step> {
    seq(|paths|, i requires 0 <= i < |paths| => ReadRow(paths[i]))
  }

  /** Reading these paths one after another, with nothing in between, reads the host's rows of them. */
  lemma {:induction false} QuietReadReads(s: State, paths: seq<Path>)
    requires WellFormed(s) && s.reader.Some? && forall i :: 0 <= i < |paths| ==> paths[i] in s.host
    ensures EnabledRun(s, Reads(paths))
    ensures Run(s, Reads(paths)) ==
      s.(reader := Some(Reader(s.reader.value.generation, s.reader.value.rows + Restrict(s.host, Elements(paths)))))
    decreases |paths|
  {
    if paths == [] {
      assert s.reader.value.rows + Restrict(s.host, Elements(paths)) == s.reader.value.rows;
    } else {
      var next := Next(s, ReadRow(paths[0]));
      assert Reads(paths)[1..] == Reads(paths[1..]) && Reads(paths)[0] == ReadRow(paths[0]);
      OneMoreRow(s.reader.value.rows, s.host, paths);
      hide Restrict, Elements;
      QuietReadReads(next, paths[1..]);
    }
  }

  lemma OneMoreRow(rows: Rows, host: Rows, paths: seq<Path>)
    requires paths != [] && paths[0] in host
    ensures rows[paths[0] := host[paths[0]]] + Restrict(host, Elements(paths[1..])) == rows + Restrict(host, Elements(paths))
  {
  }

  /** A full read nothing comes between keeps exactly the host's rows. */
  lemma QuietReadKeepsTheHost(s: State, paths: seq<Path>)
    requires Enabled(s, BeginRead) && Elements(paths) == s.host.Keys
    ensures var read := Next(s, BeginRead);
      EnabledRun(read, Reads(paths)) && Enabled(Run(read, Reads(paths)), KeepRead)
      && var t := Next(Run(read, Reads(paths)), KeepRead);
         t.kept.Some? && t.kept.value < |t.arcs| && t.arcs[t.kept.value] == s.host
  {
    var read := Next(s, BeginRead);
    forall i | 0 <= i < |paths| ensures paths[i] in s.host {
      assert paths[i] in Elements(paths);
    }
    QuietReadReads(read, paths);
    assert map[] + Restrict(s.host, s.host.Keys) == s.host;
  }

  /** A patch replaces the edited rows the table has by those read back, keeps
      the rest, and adds none. */
  lemma PatchReplacesTheEdited(s: State, id: nat)
    requires Enabled(s, Patch(id)) && s.kept.Some?
    ensures var t := Next(s, Patch(id));
      var (was, rows) := (s.arcs[s.kept.value], s.changes[id].reread.value);
      && t.kept.Some? && t.kept.value < |t.arcs| && t.arcs[t.kept.value].Keys == was.Keys
      && forall p :: p in was ==> t.arcs[t.kept.value][p] == if p in rows then rows[p] else was[p]
  {
  }
}
