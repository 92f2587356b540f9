/** The cached drill-downs (a genre's artists, an artist's albums, an album's
    tracks) and the generation that keeps a fetch from outliving a drop.

    Threads read, fetch, put and drop at once; a step below is one atomic
    operation or one section of a write transaction, which are serialised. The
    library has a version that moves with every change to it; a fetch reads the
    library at some moment after its generation was loaded. */
module NavLists {
  import opened Order

  /** What a stored drill-down was fetched under, and from which library. */
  datatype Entry = Entry(generation: nat, version: nat)

  datatype Thread =
    | Seen(generation: nat)
    | Fetched(generation: nat, version: nat)
    | Writing(key: string, generation: nat, version: nat)
    | Dropping(generation: nat)

  /** `marks[g]` is the library's version when the generation became `g`;
      `dropped` the newest generation whose drop has returned. */
  datatype State = State(
    version: nat,
    marks: seq<nat>,
    table: map<string, Entry>,
    writer: Option<nat>,
    threads: map<nat, Thread>,
    dropped: nat)

  datatype Step =
    | ChangeLibrary
    | LoadGeneration(t: nat)
    | Fetch(t: nat)
    | BeginPut(t: nat, key: string)
    | CommitPut(t: nat)
    | BeginDrop(t: nat)
    | FinishDrop(t: nat)

  function Generation(s: State): nat
    requires s.marks != []
  {
    |s.marks| - 1
  }

  predicate Enabled(s: State, step: Step) {
    s.marks != [] && match step
    case ChangeLibrary => true
    case LoadGeneration(t) => t !in s.threads
    case Fetch(t) => t in s.threads && s.threads[t].Seen?
    case BeginPut(t, _) => t in s.threads && s.threads[t].Fetched? && s.writer.None?
    case CommitPut(t) => t in s.threads && s.threads[t].Writing? && s.writer == Some(t)
    case BeginDrop(t) => t !in s.threads
    case FinishDrop(t) => t in s.threads && s.threads[t].Dropping? && s.writer.None?
  }

  /** A put checks the generation inside its transaction and gives up if it has
      moved; a drop moves the generation first, then clears in a transaction. */
  function Next(s: State, step: Step): State
    requires Enabled(s, step)
  {
    match step
    case ChangeLibrary => s.(version := s.version + 1)
    case LoadGeneration(t) => s.(threads := s.threads[t := Seen(Generation(s))])
    case Fetch(t) => s.(threads := s.threads[t := Fetched(s.threads[t].generation, s.version)])
    case BeginPut(t, key) =>
      var f := s.threads[t];
      if Generation(s) != f.generation then s.(threads := s.threads - {t})
      else s.(writer := Some(t), threads := s.threads[t := Writing(key, f.generation, f.version)])
    case CommitPut(t) =>
      s.(writer := None, threads := s.threads - {t},
         table := s.table[s.threads[t].key := Entry(s.threads[t].generation, s.threads[t].version)])
    case BeginDrop(t) => s.(marks := s.marks + [s.version], threads := s.threads[t := Dropping(Generation(s) + 1)])
    case FinishDrop(t) =>
      s.(threads := s.threads - {t}, table := map[],
         dropped := if s.threads[t].generation > s.dropped then s.threads[t].generation else s.dropped)
  }

  ghost predicate ThreadInv(s: State, th: Thread)
    requires s.marks != []
  {
    match th
    case Seen(g) => g <= Generation(s)
    case Fetched(g, v) => g <= Generation(s) && s.marks[g] <= v <= s.version
    case Writing(_, g, v) => s.dropped <= g <= Generation(s) && s.marks[g] <= v <= s.version
    case Dropping(g) => g <= Generation(s)
  }

  ghost predicate Inv(s: State) {
    && s.marks != []
    && (forall i, j :: 0 <= i <= j < |s.marks| ==> s.marks[i] <= s.marks[j] <= s.version)
    && s.dropped <= Generation(s)
    && (forall k :: k in s.table ==> s.dropped <= s.table[k].generation)
    && (forall k :: k in s.table ==> s.marks[s.dropped] <= s.table[k].version <= s.version)
    && (forall t :: t in s.threads ==> ThreadInv(s, s.threads[t]) && (s.threads[t].Writing? ==> s.writer == Some(t)))
  }

  lemma DropKeepsInv(s: State, step: Step)
    requires Inv(s) && Enabled(s, step) && (step.BeginDrop? || step.FinishDrop?)
    ensures Inv(Next(s, step))
  {
  }

  lemma PutKeepsInv(s: State, step: Step)
    requires Inv(s) && Enabled(s, step) && (step.BeginPut? || step.CommitPut?)
    ensures Inv(Next(s, step))
  {
  }

  lemma FetchKeepsInv(s: State, step: Step)
    requires Inv(s) && Enabled(s, step) && (step.ChangeLibrary? || step.LoadGeneration? || step.Fetch?)
    ensures Inv(Next(s, step))
  {
  }

  /** Every step of every thread keeps the invariant. */
  lemma StepKeepsInv(s: State, step: Step)
    requires Inv(s) && Enabled(s, step)
    ensures Inv(Next(s, step))
  {
    hide Inv, Enabled, Next;
    if step.BeginDrop? || step.FinishDrop? {
      DropKeepsInv(s, step);
    } else if step.BeginPut? || step.CommitPut? {
      PutKeepsInv(s, step);
    } else {
      FetchKeepsInv(s, step);
    }
  }

  predicate EnabledRun(s: State, steps: seq<Step>)
    decreases |steps|
  {
    steps == [] || (Enabled(s, steps[0]) && EnabledRun(Next(s, steps[0]), steps[1..]))
  }

  function Run(s: State, steps: seq<Step>): State
    requires EnabledRun(s, steps)
    decreases |steps|
  {
    if steps == [] then s else Run(Next(s, steps[0]), steps[1..])
  }

  const INITIAL := State(0, [0], map[], None, map[], 0)

  lemma {:induction false} RunKeepsInv(s: State, steps: seq<Step>)
    requires Inv(s) && EnabledRun(s, steps)
    ensures Inv(Run(s, steps))
    decreases |steps|
  {
    hide Inv, Enabled, Next;
    if steps != [] {
      StepKeepsInv(s, steps[0]);
      RunKeepsInv(Next(s, steps[0]), steps[1..]);
    }
  }

  /** What a step may not do to the record of past drops. */
  ghost predicate DropsKept(s: State, t: State) {
    && |s.marks| <= |t.marks| && (forall i :: 0 <= i < |s.marks| ==> t.marks[i] == s.marks[i])
    && s.dropped <= t.dropped
  }

  lemma {:induction false} RunKeepsDrops(s: State, steps: seq<Step>)
    requires Inv(s) && EnabledRun(s, steps)
    ensures DropsKept(s, Run(s, steps))
    decreases |steps|
  {
    if steps != [] {
      var t := Next(s, steps[0]);
      StepKeepsInv(s, steps[0]);
      assert DropsKept(s, t);
      hide Inv, Enabled, Next;
      RunKeepsDrops(t, steps[1..]);
    }
  }

  lemma {:induction false} DropStaysUnderWay(s: State, steps: seq<Step>, t: nat, generation: nat)
    requires Inv(s) && EnabledRun(s, steps)
    requires t in s.threads && s.threads[t] == Dropping(generation)
    requires forall step :: step in steps ==> step != FinishDrop(t)
    ensures t in Run(s, steps).threads && Run(s, steps).threads[t] == Dropping(generation)
    decreases |steps|
  {
    if steps != [] {
      assert steps[0] in steps;
      StepKeepsInv(s, steps[0]);
      var next := Next(s, steps[0]);
      assert t in next.threads && next.threads[t] == Dropping(generation);
      assert forall step :: step in steps[1..] ==> step in steps;
      hide Inv, Enabled, Next;
      DropStaysUnderWay(next, steps[1..], t, generation);
    }
  }

  lemma {:induction false} RunInTwo(s: State, a: seq<Step>, b: seq<Step>)
    requires EnabledRun(s, a + b)
    ensures EnabledRun(s, a) && EnabledRun(Run(s, a), b) && Run(s, a + b) == Run(Run(s, a), b)
    decreases |a|
  {
    if a == [] {
      assert a + b == b;
    } else {
      assert (a + b)[0] == a[0] && (a + b)[1..] == a[1..] + b;
      hide Enabled, Next;
      RunInTwo(Next(s, a[0]), a[1..], b);
    }
  }

  /** A drop that has returned is recorded under the generation it moved to. */
  lemma DropIsRecorded(s: State, t: nat, during: seq<Step>)
    requires Inv(s) && Enabled(s, BeginDrop(t)) && EnabledRun(Next(s, BeginDrop(t)), during)
    requires forall step :: step in during ==> step != FinishDrop(t)
    requires Enabled(Run(Next(s, BeginDrop(t)), during), FinishDrop(t))
    ensures var s3 := Next(Run(Next(s, BeginDrop(t)), during), FinishDrop(t));
      Inv(s3) && Generation(s) < s3.dropped && s.version <= s3.marks[s3.dropped]
  {
    var s1 := Next(s, BeginDrop(t));
    StepKeepsInv(s, BeginDrop(t));
    DropStaysUnderWay(s1, during, t, Generation(s1));
    RunKeepsDrops(s1, during);
    RunKeepsInv(s1, during);
    StepKeepsInv(Run(s1, during), FinishDrop(t));
    assert s1.marks[Generation(s1)] == s.version;
  }

  /** Once a drop has returned, whatever ran while it did and whatever runs
      after it, no stored drill-down was fetched under a generation loaded
      before the drop began, and none holds the library as it was before. */
  lemma DropOutlivesNothing(before: seq<Step>, t: nat, during: seq<Step>, after: seq<Step>)
    requires EnabledRun(INITIAL, before + ([BeginDrop(t)] + (during + ([FinishDrop(t)] + after))))
    requires forall step :: step in during ==> step != FinishDrop(t)
    ensures EnabledRun(INITIAL, before)
    ensures var began := Run(INITIAL, before);
      var s := Run(INITIAL, before + ([BeginDrop(t)] + (during + ([FinishDrop(t)] + after))));
      began.marks != [] && forall k :: k in s.table ==>
        Generation(began) < s.table[k].generation && began.version <= s.table[k].version
  {
    var rest := during + ([FinishDrop(t)] + after);
    RunInTwo(INITIAL, before, [BeginDrop(t)] + rest);
    RunKeepsInv(INITIAL, before);
    var s0 := Run(INITIAL, before);
    assert ([BeginDrop(t)] + rest)[1..] == rest;
    assert ([FinishDrop(t)] + after)[1..] == after;
    hide Next, Enabled;
    var s1 := Next(s0, BeginDrop(t));
    RunInTwo(s1, during, [FinishDrop(t)] + after);
    DropIsRecorded(s0, t, during);
    var s3 := Next(Run(s1, during), FinishDrop(t));
    RunKeepsDrops(s3, after);
    RunKeepsInv(s3, after);
  }

  // ----------------------------------------------------- what a put comes to

  /** The step is thread `t`'s own, its fetch aside. */
  predicate Moves(step: Step, t: nat) {
    match step
    case ChangeLibrary => false
    case LoadGeneration(u) => u == t
    case Fetch(_) => false
    case BeginPut(u, _) => u == t
    case CommitPut(u) => u == t
    case BeginDrop(u) => u == t
    case FinishDrop(u) => u == t
  }

  function DropsBegun(steps: seq<Step>): nat {
    if steps == [] then 0 else (if steps[0].BeginDrop? then 1 else 0) + DropsBegun(steps[1..])
  }

  ghost predicate Loaded(s: State, t: nat, generation: nat) {
    t in s.threads && (s.threads[t].Seen? || s.threads[t].Fetched?) && s.threads[t].generation == generation
  }

  /** While others run, a thread keeps the generation it loaded and every drop
      that begins moves the cache's own. */
  lemma {:induction false} LoadedStays(s: State, steps: seq<Step>, t: nat, generation: nat)
    requires Inv(s) && EnabledRun(s, steps) && Loaded(s, t, generation)
    requires forall step :: step in steps ==> !Moves(step, t)
    ensures Loaded(Run(s, steps), t, generation)
    ensures Inv(Run(s, steps)) && Generation(Run(s, steps)) == Generation(s) + DropsBegun(steps)
    decreases |steps|
  {
    if steps != [] {
      assert steps[0] in steps;
      var next := Next(s, steps[0]);
      StepKeepsInv(s, steps[0]);
      assert Loaded(next, t, generation);
      assert Generation(next) == Generation(s) + if steps[0].BeginDrop? then 1 else 0;
      hide Inv, Enabled, Next, Moves;
      LoadedStays(next, steps[1..], t, generation);
    }
  }

  lemma {:induction false} NoneBegunIff(steps: seq<Step>)
    ensures DropsBegun(steps) == 0 <==> forall step :: step in steps ==> !step.BeginDrop?
  {
    if steps != [] {
      NoneBegunIff(steps[1..]);
      assert steps[0] in steps && forall step :: step in steps <==> step == steps[0] || step in steps[1..];
    }
  }

  /** A fetched list is written exactly when no drop has begun since its
      generation was loaded, whatever else ran. */
  lemma PutGoesAheadIff(s: State, t: nat, during: seq<Step>, key: string)
    requires Inv(s) && Enabled(s, LoadGeneration(t)) && EnabledRun(Next(s, LoadGeneration(t)), during)
    requires forall step :: step in during ==> !Moves(step, t)
    requires Enabled(Run(Next(s, LoadGeneration(t)), during), BeginPut(t, key))
    ensures var fetched := Run(Next(s, LoadGeneration(t)), during);
      var after := Next(fetched, BeginPut(t, key));
      if forall step :: step in during ==> !step.BeginDrop?
      then t in after.threads && after.threads[t] == Writing(key, fetched.threads[t].generation, fetched.threads[t].version)
           && after.writer == Some(t)
      else t !in after.threads && after.table == fetched.table && after.writer == fetched.writer
  {
    var s1 := Next(s, LoadGeneration(t));
    StepKeepsInv(s, LoadGeneration(t));
    LoadedStays(s1, during, t, Generation(s));
    NoneBegunIff(during);
  }

  /** What is written is then stored, and stays for as long as no drop finishes
      and nothing else is stored. */
  lemma StoredUntilDropped(s: State, t: nat, after: seq<Step>)
    requires Inv(s) && Enabled(s, CommitPut(t)) && EnabledRun(Next(s, CommitPut(t)), after)
    requires forall step :: step in after ==> !step.FinishDrop? && !step.CommitPut?
    ensures var w := s.threads[t];
      var table := Run(Next(s, CommitPut(t)), after).table;
      w.key in table && table[w.key] == Entry(w.generation, w.version)
  {
    TableStays(Next(s, CommitPut(t)), after);
  }

  lemma {:induction false} TableStays(s: State, steps: seq<Step>)
    requires EnabledRun(s, steps) && forall step :: step in steps ==> !step.FinishDrop? && !step.CommitPut?
    ensures Run(s, steps).table == s.table
    decreases |steps|
  {
    if steps != [] {
      assert steps[0] in steps;
      assert Next(s, steps[0]).table == s.table;
      hide Enabled, Next;
      TableStays(Next(s, steps[0]), steps[1..]);
    }
  }
}
