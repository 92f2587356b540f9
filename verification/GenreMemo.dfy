/** The kept genre rows: derived once from the cached tags, dropped by whatever
    changes the tags when that returns.

    Readers and writers interleave. A reader holds the memo's lock from looking
    at it to filling it, but asks the store several separate questions in
    between; a writer commits without the lock, and takes it only to drop the
    memo as it returns. A step below is one atomic operation; write
    transactions are serialised. */
module GenreMemo {
  import opened Order
  import opened CachedTags

  datatype Db = Db(validated: bool, index: seq<string>, tags: map<string, Tags>)

  predicate Untagged(db: Db) {
    exists i :: 0 <= i < |db.index| && db.index[i] !in db.tags
  }

  /** The index is not empty and lies within the tag table. */
  predicate Complete(db: Db) {
    db.validated && db.index != [] && !Untagged(db)
  }

  /** Every indexed track has its tags, and there is one. */
  ghost predicate EachIsTagged(db: Db) {
    db.validated && db.index != [] && forall p :: p in db.index ==> p in db.tags
  }

  function TableRows(db: Db): seq<BrowseRow> {
    RowsOf(InPathOrder(db.tags))
  }

  /** How far the reader that holds the lock has come. */
  datatype Reader =
    | Locked
    | SawValidated
    | Counting
    | SawTracks
    | Scanning
    | SawComplete
    | Reading
    | Read(memo: Memo)

  /** Rows, and the committed state they were read from. */
  datatype Memo = Memo(rows: seq<BrowseRow>, at: nat)

  /** `history` is every state committed so far; `writers` maps a writer that has
      committed and not returned to its last commit; `returned` is the newest
      commit whose writer has returned. */
  datatype State = State(
    history: seq<Db>,
    writers: map<nat, nat>,
    returned: nat,
    memo: Option<Memo>,
    reader: Option<Reader>)

  datatype Step =
    | Commit(id: nat, db: Db)
    | Return(id: nat)
    | Lock
    | Advance

  function Newest(s: State): nat
    requires s.history != []
  {
    |s.history| - 1
  }

  function Now(s: State): Db
    requires s.history != []
  {
    s.history[Newest(s)]
  }

  predicate Enabled(s: State, step: Step) {
    s.history != [] && match step
    case Commit(_, _) => true
    case Return(id) => id in s.writers && s.reader.None?
    case Lock => s.reader.None?
    case Advance => s.reader.Some?
  }

  /** What the reader learns from one look at the store; None is giving up. */
  function Look(r: Reader, db: Db, at: nat): Option<Reader>
    requires !r.Read?
  {
    match r
    case Locked => if db.validated then Some(SawValidated) else None
    case SawValidated => if db.validated then Some(Counting) else None
    case Counting => if db.index != [] then Some(SawTracks) else None
    case SawTracks => if db.validated then Some(Scanning) else Some(SawComplete)
    case Scanning => if Untagged(db) then None else Some(SawComplete)
    case SawComplete => if db.validated then Some(Reading) else Some(Read(Memo([], at)))
    case Reading => Some(Read(Memo(TableRows(db), at)))
  }

  function Next(s: State, step: Step): State
    requires Enabled(s, step)
  {
    match step
    case Commit(id, db) => s.(history := s.history + [db], writers := s.writers[id := |s.history|])
    case Return(id) =>
      s.(writers := s.writers - {id}, memo := None, returned := if s.writers[id] > s.returned then s.writers[id] else s.returned)
    case Lock => if s.memo.Some? then s else s.(reader := Some(Locked))
    case Advance =>
      if s.reader.value.Read? then s.(reader := None, memo := Some(s.reader.value.memo))
      else s.(reader := Look(s.reader.value, Now(s), Newest(s)))
  }

  /** What the step answers a reader with: the memo it found or the rows it kept. */
  function Answer(s: State, step: Step): Option<Memo> {
    if step.Lock? then s.memo
    else if step.Advance? && s.reader.Some? && s.reader.value.Read? then Some(s.reader.value.memo)
    else None
  }

  /** Rows read from a committed state no older than any write that has returned. */
  ghost predicate Fresh(s: State, m: Memo) {
    && s.returned <= m.at < |s.history|
    && (m.rows == TableRows(s.history[m.at]) || (m.rows == [] && !s.history[m.at].validated))
  }

  /** Rows of the newest state, in which every track has its tags. */
  ghost predicate Exact(s: State, m: Memo)
    requires s.history != []
  {
    m.at == Newest(s) && m.rows == TableRows(Now(s)) && Complete(Now(s))
  }

  /** What the reader has learned, as long as nothing was committed meanwhile. */
  ghost predicate Learned(s: State, r: Reader)
    requires s.history != []
  {
    match r
    case Locked => true
    case SawValidated => Now(s).validated
    case Counting => Now(s).validated
    case SawTracks => Now(s).validated && Now(s).index != []
    case Scanning => Now(s).validated && Now(s).index != []
    case SawComplete => Complete(Now(s))
    case Reading => Complete(Now(s))
    case Read(m) => Exact(s, m)
  }

  ghost predicate Inv(s: State) {
    && s.history != []
    && s.returned < |s.history|
    && (s.memo.None? || s.reader.None?)
    && (forall id :: id in s.writers ==> s.writers[id] < |s.history|)
    && (s.memo.Some? ==> Fresh(s, s.memo.value))
    && (s.reader.Some? && s.reader.value.Read? ==> Fresh(s, s.reader.value.memo))
    && (s.memo.Some? && s.writers == map[] ==> Exact(s, s.memo.value))
    && (s.reader.Some? && s.writers == map[] ==> Learned(s, s.reader.value))
  }

  lemma StepKeepsInv(s: State, step: Step)
    requires Inv(s) && Enabled(s, step)
    ensures Inv(Next(s, step))
  {
    hide TableRows, Untagged;
    if step.Commit? {
      assert step.id in Next(s, step).writers;
    }
  }

  const INITIAL := State([Db(false, [], map[])], map[], 0, None, None)

  predicate EnabledRun(s: State, steps: seq<Step>)
    decreases |steps|
  {
    steps == [] || (Enabled(s, steps[0]) && EnabledRun(Next(s, steps[0]), steps[1..]))
  }

  function Run(s: State, steps: seq<Step>): State
    requires EnabledRun(s, steps)
    decreases |steps|
  {
    if steps == [] then s else Run(Next(s, steps[0]), steps[1..])
  }

  lemma {:induction false} RunKeepsInv(s: State, steps: seq<Step>)
    requires Inv(s) && EnabledRun(s, steps)
    ensures Inv(Run(s, steps))
    decreases |steps|
  {
    hide Inv, Enabled, Next;
    if steps != [] {
      StepKeepsInv(s, steps[0]);
      RunKeepsInv(Next(s, steps[0]), steps[1..]);
    }
  }

  /** Whatever readers and writers do, with no writer between its commit and its
      return a kept memo is the rows of the committed tags, and those are complete. */
  lemma MemoIsCoherent(steps: seq<Step>)
    requires EnabledRun(INITIAL, steps)
    ensures var s := Run(INITIAL, steps);
      s.history != [] && (s.memo.Some? && s.writers == map[] ==> Exact(s, s.memo.value) && EachIsTagged(Now(s)))
  {
    RunKeepsInv(INITIAL, steps);
  }

  /** Every answer is the rows of one committed state, none older than a write
      that has returned; with no writer in flight, of the newest one. */
  lemma AnswersAreFresh(steps: seq<Step>, step: Step)
    requires EnabledRun(INITIAL, steps) && Enabled(Run(INITIAL, steps), step)
    requires Answer(Run(INITIAL, steps), step).Some?
    ensures var s := Run(INITIAL, steps);
      var m := Answer(s, step).value;
      Fresh(s, m) && (s.writers == map[] ==> Exact(s, m) && EachIsTagged(Now(s)))
  {
    hide TableRows, Fresh;
    RunKeepsInv(INITIAL, steps);
  }

  /** Nothing that happens changes a committed state or forgets a returned write. */
  lemma {:induction false} RunKeepsHistory(s: State, steps: seq<Step>)
    requires EnabledRun(s, steps)
    ensures var t := Run(s, steps);
      s.history <= t.history && s.returned <= t.returned
    decreases |steps|
  {
    if steps != [] {
      var t := Next(s, steps[0]);
      assert s.history <= t.history && s.returned <= t.returned;
      hide Enabled, Next;
      RunKeepsHistory(t, steps[1..]);
    }
  }

  /** Once a write has returned, no later answer is older than it. */
  lemma ReturnedWritesAreSeen(before: seq<Step>, id: nat, after: seq<Step>, step: Step)
    requires EnabledRun(INITIAL, before) && Enabled(Run(INITIAL, before), Return(id))
    requires EnabledRun(Next(Run(INITIAL, before), Return(id)), after)
    requires Answer(Run(Next(Run(INITIAL, before), Return(id)), after), step).Some?
    ensures var s0 := Run(INITIAL, before);
      var s := Run(Next(s0, Return(id)), after);
      var m := Answer(s, step).value;
      s0.writers[id] <= m.at && Fresh(s, m)
  {
    hide TableRows;
    var s0 := Run(INITIAL, before);
    var s1 := Next(s0, Return(id));
    RunKeepsInv(INITIAL, before);
    StepKeepsInv(s0, Return(id));
    RunKeepsInv(s1, after);
    RunKeepsHistory(s1, after);
  }

  lemma RunFrom(s: State, step: Step, rest: seq<Step>)
    requires Enabled(s, step) && EnabledRun(Next(s, step), rest)
    ensures EnabledRun(s, [step] + rest) && Run(s, [step] + rest) == Run(Next(s, step), rest)
  {
    assert ([step] + rest)[1..] == rest;
  }

  /** A reader in phase `r` once one write has come and gone. */
  function Holding(db: Db, r: Option<Reader>): State {
    State(INITIAL.history + [db], map[], 1, None, r)
  }

  function Advances(n: nat): seq<Step> {
    seq(n, i => Advance)
  }

  lemma ReaderSteps(db: Db, from: Reader, to: Reader, n: nat)
    requires !from.Read? && Look(from, db, 1) == Some(to)
    requires EnabledRun(Holding(db, Some(to)), Advances(n))
    ensures EnabledRun(Holding(db, Some(from)), Advances(n + 1))
    ensures Run(Holding(db, Some(from)), Advances(n + 1)) == Run(Holding(db, Some(to)), Advances(n))
  {
    var s := Holding(db, Some(from));
    assert Next(s, Advance) == Holding(db, Some(to));
    RunFrom(s, Advance, Advances(n));
    assert [Advance] + Advances(n) == Advances(n + 1);
  }

  lemma CompleteCacheIsSeen(db: Db)
    requires Complete(db)
    ensures EnabledRun(Holding(db, Some(Locked)), Advances(5))
    ensures Run(Holding(db, Some(Locked)), Advances(5)) == Holding(db, Some(SawComplete))
  {
    hide Run, EnabledRun;
    NoSteps(Holding(db, Some(SawComplete)));
    ReaderSteps(db, Scanning, SawComplete, 0);
    ReaderSteps(db, SawTracks, Scanning, 1);
    ReaderSteps(db, Counting, SawTracks, 2);
    ReaderSteps(db, SawValidated, Counting, 3);
    ReaderSteps(db, Locked, SawValidated, 4);
  }

  lemma NoSteps(s: State)
    ensures EnabledRun(s, Advances(0)) && Run(s, Advances(0)) == s
  {
  }

  lemma {:induction false} RunInTwo(s: State, a: seq<Step>, b: seq<Step>)
    requires EnabledRun(s, a) && EnabledRun(Run(s, a), b)
    ensures EnabledRun(s, a + b) && Run(s, a + b) == Run(Run(s, a), b)
    decreases |a|
  {
    if a == [] {
      assert a + b == b;
    } else {
      assert (a + b)[0] == a[0] && (a + b)[1..] == a[1..] + b;
      hide Enabled, Next;
      RunInTwo(Next(s, a[0]), a[1..], b);
    }
  }

  /** The first write, come and gone. */
  function Filling(full: Db): seq<Step> {
    [Commit(0, full), Return(0)]
  }

  function Looking(): seq<Step> {
    [Lock] + Advances(5)
  }

  function Late(thin: Db): seq<Step> {
    [Commit(1, thin), Advance, Advance]
  }

  lemma FillingRuns(full: Db)
    ensures EnabledRun(INITIAL, Filling(full)) && Run(INITIAL, Filling(full)) == Holding(full, None)
  {
    var s1 := Next(INITIAL, Commit(0, full));
    assert Next(s1, Return(0)) == Holding(full, None);
    RunFrom(s1, Return(0), []);
    RunFrom(INITIAL, Commit(0, full), [Return(0)]);
    assert [Commit(0, full)] + [Return(0)] == Filling(full);
  }

  /** The exception is real, from the very start: the cache is filled, a reader
      finds every track tagged, and then reads, answers with and keeps the rows
      that a drop in flight has thinned out. */
  lemma IncompleteAnswerWhileDropping(full: Db, thin: Db)
    requires Complete(full) && thin.validated && !Complete(thin)
    ensures var steps := Filling(full) + (Looking() + Late(thin));
      && EnabledRun(INITIAL, steps)
      && var s := Run(INITIAL, steps);
         Enabled(s, Advance) && Answer(s, Advance) == Some(Memo(TableRows(thin), 2)) && Now(s) == thin
  {
    hide TableRows, Untagged;
    FillingRuns(full);
    CompleteCacheIsSeen(full);
    var s0 := Holding(full, None);
    RunFrom(s0, Lock, Advances(5));
    var s1 := Holding(full, Some(SawComplete));
    assert Run(s0, Looking()) == s1;
    ThinnedRead(s1, thin);
    hide Run, EnabledRun, Next, Enabled, Advances;
    RunInTwo(s0, Looking(), Late(thin));
    RunInTwo(INITIAL, Filling(full), Looking() + Late(thin));
    hide Filling, Looking, Late;
    CanAnswer(Run(s1, Late(thin)));
  }

  lemma CanAnswer(s: State)
    requires s.history != [] && s.reader.Some?
    ensures Enabled(s, Advance)
  {
  }

  // --------------------------------------------- when every answer is exact

  /** What the reader has left to look at will make it give up or be exact, as
      long as nothing more is committed. */
  ghost predicate EndsWell(s: State, r: Reader)
    requires s.history != []
  {
    var db := Now(s);
    match r
    case Locked => true
    case SawValidated => true
    case Counting => db.index == [] || db.validated
    case SawTracks => db.validated && (Untagged(db) || db.index != [])
    case Scanning => Untagged(db) || (db.validated && db.index != [])
    case SawComplete => Complete(db)
    case Reading => Complete(db)
    case Read(m) => Exact(s, m)
  }

  /** The memo is exact, and a reader under way ends well. */
  ghost predicate Sound(s: State)
    requires s.history != []
  {
    (s.memo.Some? ==> Exact(s, s.memo.value)) && (s.reader.Some? ==> EndsWell(s, s.reader.value))
  }

  lemma LookEndsWellIff(s: State, r: Reader)
    requires s.history != [] && !r.Read?
    ensures var next := Look(r, Now(s), Newest(s));
      if next.None? then EndsWell(s, r) else EndsWell(s, r) <==> EndsWell(s, next.value)
  {
    hide TableRows, Untagged;
  }

  /** Nothing is committed. */
  predicate Calm(steps: seq<Step>) {
    forall step :: step in steps ==> !step.Commit?
  }

  /** Every answer given while nothing more is committed is exact. */
  ghost predicate AnswersWell(s: State) {
    forall steps, step ::
      Calm(steps) && EnabledRun(s, steps) && Enabled(Run(s, steps), step) && Answer(Run(s, steps), step).Some? ==>
        Run(s, steps).history != [] && Exact(Run(s, steps), Answer(Run(s, steps), step).value)
  }

  lemma CalmStepKeepsSound(s: State, step: Step)
    requires s.history != [] && Enabled(s, step) && !step.Commit? && Sound(s)
    ensures Next(s, step).history == s.history && Sound(Next(s, step))
  {
    hide TableRows, Untagged;
    if step.Advance? && !s.reader.value.Read? {
      LookEndsWellIff(s, s.reader.value);
    }
    assert Next(s, step).history == s.history;
  }

  lemma {:induction false} CalmRunKeepsSound(s: State, steps: seq<Step>)
    requires s.history != [] && Sound(s) && Calm(steps) && EnabledRun(s, steps)
    ensures Run(s, steps).history == s.history && Sound(Run(s, steps))
    decreases |steps|
  {
    hide Enabled, Next, Sound;
    if steps != [] {
      assert steps[0] in steps;
      CalmStepKeepsSound(s, steps[0]);
      CalmRunKeepsSound(Next(s, steps[0]), steps[1..]);
    }
  }

  /** How many looks a reader still has to go. */
  function Ahead(r: Reader): nat {
    match r
    case Locked => 7
    case SawValidated => 6
    case Counting => 5
    case SawTracks => 4
    case Scanning => 3
    case SawComplete => 2
    case Reading => 1
    case Read(_) => 0
  }

  /** A reader that does not end well answers what is not exact. */
  lemma {:induction false} BadReaderAnswers(s: State) returns (n: nat)
    requires s.history != [] && s.reader.Some? && !EndsWell(s, s.reader.value)
    ensures Calm(Advances(n)) && EnabledRun(s, Advances(n)) && Run(s, Advances(n)).history == s.history
    ensures Enabled(Run(s, Advances(n)), Advance) && Answer(Run(s, Advances(n)), Advance).Some?
    ensures !Exact(s, Answer(Run(s, Advances(n)), Advance).value)
    decreases Ahead(s.reader.value)
  {
    hide TableRows, Untagged;
    if s.reader.value.Read? {
      NoSteps(s);
      n := 0;
    } else {
      LookEndsWellIff(s, s.reader.value);
      var t := Next(s, Advance);
      assert t.history == s.history;
      var m := BadReaderAnswers(t);
      RunFrom(s, Advance, Advances(m));
      assert [Advance] + Advances(m) == Advances(m + 1);
      n := m + 1;
    }
  }

  /** From any reachable state, answers stay exact for as long as nothing more is
      committed exactly when the memo is exact, if there is one, and the reader
      under way, if there is one, has not passed a check that no longer holds. */
  lemma AnswersAreExactIff(s: State)
    requires Inv(s)
    ensures AnswersWell(s) <==> Sound(s)
  {
    hide TableRows, Untagged, EndsWell, Exact, Enabled, Next;
    if Sound(s) {
      forall steps, step | Calm(steps) && EnabledRun(s, steps) && Enabled(Run(s, steps), step)
                           && Answer(Run(s, steps), step).Some?
        ensures Run(s, steps).history != [] && Exact(Run(s, steps), Answer(Run(s, steps), step).value)
      {
        CalmRunKeepsSound(s, steps);
        ReadEndsExact(Run(s, steps));
      }
    }
    if AnswersWell(s) {
      if s.memo.Some? {
        MemoAnswers(s);
      }
      if s.reader.Some? && !EndsWell(s, s.reader.value) {
        var n := BadReaderAnswers(s);
        SameHistorySameExact(s, Run(s, Advances(n)), Answer(Run(s, Advances(n)), Advance).value);
      }
    }
  }

  lemma ReadEndsExact(s: State)
    requires s.history != [] && Sound(s)
    ensures s.reader.Some? && s.reader.value.Read? ==> Exact(s, s.reader.value.memo)
  {
    hide Exact, Complete, Untagged;
  }

  lemma MemoAnswers(s: State)
    requires AnswersWell(s) && s.history != [] && s.memo.Some? && s.reader.None?
    ensures Exact(s, s.memo.value)
  {
    hide Exact;
    assert Calm([]) && EnabledRun(s, []) && Run(s, []) == s && Enabled(s, Lock) && Answer(s, Lock) == s.memo;
  }

  lemma SameHistorySameExact(s: State, t: State, m: Memo)
    requires s.history != [] && t.history == s.history
    ensures Exact(t, m) <==> Exact(s, m)
  {
  }

  lemma ThinnedRead(s: State, thin: Db)
    requires |s.history| == 2 && s.reader == Some(SawComplete) && thin.validated
    ensures var late := Late(thin);
      EnabledRun(s, late)
      && var t := Run(s, late);
         t.history == s.history + [thin] && t.reader == Some(Read(Memo(TableRows(thin), 2)))
  {
    hide TableRows;
    var s1 := Next(s, Commit(1, thin));
    var s2 := Next(s1, Advance);
    var s3 := Next(s2, Advance);
    assert s2.reader == Some(Reading);
    RunFrom(s2, Advance, []);
    RunFrom(s1, Advance, [Advance]);
    RunFrom(s, Commit(1, thin), [Advance] + [Advance]);
    assert [Commit(1, thin)] + ([Advance] + [Advance]) == [Commit(1, thin), Advance, Advance];
  }

  // ------------------------------------------------------- a reader left alone

  /** Where the memo's lock is free: one reader, from locking it to keeping what it read. */
  function Alone(): seq<Step> {
    [Lock] + Advances(8)
  }

  lemma Advancing(s: State, from: Reader, n: nat)
    requires s.history != [] && s.reader == Some(from) && !from.Read?
    requires Look(from, Now(s), Newest(s)).Some?
    requires EnabledRun(s.(reader := Look(from, Now(s), Newest(s))), Advances(n))
    ensures EnabledRun(s, Advances(n + 1))
    ensures Run(s, Advances(n + 1)) == Run(s.(reader := Look(from, Now(s), Newest(s))), Advances(n))
  {
    RunFrom(s, Advance, Advances(n));
    assert [Advance] + Advances(n) == Advances(n + 1);
  }

  /** Left alone with a complete cache, a reader is answered with its rows, and they are kept. */
  lemma CompleteCacheIsAnswered(s: State)
    requires s.history != [] && s.memo.None? && s.reader.None? && EachIsTagged(Now(s))
    ensures var m := Memo(TableRows(Now(s)), Newest(s));
      && EnabledRun(s, Alone()) && Run(s, Alone()) == s.(memo := Some(m))
      && EnabledRun(s, [Lock] + Advances(7)) && Answer(Run(s, [Lock] + Advances(7)), Advance) == Some(m)
  {
    TaggedIsComplete(Now(s));
    hide TableRows, Untagged, Run, EnabledRun;
    var m := Memo(TableRows(Now(s)), Newest(s));
    var locked, read := s.(reader := Some(Locked)), s.(reader := Some(Read(m)));
    assert EnabledRun(s.(memo := Some(m)), []) && Run(s.(memo := Some(m)), []) == s.(memo := Some(m)) by { NothingRuns(s.(memo := Some(m))); }
    RunFrom(read, Advance, []);
    assert Advances(1) == [Advance] && [Advance] + [] == [Advance] && Advances(0) == [];
    NothingRuns(read);
    Reaches(s, 0);
    Reaches(s, 1);
    RunFrom(s, Lock, Advances(8));
    RunFrom(s, Lock, Advances(7));
  }

  lemma TaggedIsComplete(db: Db)
    ensures EachIsTagged(db) <==> Complete(db)
  {
    if EachIsTagged(db) {
      assert forall i :: 0 <= i < |db.index| ==> db.index[i] in db.index;
    }
  }

  lemma NothingRuns(s: State)
    ensures EnabledRun(s, []) && Run(s, []) == s
  {
  }

  lemma Reaches(s: State, n: nat)
    requires s.history != [] && s.memo.None? && s.reader.None? && Complete(Now(s))
    requires EnabledRun(s.(reader := Some(Read(Memo(TableRows(Now(s)), Newest(s))))), Advances(n))
    ensures EnabledRun(s.(reader := Some(Locked)), Advances(n + 7))
    ensures Run(s.(reader := Some(Locked)), Advances(n + 7)) ==
      Run(s.(reader := Some(Read(Memo(TableRows(Now(s)), Newest(s))))), Advances(n))
  {
    hide TableRows, Run, EnabledRun;
    Advancing(s.(reader := Some(Reading)), Reading, n);
    Advancing(s.(reader := Some(SawComplete)), SawComplete, n + 1);
    Advancing(s.(reader := Some(Scanning)), Scanning, n + 2);
    Advancing(s.(reader := Some(SawTracks)), SawTracks, n + 3);
    Advancing(s.(reader := Some(Counting)), Counting, n + 4);
    Advancing(s.(reader := Some(SawValidated)), SawValidated, n + 5);
    Advancing(s.(reader := Some(Locked)), Locked, n + 6);
  }
}
