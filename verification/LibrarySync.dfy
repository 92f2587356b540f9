/** One client syncing from one server, over any run of both.

    The client asks page by page; between its pages the server may file any
    passes or switch libraries. What a copy holds for a path is the generation
    of the filing it was last told, which stands for the track as it then was. */
module LibrarySync {
  import opened Order
  import opened LibraryChanges

  type Copy = map<string, nat>

  datatype Phase = Idle | Reading(at: Continuation)

  /** `served` of `total` is the client's progress through its current or last read. */
  datatype Client = Client(copy: Copy, cursor: Option<Cursor>, phase: Phase, served: nat, total: nat)

  /** `drawn` holds every epoch drawn so far; the code draws 64 random bits. */
  datatype System = System(log: Log, drawn: set<nat>, client: Client)

  datatype Step =
    | Record(paths: Option<seq<string>>, updated: seq<string>, epoch: nat)
    | Reset
    | Page(limit: nat)
    | Abandon

  const INITIAL := System(EMPTY_LOG, {}, Client(map[], None, Idle, 0, 0))

  // ---------------------------------------------------------------- client

  function ApplyChange(copy: Copy, c: Change): Copy {
    if c.live then copy[c.key.path := c.key.generation] else copy - {c.key.path}
  }

  /** An upsert inserts or replaces the track, a delete removes it. */
  function Apply(copy: Copy, changes: seq<Change>): Copy {
    if changes == [] then copy
    else ApplyChange(Apply(copy, changes[..|changes| - 1]), changes[|changes| - 1])
  }

  function NextRequest(c: Client): ReadFrom {
    match c.phase
    case Reading(at) => Resume(at)
    case Idle => if c.cursor.Some? then Since(c.cursor.value) else Start
  }

  /** What the client does with an answer: a resync drops the copy, the last
      page's head becomes the cursor. */
  function Receive(c: Client, page: Option<ChangePage>): Client {
    match page
    case None => c
    case Some(Resync(_)) => Client(map[], None, Idle, 0, 0)
    case Some(Changes(head, total, changes, next)) =>
      var served := (if c.phase.Reading? then c.served else 0) + |changes|;
      var copy := Apply(c.copy, changes);
      if next.None? then Client(copy, Some(head), Idle, served, total)
      else Client(copy, c.cursor, Reading(next.value), served, total)
  }

  predicate Enabled(s: System, step: Step) {
    match step
    case Record(_, _, epoch) => epoch !in s.drawn
    case Page(limit) => limit >= 1
    case _ => true
  }

  /** A read given up starts over: a first sync from nothing, a later one from
      the cursor stored before it. */
  function GiveUp(c: Client): Client {
    c.(phase := Idle, copy := if c.cursor.None? then map[] else c.copy)
  }

  function AskForPage(s: System, limit: nat): System
    requires limit >= 1
  {
    s.(client := Receive(s.client, ReadPage(s.log, NextRequest(s.client), limit)))
  }

  function Next(s: System, step: Step, maxTombstones: nat): System
    requires Enabled(s, step)
  {
    match step
    case Record(paths, updated, epoch) =>
      s.(log := RecordLog(s.log, paths, updated, epoch, maxTombstones), drawn := s.drawn + {epoch})
    case Reset => s.(log := EMPTY_LOG)
    case Page(limit) => AskForPage(s, limit)
    case Abandon => s.(client := GiveUp(s.client))
  }

  // ------------------------------------------------------------- invariant

  /** The copy holds exactly what the log last filed for `path`. */
  ghost predicate Settled(copy: Copy, known: Known, path: string)
    requires path in known
  {
    if known[path].live then path in copy && copy[path] == known[path].generation else path !in copy
  }

  /** The copy is what a client at `generation` should hold. */
  ghost predicate UpToDate(copy: Copy, known: Known, generation: nat) {
    && (forall p :: p in known && known[p].generation <= generation ==> Settled(copy, known, p))
    && copy.Keys <= known.Keys
  }

  /** What the copy holds when a request is sent. A read since a cursor holds
      what was filed before its range; a full read holds nothing it has not
      been served. Neither is promised anything once the log has forgotten
      deletes the read would have needed. */
  ghost predicate Ready(copy: Copy, log: Log, from: ReadFrom) {
    var until := UntilOf(from, log.generation);
    match SinceOf(from)
    case Some(since) =>
      log.floor <= since ==>
        && copy.Keys <= log.known.Keys
        && forall p :: p in log.known && log.known[p].generation <= until && !AtOrAfter(LowerOf(from), KeyOf(log.known, p)) ==>
             Settled(copy, log.known, p)
    case None =>
      && (log.floor <= until ==> copy.Keys <= log.known.Keys)
      && forall p :: p in log.known && log.known[p].generation <= until ==>
           if AtOrAfter(LowerOf(from), KeyOf(log.known, p)) then p !in copy else Settled(copy, log.known, p)
  }

  ghost predicate WellPlaced(at: Continuation, log: Log) {
    at.last.generation <= at.until <= log.generation && (at.since.Some? ==> at.since.value < at.last.generation)
  }

  /** How many changes a read has left. */
  function Remaining(log: Log, at: Continuation): nat {
    |ServedPaths(log.known, Resume(at), log.generation)|
  }

  ghost predicate ClientInv(c: Client, log: Log) {
    && c.served <= c.total
    && match c.phase
       case Idle =>
         && (c.cursor.None? ==> c.copy == map[])
         && (c.cursor.Some? && log.epoch == Some(c.cursor.value.epoch) ==>
              c.cursor.value.generation <= log.generation
              && (log.floor <= c.cursor.value.generation ==> UpToDate(c.copy, log.known, c.cursor.value.generation)))
       case Reading(at) =>
         && at.total == c.total
         && at.since == (if c.cursor.Some? then Some(c.cursor.value.generation) else None)
         && (c.cursor.Some? ==> at.epoch == c.cursor.value.epoch)
         && (log.epoch == Some(at.epoch) ==>
              WellPlaced(at, log) && Ready(c.copy, log, Resume(at)) && c.served + Remaining(log, at) <= c.total)
  }

  ghost predicate Inv(s: System, maxTombstones: nat) {
    && LogInv(s.log, maxTombstones)
    && (s.log.epoch.Some? ==> s.log.epoch.value in s.drawn)
    && (s.client.cursor.Some? ==> s.client.cursor.value.epoch in s.drawn)
    && (s.client.phase.Reading? ==> s.client.phase.at.epoch in s.drawn)
    && ClientInv(s.client, s.log)
  }

  // -------------------------------------------------------- server steps

  /** A pass filed between two pages files past the read's window. */
  lemma PassKeepsRead(copy: Copy, s: Log, t: Log, at: Continuation)
    requires LogGrows(s, t) && WellPlaced(at, s)
    ensures Ready(copy, s, Resume(at)) ==> Ready(copy, t, Resume(at))
    ensures Remaining(t, at) <= Remaining(s, at)
    ensures WellPlaced(at, t)
  {
    hide LogInv;
    var mine, theirs := ServedPaths(t.known, Resume(at), t.generation), ServedPaths(s.known, Resume(at), s.generation);
    forall p | p in mine ensures p in theirs {
      assert t.known[p].generation <= at.until;
    }
    Subset(ServedPaths(t.known, Resume(at), t.generation), ServedPaths(s.known, Resume(at), s.generation));
  }

  lemma Subset(a: set<string>, b: set<string>)
    ensures a <= b ==> |a| <= |b|
    ensures a < b ==> |a| < |b|
  {
    if a <= b {
      assert |b| == |a| + |b - a|;
    }
  }

  lemma PassKeepsCopy(copy: Copy, s: Log, t: Log, generation: nat)
    requires LogGrows(s, t) && generation <= s.generation
    requires s.floor <= generation ==> UpToDate(copy, s.known, generation)
    ensures t.floor <= generation ==> UpToDate(copy, t.known, generation)
  {
  }

  // ---------------------------------------------------------- page steps

  /** Keys filed in `known`, as a page serves them. */
  ghost predicate Filed(known: Known, keys: seq<Key>) {
    forall k :: k in keys ==> k.path in known && k == KeyOf(known, k.path)
  }

  /** Applying a page settles each path in it and touches no other. */
  lemma {:induction false} ApplySettles(copy: Copy, known: Known, keys: seq<Key>)
    requires Filed(known, keys)
    ensures var after := Apply(copy, ToChanges(known, keys));
      && (forall k :: k in keys ==> Settled(after, known, k.path))
      && (forall p :: p !in PathSet(keys) ==> (p in after <==> p in copy) && (p in after ==> after[p] == copy[p]))
  {
    if keys != [] {
      var n := |keys| - 1;
      var rest := keys[..n];
      assert keys == rest + [keys[n]];
      assert keys[n] in keys;
      ApplySettles(copy, known, rest);
      assert ToChanges(known, keys)[..n] == ToChanges(known, rest);
      assert PathSet(keys) == PathSet(rest) + {keys[n].path};
      forall k | k in keys ensures Settled(Apply(copy, ToChanges(known, keys)), known, k.path) {
        if k.path != keys[n].path {
          assert k in rest;
        }
      }
    }
  }

  lemma PrefixSplits(keys: seq<Key>, n: nat)
    requires Ascending(keys) && 0 < n <= |keys|
    ensures forall k :: k in keys ==> (k in keys[..n] <==> !KeyLess(keys[n - 1], k))
  {
    forall k | k in keys ensures k in keys[..n] <==> !KeyLess(keys[n - 1], k) {
      var i :| 0 <= i < |keys| && keys[i] == k;
      if i < n {
        assert keys[..n][i] == k;
        KeyLessIrreflexive(k);
        if i < n - 1 {
          KeyLessAsymmetric(keys[i], keys[n - 1]);
        }
      } else if k in keys[..n] {
        var j :| 0 <= j < n && keys[j] == k;
        KeyLessIrreflexive(k);
      }
    }
  }

  /** What one page serves: filed keys of the range, in order. */
  lemma ServedKeysAre(s: Log, from: ReadFrom)
    ensures Filed(s.known, ServedKeys(s, from)) && Ascending(ServedKeys(s, from))
    ensures forall p :: p in s.known ==>
      (KeyOf(s.known, p) in ServedKeys(s, from) <==> p in ServedPaths(s.known, from, s.generation))
    ensures |ServedKeys(s, from)| == |ServedPaths(s.known, from, s.generation)|
  {
    hide RangePaths;
    var paths := ServedPaths(s.known, from, s.generation);
    assert paths <= s.known.Keys by {
      RangeIsKnown(s.known, LowerOf(from), UntilOf(from, s.generation));
    }
    KeysOfCount(s.known, paths);
    forall p | p in s.known ensures KeyOf(s.known, p) in KeysOf(s.known, paths) <==> p in paths {
      KeysOfMembers(s.known, paths, KeyOf(s.known, p));
    }
  }

  lemma RangeIsKnown(known: Known, lower: Bound, until: nat)
    ensures RangePaths(known, lower, until) <= known.Keys
  {
  }

  lemma NotServed(s: Log, from: ReadFrom, keys: seq<Key>, p: string)
    requires Filed(s.known, keys) && p in s.known && KeyOf(s.known, p) !in keys
    ensures p !in PathSet(keys)
  {
  }

  /** The last page of a read: the copy is what a client at its `until` should hold. */
  lemma LastPageCompletes(copy: Copy, s: Log, from: ReadFrom)
    requires Ready(copy, s, from) && Answerable(s, from)
    ensures s.floor <= UntilOf(from, s.generation) ==>
      UpToDate(Apply(copy, ToChanges(s.known, ServedKeys(s, from))), s.known, UntilOf(from, s.generation))
  {
    hide KeyLess, LogInv, KeysOf, Sorted;
    var keys := ServedKeys(s, from);
    var until := UntilOf(from, s.generation);
    ServedKeysAre(s, from);
    ApplySettles(copy, s.known, keys);
    var after := Apply(copy, ToChanges(s.known, keys));
    if s.floor <= until {
      forall p | p in s.known && s.known[p].generation <= until ensures Settled(after, s.known, p) {
        if KeyOf(s.known, p) !in keys {
          NotServed(s, from, keys, p);
          NotServedMeans(s, from, p);
        }
      }
      forall p | p in after ensures p in s.known {
        if p in PathSet(keys) {
          var k :| k in keys && k.path == p;
        }
      }
    }
  }

  /** A path of the window that is not served lies before the range, or is a
      delete in a full read. */
  lemma NotServedMeans(s: Log, from: ReadFrom, p: string)
    requires p in s.known && s.known[p].generation <= UntilOf(from, s.generation)
    ensures p !in ServedPaths(s.known, from, s.generation) ==>
      !AtOrAfter(LowerOf(from), KeyOf(s.known, p)) || (!s.known[p].live && SinceOf(from).None?)
    ensures p in ServedPaths(s.known, from, s.generation) ==>
      AtOrAfter(LowerOf(from), KeyOf(s.known, p)) && (s.known[p].live || SinceOf(from).Some?)
  {
  }

  /** What a continuation's range is, against the range it goes on from. */
  lemma NextRange(s: Log, from: ReadFrom, last: Key, p: string)
    requires last.path in s.known && last == KeyOf(s.known, last.path)
    requires AtOrAfter(LowerOf(from), last) && p in s.known
    requires from.Resume? && from.at.since.Some? ==> from.at.since.value < from.at.last.generation
    ensures KeyLess(last, KeyOf(s.known, p)) ==> AtOrAfter(LowerOf(from), KeyOf(s.known, p))
    ensures SinceOf(from).Some? ==> SinceOf(from).value < last.generation
  {
    var k := KeyOf(s.known, p);
    if KeyLess(last, k) {
      match LowerOf(from) {
        case Included(b) =>
          if KeyLess(k, b) {
            KeyLessTransitive(last, k, b);
          }
        case Excluded(b) => KeyLessTransitive(b, last, k);
      }
    }
  }

  /** A page that is not the last leaves the copy ready for the next request. */
  lemma PageContinues(copy: Copy, s: Log, from: ReadFrom, limit: nat, at: Continuation)
    requires Ready(copy, s, from) && Answerable(s, from)
    requires from.Resume? ==> WellPlaced(from.at, s)
    requires 1 <= limit < |ServedKeys(s, from)|
    requires at == Continuation(s.epoch.value, SinceOf(from), UntilOf(from, s.generation), TotalOf(s, from),
                                ServedKeys(s, from)[limit - 1])
    ensures WellPlaced(at, s)
    ensures Ready(Apply(copy, ToChanges(s.known, ServedKeys(s, from)[..limit])), s, Resume(at))
    ensures Remaining(s, at) + limit == |ServedKeys(s, from)|
  {
    hide LogInv, KeysOf, Sorted, Ready;
    ServedKeysAre(s, from);
    PageIsPlaced(s, from, limit, at);
    PageLeavesRest(s, from, limit, at);
    PageSettles(copy, s, from, limit, at);
  }

  lemma PageIsPlaced(s: Log, from: ReadFrom, limit: nat, at: Continuation)
    requires Answerable(s, from)
    requires from.Resume? ==> WellPlaced(from.at, s)
    requires 1 <= limit <= |ServedKeys(s, from)|
    requires at.since == SinceOf(from) && at.until == UntilOf(from, s.generation) && at.last == ServedKeys(s, from)[limit - 1]
    ensures at.last.path in s.known && at.last == KeyOf(s.known, at.last.path)
    ensures AtOrAfter(LowerOf(from), at.last)
    ensures WellPlaced(at, s)
  {
    hide KeysOf, Sorted;
    ServedKeysAre(s, from);
    assert at.last in ServedKeys(s, from);
    NextRange(s, from, at.last, at.last.path);
  }

  /** What is left after a page is the window without the page. */
  lemma RestIsUnserved(s: Log, from: ReadFrom, limit: nat, at: Continuation)
    requires Answerable(s, from)
    requires from.Resume? ==> WellPlaced(from.at, s)
    requires 1 <= limit <= |ServedKeys(s, from)|
    requires at.since == SinceOf(from) && at.until == UntilOf(from, s.generation) && at.last == ServedKeys(s, from)[limit - 1]
    ensures var all := ServedPaths(s.known, from, s.generation);
      var page := PathSet(ServedKeys(s, from)[..limit]);
      ServedPaths(s.known, Resume(at), s.generation) == all - page && page <= all
  {
    hide KeysOf, Sorted;
    var keys := ServedKeys(s, from);
    var page := keys[..limit];
    ServedKeysAre(s, from);
    PrefixSplits(keys, limit);
    var all, rest := ServedPaths(s.known, from, s.generation), ServedPaths(s.known, Resume(at), s.generation);
    forall p ensures p in rest <==> p in all - PathSet(page) {
      if p in s.known {
        NextRange(s, from, at.last, p);
        if p in all && p in PathSet(page) {
          var k :| k in page && k.path == p;
          assert k in keys;
        }
        if p in all && p !in PathSet(page) {
          assert KeyOf(s.known, p) !in page;
        }
      }
    }
    forall p | p in PathSet(page) ensures p in all {
      var k :| k in page && k.path == p;
      assert k in keys;
    }
  }

  lemma PageLeavesRest(s: Log, from: ReadFrom, limit: nat, at: Continuation)
    requires Answerable(s, from)
    requires from.Resume? ==> WellPlaced(from.at, s)
    requires 1 <= limit <= |ServedKeys(s, from)|
    requires at.since == SinceOf(from) && at.until == UntilOf(from, s.generation) && at.last == ServedKeys(s, from)[limit - 1]
    ensures Remaining(s, at) + limit == |ServedKeys(s, from)|
  {
    hide KeysOf, Sorted, ServedPaths, AtOrAfter, Answerable, WellPlaced;
    var keys := ServedKeys(s, from);
    var page := keys[..limit];
    ServedKeysAre(s, from);
    PrefixSplits(keys, limit);
    OldestCount(s.known, page);
    RestIsUnserved(s, from, limit, at);
    var all := ServedPaths(s.known, from, s.generation);
    assert |all - PathSet(page)| == |all| - |PathSet(page)|;
  }

  /** Where a filed path of the window stands once a page ending at `at` is applied. */
  ghost predicate Accounted(s: Log, from: ReadFrom, page: seq<Key>, at: Continuation, p: string)
    requires p in s.known
  {
    var k := KeyOf(s.known, p);
    && (k in page ==> !KeyLess(at.last, k))
    && (k !in page ==> p !in PathSet(page))
    && (k !in page ==> KeyLess(at.last, k) || !AtOrAfter(LowerOf(from), k) || (!s.known[p].live && SinceOf(from).None?))
    && (KeyLess(at.last, k) ==> AtOrAfter(LowerOf(from), k))
  }

  lemma PageAccounts(s: Log, from: ReadFrom, limit: nat, at: Continuation)
    requires Answerable(s, from)
    requires from.Resume? ==> WellPlaced(from.at, s)
    requires 1 <= limit <= |ServedKeys(s, from)|
    requires at.since == SinceOf(from) && at.until == UntilOf(from, s.generation) && at.last == ServedKeys(s, from)[limit - 1]
    ensures forall p :: p in s.known && s.known[p].generation <= at.until ==>
      Accounted(s, from, ServedKeys(s, from)[..limit], at, p)
  {
    hide KeysOf, Sorted;
    var keys := ServedKeys(s, from);
    var page := keys[..limit];
    ServedKeysAre(s, from);
    PageIsPlaced(s, from, limit, at);
    PrefixSplits(keys, limit);
    forall p | p in s.known && s.known[p].generation <= at.until ensures Accounted(s, from, page, at, p) {
      NextRange(s, from, at.last, p);
      NotServedMeans(s, from, p);
      if KeyOf(s.known, p) !in page {
        NotServed(s, from, page, p);
      } else {
        assert KeyOf(s.known, p) in keys;
      }
    }
  }

  lemma PageSettles(copy: Copy, s: Log, from: ReadFrom, limit: nat, at: Continuation)
    requires Ready(copy, s, from) && Answerable(s, from)
    requires from.Resume? ==> WellPlaced(from.at, s)
    requires 1 <= limit <= |ServedKeys(s, from)|
    requires at.since == SinceOf(from) && at.until == UntilOf(from, s.generation) && at.last == ServedKeys(s, from)[limit - 1]
    ensures Ready(Apply(copy, ToChanges(s.known, ServedKeys(s, from)[..limit])), s, Resume(at))
  {
    var keys := ServedKeys(s, from);
    var page := keys[..limit];
    ServedKeysAre(s, from);
    PageAccounts(s, from, limit, at);
    assert Filed(s.known, page);
    ApplySettles(copy, s.known, page);
    hide KeysOf, Sorted, ServedKeys, ToChanges, Apply, KeyLess, LowerOf;
    var after := Apply(copy, ToChanges(s.known, page));
    forall p | p in after && p !in copy ensures p in s.known {
      var k :| k in page && k.path == p;
    }
    SettledAfterPage(copy, after, s, from, page, at);
  }

  lemma SettledAfterPage(copy: Copy, after: Copy, s: Log, from: ReadFrom, page: seq<Key>, at: Continuation)
    requires Ready(copy, s, from)
    requires at.since == SinceOf(from) && at.until == UntilOf(from, s.generation)
    requires forall k :: k in page ==> k.path in s.known && Settled(after, s.known, k.path)
    requires forall p :: p !in PathSet(page) ==> (p in after <==> p in copy) && (p in after ==> after[p] == copy[p])
    requires forall p :: p in s.known && s.known[p].generation <= at.until ==> Accounted(s, from, page, at, p)
    ensures Ready(after, s, Resume(at))
  {
    hide KeyLess;
    forall p | p in after && p !in copy ensures p in s.known {
      var k :| k in page && k.path == p;
    }
  }

  // ------------------------------------------------------------ any run

  lemma ReadyForRequest(c: Client, log: Log)
    requires ClientInv(c, log) && Answerable(log, NextRequest(c))
    ensures Ready(c.copy, log, NextRequest(c))
    ensures NextRequest(c).Resume? ==> WellPlaced(NextRequest(c).at, log)
  {
    forall p | p in log.known && c.phase.Idle? && c.cursor.Some?
      ensures AtOrAfter(LowerOf(NextRequest(c)), KeyOf(log.known, p)) <==> c.cursor.value.generation < log.known[p].generation
    {
    }
  }

  /** Before its first page a read counts what it will serve. */
  lemma TotalCountsTheRead(log: Log, from: ReadFrom)
    requires Answerable(log, from) && !from.Resume?
    requires forall p :: p in log.known ==> log.known[p].generation <= log.generation
    ensures TotalOf(log, from) == |ServedPaths(log.known, from, log.generation)|
  {
    if from.Start? {
      assert ServedPaths(log.known, from, log.generation) == Live(log.known);
    } else {
      assert ServedPaths(log.known, from, log.generation) == RangePaths(log.known, LowerOf(from), log.generation);
    }
  }

  /** A request's share of what its read has left to serve. */
  lemma RequestFitsTotal(c: Client, log: Log, maxTombstones: nat)
    requires LogInv(log, maxTombstones) && ClientInv(c, log) && Answerable(log, NextRequest(c))
    ensures (if c.phase.Reading? then c.served else 0) + |ServedKeys(log, NextRequest(c))| <= TotalOf(log, NextRequest(c))
    ensures c.phase.Idle? ==> |ServedKeys(log, NextRequest(c))| == TotalOf(log, NextRequest(c))
  {
    var from := NextRequest(c);
    ServedKeysAre(log, from);
    if from.Resume? {
      assert Remaining(log, from.at) == |ServedKeys(log, from)|;
    } else {
      TotalCountsTheRead(log, from);
    }
  }

  lemma PageKeepsClient(c: Client, log: Log, limit: nat, maxTombstones: nat)
    requires LogInv(log, maxTombstones) && ClientInv(c, log) && limit >= 1
    ensures ClientInv(Receive(c, ReadPage(log, NextRequest(c), limit)), log)
  {
    hide ReadPage, ServedKeys, ServedPaths, Apply, AtOrAfter, LowerOf, Ready,
      Live, Dead, LogInv, UpToDate, WellPlaced, Remaining, TotalOf;
    var from := NextRequest(c);
    ReadPageByCases(log, from, limit);
    if Answerable(log, from) {
      ReadyForRequest(c, log);
      RequestFitsTotal(c, log, maxTombstones);
      var keys := ServedKeys(log, from);
      if |keys| <= limit {
        LastPageCompletes(c.copy, log, from);
      } else {
        PageContinues(c.copy, log, from, limit,
          Continuation(log.epoch.value, SinceOf(from), UntilOf(from, log.generation), TotalOf(log, from), keys[limit - 1]));
      }
    }
  }

  lemma GivingUpKeepsClient(c: Client, log: Log)
    requires ClientInv(c, log)
    ensures ClientInv(GiveUp(c), log)
  {
    if c.phase.Reading? && c.cursor.Some? && log.epoch == Some(c.phase.at.epoch) {
      forall p | p in log.known && log.known[p].generation <= c.cursor.value.generation
        ensures !AtOrAfter(LowerOf(Resume(c.phase.at)), KeyOf(log.known, p))
      {
      }
    }
  }

  /** Every step the client or the server can take keeps the invariant. */
  lemma StepKeepsInv(s: System, step: Step, maxTombstones: nat)
    requires Inv(s, maxTombstones) && Enabled(s, step)
    ensures Inv(Next(s, step, maxTombstones), maxTombstones)
  {
    match step {
      case Record(paths, updated, epoch) =>
        RecordKeepsInv(s.log, paths, updated, epoch, maxTombstones);
        var t := RecordLog(s.log, paths, updated, epoch, maxTombstones);
        hide RecordLog, Ready, UpToDate, Remaining, LogGrows;
        match s.client.phase {
          case Reading(at) =>
            if s.log.epoch == Some(at.epoch) {
              PassKeepsRead(s.client.copy, s.log, t, at);
            }
          case Idle =>
            if s.client.cursor.Some? && s.log.epoch == Some(s.client.cursor.value.epoch) {
              PassKeepsCopy(s.client.copy, s.log, t, s.client.cursor.value.generation);
            }
        }
        RecordEpoch(s.log, paths, updated, epoch, maxTombstones);
      case Reset =>
      case Page(limit) =>
        PageKeepsClient(s.client, s.log, limit, maxTombstones);
      case Abandon =>
        GivingUpKeepsClient(s.client, s.log);
    }
  }

  lemma RecordEpoch(s: Log, paths: Option<seq<string>>, updated: seq<string>, drawn: nat, maxTombstones: nat)
    requires LogInv(s, maxTombstones)
    ensures var t := RecordLog(s, paths, updated, drawn, maxTombstones);
      && (s.epoch.Some? ==> t.epoch == s.epoch && s.generation <= t.generation)
      && (s.epoch.None? ==> t.epoch == None || t.epoch == Some(drawn))
  {
  }

  predicate EnabledRun(s: System, steps: seq<Step>, maxTombstones: nat)
    decreases |steps|
  {
    steps == [] || (Enabled(s, steps[0]) && EnabledRun(Next(s, steps[0], maxTombstones), steps[1..], maxTombstones))
  }

  function Run(s: System, steps: seq<Step>, maxTombstones: nat): System
    requires EnabledRun(s, steps, maxTombstones)
    decreases |steps|
  {
    if steps == [] then s else Run(Next(s, steps[0], maxTombstones), steps[1..], maxTombstones)
  }

  lemma {:induction false} RunKeepsInv(s: System, steps: seq<Step>, maxTombstones: nat)
    requires Inv(s, maxTombstones) && EnabledRun(s, steps, maxTombstones)
    ensures Inv(Run(s, steps, maxTombstones), maxTombstones)
    decreases |steps|
  {
    hide Inv, Next, Enabled;
    if steps != [] {
      StepKeepsInv(s, steps[0], maxTombstones);
      RunKeepsInv(Next(s, steps[0], maxTombstones), steps[1..], maxTombstones);
    }
  }

  /** The library as the log knows it: each live path at its latest filing. */
  function LiveCopy(known: Known): Copy {
    map p | p in known && known[p].live :: known[p].generation
  }

  lemma UpToDateAtHeadIsTheLibrary(copy: Copy, log: Log, maxTombstones: nat)
    requires LogInv(log, maxTombstones) && UpToDate(copy, log.known, log.generation)
    ensures copy == LiveCopy(log.known)
  {
    forall p ensures p in copy <==> p in LiveCopy(log.known) {
      if p in log.known {
        assert Settled(copy, log.known, p);
      }
    }
  }

  /** Convergence over any run: wherever a client's stored cursor still names
      the live epoch and has not fallen below the floor, its copy holds every
      live path filed up to the cursor, at its latest filing, no path deleted up
      to it, and no path the log does not know; at the head it is the library. */
  lemma SyncConverges(steps: seq<Step>, maxTombstones: nat)
    requires EnabledRun(INITIAL, steps, maxTombstones)
    ensures var s := Run(INITIAL, steps, maxTombstones);
      s.client.cursor.Some? && s.log.epoch == Some(s.client.cursor.value.epoch)
      && s.log.floor <= s.client.cursor.value.generation ==>
        && UpToDate(s.client.copy, s.log.known, s.client.cursor.value.generation)
        && (s.client.cursor.value.generation == s.log.generation ==> s.client.copy == LiveCopy(s.log.known))
  {
    assert Dead(EMPTY_LOG.known) == {};
    RunKeepsInv(INITIAL, steps, maxTombstones);
    var s := Run(INITIAL, steps, maxTombstones);
    GivingUpKeepsClient(s.client, s.log);
    if s.client.cursor.Some? && UpToDate(s.client.copy, s.log.known, s.log.generation) {
      UpToDateAtHeadIsTheLibrary(s.client.copy, s.log, maxTombstones);
    }
  }

  /** No read of any run serves more than the total its first page announced. */
  lemma TotalsAreUpperBounds(steps: seq<Step>, maxTombstones: nat)
    requires EnabledRun(INITIAL, steps, maxTombstones)
    ensures var c := Run(INITIAL, steps, maxTombstones).client;
      c.served <= c.total && (c.phase.Reading? ==> c.phase.at.total == c.total)
  {
    assert Dead(EMPTY_LOG.known) == {};
    RunKeepsInv(INITIAL, steps, maxTombstones);
  }

  /** The changes of a page are in strictly increasing order of (generation,
      path), inside the read's window and after everything served before. */
  lemma PagesServeTheWindowInOrder(c: Client, log: Log, limit: nat, maxTombstones: nat)
    requires LogInv(log, maxTombstones) && ClientInv(c, log) && limit >= 1 && Answerable(log, NextRequest(c))
    ensures var from := NextRequest(c);
      var changes := ReadPage(log, from, limit).value.changes;
      && (forall i, j :: 0 <= i < j < |changes| ==> KeyLess(changes[i].key, changes[j].key))
      && (forall i :: 0 <= i < |changes| ==> InWindow(from, log.generation, changes[i].key))
  {
    hide ReadPage, ServedKeys, Less, LogInv, ClientInv, WellPlaced, AtOrAfter, ServedPaths, InWindow, Ascending;
    var from := NextRequest(c);
    ReadPageByCases(log, from, limit);
    ReadyForRequest(c, log);
    ServedKeysInWindow(log, from);
    var keys := ServedKeys(log, from);
    var changes := ReadPage(log, from, limit).value.changes;
    AscendingPairs(keys);
    assert forall i :: 0 <= i < |changes| ==> changes[i].key == keys[i];
    forall i | 0 <= i < |changes| ensures InWindow(from, log.generation, changes[i].key) {
      assert keys[i] in keys;
    }
  }

  /** A filing the request asks for: after its cursor or the last change served,
      up to the end of its window, deletes left out of a full read. */
  predicate Wanted(s: Log, from: ReadFrom, p: string) {
    && p in s.known
    && match from
       case Start => s.known[p].live
       case Since(c) => c.generation < s.known[p].generation
       case Resume(at) =>
         && KeyLess(at.last, Key(s.known[p].generation, p))
         && s.known[p].generation <= at.until
         && (s.known[p].live || at.since.Some?)
  }

  function WantedPaths(s: Log, from: ReadFrom): set<string> {
    set p | p in s.known && Wanted(s, from, p)
  }

  lemma WantedIsServed(s: Log, from: ReadFrom, maxTombstones: nat)
    requires LogInv(s, maxTombstones)
    ensures WantedPaths(s, from) == ServedPaths(s.known, from, s.generation)
  {
    RangeIsTheWindow(s.known, from, s.generation);
    hide KeyLess;
    RangeIsKnown(s.known, LowerOf(from), UntilOf(from, s.generation));
  }

  /** What a page is, whatever the log and the request: as many of the wanted
      filings as fit, in order and none passed over, each as it is filed; the
      first page counts them; and it goes on from the last one while any is left. */
  lemma PageIsTheWanted(s: Log, from: ReadFrom, limit: nat, maxTombstones: nat)
    requires LogInv(s, maxTombstones) && limit >= 1
    requires ReadPage(s, from, limit).Some? && ReadPage(s, from, limit).value.Changes?
    ensures var page := ReadPage(s, from, limit).value;
      var changes := page.changes;
      var until := if from.Resume? then from.at.until else s.generation;
      && page.head == Cursor(s.epoch.value, until)
      && (forall i :: 0 <= i < |changes| ==>
            var p := changes[i].key.path;
            Wanted(s, from, p) && changes[i] == Change(Key(s.known[p].generation, p), s.known[p].live))
      && (forall i, j :: 0 <= i < j < |changes| ==> KeyLess(changes[i].key, changes[j].key))
      && (forall i, p :: 0 <= i < |changes| && Wanted(s, from, p) && (forall j :: 0 <= j < |changes| ==> changes[j].key.path != p) ==>
            KeyLess(changes[i].key, Key(s.known[p].generation, p)))
      && |changes| == (if |WantedPaths(s, from)| <= limit then |WantedPaths(s, from)| else limit)
      && page.total == (if from.Resume? then from.at.total else |WantedPaths(s, from)|)
      && page.next == (if |WantedPaths(s, from)| <= limit then None
                       else Some(Continuation(s.epoch.value, SinceOf(from), until, page.total, changes[limit - 1].key)))
  {
    hide ServedPaths, ServedKeys, ReadPage, KeyLess, Wanted, WantedPaths, ToChanges, Live;
    ReadPageByCases(s, from, limit);
    WantedIsServed(s, from, maxTombstones);
    WantedIsKnown(s, from);
    ServedKeysAre(s, from);
    if !from.Resume? {
      TotalCountsTheRead(s, from);
    }
    var keys := ServedKeys(s, from);
    var changes := ReadPage(s, from, limit).value.changes;
    forall i | 0 <= i < |changes|
      ensures changes[i].key == keys[i] == KeyOf(s.known, keys[i].path) && Wanted(s, from, keys[i].path)
      ensures changes[i].live == s.known[keys[i].path].live
    {
      assert keys[i] in keys;
      assert keys[i].path in WantedPaths(s, from);
    }
    forall i, p | 0 <= i < |changes| && p in WantedPaths(s, from) && (forall j :: 0 <= j < |changes| ==> changes[j].key.path != p)
      ensures KeyLess(changes[i].key, Key(s.known[p].generation, p))
    {
      NoneIsPassedOver(keys, |changes|, i, KeyOf(s.known, p));
    }
  }

  lemma WantedIsKnown(s: Log, from: ReadFrom)
    ensures forall p :: Wanted(s, from, p) <==> p in WantedPaths(s, from)
    ensures WantedPaths(s, from) <= s.known.Keys
  {
  }

  /** A key that is not among the first `n` comes after each of them. */
  lemma NoneIsPassedOver(keys: seq<Key>, n: nat, i: nat, k: Key)
    requires Ascending(keys) && i < n <= |keys| && k in keys && forall j :: 0 <= j < n ==> keys[j] != k
    ensures KeyLess(keys[i], k)
  {
  }

  predicate InWindow(from: ReadFrom, generation: nat, k: Key) {
    && (SinceOf(from).Some? ==> SinceOf(from).value < k.generation)
    && k.generation <= UntilOf(from, generation)
    && (from.Resume? ==> KeyLess(from.at.last, k))
  }

  lemma AscendingPairs(keys: seq<Key>)
    ensures Ascending(keys) ==> forall i, j :: 0 <= i < j < |keys| ==> KeyLess(keys[i], keys[j])
  {
  }

  lemma ServedKeysInWindow(log: Log, from: ReadFrom)
    requires Answerable(log, from) && (from.Resume? ==> WellPlaced(from.at, log))
    ensures forall k :: k in ServedKeys(log, from) ==> InWindow(from, log.generation, k)
    ensures Ascending(ServedKeys(log, from))
  {
    ServedKeysAre(log, from);
    hide ServedKeys, Less, Ascending;
    forall k | k in ServedKeys(log, from) ensures InWindow(from, log.generation, k) {
      assert k.path in ServedPaths(log.known, from, log.generation);
      RangeIsTheWindow(log.known, from, log.generation);
    }
  }

  // --------------------------------------------------- reads always finish

  /** A page of an open read either ends it or leaves strictly less to serve;
      what was served and what is left always add up to the same. */
  lemma PageProgress(c: Client, log: Log, limit: nat, maxTombstones: nat)
    requires LogInv(log, maxTombstones) && ClientInv(c, log) && limit >= 1
    requires Answerable(log, NextRequest(c))
    ensures var from := NextRequest(c);
      var c' := Receive(c, ReadPage(log, from, limit));
      var before := if c.phase.Reading? then c.served else 0;
      && c'.total == TotalOf(log, from)
      && match c'.phase
         case Idle =>
           && c'.cursor == Some(Cursor(log.epoch.value, UntilOf(from, log.generation)))
           && c'.served == before + |ServedKeys(log, from)|
           && (log.floor <= UntilOf(from, log.generation) ==> UpToDate(c'.copy, log.known, UntilOf(from, log.generation)))
         case Reading(at) =>
           && at.epoch == log.epoch.value && at.until == UntilOf(from, log.generation)
           && Answerable(log, Resume(at))
           && c'.served + Remaining(log, at) == before + |ServedKeys(log, from)|
           && Remaining(log, at) < |ServedKeys(log, from)|
  {
    hide ReadPage, ServedKeys, ServedPaths, Apply, AtOrAfter, LowerOf,
      Ready, Live, Dead, LogInv, UpToDate, Remaining, TotalOf;
    var from := NextRequest(c);
    ReadPageByCases(log, from, limit);
    ReadyForRequest(c, log);
    var keys := ServedKeys(log, from);
    if |keys| <= limit {
      LastPageCompletes(c.copy, log, from);
    } else {
      PageContinues(c.copy, log, from, limit,
        Continuation(log.epoch.value, SinceOf(from), UntilOf(from, log.generation), TotalOf(log, from), keys[limit - 1]));
    }
  }

  lemma RemainingIsServed(log: Log, at: Continuation)
    ensures Remaining(log, at) == |ServedKeys(log, Resume(at))|
  {
    ServedKeysAre(log, Resume(at));
  }

  /** What a client has left to read before its open read ends, if the log can
      still answer it. */
  function Left(s: System): nat {
    if s.client.phase.Reading? && Answerable(s.log, NextRequest(s.client)) then Remaining(s.log, s.client.phase.at) else 0
  }

  /** A run in which the client stays inside one read and the log can answer. */
  predicate StaysReading(s: System, steps: seq<Step>, maxTombstones: nat)
    requires EnabledRun(s, steps, maxTombstones)
    decreases |steps|
  {
    s.client.phase.Reading?
    && (steps == [] || ((steps[0].Page? ==> s.log.epoch.Some?)
                        && StaysReading(Next(s, steps[0], maxTombstones), steps[1..], maxTombstones)))
  }

  function PagesIn(steps: seq<Step>): nat {
    if steps == [] then 0 else (if steps[0].Page? then 1 else 0) + PagesIn(steps[1..])
  }

  lemma StepLeavesLess(s: System, step: Step, maxTombstones: nat)
    requires Inv(s, maxTombstones) && Enabled(s, step)
    requires s.client.phase.Reading? && Next(s, step, maxTombstones).client.phase.Reading?
    requires step.Page? ==> s.log.epoch.Some?
    ensures Left(Next(s, step, maxTombstones)) + (if step.Page? then 1 else 0) <= Left(s)
  {
    var t := Next(s, step, maxTombstones);
    var at := s.client.phase.at;
    match step {
      case Record(paths, updated, epoch) =>
        RecordKeepsInv(s.log, paths, updated, epoch, maxTombstones);
        RecordEpoch(s.log, paths, updated, epoch, maxTombstones);
        hide Remaining, RecordLog, ServedPaths;
        if s.log.epoch == Some(at.epoch) {
          PassKeepsRead(s.client.copy, s.log, t.log, at);
        }
      case Reset =>
      case Page(limit) =>
        ReadPageByCases(s.log, NextRequest(s.client), limit);
        hide ReadPage, ServedKeys, ServedPaths, ClientInv, LogInv, Remaining;
        if Answerable(s.log, NextRequest(s.client)) {
          PageProgress(s.client, s.log, limit, maxTombstones);
          RemainingIsServed(s.log, at);
        }
      case Abandon =>
    }
  }

  /** A read ends under any interleaving of passes: it cannot take more pages
      than it had changes left when looked at. */
  lemma {:induction false} ReadsAreFinite(s: System, steps: seq<Step>, maxTombstones: nat)
    requires Inv(s, maxTombstones) && EnabledRun(s, steps, maxTombstones) && StaysReading(s, steps, maxTombstones)
    ensures PagesIn(steps) <= Left(s)
    decreases |steps|
  {
    hide Inv, Next, Enabled, Left;
    if steps != [] {
      StepKeepsInv(s, steps[0], maxTombstones);
      var t := Next(s, steps[0], maxTombstones);
      ReadsAreFinite(t, steps[1..], maxTombstones);
      assert t.client.phase.Reading? by {
        assert StaysReading(t, steps[1..], maxTombstones);
      }
      StepLeavesLess(s, steps[0], maxTombstones);
    }
  }

  // --------------------------------------------------------------- resyncs

  /** The server tells the client to start over. */
  predicate Resyncs(s: System, step: Step)
    requires Enabled(s, step)
  {
    step.Page? && s.log.epoch.Some? && ReadPage(s.log, NextRequest(s.client), step.limit).value.Resync?
  }

  /** The client's stored cursor, if it has one, and its read, if one is under
      way, are of the live epoch, and nothing after the cursor was forgotten. */
  predicate KeepsUp(s: System) {
    && (s.client.cursor.Some? ==>
          Some(s.client.cursor.value.epoch) == s.log.epoch && s.log.floor <= s.client.cursor.value.generation)
    && (s.client.phase.Reading? ==> Some(s.client.phase.at.epoch) == s.log.epoch)
  }

  lemma ResyncsIff(s: System, step: Step, maxTombstones: nat)
    requires Inv(s, maxTombstones) && Enabled(s, step)
    ensures Resyncs(s, step) <==> step.Page? && s.log.epoch.Some? && !KeepsUp(s)
  {
    hide ReadPage, Ready, UpToDate, Remaining, LogInv;
    if step.Page? {
      ReadIsAnsweredIff(s.log, NextRequest(s.client), step.limit);
    }
  }

  /** After any run, a client is told to start over exactly when its cursor or
      its read is of another epoch, or the log has forgotten past its cursor. */
  lemma ResyncedIff(steps: seq<Step>, limit: nat, maxTombstones: nat)
    requires EnabledRun(INITIAL, steps, maxTombstones) && limit >= 1
    ensures var s := Run(INITIAL, steps, maxTombstones);
      Resyncs(s, Page(limit)) <==> s.log.epoch.Some? && !KeepsUp(s)
  {
    assert Dead(EMPTY_LOG.known) == {};
    RunKeepsInv(INITIAL, steps, maxTombstones);
    hide Inv;
    ResyncsIff(Run(INITIAL, steps, maxTombstones), Page(limit), maxTombstones);
  }

  predicate KeepsUpThroughout(s: System, steps: seq<Step>, maxTombstones: nat)
    requires EnabledRun(s, steps, maxTombstones)
    decreases |steps|
  {
    KeepsUp(s) && (steps == [] || KeepsUpThroughout(Next(s, steps[0], maxTombstones), steps[1..], maxTombstones))
  }

  predicate ResyncsSomewhere(s: System, steps: seq<Step>, maxTombstones: nat)
    requires EnabledRun(s, steps, maxTombstones)
    decreases |steps|
  {
    steps != [] && (Resyncs(s, steps[0]) || ResyncsSomewhere(Next(s, steps[0], maxTombstones), steps[1..], maxTombstones))
  }

  /** A client that keeps up is never told to start over. */
  lemma {:induction false} KeepingUpIsEnough(s: System, steps: seq<Step>, maxTombstones: nat)
    requires Inv(s, maxTombstones) && EnabledRun(s, steps, maxTombstones) && KeepsUpThroughout(s, steps, maxTombstones)
    ensures !ResyncsSomewhere(s, steps, maxTombstones)
    decreases |steps|
  {
    hide Inv, Next, Enabled, KeepsUp, Resyncs;
    if steps != [] {
      ResyncsIff(s, steps[0], maxTombstones);
      StepKeepsInv(s, steps[0], maxTombstones);
      KeepingUpIsEnough(Next(s, steps[0], maxTombstones), steps[1..], maxTombstones);
    }
  }

  // ------------------------------------------------------ a quiet library

  function Pages(s: System, limit: nat, n: nat): System
    requires limit >= 1
    decreases n
  {
    if n == 0 then s else Pages(AskForPage(s, limit), limit, n - 1)
  }

  /** How far a client is from asking the question whose answer is the library:
      0 while it reads up to the head, 1 when it is about to, more before that. */
  function Distance(s: System): nat {
    var answerable := Answerable(s.log, NextRequest(s.client));
    match s.client.phase
    case Idle => if answerable then 1 else 2
    case Reading(at) => if answerable && at.until == s.log.generation then 0 else 3
  }

  ghost predicate AtHead(s: System) {
    && s.log.epoch.Some?
    && s.client.phase.Idle?
    && s.client.cursor == Some(Cursor(s.log.epoch.value, s.log.generation))
    && s.client.copy == LiveCopy(s.log.known)
  }

  lemma PageBringsNearer(s: System, limit: nat, maxTombstones: nat)
    requires Inv(s, maxTombstones) && s.log.epoch.Some? && limit >= 1
    ensures var t := AskForPage(s, limit);
      AtHead(t) || Distance(t) < Distance(s) || (Distance(t) == Distance(s) && Left(t) < Left(s))
  {
    hide ReadPage, ServedKeys, ServedPaths, Remaining, UpToDate, LiveCopy, Ready, WellPlaced,
      LowerOf, Live, Dead, ToChanges, Apply, TotalOf, LogInv, AtOrAfter, ClientInv;
    var from := NextRequest(s.client);
    var t := AskForPage(s, limit);
    ReadPageByCases(s.log, from, limit);
    if Answerable(s.log, from) {
      PageProgress(s.client, s.log, limit, maxTombstones);
      if from.Resume? {
        RemainingIsServed(s.log, from.at);
      }
      if t.client.phase.Idle? && UntilOf(from, s.log.generation) == s.log.generation {
        FloorIsBelowHead(s, maxTombstones);
        UpToDateAtHeadIsTheLibrary(t.client.copy, t.log, maxTombstones);
      }
    }
  }

  lemma PageKeepsInv(s: System, limit: nat, maxTombstones: nat)
    requires Inv(s, maxTombstones) && limit >= 1
    ensures Inv(AskForPage(s, limit), maxTombstones) && AskForPage(s, limit).log == s.log
  {
    StepKeepsInv(s, Page(limit), maxTombstones);
  }

  lemma FloorIsBelowHead(s: System, maxTombstones: nat)
    requires Inv(s, maxTombstones)
    ensures s.log.floor <= s.log.generation
  {
  }

  /** Once the library is quiet, a client that keeps asking ends with exactly the library. */
  lemma {:induction false} QuietLibraryIsReached(s: System, limit: nat, maxTombstones: nat) returns (n: nat)
    requires Inv(s, maxTombstones) && s.log.epoch.Some? && limit >= 1
    ensures AtHead(Pages(s, limit, n))
    decreases Distance(s), Left(s)
  {
    hide Inv, AtHead, Distance, Left, AskForPage;
    var t := AskForPage(s, limit);
    PageKeepsInv(s, limit, maxTombstones);
    PageBringsNearer(s, limit, maxTombstones);
    if AtHead(t) {
      assert Pages(t, limit, 0) == t;
      return 1;
    }
    var m := QuietLibraryIsReached(t, limit, maxTombstones);
    return m + 1;
  }

  /** A client that has the library keeps it however often it asks: the answer
      is an empty page, and it stays where it is. */
  lemma AtHeadStays(s: System, limit: nat, maxTombstones: nat)
    requires LogInv(s.log, maxTombstones) && AtHead(s) && limit >= 1
    ensures ReadPage(s.log, NextRequest(s.client), limit) ==
      Some(Changes(Cursor(s.log.epoch.value, s.log.generation), 0, [], None))
    ensures AtHead(AskForPage(s, limit)) && AskForPage(s, limit).client.copy == s.client.copy
  {
    hide LiveCopy, ReadPage, KeyLess;
    var from := NextRequest(s.client);
    ReadIsAnsweredIff(s.log, from, limit);
    PageIsTheWanted(s.log, from, limit, maxTombstones);
    assert WantedPaths(s.log, from) == {};
    assert Apply(s.client.copy, []) == s.client.copy;
  }

  /** A client inside a read, or about to start one, whose window ends at the head
      and whose counts add up. */
  ghost predicate ReadsToHead(s: System) {
    && Answerable(s.log, NextRequest(s.client))
    && UntilOf(NextRequest(s.client), s.log.generation) == s.log.generation
    && (s.client.phase.Reading? ==> s.client.served + Left(s) == s.client.total)
  }

  lemma QuietPage(s: System, limit: nat, maxTombstones: nat)
    requires Inv(s, maxTombstones) && limit >= 1 && ReadsToHead(s)
    ensures var t := AskForPage(s, limit);
      if t.client.phase.Reading? then ReadsToHead(t) else AtHead(t) && t.client.served == t.client.total
  {
    hide ReadPage, ServedKeys, ServedPaths, Remaining, UpToDate, LiveCopy, Ready, WellPlaced,
      LowerOf, Live, Dead, ToChanges, Apply, TotalOf, AtOrAfter, LogInv, ClientInv;
    var from := NextRequest(s.client);
    var t := AskForPage(s, limit);
    RequestFitsTotal(s.client, s.log, maxTombstones);
    PageProgress(s.client, s.log, limit, maxTombstones);
    if s.client.phase.Reading? {
      TotalTravels(s.client, s.log);
    }
    FloorIsBelowHead(s, maxTombstones);
    if from.Resume? {
      RemainingIsServed(s.log, from.at);
    }
    if t.client.phase.Idle? {
      UpToDateAtHeadIsTheLibrary(t.client.copy, t.log, maxTombstones);
    }
  }

  lemma TotalTravels(c: Client, log: Log)
    requires ClientInv(c, log) && c.phase.Reading?
    ensures TotalOf(log, NextRequest(c)) == c.total
  {
  }

  /** A read nothing is filed during serves exactly its total, and ends with
      exactly the library. */
  lemma {:induction false} QuietReadIsExact(s: System, limit: nat, n: nat, maxTombstones: nat)
    requires Inv(s, maxTombstones) && limit >= 1 && n >= 1 && ReadsToHead(s)
    requires forall m :: 1 <= m < n ==> Pages(s, limit, m).client.phase.Reading?
    ensures var t := Pages(s, limit, n);
      t.client.phase.Idle? ==> AtHead(t) && t.client.served == t.client.total
    decreases n
  {
    hide Inv, AtHead, ReadsToHead, AskForPage;
    var t := AskForPage(s, limit);
    PageKeepsInv(s, limit, maxTombstones);
    QuietPage(s, limit, maxTombstones);
    assert Pages(s, limit, 1) == Pages(t, limit, 0) == t;
    if n > 1 {
      assert t.client.phase.Reading?;
      forall m | 1 <= m < n - 1 ensures Pages(t, limit, m).client.phase.Reading? {
        assert Pages(s, limit, m + 1) == Pages(t, limit, m);
      }
      QuietReadIsExact(t, limit, n - 1, maxTombstones);
    }
  }
}
