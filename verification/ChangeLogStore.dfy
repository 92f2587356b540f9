/** The library change log as it is stored: two tables, and counters kept beside
    them, all updated in place. */
module ChangeLogStore {
  import opened Order
  import opened LibraryChanges

  function SaturatingSub(a: nat, b: nat): nat {
    if a < b then 0 else a - b
  }

  /** The two tables say the same: one row of the log per path, under its latest generation. */
  ghost predicate Inverse(log: map<Key, bool>, known: Known) {
    && (forall p :: p in known ==> KeyOf(known, p) in log && log[KeyOf(known, p)] == known[p].live)
    && (forall k :: k in log ==> k.path in known && known[k.path].generation == k.generation)
  }

  /** The log's rows among `paths`, in order, are what a walk that keeps them sees. */
  lemma InverseRows(log: map<Key, bool>, known: Known, paths: set<string>)
    requires Inverse(log, known) && paths <= known.Keys
    ensures forall k :: k in KeysOf(known, paths) <==> k in log && k.path in paths
  {
    forall k ensures k in KeysOf(known, paths) <==> k in log && k.path in paths {
      KeysOfMembers(known, paths, k);
    }
  }

  predicate IsDead(known: Known, path: string) {
    path in known && !known[path].live
  }

  function LogWithout(log: map<Key, bool>, known: Known, path: string): map<Key, bool> {
    if path in known then log - {KeyOf(known, path)} else log
  }

  /** Refiling one path moves one row of the log. */
  lemma FilingKeepsTables(log: map<Key, bool>, known: Known, path: string, f: Filing)
    requires Inverse(log, known)
    ensures Inverse(LogWithout(log, known, path)[Key(f.generation, path) := f.live], known[path := f])
  {
  }

  lemma FilingKeepsCounts(known: Known, path: string, f: Filing)
    ensures |Live(known[path := f])| ==
      |Live(known)| + (if f.live then 1 else 0) - (if IsLive(known, path) then 1 else 0)
    ensures |Dead(known[path := f])| ==
      |Dead(known)| + (if f.live then 0 else 1) - (if IsDead(known, path) then 1 else 0)
  {
    assert Live(known[path := f]) == if f.live then Live(known) + {path} else Live(known) - {path};
    assert Dead(known[path := f]) == if f.live then Dead(known) - {path} else Dead(known) + {path};
  }

  lemma CountsCannotSaturate(known: Known, path: string)
    ensures IsLive(known, path) ==> |Live(known)| >= 1
    ensures IsDead(known, path) ==> |Dead(known)| >= 1
  {
    assert IsLive(known, path) ==> path in Live(known);
    assert IsDead(known, path) ==> path in Dead(known);
  }

  ghost predicate Between(s: seq<string>, n: nat, x: string) {
    n <= |s| && (n > 0 ==> Less(s[n - 1], x)) && (n < |s| ==> Less(x, s[n]))
  }

  lemma BetweenIsAbsent(s: seq<string>, n: nat, x: string)
    requires AscendingPaths(s) && Between(s, n, x)
    ensures x !in s
  {
    LessIrreflexive(x);
    forall i | 0 <= i < |s| ensures s[i] != x {
      if i < n - 1 {
        LessTransitive(s[i], s[n - 1], x);
      } else if i > n {
        LessTransitive(x, s[n], s[i]);
      }
    }
  }

  lemma AppendAscending(taken: seq<string>, from: seq<string>, at: nat)
    requires AscendingPaths(from) && at < |from| && AscendingPaths(taken)
    requires Elements(taken) <= Elements(from[..at])
    ensures AscendingPaths(taken + [from[at]])
  {
    forall i | 0 <= i < |taken| ensures Less(taken[i], from[at]) {
      assert taken[i] in Elements(taken);
    }
  }

  lemma ElementsOfAppend<T>(s: seq<T>, x: T)
    ensures Elements(s + [x]) == Elements(s) + {x}
  {
  }

  lemma TakeMore<T>(s: seq<T>, i: nat)
    requires i < |s|
    ensures Elements(s[..i + 1]) == Elements(s[..i]) + {s[i]}
  {
    assert s[..i + 1] == s[..i] + [s[i]];
  }

  /** Where the merge stands: `listed[..at]` and `rows[..row]` are the paths
      below everything not yet reached on either side, and their differences
      have been taken. */
  ghost predicate Merged(known: Known, listed: seq<string>, at: nat, row: nat, rows: seq<string>,
                         added: seq<string>, removed: seq<string>) {
    && AscendingPaths(listed) && AscendingPaths(rows) && Elements(rows) == known.Keys
    && at <= |listed| && row <= |rows|
    && (at > 0 && row < |rows| ==> Less(listed[at - 1], rows[row]))
    && (row > 0 && at < |listed| ==> Less(rows[row - 1], listed[at]))
    && AscendingPaths(added) && Elements(added) == Elements(listed[..at]) - Live(known)
    && AscendingPaths(removed) && Elements(removed) == Elements(rows[..row]) * Live(known) - Elements(listed)
  }

  /** A listed path below the next row is not in the log. */
  lemma MergeListed(known: Known, listed: seq<string>, at: nat, row: nat, rows: seq<string>,
                    added: seq<string>, removed: seq<string>)
    requires Merged(known, listed, at, row, rows, added, removed)
    requires at < |listed| && (row < |rows| ==> Less(listed[at], rows[row]))
    ensures Merged(known, listed, at + 1, row, rows, added + [listed[at]], removed)
  {
    hide Less;
    BetweenIsAbsent(rows, row, listed[at]);
    assert listed[at] !in Elements(rows);
    TakeMore(listed, at);
    ElementsOfAppend(added, listed[at]);
    AppendAscending(added, listed, at);
    if row > 0 && at + 1 < |listed| {
      LessTransitive(rows[row - 1], listed[at], listed[at + 1]);
    }
  }

  /** A path on both sides is added only when the log has it as a tombstone. */
  lemma MergeMatched(known: Known, listed: seq<string>, at: nat, row: nat, rows: seq<string>,
                     added: seq<string>, removed: seq<string>)
    requires Merged(known, listed, at, row, rows, added, removed)
    requires at < |listed| && row < |rows| && listed[at] == rows[row]
    ensures Merged(known, listed, at + 1, row + 1, rows,
                   if known[rows[row]].live then added else added + [rows[row]], removed)
  {
    hide Less;
    TakeMore(listed, at);
    TakeMore(rows, row);
    ElementsOfAppend(added, listed[at]);
    AppendAscending(added, listed, at);
    assert listed[at] in Elements(listed);
  }

  /** A row the list has no path for is removed if it was live. */
  lemma MergeUnlisted(known: Known, listed: seq<string>, at: nat, row: nat, rows: seq<string>,
                      added: seq<string>, removed: seq<string>)
    requires Merged(known, listed, at, row, rows, added, removed)
    requires row < |rows|
    requires at < |listed| ==> !Less(listed[at], rows[row]) && listed[at] != rows[row]
    ensures Merged(known, listed, at, row + 1, rows, added,
                   if known[rows[row]].live then removed + [rows[row]] else removed)
  {
    hide Less;
    if at < |listed| {
      LessTotal(listed[at], rows[row]);
    }
    BetweenIsAbsent(listed, at, rows[row]);
    assert rows[row] !in Elements(listed);
    TakeMore(rows, row);
    ElementsOfAppend(removed, rows[row]);
    AppendAscending(removed, rows, row);
    if at > 0 && row + 1 < |rows| {
      LessTransitive(listed[at - 1], rows[row], rows[row + 1]);
    }
  }

  lemma SortedPathsAre(s: seq<string>, paths: set<string>)
    requires AscendingPaths(s) && Elements(s) == paths
    ensures s == SortedPaths(paths)
  {
    hide Less;
    AscendingPathsUnique(s, SortedPaths(paths));
  }

  lemma MergeStarts(known: Known, paths: seq<string>)
    ensures Merged(known, SortedPaths(Elements(paths)), 0, 0, SortedPaths(known.Keys), [], [])
  {
    hide Less;
    assert Elements(SortedPaths(known.Keys)) == known.Keys;
  }

  lemma ListingIs(known: Known, paths: seq<string>)
    ensures Elements(SortedPaths(Elements(paths))) - Live(known) == Added(known, Some(paths))
    ensures Live(known) - Elements(SortedPaths(Elements(paths))) == Removed(known, Some(paths))
  {
    hide Less;
    assert Elements(SortedPaths(Elements(paths))) == Elements(paths);
  }

  lemma MergeEnds(known: Known, listed: seq<string>, rows: seq<string>, added: seq<string>, removed: seq<string>)
    requires Merged(known, listed, |listed|, |rows|, rows, added, removed)
    ensures AscendingPaths(added) && AscendingPaths(removed)
    ensures Elements(added) == Elements(listed) - Live(known)
    ensures Elements(removed) == Live(known) - Elements(listed)
  {
    hide Less;
    assert listed[..|listed|] == listed && rows[..|rows|] == rows;
  }

  /** Listed and not live, live and not listed: one walk over two ascending
      sequences, computing both set differences in path order. */
  method Diff(known: Known, paths: seq<string>) returns (added: seq<string>, removed: seq<string>)
    ensures added == SortedPaths(Added(known, Some(paths)))
    ensures removed == SortedPaths(Removed(known, Some(paths)))
  {
    hide *;
    var listed := SortedPaths(Elements(paths));
    var rows := SortedPaths(known.Keys);
    added, removed := [], [];
    var at := 0;
    MergeStarts(known, paths);
    for row := 0 to |rows|
      invariant Merged(known, listed, at, row, rows, added, removed)
      invariant at <= |listed|
    {
      var path := rows[row];
      while at < |listed| && Less(listed[at], path)
        invariant Merged(known, listed, at, row, rows, added, removed)
        invariant at <= |listed|
      {
        MergeListed(known, listed, at, row, rows, added, removed);
        added := added + [listed[at]];
        at := at + 1;
      }
      if at < |listed| && listed[at] == path {
        MergeMatched(known, listed, at, row, rows, added, removed);
        at := at + 1;
        if !known[path].live {
          added := added + [path];
        }
      } else {
        MergeUnlisted(known, listed, at, row, rows, added, removed);
        if known[path].live {
          removed := removed + [path];
        }
      }
    }
    while at < |listed|
      invariant Merged(known, listed, at, |rows|, rows, added, removed)
      invariant at <= |listed|
    {
      MergeListed(known, listed, at, |rows|, rows, added, removed);
      added := added + [listed[at]];
      at := at + 1;
    }
    MergeEnds(known, listed, rows, added, removed);
    ListingIs(known, paths);
    SortedPathsAre(added, Added(known, Some(paths)));
    SortedPathsAre(removed, Removed(known, Some(paths)));
  }

  // What Record's steps amount to on values.

  lemma RecordByCases(s: Log, paths: Option<seq<string>>, updated: seq<string>, drawn: nat, maxTombstones: nat)
    requires LogInv(s, maxTombstones)
    ensures var t := RecordLog(s, paths, updated, drawn, maxTombstones);
      var epoch := if s.epoch.None? then Some(drawn) else s.epoch;
      var filed := Filed(s, paths, updated);
      var oldest := OldestTombstones(filed, Excess(filed, maxTombstones));
      && (s.epoch.None? && paths.None? ==> t == s && RecordResult(s, paths, updated) == None)
      && ((s.epoch.Some? || paths.Some?) && Moved(s.known, paths, updated) == {} ==>
            t == s.(epoch := epoch) && RecordResult(s, paths, updated) == None)
      && ((s.epoch.Some? || paths.Some?) && Moved(s.known, paths, updated) != {} ==>
            && RecordResult(s, paths, updated) == Some(s.generation + 1)
            && t == Log(epoch, s.generation + 1,
                        if NewestOf(oldest).Some? then NewestOf(oldest).value else s.floor, Forget(filed, oldest)))
  {
    FiledIs(s, paths, updated);
    hide FileAll, Filed, Moved, Forget, OldestTombstones, Excess, Live, Dead, LogInv;
  }

  lemma FiledIs(s: Log, paths: Option<seq<string>>, updated: seq<string>)
    ensures Filed(s, paths, updated) ==
            FileAll(s.known, Moved(s.known, paths, updated), Removed(s.known, paths), s.generation + 1)
  {
  }

  function NewestOf(keys: seq<Key>): Option<nat> {
    if keys == [] then None else Some(keys[|keys| - 1].generation)
  }

  lemma AddedAndRemoved(known: Known, paths: Option<seq<string>>, added: seq<string>, removed: seq<string>)
    requires if paths.Some? then added == SortedPaths(Added(known, paths)) && removed == SortedPaths(Removed(known, paths))
             else added == [] && removed == []
    ensures Elements(added) == Added(known, paths) && Elements(removed) == Removed(known, paths)
    ensures Elements(added) !! Live(known)
  {
    hide Less, Sorted, KeyLess;
  }

  lemma MovedPaths(known: Known, paths: Option<seq<string>>, updated: seq<string>,
                   added: seq<string>, removed: seq<string>, edited: seq<string>)
    requires Elements(added) == Added(known, paths) && Elements(removed) == Removed(known, paths)
    requires Elements(edited) == Edited(known, updated)
    ensures Moved(known, paths, updated) == Elements(added + edited) + Elements(removed)
    ensures Moved(known, paths, updated) == {} <==> added == [] && removed == [] && edited == []
  {
    hide Live, Listed, Added, Removed, Edited;
    assert Elements(added + edited) == Elements(added) + Elements(edited);
    EmptyElements(added);
    EmptyElements(removed);
    EmptyElements(edited);
  }

  lemma EmptyElements<T>(s: seq<T>)
    ensures Elements(s) == {} <==> s == []
  {
    assert s != [] ==> s[0] in Elements(s);
  }

  lemma ExcessIs(known: Known, maxTombstones: nat)
    ensures |Dead(known)| > maxTombstones ==> Excess(known, maxTombstones) == |Dead(known)| - maxTombstones
    ensures |Dead(known)| <= maxTombstones ==>
      OldestTombstones(known, Excess(known, maxTombstones)) == [] && Forget(known, []) == known
  {
  }

  lemma FilingStarts(known: Known, live: seq<string>, gone: seq<string>, next: nat)
    ensures known == FileAll(known, Elements(live[..0]), {}, next)
  {
  }

  lemma FilingTurns(known: Known, live: seq<string>, gone: seq<string>, next: nat)
    ensures live[..|live|] == live
    ensures Elements(live) + Elements(gone[..0]) == Elements(live) && Elements(gone[..0]) == {}
  {
  }

  lemma FilingStep(known: Known, paths: seq<string>, i: nat, before: set<string>, gone: set<string>, live: bool, next: nat)
    requires i < |paths|
    requires live ==> before == {} && gone == {}
    requires !live ==> gone == Elements(paths[..i])
    ensures FileAll(known, before + Elements(paths[..i]), gone, next)[paths[i] := Filing(next, live)] ==
            FileAll(known, before + Elements(paths[..i + 1]), if live then {} else Elements(paths[..i + 1]), next)
    ensures before == {} ==> before + Elements(paths[..i]) == Elements(paths[..i])
    ensures before == {} ==> before + Elements(paths[..i + 1]) == Elements(paths[..i + 1])
  {
    TakeMore(paths, i);
  }

  lemma ForgettingStarts(known: Known, count: nat)
    ensures Forget(known, OldestTombstones(known, count)[..0]) == known
  {
  }

  lemma ForgettingStep(log: map<Key, bool>, known: Known, oldest: seq<Key>, i: nat)
    requires i < |oldest|
    requires Inverse(log, Forget(known, oldest[..i]))
    requires forall k :: k in oldest ==> k.path in known && k == KeyOf(known, k.path)
    ensures Forget(known, oldest[..i]) - {oldest[i].path} == Forget(known, oldest[..i + 1])
    ensures Inverse(log - {oldest[i]}, Forget(known, oldest[..i + 1]))
  {
    var k := oldest[i];
    assert k in oldest;
    assert oldest[..i + 1] == oldest[..i] + [k];
    var now, after := Forget(known, oldest[..i]), Forget(known, oldest[..i + 1]);
    assert now - {k.path} == after;
  }

  // Walking the log in order and keeping what is wanted.

  predicate Wanted(log: map<Key, bool>, k: Key, live: bool, dead: bool) {
    k in log && if log[k] then live else dead
  }

  ghost predicate Walked(log: map<Key, bool>, rows: seq<Key>, i: nat, taken: seq<Key>, live: bool, dead: bool) {
    && i <= |rows| && Ascending(rows) && Ascending(taken)
    && forall k :: k in taken <==> k in rows[..i] && Wanted(log, k, live, dead)
  }

  lemma WalkStep(log: map<Key, bool>, rows: seq<Key>, i: nat, taken: seq<Key>, live: bool, dead: bool)
    requires Walked(log, rows, i, taken, live, dead) && i < |rows|
    ensures Walked(log, rows, i + 1, if Wanted(log, rows[i], live, dead) then taken + [rows[i]] else taken, live, dead)
  {
    hide KeyLess;
    assert rows[..i + 1] == rows[..i] + [rows[i]];
    forall j | 0 <= j < |taken| ensures KeyLess(taken[j], rows[i]) {
      assert taken[j] in taken;
    }
  }

  /** What has been kept is a prefix of all that is wanted, and is all of it
      exactly when no wanted row is left. */
  lemma WalkIsAPrefix(log: map<Key, bool>, rows: seq<Key>, i: nat, taken: seq<Key>, live: bool, dead: bool, all: seq<Key>)
    requires Walked(log, rows, i, taken, live, dead) && Ascending(all)
    requires forall k :: k in all <==> k in rows && Wanted(log, k, live, dead)
    ensures |taken| <= |all| && taken == all[..|taken|]
    ensures i == |rows| ==> taken == all
    ensures i < |rows| && Wanted(log, rows[i], live, dead) ==> |taken| < |all|
  {
    hide KeyLess;
    if i == |rows| {
      assert rows[..i] == rows;
      AscendingIsUnique(taken, all);
      return;
    }
    var n := |all|;
    while n > 0 && all[n - 1] !in rows[..i]
      invariant 0 <= n <= |all|
      invariant forall j :: n <= j < |all| ==> all[j] !in rows[..i]
    {
      n := n - 1;
    }
    forall j | 0 <= j < n ensures all[j] in rows[..i] {
      if j < n - 1 {
        assert all[j] in all;
        var a :| 0 <= a < |rows| && rows[a] == all[j];
        var b :| 0 <= b < i && rows[b] == all[n - 1];
        if a > b {
          KeyLessAsymmetric(rows[b], rows[a]);
        }
      }
    }
    MembersOfPrefix(taken, all, n, rows[..i]);
    AscendingIsUnique(taken, all[..n]);
    if Wanted(log, rows[i], live, dead) {
      assert rows[i] in all;
      KeyLessIrreflexive(rows[i]);
    }
  }

  lemma MembersOfPrefix(taken: seq<Key>, all: seq<Key>, n: nat, reached: seq<Key>)
    requires n <= |all|
    requires forall j :: 0 <= j < n ==> all[j] in reached
    requires forall j :: n <= j < |all| ==> all[j] !in reached
    requires forall k :: k in taken <==> k in reached && k in all
    ensures forall k :: k in taken <==> k in all[..n]
  {
  }

  /** The `count` oldest tombstones, collected by walking the log in order. */
  method CollectOldest(log: map<Key, bool>, ghost known: Known, count: nat) returns (oldest: seq<Key>)
    requires Inverse(log, known) && count >= 1
    ensures oldest == OldestTombstones(known, count)
  {
    hide *;
    var rows := Sorted(log.Keys);
    oldest := [];
    var i := 0;
    WalkStarts(log, rows, false, true);
    while i < |rows| && |oldest| < count
      invariant i <= |rows| && |oldest| <= count
      invariant Walked(log, rows, i, oldest, false, true)
    {
      WalkStep(log, rows, i, oldest, false, true);
      if Wanted(log, rows[i], false, true) {
        oldest := oldest + [rows[i]];
      }
      i := i + 1;
    }
    TombstonesCollected(log, known, rows, i, oldest, count);
  }

  lemma WalkStarts(log: map<Key, bool>, rows: seq<Key>, live: bool, dead: bool)
    requires Ascending(rows)
    ensures Walked(log, rows, 0, [], live, dead)
  {
  }

  lemma TombstonesCollected(log: map<Key, bool>, known: Known, rows: seq<Key>, i: nat, oldest: seq<Key>, count: nat)
    requires Inverse(log, known) && rows == Sorted(log.Keys)
    requires Walked(log, rows, i, oldest, false, true)
    requires |oldest| <= count && (i == |rows| || |oldest| == count)
    ensures oldest == OldestTombstones(known, count)
  {
    hide KeyLess;
    InverseRows(log, known, Dead(known));
    var all := Sorted(KeysOf(known, Dead(known)));
    forall k ensures k in all <==> k in rows && Wanted(log, k, false, true) {
    }
    WalkIsAPrefix(log, rows, i, oldest, false, true, all);
  }

  /** The keys of the change log between two bounds, in order. */
  method Range(log: map<Key, bool>, ghost known: Known, lower: Bound, until: nat) returns (rows: seq<Key>)
    requires Inverse(log, known)
    ensures rows == Sorted(KeysOf(known, RangePaths(known, lower, until)))
    ensures |rows| == |RangePaths(known, lower, until)|
  {
    var keys := set k | k in log && AtOrAfter(lower, k) && KeyLess(k, Key(until + 1, ""));
    InverseRows(log, known, RangePaths(known, lower, until));
    assert keys == KeysOf(known, RangePaths(known, lower, until));
    KeysOfCount(known, RangePaths(known, lower, until));
    rows := Sorted(keys);
  }

  /** One page out of a range: deletes are skipped in a full read, and the page
      is full once a further change is met. */
  method TakeChanges(log: map<Key, bool>, ghost s: Log, from: ReadFrom, rows: seq<Key>, limit: nat)
    returns (changes: seq<Change>, more: bool)
    requires Inverse(log, s.known) && limit >= 1
    requires rows == Sorted(KeysOf(s.known, RangePaths(s.known, LowerOf(from), UntilOf(from, s.generation))))
    ensures var keys := ServedKeys(s, from);
      && more == (|keys| > limit)
      && changes == ToChanges(s.known, if more then keys[..limit] else keys)
  {
    hide *;
    var full := SinceOf(from).None?;
    changes, more := [], false;
    ghost var taken: seq<Key> := [];
    var i := 0;
    WalkStarts(log, rows, true, !full);
    WantedRows(log, s, from, rows);
    while i < |rows|
      invariant i <= |rows| && |changes| == |taken| <= limit
      invariant Walked(log, rows, i, taken, true, !full)
      invariant forall j :: 0 <= j < |taken| ==> changes[j] == Change(taken[j], LiveIn(log, taken[j]))
      invariant !more
    {
      WalkStep(log, rows, i, taken, true, !full);
      if Wanted(log, rows[i], true, !full) {
        if |changes| >= limit {
          more := true;
          break;
        }
        changes := changes + [Change(rows[i], LiveIn(log, rows[i]))];
        taken := taken + [rows[i]];
      }
      i := i + 1;
    }
    WalkIsAPrefix(log, rows, i, taken, true, !full, ServedKeys(s, from));
    assert !more ==> i == |rows|;
    SameChanges(log, s, from, taken, changes);
  }

  function LiveIn(log: map<Key, bool>, k: Key): bool {
    k in log && log[k]
  }

  lemma WantedRows(log: map<Key, bool>, s: Log, from: ReadFrom, rows: seq<Key>)
    requires Inverse(log, s.known)
    requires rows == Sorted(KeysOf(s.known, RangePaths(s.known, LowerOf(from), UntilOf(from, s.generation))))
    ensures Ascending(ServedKeys(s, from))
    ensures forall k :: k in ServedKeys(s, from) <==> k in rows && Wanted(log, k, true, SinceOf(from).Some?)
  {
    hide KeyLess, AtOrAfter;
    InverseRows(log, s.known, RangePaths(s.known, LowerOf(from), UntilOf(from, s.generation)));
    InverseRows(log, s.known, ServedPaths(s.known, from, s.generation));
  }

  lemma SameChanges(log: map<Key, bool>, s: Log, from: ReadFrom, taken: seq<Key>, changes: seq<Change>)
    requires Inverse(log, s.known) && |changes| == |taken| <= |ServedKeys(s, from)|
    requires taken == ServedKeys(s, from)[..|taken|]
    requires forall j :: 0 <= j < |taken| ==> changes[j] == Change(taken[j], LiveIn(log, taken[j]))
    ensures changes == ToChanges(s.known, taken)
    ensures |taken| == |ServedKeys(s, from)| ==> taken == ServedKeys(s, from)
  {
    hide KeyLess, AtOrAfter, KeysOf, ServedPaths;
    assert forall j :: 0 <= j < |taken| ==> taken[j] in ServedKeys(s, from);
  }

  class ChangeLog {
    const maxTombstones: nat

    /** Path -> the latest change filed for it. */
    var known: Known
    /** The inverse of `known`: each row under its generation and path. */
    var log: map<Key, bool>
    var epoch: Option<nat>
    var generation: nat
    var floor: nat
    var tombstones: nat
    var inLibrary: nat

    ghost function State(): Log
      reads this
    {
      Log(epoch, generation, floor, known)
    }

    /** The tables are exact inverses and the counters are true counts. */
    ghost predicate TablesAgree()
      reads this
    {
      Inverse(log, known) && tombstones == |Dead(known)| && inLibrary == |Live(known)|
    }

    ghost predicate Valid()
      reads this
    {
      TablesAgree() && LogInv(State(), maxTombstones)
    }

    constructor (maxTombstones: nat)
      ensures Valid() && State() == EMPTY_LOG && this.maxTombstones == maxTombstones
    {
      this.maxTombstones := maxTombstones;
      known, log, epoch := map[], map[], None;
      generation, floor, tombstones, inLibrary := 0, 0, 0, 0;
    }

    /** Files one index pass; `drawn` is the epoch a first listing starts. */
    method Record(paths: Option<seq<string>>, updated: seq<string>, drawn: nat) returns (filed: Option<nat>)
      requires Valid()
      modifies this
      ensures Valid()
      ensures State() == RecordLog(old(State()), paths, updated, drawn, maxTombstones)
      ensures filed == RecordResult(old(State()), paths, updated)
    {
      hide Inverse, Live, Dead, LogInv, Forget, FileAll, Filed, Moved, Listed, Added, Removed, Edited, OldestTombstones,
        SortedPaths, RecordLog, RecordResult, Excess, Less, Elements;
      ghost var s := State();
      RecordKeepsInv(s, paths, updated, drawn, maxTombstones);
      RecordByCases(s, paths, updated, drawn, maxTombstones);
      var starts := epoch.None?;
      if starts && paths.None? {
        return None;
      }
      if starts {
        epoch := Some(drawn);
      }
      var added, removed := [], [];
      if paths.Some? {
        added, removed := Diff(known, paths.value);
      }
      AddedAndRemoved(known, paths, added, removed);
      var edited := EditedOf(updated, added);
      MovedPaths(known, paths, updated, added, removed, edited);
      if added == [] && removed == [] && edited == [] {
        return None;
      }
      var next := generation + 1;
      FileMoved(added + edited, removed, next);
      FiledIs(s, paths, updated);
      ExcessIs(known, maxTombstones);
      if tombstones > maxTombstones {
        var dropped := ForgetOldest(tombstones - maxTombstones);
        if dropped.Some? {
          floor := dropped.value;
        }
      }
      generation := next;
      assert TablesAgree();
      assert State() == RecordLog(s, paths, updated, drawn, maxTombstones);
      return Some(next);
    }

    /** Of `updated`, what is live and was not added in this pass. */
    method EditedOf(updated: seq<string>, added: seq<string>) returns (edited: seq<string>)
      requires Elements(added) !! Live(known)
      ensures AscendingPaths(edited) && Elements(edited) == Edited(known, updated)
    {
      hide Less, Sorted;
      var held: set<string> := {};
      for i := 0 to |updated|
        invariant held == Edited(known, updated[..i])
      {
        var path := updated[i];
        assert updated[..i + 1] == updated[..i] + [path];
        if IsLive(known, path) && path !in added {
          held := held + {path};
        }
      }
      assert updated[..|updated|] == updated;
      edited := SortedPaths(held);
      assert Elements(edited) == held;
    }

    /** Files every path of `live` as in the library, then every path of `gone`
        as a tombstone, under `next`. */
    method FileMoved(live: seq<string>, gone: seq<string>, next: nat)
      requires TablesAgree()
      modifies this`known, this`log, this`tombstones, this`inLibrary
      ensures TablesAgree()
      ensures known == FileAll(old(known), Elements(live) + Elements(gone), Elements(gone), next)
    {
      hide *;
      FilingStarts(known, live, gone, next);
      for i := 0 to |live|
        invariant TablesAgree()
        invariant known == FileAll(old(known), Elements(live[..i]), {}, next)
      {
        FilingStep(old(known), live, i, {}, {}, true, next);
        FileOne(live[i], true, next);
      }
      FilingTurns(old(known), live, gone, next);
      for i := 0 to |gone|
        invariant TablesAgree()
        invariant known == FileAll(old(known), Elements(live) + Elements(gone[..i]), Elements(gone[..i]), next)
      {
        FilingStep(old(known), gone, i, Elements(live), Elements(gone[..i]), false, next);
        FileOne(gone[i], false, next);
      }
      FilingTurns(old(known), gone, gone, next);
    }

    method FileOne(path: string, live: bool, next: nat)
      requires TablesAgree()
      modifies this`known, this`log, this`tombstones, this`inLibrary
      ensures TablesAgree()
      ensures known == old(known)[path := Filing(next, live)]
    {
      hide Inverse, Live, Dead;
      FilingKeepsTables(log, known, path, Filing(next, live));
      FilingKeepsCounts(known, path, Filing(next, live));
      CountsCannotSaturate(known, path);
      var wasLive := IsLive(known, path);
      var dead, held := tombstones, inLibrary;
      if path in known && !wasLive {
        dead := SaturatingSub(dead, 1);
      }
      if !wasLive && live {
        held := held + 1;
      } else if wasLive && !live {
        held := SaturatingSub(held, 1);
      }
      if !live {
        dead := dead + 1;
      }
      log := LogWithout(log, known, path)[Key(next, path) := live];
      known := known[path := Filing(next, live)];
      tombstones, inLibrary := dead, held;
    }

    /** Drops the `count` oldest tombstones; the newest generation dropped. */
    method ForgetOldest(count: nat) returns (newest: Option<nat>)
      requires TablesAgree() && count >= 1 && tombstones >= count
      modifies this`known, this`log, this`tombstones
      ensures TablesAgree()
      ensures known == Forget(old(known), OldestTombstones(old(known), count))
      ensures tombstones == old(tombstones) - count
      ensures newest == NewestOf(OldestTombstones(old(known), count))
    {
      hide Inverse, Live, Dead, Forget, OldestTombstones;
      var oldest := CollectOldest(log, known, count);
      ForgettingCounts(known, count);
      OldestTombstonesAreOldest(known, count);
      ForgettingStarts(known, count);
      for i := 0 to |oldest|
        invariant Inverse(log, known)
        invariant known == Forget(old(known), oldest[..i])
        invariant tombstones == old(tombstones)
      {
        ForgettingStep(log, old(known), oldest, i);
        log := log - {oldest[i]};
        known := known - {oldest[i].path};
      }
      assert oldest[..|oldest|] == oldest;
      tombstones := tombstones - count;
      newest := if oldest == [] then None else Some(oldest[|oldest| - 1].generation);
    }

    /** Computes `ReadPage` of the state from the tables and counters. */
    method Read(from: ReadFrom, limit: nat) returns (page: Option<ChangePage>)
      requires Valid() && limit >= 1
      ensures page == ReadPage(State(), from, limit)
    {
      hide Inverse, Live, Dead, LogInv, RangePaths, ServedPaths, ServedKeys, ToChanges, ReadPage, Sorted, KeysOf;
      ReadPageByCases(State(), from, limit);
      if epoch.None? {
        return None;
      }
      var head := Cursor(epoch.value, generation);
      var since := SinceOf(from);
      var until := if from.Resume? then from.at.until else generation;
      var foreign := match from
        case Start => false
        case Since(c) => c.epoch != epoch.value
        case Resume(c) => c.epoch != epoch.value || c.until > generation;
      var unanswerable := since.Some? && (since.value < floor || since.value > generation);
      if foreign || unanswerable {
        return Some(Resync(head));
      }
      var rows := Range(log, known, LowerOf(from), until);
      var total := match from
        case Start => inLibrary
        case Since(_) => |rows|
        case Resume(c) => c.total;
      var changes, more := TakeChanges(log, State(), from, rows, limit);
      var next := None;
      if more {
        next := Some(Continuation(epoch.value, since, until, total, changes[|changes| - 1].key));
      }
      return Some(Changes(Cursor(epoch.value, until), total, changes, next));
    }

    /** Back to the empty log. */
    method Reset()
      modifies this
      ensures Valid() && State() == EMPTY_LOG
    {
      known, log := map[], map[];
      epoch := None;
      generation, floor, tombstones, inLibrary := 0, 0, 0, 0;
    }
  }
}
