/** The library change log as a value: what one pass files, what one page of a
    read serves. The class in ChangeLogStore.dfy is proved to compute exactly this. */
module LibraryChanges {
  import opened Order

  /** The latest change of a path, and whether it left the path in the library. */
  datatype Filing = Filing(generation: nat, live: bool)

  type Known = map<string, Filing>

  /** `epoch` is absent until a listing starts one; the change log and the
      counters stored beside it are determined by `known`. */
  datatype Log = Log(epoch: Option<nat>, generation: nat, floor: nat, known: Known)

  const EMPTY_LOG := Log(None, 0, 0, map[])

  function KeyOf(known: Known, path: string): Key
    requires path in known
  {
    Key(known[path].generation, path)
  }

  function Live(known: Known): set<string> {
    set p | p in known && known[p].live
  }

  function Dead(known: Known): set<string> {
    set p | p in known && !known[p].live
  }

  function KeysOf(known: Known, paths: set<string>): set<Key>
    requires paths <= known.Keys
  {
    set p | p in paths :: KeyOf(known, p)
  }

  lemma {:induction false} KeysOfCount(known: Known, paths: set<string>)
    requires paths <= known.Keys
    ensures |KeysOf(known, paths)| == |paths|
  {
    if paths != {} {
      var p :| p in paths;
      KeysOfCount(known, paths - {p});
      assert KeysOf(known, paths) == KeysOf(known, paths - {p}) + {KeyOf(known, p)};
    }
  }

  // ---------------------------------------------------------------- filing

  function Listed(known: Known, paths: Option<seq<string>>): set<string> {
    if paths.Some? then Elements(paths.value) else Live(known)
  }

  function Added(known: Known, paths: Option<seq<string>>): set<string> {
    Listed(known, paths) - Live(known)
  }

  function Removed(known: Known, paths: Option<seq<string>>): set<string> {
    Live(known) - Listed(known, paths)
  }

  function Edited(known: Known, updated: seq<string>): set<string> {
    Elements(updated) * Live(known)
  }

  function Moved(known: Known, paths: Option<seq<string>>, updated: seq<string>): set<string> {
    Added(known, paths) + Edited(known, updated) + Removed(known, paths)
  }

  /** Every path of `moved` filed under `next`, those of `gone` as tombstones. */
  function FileAll(known: Known, moved: set<string>, gone: set<string>, next: nat): Known {
    map p | p in known.Keys + moved :: if p in moved then Filing(next, p !in gone) else known[p]
  }

  function OldestTombstones(known: Known, count: nat): (r: seq<Key>)
    ensures |r| <= count
  {
    var all := Sorted(KeysOf(known, Dead(known)));
    if |all| <= count then all else all[..count]
  }

  function Forget(known: Known, keys: seq<Key>): Known {
    map p | p in known && KeyOf(known, p) !in keys :: known[p]
  }

  function Excess(known: Known, maxTombstones: nat): nat {
    if |Dead(known)| > maxTombstones then |Dead(known)| - maxTombstones else 0
  }

  /** The log after one index pass; `drawn` is the epoch taken if this pass starts one. */
  function RecordLog(s: Log, paths: Option<seq<string>>, updated: seq<string>, drawn: nat, maxTombstones: nat): Log {
    if s.epoch.None? && paths.None? then s else
      var epoch := if s.epoch.None? then Some(drawn) else s.epoch;
      var moved := Moved(s.known, paths, updated);
      if moved == {} then s.(epoch := epoch) else
        var filed := FileAll(s.known, moved, Removed(s.known, paths), s.generation + 1);
        var oldest := OldestTombstones(filed, Excess(filed, maxTombstones));
        Log(epoch, s.generation + 1,
            if oldest == [] then s.floor else oldest[|oldest| - 1].generation,
            Forget(filed, oldest))
  }

  /** The answer of a pass: its generation if it moved a path. */
  function RecordResult(s: Log, paths: Option<seq<string>>, updated: seq<string>): Option<nat> {
    if (s.epoch.None? && paths.None?) || Moved(s.known, paths, updated) == {} then None
    else Some(s.generation + 1)
  }

  /** What every reachable log keeps. */
  ghost predicate LogInv(s: Log, maxTombstones: nat) {
    && (s.epoch.None? ==> s == EMPTY_LOG)
    && s.floor <= s.generation
    && (forall p :: p in s.known ==> 1 <= s.known[p].generation <= s.generation)
    && (forall p :: p in s.known && !s.known[p].live ==> s.floor <= s.known[p].generation)
    && |Dead(s.known)| <= maxTombstones
  }

  lemma KeysOfMembers(known: Known, paths: set<string>, k: Key)
    requires paths <= known.Keys
    ensures k in KeysOf(known, paths) <==> k.path in paths && k == KeyOf(known, k.path)
  {
  }

  /** The oldest tombstones are dead, none is newer than the last of them, and
      that one is no newer than any tombstone kept. */
  lemma OldestTombstonesAreOldest(known: Known, count: nat)
    ensures var oldest := OldestTombstones(known, count);
      && (forall k :: k in oldest ==> k.path in known && k == KeyOf(known, k.path) && !known[k.path].live)
      && (forall k :: k in oldest ==> k.generation <= oldest[|oldest| - 1].generation)
      && (oldest != [] ==> forall p :: p in known && !known[p].live && KeyOf(known, p) !in oldest ==>
            oldest[|oldest| - 1].generation <= known[p].generation)
  {
    var keys := KeysOf(known, Dead(known));
    var all := Sorted(keys);
    var oldest := OldestTombstones(known, count);
    assert oldest == all[..|oldest|];
    forall k | k in oldest
      ensures k.path in known && k == KeyOf(known, k.path) && !known[k.path].live
      ensures k.generation <= oldest[|oldest| - 1].generation
    {
      KeysOfMembers(known, Dead(known), k);
      var i :| 0 <= i < |oldest| && oldest[i] == k;
      assert i < |oldest| - 1 ==> KeyLess(all[i], all[|oldest| - 1]);
    }
    forall p | oldest != [] && p in known && !known[p].live && KeyOf(known, p) !in oldest
      ensures oldest[|oldest| - 1].generation <= known[p].generation
    {
      KeysOfMembers(known, Dead(known), KeyOf(known, p));
      var i :| 0 <= i < |all| && all[i] == KeyOf(known, p);
      assert all[i] !in all[..|oldest|];
      assert KeyLess(all[|oldest| - 1], all[i]);
    }
  }

  function PathSet(keys: seq<Key>): set<string> {
    set k | k in keys :: k.path
  }

  lemma OldestCount(known: Known, keys: seq<Key>)
    requires Ascending(keys)
    requires forall k :: k in keys ==> k.path in known && k == KeyOf(known, k.path)
    ensures |PathSet(keys)| == |keys|
  {
    var paths := PathSet(keys);
    forall k ensures k in keys <==> k in KeysOf(known, paths) {
      KeysOfMembers(known, paths, k);
    }
    AscendingIsUnique(keys, Sorted(KeysOf(known, paths)));
    KeysOfCount(known, paths);
  }

  /** Forgetting the oldest tombstones leaves no more than asked and no live path fewer. */
  lemma ForgettingCounts(known: Known, count: nat)
    ensures var oldest := OldestTombstones(known, count);
      && Live(Forget(known, oldest)) == Live(known)
      && |oldest| + |Dead(Forget(known, oldest))| == |Dead(known)|
      && (|Dead(known)| >= count ==> |oldest| == count)
  {
    var oldest := OldestTombstones(known, count);
    OldestTombstonesAreOldest(known, count);
    KeysOfCount(known, Dead(known));
    OldestCount(known, oldest);
    var paths := PathSet(oldest);
    ForgettingSets(known, oldest);
    assert |Dead(known) - paths| == |Dead(known)| - |paths|;
  }

  lemma ForgettingSets(known: Known, keys: seq<Key>)
    requires forall k :: k in keys ==> k.path in known && k == KeyOf(known, k.path) && !known[k.path].live
    ensures Live(Forget(known, keys)) == Live(known)
    ensures Dead(Forget(known, keys)) == Dead(known) - PathSet(keys)
    ensures PathSet(keys) <= Dead(known)
  {
    forall p | p in known ensures KeyOf(known, p) in keys <==> p in PathSet(keys) {
    }
  }

  lemma FilingCounts(known: Known, moved: set<string>, gone: set<string>, next: nat)
    requires gone <= moved
    ensures Live(FileAll(known, moved, gone, next)) == Live(known) + moved - gone
    ensures Dead(FileAll(known, moved, gone, next)) == Dead(known) - moved + gone
  {
  }

  /** Forgetting the excess of a filed log: the tombstones left respect the
      bound and the new floor. */
  lemma ForgettingKeepsBounds(filed: Known, floor: nat, maxTombstones: nat)
    requires forall p :: p in filed && !filed[p].live ==> floor <= filed[p].generation
    ensures var oldest := OldestTombstones(filed, Excess(filed, maxTombstones));
      var left := Forget(filed, oldest);
      var floor' := if oldest == [] then floor else oldest[|oldest| - 1].generation;
      && |Dead(left)| <= maxTombstones
      && floor <= floor'
      && (oldest != [] ==> exists p :: p in filed && filed[p].generation == floor')
      && (forall p :: p in left && !left[p].live ==> floor' <= left[p].generation)
      && (forall p :: p in filed && p !in left ==> !filed[p].live && filed[p].generation <= floor')
  {
    var oldest := OldestTombstones(filed, Excess(filed, maxTombstones));
    OldestTombstonesAreOldest(filed, Excess(filed, maxTombstones));
    ForgettingCounts(filed, Excess(filed, maxTombstones));
    if oldest != [] {
      assert oldest[|oldest| - 1] in oldest;
    }
  }

  /** One pass keeps the invariant, never lowers the floor, and touches a filing
      only to file the path again or to forget it at or below the new floor. */
  lemma RecordKeepsInv(s: Log, paths: Option<seq<string>>, updated: seq<string>, drawn: nat, maxTombstones: nat)
    requires LogInv(s, maxTombstones)
    ensures LogInv(RecordLog(s, paths, updated, drawn, maxTombstones), maxTombstones)
    ensures LogGrows(s, RecordLog(s, paths, updated, drawn, maxTombstones))
  {
    hide OldestTombstones, Excess, Moved, Removed, Dead, Forget;
    if Moves(s, paths, updated) {
      var filed := Filed(s, paths, updated);
      ForgettingKeepsBounds(filed, s.floor, maxTombstones);
      ForgettingKeepsFilings(filed, OldestTombstones(filed, Excess(filed, maxTombstones)));
    }
  }

  lemma ForgettingKeepsFilings(filed: Known, oldest: seq<Key>)
    ensures forall p :: p in Forget(filed, oldest) ==> p in filed && Forget(filed, oldest)[p] == filed[p]
  {
  }

  ghost predicate Moves(s: Log, paths: Option<seq<string>>, updated: seq<string>) {
    (s.epoch.Some? || paths.Some?) && Moved(s.known, paths, updated) != {}
  }

  ghost function Filed(s: Log, paths: Option<seq<string>>, updated: seq<string>): Known {
    FileAll(s.known, Moved(s.known, paths, updated), Removed(s.known, paths), s.generation + 1)
  }

  /** How a pass may change a log that has an epoch. */
  ghost predicate LogGrows(s: Log, t: Log) {
    && s.floor <= t.floor
    && s.generation <= t.generation
    && (s.epoch.Some? ==> t.epoch == s.epoch)
    && (forall p :: p in t.known && t.known[p].generation <= s.generation ==>
          p in s.known && t.known[p] == s.known[p])
    && (forall p :: p in s.known && p !in t.known ==>
          (!s.known[p].live && s.known[p].generation <= t.floor) || s.generation < t.floor)
  }

  lemma MovingReachesTheListing(live: set<string>, listed: set<string>, edited: set<string>)
    requires edited <= live
    ensures live + ((listed - live) + edited + (live - listed)) - (live - listed) == listed
  {
  }

  /** A listing pass leaves exactly the listed paths live; a pass without one
      changes none of them. */
  lemma RecordFilesTheListing(s: Log, paths: Option<seq<string>>, updated: seq<string>, drawn: nat, maxTombstones: nat)
    requires LogInv(s, maxTombstones)
    ensures Live(RecordLog(s, paths, updated, drawn, maxTombstones).known) == Listed(s.known, paths)
  {
    var moved := Moved(s.known, paths, updated);
    if Moves(s, paths, updated) {
      var filed := Filed(s, paths, updated);
      FilingCounts(s.known, moved, Removed(s.known, paths), s.generation + 1);
      ForgettingCounts(filed, Excess(filed, maxTombstones));
      MovingReachesTheListing(Live(s.known), Listed(s.known, paths), Edited(s.known, updated));
    } else if moved == {} {
      assert Added(s.known, paths) == {} && Removed(s.known, paths) == {};
    }
  }

  predicate IsLive(known: Known, p: string) {
    p in known && known[p].live
  }

  /** The path is in the library as the pass lists it; a pass without a listing
      leaves that as it was. */
  ghost predicate IsListed(known: Known, paths: Option<seq<string>>, p: string) {
    if paths.Some? then p in paths.value else IsLive(known, p)
  }

  /** The path joined the library, left it, or was edited in it. */
  ghost predicate HasMoved(known: Known, paths: Option<seq<string>>, updated: seq<string>, p: string) {
    || (IsListed(known, paths, p) && !IsLive(known, p))
    || (!IsListed(known, paths, p) && IsLive(known, p))
    || (IsLive(known, p) && p in updated)
  }

  /** Where the path is filed by a pass, before anything is forgotten. */
  ghost function FiledAt(s: Log, paths: Option<seq<string>>, updated: seq<string>, p: string): nat
    requires p in s.known || HasMoved(s.known, paths, updated, p)
  {
    if HasMoved(s.known, paths, updated, p) then s.generation + 1 else s.known[p].generation
  }

  lemma MovedMeans(known: Known, paths: Option<seq<string>>, updated: seq<string>, p: string)
    ensures p in Moved(known, paths, updated) <==> HasMoved(known, paths, updated, p)
    ensures p in Removed(known, paths) <==> IsLive(known, p) && !IsListed(known, paths, p)
  {
  }

  /** Whatever a pass leaves filed carries the new generation exactly when it
      moved, live exactly when it is listed, and is as it was otherwise; every
      listed path is filed. */
  lemma RecordMovesExactly(s: Log, paths: Option<seq<string>>, updated: seq<string>, drawn: nat, maxTombstones: nat)
    requires LogInv(s, maxTombstones) && (s.epoch.Some? || paths.Some?)
    ensures var t := RecordLog(s, paths, updated, drawn, maxTombstones);
      && (forall p :: p in t.known ==>
            && (t.known[p].generation > s.generation <==> HasMoved(s.known, paths, updated, p))
            && if HasMoved(s.known, paths, updated, p)
               then t.known[p] == Filing(s.generation + 1, IsListed(s.known, paths, p))
               else p in s.known && t.known[p] == s.known[p])
      && (forall p :: IsListed(s.known, paths, p) ==> p in t.known)
  {
    hide Moved, Removed, HasMoved, Excess;
    forall p ensures p in Moved(s.known, paths, updated) <==> HasMoved(s.known, paths, updated, p)
      ensures p in Removed(s.known, paths) <==> IsLive(s.known, p) && !IsListed(s.known, paths, p)
    {
      MovedMeans(s.known, paths, updated, p);
    }
    RecordFilesTheListing(s, paths, updated, drawn, maxTombstones);
    ListedIsLive(s, paths, RecordLog(s, paths, updated, drawn, maxTombstones).known);
  }

  lemma ListedIsLive(s: Log, paths: Option<seq<string>>, known: Known)
    requires Live(known) == Listed(s.known, paths)
    ensures forall p :: IsListed(s.known, paths, p) <==> IsLive(known, p)
  {
    forall p ensures IsListed(s.known, paths, p) <==> IsLive(known, p) {
      assert IsLive(known, p) <==> p in Live(known);
    }
  }

  /** What a pass does to the counters: the generation moves on exactly when a
      path moved, and an epoch is drawn exactly when there was none. */
  lemma RecordMovesOn(s: Log, paths: Option<seq<string>>, updated: seq<string>, drawn: nat, maxTombstones: nat)
    ensures var t := RecordLog(s, paths, updated, drawn, maxTombstones);
      if s.epoch.None? && paths.None? then t == s && RecordResult(s, paths, updated) == None
      else
        && t.epoch == (if s.epoch.None? then Some(drawn) else s.epoch)
        && (if exists p :: HasMoved(s.known, paths, updated, p)
            then t.generation == s.generation + 1 && RecordResult(s, paths, updated) == Some(t.generation)
            else t.generation == s.generation && t.known == s.known && t.floor == s.floor
                 && RecordResult(s, paths, updated) == None)
  {
    hide HasMoved, Moved;
    var moved := Moved(s.known, paths, updated);
    forall p ensures p in moved <==> HasMoved(s.known, paths, updated, p) {
      MovedMeans(s.known, paths, updated, p);
    }
    if moved != {} {
      var p :| p in moved;
      assert HasMoved(s.known, paths, updated, p);
    }
  }

  /** What forgetting the excess of a filed log takes, and the floor it leaves. */
  lemma ForgettingIsExact(filed: Known, floor: nat, maxTombstones: nat)
    ensures var oldest := OldestTombstones(filed, Excess(filed, maxTombstones));
      var left := Forget(filed, oldest);
      var floor' := if oldest == [] then floor else oldest[|oldest| - 1].generation;
      && (forall p :: p in filed && p !in left ==> !filed[p].live && filed[p].generation <= floor')
      && (oldest != [] ==> forall p :: p in left && !left[p].live ==> floor' <= left[p].generation)
      && (if filed.Keys <= left.Keys then floor' == floor
          else |Dead(left)| == maxTombstones && exists p :: p in filed && p !in left && filed[p].generation == floor')
  {
    var oldest := OldestTombstones(filed, Excess(filed, maxTombstones));
    OldestTombstonesAreOldest(filed, Excess(filed, maxTombstones));
    ForgettingCounts(filed, Excess(filed, maxTombstones));
    hide OldestTombstones;
    if oldest != [] {
      var last := oldest[|oldest| - 1];
      assert last in oldest;
      assert last.path in filed && last.path !in Forget(filed, oldest);
    } else {
      assert forall p :: p in filed ==> p in Forget(filed, []);
    }
  }

  /** A pass forgets tombstones only, the oldest ones, and no more than it must:
      exactly the bound is left, and the floor is the newest generation forgotten. */
  lemma RecordForgetsTheOldest(s: Log, paths: Option<seq<string>>, updated: seq<string>, drawn: nat, maxTombstones: nat)
    requires LogInv(s, maxTombstones) && (s.epoch.Some? || paths.Some?)
    ensures var t := RecordLog(s, paths, updated, drawn, maxTombstones);
      var forgotten := s.known.Keys - t.known.Keys;
      && (forall p :: p in forgotten ==> !IsListed(s.known, paths, p) && FiledAt(s, paths, updated, p) <= t.floor)
      && (forall p :: p in t.known && !t.known[p].live ==> t.floor <= t.known[p].generation)
      && (if forgotten == {} then t.floor == s.floor
          else |Dead(t.known)| == maxTombstones && exists p :: p in forgotten && FiledAt(s, paths, updated, p) == t.floor)
  {
    RecordKeepsInv(s, paths, updated, drawn, maxTombstones);
    hide RecordLog, FiledAt, Dead, Moves, Filed, Forget, OldestTombstones, Excess, IsListed, LogGrows;
    if Moves(s, paths, updated) {
      var filed := Filed(s, paths, updated);
      FiledMeans(s, paths, updated);
      ForgettingIsExact(filed, s.floor, maxTombstones);
      ForgettingKeepsFilings(filed, OldestTombstones(filed, Excess(filed, maxTombstones)));
      RecordsFiled(s, paths, updated, drawn, maxTombstones);
      var forgotten := s.known.Keys - RecordLog(s, paths, updated, drawn, maxTombstones).known.Keys;
      assert forall p :: p in forgotten <==> p in filed && p !in RecordLog(s, paths, updated, drawn, maxTombstones).known;
    } else {
      NothingIsFiled(s, paths, updated, drawn, maxTombstones);
    }
  }

  lemma NothingIsFiled(s: Log, paths: Option<seq<string>>, updated: seq<string>, drawn: nat, maxTombstones: nat)
    requires !Moves(s, paths, updated)
    ensures var t := RecordLog(s, paths, updated, drawn, maxTombstones);
      t.known == s.known && t.floor == s.floor
  {
  }

  lemma RecordsFiled(s: Log, paths: Option<seq<string>>, updated: seq<string>, drawn: nat, maxTombstones: nat)
    requires Moves(s, paths, updated)
    ensures var t := RecordLog(s, paths, updated, drawn, maxTombstones);
      var filed := Filed(s, paths, updated);
      var oldest := OldestTombstones(filed, Excess(filed, maxTombstones));
      t.known == Forget(filed, oldest) && t.floor == if oldest == [] then s.floor else oldest[|oldest| - 1].generation
  {
    hide OldestTombstones, Excess, FileAll;
  }

  lemma FiledMeans(s: Log, paths: Option<seq<string>>, updated: seq<string>)
    ensures var filed := Filed(s, paths, updated);
      && (forall p :: p in filed <==> p in s.known || IsListed(s.known, paths, p))
      && (forall p :: p in filed ==> filed[p].generation == FiledAt(s, paths, updated, p))
      && (forall p :: p in filed && !filed[p].live ==> !IsListed(s.known, paths, p))
  {
    hide Moved, Removed;
    var filed := Filed(s, paths, updated);
    forall p
      ensures p in filed <==> p in s.known || IsListed(s.known, paths, p)
      ensures p in filed ==> filed[p].generation == FiledAt(s, paths, updated, p)
      ensures p in filed && !filed[p].live ==> !IsListed(s.known, paths, p)
    {
      MovedMeans(s.known, paths, updated, p);
    }
  }

  /** A pass answers no generation exactly when the library already matched the
      listing and none of the updated paths is in it. */
  lemma RecordResultIsMovement(s: Log, paths: Option<seq<string>>, updated: seq<string>, maxTombstones: nat)
    requires LogInv(s, maxTombstones)
    ensures RecordResult(s, paths, updated).None? <==>
      (paths.Some? ==> Elements(paths.value) == Live(s.known)) && (forall p :: p in updated ==> p !in Live(s.known))
  {
    var moved := Moved(s.known, paths, updated);
    assert moved == {} <==> Added(s.known, paths) == {} && Removed(s.known, paths) == {} && Edited(s.known, updated) == {};
    assert Edited(s.known, updated) == {} <==> forall p :: p in updated ==> p !in Live(s.known) by {
      forall p | p in updated && p in Live(s.known) ensures p in Edited(s.known, updated) {
      }
    }
    assert Added(s.known, paths) == {} && Removed(s.known, paths) == {} <==> Listed(s.known, paths) == Live(s.known);
  }

  // --------------------------------------------------------------- reading

  datatype Cursor = Cursor(epoch: nat, generation: nat)

  /** Where a read has got to: its window, the total its first page counted and
      the last key served. */
  datatype Continuation = Continuation(epoch: nat, since: Option<nat>, until: nat, total: nat, last: Key)

  datatype ReadFrom = Start | Since(cursor: Cursor) | Resume(at: Continuation)

  datatype Change = Change(key: Key, live: bool)

  datatype ChangePage =
    | Resync(head: Cursor)
    | Changes(head: Cursor, total: nat, changes: seq<Change>, next: Option<Continuation>)

  datatype Bound = Included(key: Key) | Excluded(key: Key)

  predicate AtOrAfter(lower: Bound, k: Key) {
    match lower
    case Included(b) => !KeyLess(k, b)
    case Excluded(b) => KeyLess(b, k)
  }

  function SinceOf(from: ReadFrom): Option<nat> {
    match from
    case Start => None
    case Since(c) => Some(c.generation)
    case Resume(c) => c.since
  }

  function UntilOf(from: ReadFrom, generation: nat): nat {
    if from.Resume? then from.at.until else generation
  }

  function LowerOf(from: ReadFrom): Bound {
    match from
    case Start => Included(Key(0, ""))
    case Since(c) => Included(Key(c.generation + 1, ""))
    case Resume(c) => Excluded(c.last)
  }

  predicate Answerable(s: Log, from: ReadFrom) {
    s.epoch.Some?
    && (from.Since? ==> from.cursor.epoch == s.epoch.value)
    && (from.Resume? ==> from.at.epoch == s.epoch.value && from.at.until <= s.generation)
    && (SinceOf(from).Some? ==> s.floor <= SinceOf(from).value <= s.generation)
  }

  /** The paths whose key lies in the range a read walks. */
  function RangePaths(known: Known, lower: Bound, until: nat): set<string> {
    set p | p in known && AtOrAfter(lower, KeyOf(known, p)) && KeyLess(KeyOf(known, p), Key(until + 1, ""))
  }

  /** The paths of the range the read serves: a full read leaves deletes out. */
  function ServedPaths(known: Known, from: ReadFrom, generation: nat): set<string> {
    set p | p in RangePaths(known, LowerOf(from), UntilOf(from, generation)) && (known[p].live || SinceOf(from).Some?)
  }

  function ToChanges(known: Known, keys: seq<Key>): (r: seq<Change>)
    requires forall k :: k in keys ==> k.path in known
    ensures |r| == |keys|
    ensures forall i :: 0 <= i < |r| ==> r[i] == Change(keys[i], known[keys[i].path].live)
  {
    seq(|keys|, i requires 0 <= i < |keys| => assert keys[i] in keys; Change(keys[i], known[keys[i].path].live))
  }

  function ServedKeys(s: Log, from: ReadFrom): (r: seq<Key>)
    ensures forall k :: k in r ==> k.path in s.known && k == KeyOf(s.known, k.path)
  {
    var r := Sorted(KeysOf(s.known, ServedPaths(s.known, from, s.generation)));
    r
  }

  function TotalOf(s: Log, from: ReadFrom): nat {
    match from
    case Start => |Live(s.known)|
    case Since(_) => |RangePaths(s.known, LowerOf(from), s.generation)|
    case Resume(c) => c.total
  }

  /** One page: the first `limit` changes of the read, and where it goes on if
      there are more. */
  function ReadPage(s: Log, from: ReadFrom, limit: nat): Option<ChangePage>
    requires limit >= 1
  {
    if s.epoch.None? then None
    else if !Answerable(s, from) then Some(Resync(Cursor(s.epoch.value, s.generation)))
    else
      var keys := ServedKeys(s, from);
      var page := if |keys| <= limit then keys else keys[..limit];
      var until := UntilOf(from, s.generation);
      Some(Changes(Cursor(s.epoch.value, until), TotalOf(s, from), ToChanges(s.known, page),
                   if |keys| <= limit then None
                   else Some(Continuation(s.epoch.value, SinceOf(from), until, TotalOf(s, from), page[limit - 1]))))
  }

  /** The range a read walks is its window: after `since` (or after the last
      change served) and up to `until`. */
  lemma RangeIsTheWindow(known: Known, from: ReadFrom, generation: nat)
    ensures forall p :: p in known ==>
      (p in RangePaths(known, LowerOf(from), UntilOf(from, generation)) <==>
        && known[p].generation <= UntilOf(from, generation)
        && (match from
            case Start => true
            case Since(c) => c.generation < known[p].generation
            case Resume(c) => KeyLess(c.last, KeyOf(known, p))))
  {
  }

  /** When a request is answered with changes, whoever asks: a full read always,
      a read since a cursor while the log still is what the cursor was taken from
      and has forgotten nothing after it, and a resumed read likewise. */
  lemma ReadIsAnsweredIff(s: Log, from: ReadFrom, limit: nat)
    requires limit >= 1
    ensures s.epoch.None? <==> ReadPage(s, from, limit) == None
    ensures s.epoch.Some? ==>
      ((ReadPage(s, from, limit).value.Changes? <==>
          match from
          case Start => true
          case Since(c) => c.epoch == s.epoch.value && s.floor <= c.generation <= s.generation
          case Resume(at) =>
            && at.epoch == s.epoch.value && at.until <= s.generation
            && (at.since.None? || s.floor <= at.since.value <= s.generation)))
    ensures s.epoch.Some? && !ReadPage(s, from, limit).value.Changes? ==>
      ReadPage(s, from, limit).value == Resync(Cursor(s.epoch.value, s.generation))
  {
    hide ServedKeys, ToChanges;
  }

  lemma ReadPageByCases(s: Log, from: ReadFrom, limit: nat)
    requires limit >= 1
    ensures s.epoch.None? ==> ReadPage(s, from, limit) == None
    ensures s.epoch.Some? && !Answerable(s, from) ==>
      ReadPage(s, from, limit) == Some(Resync(Cursor(s.epoch.value, s.generation)))
    ensures Answerable(s, from) ==>
      var keys := ServedKeys(s, from);
      var more := |keys| > limit;
      var changes := ToChanges(s.known, if more then keys[..limit] else keys);
      var until := UntilOf(from, s.generation);
      && (more ==> |changes| == limit && changes[limit - 1].key == keys[limit - 1])
      && ReadPage(s, from, limit) ==
        Some(Changes(Cursor(s.epoch.value, until), TotalOf(s, from), changes,
                     if more then Some(Continuation(s.epoch.value, SinceOf(from), until, TotalOf(s, from), keys[limit - 1]))
                     else None))
  {
    hide RangePaths, ServedPaths, Sorted, KeysOf;
  }
}
