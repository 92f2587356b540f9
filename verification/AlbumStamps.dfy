/** Runs of the cache against a host whose albums change, and what reconciling
    keeps true of the cached rows over them.

    The host gives every album a stamp that never goes back while the library
    stays the same one, and equal fingerprints mean equal listings. A listing may
    be out of date by the time it is reconciled with, and a row by the time it is
    put. */
module AlbumStamps {
  import opened Order
  import opened Reconcile
  import opened Text
  import CachedTags

  /** `stamps` is each album's stamp now and `present` the albums the host lists;
      `listed` is the listing the store was last reconciled with. */
  datatype World = World(store: Store, stamps: Stamps, present: set<string>, listed: Stamps)

  datatype Event =
    | HostMoves(stamps: Stamps, present: set<string>)
    | SwitchLibrary(stamps: Stamps, present: set<string>)
    | Put(rows: seq<(string, Row)>)
    | Drop(paths: seq<string>)
    | Index(paths: seq<string>)
    | Clear
    | Restart
    | Reconcile(albums: seq<(string, int)>, fingerprint: nat)

  function Listing(w: World): Stamps {
    map a | a in w.present && a in w.stamps :: w.stamps[a]
  }

  predicate NeverBack(was: Stamps, now: Stamps) {
    forall a :: a in was ==> a in now && was[a] <= now[a]
  }

  /** The row was read at some stamp its album has had. */
  predicate ReadFromHost(w: World, r: Row) {
    Album(r) in w.stamps && r.readAt <= w.stamps[Album(r)]
  }

  /** The row was read no earlier than the listing last reconciled with. */
  predicate Timely(w: World, r: Row) {
    Album(r) in w.listed ==> w.listed[Album(r)] <= r.readAt
  }

  predicate Enabled(w: World, e: Event) {
    match e
    case HostMoves(stamps, present) => NeverBack(w.stamps, stamps)
    case SwitchLibrary(_, _) => true
    case Put(rows) => forall p :: p in Table(rows) ==> ReadFromHost(w, Table(rows)[p])
    case Drop(_) => true
    case Index(_) => true
    case Clear => true
    case Restart => true
    case Reconcile(albums, fingerprint) =>
      w.store.fingerprint == Some(fingerprint) ==> StampsOf(albums) == w.listed
  }

  function Next(w: World, e: Event): World {
    match e
    case HostMoves(stamps, present) => w.(stamps := stamps, present := present)
    case SwitchLibrary(stamps, present) => w.(store := Invalidated(w.store), stamps := stamps, present := present)
    case Put(rows) => w.(store := RowsPut(w.store, rows))
    case Drop(paths) => w.(store := RowsDropped(w.store, paths))
    case Index(paths) => w.(store := IndexReplaced(w.store, paths))
    case Clear => w.(store := Cleared(w.store))
    case Restart => w.(store := w.store.(validated := false))
    case Reconcile(albums, fingerprint) =>
      w.(store := Reconciled(w.store, albums, fingerprint), listed := StampsOf(albums))
  }

  /** Every cached row came from the host; the stored stamps are those of the
      last listing, or none. */
  ghost predicate Inv(w: World) {
    && (forall p :: p in w.store.rows ==> ReadFromHost(w, w.store.rows[p]))
    && (w.store.stamps == map[] || w.store.stamps == w.listed)
  }

  /** No cached row is older than the listing the store was reconciled with. */
  ghost predicate NoneIsLate(w: World) {
    forall p :: p in w.store.rows ==> Timely(w, w.store.rows[p])
  }

  /** Each cached row of a listed album was read at that album's present stamp. */
  ghost predicate RowsAreCurrent(w: World) {
    forall p :: p in w.store.rows && Album(w.store.rows[p]) in Listing(w) ==>
      w.store.rows[p].readAt == Listing(w)[Album(w.store.rows[p])]
  }

  /** Which rows a reconcile leaves, whatever else it does to the store. */
  lemma ReconcileLeaves(s: Store, albums: seq<(string, int)>, fingerprint: nat)
    ensures var rows := Reconciled(s, albums, fingerprint).rows;
      rows == if !Moved(s, fingerprint) then s.rows
              else if Restaled(s) || s.stamps == map[] then map[]
              else s.rows - RowsOfAlbums(s.rows, Stale(s.stamps, StampsOf(albums)))
    ensures var stamps := Reconciled(s, albums, fingerprint).stamps;
      stamps == if !Moved(s, fingerprint) && s.stamps != map[] then s.stamps else StampsOf(albums)
  {
    hide StampsOf, RowsOfAlbums, Stale, IsNavList;
  }

  /** Whether a reconcile with this listing drops the album's rows. */
  predicate Drops(s: Store, albums: seq<(string, int)>, fingerprint: nat, album: string) {
    Moved(s, fingerprint) && (Restaled(s) || s.stamps == map[] || album in Stale(s.stamps, StampsOf(albums)))
  }

  lemma DropsExactly(s: Store, albums: seq<(string, int)>, fingerprint: nat, path: string)
    ensures var rows := Reconciled(s, albums, fingerprint).rows;
      && (path in rows <==> path in s.rows && !Drops(s, albums, fingerprint, Album(s.rows[path])))
      && (path in rows ==> rows[path] == s.rows[path])
  {
    ReconcileLeaves(s, albums, fingerprint);
    hide StampsOf, Reconciled, Album, Stale, Moved;
  }

  /** A reconcile leaves no row older than its listing exactly when it drops
      every such row there was; late rows of unlisted albums do not matter. */
  lemma ReconcileIsSoundIff(w: World, albums: seq<(string, int)>, fingerprint: nat)
    requires Inv(w) && Enabled(w, Reconcile(albums, fingerprint))
    ensures NoneIsLate(Next(w, Reconcile(albums, fingerprint))) <==>
      forall p :: p in w.store.rows && Album(w.store.rows[p]) in StampsOf(albums) && !Timely(w, w.store.rows[p]) ==>
        Drops(w.store, albums, fingerprint, Album(w.store.rows[p]))
  {
    var after := Next(w, Reconcile(albums, fingerprint));
    forall p | p in w.store.rows
      ensures p in after.store.rows <==> !Drops(w.store, albums, fingerprint, Album(w.store.rows[p]))
      ensures p in after.store.rows ==> after.store.rows[p] == w.store.rows[p]
      ensures p in after.store.rows && Album(w.store.rows[p]) in StampsOf(albums) ==>
        (Timely(after, w.store.rows[p]) <==> Timely(w, w.store.rows[p]))
    {
      DropsExactly(w.store, albums, fingerprint, p);
      if Album(w.store.rows[p]) in StampsOf(albums) {
        KeptStampIsListed(w, albums, fingerprint, Album(w.store.rows[p]));
      }
    }
    forall p | p in after.store.rows ensures p in w.store.rows {
      DropsExactly(w.store, albums, fingerprint, p);
    }
    hide Reconciled, StampsOf, Album, Drops;
  }

  /** An album whose rows are kept is listed as it was listed before, if at all. */
  lemma KeptStampIsListed(w: World, albums: seq<(string, int)>, fingerprint: nat, album: string)
    requires Inv(w) && Enabled(w, Reconcile(albums, fingerprint))
    requires album in StampsOf(albums)
    ensures Drops(w.store, albums, fingerprint, album) || (album in w.listed && w.listed[album] == StampsOf(albums)[album])
  {
    hide StampsOf;
  }

  /** While the host still lists what was reconciled with, rows that are not
      late were read at their album's present stamp. */
  lemma UnmovedHostMeansCurrent(w: World)
    requires Inv(w) && w.listed == Listing(w)
    ensures NoneIsLate(w) <==> RowsAreCurrent(w)
  {
    hide Album;
    forall p | p in w.store.rows && Album(w.store.rows[p]) in Listing(w)
      ensures Timely(w, w.store.rows[p]) <==> w.store.rows[p].readAt == Listing(w)[Album(w.store.rows[p])]
    {
      assert ReadFromHost(w, w.store.rows[p]);
    }
  }

  lemma StepKeepsInv(w: World, e: Event)
    requires Inv(w) && Enabled(w, e)
    ensures Inv(Next(w, e))
  {
    match e
    case Reconcile(albums, fingerprint) => ReconcileLeaves(w.store, albums, fingerprint);
    case _ =>
    hide Reconciled, StampsOf, Album, Table;
  }

  predicate EnabledRun(w: World, events: seq<Event>)
    decreases |events|
  {
    events == [] || (Enabled(w, events[0]) && EnabledRun(Next(w, events[0]), events[1..]))
  }

  function Run(w: World, events: seq<Event>): World
    decreases |events|
  {
    if events == [] then w else Run(Next(w, events[0]), events[1..])
  }

  function Initial(stamps: Stamps, present: set<string>): World {
    World(Store([], map[], map[], map[], map[], None, None, None, false), stamps, present, map[])
  }

  lemma {:induction false} RunKeepsInv(w: World, events: seq<Event>)
    requires Inv(w) && EnabledRun(w, events)
    ensures Inv(Run(w, events))
    decreases |events|
  {
    hide Inv, Enabled, Next;
    if events != [] {
      StepKeepsInv(w, events[0]);
      RunKeepsInv(Next(w, events[0]), events[1..]);
    }
  }

  /** After any run whatever, with rows put as late as may be and a listing as
      old as may be: reconciling leaves no row older than the listing exactly
      when it drops every late row of a listed album; and if the host still
      lists the same, exactly then is every row of a listed album current. */
  lemma ReconciledRunIsSoundIff(stamps: Stamps, present: set<string>, events: seq<Event>,
                                albums: seq<(string, int)>, fingerprint: nat)
    requires var w0 := Initial(stamps, present);
      EnabledRun(w0, events) && Enabled(Run(w0, events), Reconcile(albums, fingerprint))
    ensures var w := Run(Initial(stamps, present), events);
      var after := Next(w, Reconcile(albums, fingerprint));
      var allDropped := forall p :: p in w.store.rows && Album(w.store.rows[p]) in StampsOf(albums) && !Timely(w, w.store.rows[p]) ==>
        Drops(w.store, albums, fingerprint, Album(w.store.rows[p]));
      && (NoneIsLate(after) <==> allDropped)
      && (StampsOf(albums) == Listing(w) ==> (RowsAreCurrent(after) <==> allDropped))
  {
    hide EnabledRun, Run, StampsOf, Album, Drops, RowsAreCurrent, NoneIsLate, Timely;
    var w := Run(Initial(stamps, present), events);
    RunKeepsInv(Initial(stamps, present), events);
    ReconcileIsSoundIff(w, albums, fingerprint);
    StepKeepsInv(w, Reconcile(albums, fingerprint));
    if StampsOf(albums) == Listing(w) {
      UnmovedHostMeansCurrent(Next(w, Reconcile(albums, fingerprint)));
    }
  }

  /** Every put of the run is of rows read since the listing last reconciled with. */
  predicate TimelyRun(w: World, events: seq<Event>)
    decreases |events|
  {
    events == [] || (
      (events[0].Put? ==> forall p :: p in Table(events[0].rows) ==> Timely(w, Table(events[0].rows)[p]))
      && TimelyRun(Next(w, events[0]), events[1..]))
  }

  lemma TimelyStep(w: World, e: Event)
    requires Inv(w) && Enabled(w, e) && NoneIsLate(w)
    requires e.Put? ==> forall p :: p in Table(e.rows) ==> Timely(w, Table(e.rows)[p])
    ensures NoneIsLate(Next(w, e))
  {
    match e
    case Reconcile(albums, fingerprint) => ReconcileIsSoundIff(w, albums, fingerprint);
    case _ =>
    hide Reconciled, StampsOf, Album, Table, Drops;
  }

  lemma {:induction false} TimelyRunHasNoneLate(w: World, events: seq<Event>)
    requires Inv(w) && EnabledRun(w, events) && TimelyRun(w, events) && NoneIsLate(w)
    ensures NoneIsLate(Run(w, events))
    decreases |events|
  {
    hide Inv, Enabled, Next, NoneIsLate, Table, Timely;
    if events != [] {
      StepKeepsInv(w, events[0]);
      TimelyStep(w, events[0]);
      TimelyRunHasNoneLate(Next(w, events[0]), events[1..]);
    }
  }

  /** Over runs without late puts, reconciling with what the host lists leaves
      every row of a listed album read at its present stamp. */
  lemma ReconciledRowsAreCurrent(stamps: Stamps, present: set<string>, events: seq<Event>,
                                 albums: seq<(string, int)>, fingerprint: nat)
    requires var w0 := Initial(stamps, present);
      EnabledRun(w0, events) && TimelyRun(w0, events) && Enabled(Run(w0, events), Reconcile(albums, fingerprint))
    requires StampsOf(albums) == Listing(Run(Initial(stamps, present), events))
    ensures RowsAreCurrent(Next(Run(Initial(stamps, present), events), Reconcile(albums, fingerprint)))
  {
    hide EnabledRun, TimelyRun, Run, StampsOf, Album, Drops, RowsAreCurrent;
    TimelyRunHasNoneLate(Initial(stamps, present), events);
    ReconciledRunIsSoundIff(stamps, present, events, albums, fingerprint);
  }

  /** With stamps stored and the record's shape unchanged, exactly the rows of
      albums whose stamp did not move survive, unchanged. */
  lemma UnmovedRowsSurvive(w: World, albums: seq<(string, int)>, fingerprint: nat)
    requires Inv(w) && Enabled(w, Reconcile(albums, fingerprint))
    requires w.store.stamps != map[] && !Restaled(w.store)
    ensures var rows := Next(w, Reconcile(albums, fingerprint)).store.rows;
      && (forall p :: p in rows <==>
            p in w.store.rows && Album(w.store.rows[p]) !in Stale(w.store.stamps, StampsOf(albums)))
      && (forall p :: p in rows ==> rows[p] == w.store.rows[p])
  {
    ReconcileLeaves(w.store, albums, fingerprint);
    hide StampsOf, Reconciled, Album;
  }

  lemma RestampingTakesDerived(s: Store, albums: seq<(string, int)>, fingerprint: nat)
    ensures var t := Restamped(s, albums, fingerprint);
      (t.rows == s.rows && t.sorts == s.sorts) || (t.sorts == map[] && KEY_ALBUM_YEARS !in t.lists)
  {
    hide StampsOf, RowsOfAlbums, Stale;
  }

  // ------------------------------------------------- where a cached row is from

  /** The event puts this row at the path: the last of that path it puts, in a
      validated store. */
  ghost predicate PutsRow(w: World, e: Event, path: string, row: Row) {
    e.Put? && w.store.validated && exists i :: 0 <= i < |e.rows| && LastOf(e.rows, path, row, i)
  }

  ghost predicate LastOf(rows: seq<(string, Row)>, path: string, row: Row, i: nat)
    requires i < |rows|
  {
    rows[i] == (path, row) && forall j :: i < j < |rows| ==> rows[j].0 != path
  }

  /** The album's stamp in the listing is the stored one, or it has neither. */
  ghost predicate Unmoved(s: Store, listed: Stamps, album: string) {
    if album in s.stamps then album in listed && listed[album] == s.stamps[album] else album !in listed
  }

  /** The event leaves a row cached at the path as it is. */
  ghost predicate KeepsRow(w: World, e: Event, path: string) {
    match e
    case HostMoves(_, _) => true
    case SwitchLibrary(_, _) => false
    case Put(rows) => w.store.validated ==> forall i :: 0 <= i < |rows| ==> rows[i].0 != path
    case Drop(paths) => w.store.validated ==> path !in paths
    case Index(paths) => w.store.validated ==> path in paths
    case Clear => false
    case Restart => true
    case Reconcile(albums, fingerprint) =>
      && w.store.schema == Some(TAGS_SCHEMA_VERSION)
      && (w.store.fingerprint == Some(fingerprint)
          || (w.store.stamps != map[]
              && (path in w.store.rows ==> Unmoved(w.store, StampsOf(albums), Album(w.store.rows[path])))))
  }

  ghost predicate RowIs(w: World, path: string, row: Row) {
    path in w.store.rows && w.store.rows[path] == row
  }

  lemma {:induction false} TableIsTheLast(rows: seq<(string, Row)>, path: string, row: Row)
    ensures path in Table(rows) && Table(rows)[path] == row <==> exists i :: 0 <= i < |rows| && LastOf(rows, path, row, i)
    ensures path in Table(rows) <==> exists i :: 0 <= i < |rows| && rows[i].0 == path
  {
    if rows != [] {
      var n := |rows| - 1;
      TableIsTheLast(rows[..n], path, row);
      if rows[n].0 == path {
        assert Table(rows)[path] == rows[n].1;
        assert rows[n].1 == row ==> LastOf(rows, path, row, n);
      } else {
        forall i | 0 <= i < n ensures LastOf(rows, path, row, i) <==> LastOf(rows[..n], path, row, i) {
        }
        assert forall i :: 0 <= i < n ==> rows[..n][i] == rows[i];
      }
    }
  }

  /** One event: a row is there after it exactly if it was put or was left. */
  lemma RowAfterEvent(w: World, e: Event, path: string, row: Row)
    ensures RowIs(Next(w, e), path, row) <==> PutsRow(w, e, path, row) || (RowIs(w, path, row) && KeepsRow(w, e, path))
  {
    hide Table, Album, StampsOf, LastOf;
    match e
    case Put(rows) =>
      TableIsTheLast(rows, path, row);
      if w.store.validated && (exists i :: 0 <= i < |rows| && LastOf(rows, path, row, i)) {
        assert RowIs(Next(w, e), path, row);
      }
    case Reconcile(albums, fingerprint) =>
      DropsExactly(w.store, albums, fingerprint, path);
      hide Reconciled;
    case _ =>
  }

  /** The row was put by the `i`th event and left by every later one. */
  ghost predicate PutAndLeft(w: World, events: seq<Event>, path: string, row: Row, i: nat)
    requires i < |events|
  {
    PutsRow(Run(w, events[..i]), events[i], path, row)
    && forall j :: i < j < |events| ==> KeepsRow(Run(w, events[..j]), events[j], path)
  }

  lemma {:induction false} RunEndsWith(w: World, events: seq<Event>)
    requires events != []
    ensures Run(w, events) == Next(Run(w, events[..|events| - 1]), events[|events| - 1])
    decreases |events|
  {
    hide Next;
    if |events| > 1 {
      assert events[..|events| - 1][1..] == events[1..][..|events[1..]| - 1];
      RunEndsWith(Next(w, events[0]), events[1..]);
    }
  }

  /** After any run whatever, the row cached at a path is the one last put there,
      unless something has taken it since. */
  lemma {:induction false} RowIsTheLastPut(stamps: Stamps, present: set<string>, events: seq<Event>, path: string, row: Row)
    ensures RowIs(Run(Initial(stamps, present), events), path, row) <==>
      exists i :: 0 <= i < |events| && PutAndLeft(Initial(stamps, present), events, path, row, i)
    decreases |events|
  {
    hide Next, PutsRow, KeepsRow;
    var w0 := Initial(stamps, present);
    if events != [] {
      var n := |events| - 1;
      var before := events[..n];
      RowIsTheLastPut(stamps, present, before, path, row);
      RunEndsWith(w0, events);
      RowAfterEvent(Run(w0, before), events[n], path, row);
      forall j | 0 <= j < n ensures before[..j] == events[..j] && before[j] == events[j] {
      }
      forall i | 0 <= i < n
        ensures PutAndLeft(w0, events, path, row, i) <==>
          PutAndLeft(w0, before, path, row, i) && KeepsRow(Run(w0, before), events[n], path)
      {
        assert before[..i] == events[..i] && before[i] == events[i];
      }
      assert PutAndLeft(w0, events, path, row, n) <==> PutsRow(Run(w0, before), events[n], path, row);
    }
  }

  /** Dropping the rows of edited tracks: in a validated store exactly those go,
      so no late row is left exactly when every late one is named. */
  lemma DropIsSoundIff(w: World, paths: seq<string>)
    requires w.store.validated
    ensures var after := Next(w, Drop(paths)).store.rows;
      && (forall p :: p in paths ==> p !in after)
      && (forall p :: p !in paths ==> (p in after <==> p in w.store.rows) && (p in after ==> after[p] == w.store.rows[p]))
    ensures NoneIsLate(Next(w, Drop(paths))) <==>
      forall p :: p in w.store.rows && !Timely(w, w.store.rows[p]) ==> p in paths
  {
    hide Album;
    forall r: Row ensures Timely(Next(w, Drop(paths)), r) <==> Timely(w, r) {
    }
    hide Timely;
    var after := Next(w, Drop(paths));
    assert forall p :: p in w.store.rows && p !in paths ==> p in after.store.rows;
  }

  /** What an event other than a reconcile changes besides the rows. */
  lemma EventLeavesTheRest(w: World, e: Event)
    requires !e.Reconcile?
    ensures var (s, t) := (w.store, Next(w, e).store);
      && t.fingerprint == s.fingerprint && t.schema == s.schema && t.navVersion == s.navVersion
      && t.validated == (s.validated && !e.SwitchLibrary? && !e.Restart?)
      && t.index == (if e.SwitchLibrary? || e.Clear? then [] else if e.Index? && s.validated then e.paths else s.index)
      && (if e.SwitchLibrary? || e.Clear? then t.sorts == map[] && t.stamps == map[] && t.lists == map[]
          else t.sorts == s.sorts && t.stamps == s.stamps && t.lists == s.lists)
  {
  }

  lemma NavListsAre(key: string)
    ensures IsNavList(key) <==> "genre_artists:" <= key || "artist_albums:" <= key || "album_tracks:" <= key
  {
    if "genre_artists:" <= key {
      assert NAV_LIST_PREFIXES[0] <= key;
    }
    if "artist_albums:" <= key {
      assert NAV_LIST_PREFIXES[1] <= key;
    }
    if "album_tracks:" <= key {
      assert NAV_LIST_PREFIXES[2] <= key;
    }
  }

  lemma YearsAreNoNavList()
    ensures !IsNavList(KEY_ALBUM_YEARS)
  {
    NavListsAre(KEY_ALBUM_YEARS);
    assert KEY_ALBUM_YEARS[0] == 'a' != "genre_artists:"[0];
    assert KEY_ALBUM_YEARS[1] == 'l' != "artist_albums:"[1];
    assert KEY_ALBUM_YEARS[5] == '_' && "album_tracks:"[5] == '_' && KEY_ALBUM_YEARS[6] == 'y' != "album_tracks:"[6];
  }

  lemma TagsDroppedOrNot(s: Store, albums: set<string>)
    ensures var t := TagsDropped(s, albums);
      if t.rows == s.rows then t == s
      else t == s.(rows := t.rows, sorts := map[], lists := s.lists - {KEY_ALBUM_YEARS})
  {
    hide AlbumKey;
    var doomed := RowsOfAlbums(s.rows, albums);
    if doomed != {} {
      var p :| p in doomed;
      assert p in s.rows && p !in s.rows - doomed;
    }
  }

  lemma RestampingLeaves(s: Store, albums: seq<(string, int)>, fingerprint: nat)
    ensures var t := Restamped(s, albums, fingerprint);
      var all := s.schema != Some(TAGS_SCHEMA_VERSION) || (s.fingerprint != Some(fingerprint) && s.stamps == map[]);
      && t.fingerprint == Some(fingerprint) && t.schema == Some(TAGS_SCHEMA_VERSION) && t.navVersion == s.navVersion
      && t.index == (if all then [] else s.index)
      && t.sorts == (if all || t.rows != s.rows then map[] else s.sorts)
      && t.lists == (if all then map[] else if t.rows != s.rows then s.lists - {KEY_ALBUM_YEARS} else s.lists)
  {
    MovedDroppingLeaves(s, albums);
    hide StampsOf, MovedDropped;
  }

  lemma MovedDroppingLeaves(s: Store, albums: seq<(string, int)>)
    ensures var t := MovedDropped(s, albums);
      if s.stamps == map[] then t == Cleared(s)
      else if t.rows == s.rows then t == s
      else t == s.(rows := t.rows, sorts := map[], lists := s.lists - {KEY_ALBUM_YEARS})
  {
    TagsDroppedOrNot(s, Stale(s.stamps, StampsOf(albums)));
    hide StampsOf, TagsDropped, Stale;
  }

  lemma NavDroppingLeaves(s: Store)
    ensures var t := NavDropped(s);
      && t == s.(lists := t.lists, navVersion := Some(NAV_LISTS_VERSION))
      && (forall k :: k in t.lists <==> k in s.lists && !IsNavList(k))
      && (forall k :: k in t.lists ==> t.lists[k] == s.lists[k])
  {
    hide IsNavList;
  }

  /** What a reconcile changes besides rows and stamps. Everything goes when the
      record's shape changed or nothing tells what moved; else the index stays,
      the orders and the album years go with any row, and the drill-downs go
      when anything moved or they are of an older kind. */
  lemma ReconcileLeavesTheRest(s: Store, albums: seq<(string, int)>, fingerprint: nat)
    ensures var t := Reconciled(s, albums, fingerprint);
      var moved := s.schema != Some(TAGS_SCHEMA_VERSION) || s.fingerprint != Some(fingerprint);
      var all := s.schema != Some(TAGS_SCHEMA_VERSION) || (s.fingerprint != Some(fingerprint) && s.stamps == map[]);
      && t.fingerprint == Some(fingerprint) && t.schema == Some(TAGS_SCHEMA_VERSION)
      && t.navVersion == Some(NAV_LISTS_VERSION) && t.validated
      && t.index == (if all then [] else s.index)
      && t.sorts == (if all || t.rows != s.rows then map[] else s.sorts)
      && (forall k :: k in t.lists <==>
            && k in s.lists && !all
            && (IsNavList(k) ==> !moved && s.navVersion == Some(NAV_LISTS_VERSION))
            && (k == "album_years" ==> t.rows == s.rows))
      && (forall k :: k in t.lists ==> t.lists[k] == s.lists[k])
  {
    YearsAreNoNavList();
    RestampingLeaves(s, albums, fingerprint);
    NavDroppingLeaves(Restamped(s, albums, fingerprint));
    hide Restamped, NavDropped, IsNavList;
  }

  /** What was derived from the rows survives only with all of them: a stored
      sort order standing after a reconcile means no row went. */
  lemma OrdersSurviveWithTheirRows(s: Store, albums: seq<(string, int)>, fingerprint: nat)
    ensures var t := Reconciled(s, albums, fingerprint);
      t.sorts != map[] ==> t.sorts == s.sorts && t.rows == s.rows
  {
    hide Restamped, IsNavList;
    RestampingTakesDerived(s, albums, fingerprint);
  }

  /** So do the album years. */
  lemma YearsSurviveWithTheirRows(s: Store, albums: seq<(string, int)>, fingerprint: nat)
    ensures var t := Reconciled(s, albums, fingerprint);
      KEY_ALBUM_YEARS in t.lists ==> t.rows == s.rows
  {
    hide Restamped, IsNavList;
    RestampingTakesDerived(s, albums, fingerprint);
  }

  /** A drill-down list survives only a reconcile that found nothing moved and
      the lists' version current; every other cached list survives that one too. */
  lemma NavListsSurviveIffUnmoved(s: Store, albums: seq<(string, int)>, fingerprint: nat, key: string)
    requires IsNavList(key) && key in s.lists
    ensures var t := Reconciled(s, albums, fingerprint);
      key in t.lists <==> !Moved(s, fingerprint) && s.navVersion == Some(NAV_LISTS_VERSION)
    ensures key in Reconciled(s, albums, fingerprint).lists ==> Reconciled(s, albums, fingerprint).lists == s.lists
  {
    hide StampsOf, RowsOfAlbums, Stale, IsNavList;
  }

  /** Reconciling again with the same listing finds nothing moved and changes nothing. */
  lemma ReconcileTwice(s: Store, albums: seq<(string, int)>, fingerprint: nat)
    ensures var t := Reconciled(s, albums, fingerprint);
      !Moved(t, fingerprint) && Reconciled(t, albums, fingerprint) == t && t.validated
  {
    hide StampsOf, RowsOfAlbums, Stale, IsNavList;
  }

  /** What the reconcile after a put has to drop: the late rows of the put. */
  ghost predicate LateAreDropped(w: World, rows: map<string, Row>, albums: seq<(string, int)>, fingerprint: nat) {
    forall p :: p in rows && Album(rows[p]) in StampsOf(albums) && !Timely(w, rows[p]) ==>
      Drops(w.store, albums, fingerprint, Album(rows[p]))
  }

  lemma OnlyPutRowsAreLate(w: World, rows: seq<(string, Row)>, albums: seq<(string, int)>, fingerprint: nat)
    requires NoneIsLate(w) && w.store.validated
    ensures var put := Next(w, Put(rows));
      LateAreDropped(put, put.store.rows, albums, fingerprint) <==> LateAreDropped(w, Table(rows), albums, fingerprint)
  {
    hide StampsOf, Album, Table, Stale;
    var put := Next(w, Put(rows));
    forall p | p in put.store.rows
      ensures put.store.rows[p] == if p in Table(rows) then Table(rows)[p] else w.store.rows[p]
      ensures Timely(put, put.store.rows[p]) <==> Timely(w, put.store.rows[p])
      ensures forall a :: Drops(put.store, albums, fingerprint, a) <==> Drops(w.store, albums, fingerprint, a)
    {
    }
    assert forall p :: p in Table(rows) ==> p in put.store.rows;
    hide Timely, Drops;
  }

  /** A put into a sound cache, then a reconcile with what the host lists: every
      row of a listed album is current exactly when the reconcile drops the album
      of every row that was put late, which the stored fingerprint, versions and
      stamps decide. */
  lemma LatePutIsHarmlessIffDropped(w: World, rows: seq<(string, Row)>, albums: seq<(string, int)>, fingerprint: nat)
    requires Inv(w) && NoneIsLate(w) && w.store.validated && Enabled(w, Put(rows))
    requires Enabled(w, Reconcile(albums, fingerprint)) && StampsOf(albums) == Listing(w)
    ensures RowsAreCurrent(Next(Next(w, Put(rows)), Reconcile(albums, fingerprint))) <==>
      forall p :: p in Table(rows) && Album(Table(rows)[p]) in Listing(w) && !Timely(w, Table(rows)[p]) ==>
        Drops(w.store, albums, fingerprint, Album(Table(rows)[p]))
  {
    hide StampsOf, Album, Table, Drops, Timely, RowsAreCurrent, NoneIsLate, Inv, Reconciled, ReadFromHost;
    var put := Next(w, Put(rows));
    StepKeepsInv(w, Put(rows));
    OnlyPutRowsAreLate(w, rows, albums, fingerprint);
    ReconcileIsSoundIff(put, albums, fingerprint);
    StepKeepsInv(put, Reconcile(albums, fingerprint));
    UnmovedHostMeansCurrent(Next(put, Reconcile(albums, fingerprint)));
  }

  /** A row put late is served as it is: while the host stays as listed, no
      reconcile corrects it. */
  lemma LateRowIsNotCorrected(w: World, path: string, late: Row, albums: seq<(string, int)>, fingerprint: nat)
    requires w.store.validated && !Restaled(w.store) && w.store.fingerprint == Some(fingerprint)
    requires w.listed == Listing(w) == StampsOf(albums)
    requires ReadFromHost(w, late) && Album(late) in w.listed && late.readAt < w.listed[Album(late)]
    ensures var after := Next(Next(w, Put([(path, late)])), Reconcile(albums, fingerprint));
      path in after.store.rows && after.store.rows[path] == late && !RowsAreCurrent(after)
  {
    hide StampsOf, Album, IsNavList;
    assert [(path, late)][..0] == [];
    assert Table([(path, late)]) == map[path := late];
    var put := Next(w, Put([(path, late)]));
    ReconcileLeaves(put.store, albums, fingerprint);
  }

  lemma RunFrom(w: World, e: Event, rest: seq<Event>)
    requires Enabled(w, e) && EnabledRun(Next(w, e), rest)
    ensures EnabledRun(w, [e] + rest) && Run(w, [e] + rest) == Run(Next(w, e), rest)
  {
    assert ([e] + rest)[1..] == rest;
  }

  /** One album: listed, moved and listed again, and only then a row put that was
      read in between; the next reconcile finds nothing moved and leaves it. */
  lemma LateRowFromTheStart(t: CachedTags.Tags, album: string)
    requires album == AlbumKey(t)
    ensures var w0 := Initial(map[album := 1], {album});
      var events := [Reconcile([(album, 1)], 7), HostMoves(map[album := 2], {album}), Reconcile([(album, 2)], 8), Put([("p", Row(t, 1))])];
      && EnabledRun(w0, events) && Enabled(Run(w0, events), Reconcile([(album, 2)], 8))
      && !RowsAreCurrent(Next(Run(w0, events), Reconcile([(album, 2)], 8)))
  {
    OneStamp(album, 1);
    OneStamp(album, 2);
    OneRow("p", Row(t, 1));
    hide AlbumKey, Reconciled, StampsOf, Table;
    var w0 := Initial(map[album := 1], {album});
    var w1 := Next(w0, Reconcile([(album, 1)], 7));
    var w2 := Next(w1, HostMoves(map[album := 2], {album}));
    var w3 := Next(w2, Reconcile([(album, 2)], 8));
    var put := Put([("p", Row(t, 1))]);
    ReconcileIsStored(w0.store, [(album, 1)], 7);
    ReconcileIsStored(w2.store, [(album, 2)], 8);
    assert Listing(w3) == map[album := 2];
    LateRowIsNotCorrected(w3, "p", Row(t, 1), [(album, 2)], 8);
    hide Next, Enabled, RowsAreCurrent, Listing;
    RunFrom(w3, put, []);
    RunFrom(w2, Reconcile([(album, 2)], 8), [put]);
    RunFrom(w1, HostMoves(map[album := 2], {album}), [Reconcile([(album, 2)], 8), put]);
    RunFrom(w0, Reconcile([(album, 1)], 7), [HostMoves(map[album := 2], {album}), Reconcile([(album, 2)], 8), put]);
    assert [Reconcile([(album, 1)], 7)] + [HostMoves(map[album := 2], {album}), Reconcile([(album, 2)], 8), put] ==
      [Reconcile([(album, 1)], 7), HostMoves(map[album := 2], {album}), Reconcile([(album, 2)], 8), put];
  }

  lemma OneStamp(album: string, stamp: int)
    ensures StampsOf([(album, stamp)]) == map[album := stamp]
  {
    assert [(album, stamp)][..0] == [];
  }

  lemma OneRow(path: string, row: Row)
    ensures Table([(path, row)]) == map[path := row]
  {
    assert [(path, row)][..0] == [];
  }

  lemma ReconcileIsStored(s: Store, albums: seq<(string, int)>, fingerprint: nat)
    ensures var t := Reconciled(s, albums, fingerprint);
      t.validated && !Restaled(t) && t.fingerprint == Some(fingerprint)
  {
    ReconcileLeavesTheRest(s, albums, fingerprint);
    hide Reconciled, IsNavList;
  }

  // ------------------------------------------------------------ shared keys

  lemma {:induction false} OtherStampsStay(albums: seq<(string, int)>, i: nat, stamp: int, album: string)
    requires i < |albums| && album != albums[i].0
    ensures var moved := albums[i := (albums[i].0, stamp)];
      && (album in StampsOf(moved) <==> album in StampsOf(albums))
      && (album in StampsOf(albums) ==> StampsOf(moved)[album] == StampsOf(albums)[album])
    decreases |albums|
  {
    var n := |albums| - 1;
    var moved := albums[i := (albums[i].0, stamp)];
    if i < n {
      assert moved[..n] == albums[..n][i := (albums[i].0, stamp)];
      OtherStampsStay(albums[..n], i, stamp, album);
    } else {
      assert moved[..n] == albums[..n];
    }
  }

  /** The stamp stored under a key is the one listed last. */
  lemma {:induction false} LastStampCounts(albums: seq<(string, int)>, i: nat)
    requires i < |albums| && forall j :: i < j < |albums| ==> albums[j].0 != albums[i].0
    ensures albums[i].0 in StampsOf(albums) && StampsOf(albums)[albums[i].0] == albums[i].1
    decreases |albums|
  {
    var n := |albums| - 1;
    if i < n {
      assert albums[n].0 != albums[i].0;
      assert forall j :: i < j < n ==> albums[..n][j] == albums[j];
      LastStampCounts(albums[..n], i);
    }
  }

  lemma LastWithKey(albums: seq<(string, int)>, i: nat) returns (last: nat)
    requires i < |albums|
    ensures i <= last < |albums| && albums[last].0 == albums[i].0
    ensures forall j :: last < j < |albums| ==> albums[j].0 != albums[i].0
  {
    last := |albums| - 1;
    while albums[last].0 != albums[i].0
      invariant i <= last < |albums|
      invariant forall j :: last < j < |albums| ==> albums[j].0 != albums[i].0
      decreases last
    {
      last := last - 1;
    }
  }

  /** A listed album's stamp moving leaves the stored stamps as they were exactly
      when a later album of the listing has the same key. */
  lemma MoveIsHiddenIffKeyIsShared(albums: seq<(string, int)>, i: nat, stamp: int)
    requires i < |albums| && stamp != albums[i].1
    ensures StampsOf(albums[i := (albums[i].0, stamp)]) == StampsOf(albums) <==>
      exists j :: i < j < |albums| && albums[j].0 == albums[i].0
  {
    hide StampsOf;
    var moved := albums[i := (albums[i].0, stamp)];
    var last := LastWithKey(albums, i);
    LastStampCounts(albums, last);
    LastStampCounts(moved, last);
    forall a | a != albums[i].0
      ensures a in StampsOf(moved) <==> a in StampsOf(albums)
      ensures a in StampsOf(albums) ==> StampsOf(moved)[a] == StampsOf(albums)[a]
    {
      OtherStampsStay(albums, i, stamp, a);
    }
    if last > i {
      assert StampsOf(moved) == StampsOf(albums);
    }
  }

  /** Two albums can share a key: the blank between artist and title is no separator. */
  lemma KeysCanBeShared(t: CachedTags.Tags, u: CachedTags.Tags)
    requires t.albumArtist == "a" && t.album == "b c" && u.albumArtist == "a b" && u.album == "c"
    ensures AlbumKey(t) == AlbumKey(u)
  {
    assert Lower("a") + " " + Lower("b c") == Lower("a b") + " " + Lower("c");
  }

  function Owner(t: CachedTags.Tags): string {
    if t.albumArtist != "" then t.albumArtist else t.artist
  }

  /** Albums filed under one artist share a key exactly when they have one title,
      ignoring case; the track's own artist counts only where no album artist is given. */
  lemma KeyNamesTheAlbum(t: CachedTags.Tags, u: CachedTags.Tags)
    requires EqualsIgnoringCase(Owner(t), Owner(u))
    ensures AlbumKey(t) == AlbumKey(u) <==> EqualsIgnoringCase(t.album, u.album)
  {
    var front := Lower(Owner(t)) + " ";
    assert AlbumKey(t)[..|front|] == front && AlbumKey(t)[|front|..] == Lower(t.album);
    assert AlbumKey(u)[..|front|] == front && AlbumKey(u)[|front|..] == Lower(u.album);
  }
}
