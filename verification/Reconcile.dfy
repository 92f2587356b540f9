/** The stored library and how it is brought in line with the host's: a
    fingerprint decides whether to look further and a stamp per album decides
    whose tag rows go.

    `Store` is the content of the tables; class `MetadataCache` changes them the
    way the program does and is proved to do what the functions on `Store` say. */
module Reconcile {
  import opened Order
  import opened Text
  import opened CachedTags

  const TAGS_SCHEMA_VERSION: nat := 5
  const NAV_LISTS_VERSION: nat := 1
  const KEY_ALBUM_YEARS := "album_years"
  const NAV_LIST_PREFIXES := ["genre_artists:", "artist_albums:", "album_tracks:"]

  type Stamps = map<string, int>

  /** A cached row, and the stamp its album had when the host was read for it. */
  datatype Row = Row(tags: Tags, readAt: int)

  datatype Store = Store(
    index: seq<string>,
    rows: map<string, Row>,
    sorts: map<(string, nat), string>,
    stamps: Stamps,
    lists: map<string, string>,
    fingerprint: Option<nat>,
    schema: Option<nat>,
    navVersion: Option<nat>,
    validated: bool)

  /** Album artist, or artist without one, and album, both folded. */
  function AlbumKey(t: Tags): string {
    Lower(if t.albumArtist == "" then t.artist else t.albumArtist) + " " + Lower(t.album)
  }

  function Album(r: Row): string {
    AlbumKey(r.tags)
  }

  // ------------------------------------------------------------ the functions

  function Cleared(s: Store): Store {
    s.(index := [], rows := map[], sorts := map[], stamps := map[], lists := map[])
  }

  /** The stamps of a listing; the last entry of an album counts. */
  function StampsOf(albums: seq<(string, int)>): Stamps {
    if albums == [] then map[]
    else StampsOf(albums[..|albums| - 1])[albums[|albums| - 1].0 := albums[|albums| - 1].1]
  }

  /** Albums whose stamp moved, that vanished or that are new. */
  function Stale(stored: Stamps, current: Stamps): set<string> {
    set a | a in stored.Keys + current.Keys && (a !in stored || a !in current || stored[a] != current[a])
  }

  function RowsOfAlbums(rows: map<string, Row>, albums: set<string>): set<string> {
    set p | p in rows && Album(rows[p]) in albums
  }

  function TagsDropped(s: Store, albums: set<string>): Store {
    var doomed := RowsOfAlbums(s.rows, albums);
    if doomed == {} then s
    else s.(rows := s.rows - doomed, sorts := map[], lists := s.lists - {KEY_ALBUM_YEARS})
  }

  function MovedDropped(s: Store, albums: seq<(string, int)>): Store {
    if s.stamps == map[] then Cleared(s) else TagsDropped(s, Stale(s.stamps, StampsOf(albums)))
  }

  predicate IsNavList(key: string) {
    exists i :: 0 <= i < |NAV_LIST_PREFIXES| && NAV_LIST_PREFIXES[i] <= key
  }

  function NavDropped(s: Store): Store {
    s.(lists := map k | k in s.lists && !IsNavList(k) :: s.lists[k], navVersion := Some(NAV_LISTS_VERSION))
  }

  predicate Restaled(s: Store) {
    s.schema != Some(TAGS_SCHEMA_VERSION)
  }

  /** Whether the library moved since the store was last reconciled. */
  predicate Moved(s: Store, fingerprint: nat) {
    Restaled(s) || s.fingerprint != Some(fingerprint)
  }

  /** The store once rows are dropped and the stamps of the listing stored. */
  function Restamped(s: Store, albums: seq<(string, int)>, fingerprint: nat): Store {
    var moved := Moved(s, fingerprint);
    var s1 := if Restaled(s) then Cleared(s).(schema := Some(TAGS_SCHEMA_VERSION)) else s;
    var s2 := if !moved then s1 else (if Restaled(s) then s1 else MovedDropped(s1, albums)).(fingerprint := Some(fingerprint));
    if moved || s2.stamps == map[] then s2.(stamps := StampsOf(albums)) else s2
  }

  function Reconciled(s: Store, albums: seq<(string, int)>, fingerprint: nat): Store {
    var stamped := Restamped(s, albums, fingerprint);
    var listed := if Moved(s, fingerprint) || stamped.navVersion != Some(NAV_LISTS_VERSION) then NavDropped(stamped) else stamped;
    listed.(validated := true)
  }

  /** Rows put in the cache; no-op until validated. */
  function RowsPut(s: Store, rows: seq<(string, Row)>): Store {
    if s.validated then s.(rows := s.rows + Table(rows)) else s
  }

  function Table(rows: seq<(string, Row)>): map<string, Row> {
    if rows == [] then map[]
    else Table(rows[..|rows| - 1])[rows[|rows| - 1].0 := rows[|rows| - 1].1]
  }

  function RowsDropped(s: Store, paths: seq<string>): Store {
    if s.validated then s.(rows := s.rows - Elements(paths)) else s
  }

  /** A new track index: rows of paths it does not list go. */
  function IndexReplaced(s: Store, paths: seq<string>): Store {
    if s.validated then s.(index := paths, rows := map p | p in s.rows && p in paths :: s.rows[p]) else s
  }

  function Invalidated(s: Store): Store {
    Cleared(s.(validated := false))
  }

  // --------------------------------------------------------------- the class

  class MetadataCache {
    var index: seq<string>
    var rows: map<string, Row>
    var sorts: map<(string, nat), string>
    var stamps: Stamps
    var lists: map<string, string>
    var fingerprint: Option<nat>
    var schema: Option<nat>
    var navVersion: Option<nat>
    var validated: bool

    function Contents(): Store
      reads this
    {
      Store(index, rows, sorts, stamps, lists, fingerprint, schema, navVersion, validated)
    }

    constructor ()
      ensures Contents() == Store([], map[], map[], map[], map[], None, None, None, false)
    {
      index, rows, sorts, stamps, lists := [], map[], map[], map[], map[];
      fingerprint, schema, navVersion, validated := None, None, None, false;
    }

    method Clear()
      modifies this
      ensures Contents() == Cleared(old(Contents()))
    {
      lists, index, rows, sorts, stamps := map[], [], map[], map[], map[];
    }

    method Invalidate()
      modifies this
      ensures Contents() == Invalidated(old(Contents()))
    {
      validated := false;
      Clear();
    }

    /** Turns the contents into `Reconciled` of them; answers `Moved`. */
    method Reconcile(albums: seq<(string, int)>, current: nat) returns (moved: bool)
      modifies this
      ensures moved == Moved(old(Contents()), current)
      ensures Contents() == Reconciled(old(Contents()), albums, current)
    {
      hide StampsOf, MovedDropped, NavDropped;
      var restaled := schema != Some(TAGS_SCHEMA_VERSION);
      if restaled {
        Clear();
        schema := Some(TAGS_SCHEMA_VERSION);
      }
      moved := restaled || fingerprint != Some(current);
      if moved {
        if !restaled {
          DropMovedAlbums(albums);
        }
        fingerprint := Some(current);
      }
      if moved || stamps == map[] {
        StoreAlbumStamps(albums);
      }
      if moved || navVersion != Some(NAV_LISTS_VERSION) {
        DropNavLists();
      }
      validated := true;
    }

    /** Drops the rows of the `Stale` albums, or everything when there are no
        stamps to tell them by. */
    method DropMovedAlbums(albums: seq<(string, int)>)
      modifies this
      ensures Contents() == MovedDropped(old(Contents()), albums)
    {
      hide TagsDropped, Stale, StampsOf;
      if stamps == map[] {
        Clear();
        return;
      }
      var stale := StaleAlbums(albums);
      NoneDropped(Contents());
      if stale != {} {
        DropTagsOf(stale);
      }
    }

    /** The stored albums whose stamp differs, then the listed ones not stored. */
    method StaleAlbums(albums: seq<(string, int)>) returns (stale: set<string>)
      ensures stale == Stale(stamps, StampsOf(albums))
    {
      var current: Stamps := map[];
      for i := 0 to |albums|
        invariant current == StampsOf(albums[..i])
      {
        assert albums[..i + 1][..i] == albums[..i];
        current := current[albums[i].0 := albums[i].1];
      }
      assert albums[..|albums|] == albums;
      stale := MovedStamps(current);
      ghost var ofStored := stale;
      for i := 0 to |albums|
        invariant stale == ofStored + set a | a in StampsOf(albums[..i]) && a !in stamps
      {
        assert albums[..i + 1][..i] == albums[..i];
        if albums[i].0 !in stamps {
          stale := stale + {albums[i].0};
        }
      }
    }

    method MovedStamps(current: Stamps) returns (stale: set<string>)
      ensures stale == set a | a in stamps && (a !in current || stamps[a] != current[a])
    {
      stale := {};
      var rest := stamps.Keys;
      while rest != {}
        invariant rest <= stamps.Keys
        invariant stale == set a | a in stamps && a !in rest && (a !in current || stamps[a] != current[a])
        decreases |rest|
      {
        var a :| a in rest;
        rest := rest - {a};
        if a !in current || stamps[a] != current[a] {
          stale := stale + {a};
        }
      }
    }

    /** Drops the rows of `albums`; if there were any, the orders and the album
        years too. */
    method DropTagsOf(albums: set<string>)
      modifies this
      ensures Contents() == TagsDropped(old(Contents()), albums)
    {
      hide RowsOfAlbums;
      var doomed := Doomed(albums);
      if doomed == {} {
        return;
      }
      var left := doomed;
      while left != {}
        invariant left <= doomed
        invariant rows == old(rows) - (doomed - left)
        invariant Contents() == old(Contents()).(rows := rows)
        decreases |left|
      {
        var p :| p in left;
        OneLess(old(rows), doomed, left, p);
        left := left - {p};
        rows := rows - {p};
      }
      assert doomed - left == doomed;
      sorts := map[];
      lists := lists - {KEY_ALBUM_YEARS};
    }

    method Doomed(albums: set<string>) returns (doomed: set<string>)
      ensures doomed == RowsOfAlbums(rows, albums)
    {
      hide AlbumKey;
      doomed := {};
      var rest := rows.Keys;
      while rest != {}
        invariant rest <= rows.Keys
        invariant doomed == set p | p in rows && p !in rest && Album(rows[p]) in albums
        decreases |rest|
      {
        var p :| p in rest;
        rest := rest - {p};
        if Album(rows[p]) in albums {
          doomed := doomed + {p};
        }
      }
    }

    method StoreAlbumStamps(albums: seq<(string, int)>)
      modifies this
      ensures Contents() == old(Contents()).(stamps := StampsOf(albums))
    {
      stamps := map[];
      for i := 0 to |albums|
        invariant stamps == StampsOf(albums[..i])
        invariant Contents() == old(Contents()).(stamps := stamps)
      {
        assert albums[..i + 1][..i] == albums[..i];
        stamps := stamps[albums[i].0 := albums[i].1];
      }
      assert albums[..|albums|] == albums;
    }

    method DropNavLists()
      modifies this
      ensures Contents() == NavDropped(old(Contents()))
    {
      hide IsNavList;
      var rest := lists.Keys;
      while rest != {}
        invariant rest <= lists.Keys <= old(lists).Keys
        invariant forall k :: k in lists <==> k in old(lists) && (k in rest || !IsNavList(k))
        invariant forall k :: k in lists ==> lists[k] == old(lists)[k]
        invariant Contents() == old(Contents()).(lists := lists)
        decreases |rest|
      {
        var k :| k in rest;
        rest := rest - {k};
        if IsNavList(k) {
          lists := lists - {k};
        }
      }
      navVersion := Some(NAV_LISTS_VERSION);
    }

    method PutTrackTags(tracks: seq<(string, Row)>)
      modifies this
      ensures Contents() == RowsPut(old(Contents()), tracks)
    {
      if !validated || tracks == [] {
        return;
      }
      for i := 0 to |tracks|
        invariant rows == old(rows) + Table(tracks[..i])
        invariant Contents() == old(Contents()).(rows := rows)
      {
        assert tracks[..i + 1][..i] == tracks[..i];
        rows := rows[tracks[i].0 := tracks[i].1];
      }
      assert tracks[..|tracks|] == tracks;
    }

    method DropTrackTags(paths: seq<string>)
      modifies this
      ensures Contents() == RowsDropped(old(Contents()), paths)
    {
      if !validated || paths == [] {
        return;
      }
      for i := 0 to |paths|
        invariant rows == old(rows) - Elements(paths[..i])
        invariant Contents() == old(Contents()).(rows := rows)
      {
        assert Elements(paths[..i + 1]) == Elements(paths[..i]) + {paths[i]} by {
          assert paths[..i + 1] == paths[..i] + [paths[i]];
        }
        rows := rows - {paths[i]};
      }
      assert paths[..|paths|] == paths;
    }

    method ReplaceTrackIndex(paths: seq<string>)
      modifies this
      ensures Contents() == IndexReplaced(old(Contents()), paths)
    {
      if !validated {
        return;
      }
      index := [];
      for i := 0 to |paths|
        invariant index == paths[..i]
        invariant Contents() == old(Contents()).(index := index)
      {
        index := index + [paths[i]];
      }
      var gone: set<string> := {};
      var rest := rows.Keys;
      while rest != {}
        invariant rest <= rows.Keys
        invariant gone == set p | p in rows && p !in rest && p !in paths
        decreases |rest|
      {
        var p :| p in rest;
        rest := rest - {p};
        if p !in paths {
          gone := gone + {p};
        }
      }
      rows := rows - gone;
    }
  }

  lemma OneLess(rows: map<string, Row>, doomed: set<string>, left: set<string>, p: string)
    requires p in left && left <= doomed
    ensures rows - (doomed - (left - {p})) == rows - (doomed - left) - {p}
  {
  }

  lemma NoneDropped(s: Store)
    ensures TagsDropped(s, {}) == s
  {
  }
}
