/** The stored sort orders: built from the cached tags, one ascending order per
    field, and read back in pages in either direction. */
module SortOrders {
  import opened Order
  import opened Sorting
  import opened CachedTags
  import opened SortFields

  type TagTable = map<string, Tags>
  type SortTable = map<(string, nat), string>

  function Srcs(rows: seq<Tags>): (r: seq<string>)
    ensures |r| == |rows|
  {
    seq(|rows|, i requires 0 <= i < |rows| => rows[i].src)
  }

  /** The cached rows as one stored order holds them. */
  function InOrderOf(tags: TagTable, f: SortField, descending: bool): seq<Tags> {
    StableSort(InPathOrder(tags), f.By(descending))
  }

  function Mirror<T>(s: seq<T>): (r: seq<T>)
    ensures |r| == |s|
  {
    seq(|s|, i requires 0 <= i < |s| => s[|s| - 1 - i])
  }

  /** The rows a reader pages through: descending is the ascending order read
      backwards, unless it keeps an order of its own. */
  function Listed(tags: TagTable, f: SortField, descending: bool): seq<Tags> {
    if descending && !f.HasUndatedTail() then Mirror(InOrderOf(tags, f, false)) else InOrderOf(tags, f, descending)
  }

  /** The table holds exactly `rows` under `key`, at positions from zero. */
  ghost predicate Holds(sorts: SortTable, key: string, rows: seq<string>) {
    && (forall i: nat :: (key, i) in sorts <==> i < |rows|)
    && (forall i: nat :: i < |rows| ==> sorts[(key, i)] == rows[i])
  }

  /** One stored order: the field, the key it is kept under and its direction. */
  datatype Job = Job(field: SortField, key: string, descending: bool)

  function Stored(fields: seq<SortField>): seq<Job> {
    seq(|fields|, i requires 0 <= i < |fields| => Job(fields[i], fields[i].AsStr(), false))
  }

  function Mirrored(fields: seq<SortField>): seq<Job> {
    if fields == [] then []
    else match fields[0].DescendingKey()
      case None => Mirrored(fields[1..])
      case Some(key) => [Job(fields[0], key, true)] + Mirrored(fields[1..])
  }

  function Jobs(): seq<Job> {
    Stored(ALL) + Mirrored(ALL)
  }

  /** Every order is stored, of exactly these rows, and nothing else is. */
  ghost predicate OrdersHold(sorts: SortTable, tags: TagTable) {
    && (forall j :: j in Jobs() ==> Holds(sorts, j.key, Srcs(InOrderOf(tags, j.field, j.descending))))
    && (forall k :: k in sorts ==> exists j :: j in Jobs() && j.key == k.0)
  }

  /** What a rebuild does: nothing without cached tags, else every order anew. */
  ghost predicate Rebuilt(tags: TagTable, validated: bool, before: SortTable, after: SortTable, indexed: nat) {
    if validated && tags != map[] then OrdersHold(after, tags) && indexed == |tags| else after == before && indexed == 0
  }

  /** The rows from `offset` on, `limit` of them; a limit of zero or less is no limit. */
  function Window<T>(full: seq<T>, offset: int, limit: int): seq<T> {
    var from := if offset < 0 then 0 else if offset > |full| then |full| else offset;
    full[from..if limit <= 0 || from + limit > |full| then |full| else from + limit]
  }

  lemma OneHasItsOwnDescent()
    ensures Mirrored(ALL) == [Job(OriginalYear, "original_year:desc", true)]
  {
    assert Mirrored(ALL[9..]) == [];
    assert Mirrored(ALL[8..]) == [];
    assert Mirrored(ALL[7..]) == [];
    assert Mirrored(ALL[6..]) == [Job(OriginalYear, "original_year:desc", true)];
    assert Mirrored(ALL[5..]) == Mirrored(ALL[6..]);
    assert Mirrored(ALL[4..]) == Mirrored(ALL[5..]);
    assert Mirrored(ALL[3..]) == Mirrored(ALL[4..]);
    assert Mirrored(ALL[2..]) == Mirrored(ALL[3..]);
    assert Mirrored(ALL[1..]) == Mirrored(ALL[2..]);
    assert Mirrored(ALL) == Mirrored(ALL[1..]);
  }

  lemma JobsAre()
    ensures Jobs() == [Job(Title, "title", false), Job(Artist, "artist", false), Job(Album, "album", false),
                       Job(AlbumArtist, "album_artist", false), Job(Track, "track", false), Job(Year, "year", false),
                       Job(OriginalYear, "original_year", false), Job(Rating, "rating", false),
                       Job(DateAdded, "date_added", false), Job(OriginalYear, "original_year:desc", true)]
  {
    OneHasItsOwnDescent();
    hide Mirrored;
  }

  lemma KeysAreDistinct(i: nat, j: nat)
    requires i < |Jobs()| && j < |Jobs()| && i != j
    ensures Jobs()[i].key != Jobs()[j].key
  {
    JobsAre();
    hide Jobs;
    assert "title"[1] == 'i' && "track"[1] == 'r' && "title"[0] == 't' && "album"[0] == 'a' && "artist"[0] == 'a';
    assert "track"[0] == 't' && "rating"[0] == 'r';
  }

  /** The rows of the table under one key. */
  function Under(sorts: SortTable, key: string): set<(string, nat)> {
    set k | k in sorts && k.0 == key
  }

  lemma {:induction false} HeldCount(sorts: SortTable, key: string, rows: seq<string>)
    requires Holds(sorts, key, rows)
    ensures |Under(sorts, key)| == |rows|
  {
    if rows == [] {
      assert Under(sorts, key) == {} by {
        forall k: (string, nat) ensures k !in Under(sorts, key) {
          if k.0 == key {
            assert k == (key, k.1);
          }
        }
      }
    } else {
      var last: (string, nat) := (key, |rows| - 1);
      var fewer := sorts - {last};
      HeldCount(fewer, key, rows[..|rows| - 1]);
      assert last in sorts;
      assert Under(sorts, key) == Under(fewer, key) + {last};
    }
  }

  /** The first `n` orders are stored, and nothing else is. */
  ghost predicate Built(sorts: SortTable, tags: TagTable, n: nat)
    requires n <= |Jobs()|
  {
    && (forall m :: 0 <= m < n ==> Holds(sorts, Jobs()[m].key, Srcs(InOrderOf(tags, Jobs()[m].field, Jobs()[m].descending))))
    && (forall k :: k in sorts ==> exists m :: 0 <= m < n && Jobs()[m].key == k.0)
  }

  ghost predicate SameElsewhere(before: SortTable, after: SortTable, key: string) {
    && (forall k: (string, nat) :: k.0 != key ==> (k in before <==> k in after))
    && (forall k: (string, nat) :: k.0 != key && k in after ==> after[k] == before[k])
  }

  lemma BuiltHasNoMore(sorts: SortTable, tags: TagTable, n: nat)
    requires n < |Jobs()| && Built(sorts, tags, n)
    ensures forall i: nat :: (Jobs()[n].key, i) !in sorts
  {
    hide Holds, Jobs, InOrderOf;
    forall i: nat ensures (Jobs()[n].key, i) !in sorts {
      if (Jobs()[n].key, i) in sorts {
        var m :| 0 <= m < n && Jobs()[m].key == Jobs()[n].key;
        KeysAreDistinct(m, n);
      }
    }
  }

  lemma HeldElsewhere(before: SortTable, after: SortTable, key: string, other: string, rows: seq<string>)
    requires SameElsewhere(before, after, key) && other != key && Holds(before, other, rows)
    ensures Holds(after, other, rows)
  {
    forall i: nat ensures (other, i) in after <==> i < |rows| {
      assert (other, i).0 != key;
    }
  }

  lemma BuildOneMore(before: SortTable, after: SortTable, tags: TagTable, n: nat)
    requires n < |Jobs()| && Built(before, tags, n)
    requires Holds(after, Jobs()[n].key, Srcs(InOrderOf(tags, Jobs()[n].field, Jobs()[n].descending)))
    requires SameElsewhere(before, after, Jobs()[n].key)
    ensures Built(after, tags, n + 1)
  {
    hide Holds, Jobs, InOrderOf;
    forall m | 0 <= m < n
      ensures Holds(after, Jobs()[m].key, Srcs(InOrderOf(tags, Jobs()[m].field, Jobs()[m].descending)))
    {
      KeysAreDistinct(m, n);
      HeldElsewhere(before, after, Jobs()[n].key, Jobs()[m].key, Srcs(InOrderOf(tags, Jobs()[m].field, Jobs()[m].descending)));
    }
  }

  lemma AllBuilt(sorts: SortTable, tags: TagTable)
    requires Built(sorts, tags, |Jobs()|)
    ensures OrdersHold(sorts, tags)
  {
    hide Holds, Jobs, InOrderOf;
  }

  class SortStore {
    var tags: TagTable
    var sorts: SortTable
    var validated: bool

    constructor (tags: TagTable, sorts: SortTable, validated: bool)
      ensures this.tags == tags && this.sorts == sorts && this.validated == validated
    {
      this.tags, this.sorts, this.validated := tags, sorts, validated;
    }

    /** Stores all ten orders of the rows in `tags`; answers their length. */
    method RebuildSortOrders() returns (indexed: nat)
      modifies `sorts
      ensures Rebuilt(tags, validated, old(sorts), sorts, indexed)
    {
      hide StableSort, InPathOrder, Built, Jobs, Holds, SameElsewhere, OrdersHold;
      var all := if validated then InPathOrder(tags) else [];
      RowsPerPath(tags);
      indexed := 0;
      if all == [] {
        return;
      }
      sorts := map[];
      NoneBuilt(tags);
      var jobs := Jobs();
      for n := 0 to |jobs|
        invariant Built(sorts, tags, n) && (n > 0 ==> indexed == |tags|)
      {
        var job := jobs[n];
        var sorted := StableSort(all, job.field.By(job.descending));
        SortKeepsElements(all, job.field.By(job.descending));
        BuiltHasNoMore(sorts, tags, n);
        ghost var before := sorts;
        StoreOrder(job.key, sorted);
        BuildOneMore(before, sorts, tags, n);
        indexed := |sorted|;
      }
      SomeJob();
      AllBuilt(sorts, tags);
    }

    method StoreOrder(key: string, rows: seq<Tags>)
      requires forall i: nat :: (key, i) !in sorts
      modifies `sorts
      ensures Holds(sorts, key, Srcs(rows)) && SameElsewhere(old(sorts), sorts, key)
    {
      for i := 0 to |rows|
        invariant forall j: nat :: (key, j) in sorts <==> j < i
        invariant forall j: nat :: j < i ==> sorts[(key, j)] == rows[j].src
        invariant SameElsewhere(old(sorts), sorts, key)
      {
        sorts := sorts[(key, i) := rows[i].src];
      }
    }

    method StoredOrderRows(key: string) returns (count: nat)
      ensures count == if validated then |Under(sorts, key)| else 0
    {
      count := 0;
      if !validated {
        return;
      }
      var rest := sorts.Keys;
      ghost var counted: set<(string, nat)> := {};
      while rest != {}
        invariant rest <= sorts.Keys
        invariant counted == set k | k in sorts && k !in rest && k.0 == key
        invariant count == |counted|
        decreases |rest|
      {
        var k :| k in rest;
        rest := rest - {k};
        if k.0 == key {
          count := count + 1;
          counted := counted + {k};
        }
      }
      assert counted == Under(sorts, key);
    }

    /** The rows stored for a field, or for a field stored both ways the fewer of the two. */
    method SortedTrackCount(field: SortField) returns (count: nat)
      ensures !validated ==> count == 0
      ensures validated && field.DescendingKey().None? ==> count == |Under(sorts, field.AsStr())|
      ensures validated && field.DescendingKey().Some? ==>
        var up, down := |Under(sorts, field.AsStr())|, |Under(sorts, field.DescendingKey().value)|;
        count == if up < down then up else down
    {
      var ascending := StoredOrderRows(field.AsStr());
      match field.DescendingKey()
      case None => count := ascending;
      case Some(key) =>
        var down := StoredOrderRows(key);
        count := if ascending < down then ascending else down;
    }

    method ReadRange(key: string, from: nat, to: nat, ghost rows: seq<string>) returns (paths: seq<string>)
      ensures Holds(sorts, key, rows) && from <= to <= |rows| ==> paths == rows[from..to]
    {
      paths := [];
      var i := from;
      while i < to
        invariant i >= from
        invariant Holds(sorts, key, rows) && from <= to <= |rows| ==> i <= to && paths == rows[from..i]
      {
        if (key, i) in sorts {
          paths := paths + [sorts[(key, i)]];
        }
        i := i + 1;
      }
    }

    /** A window of a listing. `built` names the tags the orders were built
        from: whatever has happened to the tags since, the page is of those. */
    method SortedTrackPage(field: SortField, offset: int, limit: int, descending: bool, ghost built: TagTable)
      returns (page: seq<string>)
      ensures !validated ==> page == []
      ensures validated && OrdersHold(sorts, built) ==> page == Window(Srcs(Listed(built, field, descending)), offset, limit)
    {
      hide OrdersHold, InOrderOf, InPathOrder, Holds;
      page := [];
      if !validated {
        return;
      }
      var own := descending && field.DescendingKey().Some?;
      var key := if own then field.DescendingKey().value else field.AsStr();
      var mirrored := descending && !own;
      var total := SortedTrackCount(field);
      ghost var rows := Srcs(InOrderOf(built, field, own));
      assert OrdersHold(sorts, built) ==> Holds(sorts, key, rows) && total == |rows| by {
        if OrdersHold(sorts, built) {
          OrderIsHeld(sorts, built, field);
        }
      }
      var off := if offset < 0 then 0 else offset;
      var lim := if limit > 0 then limit else if total > off then total - off else 0;
      var start := if !mirrored then off else if total - off - lim > 0 then total - off - lim else 0;
      var end := if mirrored then (if total > off then total - off else 0) else if off + lim < total then off + lim else total;
      if start < end {
        var paths := ReadRange(key, start, end, rows);
        page := if mirrored then Mirror(paths) else paths;
        assert OrdersHold(sorts, built) ==> paths == rows[start..end];
      }
      if OrdersHold(sorts, built) {
        assert page == if start < end then (if mirrored then Mirror(rows[start..end]) else rows[start..end]) else [];
        SrcsOfListed(built, field, descending);
        MirroredWindow(rows, offset, limit, start, end, mirrored);
      }
    }
  }

  lemma RowsPerPath(tags: TagTable)
    ensures |InPathOrder(tags)| == |tags| && (InPathOrder(tags) == [] <==> tags == map[])
  {
    assert |tags.Keys| == |tags|;
  }

  lemma NoneBuilt(tags: TagTable)
    ensures Built(map[], tags, 0)
  {
  }

  lemma SomeJob()
    ensures |Jobs()| > 0
  {
    JobsAre();
  }

  /** A field's own orders are among those stored, and they count its rows. */
  lemma OrderIsHeld(sorts: SortTable, tags: TagTable, f: SortField)
    requires OrdersHold(sorts, tags)
    ensures Holds(sorts, f.AsStr(), Srcs(InOrderOf(tags, f, false))) && |Under(sorts, f.AsStr())| == |InOrderOf(tags, f, false)|
    ensures f.DescendingKey().Some? ==> Holds(sorts, f.DescendingKey().value, Srcs(InOrderOf(tags, f, true)))
    ensures f.DescendingKey().Some? ==> |Under(sorts, f.DescendingKey().value)| == |InOrderOf(tags, f, false)|
    ensures |InOrderOf(tags, f, true)| == |InOrderOf(tags, f, false)|
  {
    hide Holds, InPathOrder, StableSort, Under;
    JobsAre();
    assert Job(f, f.AsStr(), false) in Jobs();
    HeldCount(sorts, f.AsStr(), Srcs(InOrderOf(tags, f, false)));
    if f.DescendingKey().Some? {
      assert Job(f, f.DescendingKey().value, true) in Jobs();
      HeldCount(sorts, f.DescendingKey().value, Srcs(InOrderOf(tags, f, true)));
    }
    SortKeepsElements(InPathOrder(tags), f.By(false));
    SortKeepsElements(InPathOrder(tags), f.By(true));
  }

  lemma SrcsOfListed(tags: TagTable, f: SortField, descending: bool)
    ensures var own := descending && f.DescendingKey().Some?;
      Srcs(Listed(tags, f, descending)) ==
      if descending && !own then Mirror(Srcs(InOrderOf(tags, f, own))) else Srcs(InOrderOf(tags, f, own))
  {
    hide InOrderOf;
  }

  lemma PlainWindow(rows: seq<string>, offset: int, limit: int, start: int, end: int)
    requires var off := if offset < 0 then 0 else offset;
      var lim := if limit > 0 then limit else if |rows| > off then |rows| - off else 0;
      start == off && end == if off + lim < |rows| then off + lim else |rows|
    ensures 0 <= start && 0 <= end <= |rows|
    ensures Window(rows, offset, limit) == if start < end then rows[start..end] else []
  {
  }

  /** The clamped mirror window, read backwards, is the window of the mirror. */
  lemma MirrorWindow(rows: seq<string>, offset: int, limit: int, start: int, end: int)
    requires var off := if offset < 0 then 0 else offset;
      var lim := if limit > 0 then limit else if |rows| > off then |rows| - off else 0;
      && start == (if |rows| - off - lim > 0 then |rows| - off - lim else 0)
      && end == if |rows| > off then |rows| - off else 0
    ensures 0 <= start && 0 <= end <= |rows|
    ensures Window(Mirror(rows), offset, limit) == if start < end then Mirror(rows[start..end]) else []
  {
    var n := |rows|;
    var from := if offset < 0 then 0 else if offset > n then n else offset;
    var to := if limit <= 0 || from + limit > n then n else from + limit;
    assert start < end ==> start == n - to && end == n - from;
    assert start >= end ==> from == to;
    MirrorOfSlice(rows, from, to);
  }

  lemma MirrorOfSlice(rows: seq<string>, from: nat, to: nat)
    requires from <= to <= |rows|
    ensures Mirror(rows)[from..to] == Mirror(rows[|rows| - to..|rows| - from])
  {
    var slice := rows[|rows| - to..|rows| - from];
    forall k | 0 <= k < to - from ensures Mirror(rows)[from..to][k] == Mirror(slice)[k] {
      assert Mirror(rows)[from..to][k] == Mirror(rows)[from + k] == rows[|rows| - 1 - from - k];
      assert Mirror(slice)[k] == slice[to - from - 1 - k];
    }
  }

  lemma MirroredWindow(rows: seq<string>, offset: int, limit: int, start: int, end: int, mirrored: bool)
    requires var total := |rows|;
      var off := if offset < 0 then 0 else offset;
      var lim := if limit > 0 then limit else if total > off then total - off else 0;
      && start == (if !mirrored then off else if total - off - lim > 0 then total - off - lim else 0)
      && end == if mirrored then (if total > off then total - off else 0) else if off + lim < total then off + lim else total
    ensures 0 <= start && 0 <= end <= |rows|
    ensures Window(if mirrored then Mirror(rows) else rows, offset, limit) ==
      if start < end then (if mirrored then Mirror(rows[start..end]) else rows[start..end]) else []
  {
    hide Window, Mirror;
    if mirrored {
      MirrorWindow(rows, offset, limit, start, end);
    } else {
      PlainWindow(rows, offset, limit, start, end);
    }
  }

  // ---------------------------------------------------------------- theorems

  /** With no cached tags, the orders hold only if the table is empty. */
  lemma EmptyOrdersAreEmpty(sorts: SortTable)
    ensures OrdersHold(sorts, map[]) <==> sorts == map[]
  {
    hide StableSort;
    RowsPerPath(map[]);
    forall j | j in Jobs() ensures Srcs(InOrderOf(map[], j.field, j.descending)) == [] {
      SortKeepsElements(InPathOrder(map[]), j.field.By(j.descending));
    }
    if OrdersHold(sorts, map[]) {
      forall k: (string, nat) ensures k !in sorts {
        if exists j :: j in Jobs() && j.key == k.0 {
          var j :| j in Jobs() && j.key == k.0;
          assert Holds(sorts, j.key, []);
          assert k == (j.key, k.1);
        }
      }
    }
  }

  /** A rebuild of a validated store leaves the orders of the cached tags exactly
      when there are tags, or no order was stored; of any other it changes nothing. */
  lemma RebuildHoldsIffTagged(tags: TagTable, validated: bool, before: SortTable, after: SortTable, indexed: nat)
    requires Rebuilt(tags, validated, before, after, indexed)
    ensures validated ==> (OrdersHold(after, tags) <==> tags != map[] || before == map[])
    ensures !validated ==> after == before
  {
    hide OrdersHold;
    EmptyOrdersAreEmpty(before);
  }

  /** Orders built while there were tags are not those of an emptied tag table,
      and rebuilding over it leaves them. */
  lemma EmptiedTableKeepsItsOrders(tags: TagTable, sorts: SortTable)
    requires tags != map[] && OrdersHold(sorts, tags)
    ensures Rebuilt(map[], true, sorts, sorts, 0) && !OrdersHold(sorts, map[])
  {
    EmptyOrdersAreEmpty(sorts);
    hide OrdersHold, InOrderOf, InPathOrder;
    OrderIsHeld(sorts, tags, Title);
    SortKeepsElements(InPathOrder(tags), Title.By(false));
    RowsPerPath(tags);
    SomeRowIsStored(sorts, tags);
  }

  lemma SomeRowIsStored(sorts: SortTable, tags: TagTable)
    requires tags != map[] && Holds(sorts, "title", Srcs(InOrderOf(tags, Title, false)))
    ensures sorts != map[]
  {
    RowsPerPath(tags);
    SortKeepsElements(InPathOrder(tags), Title.By(false));
    hide InPathOrder, StableSort;
    var first: (string, nat) := ("title", 0);
    assert first in sorts;
  }

  /** Pages of one size, the first `n` of them. */
  function Pages<T>(full: seq<T>, limit: nat, n: nat): seq<T> {
    if n == 0 then [] else Pages(full, limit, n - 1) + Window(full, (n - 1) * limit, limit)
  }

  lemma {:induction false} PagesArePrefix<T>(full: seq<T>, limit: nat, n: nat)
    requires limit >= 1
    ensures Pages(full, limit, n) == if n * limit <= |full| then full[..n * limit] else full
  {
    if n > 0 {
      PagesArePrefix(full, limit, n - 1);
      assert n * limit == (n - 1) * limit + limit;
      PageAfterPrefix(full, (n - 1) * limit, limit);
    }
  }

  lemma PageAfterPrefix<T>(full: seq<T>, at: nat, limit: nat)
    requires limit >= 1
    ensures (if at <= |full| then full[..at] else full) + Window(full, at, limit) ==
      if at + limit <= |full| then full[..at + limit] else full
  {
  }

  /** A window starts at its offset, or at the first row if that is before it,
      and runs for its limit or, without one, to the end. */
  lemma WindowIs<T>(full: seq<T>, offset: int, limit: int, k: nat)
    ensures var start := if offset < 0 then 0 else offset;
      (k < |Window(full, offset, limit)| <==> start + k < |full| && (limit > 0 ==> k < limit))
      && (k < |Window(full, offset, limit)| ==> Window(full, offset, limit)[k] == full[start + k])
  {
  }

  lemma {:induction false} MirrorKeepsElements<T>(s: seq<T>)
    ensures multiset(Mirror(s)) == multiset(s)
  {
    if s != [] {
      var n := |s| - 1;
      MirrorKeepsElements(s[..n]);
      assert s == s[..n] + [s[n]];
      assert Mirror(s) == [s[n]] + Mirror(s[..n]);
    }
  }

  lemma MirrorIsInOrder(f: SortField, rows: seq<Tags>)
    requires !f.HasUndatedTail() && InOrder(rows, f.By(false))
    ensures InOrder(Mirror(rows), f.By(true))
  {
    hide SortField.Order;
    var m := Mirror(rows);
    forall i, j | 0 <= i < j < |m| ensures f.By(true)(m[i], m[j]) != Larger {
      MirrorsIffPlaced(f, m[i], m[j]);
      assert f.By(false)(rows[|m| - 1 - j], rows[|m| - 1 - i]) != Larger;
    }
  }

  /** The listing in either direction is the cached rows, in order. */
  lemma ListedInOrder(tags: TagTable, f: SortField, descending: bool)
    ensures multiset(Listed(tags, f, descending)) == multiset(InPathOrder(tags))
    ensures InOrder(Listed(tags, f, descending), f.By(descending))
  {
    hide InPathOrder, StableSort, SortField.By, InOrder;
    var up := descending && !f.HasUndatedTail();
    var way := if up then false else descending;
    OrderIsTotal(f, way);
    SortKeepsElements(InPathOrder(tags), f.By(way));
    SortIsInOrder(InPathOrder(tags), f.By(way));
    if up {
      MirrorKeepsElements(InOrderOf(tags, f, false));
      MirrorIsInOrder(f, InOrderOf(tags, f, false));
    }
  }

  /** What is listed says so itself: every row may stand before every later one
      by the field's own tag, in the direction asked for. */
  lemma ListedByItsTag(tags: TagTable, f: SortField, descending: bool)
    ensures Ranked(Listed(tags, f, descending), (a: Tags, b: Tags) => StandsInOrder(f, a, b, descending))
    ensures f == Rating ==> forall i, j :: 0 <= i < j < |Listed(tags, f, descending)| ==>
      var (a, b) := (Listed(tags, f, descending)[i], Listed(tags, f, descending)[j]);
      if descending then b.rating <= a.rating else a.rating <= b.rating
  {
    hide SortField.Order, Ascends, Listed;
    ListedInOrder(tags, f, descending);
    var rows := Listed(tags, f, descending);
    forall i, j | 0 <= i < j < |rows| ensures StandsInOrder(f, rows[i], rows[j], descending) {
      assert f.By(descending)(rows[i], rows[j]) != Larger;
      OrderMeans(f, rows[i], rows[j], descending);
    }
    if f == Rating {
      forall i, j | 0 <= i < j < |rows|
        ensures if descending then rows[j].rating <= rows[i].rating else rows[i].rating <= rows[j].rating
      {
        assert StandsInOrder(f, rows[i], rows[j], descending);
        RatingsAscend(rows[i], rows[j]);
        RatingsAscend(rows[j], rows[i]);
      }
    }
  }

  lemma RatingsAscend(a: Tags, b: Tags)
    ensures Ascends(Rating, a, b) ==> a.rating <= b.rating
  {
  }

  /** The tag table is keyed by each row's own path. */
  ghost predicate KeyedBySrc(tags: TagTable) {
    forall p :: p in tags ==> tags[p].src == p
  }

  lemma {:induction false} AscendingMultiset(paths: seq<string>)
    requires AscendingPaths(paths)
    ensures multiset(paths) == multiset(Elements(paths))
  {
    if paths != [] {
      var n := |paths| - 1;
      AscendingMultiset(paths[..n]);
      assert paths == paths[..n] + [paths[n]];
      if paths[n] in paths[..n] {
        LessIrreflexive(paths[n]);
      }
      assert Elements(paths) == Elements(paths[..n]) + {paths[n]};
    }
  }

  lemma {:induction false} SrcsOfSame(a: seq<Tags>, b: seq<Tags>)
    requires multiset(a) == multiset(b)
    ensures multiset(Srcs(a)) == multiset(Srcs(b))
    decreases |a|
  {
    hide Without;
    assert |multiset(a)| == |multiset(b)|;
    if a != [] {
      assert a[0] in multiset(b);
      var i :| 0 <= i < |b| && b[i] == a[0];
      WithoutOne(a, 0);
      WithoutOne(b, i);
      assert |multiset(Without(a, 0))| == |a| - 1;
      SrcsOfSame(Without(a, 0), Without(b, i));
      WithoutOne(Srcs(a), 0);
      WithoutOne(Srcs(b), i);
      SrcsWithout(a, 0);
      SrcsWithout(b, i);
    }
  }

  lemma SrcsWithout(s: seq<Tags>, i: nat)
    requires i < |s|
    ensures Without(Srcs(s), i) == Srcs(Without(s, i))
  {
  }

  /** Reading a rebuilt order page by page, in either direction and with any page
      size, gives every cached path once, in that order, undated rows last. */
  lemma PagingRefinesSorting(tags: TagTable, f: SortField, descending: bool, limit: nat, n: nat)
    requires KeyedBySrc(tags) && limit >= 1 && n * limit >= |tags|
    ensures var rows := Listed(tags, f, descending);
      && Pages(Srcs(rows), limit, n) == Srcs(rows)
      && multiset(Srcs(rows)) == multiset(tags.Keys)
      && Ranked(rows, (a: Tags, b: Tags) => StandsInOrder(f, a, b, descending))
      && forall i, j :: 0 <= i < j < |rows| && f.Undated(rows[i]) ==> f.Undated(rows[j])
  {
    hide SortField.By, InOrder, Listed, StandsInOrder;
    var rows := Listed(tags, f, descending);
    ListedInOrder(tags, f, descending);
    ListedByItsTag(tags, f, descending);
    RowsPerPath(tags);
    SrcsOfSame(rows, InPathOrder(tags));
    PathOrderSrcs(tags);
    assert |multiset(rows)| == |multiset(InPathOrder(tags))|;
    PagesArePrefix(Srcs(rows), limit, n);
    forall i, j | 0 <= i < j < |rows| && f.Undated(rows[i]) ensures f.Undated(rows[j]) {
      UndatedComeLast(f, rows, descending, i, j);
    }
  }

  lemma PathOrderSrcs(tags: TagTable)
    requires KeyedBySrc(tags)
    ensures Srcs(InPathOrder(tags)) == SortedPaths(tags.Keys)
    ensures multiset(SortedPaths(tags.Keys)) == multiset(tags.Keys)
  {
    var paths := SortedPaths(tags.Keys);
    forall i | 0 <= i < |paths| ensures Srcs(InPathOrder(tags))[i] == paths[i] {
      assert paths[i] in paths;
    }
    AscendingMultiset(paths);
    assert Elements(paths) == tags.Keys;
  }

  ghost function BySrc(): (Tags, Tags) -> bool {
    (a: Tags, b: Tags) => Less(a.src, b.src)
  }

  /** Rows nothing tells apart stand in path order, mirrored with the rest. */
  lemma TiesStandInPathOrder(tags: TagTable, f: SortField, descending: bool, i: nat, j: nat)
    requires KeyedBySrc(tags) && i < j < |Listed(tags, f, descending)|
    ensures var (a, b) := (Listed(tags, f, descending)[i], Listed(tags, f, descending)[j]);
      StandsInOrder(f, a, b, descending) && StandsInOrder(f, b, a, descending) ==>
        if descending && f != OriginalYear then Less(b.src, a.src) else Less(a.src, b.src)
  {
    hide Ascends, SortField.Compare, Less, StableSort;
    var rows := Listed(tags, f, descending);
    var up := descending && !f.HasUndatedTail();
    var way := if up then false else descending;
    PathOrderSrcs(tags);
    assert Ranked(InPathOrder(tags), BySrc()) by {
      SrcsAscend(InPathOrder(tags), SortedPaths(tags.Keys));
    }
    OrderIsTotal(f, way);
    StableSortRefines(InPathOrder(tags), f.By(way), BySrc());
    var (a, b) := (rows[i], rows[j]);
    if up {
      assert a == InOrderOf(tags, f, false)[|rows| - 1 - i] && b == InOrderOf(tags, f, false)[|rows| - 1 - j];
      assert Refine(f.By(false), BySrc())(b, a);
      TiedBothWays(f, b, a, false);
    } else {
      assert Refine(f.By(way), BySrc())(a, b);
      TiedBothWays(f, a, b, way);
    }
  }

  lemma SrcsAscend(rows: seq<Tags>, paths: seq<string>)
    requires Srcs(rows) == paths && AscendingPaths(paths)
    ensures Ranked(rows, BySrc())
  {
    hide Less;
    forall i, j | 0 <= i < j < |rows| ensures Less(rows[i].src, rows[j].src) {
      assert Srcs(rows)[i] == rows[i].src && Srcs(rows)[j] == rows[j].src;
    }
  }

  lemma TiedBothWays(f: SortField, a: Tags, b: Tags, descending: bool)
    ensures f.Order(a, b, descending) == Smaller ==> !StandsInOrder(f, b, a, descending)
    ensures f != OriginalYear ==> (StandsInOrder(f, a, b, true) <==> StandsInOrder(f, b, a, false))
  {
    OrderIsCoherent(f, a, b, a, descending);
    OrderMeans(f, b, a, descending);
    hide SortField.Order, Ascends;
  }
}
