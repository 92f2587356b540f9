/** The genres with how many tracks each has, and that such a count is the length
    of the listing the genre's own filter gives. */
module GenreCounts {
  import opened Order
  import opened Text
  import opened CachedTags
  import opened TrackListing
  import SortFields
  import MultiValue
  import GenreMemo

  function Genres(rows: seq<BrowseRow>): seq<string> {
    seq(|rows|, i requires 0 <= i < |rows| => rows[i].genre)
  }

  function ByGenre(name: string): TrackFilter {
    TrackFilter(None, None, None, Some(name))
  }

  function HoldersAmong(tags: TagTable, paths: set<string>, name: string): set<string> {
    set p | p in paths && p in tags && MultiValue.Holds(tags[p].genre, name)
  }

  ghost predicate Distinct(index: seq<string>) {
    forall i, j :: 0 <= i < j < |index| ==> index[i] != index[j]
  }

  /** Counts the genres of the kept rows. */
  method GenreCounts(rows: seq<BrowseRow>) returns (out: seq<(string, nat)>)
    ensures MultiValue.NamesAscend(out) && MultiValue.Covers(Genres(rows), out)
    ensures forall i :: 0 <= i < |out| ==> MultiValue.CountsItsFilter(Genres(rows), out[i])
  {
    out := MultiValue.Counts(Genres(rows));
  }

  lemma NoHolders(tags: TagTable, name: string)
    ensures HoldersAmong(tags, {}, name) == {}
  {
  }

  lemma OneMoreHolder(tags: TagTable, paths: set<string>, path: string, name: string)
    requires path !in paths
    ensures |HoldersAmong(tags, paths + {path}, name)| ==
      |HoldersAmong(tags, paths, name)| + if path in tags && MultiValue.Holds(tags[path].genre, name) then 1 else 0
  {
    hide MultiValue.Holds;
    var before := HoldersAmong(tags, paths, name);
    assert HoldersAmong(tags, paths + {path}, name) ==
      if path in tags && MultiValue.Holds(tags[path].genre, name) then before + {path} else before;
  }

  /** A count over distinct tracks counts the set of those that hold the name. */
  lemma {:induction false} CountIsTheSet(tags: TagTable, paths: seq<string>, fields: seq<string>, name: string)
    requires Distinct(paths) && |fields| == |paths|
    requires forall i :: 0 <= i < |paths| ==> paths[i] in tags && fields[i] == tags[paths[i]].genre
    ensures MultiValue.CountHolding(fields, name) == |HoldersAmong(tags, Elements(paths), name)|
  {
    hide MultiValue.Holds;
    if paths == [] {
      assert HoldersAmong(tags, Elements(paths), name) == {};
    } else {
      var n := |paths| - 1;
      CountIsTheSet(tags, paths[..n], fields[..n], name);
      assert Elements(paths) == Elements(paths[..n]) + {paths[n]} by {
        assert paths == paths[..n] + [paths[n]];
      }
      assert paths[n] !in Elements(paths[..n]);
      OneMoreHolder(tags, Elements(paths[..n]), paths[n], name);
    }
  }

  lemma {:induction false} MatchesAreTheSet(index: seq<string>, tags: TagTable, name: string, n: nat)
    requires Distinct(index) && n <= |index|
    ensures |Matches(index, tags, ByGenre(name), n)| == |HoldersAmong(tags, Elements(index[..n]), name)|
  {
    hide MultiValue.Holds, HoldersAmong, TrackFilter.RelevanceOf, FiledUnder;
    assert HoldersAmong(tags, {}, name) == {} by { NoHolders(tags, name); }
    if n == 0 {
      assert Elements(index[..0]) == {};
    } else {
      MatchesAreTheSet(index, tags, name, n - 1);
      var path := index[n - 1];
      assert Elements(index[..n]) == Elements(index[..n - 1]) + {path} by {
        assert index[..n] == index[..n - 1] + [path];
      }
      assert path !in Elements(index[..n - 1]);
      OneMoreHolder(tags, Elements(index[..n - 1]), path, name);
    }
  }

  lemma GenresInPathOrder(tags: TagTable, name: string)
    ensures MultiValue.CountHolding(Genres(RowsOf(InPathOrder(tags))), name) == |HoldersAmong(tags, tags.Keys, name)|
  {
    hide MultiValue.Holds, SortedPaths, Less, RowOf;
    var paths := SortedPaths(tags.Keys);
    var fields := Genres(RowsOf(InPathOrder(tags)));
    forall i | 0 <= i < |paths| ensures paths[i] in tags && fields[i] == tags[paths[i]].genre {
      assert paths[i] in paths;
      assert RowOf(tags[paths[i]]).genre == tags[paths[i]].genre by { GenreOfRow(tags[paths[i]]); }
    }
    forall i, j | 0 <= i < j < |paths| ensures paths[i] != paths[j] {
      LessIrreflexive(paths[i]);
    }
    CountIsTheSet(tags, paths, fields, name);
    assert Elements(paths) == tags.Keys;
  }

  lemma GenreOfRow(t: Tags)
    ensures RowOf(t).genre == t.genre
  {
  }

  /** A genre's count is the length of the listing it filters, plus the cached
      tracks that hold it and are not indexed. */
  lemma CountIsListingAndStrays(index: seq<string>, tags: TagTable, name: string,
                                sort: Option<SortFields.SortField>, descending: bool)
    requires Distinct(index)
    ensures var count := MultiValue.CountHolding(Genres(RowsOf(InPathOrder(tags))), name);
      count == |Listing(index, tags, ByGenre(name), sort, descending)|
               + |HoldersAmong(tags, tags.Keys - Elements(index), name)|
  {
    hide MultiValue.Holds, MultiValue.CountHolding, InPathOrder, Listing, ListedBefore;
    GenresInPathOrder(tags, name);
    MatchesAreTheSet(index, tags, name, |index|);
    assert index[..|index|] == index;
    ListingIsLexicographic(index, tags, ByGenre(name), sort, descending);
    assert |multiset(Listing(index, tags, ByGenre(name), sort, descending))| == |multiset(Matches(index, tags, ByGenre(name), |index|))|;
    var indexed := HoldersAmong(tags, Elements(index), name);
    var strays := HoldersAmong(tags, tags.Keys - Elements(index), name);
    assert HoldersAmong(tags, tags.Keys, name) == indexed + strays;
    assert indexed !! strays;
  }

  /** Every entry of the genre counts is the length of the listing filtered by
      that genre exactly when no cached track outside the index holds it. */
  lemma EntryIsItsListing(index: seq<string>, tags: TagTable, entry: (string, nat),
                          sort: Option<SortFields.SortField>, descending: bool)
    requires Distinct(index)
    requires MultiValue.CountsItsFilter(Genres(RowsOf(InPathOrder(tags))), entry)
    ensures entry.1 == |Listing(index, tags, ByGenre(entry.0), sort, descending)| <==>
            HoldersAmong(tags, tags.Keys - Elements(index), entry.0) == {}
  {
    hide MultiValue.Holds, MultiValue.CountHolding, InPathOrder, Listing;
    CountIsListingAndStrays(index, tags, entry.0, sort, descending);
  }

  /** One cached track and an empty index: the genre is counted, its listing empty. */
  lemma StrayIsCounted(t: Tags, sort: Option<SortFields.SortField>, descending: bool)
    requires t.genre == "Rock"
    ensures var tags := map["a" := t];
      MultiValue.CountHolding(Genres(RowsOf(InPathOrder(tags))), "Rock") == 1
      && |Listing([], tags, ByGenre("Rock"), sort, descending)| == 0
  {
    hide MultiValue.CountHolding, InPathOrder, Listing;
    var tags := map["a" := t];
    CountIsListingAndStrays([], tags, "Rock", sort, descending);
    ListingIsLexicographic([], tags, ByGenre("Rock"), sort, descending);
    assert |multiset(Listing([], tags, ByGenre("Rock"), sort, descending))| == 0;
    RockHolds();
    assert HoldersAmong(tags, tags.Keys - Elements([]), "Rock") == {"a"};
  }

  lemma RockHolds()
    ensures MultiValue.Holds("Rock", "Rock")
  {
    assert FreeOf("Rock", MultiValue.SEPARATORS);
    SplitNothing("Rock", MultiValue.SEPARATORS);
    TrimOfTrimmed("Rock");
    assert ["Rock"][1..] == [];
    assert MultiValue.Values("Rock") == ["Rock"];
  }

  /** With the memo coherent and the cached tracks exactly the indexed ones,
      every count a reader is given is the length of that genre's listing. */
  lemma CountsAgreeWithListings(s: GenreMemo.State, step: GenreMemo.Step, entry: (string, nat),
                                sort: Option<SortFields.SortField>, descending: bool)
    requires GenreMemo.Inv(s) && GenreMemo.Enabled(s, step) && s.writers == map[]
    requires GenreMemo.Answer(s, step).Some?
    requires Distinct(GenreMemo.Now(s).index) && GenreMemo.Now(s).tags.Keys == Elements(GenreMemo.Now(s).index)
    requires MultiValue.CountsItsFilter(Genres(GenreMemo.Answer(s, step).value.rows), entry)
    ensures var db := GenreMemo.Now(s);
      entry.1 == |Listing(db.index, db.tags, ByGenre(entry.0), sort, descending)|
  {
    hide MultiValue.Holds, MultiValue.CountHolding, InPathOrder, Listing, MultiValue.CountsItsFilter;
    var db := GenreMemo.Now(s);
    EntryIsItsListing(db.index, db.tags, entry, sort, descending);
  }
}
