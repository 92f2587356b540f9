/** The tracks a filter admits, in the one order the two stable sorts give them. */
module TrackListing {
  import opened Order
  import opened Text
  import opened Sorting
  import opened CachedTags
  import opened SortFields
  import Credits
  import MultiValue

  type TagTable = map<string, Tags>

  /** A search text and three scopes, each optional. */
  datatype TrackFilter = TrackFilter(
    query: Option<string>,
    artist: Option<string>,
    album: Option<string>,
    genre: Option<string>)
  {
    predicate Admits(track: Option<Tags>, path: string) {
      match track
      case None =>
        artist.None? && album.None? && genre.None? && query.Some? && ContainsIgnoringCase(FileName(path), query.value)
      case Some(t) =>
        && (artist.Some? ==> FiledUnder(t, artist.value))
        && (album.Some? ==> EqualsIgnoringCase(t.album, album.value))
        && (genre.Some? ==> MultiValue.Holds(t.genre, genre.value))
        && (query.Some? ==> ContainsIgnoringCase(t.title, query.value) || ContainsIgnoringCase(t.artist, query.value))
    }

    /** The lower relevance of title and artist, or that of the file name. */
    function RelevanceOf(track: Option<Tags>, path: string): nat {
      match query
      case None => 0
      case Some(needle) =>
        match track
        case None => Relevance(FileName(path), needle)
        case Some(t) =>
          var title, byArtist := Relevance(t.title, needle), Relevance(t.artist, needle);
          if title < byArtist then title else byArtist
    }
  }

  const SEPARATORS: set<char> := {'/', '\\'}
  const WHITESPACE: set<char> := set c: char | IsWhitespace(c)

  /** The part of a path after its last separator. */
  function FileName(path: string): string {
    var pieces := Split(path, SEPARATORS);
    pieces[|pieces| - 1]
  }

  predicate HasWordStarting(name: string, needle: string) {
    var words := Split(name, WHITESPACE);
    exists i :: 0 <= i < |words| && words[i] != "" && needle <= words[i]
  }

  function Relevance(name: string, needle: string): nat {
    var lowered := Lower(name);
    if lowered == needle then 0
    else if needle <= lowered then 1
    else if needle <= Collate(lowered) then 2
    else if HasWordStarting(lowered, needle) then 3
    else 4
  }

  /** The empty name means untagged; any other is an artist, an album artist or
      somebody credited. The stored credits are read only if they hold the name. */
  predicate FiledUnder(t: Tags, artist: string) {
    if artist == "" then t.artist == "" && t.albumArtist == ""
    else
      || EqualsIgnoringCase(t.artist, artist)
      || EqualsIgnoringCase(t.albumArtist, artist)
      || (ContainsIgnoringCase(t.multiArtist, artist)
          && exists i :: 0 <= i < |t.CreditedNames()| && EqualsIgnoringCase(t.CreditedNames()[i], artist))
  }

  // --------------------------------------------------------------- matching

  /** An admitted track: its place in the index, how well it answers and its tags. */
  datatype Match = Match(pos: nat, rank: nat, cached: Option<Tags>, path: string)

  function Lookup(tags: TagTable, path: string): Option<Tags> {
    if path in tags then Some(tags[path]) else None
  }

  function MatchAt(index: seq<string>, tags: TagTable, filter: TrackFilter, pos: nat): Match
    requires pos < |index|
  {
    var cached := Lookup(tags, index[pos]);
    Match(pos, filter.RelevanceOf(cached, index[pos]), cached, index[pos])
  }

  /** The admitted tracks in index order. */
  function Matches(index: seq<string>, tags: TagTable, filter: TrackFilter, n: nat): seq<Match>
    requires n <= |index|
  {
    if n == 0 then []
    else
      Matches(index, tags, filter, n - 1) +
      if filter.Admits(Lookup(tags, index[n - 1]), index[n - 1]) then [MatchAt(index, tags, filter, n - 1)] else []
  }

  function ByRank(): (Match, Match) -> Cmp {
    (a: Match, b: Match) => CompareInts(a.rank, b.rank)
  }

  /** Tagged rows by the field, all of them before the untagged. */
  function ByField(f: SortField, descending: bool): (Match, Match) -> Cmp {
    (a: Match, b: Match) =>
      if a.cached.Some? && b.cached.Some? then f.Order(a.cached.value, b.cached.value, descending)
      else if a.cached.Some? then Smaller
      else if b.cached.Some? then Larger
      else Equal
  }

  function Sorted(matches: seq<Match>, sort: Option<SortField>, descending: bool): seq<Match> {
    var ranked := StableSort(matches, ByRank());
    match sort
    case None => ranked
    case Some(f) => StableSort(ranked, ByField(f, descending))
  }

  function Paths(matches: seq<Match>): seq<string> {
    seq(|matches|, i requires 0 <= i < |matches| => matches[i].path)
  }

  function Listing(index: seq<string>, tags: TagTable, filter: TrackFilter, sort: Option<SortField>, descending: bool): seq<Match> {
    Sorted(Matches(index, tags, filter, |index|), sort, descending)
  }

  /** Computes the paths of `Listing` by a scan and one or two sorts. */
  method TrackPathsWhere(validated: bool, index: seq<string>, tags: TagTable, filter: TrackFilter,
                         sort: Option<SortField>, descending: bool) returns (paths: seq<string>)
    ensures paths == if validated then Paths(Listing(index, tags, filter, sort, descending)) else []
  {
    hide TrackFilter.Admits, TrackFilter.RelevanceOf, StableSort;
    if !validated {
      return [];
    }
    var matched: seq<Match> := [];
    for n := 0 to |index|
      invariant matched == Matches(index, tags, filter, n)
    {
      var cached := Lookup(tags, index[n]);
      if filter.Admits(cached, index[n]) {
        var rank := filter.RelevanceOf(cached, index[n]);
        matched := matched + [Match(n, rank, cached, index[n])];
      }
    }
    matched := StableSort(matched, ByRank());
    if sort.Some? {
      matched := StableSort(matched, ByField(sort.value, descending));
    }
    paths := Paths(matched);
  }

  // --------------------------------------------------------------- theorems

  lemma ByRankIsTotal()
    ensures TotalPreorder(ByRank())
  {
  }

  lemma ByFieldIsTotal(f: SortField, descending: bool)
    ensures TotalPreorder(ByField(f, descending))
  {
    hide SortField.Order;
    OrderIsTotal(f, descending);
    var order := f.By(descending);
    forall a: Match, b: Match ensures ByField(f, descending)(b, a) == ByField(f, descending)(a, b).Reverse() {
      if a.cached.Some? && b.cached.Some? {
        assert order(b.cached.value, a.cached.value) == order(a.cached.value, b.cached.value).Reverse();
      }
    }
    forall a: Match, b: Match, c: Match
      ensures Coherent(ByField(f, descending)(a, b), ByField(f, descending)(b, c), ByField(f, descending)(a, c))
    {
      if a.cached.Some? && b.cached.Some? && c.cached.Some? {
        var x, y, z := a.cached.value, b.cached.value, c.cached.value;
        assert Coherent(order(x, y), order(y, z), order(x, z));
      }
    }
  }

  /** Better answers first, index order among equals. */
  predicate AnswersBefore(a: Match, b: Match) {
    a.rank < b.rank || (a.rank == b.rank && a.pos < b.pos)
  }

  /** Tagged rows first, then the field in the asked direction, then the answer. */
  ghost predicate ListedBefore(a: Match, b: Match, sort: Option<SortField>, descending: bool) {
    match sort
    case None => AnswersBefore(a, b)
    case Some(f) =>
      if a.cached.None? || b.cached.None? then
        (a.cached.Some? && b.cached.None?) || (a.cached.None? && b.cached.None? && AnswersBefore(a, b))
      else
        && StandsInOrder(f, a.cached.value, b.cached.value, descending)
        && (StandsInOrder(f, b.cached.value, a.cached.value, descending) ==> AnswersBefore(a, b))
  }

  ghost function ListedBy(sort: Option<SortField>, descending: bool): (Match, Match) -> bool {
    (a: Match, b: Match) => ListedBefore(a, b, sort, descending)
  }

  lemma {:induction false} MatchesAreAdmitted(index: seq<string>, tags: TagTable, filter: TrackFilter, n: nat)
    requires n <= |index|
    ensures forall m :: m in Matches(index, tags, filter, n) <==>
      m.pos < n && m == MatchAt(index, tags, filter, m.pos) && filter.Admits(m.cached, m.path)
    ensures Ranked(Matches(index, tags, filter, n), (a: Match, b: Match) => a.pos < b.pos)
  {
    hide TrackFilter.Admits, TrackFilter.RelevanceOf;
    if n > 0 {
      MatchesAreAdmitted(index, tags, filter, n - 1);
    }
  }

  /** The listing is exactly the admitted tracks, each once, and every one comes
      before the next: by taggedness, field, answer and place in the index. */
  lemma ListingIsLexicographic(index: seq<string>, tags: TagTable, filter: TrackFilter, sort: Option<SortField>, descending: bool)
    ensures var rows := Listing(index, tags, filter, sort, descending);
      && multiset(rows) == multiset(Matches(index, tags, filter, |index|))
      && (forall m :: m in rows <==>
            m.pos < |index| && m == MatchAt(index, tags, filter, m.pos) && filter.Admits(m.cached, m.path))
      && Ranked(rows, ListedBy(sort, descending))
  {
    hide TrackFilter.Admits, TrackFilter.RelevanceOf, SortField.Order, StableSort, Matches, MatchAt, StandsInOrder;
    var matches := Matches(index, tags, filter, |index|);
    var inIndex := (a: Match, b: Match) => a.pos < b.pos;
    MatchesAreAdmitted(index, tags, filter, |index|);
    ByRankIsTotal();
    SortKeepsElements(matches, ByRank());
    StableSortRefines(matches, ByRank(), inIndex);
    var ranked := StableSort(matches, ByRank());
    var rows := Listing(index, tags, filter, sort, descending);
    if sort.Some? {
      ByFieldIsTotal(sort.value, descending);
      SortKeepsElements(ranked, ByField(sort.value, descending));
      StableSortRefines(ranked, ByField(sort.value, descending), Refine(ByRank(), inIndex));
    }
    RefinedIsListed(rows, sort, descending);
    assert forall m :: m in rows <==> m in multiset(rows);
    assert forall m :: m in matches <==> m in multiset(matches);
  }

  lemma RefinedIsListed(rows: seq<Match>, sort: Option<SortField>, descending: bool)
    requires var answer := Refine(ByRank(), (a: Match, b: Match) => a.pos < b.pos);
      Ranked(rows, if sort.None? then answer else Refine(ByField(sort.value, descending), answer))
    ensures Ranked(rows, ListedBy(sort, descending))
  {
    hide SortField.Order, StandsInOrder;
    if sort.Some? {
      forall i, j | 0 <= i < j < |rows| && rows[i].cached.Some? && rows[j].cached.Some?
        ensures ListedBefore(rows[i], rows[j], sort, descending)
      {
        var a, b := rows[i].cached.value, rows[j].cached.value;
        OrderMeans(sort.value, a, b, descending);
        OrderMeans(sort.value, b, a, descending);
        OrderIsCoherent(sort.value, a, b, a, descending);
        assert Refine(ByField(sort.value, descending), Refine(ByRank(), (x: Match, y: Match) => x.pos < y.pos))(rows[i], rows[j]);
      }
    }
  }

  /** No two different matches come before each other, so the listing is the
      only list of its tracks in that order. */
  lemma ListedBeforeIsStrict(a: Match, b: Match, sort: Option<SortField>, descending: bool)
    requires ListedBefore(a, b, sort, descending)
    ensures !ListedBefore(b, a, sort, descending)
  {
    hide StandsInOrder;
  }

  /** That order leaves one listing: any list of the same matches in it is this one. */
  lemma ListingIsTheOnlyOne(index: seq<string>, tags: TagTable, filter: TrackFilter, sort: Option<SortField>, descending: bool,
                            rows: seq<Match>)
    requires multiset(rows) == multiset(Matches(index, tags, filter, |index|))
    requires Ranked(rows, ListedBy(sort, descending))
    ensures rows == Listing(index, tags, filter, sort, descending)
  {
    hide ListedBefore, Listing, Matches, StandsInOrder;
    ListingIsLexicographic(index, tags, filter, sort, descending);
    forall a, b | ListedBy(sort, descending)(a, b) ensures !ListedBy(sort, descending)(b, a) {
      ListedBeforeIsStrict(a, b, sort, descending);
    }
    RankedIsUnique(rows, Listing(index, tags, filter, sort, descending), ListedBy(sort, descending));
  }

  // ----------------------------------------------- what a filter and a rank mean

  /** Each scope narrows by itself: a tagged track is admitted exactly when each
      part of the filter alone admits it, and an empty filter admits them all. */
  lemma ScopesAreIndependent(f: TrackFilter, t: Tags, path: string)
    ensures f.Admits(Some(t), path) <==>
      && TrackFilter(f.query, None, None, None).Admits(Some(t), path)
      && TrackFilter(None, f.artist, None, None).Admits(Some(t), path)
      && TrackFilter(None, None, f.album, None).Admits(Some(t), path)
      && TrackFilter(None, None, None, f.genre).Admits(Some(t), path)
    ensures TrackFilter(None, None, None, None).Admits(Some(t), path)
  {
    hide FiledUnder, ContainsIgnoringCase, EqualsIgnoringCase, MultiValue.Holds;
  }

  /** The text stands somewhere in the name, ignoring case. */
  ghost predicate StandsIn(text: string, name: string) {
    exists i :: 0 <= i <= |name| && Lower(text) <= Lower(name)[i..]
  }

  /** What each part asks of a track: the query stands in its title or its
      artist, and the album is the scope's, ignoring case; a track without tags
      answers to nothing but a query, which its file name has to hold. */
  lemma ScopesMean(text: string, t: Tags, path: string, f: TrackFilter)
    ensures TrackFilter(Some(text), None, None, None).Admits(Some(t), path) <==> StandsIn(text, t.title) || StandsIn(text, t.artist)
    ensures TrackFilter(None, None, Some(text), None).Admits(Some(t), path) <==> Lower(text) == Lower(t.album)
    ensures TrackFilter(None, Some(""), None, None).Admits(Some(t), path) <==> t.artist == "" && t.albumArtist == ""
    ensures TrackFilter(None, None, None, Some(text)).Admits(Some(t), path) <==> MultiValue.Holds(t.genre, text)
    ensures f.Admits(None, path) <==>
      f.query.Some? && f == TrackFilter(f.query, None, None, None) && StandsIn(f.query.value, FileName(path))
  {
    hide FileName, Lower, MultiValue.Holds;
  }

  /** The file name is what stands behind the last separator of either kind. */
  lemma FileNameIsTheLastPart(path: string) returns (dir: string)
    ensures path == dir + FileName(path)
    ensures '/' !in FileName(path) && '\\' !in FileName(path)
    ensures dir == "" || dir[|dir| - 1] == '/' || dir[|dir| - 1] == '\\'
  {
    dir := LastPieceIsTheEnd(path, SEPARATORS);
  }

  /** A word of the text begins here. */
  predicate WordStartsAt(s: string, i: int) {
    0 <= i < |s| && !IsWhitespace(s[i]) && (i == 0 || IsWhitespace(s[i - 1]))
  }

  predicate StartsWordAt(s: string, needle: string, i: int) {
    WordStartsAt(s, i) && needle <= s[i..] && FreeOf(needle, WHITESPACE)
  }

  predicate IsWordStarting(word: string, needle: string) {
    word != "" && needle <= word
  }

  lemma {:induction false} FirstWordStarts(s: string, needle: string)
    ensures needle <= Split(s, WHITESPACE)[0] <==> needle <= s && FreeOf(needle, WHITESPACE)
    ensures Split(s, WHITESPACE)[0] != "" <==> WordStartsAt(s, 0)
  {
    SplitFirstPiece(s, WHITESPACE);
    var first := Split(s, WHITESPACE)[0];
    if needle <= first {
      assert forall c :: c in needle ==> c in first;
    }
    if needle <= s && FreeOf(needle, WHITESPACE) && |first| < |s| {
      assert |needle| <= |first|;
    }
  }

  /** Beyond the first, the pieces of a text are the words that start beyond its start. */
  lemma {:induction false} LaterWordsStart(s: string, needle: string)
    ensures var words := Split(s, WHITESPACE);
      (exists k :: 1 <= k < |words| && IsWordStarting(words[k], needle)) <==> (exists i :: i >= 1 && StartsWordAt(s, needle, i))
  {
    if s != "" {
      var rest := s[1..];
      var words, later := Split(s, WHITESPACE), Split(rest, WHITESPACE);
      LaterWordsStart(rest, needle);
      FirstWordStarts(rest, needle);
      forall i | i >= 1 ensures StartsWordAt(s, needle, i) <==>
          StartsWordAt(rest, needle, i - 1) && (i == 1 ==> IsWhitespace(s[0]))
      {
        assert i <= |s| ==> s[i..] == rest[i - 1..];
      }
      if IsWhitespace(s[0]) {
        assert words == [""] + later && rest[0..] == rest;
        assert IsWordStarting(later[0], needle) <==> StartsWordAt(rest, needle, 0);
        Shifted(later, words, s, rest, needle);
      } else {
        assert words == [words[0]] + later[1..];
        hide StartsWordAt;
        SameLater(later, words, needle);
        assert forall i :: i >= 1 && StartsWordAt(rest, needle, i) ==> StartsWordAt(s, needle, i + 1);
        assert !StartsWordAt(s, needle, 1);
      }
    }
  }

  lemma SameLater(later: seq<string>, words: seq<string>, needle: string)
    requires words != [] && later != [] && words == [words[0]] + later[1..]
    ensures (exists k :: 1 <= k < |words| && IsWordStarting(words[k], needle)) <==>
            (exists k :: 1 <= k < |later| && IsWordStarting(later[k], needle))
  {
    assert forall k :: 1 <= k < |words| ==> words[k] == later[k];
  }

  lemma Shifted(later: seq<string>, words: seq<string>, s: string, rest: string, needle: string)
    requires later != [] && words == [""] + later
    requires forall i :: i >= 1 ==> (StartsWordAt(s, needle, i) <==> StartsWordAt(rest, needle, i - 1))
    requires IsWordStarting(later[0], needle) <==> StartsWordAt(rest, needle, 0)
    requires (exists k :: 1 <= k < |later| && IsWordStarting(later[k], needle)) <==> (exists i :: i >= 1 && StartsWordAt(rest, needle, i))
    ensures (exists k :: 1 <= k < |words| && IsWordStarting(words[k], needle)) <==> (exists i :: i >= 1 && StartsWordAt(s, needle, i))
  {
    hide StartsWordAt, IsWordStarting;
    assert forall k :: 1 <= k < |words| ==> words[k] == later[k - 1];
    assert forall k :: 0 <= k < |later| ==> later[k] == words[k + 1];
    assert forall i :: i >= 0 && StartsWordAt(rest, needle, i) ==> StartsWordAt(s, needle, i + 1);
  }

  /** The last thing looked at is the start of every word. */
  lemma WordStartingMeans(s: string, needle: string)
    ensures HasWordStarting(s, needle) <==> exists i :: StartsWordAt(s, needle, i)
  {
    FirstWordStarts(s, needle);
    LaterWordsStart(s, needle);
    assert s[0..] == s;
    var words := Split(s, WHITESPACE);
    assert IsWordStarting(words[0], needle) <==> StartsWordAt(s, needle, 0);
    assert HasWordStarting(s, needle) <==> exists k :: 0 <= k < |words| && IsWordStarting(words[k], needle) by {
      if HasWordStarting(s, needle) {
        var k :| 0 <= k < |words| && words[k] != "" && needle <= words[k];
        assert IsWordStarting(words[k], needle);
      }
    }
    hide StartsWordAt, IsWordStarting, HasWordStarting, Split;
  }

  /** What the ranks mean, best first: the name itself; its beginning; its
      beginning less an article; the beginning of one of its words; anything else. */
  lemma RelevanceMeans(name: string, needle: string)
    ensures var lowered := Lower(name);
      var rank := Relevance(name, needle);
      && (rank == 0 <==> lowered == needle)
      && (rank <= 1 <==> needle <= lowered)
      && (rank <= 2 <==> needle <= lowered || needle <= Collate(lowered))
      && (rank <= 3 <==> needle <= lowered || needle <= Collate(lowered) || exists i :: StartsWordAt(lowered, needle, i))
      && rank <= 4
  {
    hide Collate, Lower, StartsWordAt, HasWordStarting;
    WordStartingMeans(Lower(name), needle);
  }

  /** A track ranks by the better of title and artist, one without tags by its
      file name, and without a query all rank alike. */
  lemma TracksRankByTheirBest(f: TrackFilter, t: Tags, path: string, rank: nat)
    ensures f.query.Some? ==>
      (f.RelevanceOf(Some(t), path) <= rank <==>
        Relevance(t.title, f.query.value) <= rank || Relevance(t.artist, f.query.value) <= rank)
    ensures f.query.Some? ==> f.RelevanceOf(None, path) == Relevance(FileName(path), f.query.value)
    ensures f.query.None? ==> f.RelevanceOf(Some(t), path) == f.RelevanceOf(None, path) == 0
  {
    hide Relevance;
  }

  // ------------------------------------------------------- filing by artist

  predicate Credited(t: Tags, artist: string) {
    exists i :: 0 <= i < |t.CreditedNames()| && EqualsIgnoringCase(t.CreditedNames()[i], artist)
  }

  /** Filing by everything a track credits, whatever its stored text looks like. */
  predicate FiledByCredits(t: Tags, artist: string) {
    EqualsIgnoringCase(t.artist, artist) || EqualsIgnoringCase(t.albumArtist, artist) || Credited(t, artist)
  }

  /** Neither artist tag is the name, and the stored credits do not hold it as it stands. */
  predicate Unheld(t: Tags, artist: string) {
    && !EqualsIgnoringCase(t.artist, artist)
    && !EqualsIgnoringCase(t.albumArtist, artist)
    && !ContainsIgnoringCase(t.multiArtist, artist)
  }

  /** The track is browsed under its stored leads, not under its display artist. */
  predicate ReadsOwnLeads(t: Tags) {
    Trim(t.artist) == "" || Credits.IsSplit(Credits.Parse(t.multiArtist))
  }

  function StoredEntries(t: Tags): seq<string> {
    Split(t.multiArtist, Credits.NUL)
  }

  /** The first cause of a miss: a stored lead of that name with a byte order mark inside it. */
  ghost predicate MarkedLead(t: Tags, artist: string) {
    ReadsOwnLeads(t) && exists entry :: entry in StoredEntries(t) && LeadOf(entry, artist) && MarkedEntry(entry)
  }

  ghost predicate MarkedEntry(entry: string) {
    Credits.MarkedInside(Credits.TextPart(entry))
  }

  predicate LeadOf(entry: string, artist: string) {
    var c := Credits.ParseEntry(entry);
    c.Some? && c.value.role.IsLead() && EqualsIgnoringCase(c.value.name, artist)
  }

  /** The second: the name is the display artist's, but for blanks around that. */
  predicate UntrimmedArtist(t: Tags, artist: string) {
    !ReadsOwnLeads(t) && !Trimmed(t.artist) && EqualsIgnoringCase(Trim(t.artist), artist)
  }

  /** Somebody is credited on a track browsed by its stored leads exactly when an entry names them. */
  lemma CreditedIffLead(t: Tags, artist: string)
    requires ReadsOwnLeads(t)
    ensures Credited(t, artist) <==> exists entry :: entry in StoredEntries(t) && LeadOf(entry, artist)
  {
    hide Trim, Lower, Credits.ReadsAsLead, LeadOf;
    var entries := StoredEntries(t);
    if Credited(t, artist) {
      var j :| 0 <= j < |t.CreditedNames()| && EqualsIgnoringCase(t.CreditedNames()[j], artist);
      Credits.LeadsAreRead(entries, t.CreditedNames()[j]);
      var i :| 0 <= i < |entries| && Credits.ReadsAsLead(entries[i], t.CreditedNames()[j]);
      LeadReads(entries[i], t.CreditedNames()[j], artist);
    }
    if exists entry :: entry in entries && LeadOf(entry, artist) {
      var i :| 0 <= i < |entries| && LeadOf(entries[i], artist);
      var name := LeadName(entries[i], artist);
      Credits.LeadsAreRead(entries, name);
      assert name in t.CreditedNames();
    }
  }

  lemma LeadReads(entry: string, name: string, artist: string)
    requires Credits.ReadsAsLead(entry, name) && EqualsIgnoringCase(name, artist)
    ensures LeadOf(entry, artist)
  {
  }

  lemma LeadName(entry: string, artist: string) returns (name: string)
    requires LeadOf(entry, artist)
    ensures Credits.ReadsAsLead(entry, name) && EqualsIgnoringCase(name, artist)
  {
    name := Credits.ParseEntry(entry).value.name;
  }

  /** An unmarked entry's name stands in the stored text. */
  lemma UnmarkedLeadIsHeld(t: Tags, entry: string, artist: string)
    requires entry in StoredEntries(t) && LeadOf(entry, artist) && !MarkedEntry(entry)
    ensures ContainsIgnoringCase(t.multiArtist, artist)
  {
    hide Contains, Lower, Credits.MarkedInside;
    var i :| 0 <= i < |StoredEntries(t)| && StoredEntries(t)[i] == entry;
    Credits.UnmarkedNamesAreInside(t.multiArtist, i);
    LowerIsInside(t.multiArtist, Credits.ParseEntry(entry).value.name);
  }

  /** A name nothing holds is credited exactly for one of the two causes. */
  lemma UnheldCredit(t: Tags, artist: string)
    requires Unheld(t, artist)
    ensures Credited(t, artist) <==> MarkedLead(t, artist) || UntrimmedArtist(t, artist)
  {
    hide Contains, Lower, Trim, LeadOf, MarkedEntry;
    if ReadsOwnLeads(t) {
      CreditedIffLead(t, artist);
      forall entry | entry in StoredEntries(t) && LeadOf(entry, artist) ensures MarkedEntry(entry) {
        if !MarkedEntry(entry) {
          UnmarkedLeadIsHeld(t, entry, artist);
        }
      }
    } else {
      Credits.DisplayNamesTheArtist(t.multiArtist, t.artist);
      assert t.CreditedNames() == [Trim(t.artist)];
      assert Credited(t, artist) <==> EqualsIgnoringCase(t.CreditedNames()[0], artist);
      if Trimmed(t.artist) {
        TrimOfTrimmed(t.artist);
      }
    }
  }

  /** Reading the credits only when the stored text holds the name gives the same
      answer exactly unless neither tag nor text holds it and it is a stored lead
      marked inside, or the display artist but for blanks. */
  lemma GuardIsExactIff(t: Tags, artist: string)
    requires artist != ""
    ensures (FiledUnder(t, artist) <==> FiledByCredits(t, artist)) <==>
      !(Unheld(t, artist) && (MarkedLead(t, artist) || UntrimmedArtist(t, artist)))
  {
    if Unheld(t, artist) {
      UnheldCredit(t, artist);
    }
    hide Credited, EqualsIgnoringCase, ContainsIgnoringCase, MarkedLead, UntrimmedArtist;
  }

  /** So it misses nobody on a track with no mark inside a stored name, padding
      around the names aside, whose display artist is trimmed or not used. */
  lemma GuardMissesNobody(t: Tags, artist: string)
    requires artist != "" && (Trimmed(t.artist) || ReadsOwnLeads(t))
    requires forall entry :: entry in StoredEntries(t) ==> !MarkedEntry(entry)
    ensures FiledUnder(t, artist) <==> FiledByCredits(t, artist)
  {
    hide FiledUnder, FiledByCredits, ReadsOwnLeads, MarkedEntry, LeadOf;
    GuardIsExactIff(t, artist);
  }

  /** A display artist with a blank in front is credited trimmed, and missed. */
  lemma GuardMissesUntrimmedArtists(t: Tags)
    requires t.multiArtist == "" && t.artist == " X" && t.albumArtist == ""
    ensures Credited(t, "X") && !FiledUnder(t, "X")
  {
    hide Credits.Parse, Credits.OrDisplay, Contains, Trim;
    BlankArtistIsCredited();
    assert t.CreditedNames()[0] == "X";
    assert |Lower(" X")| == 2 && |Lower("X")| == 1 && |Lower("")| == 0;
    TooShortToHold(Lower(""), Lower("X"));
  }

  lemma TooShortToHold(hay: string, needle: string)
    requires |hay| < |needle|
    ensures !Contains(hay, needle)
  {
  }

  lemma BlankArtistIsCredited()
    ensures Credits.LeadNames(Credits.OrDisplay("", " X")) == ["X"]
  {
    hide Trim, Credits.LeadNames, Credits.ParseEntry, Split;
    assert " " + "X" + "" == " X";
    TrimPadded(" ", "X", "");
    Credits.EmptyEntryIsSkipped();
    SplitNothing("", Credits.NUL);
    Credits.DisplayNamesTheArtist("", " X");
    NoLeads();
  }

  lemma NoLeads()
    ensures !Credits.IsSplit([])
  {
  }

  /** With a byte order mark inside a name it does miss: the guest is credited
      but not filed under. */
  lemma GuardMissesMarkedNames(t: Tags)
    requires t.multiArtist == "\U{0001}A\U{FEFF}B" && t.artist == "X" && t.albumArtist == ""
    ensures Credited(t, "AB") && !FiledUnder(t, "AB")
  {
    MarkedGuest();
    var credits := Credits.Parse(t.multiArtist);
    assert credits[0].role.Guest?;
    assert t.CreditedNames() == ["AB"] by {
      Credits.DisplayNamesTheArtist(t.multiArtist, t.artist);
      assert credits[1..] == [];
      assert Credits.LeadNames(credits) == ["AB"];
    }
    assert EqualsIgnoringCase(t.CreditedNames()[0], "AB");
    var hay, needle := Lower(t.multiArtist), Lower("AB");
    assert hay[0] == '\U{0001}' && hay[1] == 'a' && hay[2] == '\U{FEFF}' && hay[3] == 'b';
    assert needle[0] == 'a' && needle[1] == 'b';
    assert Lower("X")[0] == 'x';
    assert |Lower("")| == 0;
    TwoAreNotInside(hay, needle);
  }

  lemma TwoAreNotInside(hay: string, needle: string)
    requires |needle| == 2 && forall i :: 0 <= i < |hay| - 1 && hay[i] == needle[0] ==> hay[i + 1] != needle[1]
    ensures !Contains(hay, needle)
  {
    forall i | 0 <= i <= |hay| ensures !(needle <= hay[i..]) {
      if i < |hay| - 1 {
        assert hay[i..][0] == hay[i] && hay[i..][1] == hay[i + 1];
      }
    }
  }

  lemma MarkedGuest()
    ensures Credits.Parse("\U{0001}A\U{FEFF}B") == [Credits.Credit("AB", Credits.Guest, None)]
  {
    var raw := "\U{0001}A\U{FEFF}B";
    Credits.ParseOne(raw);
    var text := raw[1..];
    assert text == "A\U{FEFF}B";
    assert Credits.RemoveBom(text) == "AB" by {
      assert text[1..] == "\U{FEFF}B" && text[1..][1..] == "B" && "B"[1..] == "";
      assert Credits.RemoveBom("B") == "B";
    }
    TrimOfTrimmed("AB");
  }
}
