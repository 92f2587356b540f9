/** Nine ways to compare two rows, each of them a total preorder both ways. */
module SortFields {
  import opened Order
  import opened Text
  import opened Sorting
  import opened CachedTags

  /** The sort key of a name: trimmed and folded, less one English article in front. */
  function Collate(name: string): string {
    var lowered := Lower(Trim(name));
    if "the " <= lowered then TrimStart(lowered[4..])
    else if "a " <= lowered then TrimStart(lowered[2..])
    else if "an " <= lowered then TrimStart(lowered[3..])
    else lowered
  }

  function CompareText(x: string, y: string): Cmp {
    if x == y then Equal else if Less(x, y) then Smaller else Larger
  }

  function CompareNames(x: string, y: string): Cmp {
    CompareText(Collate(x), Collate(y))
  }

  function CompareInts(x: int, y: int): Cmp {
    if x < y then Smaller else if x == y then Equal else Larger
  }

  function CompareReals(x: real, y: real): Cmp {
    if x < y then Smaller else if x == y then Equal else Larger
  }

  datatype SortField = Title | Artist | Album | AlbumArtist | Track | Year | OriginalYear | Rating | DateAdded {

    function AsStr(): string {
      match this
      case Title => "title"
      case Artist => "artist"
      case Album => "album"
      case AlbumArtist => "album_artist"
      case Track => "track"
      case Year => "year"
      case OriginalYear => "original_year"
      case Rating => "rating"
      case DateAdded => "date_added"
    }

    /** What the field itself says, before any tie is broken. */
    function Key(a: Tags, b: Tags): Cmp {
      match this
      case Title => CompareNames(a.title, b.title)
      case Artist => CompareNames(a.artist, b.artist)
      case Album => CompareNames(a.album, b.album)
      case AlbumArtist => CompareNames(a.albumArtist, b.albumArtist)
      case Track => Equal
      case Year => CompareInts(a.year, b.year)
      case OriginalYear => CompareInts(a.ReleaseYear(), b.ReleaseYear()).Then(CompareInts(a.year, b.year))
      case Rating => CompareReals(a.rating, b.rating)
      case DateAdded => CompareText(a.dateAdded, b.dateAdded)
    }

    /** Ties fall back to the reading order of an album. */
    function Compare(a: Tags, b: Tags): Cmp {
      if Title? then Key(a, b) else
        Key(a, b).Then(CompareInts(a.discNo, b.discNo).Then(CompareInts(a.trackNo, b.trackNo)))
          .Then(CompareNames(a.title, b.title))
    }

    predicate HasUndatedTail() {
      OriginalYear?
    }

    /** Where the descending order is stored, for the field that stores one. */
    function DescendingKey(): Option<string> {
      if HasUndatedTail() then Some("original_year:desc") else None
    }

    predicate Undated(t: Tags) {
      HasUndatedTail() && t.ReleaseYear() == 0
    }

    /** `Compare`, reversed between dated rows for a descending order; undated rows
        are larger than dated ones in both. */
    function Order(a: Tags, b: Tags, descending: bool): Cmp {
      if Undated(a) && !Undated(b) then Larger
      else if !Undated(a) && Undated(b) then Smaller
      else if Undated(a) then Compare(a, b)
      else if descending then Compare(a, b).Reverse()
      else Compare(a, b)
    }

    function By(descending: bool): (Tags, Tags) -> Cmp {
      (a, b) => Order(a, b, descending)
    }
  }

  const ALL: seq<SortField> := [Title, Artist, Album, AlbumArtist, Track, Year, OriginalYear, Rating, DateAdded]

  lemma TextIsCoherent(x: string, y: string, z: string)
    ensures Coherent(CompareText(x, y), CompareText(y, z), CompareText(x, z))
    ensures CompareText(y, x) == CompareText(x, y).Reverse()
  {
    LessFacts(x, y, z);
    LessFacts(y, z, x);
    LessFacts(z, x, y);
    LessFacts(x, z, y);
    LessFacts(z, y, x);
    LessFacts(y, x, z);
    hide Less;
  }

  lemma LessFacts(x: string, y: string, z: string)
    ensures x == y || Less(x, y) || Less(y, x)
    ensures !(Less(x, y) && (x == y || Less(y, x)))
    ensures Less(x, y) && Less(y, z) ==> Less(x, z)
  {
    LessTotal(x, y);
    LessIrreflexive(x);
    if Less(x, y) && Less(y, x) {
      LessTransitive(x, y, x);
    }
    if Less(x, y) && Less(y, z) {
      LessTransitive(x, y, z);
    }
  }

  lemma YearsAreCoherent(a: Tags, b: Tags, c: Tags)
    ensures Coherent(OriginalYear.Key(a, b), OriginalYear.Key(b, c), OriginalYear.Key(a, c))
    ensures OriginalYear.Key(b, a) == OriginalYear.Key(a, b).Reverse()
  {
    hide Tags.ReleaseYear;
  }

  lemma KeyIsCoherent(f: SortField, a: Tags, b: Tags, c: Tags)
    ensures Coherent(f.Key(a, b), f.Key(b, c), f.Key(a, c))
    ensures f.Key(b, a) == f.Key(a, b).Reverse()
  {
    hide Collate, Less, CompareText;
    match f
    case Title => TextIsCoherent(Collate(a.title), Collate(b.title), Collate(c.title));
    case Artist => TextIsCoherent(Collate(a.artist), Collate(b.artist), Collate(c.artist));
    case Album => TextIsCoherent(Collate(a.album), Collate(b.album), Collate(c.album));
    case AlbumArtist => TextIsCoherent(Collate(a.albumArtist), Collate(b.albumArtist), Collate(c.albumArtist));
    case DateAdded => TextIsCoherent(a.dateAdded, b.dateAdded, c.dateAdded);
    case OriginalYear => YearsAreCoherent(a, b, c);
    case _ =>
  }

  lemma IntsAreCoherent(x: int, y: int, z: int)
    ensures Coherent(CompareInts(x, y), CompareInts(y, z), CompareInts(x, z))
    ensures CompareInts(y, x) == CompareInts(x, y).Reverse()
  {
  }

  /** Coherent comparisons, each breaking the ties of the one before. */
  lemma CompareIsCoherent(f: SortField, a: Tags, b: Tags, c: Tags)
    ensures Coherent(f.Compare(a, b), f.Compare(b, c), f.Compare(a, c))
    ensures f.Compare(b, a) == f.Compare(a, b).Reverse()
  {
    hide Collate, Less, CompareText, SortField.Key, CompareInts, Coherent;
    KeyIsCoherent(f, a, b, c);
    IntsAreCoherent(a.discNo, b.discNo, c.discNo);
    IntsAreCoherent(a.trackNo, b.trackNo, c.trackNo);
    TextIsCoherent(Collate(a.title), Collate(b.title), Collate(c.title));
    var disc := (x: Tags, y: Tags) => CompareInts(x.discNo, y.discNo);
    var place := (x: Tags, y: Tags) => disc(x, y).Then(CompareInts(x.trackNo, y.trackNo));
    var placed := (x: Tags, y: Tags) => f.Key(x, y).Then(place(x, y));
    ThenIsCoherent(disc(a, b), disc(b, c), disc(a, c),
                   CompareInts(a.trackNo, b.trackNo), CompareInts(b.trackNo, c.trackNo), CompareInts(a.trackNo, c.trackNo));
    ThenIsCoherent(f.Key(a, b), f.Key(b, c), f.Key(a, c), place(a, b), place(b, c), place(a, c));
    ThenIsCoherent(placed(a, b), placed(b, c), placed(a, c),
                   CompareNames(a.title, b.title), CompareNames(b.title, c.title), CompareNames(a.title, c.title));
  }

  lemma OrderIsCoherent(f: SortField, a: Tags, b: Tags, c: Tags, descending: bool)
    ensures Coherent(f.Order(a, b, descending), f.Order(b, c, descending), f.Order(a, c, descending))
    ensures f.Order(b, a, descending) == f.Order(a, b, descending).Reverse()
  {
    hide SortField.Compare;
    CompareIsCoherent(f, a, b, c);
  }

  /** Every order, in both directions, ranks all rows: any two compare, oppositely
      each way, and no three in a circle. */
  lemma OrderIsTotal(f: SortField, descending: bool)
    ensures TotalPreorder(f.By(descending))
  {
    hide SortField.Order, Coherent;
    forall a, b ensures f.By(descending)(b, a) == f.By(descending)(a, b).Reverse() {
      OrderIsCoherent(f, a, b, a, descending);
    }
    forall a, b, c
      ensures Coherent(f.By(descending)(a, b), f.By(descending)(b, c), f.By(descending)(a, c))
    {
      OrderIsCoherent(f, a, b, c, descending);
    }
  }

  /** The descending order of two rows is their ascending one read backwards
      exactly when both can be placed, or neither can and they tie. */
  lemma MirrorsIffPlaced(f: SortField, a: Tags, b: Tags)
    ensures f.Order(a, b, true) == f.Order(b, a, false) <==>
            (!f.Undated(a) && !f.Undated(b)) || (f.Undated(a) && f.Undated(b) && f.Compare(a, b) == Equal)
  {
    hide SortField.Compare;
    CompareIsCoherent(f, a, b, a);
  }

  /** In any list in order, whatever the direction, no undated row comes before a dated one. */
  lemma UndatedComeLast(f: SortField, rows: seq<Tags>, descending: bool, i: nat, j: nat)
    requires InOrder(rows, f.By(descending)) && i < j < |rows| && f.Undated(rows[i])
    ensures f.Undated(rows[j])
  {
    hide SortField.Compare;
    assert f.By(descending)(rows[i], rows[j]) != Larger;
  }

  // ----------------------------------------------------- what the orders say

  /** The reading order of an album: disc, then track, then title. */
  ghost predicate InReadingOrder(a: Tags, b: Tags) {
    || a.discNo < b.discNo
    || (a.discNo == b.discNo && a.trackNo < b.trackNo)
    || (a.discNo == b.discNo && a.trackNo == b.trackNo && !Less(Collate(b.title), Collate(a.title)))
  }

  ghost predicate NamesInOrder(x: string, y: string, tied: bool) {
    Less(Collate(x), Collate(y)) || (Collate(x) == Collate(y) && tied)
  }

  /** The field's own tag ascends, and rows it cannot tell apart read as an album does. */
  ghost predicate Ascends(f: SortField, a: Tags, b: Tags) {
    match f
    case Title => !Less(Collate(b.title), Collate(a.title))
    case Artist => NamesInOrder(a.artist, b.artist, InReadingOrder(a, b))
    case Album => NamesInOrder(a.album, b.album, InReadingOrder(a, b))
    case AlbumArtist => NamesInOrder(a.albumArtist, b.albumArtist, InReadingOrder(a, b))
    case Track => InReadingOrder(a, b)
    case Year => a.year < b.year || (a.year == b.year && InReadingOrder(a, b))
    case OriginalYear =>
      || Released(a) < Released(b)
      || (Released(a) == Released(b) && a.year < b.year)
      || (Released(a) == Released(b) && a.year == b.year && InReadingOrder(a, b))
    case Rating => a.rating < b.rating || (a.rating == b.rating && InReadingOrder(a, b))
    case DateAdded => Less(a.dateAdded, b.dateAdded) || (a.dateAdded == b.dateAdded && InReadingOrder(a, b))
  }

  ghost function Released(t: Tags): int {
    if t.originalYear > 0 then t.originalYear else t.year
  }

  /** How two rows may stand one after the other: by release year undated rows
      stand last in both directions and ascend among themselves; all other rows
      ascend, or descend when asked. */
  ghost predicate StandsInOrder(f: SortField, a: Tags, b: Tags, descending: bool) {
    if f == OriginalYear && (Released(a) == 0 || Released(b) == 0) then
      Released(b) == 0 && (Released(a) == 0 ==> Ascends(f, a, b))
    else if descending then Ascends(f, b, a)
    else Ascends(f, a, b)
  }

  lemma TextNotLarger(x: string, y: string)
    ensures CompareText(x, y) != Larger <==> !Less(y, x)
    ensures CompareText(x, y) == Equal <==> x == y
  {
    LessFacts(x, y, x);
    hide Less;
  }

  lemma TiesAreReadingOrder(a: Tags, b: Tags)
    ensures CompareInts(a.discNo, b.discNo).Then(CompareInts(a.trackNo, b.trackNo)).Then(CompareNames(a.title, b.title)) != Larger <==>
      InReadingOrder(a, b)
  {
    TextNotLarger(Collate(a.title), Collate(b.title));
    hide Collate, Less, CompareText;
  }

  lemma KeyMeans(f: SortField, a: Tags, b: Tags)
    ensures !f.Title? ==> (Ascends(f, a, b) <==> f.Key(a, b) == Smaller || (f.Key(a, b) == Equal && InReadingOrder(a, b)))
    ensures f.Title? ==> (Ascends(f, a, b) <==> f.Key(a, b) != Larger)
  {
    hide Less, Collate, InReadingOrder;
    match f
    case Title => NameFacts(a.title, b.title);
    case Artist => NameFacts(a.artist, b.artist);
    case Album => NameFacts(a.album, b.album);
    case AlbumArtist => NameFacts(a.albumArtist, b.albumArtist);
    case DateAdded => LessFacts(a.dateAdded, b.dateAdded, a.dateAdded);
    case _ =>
  }

  lemma NameFacts(x: string, y: string)
    ensures var (cx, cy) := (Collate(x), Collate(y));
      (cx == cy || Less(cx, cy) || Less(cy, cx)) && !(Less(cx, cy) && (cx == cy || Less(cy, cx)))
  {
    LessFacts(Collate(x), Collate(y), Collate(x));
    hide Less, Collate;
  }

  lemma CompareMeans(f: SortField, a: Tags, b: Tags)
    ensures f.Compare(a, b) != Larger <==> Ascends(f, a, b)
  {
    KeyMeans(f, a, b);
    TiesAreReadingOrder(a, b);
    hide Ascends, InReadingOrder, SortField.Key, CompareInts, CompareNames;
  }

  /** Two rows may stand so exactly when their order does not forbid it. */
  lemma OrderMeans(f: SortField, a: Tags, b: Tags, descending: bool)
    ensures f.Order(a, b, descending) != Larger <==> StandsInOrder(f, a, b, descending)
  {
    CompareMeans(f, a, b);
    CompareMeans(f, b, a);
    CompareIsCoherent(f, a, b, a);
    hide Ascends, SortField.Compare;
  }

  // --------------------------------------------------------- what collating does

  lemma LowerOfConcat(x: string, y: string)
    ensures Lower(x + y) == Lower(x) + Lower(y)
  {
  }

  lemma LowerKeepsBlanks(s: string)
    ensures forall i :: 0 <= i < |s| ==> (IsWhitespace(Lower(s)[i]) <==> IsWhitespace(s[i]))
  {
  }

  predicate HasArticle(name: string) {
    "the " <= Lower(name) || "a " <= Lower(name) || "an " <= Lower(name)
  }

  lemma ArticleStarts(article: string, rest: string)
    requires Lower(article) in {"the", "a", "an"}
    ensures article != "" && !IsWhitespace(article[0])
    ensures var lowered := Lower(article) + " " + rest;
      && ("the " <= lowered <==> Lower(article) == "the") && ("a " <= lowered <==> Lower(article) == "a")
      && ("an " <= lowered <==> Lower(article) == "an")
  {
    var lowered := Lower(article) + " " + rest;
    assert |Lower(article)| == |article|;
    assert Lower(article)[0] == LowerChar(article[0]);
    assert lowered[0] == Lower(article)[0];
    assert lowered[1] == if |article| > 1 then Lower(article)[1] else ' ';
    if Lower(article) == "the" {
      assert lowered[..4] == "the ";
    } else if Lower(article) == "a" {
      assert lowered[..2] == "a ";
    } else {
      assert lowered[..3] == "an ";
    }
  }

  lemma LoweredArticle(article: string, gap: string, name: string)
    ensures Lower(article + " " + gap + name) == Lower(article) + " " + (Lower(gap) + Lower(name))
  {
    LowerOfConcat(article + " " + gap, name);
    LowerOfConcat(article + " ", gap);
    LowerOfConcat(article, " ");
    BlankIsItsOwn();
    hide Lower;
  }

  lemma BlankThenName(gap: string, name: string)
    requires Blank(gap) && name != "" && !IsWhitespace(name[0])
    ensures TrimStart(Lower(gap) + Lower(name)) == Lower(name)
  {
    hide IsWhitespace, LowerChar, TrimStart;
    LowerKeepsBlanks(gap);
    LowerKeepsBlanks(name);
    TrimStartSkips(Lower(gap), Lower(name));
    StartsUntrimmed(Lower(name));
  }

  /** One article in front of a name does not count, whatever the case and the
      blanks around either; what stands behind it does, another article included. */
  lemma CollateDropsOneArticle(before: string, article: string, gap: string, name: string, after: string)
    requires Blank(before) && Blank(gap) && Blank(after)
    requires Lower(article) in {"the", "a", "an"} && Trimmed(name) && name != ""
    ensures Collate(before + (article + " " + gap + name) + after) == Lower(name)
  {
    var core := article + " " + gap + name;
    var behind := Lower(gap) + Lower(name);
    ArticleStarts(article, behind);
    assert core[0] == article[0] && core[|core| - 1] == name[|name| - 1];
    hide IsWhitespace, LowerChar, TrimStart, TrimEnd;
    TrimPadded(before, core, after);
    LoweredArticle(article, gap, name);
    BlankThenName(gap, name);
    hide Lower, Trim, Trimmed, Blank;
    assert (Lower(article) + " " + behind)[|Lower(article)| + 1..] == behind;
  }

  lemma BlankIsItsOwn()
    ensures Lower(" ") == " "
  {
  }

  lemma StartsUntrimmed(s: string)
    requires s != "" && !IsWhitespace(s[0])
    ensures TrimStart(s) == s
  {
  }

  /** Any other name counts as a whole. */
  lemma CollateKeepsOtherNames(before: string, name: string, after: string)
    requires Blank(before) && Blank(after) && Trimmed(name) && !HasArticle(name)
    ensures Collate(before + name + after) == Lower(name)
  {
    TrimPadded(before, name, after);
  }
}
