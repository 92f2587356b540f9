/** The tags cached for a track, and the part of them the browse lists count. */
module CachedTags {
  import opened Order
  import Credits

  /** A rating is a real: the comparison of ratings matters here, not their rounding. */
  datatype Tags = Tags(
    src: string,
    artist: string,
    title: string,
    album: string,
    albumArtist: string,
    trackNo: int,
    discNo: int,
    genre: string,
    multiArtist: string,
    year: int,
    originalYear: int,
    rating: real,
    dateAdded: string)
  {
    /** `originalYear` where it is set, `year` where it is not. */
    function ReleaseYear(): int {
      if originalYear > 0 then originalYear else year
    }

    /** Lead names of the stored credits; for an unsplit track, what it shows. */
    function CreditedNames(): seq<string> {
      Credits.LeadNames(Credits.OrDisplay(multiArtist, artist))
    }
  }

  /** Every cached row, as the tag table is read: by path. */
  function InPathOrder(tags: map<string, Tags>): seq<Tags> {
    var paths := SortedPaths(tags.Keys);
    seq(|paths|, i requires 0 <= i < |paths| => assert paths[i] in paths; tags[paths[i]])
  }

  /** What counting needs of a row. */
  datatype BrowseRow = BrowseRow(genre: string, artist: string, credited: seq<string>, album: string, albumOwner: string)

  function RowOf(t: Tags): BrowseRow {
    BrowseRow(t.genre, t.artist, t.CreditedNames(), t.album, if t.albumArtist == "" then t.artist else t.albumArtist)
  }

  function RowsOf(tags: seq<Tags>): seq<BrowseRow> {
    seq(|tags|, i requires 0 <= i < |tags| => RowOf(tags[i]))
  }
}
