/** Artist credits: the one string MusicBee keeps them in, read and written back. */
module Credits {
  import opened Order
  import opened Text

  const NUL: set<char> := {'\0'}
  const BOM: char := '\U{FEFF}'

  datatype Role = Artist | Guest | Performer | Remixer {
    /** An artist or a guest. */
    predicate IsLead() {
      Artist? || Guest?
    }

    function Prefix(): string {
      match this
      case Artist => ""
      case Guest => "\U{0001}"
      case Performer => "\U{0002}"
      case Remixer => "\U{0004}"
    }
  }

  function FromPrefix(c: char): Option<Role> {
    if c == '\U{0001}' then Some(Guest)
    else if c == '\U{0002}' then Some(Performer)
    else if c == '\U{0004}' then Some(Remixer)
    else None
  }

  /** One credited name; `detail` is a performer's instrument or part. */
  datatype Credit = Credit(name: string, role: Role, detail: Option<string>)

  // --------------------------------------------------------------- reading

  function RemoveBom(s: string): string {
    if s == "" then "" else (if s[0] == BOM then "" else [s[0]]) + RemoveBom(s[1..])
  }

  function Clean(s: string): string {
    Trim(RemoveBom(s))
  }

  /** Whether " (" starts at `i`. */
  predicate OpensAt(s: string, i: nat) {
    i + 2 <= |s| && s[i] == ' ' && s[i + 1] == '('
  }

  /** Where the last " (" before `end` starts. */
  function LastOpen(s: string, end: nat): (r: Option<nat>)
    ensures r.Some? ==> r.value < end && OpensAt(s, r.value)
  {
    if end == 0 then None
    else if OpensAt(s, end - 1) then Some(end - 1)
    else LastOpen(s, end - 1)
  }

  /** Where the " (" of a closing bracket starts, when a name stands before it. */
  function DetailAt(entry: string): (r: Option<nat>)
    ensures r.Some? ==> entry != "" && entry[|entry| - 1] == ')'
    ensures r.Some? ==> OpensAt(entry[..|entry| - 1], r.value) && Trim(entry[..r.value]) != ""
  {
    if entry == "" || entry[|entry| - 1] != ')' then None else
      var s := entry[..|entry| - 1];
      var open := LastOpen(s, |s|);
      if open.None? || Trim(s[..open.value]) == "" then None
      else
        assert s[..open.value] == entry[..open.value];
        open
  }

  /** The text before and inside a closing bracket; without one, no detail. */
  function SplitDetail(entry: string): (string, Option<string>) {
    match DetailAt(entry)
    case None => (entry, None)
    case Some(open) => (Trim(entry[..open]), Some(Trim(entry[open + 2..|entry| - 1])))
  }

  function ParseEntry(entry: string): Option<Credit> {
    if entry == "" then None else
      var known := if IsControl(entry[0]) then FromPrefix(entry[0]) else Some(Artist);
      if known.None? then None else
        var rest := Clean(if IsControl(entry[0]) then entry[1..] else entry);
        if rest == "" then None
        else if known.value == Performer then
          var (name, detail) := SplitDetail(rest);
          Some(Credit(name, Performer, detail))
        else Some(Credit(rest, known.value, None))
  }

  function ParseEntries(entries: seq<string>): seq<Credit> {
    if entries == [] then [] else
      (match ParseEntry(entries[0]) case None => [] case Some(c) => [c]) + ParseEntries(entries[1..])
  }

  /** The credits of a stored value, in order; an entry with an unknown role is skipped. */
  function Parse(raw: string): seq<Credit> {
    ParseEntries(Split(raw, NUL))
  }

  // --------------------------------------------------------------- writing

  /** The text stored after the role. */
  function TextOf(c: Credit): string {
    Trim(c.name) + (if c.detail.Some? && c.detail.value != "" then " (" + c.detail.value + ")" else "")
  }

  function EntryOf(c: Credit): string {
    c.role.Prefix() + TextOf(c)
  }

  function Encoded(credits: seq<Credit>): string {
    if credits == [] then "" else EntryOf(credits[0]) + "\0" + Encoded(credits[1..])
  }

  lemma {:induction false} EncodedAppends(credits: seq<Credit>, c: Credit)
    ensures Encoded(credits + [c]) == Encoded(credits) + (EntryOf(c) + "\0")
  {
    if credits == [] {
      assert credits + [c] == [c] && [c][1..] == [];
    } else {
      assert (credits + [c])[0] == credits[0] && (credits + [c])[1..] == credits[1..] + [c];
      EncodedAppends(credits[1..], c);
    }
  }

  /** The value to store for these credits. */
  method Encode(credits: seq<Credit>) returns (out: string)
    ensures out == Encoded(credits)
  {
    hide Trim, Encoded;
    out := "";
    EncodedNothing();
    for i := 0 to |credits|
      invariant out == Encoded(credits[..i])
    {
      var credit := credits[i];
      ghost var before := out;
      out := out + credit.role.Prefix();
      out := out + Trim(credit.name);
      if credit.detail.Some? && credit.detail.value != "" {
        out := out + (" (" + credit.detail.value + ")");
      }
      assert out == before + EntryOf(credit);
      out := out + "\0";
      assert credits[..i + 1] == credits[..i] + [credit];
      EncodedAppends(credits[..i], credit);
    }
    assert credits[..|credits|] == credits;
  }

  lemma EncodedNothing()
    ensures Encoded([]) == ""
  {
  }

  // ------------------------------------------------------------ round trip

  predicate HasOpen(s: string) {
    exists i :: 0 <= i < |s| && OpensAt(s, i)
  }

  /** Text that survives storing: trimmed, not blank, without NUL or byte order mark. */
  predicate Storable(s: string) {
    s != "" && Trimmed(s) && FreeOf(s, NUL + {BOM})
  }

  predicate WellFormed(c: Credit) {
    && Storable(c.name)
    && (c.role.Artist? ==> !IsControl(c.name[0]))
    && (match c.detail
        case None => c.role.Performer? ==> DetailAt(c.name).None?
        case Some(d) => c.role.Performer? && Storable(d) && !HasOpen(d))
  }

  ghost predicate NulFree(c: Credit) {
    FreeOf(c.name, NUL) && (c.detail.Some? ==> FreeOf(c.detail.value, NUL))
  }

  lemma {:induction false} LastOpenIsLast(s: string, end: nat)
    requires end <= |s|
    ensures var o := LastOpen(s, end);
      forall i :: (if o.Some? then o.value + 1 else 0) <= i < end ==> !OpensAt(s, i)
  {
    if end > 0 && !OpensAt(s, end - 1) {
      LastOpenIsLast(s, end - 1);
    }
  }

  lemma {:induction false} RemoveBomFacts(s: string)
    ensures FreeOf(RemoveBom(s), {BOM})
    ensures forall c :: c in RemoveBom(s) ==> c in s
    ensures FreeOf(s, {BOM}) ==> RemoveBom(s) == s
  {
    if s != "" {
      RemoveBomFacts(s[1..]);
      assert s == [s[0]] + s[1..];
    }
  }

  lemma CleanFacts(s: string)
    ensures Trimmed(Clean(s)) && FreeOf(Clean(s), {BOM})
    ensures forall c :: c in Clean(s) ==> c in s
    ensures Trimmed(s) && FreeOf(s, {BOM}) ==> Clean(s) == s
  {
    RemoveBomFacts(s);
    TrimIsTrimmed(RemoveBom(s));
    if Trimmed(s) {
      TrimOfTrimmed(s);
    }
  }

  ghost predicate Inside(part: string, whole: string) {
    forall c :: c in part ==> c in whole
  }

  /** The two parts of a split entry: both trimmed, the detail free of " (", the
      name shorter than the entry. */
  lemma SplitDetailFacts(entry: string)
    requires DetailAt(entry).Some?
    ensures var (name, detail) := SplitDetail(entry);
      && name != "" && Trimmed(name) && Inside(name, entry) && |name| < |entry|
      && detail.Some? && Trimmed(detail.value) && !HasOpen(detail.value) && Inside(detail.value, entry)
  {
    var s := entry[..|entry| - 1];
    LastOpenIsLast(s, |s|);
    var open := DetailAt(entry).value;
    var d := entry[open + 2..|entry| - 1];
    assert d == s[open + 2..];
    TrimIsTrimmed(entry[..open]);
    TrimIsTrimmed(d);
    forall i | 0 <= i < |d| ensures !OpensAt(d, i) {
      if OpensAt(d, i) {
        assert OpensAt(s, open + 2 + i);
      }
    }
    TrimIsInside(d);
  }

  /** Trimming takes a slice, so it opens no bracket. */
  lemma TrimIsInside(s: string)
    ensures exists a, b :: 0 <= a <= b <= |s| && Trim(s) == s[a..b]
    ensures (forall i :: 0 <= i < |s| ==> !OpensAt(s, i)) ==> !HasOpen(Trim(s))
  {
    TrimStartKeepsEnd(s);
    TrimEndKeepsStart(TrimStart(s));
    var a := |s| - |TrimStart(s)|;
    var b := a + |Trim(s)|;
    assert Trim(s) == s[a..b];
    if HasOpen(Trim(s)) {
      var i :| 0 <= i < |Trim(s)| && OpensAt(Trim(s), i);
      assert OpensAt(s, a + i);
    }
  }

  /** A performer's name and part, joined the way they are stored, split again. */
  lemma JoinedSplits(name: string, detail: string)
    requires Storable(name) && Storable(detail) && !HasOpen(detail)
    ensures SplitDetail(name + " (" + detail + ")") == (name, Some(detail))
  {
    var entry := name + " (" + detail + ")";
    var s := entry[..|entry| - 1];
    assert s == name + " (" + detail;
    assert OpensAt(s, |name|);
    LastOpenIsLast(s, |s|);
    var open := LastOpen(s, |s|);
    assert open.Some? && open.value >= |name|;
    if open.value > |name| {
      var i := open.value - |name| - 2;
      assert s[open.value] == ' ' && s[|name| + 1] == '(';
      assert OpensAt(detail, i) by {
        assert detail[i] == s[open.value] && detail[i + 1] == s[open.value + 1];
      }
    }
    assert entry[..|name|] == s[..|name|] == name && entry[|name| + 2..|entry| - 1] == detail;
    TrimOfTrimmed(name);
    TrimOfTrimmed(detail);
  }

  /** What the text after a role reads as. */
  function ReadAs(role: Role, text: string): Option<Credit> {
    var rest := Clean(text);
    if rest == "" then None
    else if role == Performer then Some(Credit(SplitDetail(rest).0, Performer, SplitDetail(rest).1))
    else Some(Credit(rest, role, None))
  }

  /** The role is read off the front of an entry, unless an artist's own text
      starts with a control character. */
  lemma EntryReadsAs(c: Credit)
    requires c.role.Artist? ==> TextOf(c) != "" && !IsControl(TextOf(c)[0])
    ensures ParseEntry(EntryOf(c)) == ReadAs(c.role, TextOf(c))
  {
    hide Trim, Clean, SplitDetail;
    var entry := EntryOf(c);
    assert entry == c.role.Prefix() + TextOf(c);
    if c.role.Artist? {
      assert entry == TextOf(c);
    } else {
      assert entry[1..] == TextOf(c);
    }
  }

  lemma WellFormedTextReads(c: Credit)
    requires WellFormed(c)
    ensures ReadAs(c.role, TextOf(c)) == Some(c)
  {
    hide Trim, Clean, DetailAt;
    TrimOfTrimmed(c.name);
    var text := TextOf(c);
    assert text[0] == c.name[0];
    assert Trimmed(text) && FreeOf(text, {BOM});
    CleanFacts(text);
    if c.detail.Some? {
      assert text == c.name + " (" + c.detail.value + ")";
      JoinedSplits(c.name, c.detail.value);
    } else {
      assert text == c.name;
    }
  }

  lemma WellFormedEntrySurvives(c: Credit)
    requires WellFormed(c)
    ensures ParseEntry(EntryOf(c)) == Some(c)
  {
    hide Clean, SplitDetail, DetailAt, LastOpen, Trim, ParseEntry, EntryOf, ReadAs;
    TrimOfTrimmed(c.name);
    assert TextOf(c) != "" && TextOf(c)[0] == c.name[0];
    EntryReadsAs(c);
    WellFormedTextReads(c);
  }

  lemma ReadTextIsWellFormed(c: Credit)
    requires NulFree(c)
    requires ReadAs(c.role, TextOf(c)) == Some(c)
    ensures Storable(c.name) && TextOf(c)[..|c.name|] == c.name
    ensures c.role.Artist? || WellFormed(c)
  {
    hide Trim, Clean, DetailAt, LastOpen;
    var cleaned := Clean(TextOf(c));
    CleanFacts(TextOf(c));
    if c.role.Performer? && DetailAt(cleaned).Some? {
      SplitDetailFacts(cleaned);
      if c.detail.value == "" {
        CleanFacts(c.name);
        TrimOfTrimmed(c.name);
      }
    }
    TrimOfTrimmed(c.name);
  }

  lemma SurvivingEntryIsWellFormed(c: Credit)
    requires NulFree(c)
    requires ParseEntry(EntryOf(c)) == Some(c)
    ensures WellFormed(c)
  {
    hide Trim, Clean, SplitDetail, DetailAt, LastOpen;
    if c.role.Artist? {
      assert EntryOf(c) == TextOf(c);
    }
    EntryReadsAs(c);
    ReadTextIsWellFormed(c);
  }

  /** One credit survives being stored and read exactly when it is well formed. */
  lemma EntrySurvivesIffWellFormed(c: Credit)
    requires NulFree(c)
    ensures ParseEntry(EntryOf(c)) == Some(c) <==> WellFormed(c)
  {
    hide WellFormed, ParseEntry, EntryOf;
    if WellFormed(c) {
      WellFormedEntrySurvives(c);
    } else if ParseEntry(EntryOf(c)) == Some(c) {
      SurvivingEntryIsWellFormed(c);
    }
  }

  // ------------------------------------------------------------ whole lists

  function EntriesOf(credits: seq<Credit>): seq<string> {
    seq(|credits|, i requires 0 <= i < |credits| => EntryOf(credits[i]))
  }

  ghost predicate AllWellFormed(credits: seq<Credit>) {
    forall c :: c in credits ==> WellFormed(c)
  }

  lemma EntryIsNulFree(c: Credit)
    requires NulFree(c)
    ensures FreeOf(EntryOf(c), NUL)
  {
    hide Trim;
    TrimIsTrimmed(c.name);
  }

  /** Reading a stored list reads its entries one by one. */
  lemma {:induction false} EncodedReadsEntryWise(credits: seq<Credit>)
    requires forall c :: c in credits ==> NulFree(c)
    ensures Parse(Encoded(credits)) == ParseEntries(EntriesOf(credits))
  {
    hide EntryOf, ParseEntry, FreeOf, NulFree;
    if credits == [] {
      assert ParseEntries([""]) == [] by { EmptyEntryIsSkipped(); }
    } else {
      var rest := credits[1..];
      EncodedReadsEntryWise(rest);
      EntryIsNulFree(credits[0]);
      SplitFirst(EntryOf(credits[0]), '\0', Encoded(rest), NUL);
      assert Encoded(credits) == EntryOf(credits[0]) + ['\0'] + Encoded(rest);
      var entries := EntriesOf(credits);
      var pieces := [entries[0]] + Split(Encoded(rest), NUL);
      assert Split(Encoded(credits), NUL) == pieces;
      assert pieces[1..] == Split(Encoded(rest), NUL);
      assert entries[1..] == EntriesOf(rest);
    }
  }

  lemma EmptyEntryIsSkipped()
    ensures ParseEntries([""]) == []
  {
    assert ParseEntry("") == None;
    assert [""][1..] == [];
  }

  /** Entries that all read, each as its own credit, are exactly the lists that
      read back whole: a skipped entry leaves the list too short. */
  lemma {:induction false} EntryWise(entries: seq<string>, credits: seq<Credit>)
    ensures |ParseEntries(entries)| <= |entries|
    ensures |entries| == |credits| ==>
              (ParseEntries(entries) == credits <==> forall i :: 0 <= i < |credits| ==> ParseEntry(entries[i]) == Some(credits[i]))
  {
    hide ParseEntry;
    if entries != [] {
      var rest := entries[1..];
      var first := match ParseEntry(entries[0]) case None => [] case Some(c) => [c];
      assert ParseEntries(entries) == first + ParseEntries(rest);
      EntryWise(rest, if credits == [] then [] else credits[1..]);
      if |entries| == |credits| {
        assert credits == [credits[0]] + credits[1..];
        HeadAndTail(entries, credits);
        if first != [] {
          assert first + ParseEntries(rest) == credits <==> first[0] == credits[0] && ParseEntries(rest) == credits[1..] by {
            assert (first + ParseEntries(rest))[1..] == ParseEntries(rest);
          }
        }
      }
    }
  }

  lemma HeadAndTail(entries: seq<string>, credits: seq<Credit>)
    requires |entries| == |credits| > 0
    ensures (forall i :: 0 <= i < |credits| ==> ParseEntry(entries[i]) == Some(credits[i])) <==>
            ParseEntry(entries[0]) == Some(credits[0])
            && (forall i :: 0 <= i < |credits[1..]| ==> ParseEntry(entries[1..][i]) == Some(credits[1..][i]))
  {
    hide ParseEntry;
    if ParseEntry(entries[0]) == Some(credits[0])
       && (forall i :: 0 <= i < |credits[1..]| ==> ParseEntry(entries[1..][i]) == Some(credits[1..][i])) {
      forall i | 0 <= i < |credits| ensures ParseEntry(entries[i]) == Some(credits[i]) {
        if i > 0 {
          assert ParseEntry(entries[1..][i - 1]) == Some(credits[1..][i - 1]);
        }
      }
    }
  }

  /** What a reader can produce: trimmed non-blank names, details only on
      performers, no byte order mark and no separator anywhere. */
  ghost predicate Readable(c: Credit) {
    && Storable(c.name)
    && (match c.detail
        case None => c.role.Performer? ==> DetailAt(c.name).None?
        case Some(d) => c.role.Performer? && Trimmed(d) && FreeOf(d, NUL + {BOM}) && !HasOpen(d))
  }

  lemma ParsedEntryIsReadable(entry: string)
    requires FreeOf(entry, NUL)
    ensures ParseEntry(entry).Some? ==> Readable(ParseEntry(entry).value)
  {
    hide Trim, Clean, DetailAt, LastOpen, HasOpen;
    if ParseEntry(entry).Some? {
      var text := if IsControl(entry[0]) then entry[1..] else entry;
      CleanFacts(text);
      var rest := Clean(text);
      if DetailAt(rest).Some? {
        SplitDetailFacts(rest);
      }
    }
  }

  lemma {:induction false} ParsedEntriesAreReadable(entries: seq<string>)
    requires forall e :: e in entries ==> FreeOf(e, NUL)
    ensures forall c :: c in ParseEntries(entries) ==> Readable(c)
  {
    hide ParseEntry, Readable, FreeOf;
    if entries != [] {
      ParsedEntryIsReadable(entries[0]);
      ParsedEntriesAreReadable(entries[1..]);
    }
  }

  lemma ParsedIsReadable(raw: string)
    ensures forall c :: c in Parse(raw) ==> Readable(c) && NulFree(c)
  {
    SplitPiecesAreFree(raw, NUL);
    ParsedEntriesAreReadable(Split(raw, NUL));
  }

  /** A list of credits survives being stored and read exactly when each of its
      credits is well formed. */
  lemma RoundTrip(credits: seq<Credit>)
    ensures Parse(Encoded(credits)) == credits <==> AllWellFormed(credits)
  {
    hide Parse, Encoded, Readable, ParseEntry, WellFormed;
    if AllWellFormed(credits) || Parse(Encoded(credits)) == credits {
      ParsedIsReadable(Encoded(credits));
      forall c | c in credits ensures NulFree(c) {
        if WellFormed(c) {
          WellFormedIsNulFree(c);
        }
      }
      EncodedReadsEntryWise(credits);
      var entries := EntriesOf(credits);
      EntryWise(entries, credits);
      forall i | 0 <= i < |credits| ensures ParseEntry(entries[i]) == Some(credits[i]) <==> WellFormed(credits[i]) {
        EntrySurvivesIffWellFormed(credits[i]);
      }
    }
  }

  lemma WellFormedIsNulFree(c: Credit)
    requires WellFormed(c)
    ensures NulFree(c)
  {
    hide DetailAt, HasOpen;
  }

  /** A value that was read and is stored again reads the same exactly when no
      artist's name uncovered a control character and no bracket was empty. */
  lemma RereadIsStable(raw: string)
    ensures Parse(Encoded(Parse(raw))) == Parse(raw) <==>
            forall c :: c in Parse(raw) ==> !(c.role.Artist? && c.name != "" && IsControl(c.name[0])) && c.detail != Some("")
  {
    ParsedIsReadable(raw);
    RoundTrip(Parse(raw));
    hide Parse, Encoded, DetailAt, HasOpen;
  }

  /** Both exceptions are real: an artist stored behind a blank turns into a
      guest, and an empty bracket is dropped. */
  lemma SomeValuesChangeWhenRestored()
    ensures var credits := Parse(" \U{0001}X");
      && credits == [Credit("\U{0001}X", Artist, None)]
      && Parse(Encoded(credits)) == [Credit("X", Guest, None)]
    ensures var credits := Parse("\U{0002}X ()");
      && credits == [Credit("X", Performer, Some(""))]
      && Parse(Encoded(credits)) == [Credit("X", Performer, None)]
  {
    BehindABlank();
    EmptyBracket();
  }

  lemma ParseOne(entry: string)
    requires FreeOf(entry, NUL)
    ensures Parse(entry) == match ParseEntry(entry) case None => [] case Some(c) => [c]
  {
    hide ParseEntry;
    SplitNothing(entry, NUL);
    assert [entry][1..] == [];
    assert ParseEntries([entry][1..]) == [];
  }

  lemma StoreOne(c: Credit)
    requires NulFree(c)
    ensures Parse(Encoded([c])) == match ParseEntry(EntryOf(c)) case None => [] case Some(d) => [d]
  {
    EncodedReadsEntryWise([c]);
    hide ParseEntry, EntryOf, Parse, Encoded;
    assert EntriesOf([c]) == [EntryOf(c)];
    assert [EntryOf(c)][1..] == [];
    assert ParseEntries([EntryOf(c)][1..]) == [];
  }

  lemma BehindABlank()
    ensures Parse(" \U{0001}X") == [Credit("\U{0001}X", Artist, None)]
    ensures Parse(Encoded([Credit("\U{0001}X", Artist, None)])) == [Credit("X", Guest, None)]
  {
    hide Parse, Encoded, ParseEntries, Clean, TextOf;
    var raw := " \U{0001}X";
    var name := "\U{0001}X";
    var c := Credit(name, Artist, None);
    ParseOne(raw);
    assert raw[0] == ' ' && raw[1..] == name;
    CleanBehindBlank(raw, name);
    StoreOne(c);
    TextOfBare(c);
    assert EntryOf(c) == name && name[1..] == "X";
    CleanFacts("X");
  }

  lemma CleanBehindBlank(raw: string, name: string)
    requires raw != "" && raw[0] == ' ' && raw[1..] == name
    requires name != "" && Trimmed(name) && FreeOf(raw, {BOM})
    ensures Clean(raw) == name
  {
    RemoveBomFacts(raw);
    TrimOfTrimmed(name);
  }

  lemma TextOfBare(c: Credit)
    requires Trimmed(c.name) && (c.detail.None? || c.detail.value == "")
    ensures TextOf(c) == c.name
  {
    TrimOfTrimmed(c.name);
  }

  lemma EmptyBracket()
    ensures Parse("\U{0002}X ()") == [Credit("X", Performer, Some(""))]
    ensures Parse(Encoded([Credit("X", Performer, Some(""))])) == [Credit("X", Performer, None)]
  {
    hide Parse, Encoded, ParseEntries, Clean, TextOf, DetailAt, Trim;
    var c := Credit("X", Performer, Some(""));
    var raw := "\U{0002}X ()";
    ParseOne(raw);
    var rest := "X ()";
    assert raw[0] == '\U{0002}' && raw[1..] == rest;
    CleanFacts(rest);
    DetailOfEmptyBracket();
    assert rest[..1] == "X" && rest[3..3] == "";
    TrimOfTrimmed("X");
    TrimOfTrimmed("");
    StoreOne(c);
    TextOfBare(c);
    assert EntryOf(c) == "\U{0002}X" && EntryOf(c)[1..] == "X";
    CleanFacts("X");
    assert DetailAt("X").None?;
  }

  lemma DetailOfEmptyBracket()
    ensures DetailAt("X ()") == Some(1)
  {
    var s := "X (";
    assert "X ()"[..3] == s && s[..1] == "X";
    assert !OpensAt(s, 2) && OpensAt(s, 1);
    assert LastOpen(s, 2) == Some(1);
    assert LastOpen(s, 3) == Some(1);
    TrimOfTrimmed("X");
  }

  // ------------------------------------------------------- byte order marks

  /** What cleaning takes off the ends of a name. */
  predicate IsPadding(c: char) {
    IsWhitespace(c) || c == BOM
  }

  /** A byte order mark with some of the name on both sides of it. */
  ghost predicate MarkedInside(text: string) {
    exists i, j, k :: 0 <= i < j < k < |text| && !IsPadding(text[i]) && text[j] == BOM && !IsPadding(text[k])
  }

  /** An entry without its role. */
  function TextPart(entry: string): string {
    if entry != "" && IsControl(entry[0]) then entry[1..] else entry
  }

  lemma {:induction false} RemoveBomOfConcat(a: string, b: string)
    ensures RemoveBom(a + b) == RemoveBom(a) + RemoveBom(b)
  {
    if a == "" {
      assert a + b == b;
    } else {
      assert (a + b)[0] == a[0] && (a + b)[1..] == a[1..] + b;
      RemoveBomOfConcat(a[1..], b);
    }
  }

  lemma {:induction false} PaddingIsBlank(pad: string)
    requires forall i :: 0 <= i < |pad| ==> IsPadding(pad[i])
    ensures Blank(RemoveBom(pad))
  {
    if pad != "" {
      PaddingIsBlank(pad[1..]);
    }
  }

  /** Padding on either side of a name, marks and blanks in any order, comes off. */
  lemma PaddedNameReads(before: string, name: string, after: string)
    requires forall i :: 0 <= i < |before| ==> IsPadding(before[i])
    requires forall i :: 0 <= i < |after| ==> IsPadding(after[i])
    requires Trimmed(name) && FreeOf(name, {BOM})
    ensures Clean(before + name + after) == name
  {
    hide Trim, RemoveBom;
    RemoveBomOfConcat(before + name, after);
    RemoveBomOfConcat(before, name);
    RemoveBomFacts(name);
    PaddingIsBlank(before);
    PaddingIsBlank(after);
    TrimPadded(RemoveBom(before), name, RemoveBom(after));
  }

  lemma {:induction false} PaddingEnds(text: string, from: nat) returns (at: nat)
    requires from <= |text|
    ensures from <= at <= |text| && forall i :: from <= i < at ==> IsPadding(text[i])
    ensures at < |text| ==> !IsPadding(text[at])
    decreases |text| - from
  {
    if from == |text| || !IsPadding(text[from]) {
      at := from;
    } else {
      at := PaddingEnds(text, from + 1);
    }
  }

  lemma {:induction false} PaddingStarts(text: string, to: nat) returns (at: nat)
    requires to <= |text|
    ensures at <= to && forall i :: at <= i < to ==> IsPadding(text[i])
    ensures at > 0 ==> !IsPadding(text[at - 1])
  {
    if to == 0 || !IsPadding(text[to - 1]) {
      at := to;
    } else {
      at := PaddingStarts(text, to - 1);
    }
  }

  /** A name with no mark inside stands in its text as it reads. */
  lemma UnmarkedNameIsASlice(text: string)
    requires !MarkedInside(text)
    ensures Contains(text, Clean(text))
  {
    hide Contains, Clean, IsPadding;
    var a := PaddingEnds(text, 0);
    if a == |text| {
      assert IsPadding(' ') by { BlankIsPadding(); }
      PaddedNameReads(text, "", "");
      assert text + "" + "" == text;
      SliceIsInside(text, 0, 0);
      assert text[0..0] == "";
    } else {
      var b := PaddingStarts(text, |text|);
      var name := text[a..b];
      assert !IsPadding(text[a]);
      assert b > a;
      UnmarkedCore(text, a, b);
      assert text == text[..a] + name + text[b..];
      PaddedNameReads(text[..a], name, text[b..]);
      SliceIsInside(text, a, b);
    }
  }

  lemma BlankIsPadding()
    ensures IsPadding(' ')
  {
  }

  lemma UnmarkedCore(text: string, a: nat, b: nat)
    requires !MarkedInside(text) && a < b <= |text| && !IsPadding(text[a]) && !IsPadding(text[b - 1])
    ensures Trimmed(text[a..b]) && FreeOf(text[a..b], {BOM})
  {
    forall j | a <= j < b ensures text[j] != BOM {
      assert j == a || j == b - 1 || (a < j < b - 1);
    }
  }

  lemma ParsedEntryNameIsASlice(entry: string)
    requires !MarkedInside(TextPart(entry)) && ParseEntry(entry).Some?
    ensures Contains(entry, ParseEntry(entry).value.name)
  {
    hide Contains, Trim, DetailAt, Clean, MarkedInside;
    var at := if IsControl(entry[0]) then 1 else 0;
    var text := TextPart(entry);
    assert entry[0..] == entry;
    SliceIsInside(entry, at, |entry|);
    UnmarkedNameIsASlice(text);
    var rest := Clean(text);
    ContainsTransitive(entry, text, rest);
    var open := DetailAt(rest);
    if open.Some? {
      SliceIsInside(rest, 0, open.value);
      TrimIsASlice(rest[..open.value]);
      assert rest[0..open.value] == rest[..open.value];
      ContainsTransitive(entry, rest, rest[..open.value]);
      ContainsTransitive(entry, rest[..open.value], Trim(rest[..open.value]));
    }
  }

  /** A stored value holds, as it reads, the name of every entry with no mark inside. */
  lemma UnmarkedNamesAreInside(raw: string, i: nat)
    requires i < |Split(raw, NUL)| && !MarkedInside(TextPart(Split(raw, NUL)[i]))
    requires ParseEntry(Split(raw, NUL)[i]).Some?
    ensures Contains(raw, ParseEntry(Split(raw, NUL)[i]).value.name)
  {
    hide Contains, ParseEntry, MarkedInside;
    var entry := Split(raw, NUL)[i];
    SplitPiecesAreSlices(raw, NUL);
    ParsedEntryNameIsASlice(entry);
    ContainsTransitive(raw, entry, ParseEntry(entry).value.name);
  }

  // ------------------------------------------------------- display and edits

  /** Names of the leads, in order. */
  function LeadNames(credits: seq<Credit>): seq<string> {
    if credits == [] then []
    else (if credits[0].role.IsLead() then [credits[0].name] else []) + LeadNames(credits[1..])
  }

  /** Every credit that is not a lead, in order. */
  function Others(credits: seq<Credit>): seq<Credit> {
    if credits == [] then []
    else (if credits[0].role.IsLead() then [] else [credits[0]]) + Others(credits[1..])
  }

  function WithoutArtists(credits: seq<Credit>): seq<Credit> {
    if credits == [] then []
    else (if credits[0].role.Artist? then [] else [credits[0]]) + WithoutArtists(credits[1..])
  }

  predicate HasGuest(credits: seq<Credit>) {
    exists i :: 0 <= i < |credits| && credits[i].role.Guest?
  }

  /** More than one lead, or a guest. */
  predicate IsSplit(credits: seq<Credit>) {
    |LeadNames(credits)| > 1 || HasGuest(credits)
  }

  /** The stored credits, with `display` in place of the artists where they are
      not split. */
  function OrDisplay(raw: string, display: string): seq<Credit> {
    var credits := Parse(raw);
    if Trim(display) == "" || IsSplit(credits) then credits
    else [Credit(Trim(display), Artist, None)] + WithoutArtists(credits)
  }

  lemma {:induction false} WithoutArtistsIsOthers(credits: seq<Credit>)
    requires !HasGuest(credits)
    ensures WithoutArtists(credits) == Others(credits)
  {
    if credits != [] {
      assert !HasGuest(credits[1..]) by {
        forall i | 0 <= i < |credits[1..]| ensures !credits[1..][i].role.Guest? {
          assert credits[1..][i] == credits[i + 1];
        }
      }
      WithoutArtistsIsOthers(credits[1..]);
    }
  }

  /** The leads are the stored ones of a split track and the display string of
      any other; performers and remixers stay, in order. */
  lemma DisplayNamesTheArtist(raw: string, display: string)
    ensures var credits := OrDisplay(raw, display);
      && Others(credits) == Others(Parse(raw))
      && LeadNames(credits) ==
         if Trim(display) == "" || IsSplit(Parse(raw)) then LeadNames(Parse(raw)) else [Trim(display)]
  {
    hide Parse, Trim;
    if Trim(display) != "" && !IsSplit(Parse(raw)) {
      WithoutArtistsIsOthers(Parse(raw));
      OthersHaveNoLead(Parse(raw));
      assert OrDisplay(raw, display)[1..] == WithoutArtists(Parse(raw));
    }
  }

  /** An entry that reads as a lead of that name. */
  predicate ReadsAsLead(entry: string, name: string) {
    ParseEntry(entry).Some? && ParseEntry(entry).value.role.IsLead() && ParseEntry(entry).value.name == name
  }

  lemma {:induction false} LeadsAreRead(entries: seq<string>, name: string)
    ensures name in LeadNames(ParseEntries(entries)) <==> exists i :: 0 <= i < |entries| && ReadsAsLead(entries[i], name)
  {
    hide ParseEntry;
    if entries != [] {
      LeadsAreRead(entries[1..], name);
      var first := match ParseEntry(entries[0]) case None => [] case Some(c) => [c];
      LeadsOfConcat(first, ParseEntries(entries[1..]));
      assert first != [] ==> first[1..] == [];
      assert name in LeadNames(first) <==> ReadsAsLead(entries[0], name);
      hide LeadNames, ParseEntries, ReadsAsLead;
      if exists i :: 0 <= i < |entries| && ReadsAsLead(entries[i], name) {
        var i :| 0 <= i < |entries| && ReadsAsLead(entries[i], name);
        assert i > 0 ==> ReadsAsLead(entries[1..][i - 1], name);
      }
      if exists i :: 0 <= i < |entries[1..]| && ReadsAsLead(entries[1..][i], name) {
        var i :| 0 <= i < |entries[1..]| && ReadsAsLead(entries[1..][i], name);
        assert ReadsAsLead(entries[i + 1], name);
      }
    }
  }

  predicate WasGuest(credits: seq<Credit>, name: string) {
    exists i :: 0 <= i < |credits| && credits[i].role.Guest? && EqualsIgnoringCase(credits[i].name, name)
  }

  function NewLeads(credits: seq<Credit>, names: seq<string>): seq<Credit> {
    seq(|names|, i requires 0 <= i < |names| => Credit(names[i], if WasGuest(credits, names[i]) then Guest else Artist, None))
  }

  /** New leads from `names`, in front of the credits that are no leads. */
  function WithLeadNames(credits: seq<Credit>, names: seq<string>): seq<Credit> {
    NewLeads(credits, NonBlank(names)) + Others(credits)
  }

  lemma {:induction false} LeadNamesOfConcat(a: seq<Credit>, b: seq<Credit>)
    ensures LeadNames(a + b) == LeadNames(a) + LeadNames(b)
  {
    if a == [] {
      assert a + b == b;
    } else {
      assert (a + b)[0] == a[0] && (a + b)[1..] == a[1..] + b;
      LeadNamesOfConcat(a[1..], b);
    }
  }

  lemma {:induction false} OthersOfConcat(a: seq<Credit>, b: seq<Credit>)
    ensures Others(a + b) == Others(a) + Others(b)
  {
    if a == [] {
      assert a + b == b;
    } else {
      assert (a + b)[0] == a[0] && (a + b)[1..] == a[1..] + b;
      OthersOfConcat(a[1..], b);
    }
  }

  lemma LeadsOfConcat(a: seq<Credit>, b: seq<Credit>)
    ensures LeadNames(a + b) == LeadNames(a) + LeadNames(b)
    ensures Others(a + b) == Others(a) + Others(b)
  {
    hide LeadNames, Others;
    LeadNamesOfConcat(a, b);
    OthersOfConcat(a, b);
  }

  lemma OthersOfOne(c: Credit)
    requires !c.role.IsLead()
    ensures LeadNames([c]) == [] && Others([c]) == [c]
  {
    assert [c][1..] == [];
  }

  lemma {:induction false} OthersHaveNoLead(credits: seq<Credit>)
    ensures LeadNames(Others(credits)) == [] && Others(Others(credits)) == Others(credits)
  {
    if credits != [] {
      var rest := Others(credits[1..]);
      OthersHaveNoLead(credits[1..]);
      if credits[0].role.IsLead() {
        assert Others(credits) == rest;
      } else {
        assert Others(credits) == [credits[0]] + rest;
        hide LeadNames, Others;
        OthersOfOne(credits[0]);
        LeadsOfConcat([credits[0]], rest);
      }
    }
  }

  lemma {:induction false} OthersAreTheRest(credits: seq<Credit>)
    ensures forall c :: c in Others(credits) <==> c in credits && !c.role.IsLead()
  {
    if credits != [] {
      OthersAreTheRest(credits[1..]);
      assert credits == [credits[0]] + credits[1..];
    }
  }

  lemma {:induction false} NewLeadsAreLeads(credits: seq<Credit>, names: seq<string>)
    ensures LeadNames(NewLeads(credits, names)) == names && Others(NewLeads(credits, names)) == []
  {
    hide WasGuest;
    if names != [] {
      NewLeadsAreLeads(credits, names[1..]);
      assert NewLeads(credits, names)[1..] == NewLeads(credits, names[1..]);
      assert names == [names[0]] + names[1..];
    }
  }

  /** An edit sets the leads to the trimmed non-blank names, in order, and keeps
      every performer and remixer; exactly the names of former guests are guests. */
  lemma EditKeepsTheRest(credits: seq<Credit>, names: seq<string>)
    ensures var edited := WithLeadNames(credits, names);
      && LeadNames(edited) == NonBlank(names)
      && Others(edited) == Others(credits)
      && |edited| >= |NonBlank(names)|
      && forall i :: 0 <= i < |NonBlank(names)| ==> (edited[i].role.Guest? <==> WasGuest(credits, NonBlank(names)[i]))
  {
    hide WasGuest, NonBlank;
    var leads := NewLeads(credits, NonBlank(names));
    LeadsOfConcat(leads, Others(credits));
    OthersHaveNoLead(credits);
    NewLeadsAreLeads(credits, NonBlank(names));
  }

  /** A name the edit can store: an artist's must not look like a role. */
  ghost predicate NameStores(credits: seq<Credit>, name: string) {
    Storable(name) && (IsControl(name[0]) ==> WasGuest(credits, name))
  }

  /** The edited credits survive storing and reading exactly when every kept
      credit is well formed and every name can be stored. */
  lemma EditRoundTrip(credits: seq<Credit>, names: seq<string>)
    ensures var edited := WithLeadNames(credits, names);
      Parse(Encoded(edited)) == edited <==>
      (forall c :: c in credits && !c.role.IsLead() ==> WellFormed(c))
      && (forall n :: n in NonBlank(names) ==> NameStores(credits, n))
  {
    hide WasGuest, NonBlank, Parse, Encoded, Storable, DetailAt;
    var edited := WithLeadNames(credits, names);
    RoundTrip(edited);
    OthersAreTheRest(credits);
    var leads := NewLeads(credits, NonBlank(names));
    forall i | 0 <= i < |leads| ensures WellFormed(leads[i]) <==> NameStores(credits, NonBlank(names)[i]) {
    }
    assert forall c :: c in edited <==> c in leads || c in Others(credits);
    assert (forall c :: c in leads ==> WellFormed(c)) <==> forall n :: n in NonBlank(names) ==> NameStores(credits, n) by {
      forall n | n in NonBlank(names) ensures exists i :: 0 <= i < |leads| && NonBlank(names)[i] == n {
      }
      forall c | c in leads ensures exists i :: 0 <= i < |leads| && leads[i] == c {
      }
      if forall c :: c in leads ==> WellFormed(c) {
        forall n | n in NonBlank(names) ensures NameStores(credits, n) {
          var i :| 0 <= i < |leads| && NonBlank(names)[i] == n;
          assert leads[i] in leads;
        }
      }
    }
  }

  // ---------------------------------------------------------- who leads a track

  predicate LeadsAt(credits: seq<Credit>, i: int) {
    0 <= i < |credits| && (credits[i].role == Artist || credits[i].role == Guest)
  }

  /** Artists and guests give the names to browse by, and nobody else does. */
  lemma {:induction false} LeadsAreArtistsAndGuests(credits: seq<Credit>, name: string)
    ensures name in LeadNames(credits) <==> exists i :: LeadsAt(credits, i) && credits[i].name == name
    ensures LeadNames(credits) != [] <==> exists i :: LeadsAt(credits, i)
  {
    if credits != [] {
      var rest := credits[1..];
      LeadsAreArtistsAndGuests(rest, name);
      assert forall i :: i >= 0 && LeadsAt(rest, i) ==> LeadsAt(credits, i + 1) && credits[i + 1] == rest[i];
      assert forall i :: i > 0 && LeadsAt(credits, i) ==> LeadsAt(rest, i - 1) && credits[i] == rest[i - 1];
      if LeadsAt(credits, 0) {
        assert LeadNames(credits)[0] == credits[0].name;
      }
    }
  }

  ghost predicate TwoLead(credits: seq<Credit>) {
    exists i, j :: i < j && LeadsAt(credits, i) && LeadsAt(credits, j)
  }

  lemma {:induction false} TwoLeadIff(credits: seq<Credit>)
    ensures |LeadNames(credits)| > 1 <==> TwoLead(credits)
  {
    if credits != [] {
      var rest := credits[1..];
      TwoLeadIff(rest);
      LeadsAreArtistsAndGuests(rest, "");
      forall i | i >= 0 ensures LeadsAt(rest, i) <==> LeadsAt(credits, i + 1) {
      }
      if LeadsAt(credits, 0) {
        assert TwoLead(credits) <==> exists j :: LeadsAt(rest, j) by {
          OneMoreLead(credits, rest);
        }
      } else {
        OthersLead(credits, rest);
      }
    }
  }

  lemma OneMoreLead(credits: seq<Credit>, rest: seq<Credit>)
    requires LeadsAt(credits, 0) && rest == credits[1..]
    ensures TwoLead(credits) <==> exists j :: LeadsAt(rest, j)
  {
    if TwoLead(credits) {
      var i, j :| i < j && LeadsAt(credits, i) && LeadsAt(credits, j);
      assert LeadsAt(rest, j - 1);
    }
    if exists j :: LeadsAt(rest, j) {
      var j :| LeadsAt(rest, j);
      assert LeadsAt(credits, j + 1);
    }
  }

  lemma OthersLead(credits: seq<Credit>, rest: seq<Credit>)
    requires credits != [] && !LeadsAt(credits, 0) && rest == credits[1..]
    ensures TwoLead(credits) <==> TwoLead(rest)
  {
    if TwoLead(credits) {
      var i, j :| i < j && LeadsAt(credits, i) && LeadsAt(credits, j);
      assert LeadsAt(rest, i - 1) && LeadsAt(rest, j - 1);
    }
    if TwoLead(rest) {
      var i, j :| i < j && LeadsAt(rest, i) && LeadsAt(rest, j);
      assert LeadsAt(credits, i + 1) && LeadsAt(credits, j + 1);
    }
  }

  /** A track's stored credits are its own to be browsed under exactly when two
      of them lead it, or one is a guest. */
  lemma SplitIff(credits: seq<Credit>)
    ensures IsSplit(credits) <==> TwoLead(credits) || exists i :: 0 <= i < |credits| && credits[i].role == Guest
  {
    TwoLeadIff(credits);
    hide LeadNames, TwoLead;
  }

  // ------------------------------------------------------- the stored forms

  /** How each role is stored, and that it is read back from exactly that: an
      artist as the name alone, the others behind their mark, a performer's part
      in brackets. */
  lemma StoredForms(name: string, part: string)
    requires Storable(name) && !IsControl(name[0]) && DetailAt(name).None? && Storable(part) && !HasOpen(part)
    ensures Parse(name + "\0") == [Credit(name, Artist, None)] && Encoded([Credit(name, Artist, None)]) == name + "\0"
    ensures Parse("\U{0001}" + name + "\0") == [Credit(name, Guest, None)]
            && Encoded([Credit(name, Guest, None)]) == "\U{0001}" + name + "\0"
    ensures Parse("\U{0002}" + name + "\0") == [Credit(name, Performer, None)]
            && Encoded([Credit(name, Performer, None)]) == "\U{0002}" + name + "\0"
    ensures Parse("\U{0002}" + name + " (" + part + ")" + "\0") == [Credit(name, Performer, Some(part))]
            && Encoded([Credit(name, Performer, Some(part))]) == "\U{0002}" + name + " (" + part + ")" + "\0"
    ensures Parse("\U{0004}" + name + "\0") == [Credit(name, Remixer, None)]
            && Encoded([Credit(name, Remixer, None)]) == "\U{0004}" + name + "\0"
  {
    hide Storable, DetailAt, HasOpen, Parse, Encoded;
    TrimmedName(name);
    OneIsStored(Credit(name, Artist, None), name);
    OneIsStored(Credit(name, Guest, None), "\U{0001}" + name);
    OneIsStored(Credit(name, Performer, None), "\U{0002}" + name);
    PerformerIsStored(name, part);
    OneIsStored(Credit(name, Performer, Some(part)), "\U{0002}" + name + " (" + part + ")");
    OneIsStored(Credit(name, Remixer, None), "\U{0004}" + name);
  }

  lemma PerformerIsStored(name: string, part: string)
    requires Storable(name) && Storable(part)
    ensures EntryOf(Credit(name, Performer, Some(part))) == "\U{0002}" + name + " (" + part + ")"
  {
    TrimmedName(name);
    hide Trim;
    assert EntryOf(Credit(name, Performer, Some(part))) == "\U{0002}" + (name + (" (" + part + ")"));
  }

  lemma TrimmedName(name: string)
    requires Storable(name)
    ensures Trim(name) == name && name != ""
  {
    TrimOfTrimmed(name);
  }

  lemma OneIsStored(c: Credit, entry: string)
    requires WellFormed(c) && EntryOf(c) == entry
    ensures Parse(entry + "\0") == [c] && Encoded([c]) == entry + "\0"
  {
    hide WellFormed, EntryOf, Parse;
    assert [c][1..] == [];
    assert Encoded([c]) == entry + "\0" by {
      EncodedNothing();
      assert Encoded([c]) == entry + "\0" + Encoded([]);
    }
    RoundTrip([c]);
    hide Encoded;
  }

  /** An entry behind any other control character is nobody's credit. */
  lemma UnknownRolesAreSkipped(c: char, rest: string)
    requires IsControl(c) && c !in {'\U{0001}', '\U{0002}', '\U{0004}'}
    ensures ParseEntry([c] + rest) == None
  {
    hide Clean, SplitDetail;
  }
}
