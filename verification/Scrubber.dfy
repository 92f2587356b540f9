/** The pseudonyms a trimmed capture's library metadata is replaced with: one
    mapping for a whole bucket of frames, and each frame rewritten through it.

    A frame is a JSON tree; an object is its fields in order. `Names` is the
    pseudonymizer's state, and class `Scrubber` changes it as the program does. */
module Scrubber {
  import opened Order
  import opened Text

  datatype Value =
    | Null
    | Boolean(b: bool)
    | Number(n: int)
    | Str(text: string)
    | Arr(items: seq<Value>)
    | Obj(fields: seq<Field>)

  datatype Field = Field(key: string, value: Value)

  datatype Category = Artist | Album | Title | Genre | Name | Path {
    function Display(): string {
      match this
      case Artist => "Artist"
      case Album => "Album"
      case Title => "Track"
      case Genre => "Genre"
      case Name => "Name"
      case Path => ""
    }
  }

  datatype Original = Original(category: Category, text: string)

  type Labels = map<Original, string>

  datatype Names = Names(counters: map<Category, nat>, seen: Labels)

  const NO_NAMES := Names(map[], map[])

  // ------------------------------------------------------------- the labels

  function Digit(n: nat): char
    requires n < 10
  {
    ('0' as int + n) as char
  }

  function Digits(n: nat): string {
    if n < 10 then [Digit(n)] else Digits(n / 10) + [Digit(n % 10)]
  }

  function LabelText(category: Category, n: nat): string {
    category.Display() + " " + Digits(n)
  }

  function TokenText(n: nat, ext: string): string {
    "\\\\host\\media\\item-" + Digits(n) + "." + ext
  }

  function Counter(s: Names, category: Category): nat {
    if category in s.counters then s.counters[category] else 0
  }

  function Noted(s: Names, o: Original, alias: string): Names {
    Names(s.counters[o.category := Counter(s, o.category) + 1], s.seen[o := alias])
  }

  /** A stable label for `original` within its category; nothing for nothing. */
  function Labelled(s: Names, category: Category, original: string): (Names, string) {
    var o := Original(category, original);
    if original == "" then (s, "")
    else if o in s.seen then (s, s.seen[o])
    else
      var alias := LabelText(category, Counter(s, category) + 1);
      (Noted(s, o, alias), alias)
  }

  /** A stable synthetic path for `original`. */
  function Tokenized(s: Names, original: string, ext: string): (Names, string) {
    var o := Original(Path, original);
    if o in s.seen then (s, s.seen[o])
    else
      var token := TokenText(Counter(s, Path) + 1, ext);
      (Noted(s, o, token), token)
  }

  // ------------------------------------------------------------ the rewriting

  function CategoryOf(key: string): Option<Category> {
    if key == "artist" || key == "album_artist" || key == "albumartist" || key == "albumArtist" then Some(Artist)
    else if key == "album" then Some(Album)
    else if key == "title" then Some(Title)
    else if key == "genre" then Some(Genre)
    else if key == "name" then Some(Name)
    else None
  }

  const PATH_KEYS := ["src", "path", "url"]

  predicate IsPathKey(key: string) {
    key in PATH_KEYS
  }

  function IsLetter(c: char): bool {
    'a' <= c <= 'z' || 'A' <= c <= 'Z'
  }

  predicate LooksLikePath(s: string) {
    || '\\' in s || Contains(s, "://")
    || (|s| >= 3 && IsLetter(s[0]) && s[1] == ':' && (s[2] == '/' || s[2] == '\\'))
  }

  const DOT: set<char> := {'.'}

  /** The length of a text in UTF-8. */
  function ByteLength(s: string): nat {
    if s == "" then 0
    else (if s[0] < '\U{0080}' then 1 else if s[0] < '\U{0800}' then 2 else if s[0] < '\U{10000}' then 3 else 4)
         + ByteLength(s[1..])
  }

  function ExtensionOf(p: string): string {
    var pieces := Split(p, DOT);
    var e := pieces[|pieces| - 1];
    if e != "" && ByteLength(e) <= 4 && '\\' !in e && '/' !in e then e else "dat"
  }

  function TextAt(fields: seq<Field>, key: string): Option<string> {
    if fields == [] then None
    else if fields[0].key == key then (if fields[0].value.Str? then Some(fields[0].value.text) else None)
    else TextAt(fields[1..], key)
  }

  function NumberAt(fields: seq<Field>, key: string): int {
    if fields == [] then 0
    else if fields[0].key == key then (if fields[0].value.Number? then fields[0].value.n else 0)
    else NumberAt(fields[1..], key)
  }

  function TwoDigits(n: int): string {
    if n < 0 then "-" + Digits(-n) else if n < 10 then "0" + Digits(n) else Digits(n)
  }

  /** What a path is rebuilt from: the pseudonyms already given to its siblings. */
  datatype Siblings = Siblings(artist: Option<string>, album: Option<string>, title: Option<string>, name: Option<string>, trackno: int)

  function SiblingsOf(fields: seq<Field>): Siblings {
    Siblings(
      if TextAt(fields, "album_artist").Some? then TextAt(fields, "album_artist") else TextAt(fields, "artist"),
      TextAt(fields, "album"), TextAt(fields, "title"), TextAt(fields, "name"), NumberAt(fields, "trackno"))
  }

  /** A readable path from the siblings, or nothing to build one from. */
  function Synthesized(s: Siblings, p: string): Option<string> {
    if s.artist.Some? && s.album.Some? && s.title.Some? && s.artist.value != "" && s.title.value != "" then
      Some("\\\\host\\music\\" + s.artist.value + "\\" + s.album.value + "\\" + TwoDigits(s.trackno) + " - "
           + s.title.value + "." + ExtensionOf(p))
    else if s.name.Some? && s.name.value != "" then Some("\\\\host\\media\\" + s.name.value + "." + ExtensionOf(p))
    else None
  }

  function Rebuilt(s: Names, siblings: Siblings, f: Field, key: string): (Names, Value) {
    if f.key != key || !f.value.Str? || f.value.text == "" then (s, f.value)
    else match Synthesized(siblings, f.value.text)
      case Some(path) => (s, Str(path))
      case None =>
        var (t, token) := Tokenized(s, f.value.text, ExtensionOf(f.value.text));
        (t, Str(token))
  }

  /** The first `n` fields with their `key` path rebuilt. */
  function RebuiltFields(s: Names, siblings: Siblings, fields: seq<Field>, key: string, n: nat): (Names, seq<Field>)
    requires n <= |fields|
  {
    if n == 0 then (s, [])
    else
      var (s1, done) := RebuiltFields(s, siblings, fields, key, n - 1);
      var (s2, value) := Rebuilt(s1, siblings, fields[n - 1], key);
      (s2, done + [Field(fields[n - 1].key, value)])
  }

  /** The first `k` kinds of path field rebuilt. */
  function RebuiltKeys(s: Names, siblings: Siblings, fields: seq<Field>, k: nat): (Names, seq<Field>)
    requires k <= |PATH_KEYS|
  {
    if k == 0 then (s, fields)
    else
      var (s1, done) := RebuiltKeys(s, siblings, fields, k - 1);
      RebuiltFields(s1, siblings, done, PATH_KEYS[k - 1], |done|)
  }

  function Size(v: Value): nat {
    match v
    case Arr(items) => |items| + 1
    case Obj(fields) => |fields| + 1
    case _ => 0
  }

  /** The tree with its metadata replaced by labels and its paths by tokens. */
  function Scrubbed(s: Names, v: Value): (Names, Value)
    decreases v, Size(v)
  {
    match v
    case Arr(items) =>
      var (t, done) := ScrubbedItems(s, v, |items|);
      (t, Arr(done))
    case Obj(fields) =>
      var (t, done) := ScrubbedFields(s, v, |fields|);
      var (u, paths) := RebuiltKeys(t, SiblingsOf(done), done, |PATH_KEYS|);
      (u, Obj(paths))
    case Str(text) =>
      if LooksLikePath(text) then
        var (t, token) := Tokenized(s, text, ExtensionOf(text));
        (t, Str(token))
      else (s, v)
    case _ => (s, v)
  }

  function ScrubbedItems(s: Names, v: Value, n: nat): (Names, seq<Value>)
    requires v.Arr? && n <= |v.items|
    decreases v, n
  {
    if n == 0 then (s, [])
    else
      var (s1, done) := ScrubbedItems(s, v, n - 1);
      var (s2, item) := Scrubbed(s1, v.items[n - 1]);
      (s2, done + [item])
  }

  function ScrubbedFields(s: Names, v: Value, n: nat): (Names, seq<Field>)
    requires v.Obj? && n <= |v.fields|
    decreases v, n
  {
    if n == 0 then (s, [])
    else
      var (s1, done) := ScrubbedFields(s, v, n - 1);
      var f := v.fields[n - 1];
      var (s2, value) :=
        if CategoryOf(f.key).Some? && f.value.Str? then
          var (t, alias) := Labelled(s1, CategoryOf(f.key).value, f.value.text);
          (t, Str(alias))
        else if IsPathKey(f.key) then (s1, f.value)
        else Scrubbed(s1, f.value);
      (s2, done + [Field(f.key, value)])
  }

  /** Every frame of a bucket, one after another. */
  function ScrubbedAll(s: Names, frames: seq<Value>): (Names, seq<Value>) {
    if frames == [] then (s, [])
    else
      var (s1, done) := ScrubbedAll(s, frames[..|frames| - 1]);
      var (s2, last) := Scrubbed(s1, frames[|frames| - 1]);
      (s2, done + [last])
  }

  // --------------------------------------------------------------- the class

  class Scrubber {
    var counters: map<Category, nat>
    var seen: Labels

    function State(): Names
      reads this
    {
      Names(counters, seen)
    }

    constructor ()
      ensures State() == NO_NAMES
    {
      counters, seen := map[], map[];
    }

    method Label(category: Category, original: string) returns (alias: string)
      modifies this
      ensures (State(), alias) == Labelled(old(State()), category, original)
    {
      hide LabelText;
      if original == "" {
        return "";
      }
      var o := Original(category, original);
      if o in seen {
        return seen[o];
      }
      var n := (if category in counters then counters[category] else 0) + 1;
      counters := counters[category := n];
      alias := LabelText(category, n);
      seen := seen[o := alias];
    }

    method PathToken(original: string, ext: string) returns (token: string)
      modifies this
      ensures (State(), token) == Tokenized(old(State()), original, ext)
    {
      hide TokenText;
      var o := Original(Path, original);
      if o in seen {
        return seen[o];
      }
      var n := (if Path in counters then counters[Path] else 0) + 1;
      counters := counters[Path := n];
      token := TokenText(n, ext);
      seen := seen[o := token];
    }

    /** Pseudonymizes library metadata by key and rewrites paths. */
    method ScrubValue(v: Value) returns (r: Value)
      modifies this
      ensures (State(), r) == Scrubbed(old(State()), v)
      decreases v
    {
      hide Labelled, Tokenized, LooksLikePath, ExtensionOf, CategoryOf, RebuiltKeys;
      match v
      case Arr(items) =>
        var done: seq<Value> := [];
        for n := 0 to |items|
          invariant (State(), done) == ScrubbedItems(old(State()), v, n)
        {
          var item := ScrubValue(items[n]);
          done := done + [item];
        }
        r := Arr(done);
      case Obj(fields) =>
        var done: seq<Field> := [];
        for n := 0 to |fields|
          invariant (State(), done) == ScrubbedFields(old(State()), v, n)
        {
          var f := fields[n];
          var value := f.value;
          if CategoryOf(f.key).Some? && f.value.Str? {
            var alias := Label(CategoryOf(f.key).value, f.value.text);
            value := Str(alias);
          } else if !IsPathKey(f.key) {
            value := ScrubValue(f.value);
          }
          done := done + [Field(f.key, value)];
        }
        done := RebuildPaths(done);
        r := Obj(done);
      case Str(text) =>
        r := v;
        if LooksLikePath(text) {
          var token := PathToken(text, ExtensionOf(text));
          r := Str(token);
        }
      case _ => r := v;
    }

    /** Rewrites the path fields of one object, once its metadata is scrubbed. */
    method RebuildPaths(fields: seq<Field>) returns (done: seq<Field>)
      modifies this
      ensures (State(), done) == RebuiltKeys(old(State()), SiblingsOf(fields), fields, |PATH_KEYS|)
    {
      hide SiblingsOf, Rebuilt;
      var siblings := SiblingsOf(fields);
      done := fields;
      for k := 0 to |PATH_KEYS|
        invariant (State(), done) == RebuiltKeys(old(State()), siblings, fields, k)
      {
        done := RebuildKey(siblings, done, PATH_KEYS[k]);
      }
    }

    method RebuildKey(siblings: Siblings, fields: seq<Field>, key: string) returns (done: seq<Field>)
      modifies this
      ensures (State(), done) == RebuiltFields(old(State()), siblings, fields, key, |fields|)
    {
      hide Synthesized, Tokenized, ExtensionOf;
      done := [];
      for n := 0 to |fields|
        invariant (State(), done) == RebuiltFields(old(State()), siblings, fields, key, n)
      {
        var f := fields[n];
        var value := f.value;
        if f.key == key && f.value.Str? && f.value.text != "" {
          var synth := Synthesized(siblings, f.value.text);
          match synth {
            case Some(path) => value := Str(path);
            case None =>
              var token := PathToken(f.value.text, ExtensionOf(f.value.text));
              value := Str(token);
          }
        }
        done := done + [Field(f.key, value)];
      }
    }
  }

  // ------------------------------------------------------- labels are distinct

  lemma {:induction false} DigitsAreDigits(n: nat)
    ensures Digits(n) != "" && forall c :: c in Digits(n) ==> '0' <= c <= '9'
  {
    if n >= 10 {
      DigitsAreDigits(n / 10);
    }
  }

  lemma {:induction false} DigitsAreDistinct(m: nat, n: nat)
    requires Digits(m) == Digits(n)
    ensures m == n
  {
    DigitsAreDigits(m / 10);
    DigitsAreDigits(n / 10);
    var a, b := Digits(m), Digits(n);
    assert a[|a| - 1] == Digit(m % 10) && b[|b| - 1] == Digit(n % 10);
    if m >= 10 && n >= 10 {
      assert a[..|a| - 1] == Digits(m / 10) && b[..|b| - 1] == Digits(n / 10);
      DigitsAreDistinct(m / 10, n / 10);
    }
  }

  lemma {:induction false} CutAtDot(a: string, b: string, x: string, y: string)
    requires '.' !in a && '.' !in b && a + "." + x == b + "." + y
    ensures a == b
  {
    if a == "" || b == "" {
      assert (a + "." + x)[0] == (b + "." + y)[0];
    } else {
      assert (a + "." + x)[0] == a[0] && (b + "." + y)[0] == b[0];
      assert (a + "." + x)[1..] == a[1..] + "." + x && (b + "." + y)[1..] == b[1..] + "." + y;
      CutAtDot(a[1..], b[1..], x, y);
      assert a == [a[0]] + a[1..] && b == [b[0]] + b[1..];
    }
  }

  /** `alias` is what the `n`th name of its category is given. */
  ghost predicate IsNth(category: Category, n: nat, alias: string) {
    if category.Path? then exists ext :: alias == TokenText(n, ext) else alias == LabelText(category, n)
  }

  lemma LabelsAreDistinct(category: Category, m: nat, n: nat)
    requires LabelText(category, m) == LabelText(category, n)
    ensures m == n
  {
    hide Digits;
    var lead := category.Display() + " ";
    assert LabelText(category, m)[|lead|..] == Digits(m) && LabelText(category, n)[|lead|..] == Digits(n);
    DigitsAreDistinct(m, n);
  }

  lemma TokensAreDistinct(m: nat, n: nat, x: string, y: string)
    requires TokenText(m, x) == TokenText(n, y)
    ensures m == n
  {
    hide Digits;
    var lead := "\\\\host\\media\\item-";
    DigitsAreDigits(m);
    DigitsAreDigits(n);
    assert TokenText(m, x)[|lead|..] == Digits(m) + "." + x && TokenText(n, y)[|lead|..] == Digits(n) + "." + y;
    CutAtDot(Digits(m), Digits(n), x, y);
    DigitsAreDistinct(m, n);
  }

  /** Different numbers never share a name. */
  lemma NthAreDistinct(category: Category, m: nat, n: nat, alias: string)
    requires IsNth(category, m, alias) && IsNth(category, n, alias)
    ensures m == n
  {
    if category.Path? {
      var x :| alias == TokenText(m, x);
      var y :| alias == TokenText(n, y);
      TokensAreDistinct(m, n, x, y);
    } else {
      LabelsAreDistinct(category, m, n);
    }
  }

  /** No two originals of one category share a name. */
  ghost predicate OneToOne(seen: Labels) {
    forall a, b :: a in seen && b in seen && a.category == b.category && a != b ==> seen[a] != seen[b]
  }

  ghost predicate Numbered(s: Names, o: Original, n: nat)
    requires o in s.seen
  {
    1 <= n <= Counter(s, o.category) && IsNth(o.category, n, s.seen[o])
  }

  ghost predicate Inv(s: Names) {
    && OneToOne(s.seen)
    && (forall o :: o in s.seen ==> exists n :: Numbered(s, o, n))
    && (forall c, n :: 1 <= n <= Counter(s, c) ==> Given(s, c, n))
  }

  /** The category's `n`th name stands for something. */
  ghost predicate Given(s: Names, category: Category, n: nat) {
    exists o :: o in s.seen && o.category == category && Numbered(s, o, n)
  }

  /** Names once given are kept. */
  ghost predicate Grown(was: Labels, now: Labels) {
    forall o :: o in was ==> o in now && now[o] == was[o]
  }

  lemma NotingKeepsInv(s: Names, o: Original, alias: string)
    requires Inv(s) && o !in s.seen && IsNth(o.category, Counter(s, o.category) + 1, alias)
    ensures Inv(Noted(s, o, alias)) && Grown(s.seen, Noted(s, o, alias).seen)
  {
    hide IsNth;
    var t := Noted(s, o, alias);
    forall a | a in s.seen && a.category == o.category ensures s.seen[a] != alias {
      var n :| Numbered(s, a, n);
      if s.seen[a] == alias {
        NthAreDistinct(o.category, n, Counter(s, o.category) + 1, alias);
      }
    }
    forall a | a in t.seen ensures exists n :: Numbered(t, a, n) {
      if a == o {
        assert Numbered(t, o, Counter(s, o.category) + 1);
      } else {
        var n :| Numbered(s, a, n);
        assert Numbered(t, a, n);
      }
    }
    forall c, n | 1 <= n <= Counter(t, c) ensures Given(t, c, n) {
      GivenStays(s, o, alias, c, n);
    }
  }

  lemma GivenStays(s: Names, o: Original, alias: string, category: Category, n: nat)
    requires o !in s.seen && IsNth(o.category, Counter(s, o.category) + 1, alias)
    requires 1 <= n <= Counter(Noted(s, o, alias), category)
    requires n <= Counter(s, category) ==> Given(s, category, n)
    ensures Given(Noted(s, o, alias), category, n)
  {
    hide IsNth;
    var t := Noted(s, o, alias);
    if n <= Counter(s, category) {
      var a :| a in s.seen && a.category == category && Numbered(s, a, n);
      assert Numbered(t, a, n);
    } else {
      assert Numbered(t, o, n);
    }
  }

  lemma LabelKeepsInv(s: Names, category: Category, original: string)
    requires Inv(s) && !category.Path?
    ensures var (t, alias) := Labelled(s, category, original);
      Inv(t) && Grown(s.seen, t.seen)
      && (original == "" ==> alias == "")
      && (original != "" ==> Original(category, original) in t.seen && alias == t.seen[Original(category, original)])
  {
    hide Inv, LabelText;
    var o := Original(category, original);
    if original != "" && o !in s.seen {
      NotingKeepsInv(s, o, LabelText(category, Counter(s, category) + 1));
    }
  }

  lemma TokenKeepsInv(s: Names, original: string, ext: string)
    requires Inv(s)
    ensures var (t, token) := Tokenized(s, original, ext);
      Inv(t) && Grown(s.seen, t.seen) && Original(Path, original) in t.seen && token == t.seen[Original(Path, original)]
  {
    hide Inv, TokenText;
    var o := Original(Path, original);
    if o !in s.seen {
      assert IsNth(Path, Counter(s, Path) + 1, TokenText(Counter(s, Path) + 1, ext));
      NotingKeepsInv(s, o, TokenText(Counter(s, Path) + 1, ext));
    }
  }

  // ------------------------------------------------- frames through one mapping

  /** `to` is the name the mapping gives `from`. */
  ghost predicate Named(category: Category, from: string, to: Value, seen: Labels) {
    Original(category, from) in seen && to == Str(seen[Original(category, from)])
  }

  /** A path field: rebuilt from its siblings' names, else named itself; left
      alone when it is empty or not a string. */
  ghost predicate PathMapped(v: Value, w: Value, siblings: Siblings, seen: Labels) {
    if !v.Str? || v.text == "" then w == v
    else match Synthesized(siblings, v.text)
      case Some(path) => w == Str(path)
      case None => Named(Path, v.text, w, seen)
  }

  /** `w` is `v` with every metadata string and path renamed through `seen`, and
      everything else as it was. */
  ghost predicate Mapped(v: Value, w: Value, seen: Labels)
    decreases v, 0
  {
    match v
    case Arr(items) =>
      w.Arr? && |w.items| == |items| && forall i :: 0 <= i < |items| ==> Mapped(items[i], w.items[i], seen)
    case Obj(fields) =>
      w.Obj? && |w.fields| == |fields| && forall i :: 0 <= i < |fields| ==>
        w.fields[i].key == fields[i].key && FieldMapped(fields[i], w.fields[i].value, SiblingsOf(w.fields), seen)
    case Str(text) => if LooksLikePath(text) then Named(Path, text, w, seen) else w == v
    case _ => w == v
  }

  ghost predicate FieldMapped(f: Field, w: Value, siblings: Siblings, seen: Labels)
    decreases f.value, 1
  {
    if CategoryOf(f.key).Some? && f.value.Str? then
      (if f.value.text == "" then w == Str("") else Named(CategoryOf(f.key).value, f.value.text, w, seen))
    else if IsPathKey(f.key) then PathMapped(f.value, w, siblings, seen)
    else Mapped(f.value, w, seen)
  }

  lemma {:induction false} MappedStays(v: Value, w: Value, was: Labels, now: Labels)
    requires Mapped(v, w, was) && Grown(was, now)
    ensures Mapped(v, w, now)
    decreases v, 0
  {
    match v
    case Arr(items) =>
      forall i | 0 <= i < |items| ensures Mapped(items[i], w.items[i], now) {
        MappedStays(items[i], w.items[i], was, now);
      }
    case Obj(fields) =>
      forall i | 0 <= i < |fields| ensures FieldMapped(fields[i], w.fields[i].value, SiblingsOf(w.fields), now) {
        FieldStays(fields[i], w.fields[i].value, SiblingsOf(w.fields), was, now);
      }
    case _ =>
  }

  lemma {:induction false} FieldStays(f: Field, w: Value, siblings: Siblings, was: Labels, now: Labels)
    requires FieldMapped(f, w, siblings, was) && Grown(was, now)
    ensures FieldMapped(f, w, siblings, now)
    decreases f.value, 1
  {
    if !(CategoryOf(f.key).Some? && f.value.Str?) && !IsPathKey(f.key) {
      MappedStays(f.value, w, was, now);
    }
  }

  /** What a pass over the fields has done before the paths are rebuilt. */
  ghost predicate MetaMapped(f: Field, g: Field, seen: Labels) {
    && g.key == f.key
    && if IsPathKey(f.key) then g.value == f.value else FieldMapped(f, g.value, SiblingsOf([]), seen)
  }

  /** Path fields of some kinds rebuilt from `siblings`, the rest as they were. */
  ghost predicate PathsMapped(fields: seq<Field>, out: seq<Field>, kinds: seq<string>, siblings: Siblings, seen: Labels) {
    |out| == |fields| && forall i :: 0 <= i < |fields| ==>
      && out[i].key == fields[i].key
      && if fields[i].key in kinds then PathMapped(fields[i].value, out[i].value, siblings, seen) else out[i] == fields[i]
  }

  lemma RebuiltMaps(s: Names, siblings: Siblings, f: Field, key: string)
    requires Inv(s)
    ensures var (t, value) := Rebuilt(s, siblings, f, key);
      Inv(t) && Grown(s.seen, t.seen)
      && if f.key == key then PathMapped(f.value, value, siblings, t.seen) else value == f.value
  {
    hide Inv, Tokenized, Synthesized, ExtensionOf;
    if f.key == key && f.value.Str? && f.value.text != "" && Synthesized(siblings, f.value.text).None? {
      TokenKeepsInv(s, f.value.text, ExtensionOf(f.value.text));
    }
  }

  lemma PathsStay(fields: seq<Field>, out: seq<Field>, kinds: seq<string>, siblings: Siblings, was: Labels, now: Labels)
    requires PathsMapped(fields, out, kinds, siblings, was) && Grown(was, now)
    ensures PathsMapped(fields, out, kinds, siblings, now)
  {
    hide Synthesized;
  }

  lemma {:induction false} FieldsRebuild(s: Names, siblings: Siblings, fields: seq<Field>, key: string, n: nat)
    requires Inv(s) && n <= |fields|
    ensures var (t, out) := RebuiltFields(s, siblings, fields, key, n);
      Inv(t) && Grown(s.seen, t.seen) && PathsMapped(fields[..n], out, [key], siblings, t.seen)
  {
    hide Inv, Rebuilt, PathMapped;
    if n > 0 {
      FieldsRebuild(s, siblings, fields, key, n - 1);
      var (s1, done) := RebuiltFields(s, siblings, fields, key, n - 1);
      RebuiltMaps(s1, siblings, fields[n - 1], key);
      var (s2, value) := Rebuilt(s1, siblings, fields[n - 1], key);
      PathsStay(fields[..n - 1], done, [key], siblings, s1.seen, s2.seen);
      var out := done + [Field(fields[n - 1].key, value)];
      assert forall i :: 0 <= i < n - 1 ==> fields[..n][i] == fields[..n - 1][i] && out[i] == done[i];
    }
  }

  lemma KeysAreDistinct(k: nat)
    requires k < |PATH_KEYS|
    ensures PATH_KEYS[k] !in PATH_KEYS[..k]
  {
    assert PATH_KEYS[0][0] == 's' && PATH_KEYS[1][0] == 'p' && PATH_KEYS[2][0] == 'u';
  }

  lemma {:induction false} KeysRebuild(s: Names, siblings: Siblings, fields: seq<Field>, k: nat)
    requires Inv(s) && k <= |PATH_KEYS|
    ensures var (t, out) := RebuiltKeys(s, siblings, fields, k);
      Inv(t) && Grown(s.seen, t.seen) && PathsMapped(fields, out, PATH_KEYS[..k], siblings, t.seen)
  {
    hide Inv, RebuiltFields, PathMapped;
    if k > 0 {
      KeysRebuild(s, siblings, fields, k - 1);
      KeysAreDistinct(k - 1);
      var key := PATH_KEYS[k - 1];
      var (s1, done) := RebuiltKeys(s, siblings, fields, k - 1);
      FieldsRebuild(s1, siblings, done, key, |done|);
      var (s2, out) := RebuiltFields(s1, siblings, done, key, |done|);
      assert done[..|done|] == done;
      PathsStay(fields, done, PATH_KEYS[..k - 1], siblings, s1.seen, s2.seen);
      assert PATH_KEYS[..k] == PATH_KEYS[..k - 1] + [key];
    }
  }

  ghost predicate SameOffPaths(a: seq<Field>, b: seq<Field>) {
    |a| == |b| && forall i :: 0 <= i < |a| ==> a[i].key == b[i].key && (IsPathKey(a[i].key) || a[i] == b[i])
  }

  lemma {:induction false} TextIsOffPaths(a: seq<Field>, b: seq<Field>, key: string)
    requires SameOffPaths(a, b) && !IsPathKey(key)
    ensures TextAt(a, key) == TextAt(b, key) && NumberAt(a, key) == NumberAt(b, key)
  {
    hide IsPathKey;
    if a != [] {
      assert a[0].key == b[0].key && (a[0].key == key ==> a[0] == b[0]);
      TextIsOffPaths(a[1..], b[1..], key);
    }
  }

  lemma MetadataKeysAreNoPaths()
    ensures !IsPathKey("artist") && !IsPathKey("album_artist") && !IsPathKey("album") && !IsPathKey("title")
    ensures !IsPathKey("name") && !IsPathKey("trackno")
  {
    assert |"src"| == 3 && |"path"| == 4 && |"url"| == 3 && "name"[0] == 'n' && "path"[0] == 'p';
  }

  lemma SiblingsAreOffPaths(a: seq<Field>, b: seq<Field>)
    requires SameOffPaths(a, b)
    ensures SiblingsOf(a) == SiblingsOf(b)
  {
    hide SameOffPaths, IsPathKey, TextAt, NumberAt;
    MetadataKeysAreNoPaths();
    TextIsOffPaths(a, b, "album_artist");
    TextIsOffPaths(a, b, "artist");
    TextIsOffPaths(a, b, "album");
    TextIsOffPaths(a, b, "title");
    TextIsOffPaths(a, b, "name");
    TextIsOffPaths(a, b, "trackno");
  }

  lemma MetaStays(f: Field, g: Field, was: Labels, now: Labels)
    requires MetaMapped(f, g, was) && Grown(was, now)
    ensures MetaMapped(f, g, now)
  {
    hide SiblingsOf, IsPathKey, CategoryOf;
    if !IsPathKey(f.key) {
      FieldStays(f, g.value, SiblingsOf([]), was, now);
    }
  }

  /** Metadata first, paths after: together the object is mapped. */
  lemma ObjectMaps(fields: seq<Field>, done: seq<Field>, out: seq<Field>, was: Labels, now: Labels)
    requires |done| == |fields| && forall i :: 0 <= i < |fields| ==> MetaMapped(fields[i], done[i], was)
    requires Grown(was, now) && PathsMapped(done, out, PATH_KEYS, SiblingsOf(done), now)
    ensures Mapped(Obj(fields), Obj(out), now)
  {
    hide SiblingsOf, CategoryOf, PathMapped, Mapped;
    SiblingsAreOffPaths(done, out);
    forall i | 0 <= i < |fields|
      ensures out[i].key == fields[i].key && FieldMapped(fields[i], out[i].value, SiblingsOf(out), now)
    {
      MetaStays(fields[i], done[i], was, now);
      if IsPathKey(fields[i].key) {
        PathKeysAreNoMetadata(fields[i].key);
      }
    }
    MappedObject(fields, out, now);
  }

  lemma MappedObject(fields: seq<Field>, out: seq<Field>, seen: Labels)
    requires |out| == |fields| && forall i :: 0 <= i < |fields| ==>
      out[i].key == fields[i].key && FieldMapped(fields[i], out[i].value, SiblingsOf(out), seen)
    ensures Mapped(Obj(fields), Obj(out), seen)
  {
    hide FieldMapped, SiblingsOf;
  }

  lemma PathKeysAreNoMetadata(key: string)
    requires IsPathKey(key)
    ensures CategoryOf(key).None?
  {
    assert |"src"| == 3 && |"path"| == 4 && |"url"| == 3 && "name"[0] == 'n' && "path"[0] == 'p';
    assert |"artist"| == 6 && |"album_artist"| == 12 && |"albumartist"| == 11 && |"albumArtist"| == 11;
    assert |"album"| == 5 && |"title"| == 5 && |"genre"| == 5 && |"name"| == 4;
  }

  lemma {:induction false} ScrubMaps(s: Names, v: Value)
    requires Inv(s)
    ensures var (t, w) := Scrubbed(s, v);
      Inv(t) && Grown(s.seen, t.seen) && Mapped(v, w, t.seen)
    decreases v, Size(v)
  {
    hide Inv, LooksLikePath, ExtensionOf, Tokenized, Labelled, SiblingsOf;
    match v
    case Arr(items) =>
      ItemsMap(s, v, |items|);
    case Obj(fields) =>
      FieldsMap(s, v, |fields|);
      var (t, done) := ScrubbedFields(s, v, |fields|);
      KeysRebuild(t, SiblingsOf(done), done, |PATH_KEYS|);
      var (u, out) := RebuiltKeys(t, SiblingsOf(done), done, |PATH_KEYS|);
      assert PATH_KEYS[..|PATH_KEYS|] == PATH_KEYS;
      ObjectMaps(fields, done, out, t.seen, u.seen);
    case Str(text) =>
      TokenKeepsInv(s, text, ExtensionOf(text));
    case _ =>
  }

  lemma {:induction false} ItemsMap(s: Names, v: Value, n: nat)
    requires Inv(s) && v.Arr? && n <= |v.items|
    ensures var (t, done) := ScrubbedItems(s, v, n);
      Inv(t) && Grown(s.seen, t.seen) && |done| == n && forall i :: 0 <= i < n ==> Mapped(v.items[i], done[i], t.seen)
    decreases v, n
  {
    hide Inv, Mapped, Scrubbed;
    if n > 0 {
      ItemsMap(s, v, n - 1);
      var (s1, done) := ScrubbedItems(s, v, n - 1);
      ScrubMaps(s1, v.items[n - 1]);
      var (s2, item) := Scrubbed(s1, v.items[n - 1]);
      forall i | 0 <= i < n - 1 ensures Mapped(v.items[i], done[i], s2.seen) {
        MappedStays(v.items[i], done[i], s1.seen, s2.seen);
      }
    }
  }

  lemma {:induction false} FieldsMap(s: Names, v: Value, n: nat)
    requires Inv(s) && v.Obj? && n <= |v.fields|
    ensures var (t, done) := ScrubbedFields(s, v, n);
      Inv(t) && Grown(s.seen, t.seen) && |done| == n && forall i :: 0 <= i < n ==> MetaMapped(v.fields[i], done[i], t.seen)
    decreases v, n
  {
    hide Inv, Mapped, Scrubbed, Labelled, IsPathKey, CategoryOf, SiblingsOf;
    if n > 0 {
      FieldsMap(s, v, n - 1);
      var (s1, done) := ScrubbedFields(s, v, n - 1);
      var f := v.fields[n - 1];
      var (s2, more) := ScrubbedFields(s, v, n);
      if CategoryOf(f.key).Some? && f.value.Str? {
        CategoriesAreNoPaths(f.key);
        LabelKeepsInv(s1, CategoryOf(f.key).value, f.value.text);
      } else if !IsPathKey(f.key) {
        ScrubMaps(s1, f.value);
      }
      assert Grown(s1.seen, s2.seen);
      assert MetaMapped(f, more[n - 1], s2.seen);
      forall i | 0 <= i < n - 1 ensures MetaMapped(v.fields[i], more[i], s2.seen) {
        MetaStays(v.fields[i], done[i], s1.seen, s2.seen);
      }
    }
  }

  lemma CategoriesAreNoPaths(key: string)
    requires CategoryOf(key).Some?
    ensures !CategoryOf(key).value.Path? && !IsPathKey(key)
  {
    if IsPathKey(key) {
      PathKeysAreNoMetadata(key);
    }
  }

  /** However many frames are scrubbed, all of them go through one mapping, in
      which no two originals of a category share a name. */
  lemma {:induction false} BucketIsOneMapping(s: Names, frames: seq<Value>)
    requires Inv(s)
    ensures var (t, out) := ScrubbedAll(s, frames);
      && Inv(t) && OneToOne(t.seen) && Grown(s.seen, t.seen)
      && |out| == |frames| && forall i :: 0 <= i < |frames| ==> Mapped(frames[i], out[i], t.seen)
  {
    hide Mapped, Scrubbed, OneToOne, Numbered;
    if frames != [] {
      var n := |frames| - 1;
      BucketIsOneMapping(s, frames[..n]);
      var (s1, done) := ScrubbedAll(s, frames[..n]);
      ScrubMaps(s1, frames[n]);
      var (s2, last) := Scrubbed(s1, frames[n]);
      forall i | 0 <= i < n ensures Mapped(frames[i], done[i], s2.seen) {
        MappedStays(frames[..n][i], done[i], s1.seen, s2.seen);
      }
    }
  }

  /** Somewhere in `v` a metadata string of the category is `from`, where `w` has `to`. */
  ghost predicate Renames(v: Value, w: Value, category: Category, from: string, to: string)
    decreases v, 0
  {
    match v
    case Arr(items) =>
      w.Arr? && exists i :: 0 <= i < |items| && i < |w.items| && Renames(items[i], w.items[i], category, from, to)
    case Obj(fields) =>
      w.Obj? && exists i :: 0 <= i < |fields| && i < |w.fields| && FieldRenames(fields[i], w.fields[i], category, from, to)
    case _ => false
  }

  ghost predicate FieldRenames(f: Field, g: Field, category: Category, from: string, to: string)
    decreases f.value, 1
  {
    if CategoryOf(f.key).Some? && f.value.Str? then
      CategoryOf(f.key) == Some(category) && f.value.text == from && g.value == Str(to)
    else !IsPathKey(f.key) && Renames(f.value, g.value, category, from, to)
  }

  lemma {:induction false} RenamedByMapping(v: Value, w: Value, seen: Labels, category: Category, from: string, to: string)
    requires Mapped(v, w, seen) && Renames(v, w, category, from, to) && from != ""
    ensures Original(category, from) in seen && to == seen[Original(category, from)]
    decreases v
  {
    hide SiblingsOf, CategoryOf, IsPathKey, PathMapped;
    match v
    case Arr(items) =>
      var i :| 0 <= i < |items| && i < |w.items| && Renames(items[i], w.items[i], category, from, to);
      RenamedByMapping(items[i], w.items[i], seen, category, from, to);
    case Obj(fields) =>
      var i :| 0 <= i < |fields| && i < |w.fields| && FieldRenames(fields[i], w.fields[i], category, from, to);
      var f := fields[i];
      assert FieldMapped(f, w.fields[i].value, SiblingsOf(w.fields), seen);
      if !(CategoryOf(f.key).Some? && f.value.Str?) {
        RenamedByMapping(f.value, w.fields[i].value, seen, category, from, to);
      }
    case _ =>
  }

  /** Anywhere in a bucket, two metadata strings of one category get the same
      name exactly when they are the same string. */
  lemma SameNameIffSameString(frames: seq<Value>, i: nat, j: nat, category: Category, a: string, b: string, x: string, y: string)
    requires i < |frames| && j < |frames| && a != "" && b != ""
    requires |ScrubbedAll(NO_NAMES, frames).1| == |frames|
    requires Renames(frames[i], ScrubbedAll(NO_NAMES, frames).1[i], category, a, x)
    requires Renames(frames[j], ScrubbedAll(NO_NAMES, frames).1[j], category, b, y)
    ensures x == y <==> a == b
  {
    hide Mapped, ScrubbedAll, Renames;
    BucketIsOneMapping(NO_NAMES, frames);
    var (t, out) := ScrubbedAll(NO_NAMES, frames);
    RenamedByMapping(frames[i], out[i], t.seen, category, a, x);
    RenamedByMapping(frames[j], out[j], t.seen, category, b, y);
  }

  /** A name once given is never given differently later. */
  lemma NamesNeverChange(frames: seq<Value>, more: seq<Value>)
    ensures Grown(ScrubbedAll(NO_NAMES, frames).0.seen, ScrubbedAll(ScrubbedAll(NO_NAMES, frames).0, more).0.seen)
  {
    hide ScrubbedAll, Mapped;
    BucketIsOneMapping(NO_NAMES, frames);
    BucketIsOneMapping(ScrubbedAll(NO_NAMES, frames).0, more);
  }

  /** In a bucket the names of a category are numbered from one without a gap,
      one for each original. */
  lemma NamesAreConsecutive(frames: seq<Value>, category: Category, n: nat)
    requires n >= 1
    ensures var t := ScrubbedAll(NO_NAMES, frames).0;
      && (forall o :: o in t.seen && o.category == category ==> exists m :: 1 <= m <= Counter(t, category) && IsNth(category, m, t.seen[o]))
      && (n <= Counter(t, category) <==> exists o :: o in t.seen && o.category == category && IsNth(category, n, t.seen[o]))
  {
    hide ScrubbedAll, Mapped, IsNth;
    BucketIsOneMapping(NO_NAMES, frames);
    var t := ScrubbedAll(NO_NAMES, frames).0;
    if n <= Counter(t, category) {
      assert Given(t, category, n);
    }
    forall o | o in t.seen && o.category == category
      ensures exists m :: 1 <= m <= Counter(t, category) && IsNth(category, m, t.seen[o])
      ensures IsNth(category, n, t.seen[o]) ==> n <= Counter(t, category)
    {
      var m :| Numbered(t, o, m);
      if IsNth(category, n, t.seen[o]) {
        NthAreDistinct(category, m, n, t.seen[o]);
      }
    }
  }

  // ------------------------------------------------ how names and paths are spelled

  function ReadDigits(s: string): int {
    if s == "" then 0 else 10 * ReadDigits(s[..|s| - 1]) + (s[|s| - 1] as int - '0' as int)
  }

  /** The digits of a number are its decimal ones, without a leading zero. */
  lemma {:induction false} DigitsReadBack(n: nat)
    ensures Digits(n) != "" && forall c :: c in Digits(n) ==> '0' <= c <= '9'
    ensures ReadDigits(Digits(n)) == n
    ensures n > 0 ==> Digits(n)[0] != '0'
  {
    DigitsAreDigits(n);
    if n >= 10 {
      DigitsReadBack(n / 10);
      assert Digits(n)[..|Digits(n)| - 1] == Digits(n / 10);
    } else {
      assert Digits(n)[..0] == "";
    }
  }

  lemma BackslashIsInside(s: string)
    ensures '\\' in s <==> exists a, b :: s == a + "\\" + b
  {
    if '\\' in s {
      var i :| 0 <= i < |s| && s[i] == '\\';
      assert s == s[..i] + "\\" + s[i + 1..];
    }
    forall a, b | s == a + "\\" + b ensures '\\' in s {
      assert s[|a|] == '\\';
    }
  }

  lemma SchemeIsInside(s: string)
    ensures Contains(s, "://") <==> exists a, b :: s == a + "://" + b
  {
    if Contains(s, "://") {
      var i :| 0 <= i <= |s| && "://" <= s[i..];
      assert s[i..] == "://" + s[i..][3..];
      assert s == s[..i] + "://" + s[i..][3..];
    }
    forall a, b | s == a + "://" + b ensures Contains(s, "://") {
      assert s[|a|..] == "://" + b;
    }
  }

  predicate StartsAtDrive(s: string) {
    |s| >= 3 && IsLetter(s[0]) && s[1] == ':' && (s[2] == '/' || s[2] == '\\')
  }

  lemma DriveIsInFront(s: string)
    ensures StartsAtDrive(s) <==>
      exists drive, b :: IsLetter(drive) && (s == [drive] + ":/" + b || s == [drive] + ":\\" + b)
  {
    if StartsAtDrive(s) {
      assert s == [s[0]] + (if s[2] == '/' then ":/" else ":\\") + s[3..];
    }
  }

  /** What looks like a path: anything with a backslash or a scheme's mark in it,
      and what starts at a drive's root. */
  lemma LooksLikePathIff(s: string)
    ensures LooksLikePath(s) <==>
      || (exists a, b :: s == a + "\\" + b)
      || (exists a, b :: s == a + "://" + b)
      || (exists drive, b :: IsLetter(drive) && (s == [drive] + ":/" + b || s == [drive] + ":\\" + b))
  {
    BackslashIsInside(s);
    SchemeIsInside(s);
    DriveIsInFront(s);
    assert LooksLikePath(s) <==> '\\' in s || Contains(s, "://") || StartsAtDrive(s);
    hide LooksLikePath, Contains, StartsAtDrive, IsLetter;
  }

  /** The extension kept of a path is what stands behind its last dot, where that
      is short and no directory, and "dat" otherwise. */
  lemma ExtensionIsBehindTheLastDot(p: string) returns (before: string, behind: string)
    ensures p == before + behind && '.' !in behind && (before == "" || before[|before| - 1] == '.')
    ensures ExtensionOf(p) ==
      if behind != "" && ByteLength(behind) <= 4 && '/' !in behind && '\\' !in behind then behind else "dat"
  {
    before := LastPieceIsTheEnd(p, DOT);
    var pieces := Split(p, DOT);
    behind := pieces[|pieces| - 1];
  }

  /** Which keys are metadata, and of what category. */
  lemma CategoriesAre(key: string)
    ensures CategoryOf(key) == Some(Artist) <==> key in {"artist", "album_artist", "albumartist", "albumArtist"}
    ensures CategoryOf(key) == Some(Album) <==> key == "album"
    ensures CategoryOf(key) == Some(Title) <==> key == "title"
    ensures CategoryOf(key) == Some(Genre) <==> key == "genre"
    ensures CategoryOf(key) == Some(Name) <==> key == "name"
  {
    assert |"album"| == |"title"| == |"genre"| == 5 && "album"[0] == 'a' && "title"[0] == 't' && "genre"[0] == 'g';
    assert |"artist"| == 6 && |"album_artist"| == 12 && |"albumartist"| == |"albumArtist"| == 11 && |"name"| == 4;
  }

  /** What a track's frame is scrubbed to when its tags are the first of their kind. */
  function Track(artist: string, album: string, title: string, src: string): seq<Field> {
    [Field("artist", Str(artist)), Field("album", Str(album)), Field("title", Str(title)),
     Field("trackno", Number(3)), Field("src", Str(src))]
  }

  function TrackPath(artist: string, album: string, number: string, title: string, ext: string): string {
    "\\\\host\\music\\" + artist + "\\" + album + "\\" + number + " - " + title + "." + ext
  }

  lemma FirstName(s: Names, category: Category, text: string)
    requires text != "" && Original(category, text) !in s.seen && category !in s.counters
    ensures Labelled(s, category, text) ==
      (Names(s.counters[category := 1], s.seen[Original(category, text) := category.Display() + " 1"]), category.Display() + " 1")
  {
    assert Digits(1) == "1";
    assert category.Display() + " " + "1" == category.Display() + " 1";
  }

  lemma OneMoreField(s: Names, v: Value, n: nat)
    requires v.Obj? && 1 <= n <= |v.fields|
    ensures var (s1, done) := ScrubbedFields(s, v, n - 1);
      var f := v.fields[n - 1];
      ScrubbedFields(s, v, n) ==
        if CategoryOf(f.key).Some? && f.value.Str? then
          var (t, alias) := Labelled(s1, CategoryOf(f.key).value, f.value.text);
          (t, done + [Field(f.key, Str(alias))])
        else if IsPathKey(f.key) then (s1, done + [f])
        else (Scrubbed(s1, f.value).0, done + [Field(f.key, Scrubbed(s1, f.value).1)])
  {
    hide Scrubbed, Labelled, CategoryOf, IsPathKey;
  }

  lemma TrackKeys()
    ensures CategoryOf("artist") == Some(Artist) && CategoryOf("album") == Some(Album) && CategoryOf("title") == Some(Title)
    ensures CategoryOf("trackno") == None && CategoryOf("src") == None
    ensures IsPathKey("src") && !IsPathKey("trackno")
    ensures Artist.Display() + " 1" == "Artist 1" && Album.Display() + " 1" == "Album 1" && Title.Display() + " 1" == "Track 1"
  {
    MetadataKeysAreNoPaths();
    CategoriesAre("artist");
    CategoriesAre("album");
    CategoriesAre("title");
    assert PATH_KEYS[0] == "src";
    assert |"trackno"| == 7 && |"src"| == 3 && |"artist"| == 6 && |"album_artist"| == 12 && |"albumartist"| == |"albumArtist"| == 11;
    assert |"album"| == |"title"| == |"genre"| == 5 && |"name"| == 4;
  }

  lemma TagsAreNamed(artist: string, album: string, title: string, src: string)
    requires artist != "" && album != "" && title != ""
    ensures var track := Obj(Track(artist, album, title, src));
      ScrubbedFields(NO_NAMES, track, 5).1 == Track("Artist 1", "Album 1", "Track 1", src)
  {
    var track := Obj(Track(artist, album, title, src));
    TrackKeys();
    var s0 := NO_NAMES;
    OneMoreField(s0, track, 1);
    OneMoreField(s0, track, 2);
    OneMoreField(s0, track, 3);
    OneMoreField(s0, track, 4);
    OneMoreField(s0, track, 5);
    NothingScrubbed(s0, track);
    hide ScrubbedFields, Labelled, CategoryOf, IsPathKey;
    var s1 := ScrubbedFields(s0, track, 1).0;
    var s2 := ScrubbedFields(s0, track, 2).0;
    FirstName(s0, Artist, artist);
    FirstName(s1, Album, album);
    FirstName(s2, Title, title);
    assert ScrubbedFields(s0, track, 3).1 ==
      [Field("artist", Str("Artist 1")), Field("album", Str("Album 1")), Field("title", Str("Track 1"))];
    NumbersStay(ScrubbedFields(s0, track, 3).0, 3);
    hide Scrubbed;
  }

  lemma NothingScrubbed(s: Names, v: Value)
    requires v.Obj?
    ensures ScrubbedFields(s, v, 0) == (s, [])
  {
  }

  lemma NumbersStay(s: Names, n: int)
    ensures Scrubbed(s, Number(n)) == (s, Number(n))
  {
  }

  lemma {:induction false} TextAtIsTheFirst(fields: seq<Field>, key: string, i: nat)
    requires i <= |fields| && forall j :: 0 <= j < i ==> fields[j].key != key
    requires i < |fields| ==> fields[i].key == key
    ensures TextAt(fields, key) == if i < |fields| && fields[i].value.Str? then Some(fields[i].value.text) else None
    ensures NumberAt(fields, key) == if i < |fields| && fields[i].value.Number? then fields[i].value.n else 0
  {
    if i > 0 {
      TextAtIsTheFirst(fields[1..], key, i - 1);
    }
  }

  lemma PathIsSynthesized(stem: string, ext: string)
    requires FreeOf(stem, DOT) && FreeOf(ext, DOT) && ext != "" && ByteLength(ext) <= 4 && '/' !in ext && '\\' !in ext
    ensures Synthesized(SiblingsOf(Track("Artist 1", "Album 1", "Track 1", stem + "." + ext)), stem + "." + ext) ==
      Some(TrackPath("Artist 1", "Album 1", "03", "Track 1", ext))
  {
    var src := stem + "." + ext;
    ExtensionBehind(stem, ext);
    assert TwoDigits(3) == "03" by { assert Digits(3) == "3"; }
    hide ExtensionOf, TwoDigits;
    TrackSiblings(src);
    hide SiblingsOf;
  }

  lemma ExtensionBehind(stem: string, ext: string)
    requires FreeOf(stem, DOT) && FreeOf(ext, DOT) && ext != "" && ByteLength(ext) <= 4 && '/' !in ext && '\\' !in ext
    ensures ExtensionOf(stem + "." + ext) == ext
  {
    SplitFirst(stem, '.', ext, DOT);
    SplitNothing(ext, DOT);
    assert stem + ['.'] + ext == stem + "." + ext;
  }

  lemma TrackSiblings(src: string)
    ensures SiblingsOf(Track("Artist 1", "Album 1", "Track 1", src)) ==
      Siblings(Some("Artist 1"), Some("Album 1"), Some("Track 1"), None, 3)
  {
    var f := Track("Artist 1", "Album 1", "Track 1", src);
    assert |"artist"| == 6 && |"album"| == |"title"| == 5 && "album"[0] == 'a' && "title"[0] == 't' && |"trackno"| == 7 && |"src"| == 3;
    assert |"album_artist"| == 12 && |"name"| == 4;
    TextAtIsTheFirst(f, "album_artist", 5);
    TextAtIsTheFirst(f, "artist", 0);
    TextAtIsTheFirst(f, "album", 1);
    TextAtIsTheFirst(f, "title", 2);
    TextAtIsTheFirst(f, "trackno", 3);
    TextAtIsTheFirst(f, "name", 5);
  }

  /** A track's frame, the first of a bucket, comes out with a name for each tag
      and its path rebuilt from those names. */
  lemma TrackIsRewritten(artist: string, album: string, title: string, stem: string, ext: string)
    requires artist != "" && album != "" && title != ""
    requires FreeOf(stem, DOT) && FreeOf(ext, DOT) && ext != "" && ByteLength(ext) <= 4 && '/' !in ext && '\\' !in ext
    ensures Scrubbed(NO_NAMES, Obj(Track(artist, album, title, stem + "." + ext))).1 ==
      Obj(Track("Artist 1", "Album 1", "Track 1", TrackPath("Artist 1", "Album 1", "03", "Track 1", ext)))
  {
    hide Scrubbed, ScrubbedFields, SiblingsOf, Synthesized, TrackPath, ByteLength;
    var src := stem + "." + ext;
    TagsAreNamed(artist, album, title, src);
    PathIsSynthesized(stem, ext);
    TrackIsRebuilt(Track(artist, album, title, src), src, TrackPath("Artist 1", "Album 1", "03", "Track 1", ext));
  }

  lemma TrackIsRebuilt(fields: seq<Field>, src: string, path: string)
    requires |fields| == 5 && src != ""
    requires ScrubbedFields(NO_NAMES, Obj(fields), 5).1 == Track("Artist 1", "Album 1", "Track 1", src)
    requires Synthesized(SiblingsOf(Track("Artist 1", "Album 1", "Track 1", src)), src) == Some(path)
    ensures Scrubbed(NO_NAMES, Obj(fields)).1 == Obj(Track("Artist 1", "Album 1", "Track 1", path))
  {
    ScrubbedObject(NO_NAMES, fields);
    NoNamesKeepsInv();
    FieldsMap(NO_NAMES, Obj(fields), 5);
    hide Scrubbed, ScrubbedFields, RebuiltKeys, SiblingsOf, Synthesized, PathsMapped, Inv, Grown, MetaMapped;
    var (s, done) := ScrubbedFields(NO_NAMES, Obj(fields), 5);
    KeysRebuild(s, SiblingsOf(done), done, |PATH_KEYS|);
    assert PATH_KEYS[..|PATH_KEYS|] == PATH_KEYS;
    var (t, out) := RebuiltKeys(s, SiblingsOf(done), done, |PATH_KEYS|);
    OnlyTheSrc(done, out, SiblingsOf(done), t.seen, path);
  }

  lemma NoNamesKeepsInv()
    ensures Inv(NO_NAMES)
  {
  }

  lemma ScrubbedObject(s: Names, fields: seq<Field>)
    ensures var (t, done) := ScrubbedFields(s, Obj(fields), |fields|);
      Scrubbed(s, Obj(fields)).1 == Obj(RebuiltKeys(t, SiblingsOf(done), done, |PATH_KEYS|).1)
  {
  }

  lemma OnlyTheSrc(done: seq<Field>, out: seq<Field>, siblings: Siblings, seen: Labels, path: string)
    requires |done| == 5 && done[4].key == "src" && done[4].value.Str? && done[4].value.text != ""
    requires done[0].key == "artist" && done[1].key == "album" && done[2].key == "title" && done[3].key == "trackno"
    requires PathsMapped(done, out, PATH_KEYS, siblings, seen) && Synthesized(siblings, done[4].value.text) == Some(path)
    ensures out == done[4 := Field("src", Str(path))]
  {
    hide Synthesized;
    TrackKeys();
    MetadataKeysAreNoPaths();
  }

  // ----------------------------------------------------- what is left as it is

  /** What a path field holds when it is not a string is left as it is, whatever
      is in it and whatever else the object holds. */
  lemma NestedPathFieldIsLeftAlone(s: Names, fields: seq<Field>, i: nat)
    requires Inv(s) && i < |fields| && IsPathKey(fields[i].key) && !fields[i].value.Str?
    ensures var w := Scrubbed(s, Obj(fields)).1;
      w.Obj? && i < |w.fields| && w.fields[i] == fields[i]
  {
    ScrubMaps(s, Obj(fields));
    PathKeysAreNoMetadata(fields[i].key);
    hide Scrubbed, CategoryOf, IsPathKey, SiblingsOf, Synthesized;
    var (t, w) := Scrubbed(s, Obj(fields));
    assert FieldMapped(fields[i], w.fields[i].value, SiblingsOf(w.fields), t.seen);
  }

  /** The category a string below a field belongs to: its own key's, or the one
      of the nearest key above it that has one. */
  function Under(key: string, within: Option<Category>): Option<Category> {
    if IsPathKey(key) then Some(Path)
    else if CategoryOf(key).Some? then CategoryOf(key)
    else within
  }

  /** What a string that is no field of its own should become: a name of its
      category, or of a path where it looks like one or belongs to one. */
  ghost predicate StringRenamed(text: string, w: Value, within: Option<Category>, seen: Labels) {
    match within
    case None => if LooksLikePath(text) then Named(Path, text, w, seen) else w == Str(text)
    case Some(category) =>
      if text == "" then w == Str("")
      else Named(category, text, w, seen) || (LooksLikePath(text) && Named(Path, text, w, seen))
  }

  /** `w` is `v` with every metadata string and path renamed through `seen`, also
      those in a list or an object under a metadata or path key. */
  ghost predicate Renamed(v: Value, w: Value, within: Option<Category>, seen: Labels)
    decreases v, 0
  {
    match v
    case Arr(items) =>
      w.Arr? && |w.items| == |items| && forall i :: 0 <= i < |items| ==> Renamed(items[i], w.items[i], within, seen)
    case Obj(fields) =>
      w.Obj? && |w.fields| == |fields| && forall i :: 0 <= i < |fields| ==>
        w.fields[i].key == fields[i].key
        && FieldRenamed(fields[i], w.fields[i].value, SiblingsOf(w.fields), within, seen)
    case Str(text) => StringRenamed(text, w, within, seen)
    case _ => w == v
  }

  predicate IsKeyedString(f: Field) {
    f.value.Str? && (CategoryOf(f.key).Some? || IsPathKey(f.key))
  }

  ghost predicate FieldRenamed(f: Field, w: Value, siblings: Siblings, within: Option<Category>, seen: Labels)
    decreases f.value, 1
  {
    if IsKeyedString(f) then FieldMapped(f, w, siblings, seen)
    else Renamed(f.value, w, Under(f.key, within), seen)
  }

  /** Somewhere the walk reaches a path field that is not a string and is not its
      own renaming, or a string below a metadata key that is neither that
      field's own value nor path-shaped, and is not its own name. */
  ghost predicate LeavesBehind(v: Value, within: Option<Category>, seen: Labels)
    decreases v, 0
  {
    match v
    case Arr(items) => exists i :: 0 <= i < |items| && LeavesBehind(items[i], within, seen)
    case Obj(fields) => exists i :: 0 <= i < |fields| && FieldLeavesBehind(fields[i], within, seen)
    case Str(text) => within.Some? && text != "" && !LooksLikePath(text) && !Named(within.value, text, v, seen)
    case _ => false
  }

  ghost predicate FieldLeavesBehind(f: Field, within: Option<Category>, seen: Labels)
    decreases f.value, 1
  {
    if IsKeyedString(f) then false
    else if IsPathKey(f.key) then !Renamed(f.value, f.value, Some(Path), seen)
    else LeavesBehind(f.value, Under(f.key, within), seen)
  }

  /** A mapped tree is renamed throughout exactly when it leaves nothing behind. */
  lemma {:induction false} FullyRenamedIff(v: Value, w: Value, within: Option<Category>, seen: Labels)
    requires Mapped(v, w, seen)
    ensures Renamed(v, w, within, seen) <==> !LeavesBehind(v, within, seen)
    decreases v, 0
  {
    match v
    case Arr(items) =>
      forall i | 0 <= i < |items|
        ensures Renamed(items[i], w.items[i], within, seen) <==> !LeavesBehind(items[i], within, seen)
      {
        FullyRenamedIff(items[i], w.items[i], within, seen);
      }
    case Obj(fields) =>
      var siblings := SiblingsOf(w.fields);
      forall i | 0 <= i < |fields|
        ensures FieldRenamed(fields[i], w.fields[i].value, siblings, within, seen) <==> !FieldLeavesBehind(fields[i], within, seen)
      {
        FieldRenamedIff(fields[i], w.fields[i].value, siblings, within, seen);
      }
    case Str(text) => PathsAreNotEmpty(text);
    case _ =>
  }

  lemma PathsAreNotEmpty(text: string)
    ensures LooksLikePath(text) ==> text != ""
  {
  }

  lemma {:induction false} FieldRenamedIff(f: Field, w: Value, siblings: Siblings, within: Option<Category>, seen: Labels)
    requires FieldMapped(f, w, siblings, seen)
    ensures FieldRenamed(f, w, siblings, within, seen) <==> !FieldLeavesBehind(f, within, seen)
    decreases f.value, 1
  {
    if IsPathKey(f.key) {
      PathKeysAreNoMetadata(f.key);
    } else if !IsKeyedString(f) {
      FullyRenamedIff(f.value, w, Under(f.key, within), seen);
    }
  }

  /** A metadata string, a path or a path-shaped string stands somewhere in it. */
  predicate HoldsOriginal(v: Value, within: Option<Category>)
    decreases v, 0
  {
    match v
    case Arr(items) => exists i :: 0 <= i < |items| && HoldsOriginal(items[i], within)
    case Obj(fields) => exists i :: 0 <= i < |fields| && FieldHoldsOriginal(fields[i], within)
    case Str(text) => if within.None? then LooksLikePath(text) else text != ""
    case _ => false
  }

  predicate FieldHoldsOriginal(f: Field, within: Option<Category>)
    decreases f.value, 1
  {
    if IsKeyedString(f) then f.value.text != "" else HoldsOriginal(f.value, Under(f.key, within))
  }

  lemma {:induction false} NothingToRename(v: Value, within: Option<Category>, seen: Labels)
    requires !HoldsOriginal(v, within)
    ensures Renamed(v, v, within, seen)
    decreases v, 0
  {
    match v
    case Arr(items) =>
      forall i | 0 <= i < |items| ensures Renamed(items[i], items[i], within, seen) {
        NothingToRename(items[i], within, seen);
      }
    case Obj(fields) =>
      forall i | 0 <= i < |fields| ensures FieldRenamed(fields[i], fields[i].value, SiblingsOf(fields), within, seen) {
        assert !FieldHoldsOriginal(fields[i], within);
        if !IsKeyedString(fields[i]) {
          NothingToRename(fields[i].value, Under(fields[i].key, within), seen);
        }
      }
    case _ =>
  }

  /** Nothing was given its own text for a name. */
  ghost predicate NamesDiffer(seen: Labels) {
    forall o :: o in seen ==> seen[o] != o.text
  }

  lemma {:induction false} TextAtStands(fields: seq<Field>, key: string)
    requires TextAt(fields, key).Some?
    ensures exists i :: 0 <= i < |fields| && fields[i] == Field(key, Str(TextAt(fields, key).value))
  {
    if fields[0].key == key {
      assert fields[0] == Field(key, Str(TextAt(fields, key).value));
    } else {
      TextAtStands(fields[1..], key);
      var i :| 0 <= i < |fields[1..]| && fields[1..][i] == Field(key, Str(TextAt(fields, key).value));
      assert fields[i + 1] == fields[1..][i];
    }
  }

  /** What a path is rebuilt from is a metadata string of the same object. */
  lemma SynthesizedFromMetadata(fields: seq<Field>, p: string) returns (i: nat)
    requires Synthesized(SiblingsOf(fields), p).Some?
    ensures i < |fields| && CategoryOf(fields[i].key).Some? && fields[i].value.Str? && fields[i].value.text != ""
  {
    var key := if SiblingsOf(fields).title.Some? && SiblingsOf(fields).title.value != "" then "title" else "name";
    assert TextAt(fields, key).Some? && TextAt(fields, key).value != "";
    TextAtStands(fields, key);
    assert CategoryOf("title").Some? && CategoryOf("name").Some?;
    i :| 0 <= i < |fields| && fields[i] == Field(key, Str(TextAt(fields, key).value));
  }

  lemma {:induction false} OriginalsChange(v: Value, within: Option<Category>, seen: Labels)
    requires HoldsOriginal(v, within) && NamesDiffer(seen)
    ensures !Renamed(v, v, within, seen)
    decreases v, 0
  {
    hide Synthesized, SiblingsOf, LooksLikePath, CategoryOf, IsPathKey;
    match v
    case Arr(items) =>
      var i :| 0 <= i < |items| && HoldsOriginal(items[i], within);
      OriginalsChange(items[i], within, seen);
    case Obj(fields) =>
      var i :| 0 <= i < |fields| && FieldHoldsOriginal(fields[i], within);
      var f := fields[i];
      if IsKeyedString(f) {
        var at := i;
        if CategoryOf(f.key).None? && Synthesized(SiblingsOf(fields), f.value.text).Some? {
          at := SynthesizedFromMetadata(fields, f.value.text);
        }
        assert !FieldRenamed(fields[at], fields[at].value, SiblingsOf(fields), within, seen);
      } else {
        OriginalsChange(f.value, Under(f.key, within), seen);
        assert !FieldRenamed(f, f.value, SiblingsOf(fields), within, seen);
      }
    case _ =>
  }

  /** Somewhere the walk reaches a path field that is not a string and holds an
      original, or below a metadata key a string that is neither that field's
      own value nor empty nor path-shaped. */
  predicate HidesOriginal(v: Value, within: Option<Category>)
    decreases v, 0
  {
    match v
    case Arr(items) => exists i :: 0 <= i < |items| && HidesOriginal(items[i], within)
    case Obj(fields) => exists i :: 0 <= i < |fields| && FieldHidesOriginal(fields[i], within)
    case Str(text) => within.Some? && text != "" && !LooksLikePath(text)
    case _ => false
  }

  predicate FieldHidesOriginal(f: Field, within: Option<Category>)
    decreases f.value, 1
  {
    if IsKeyedString(f) then false
    else if IsPathKey(f.key) then HoldsOriginal(f.value, Some(Path))
    else HidesOriginal(f.value, Under(f.key, within))
  }

  lemma {:induction false} HiddenIsLeftBehind(v: Value, within: Option<Category>, seen: Labels)
    ensures LeavesBehind(v, within, seen) ==> HidesOriginal(v, within)
    ensures NamesDiffer(seen) ==> (LeavesBehind(v, within, seen) <==> HidesOriginal(v, within))
    decreases v, 0
  {
    match v
    case Arr(items) =>
      forall i | 0 <= i < |items|
        ensures LeavesBehind(items[i], within, seen) ==> HidesOriginal(items[i], within)
        ensures NamesDiffer(seen) ==> (LeavesBehind(items[i], within, seen) <==> HidesOriginal(items[i], within))
      {
        HiddenIsLeftBehind(items[i], within, seen);
      }
    case Obj(fields) =>
      forall i | 0 <= i < |fields|
        ensures FieldLeavesBehind(fields[i], within, seen) ==> FieldHidesOriginal(fields[i], within)
        ensures NamesDiffer(seen) ==> (FieldLeavesBehind(fields[i], within, seen) <==> FieldHidesOriginal(fields[i], within))
      {
        HiddenFieldIsLeftBehind(fields[i], within, seen);
      }
    case _ =>
  }

  lemma {:induction false} HiddenFieldIsLeftBehind(f: Field, within: Option<Category>, seen: Labels)
    ensures FieldLeavesBehind(f, within, seen) ==> FieldHidesOriginal(f, within)
    ensures NamesDiffer(seen) ==> (FieldLeavesBehind(f, within, seen) <==> FieldHidesOriginal(f, within))
    decreases f.value, 1
  {
    if IsPathKey(f.key) {
      if !HoldsOriginal(f.value, Some(Path)) {
        NothingToRename(f.value, Some(Path), seen);
      } else if NamesDiffer(seen) {
        OriginalsChange(f.value, Some(Path), seen);
      }
    } else {
      HiddenIsLeftBehind(f.value, Under(f.key, within), seen);
    }
  }

  /** Nothing escapes a frame of a bucket exactly when it leaves nothing behind;
      where no name is the text it stands for, exactly when it hides no original. */
  lemma NothingEscapesIff(frames: seq<Value>, i: nat)
    requires i < |frames| && |ScrubbedAll(NO_NAMES, frames).1| == |frames|
    ensures var (t, out) := ScrubbedAll(NO_NAMES, frames);
      && (Renamed(frames[i], out[i], None, t.seen) <==> !LeavesBehind(frames[i], None, t.seen))
      && (!HidesOriginal(frames[i], None) ==> Renamed(frames[i], out[i], None, t.seen))
      && (NamesDiffer(t.seen) ==> (Renamed(frames[i], out[i], None, t.seen) <==> !HidesOriginal(frames[i], None)))
  {
    hide Mapped, ScrubbedAll, Renamed, LeavesBehind, HidesOriginal, NamesDiffer;
    BucketIsOneMapping(NO_NAMES, frames);
    var (t, out) := ScrubbedAll(NO_NAMES, frames);
    FullyRenamedIff(frames[i], out[i], None, t.seen);
    HiddenIsLeftBehind(frames[i], None, t.seen);
  }

  /** The case met in practice: a list of names under a metadata key comes out as it went in. */
  lemma ListOfNamesIsLeftAlone(s: Names, key: string, name: string)
    requires CategoryOf(key).Some? && name != "" && !LooksLikePath(name)
    ensures var v := Obj([Field(key, Arr([Str(name)]))]);
      Scrubbed(s, v) == (s, v) && HidesOriginal(v, None)
      && (NamesDiffer(s.seen) ==> !Renamed(v, v, None, s.seen))
  {
    CategoriesAreNoPaths(key);
    var list := Arr([Str(name)]);
    var v := Obj([Field(key, list)]);
    assert [] + [list.items[0]] == list.items;
    assert ScrubbedItems(s, list, 0) == (s, []);
    assert ScrubbedItems(s, list, 1) == (s, list.items);
    assert Scrubbed(s, list) == (s, list);
    assert [] + [Field(key, list)] == v.fields;
    assert ScrubbedFields(s, v, 0) == (s, []);
    assert ScrubbedFields(s, v, 1) == (s, v.fields);
    hide LooksLikePath, CategoryOf, IsPathKey, SiblingsOf, Synthesized, Tokenized;
    NothingToRebuild(s, SiblingsOf(v.fields), v.fields, 3);
    assert HidesOriginal(list.items[0], CategoryOf(key));
    assert HidesOriginal(list, CategoryOf(key));
    assert FieldHidesOriginal(v.fields[0], None);
    if NamesDiffer(s.seen) {
      assert HoldsOriginal(list.items[0], CategoryOf(key));
      assert HoldsOriginal(list, CategoryOf(key));
      assert FieldHoldsOriginal(v.fields[0], None);
      OriginalsChange(v, None, s.seen);
    }
  }

  lemma {:induction false} NothingToRebuild(s: Names, siblings: Siblings, fields: seq<Field>, k: nat)
    requires k <= |PATH_KEYS| && |fields| == 1 && !fields[0].value.Str?
    ensures RebuiltKeys(s, siblings, fields, k) == (s, fields)
  {
    hide Synthesized, Tokenized;
    if k > 0 {
      NothingToRebuild(s, siblings, fields, k - 1);
      assert RebuiltFields(s, siblings, fields, PATH_KEYS[k - 1], 0) == (s, []);
      assert [] + [Field(fields[0].key, fields[0].value)] == fields;
      assert RebuiltFields(s, siblings, fields, PATH_KEYS[k - 1], 1) == (s, fields);
    }
  }

  /** An artist given as a list of one, in the first frame of a bucket. */
  lemma ArtistListEscapes()
    ensures var v := Obj([Field("artist", Arr([Str("Gadiel")]))]);
      Scrubbed(NO_NAMES, v) == (NO_NAMES, v) && !Renamed(v, v, None, NO_NAMES.seen)
  {
    assert !Contains("Gadiel", "://") by {
      forall i | 0 <= i <= |"Gadiel"| ensures !("://" <= "Gadiel"[i..]) {
        assert i < 6 ==> "Gadiel"[i..][0] == "Gadiel"[i] != ':';
      }
    }
    ListOfNamesIsLeftAlone(NO_NAMES, "artist", "Gadiel");
  }
}
