/** How a multi-value tag splits into its values, and how values are counted
    across tracks so that a count agrees with the filter of the same name. */
module MultiValue {
  import opened Order
  import opened Text

  const SEPARATORS: set<char> := {';', '\0'}

  /** A field split at its separators, blank pieces dropped. */
  function Values(raw: string): seq<string> {
    NonBlank(Split(raw, SEPARATORS))
  }

  /** The filter: a value equal to `value` ignoring case, or for the empty name
      no value at all. */
  predicate Holds(raw: string, value: string) {
    var v := Trim(value);
    if v == "" then Values(raw) == []
    else exists i :: 0 <= i < |Values(raw)| && EqualsIgnoringCase(Values(raw)[i], v)
  }

  /** A field's values one by one: what stands before a semicolon or a NUL is a
      value, trimmed, unless it is blank. */
  lemma ValuesAreBetweenSeparators(piece: string, c: char, rest: string)
    requires FreeOf(piece, {';', '\0'}) && (c == ';' || c == '\0')
    ensures Values(piece) == if Trim(piece) == "" then [] else [Trim(piece)]
    ensures Values(piece + [c] + rest) == Values(piece) + Values(rest)
  {
    hide Trim, Split;
    SplitFirst(piece, c, rest, SEPARATORS);
    SplitNothing(piece, SEPARATORS);
    var pieces := [piece] + Split(rest, SEPARATORS);
    assert NonBlank([]) == [];
    assert pieces[0] == piece && pieces[1..] == Split(rest, SEPARATORS) && [piece][1..] == [];
  }

  /** What a field counts under: its values, or the empty name when it has none. */
  function Counted(raw: string): (r: seq<string>)
    ensures r != []
  {
    if Values(raw) == [] then [""] else Values(raw)
  }

  function Folded(values: seq<string>): set<string> {
    set v | v in values :: Lower(v)
  }

  /** The first of `values` that folds to `key`. */
  function Spelling(values: seq<string>, key: string): string
    requires key in Folded(values)
  {
    if Lower(values[0]) == key then values[0]
    else
      assert values == [values[0]] + values[1..];
      Spelling(values[1..], key)
  }

  lemma {:induction false} SpellingFolds(values: seq<string>, key: string)
    requires key in Folded(values)
    ensures Spelling(values, key) in values && Lower(Spelling(values, key)) == key
  {
    if Lower(values[0]) != key {
      assert values == [values[0]] + values[1..];
      SpellingFolds(values[1..], key);
    }
  }

  /** A field spells a value the way it first does. */
  lemma {:induction false} SpellingIsTheFirst(values: seq<string>, key: string, i: nat)
    requires i < |values| && Lower(values[i]) == key && forall j :: 0 <= j < i ==> Lower(values[j]) != key
    ensures key in Folded(values) && Spelling(values, key) == values[i]
  {
    hide Lower;
    if i > 0 {
      SpellingIsTheFirst(values[1..], key, i - 1);
      assert values == [values[0]] + values[1..];
    }
    assert values[i] in values;
  }

  /** A later repeat of a value does not change how the field spells it. */
  lemma {:induction false} SpellingOfLonger(values: seq<string>, v: string, key: string)
    requires key in Folded(values)
    ensures key in Folded(values + [v]) && Spelling(values + [v], key) == Spelling(values, key)
  {
    assert (values + [v])[0] == values[0];
    assert forall x :: x in values ==> x in values + [v];
    if Lower(values[0]) != key {
      assert values == [values[0]] + values[1..];
      assert (values + [v])[1..] == values[1..] + [v];
      SpellingOfLonger(values[1..], v, key);
    }
  }

  lemma {:induction false} SpellingOfNew(values: seq<string>, v: string)
    requires Lower(v) !in Folded(values)
    ensures Lower(v) in Folded(values + [v]) && Spelling(values + [v], Lower(v)) == v
  {
    assert v in values + [v];
    if values != [] {
      assert values[0] in values;
      assert (values + [v])[0] == values[0];
      assert (values + [v])[1..] == values[1..] + [v];
      assert forall x :: x in values[1..] ==> x in values;
      SpellingOfNew(values[1..], v);
    }
  }

  // --------------------------------------------------------------- tallies

  /** How many fields a key counts, and how many spell it each way. */
  datatype Tally = Tally(fields: nat, spellings: map<string, nat>)

  type Tallies = map<string, Tally>

  function Bump(t: Tallies, key: string, spelling: string): Tally {
    var was := if key in t then t[key] else Tally(0, map[]);
    Tally(was.fields + 1, was.spellings[spelling := 1 + if spelling in was.spellings then was.spellings[spelling] else 0])
  }

  /** The tallies after a field's `values`: each folded value once, under its first spelling. */
  function AddValues(t: Tallies, values: seq<string>): Tallies {
    map k | k in t.Keys + Folded(values) :: if k in Folded(values) then Bump(t, k, Spelling(values, k)) else t[k]
  }

  function TallyAll(fields: seq<string>): Tallies {
    if fields == [] then map[]
    else AddValues(TallyAll(fields[..|fields| - 1]), Counted(fields[|fields| - 1]))
  }

  /** How many fields a filter on `name` admits. */
  function CountHolding(fields: seq<string>, name: string): nat {
    if fields == [] then 0
    else CountHolding(fields[..|fields| - 1], name) + if Holds(fields[|fields| - 1], name) then 1 else 0
  }

  predicate SpelledSo(raw: string, name: string) {
    Lower(name) in Folded(Counted(raw)) && Spelling(Counted(raw), Lower(name)) == name
  }

  /** How many fields spell the value of that name exactly so. */
  function CountSpelled(fields: seq<string>, name: string): nat {
    if fields == [] then 0
    else CountSpelled(fields[..|fields| - 1], name) + if SpelledSo(fields[|fields| - 1], name) then 1 else 0
  }

  /** A filter by a trimmed name admits exactly the fields that count under it. */
  lemma HoldsIsCounted(raw: string, name: string)
    requires Trimmed(name)
    ensures Holds(raw, name) <==> Lower(name) in Folded(Counted(raw))
  {
    TrimOfTrimmed(name);
    NonBlankAreTrimmed(Split(raw, SEPARATORS));
    if Values(raw) == [] {
      assert Counted(raw) == [""];
      assert Lower(name) in Folded([""]) <==> Lower(name) == Lower("");
    } else {
      forall v | v in Values(raw) ensures Lower(v) != "" {
      }
    }
  }

  /** What the tallies count: the fields a filter would admit, and their spellings. */
  lemma {:induction false} TallyCounts(fields: seq<string>, name: string)
    requires Trimmed(name)
    ensures var t := TallyAll(fields);
      && (Lower(name) in t <==> CountHolding(fields, name) > 0)
      && (Lower(name) in t ==> t[Lower(name)].fields == CountHolding(fields, name))
      && (CountSpelled(fields, name) > 0 <==> Lower(name) in t && name in t[Lower(name)].spellings)
      && (CountSpelled(fields, name) > 0 ==> t[Lower(name)].spellings[name] == CountSpelled(fields, name))
  {
    if fields != [] {
      var n := |fields| - 1;
      TallyCounts(fields[..n], name);
      HoldsIsCounted(fields[n], name);
    }
  }

  /** Every spelling tallied is a trimmed value that folds to its key. */
  ghost predicate TallyFolds(key: string, t: Tally) {
    t.spellings != map[] && forall v :: v in t.spellings ==> Lower(v) == key && Trimmed(v)
  }

  lemma BumpFolds(t: Tallies, key: string, spelling: string)
    requires key in t ==> TallyFolds(key, t[key])
    requires Lower(spelling) == key && Trimmed(spelling)
    ensures TallyFolds(key, Bump(t, key, spelling))
  {
    hide Lower;
    assert spelling in Bump(t, key, spelling).spellings;
  }

  lemma {:induction false} TalliesFold(fields: seq<string>)
    ensures forall k :: k in TallyAll(fields) ==> TallyFolds(k, TallyAll(fields)[k])
  {
    hide Lower, Bump, TallyFolds, Counted, Spelling;
    if fields != [] {
      var n := |fields| - 1;
      var t, values := TallyAll(fields[..n]), Counted(fields[n]);
      TalliesFold(fields[..n]);
      CountedAreTrimmed(fields[n]);
      forall k | k in AddValues(t, values) ensures TallyFolds(k, AddValues(t, values)[k]) {
        if k in Folded(values) {
          SpellingFolds(values, k);
          BumpFolds(t, k, Spelling(values, k));
        }
      }
    }
  }

  lemma CountedAreTrimmed(raw: string)
    ensures forall v :: v in Counted(raw) ==> Trimmed(v)
  {
    NonBlankAreTrimmed(Split(raw, SEPARATORS));
  }

  lemma {:induction false} TalliesCover(fields: seq<string>, i: nat, v: string)
    requires i < |fields| && v in Counted(fields[i])
    ensures Lower(v) in TallyAll(fields)
  {
    hide Lower, Bump, Counted, Spelling;
    var n := |fields| - 1;
    assert TallyAll(fields).Keys == TallyAll(fields[..n]).Keys + Folded(Counted(fields[n]));
    hide TallyAll;
    if i < n {
      assert fields[..n][i] == fields[i];
      TalliesCover(fields[..n], i, v);
    }
  }

  // ------------------------------------------------------------- the loops

  ghost predicate IsBest(spellings: map<string, nat>, best: string) {
    best in spellings && forall v :: v in spellings && v != best ==>
      spellings[v] < spellings[best] || (spellings[v] == spellings[best] && Less(best, v))
  }

  /** The spelling most fields use, the first in order when several tie,
      whatever order the table is walked in. */
  method BestSpelling(spellings: map<string, nat>) returns (best: string)
    requires spellings != map[]
    ensures IsBest(spellings, best)
  {
    var rest := spellings.Keys;
    best :| best in rest;
    rest := rest - {best};
    while rest != {}
      invariant best in spellings && best !in rest && rest <= spellings.Keys
      invariant forall v :: v in spellings && v != best && v !in rest ==>
        spellings[v] < spellings[best] || (spellings[v] == spellings[best] && Less(best, v))
      decreases |rest|
    {
      var v :| v in rest;
      rest := rest - {v};
      LessTotal(best, v);
      if spellings[v] > spellings[best] || (spellings[v] == spellings[best] && Less(v, best)) {
        forall other | other in spellings && other != v && other !in rest
          ensures spellings[other] < spellings[v] || (spellings[other] == spellings[v] && Less(v, other))
        {
          if other != best && spellings[other] == spellings[v] {
            LessTransitive(v, best, other);
          }
        }
        best := v;
      }
    }
  }

  /** One field: a value it names twice counts once. */
  method AddField(t: Tallies, raw: string) returns (r: Tallies)
    ensures r == AddValues(t, Counted(raw))
  {
    var values := Counted(raw);
    var seen: set<string> := {};
    r := t;
    AddNothing(t);
    for i := 0 to |values|
      invariant seen == Folded(values[..i])
      invariant r == AddValues(t, values[..i])
    {
      var key := Lower(values[i]);
      assert values[..i + 1] == values[..i] + [values[i]];
      AddOne(t, values[..i], values[i]);
      if key !in seen {
        r := r[key := Bump(r, key, values[i])];
        seen := seen + {key};
      }
    }
    assert values[..|values|] == values;
  }

  lemma AddNothing(t: Tallies)
    ensures AddValues(t, []) == t
  {
  }

  lemma FoldedGrows(values: seq<string>, v: string)
    ensures Folded(values + [v]) == Folded(values) + {Lower(v)}
  {
    hide Lower;
    assert forall x :: x in values + [v] <==> x in values || x == v;
  }

  lemma AddOne(t: Tallies, values: seq<string>, v: string)
    ensures Folded(values + [v]) == Folded(values) + {Lower(v)}
    ensures AddValues(t, values + [v]) ==
      if Lower(v) in Folded(values) then AddValues(t, values)
      else AddValues(t, values)[Lower(v) := Bump(AddValues(t, values), Lower(v), v)]
  {
    hide AddValues, Bump, Lower;
    FoldedGrows(values, v);
    forall k | k in Folded(values) ensures Spelling(values + [v], k) == Spelling(values, k) {
      SpellingOfLonger(values, v, k);
    }
    if Lower(v) !in Folded(values) {
      SpellingOfNew(values, v);
    }
    hide Folded, Spelling;
    AddOneFrom(t, values, values + [v], v);
  }

  lemma AddOneFrom(t: Tallies, values: seq<string>, longer: seq<string>, v: string)
    requires Folded(longer) == Folded(values) + {Lower(v)}
    requires forall k :: k in Folded(values) ==> Spelling(longer, k) == Spelling(values, k)
    requires Lower(v) !in Folded(values) ==> Spelling(longer, Lower(v)) == v
    ensures AddValues(t, longer) ==
      if Lower(v) in Folded(values) then AddValues(t, values)
      else AddValues(t, values)[Lower(v) := Bump(AddValues(t, values), Lower(v), v)]
  {
    hide Lower, Spelling, Folded;
    if Lower(v) !in Folded(values) {
      assert Bump(AddValues(t, values), Lower(v), v) == Bump(t, Lower(v), v);
    }
    hide Bump;
  }

  ghost predicate NamesAscend(out: seq<(string, nat)>) {
    forall i, j :: 0 <= i < j < |out| ==> Less(Lower(out[i].0), Lower(out[j].0))
  }

  /** The entry counts exactly the fields a filter on its name admits, and no
      other spelling of the name is used by as many fields and comes first. */
  ghost predicate CountsItsFilter(fields: seq<string>, entry: (string, nat)) {
    && Trimmed(entry.0)
    && entry.1 == CountHolding(fields, entry.0) >= 1
    && forall v :: EqualsIgnoringCase(v, entry.0) && Trimmed(v) && v != entry.0 ==>
         CountSpelled(fields, v) < CountSpelled(fields, entry.0)
         || (CountSpelled(fields, v) == CountSpelled(fields, entry.0) && Less(entry.0, v))
  }

  /** Every value of every field has an entry, ignoring case. */
  ghost predicate Covers(fields: seq<string>, out: seq<(string, nat)>) {
    forall i, v :: 0 <= i < |fields| && v in Counted(fields[i]) ==>
      exists j :: 0 <= j < |out| && EqualsIgnoringCase(out[j].0, v)
  }

  /** One entry per folded value: its best spelling and the number of fields the
      filter on it admits. */
  method Counts(fields: seq<string>) returns (out: seq<(string, nat)>)
    ensures NamesAscend(out)
    ensures Covers(fields, out)
    ensures forall i :: 0 <= i < |out| ==> CountsItsFilter(fields, out[i])
  {
    var tallies: Tallies := map[];
    for i := 0 to |fields|
      invariant tallies == TallyAll(fields[..i])
    {
      assert fields[..i + 1][..i] == fields[..i];
      tallies := AddField(tallies, fields[i]);
    }
    assert fields[..|fields|] == fields;
    out := NameAll(fields, tallies);
  }

  /** One entry per key, in key order. */
  method NameAll(ghost fields: seq<string>, tallies: Tallies) returns (out: seq<(string, nat)>)
    requires tallies == TallyAll(fields)
    ensures NamesAscend(out)
    ensures Covers(fields, out)
    ensures forall i :: 0 <= i < |out| ==> CountsItsFilter(fields, out[i])
  {
    hide *;
    EachIsSpelled(fields);
    var keys := SortedPaths(tallies.Keys);
    out := [];
    for i := 0 to |keys|
      invariant |out| == i
      invariant forall j :: 0 <= j < i ==> CountsItsFilter(fields, out[j]) && Lower(out[j].0) == keys[j]
    {
      assert keys[i] in keys;
      var name := BestSpelling(tallies[keys[i]].spellings);
      NameIsBest(fields, keys[i], name);
      out := out + [(name, tallies[keys[i]].fields)];
    }
    NamesFollowKeys(keys, out);
    KeysCover(fields, keys, out);
  }

  lemma EachIsSpelled(fields: seq<string>)
    ensures forall k :: k in TallyAll(fields) ==> TallyAll(fields)[k].spellings != map[]
  {
    hide TallyAll;
    TalliesFold(fields);
  }

  lemma NameIsBest(fields: seq<string>, key: string, name: string)
    requires key in TallyAll(fields) && IsBest(TallyAll(fields)[key].spellings, name)
    ensures CountsItsFilter(fields, (name, TallyAll(fields)[key].fields)) && Lower(name) == key
  {
    TalliesFold(fields);
    TallyCounts(fields, name);
    forall v | EqualsIgnoringCase(v, name) && Trimmed(v) && v != name
      ensures CountSpelled(fields, v) < CountSpelled(fields, name)
              || (CountSpelled(fields, v) == CountSpelled(fields, name) && Less(name, v))
    {
      TallyCounts(fields, v);
    }
  }

  lemma NamesFollowKeys(keys: seq<string>, out: seq<(string, nat)>)
    requires AscendingPaths(keys) && |out| == |keys|
    requires forall j :: 0 <= j < |out| ==> Lower(out[j].0) == keys[j]
    ensures NamesAscend(out)
  {
    hide Less, Lower;
  }

  lemma KeysCover(fields: seq<string>, keys: seq<string>, out: seq<(string, nat)>)
    requires |out| == |keys| && forall k :: k in TallyAll(fields) ==> k in keys
    requires forall j :: 0 <= j < |out| ==> Lower(out[j].0) == keys[j]
    ensures Covers(fields, out)
  {
    hide Lower, TallyAll;
    forall i, v | 0 <= i < |fields| && v in Counted(fields[i])
      ensures exists j :: 0 <= j < |out| && EqualsIgnoringCase(out[j].0, v)
    {
      TalliesCover(fields, i, v);
      var j :| 0 <= j < |keys| && keys[j] == Lower(v);
      assert EqualsIgnoringCase(out[j].0, v);
    }
  }
}
