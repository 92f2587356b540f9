/** Comparison results, and the stable sort: what a comparison has to satisfy for
    sorting to make sense, and how two stable sorts compose. */
module Sorting {

  datatype Cmp = Smaller | Equal | Larger {
    function Reverse(): Cmp {
      match this
      case Smaller => Larger
      case Equal => Equal
      case Larger => Smaller
    }

    /** This result, or `next` where this one cannot tell. */
    function Then(next: Cmp): Cmp {
      if Equal? then next else this
    }
  }

  /** Results that three things compared pairwise can have under some ranking. */
  predicate Coherent(xy: Cmp, yz: Cmp, xz: Cmp) {
    && (xy == Equal ==> xz == yz)
    && (yz == Equal ==> xz == xy)
    && (xy == yz ==> xz == xy)
  }

  lemma ThenIsCoherent(xy: Cmp, yz: Cmp, xz: Cmp, xy': Cmp, yz': Cmp, xz': Cmp)
    requires Coherent(xy, yz, xz) && Coherent(xy', yz', xz')
    ensures Coherent(xy.Then(xy'), yz.Then(yz'), xz.Then(xz'))
  {
  }

  /** Every two elements compare, oppositely each way, and never in a circle. */
  ghost predicate TotalPreorder<T(!new)>(c: (T, T) -> Cmp) {
    && (forall x, y :: c(y, x) == c(x, y).Reverse())
    && (forall x, y, z :: Coherent(c(x, y), c(y, z), c(x, z)))
  }

  /** `x` before the first element it does not follow. */
  function Insert<T>(x: T, s: seq<T>, c: (T, T) -> Cmp): seq<T> {
    if s == [] then [x]
    else if c(x, s[0]) != Larger then [x] + s
    else [s[0]] + Insert(x, s[1..], c)
  }

  function StableSort<T>(s: seq<T>, c: (T, T) -> Cmp): seq<T> {
    if s == [] then [] else Insert(s[0], StableSort(s[1..], c), c)
  }

  /** Every element stands in `r` to every later one. */
  ghost predicate Ranked<T>(s: seq<T>, r: (T, T) -> bool) {
    forall i, j :: 0 <= i < j < |s| ==> r(s[i], s[j])
  }

  /** By `c`, and by `r` where `c` cannot tell. */
  function Refine<T>(c: (T, T) -> Cmp, r: (T, T) -> bool): (T, T) -> bool {
    (x, y) => c(x, y) == Smaller || (c(x, y) == Equal && r(x, y))
  }

  lemma {:induction false} InsertKeepsElements<T>(x: T, s: seq<T>, c: (T, T) -> Cmp)
    ensures multiset(Insert(x, s, c)) == multiset(s) + multiset{x}
  {
    if s != [] && c(x, s[0]) == Larger {
      InsertKeepsElements(x, s[1..], c);
      assert s == [s[0]] + s[1..];
    }
  }

  lemma {:induction false} SortKeepsElements<T>(s: seq<T>, c: (T, T) -> Cmp)
    ensures multiset(StableSort(s, c)) == multiset(s)
    ensures |StableSort(s, c)| == |s|
  {
    if s != [] {
      SortKeepsElements(s[1..], c);
      InsertKeepsElements(s[0], StableSort(s[1..], c), c);
      assert s == [s[0]] + s[1..];
    }
    assert |multiset(StableSort(s, c))| == |multiset(s)|;
  }

  lemma RankedTail<T>(s: seq<T>, r: (T, T) -> bool)
    requires Ranked(s, r) && s != []
    ensures Ranked(s[1..], r)
    ensures forall y :: y in s[1..] ==> r(s[0], y)
  {
  }

  lemma RankedCons<T>(x: T, s: seq<T>, r: (T, T) -> bool)
    requires Ranked(s, r) && forall y :: y in s ==> r(x, y)
    ensures Ranked([x] + s, r)
  {
  }

  lemma {:induction false} InsertIsRanked<T(!new)>(x: T, s: seq<T>, c: (T, T) -> Cmp, r: (T, T) -> bool)
    requires TotalPreorder(c) && Ranked(s, Refine(c, r))
    requires forall y :: y in s ==> r(x, y)
    ensures Ranked(Insert(x, s, c), Refine(c, r))
  {
    if s == [] {
    } else {
      RankedTail(s, Refine(c, r));
      var rest := s[1..];
      if c(x, s[0]) != Larger {
        forall y | y in s ensures Refine(c, r)(x, y) {
          if y != s[0] {
            assert y in rest && Refine(c, r)(s[0], y);
            assert Coherent(c(x, s[0]), c(s[0], y), c(x, y));
          }
        }
        RankedCons(x, s, Refine(c, r));
      } else {
        InsertIsRanked(x, rest, c, r);
        InsertKeepsElements(x, rest, c);
        forall y | y in Insert(x, rest, c) ensures Refine(c, r)(s[0], y) {
          assert y in multiset(Insert(x, rest, c));
          if y !in rest {
            assert y == x && c(s[0], x) == c(x, s[0]).Reverse();
          }
        }
        RankedCons(s[0], Insert(x, rest, c), Refine(c, r));
      }
    }
  }

  /** Sorting what is already ranked by `r` ranks it by `c` and then by `r`: a
      stable sort refines the order it was given, and two of them compose. */
  lemma {:induction false} StableSortRefines<T(!new)>(s: seq<T>, c: (T, T) -> Cmp, r: (T, T) -> bool)
    requires TotalPreorder(c) && Ranked(s, r)
    ensures Ranked(StableSort(s, c), Refine(c, r))
  {
    if s != [] {
      RankedTail(s, r);
      var rest := StableSort(s[1..], c);
      StableSortRefines(s[1..], c, r);
      SortKeepsElements(s[1..], c);
      forall y | y in rest ensures r(s[0], y) {
        assert y in multiset(rest);
      }
      InsertIsRanked(s[0], rest, c, r);
    }
  }

  lemma FirstPrecedes<T>(s: seq<T>, r: (T, T) -> bool, i: nat)
    requires Ranked(s, r) && i < |s|
    ensures i == 0 || r(s[0], s[i])
  {
  }

  /** Where `r` never holds both ways, there is one way to rank a list: whatever
      stable sort the standard library uses, this is its result. */
  lemma {:induction false} RankedIsUnique<T(!new)>(a: seq<T>, b: seq<T>, r: (T, T) -> bool)
    requires multiset(a) == multiset(b) && Ranked(a, r) && Ranked(b, r)
    requires forall x, y :: r(x, y) ==> !r(y, x)
    ensures a == b
  {
    assert |multiset(a)| == |multiset(b)|;
    if a != [] {
      assert a[0] in multiset(b) && b[0] in multiset(a);
      var i :| 0 <= i < |b| && b[i] == a[0];
      var j :| 0 <= j < |a| && a[j] == b[0];
      FirstPrecedes(b, r, i);
      FirstPrecedes(a, r, j);
      assert a == [a[0]] + a[1..] && b == [b[0]] + b[1..];
      assert multiset(a[1..]) == multiset(a) - multiset{a[0]};
      assert multiset(b[1..]) == multiset(b) - multiset{b[0]};
      RankedTail(a, r);
      RankedTail(b, r);
      RankedIsUnique(a[1..], b[1..], r);
    }
  }

  /** In order under `c`, ties in any order. */
  ghost predicate InOrder<T>(s: seq<T>, c: (T, T) -> Cmp) {
    forall i, j :: 0 <= i < j < |s| ==> c(s[i], s[j]) != Larger
  }

  lemma SortIsInOrder<T(!new)>(s: seq<T>, c: (T, T) -> Cmp)
    requires TotalPreorder(c)
    ensures InOrder(StableSort(s, c), c)
  {
    var any := (x: T, y: T) => true;
    StableSortRefines(s, c, any);
    var out := StableSort(s, c);
    forall i, j | 0 <= i < j < |out| ensures c(out[i], out[j]) != Larger {
      assert Refine(c, any)(out[i], out[j]);
    }
  }
}
