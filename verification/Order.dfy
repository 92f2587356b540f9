/** Orders the store keeps its tables in, and reading a table in that order.

    A path table is read by path and the change log by (generation, path).
    `Less` compares strings by code point, which is how both the store and the
    language compare UTF-8 text. */
module Order {

  datatype Option<+T> = None | Some(value: T)

  predicate Less(a: string, b: string) {
    |b| > 0 && (|a| == 0 || a[0] < b[0] || (a[0] == b[0] && Less(a[1..], b[1..])))
  }

  lemma {:induction false} LessIrreflexive(a: string)
    ensures !Less(a, a)
  {
    if |a| > 0 {
      LessIrreflexive(a[1..]);
    }
  }

  lemma {:induction false} LessTotal(a: string, b: string)
    ensures a == b || Less(a, b) || Less(b, a)
  {
    if |a| > 0 && |b| > 0 && a[0] == b[0] {
      LessTotal(a[1..], b[1..]);
      assert a == [a[0]] + a[1..] && b == [b[0]] + b[1..];
    }
  }

  lemma {:induction false} LessTransitive(a: string, b: string, c: string)
    requires Less(a, b) && Less(b, c)
    ensures Less(a, c)
  {
    if |a| > 0 && a[0] == b[0] == c[0] {
      LessTransitive(a[1..], b[1..], c[1..]);
    }
  }

  /** Where the two first differ, or where the shorter ends. */
  ghost predicate FirstDifference(a: string, b: string, k: nat) {
    k <= |a| && k <= |b| && a[..k] == b[..k] && (k < |a| && k < |b| ==> a[k] != b[k])
  }

  /** The first difference decides, and an end comes before anything. */
  lemma {:induction false} LessAtFirstDifference(a: string, b: string, k: nat)
    requires FirstDifference(a, b, k)
    ensures Less(a, b) <==> k < |b| && (k == |a| || a[k] < b[k])
  {
    if k > 0 {
      assert a[0] == a[..k][0] == b[..k][0] == b[0];
      assert a[1..][..k - 1] == a[..k][1..] == b[..k][1..] == b[1..][..k - 1];
      LessAtFirstDifference(a[1..], b[1..], k - 1);
    }
  }

  lemma {:induction false} FirstDifferenceExists(a: string, b: string) returns (k: nat)
    ensures FirstDifference(a, b, k)
  {
    if a == "" || b == "" || a[0] != b[0] {
      return 0;
    }
    k := FirstDifferenceExists(a[1..], b[1..]);
    assert a == [a[0]] + a[1..] && b == [b[0]] + b[1..];
    assert a[..k + 1] == [a[0]] + a[1..][..k] && b[..k + 1] == [b[0]] + b[1..][..k];
    k := k + 1;
  }

  /** The order of strings is the lexicographic one, by code point. */
  lemma LessIsLexicographic(a: string, b: string)
    ensures Less(a, b) <==> exists k: nat :: FirstDifference(a, b, k) && k < |b| && (k == |a| || a[k] < b[k])
  {
    var k := FirstDifferenceExists(a, b);
    forall k: nat | FirstDifference(a, b, k) ensures Less(a, b) <==> k < |b| && (k == |a| || a[k] < b[k]) {
      LessAtFirstDifference(a, b, k);
    }
  }

  /** A row's key in the change log. */
  datatype Key = Key(generation: nat, path: string)

  predicate KeyLess(a: Key, b: Key) {
    a.generation < b.generation || (a.generation == b.generation && Less(a.path, b.path))
  }

  lemma KeyLessIrreflexive(a: Key)
    ensures !KeyLess(a, a)
  {
    LessIrreflexive(a.path);
  }

  lemma KeyLessTotal(a: Key, b: Key)
    ensures a == b || KeyLess(a, b) || KeyLess(b, a)
  {
    LessTotal(a.path, b.path);
  }

  lemma KeyLessTransitive(a: Key, b: Key, c: Key)
    requires KeyLess(a, b) && KeyLess(b, c)
    ensures KeyLess(a, c)
  {
    if a.generation == b.generation == c.generation {
      LessTransitive(a.path, b.path, c.path);
    }
  }

  lemma KeyLessAsymmetric(a: Key, b: Key)
    requires KeyLess(a, b)
    ensures !KeyLess(b, a) && a != b
  {
    KeyLessIrreflexive(a);
    if KeyLess(b, a) {
      KeyLessTransitive(a, b, a);
    }
  }

  ghost predicate Ascending(keys: seq<Key>) {
    forall i, j :: 0 <= i < j < |keys| ==> KeyLess(keys[i], keys[j])
  }

  ghost predicate IsLeast(m: Key, s: set<Key>) {
    m in s && forall k :: k in s && k != m ==> KeyLess(m, k)
  }

  lemma {:induction false} LeastExists(s: set<Key>)
    requires s != {}
    ensures exists m :: IsLeast(m, s)
    decreases |s|
  {
    var x :| x in s;
    if s - {x} == {} {
      assert s == {x};
      assert IsLeast(x, s);
    } else {
      LeastExists(s - {x});
      var m :| IsLeast(m, s - {x});
      KeyLessTotal(x, m);
      if KeyLess(m, x) {
        assert IsLeast(m, s);
      } else {
        forall k | k in s && k != x ensures KeyLess(x, k) {
          if k != m {
            KeyLessTransitive(x, m, k);
          }
        }
        assert IsLeast(x, s);
      }
    }
  }

  lemma LeastIsUnique(s: set<Key>)
    ensures forall a, b | a in s && b in s
              && (forall k :: k in s && k != a ==> KeyLess(a, k))
              && (forall k :: k in s && k != b ==> KeyLess(b, k)) :: a == b
  {
    forall a, b | a in s && b in s && (forall k :: k in s && k != a ==> KeyLess(a, k))
        && (forall k :: k in s && k != b ==> KeyLess(b, k))
      ensures a == b
    {
      if a != b {
        KeyLessAsymmetric(a, b);
      }
    }
  }

  function Least(s: set<Key>): (m: Key)
    requires s != {}
    ensures IsLeast(m, s)
  {
    LeastExists(s);
    LeastIsUnique(s);
    var m :| m in s && forall k :: k in s && k != m ==> KeyLess(m, k);
    m
  }

  /** The rows of a table whose keys are `s`, as an iterator over it yields them. */
  function Sorted(s: set<Key>): (r: seq<Key>)
    ensures Ascending(r)
    ensures forall k :: k in r <==> k in s
    ensures |r| == |s|
    decreases |s|
  {
    if s == {} then [] else
      var m := Least(s);
      [m] + Sorted(s - {m})
  }

  /** The order leaves one way to list a set. */
  lemma {:induction false} AscendingIsUnique(a: seq<Key>, b: seq<Key>)
    requires Ascending(a) && Ascending(b)
    requires forall k :: k in a <==> k in b
    ensures a == b
  {
    assert b != [] ==> b[0] in b;
    if a != [] {
      assert a[0] in b;
      assert b[0] in a;
      if a[0] != b[0] {
        KeyLessAsymmetric(a[0], b[0]);
      }
      KeyLessIrreflexive(a[0]);
      assert a == [a[0]] + a[1..] && b == [b[0]] + b[1..];
      assert a[0] !in a[1..] && b[0] !in b[1..];
      assert forall k :: k in a[1..] <==> k in a && k != a[0];
      assert forall k :: k in b[1..] <==> k in b && k != b[0];
      AscendingIsUnique(a[1..], b[1..]);
    }
  }

  ghost predicate AscendingPaths(paths: seq<string>) {
    forall i, j :: 0 <= i < j < |paths| ==> Less(paths[i], paths[j])
  }

  function Elements<T>(s: seq<T>): set<T> {
    set x | x in s
  }

  /** `s` with the element at `i` taken out. */
  function Without<T>(s: seq<T>, i: nat): seq<T>
    requires i < |s|
  {
    s[..i] + s[i + 1..]
  }

  lemma WithoutOne<T>(s: seq<T>, i: nat)
    requires i < |s|
    ensures multiset(Without(s, i)) == multiset(s) - multiset{s[i]}
    ensures multiset(s) == multiset(Without(s, i)) + multiset{s[i]}
  {
    var before, after := s[..i], s[i + 1..];
    assert multiset(s) == multiset(before) + multiset{s[i]} + multiset(after) by {
      assert s == before + [s[i]] + after;
      MultisetOfConcat(before + [s[i]], after);
      MultisetOfConcat(before, [s[i]]);
    }
    MultisetOfConcat(before, after);
  }

  lemma MultisetOfConcat<T>(a: seq<T>, b: seq<T>)
    ensures multiset(a + b) == multiset(a) + multiset(b)
  {
  }

  function AtGeneration0(paths: set<string>): set<Key> {
    set p | p in paths :: Key(0, p)
  }

  function PathsOf(keys: seq<Key>): (r: seq<string>)
    ensures |r| == |keys| && forall i :: 0 <= i < |r| ==> r[i] == keys[i].path
  {
    seq(|keys|, i requires 0 <= i < |keys| => keys[i].path)
  }

  /** A set of paths in path order: what sorting a list and dropping its
      repeats gives, and what iterating a path table gives. */
  function SortedPaths(paths: set<string>): (r: seq<string>)
    ensures AscendingPaths(r)
    ensures forall p :: p in r <==> p in paths
    ensures |r| == |paths|
  {
    var keys := Sorted(AtGeneration0(paths));
    var r := PathsOf(keys);
    assert forall p :: p in r <==> p in paths by {
      forall p ensures p in r <==> p in paths {
        if p in paths {
          assert Key(0, p) in keys;
          var i :| 0 <= i < |keys| && keys[i] == Key(0, p);
          assert r[i] == p;
        }
        if p in r {
          var i :| 0 <= i < |r| && r[i] == p;
          assert keys[i] in keys;
        }
      }
    }
    assert AscendingPaths(r) by {
      forall i, j | 0 <= i < j < |r| ensures Less(r[i], r[j]) {
        assert keys[i] in keys && keys[j] in keys;
        assert KeyLess(keys[i], keys[j]);
      }
    }
    assert |r| == |paths| by {
      AscendingPathsCount(r);
      assert Elements(r) == paths;
    }
    r
  }

  lemma {:induction false} AscendingPathsCount(r: seq<string>)
    requires AscendingPaths(r)
    ensures |Elements(r)| == |r|
  {
    if r != [] {
      var n := |r| - 1;
      AscendingPathsCount(r[..n]);
      assert r == r[..n] + [r[n]];
      if r[n] in r[..n] {
        var i :| 0 <= i < n && r[i] == r[n];
        LessIrreflexive(r[n]);
      }
      assert Elements(r) == Elements(r[..n]) + {r[n]};
    }
  }

  lemma AscendingPathsUnique(a: seq<string>, b: seq<string>)
    requires AscendingPaths(a) && AscendingPaths(b)
    requires Elements(a) == Elements(b)
    ensures a == b
  {
    var ka := seq(|a|, i requires 0 <= i < |a| => Key(0, a[i]));
    var kb := seq(|b|, i requires 0 <= i < |b| => Key(0, b[i]));
    forall k ensures k in ka <==> k in kb {
      assert k in ka <==> k.generation == 0 && k.path in Elements(a) by {
        if k.generation == 0 && k.path in a {
          var i :| 0 <= i < |a| && a[i] == k.path;
          assert ka[i] == k;
        }
      }
      assert k in kb <==> k.generation == 0 && k.path in Elements(b) by {
        if k.generation == 0 && k.path in b {
          var i :| 0 <= i < |b| && b[i] == k.path;
          assert kb[i] == k;
        }
      }
    }
    AscendingIsUnique(ka, kb);
    assert |a| == |b|;
    forall i | 0 <= i < |a| ensures a[i] == b[i] {
      assert ka[i] == kb[i];
    }
  }
}
