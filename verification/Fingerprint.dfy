/** The fingerprint of a library's albums: which changes it is sure to notice,
    and which it can miss. */
module Fingerprint {
  import opened Order


  const WORD := 0x1_0000_0000_0000_0000

  /** A 64-bit word; sums and products of words wrap. */
  type Word = x: nat | x < WORD
  type Byte = x: nat | x < 256

  /** An album's key as bytes and its stamp as the 64 bits it is stored in. */
  datatype Album = Album(key: seq<Byte>, modified: Word)

  const FNV_OFFSET: Word := 0xcbf2_9ce4_8422_2325
  const FNV_PRIME: Word := 0x0000_0100_0000_01b3
  const COUNT_MIX: Word := 0x9E37_79B9_7F4A_7C15

  function Pow2(n: nat): nat {
    if n == 0 then 1 else 2 * Pow2(n - 1)
  }

  /** The lowest `n` bits of the exclusive or. */
  function XorBits(a: nat, b: nat, n: nat): (r: nat)
    ensures r < Pow2(n)
  {
    if n == 0 then 0 else (a + b) % 2 + 2 * XorBits(a / 2, b / 2, n - 1)
  }

  lemma {:induction false} Pow2Doubles(m: nat, n: nat)
    ensures Pow2(m + n) == Pow2(m) * Pow2(n)
  {
    if m > 0 {
      Pow2Doubles(m - 1, n);
      assert Pow2(m + n) == 2 * Pow2(m - 1 + n);
      assert 2 * (Pow2(m - 1) * Pow2(n)) == 2 * Pow2(m - 1) * Pow2(n);
    }
  }

  lemma WordIs64Bits()
    ensures Pow2(64) == WORD
  {
    assert Pow2(4) == 16;
    Pow2Doubles(4, 4);
    Pow2Doubles(8, 8);
    Pow2Doubles(16, 16);
    Pow2Doubles(32, 32);
  }

  function Xor(a: Word, b: Word): Word {
    WordIs64Bits();
    XorBits(a, b, 64)
  }

  function Add(a: Word, b: Word): Word {
    (a + b) % WORD
  }

  function Mul(a: Word, b: Word): Word {
    (a * b) % WORD
  }

  lemma LowBit(h: nat, x: nat, rest: nat)
    ensures ((h + x) % 2 + 2 * rest) / 2 == rest
    ensures (h + ((h + x) % 2 + 2 * rest)) % 2 == x % 2
  {
    var b := (h + x) % 2;
    assert (b + 2 * rest) % 2 == b && (b + 2 * rest) / 2 == rest;
    assert (h + b) % 2 == x % 2;
    assert (h + b + 2 * rest) % 2 == (h + b) % 2;
  }

  lemma {:induction false} XorBitsTwice(h: nat, x: nat, n: nat)
    requires x < Pow2(n)
    ensures XorBits(h, XorBits(h, x, n), n) == x
  {
    if n > 0 {
      var rest := XorBits(h / 2, x / 2, n - 1);
      var r := XorBits(h, x, n);
      assert r == (h + x) % 2 + 2 * rest;
      assert XorBits(h, r, n) == (h + r) % 2 + 2 * XorBits(h / 2, r / 2, n - 1);
      assert Pow2(n) == 2 * Pow2(n - 1);
      hide XorBits, Pow2;
      XorBitsTwice(h / 2, x / 2, n - 1);
      LowBit(h, x, rest);
    }
  }

  lemma {:induction false} XorBitsCommute(a: nat, b: nat, n: nat)
    ensures XorBits(a, b, n) == XorBits(b, a, n)
  {
    if n > 0 {
      XorBitsCommute(a / 2, b / 2, n - 1);
    }
  }

  lemma XorTwice(h: Word, x: Word)
    ensures Xor(h, Xor(h, x)) == x
  {
    WordIs64Bits();
    XorBitsTwice(h, x, 64);
  }

  function FnvFrom(bytes: seq<Byte>, hash: Word): Word {
    if bytes == [] then hash else FnvFrom(bytes[1..], Mul(Xor(hash, bytes[0]), FNV_PRIME))
  }

  /** 64-bit FNV-1a. */
  method Fnv1a64(bytes: seq<Byte>) returns (hash: Word)
    ensures hash == FnvFrom(bytes, FNV_OFFSET)
  {
    hide Xor, Mul;
    hash := FNV_OFFSET;
    for i := 0 to |bytes|
      invariant FnvFrom(bytes[i..], hash) == FnvFrom(bytes, FNV_OFFSET)
    {
      assert bytes[i..][1..] == bytes[i + 1..];
      hash := Xor(hash, bytes[i]);
      hash := Mul(hash, FNV_PRIME);
    }
  }

  function Term(a: Album): Word {
    Xor(FnvFrom(a.key, FNV_OFFSET), a.modified)
  }

  /** The sum of the albums' terms, wrapping. */
  function Sum(albums: seq<Album>): Word {
    if albums == [] then 0 else Add(Sum(albums[..|albums| - 1]), Term(albums[|albums| - 1]))
  }

  function Count(n: nat): Word {
    if n == 0 then 0 else Add(Count(n - 1), 1)
  }

  function Fingerprint(albums: seq<Album>): Word {
    Xor(Sum(albums), Mul(Count(|albums|), COUNT_MIX))
  }

  method ComputeFingerprint(albums: seq<Album>) returns (fingerprint: Word)
    ensures fingerprint == Fingerprint(albums)
  {
    hide FnvFrom, Xor, Add, Mul;
    var acc: Word := 0;
    var count: Word := 0;
    for i := 0 to |albums|
      invariant acc == Sum(albums[..i]) && count == Count(i)
    {
      assert albums[..i + 1][..i] == albums[..i];
      var hash := Fnv1a64(albums[i].key);
      acc := Add(acc, Xor(hash, albums[i].modified));
      count := Add(count, 1);
    }
    assert albums[..|albums|] == albums;
    fingerprint := Xor(acc, Mul(count, COUNT_MIX));
  }

  lemma AddAssociates(a: Word, b: Word, c: Word)
    ensures Add(Add(a, b), c) == Add(Add(a, c), b)
  {
    hide Add;
    AddWraps(a, b);
    AddWraps(a, c);
    AddWraps(Add(a, b), c);
    AddWraps(Add(a, c), b);
  }

  lemma AddWraps(a: Word, b: Word)
    ensures Add(a, b) == if a + b < WORD then a + b else a + b - WORD
  {
  }

  /** Any one album's term can be taken out of the sum. */
  lemma {:induction false} SumWithout(albums: seq<Album>, i: nat)
    requires i < |albums|
    ensures Sum(albums) == Add(Sum(Without(albums, i)), Term(albums[i]))
  {
    hide Term, Add;
    var n := |albums| - 1;
    if i == n {
      assert Without(albums, i) == albums[..n];
    } else {
      SumWithout(albums[..n], i);
      var rest := Without(albums, i);
      assert rest[..n - 1] == Without(albums[..n], i) && rest[n - 1] == albums[n];
      AddAssociates(Sum(Without(albums[..n], i)), Term(albums[i]), Term(albums[n]));
    }
  }

  /** The order albums are listed in does not matter. */
  lemma {:induction false} OrderDoesNotMatter(a: seq<Album>, b: seq<Album>)
    requires multiset(a) == multiset(b)
    ensures Sum(a) == Sum(b) && Fingerprint(a) == Fingerprint(b)
    decreases |a|
  {
    hide Term, Count, Add, Xor, Mul;
    assert |multiset(a)| == |multiset(b)|;
    if a != [] {
      var n := |a| - 1;
      assert a[n] in multiset(b);
      var i :| 0 <= i < |b| && b[i] == a[n];
      WithoutOne(a, n);
      WithoutOne(b, i);
      assert Without(a, n) == a[..n];
      OrderDoesNotMatter(a[..n], Without(b, i));
      SumWithout(b, i);
    }
  }

  lemma XorIsInjective(h: Word, m: Word, m': Word)
    requires m != m'
    ensures Xor(h, m) != Xor(h, m')
  {
    hide Xor;
    XorTwice(h, m);
    XorTwice(h, m');
  }

  lemma AddIsInjective(s: Word, x: Word, y: Word)
    requires x != y
    ensures Add(s, x) != Add(s, y)
  {
    hide Add;
    AddWraps(s, x);
    AddWraps(s, y);
  }

  lemma CountMixed(x: Word, y: Word, mix: Word)
    requires x != y
    ensures Xor(x, mix) != Xor(y, mix)
  {
    hide XorBits;
    XorBitsCommute(x, mix, 64);
    XorBitsCommute(y, mix, 64);
    XorIsInjective(mix, x, y);
  }

  /** Two listings of as many albums have one fingerprint exactly when their terms
      have one sum: the count mixed in tells apart only listings of different sizes. */
  lemma SameCountIsMissedIff(a: seq<Album>, b: seq<Album>)
    requires |a| == |b|
    ensures Fingerprint(a) == Fingerprint(b) <==> Sum(a) == Sum(b)
  {
    hide Count, Sum, Xor, Mul;
    if Sum(a) != Sum(b) {
      CountMixed(Sum(a), Sum(b), Mul(Count(|a|), COUNT_MIX));
    }
  }

  /** An album gone and another come in its place is missed exactly when the two have one term. */
  lemma ReplacementIsMissedIff(albums: seq<Album>, i: nat, x: Album)
    requires i < |albums|
    ensures Fingerprint(albums[i := x]) == Fingerprint(albums) <==> Term(x) == Term(albums[i])
  {
    hide Count, Term, Xor, Add, Mul;
    var replaced := albums[i := x];
    SameCountIsMissedIff(replaced, albums);
    SumWithout(albums, i);
    SumWithout(replaced, i);
    assert Without(replaced, i) == Without(albums, i);
    if Term(x) != Term(albums[i]) {
      AddIsInjective(Sum(Without(albums, i)), Term(x), Term(albums[i]));
    }
  }

  /** For any album gone there is, under every key, one that can come unnoticed. */
  lemma SomeReplacementIsMissed(albums: seq<Album>, i: nat, key: seq<Byte>)
    requires i < |albums|
    ensures var x := Album(key, Xor(FnvFrom(key, FNV_OFFSET), Term(albums[i])));
      Fingerprint(albums[i := x]) == Fingerprint(albums)
  {
    hide FnvFrom, Xor, Fingerprint;
    var x := Album(key, Xor(FnvFrom(key, FNV_OFFSET), Term(albums[i])));
    XorTwice(FnvFrom(key, FNV_OFFSET), Term(albums[i]));
    ReplacementIsMissedIff(albums, i, x);
  }

  /** One album's stamp moving is always noticed. */
  lemma OneMovedStampIsNoticed(albums: seq<Album>, i: nat, modified: Word)
    requires i < |albums| && modified != albums[i].modified
    ensures Fingerprint(albums[i := Album(albums[i].key, modified)]) != Fingerprint(albums)
  {
    hide FnvFrom, Xor, Fingerprint;
    XorIsInjective(FnvFrom(albums[i].key, FNV_OFFSET), albums[i].modified, modified);
    ReplacementIsMissedIff(albums, i, Album(albums[i].key, modified));
  }

  /** Two albums changing at once, stamps or keys, are missed exactly when their terms sum to the same. */
  lemma TwoChangesAreMissedIff(albums: seq<Album>, i: nat, j: nat, x: Album, y: Album)
    requires i < j < |albums|
    ensures Fingerprint(albums[i := x][j := y]) == Fingerprint(albums) <==>
      Add(Term(x), Term(y)) == Add(Term(albums[i]), Term(albums[j]))
  {
    hide Count, Term, Xor, Add, Mul;
    var changed := albums[i := x][j := y];
    SameCountIsMissedIff(changed, albums);
    SumWithoutTwo(albums, i, j);
    SumWithoutTwo(changed, i, j);
    assert Without(Without(changed, j), i) == Without(Without(albums, j), i);
    hide Without, Sum;
    var rest := Sum(Without(Without(albums, j), i));
    if Add(Term(x), Term(y)) != Add(Term(albums[i]), Term(albums[j])) {
      AddIsInjective(rest, Add(Term(x), Term(y)), Add(Term(albums[i]), Term(albums[j])));
    }
  }

  lemma SumWithoutTwo(albums: seq<Album>, i: nat, j: nat)
    requires i < j < |albums|
    ensures Sum(albums) == Add(Sum(Without(Without(albums, j), i)), Add(Term(albums[i]), Term(albums[j])))
  {
    hide Term, Add;
    SumWithout(albums, j);
    SumWithout(Without(albums, j), i);
    assert Without(albums, j)[i] == albums[i];
    hide Without, Sum;
    AddGroups(Sum(Without(Without(albums, j), i)), Term(albums[i]), Term(albums[j]));
  }

  lemma AddGroups(a: Word, b: Word, c: Word)
    ensures Add(Add(a, b), c) == Add(a, Add(b, c))
  {
    hide Add;
    AddWraps(a, b);
    AddWraps(b, c);
    AddWraps(Add(a, b), c);
    AddWraps(a, Add(b, c));
  }

  /** The stamp that gives one album the term another has now. */
  function Impersonating(a: Album, b: Album): Album {
    Album(a.key, Xor(FnvFrom(a.key, FNV_OFFSET), Term(b)))
  }

  /** Two stamps moving at once can be missed: for any two albums whose terms
      differ there are new stamps, both different, that cancel out. */
  lemma TwoMovedStampsCanBeMissed(albums: seq<Album>, i: nat, j: nat)
    requires i < j < |albums| && Term(albums[i]) != Term(albums[j])
    ensures var moved := albums[i := Impersonating(albums[i], albums[j])][j := Impersonating(albums[j], albums[i])];
      && moved[i].key == albums[i].key && moved[i].modified != albums[i].modified
      && moved[j].key == albums[j].key && moved[j].modified != albums[j].modified
      && Fingerprint(moved) == Fingerprint(albums)
  {
    hide Fingerprint, Term, Add;
    TermOfImpersonating(albums[i], albums[j]);
    TermOfImpersonating(albums[j], albums[i]);
    TwoChangesAreMissedIff(albums, i, j, Impersonating(albums[i], albums[j]), Impersonating(albums[j], albums[i]));
    AddCommutes(Term(albums[i]), Term(albums[j]));
  }

  lemma AddCommutes(a: Word, b: Word)
    ensures Add(a, b) == Add(b, a)
  {
  }

  lemma TermOfImpersonating(a: Album, b: Album)
    ensures Term(Impersonating(a, b)) == Term(b)
    ensures Term(a) != Term(b) ==> Impersonating(a, b).modified != a.modified
  {
    hide FnvFrom, Xor;
    XorTwice(FnvFrom(a.key, FNV_OFFSET), Term(b));
  }

  // ------------------------------------------------- what the hash and the count tell

  /** An odd factor can be undone. */
  lemma MulUndone(x: Word, factor: Word, inverse: Word, wraps: nat)
    requires factor * inverse == wraps * WORD + 1
    ensures Mul(Mul(x, factor), inverse) == x
  {
    var q := x * factor / WORD;
    assert x * factor == q * WORD + Mul(x, factor);
    assert Mul(x, factor) * inverse == x * (factor * inverse) - q * WORD * inverse by {
      assert Mul(x, factor) * inverse == (x * factor - q * WORD) * inverse;
      assert x * factor * inverse == x * (factor * inverse);
    }
    assert x * (factor * inverse) == x * wraps * WORD + x;
    assert Mul(x, factor) * inverse == (x * wraps - q * inverse) * WORD + x;
    RemainderIs(Mul(x, factor) * inverse, x * wraps - q * inverse, x);
  }

  lemma RemainderIs(n: nat, q: int, r: Word)
    requires n == q * WORD + r
    ensures n % WORD == r
  {
  }

  lemma PrimeIsOdd(x: Word, y: Word)
    requires x != y
    ensures Mul(x, FNV_PRIME) != Mul(y, FNV_PRIME)
  {
    hide Mul;
    MulUndone(x, FNV_PRIME, 0xce96_5057_aff6_957b, 887285111055);
    MulUndone(y, FNV_PRIME, 0xce96_5057_aff6_957b, 887285111055);
  }

  lemma MixIsOdd(x: Word, y: Word)
    requires x != y
    ensures Mul(x, COUNT_MIX) != Mul(y, COUNT_MIX)
  {
    hide Mul;
    MulUndone(x, COUNT_MIX, 0xf1de_83e1_9937_733d, 10771413168148108919);
    MulUndone(y, COUNT_MIX, 0xf1de_83e1_9937_733d, 10771413168148108919);
  }

  /** From different hashes the same bytes lead to different hashes. */
  lemma {:induction false} DifferentHashesStayDifferent(bytes: seq<Byte>, g: Word, h: Word)
    requires g != h
    ensures FnvFrom(bytes, g) != FnvFrom(bytes, h)
  {
    hide Xor, Mul;
    if bytes != [] {
      CountMixed(g, h, bytes[0]);
      PrimeIsOdd(Xor(g, bytes[0]), Xor(h, bytes[0]));
      DifferentHashesStayDifferent(bytes[1..], Mul(Xor(g, bytes[0]), FNV_PRIME), Mul(Xor(h, bytes[0]), FNV_PRIME));
    }
  }

  /** One byte of a key changing always changes its hash. */
  lemma {:induction false} OneChangedByteIsNoticed(key: seq<Byte>, i: nat, b: Byte, hash: Word)
    requires i < |key| && b != key[i]
    ensures FnvFrom(key[i := b], hash) != FnvFrom(key, hash)
  {
    hide Xor, Mul;
    var changed := key[i := b];
    if i == 0 {
      assert changed[1..] == key[1..];
      XorIsInjective(hash, key[0], b);
      PrimeIsOdd(Xor(hash, key[0]), Xor(hash, b));
      DifferentHashesStayDifferent(key[1..], Mul(Xor(hash, key[0]), FNV_PRIME), Mul(Xor(hash, b), FNV_PRIME));
    } else {
      assert changed[1..] == key[1..][i - 1 := b];
      OneChangedByteIsNoticed(key[1..], i - 1, b, Mul(Xor(hash, key[0]), FNV_PRIME));
    }
  }

  /** So an album whose key changes in one byte is always noticed. */
  lemma OneRenamedAlbumIsNoticed(albums: seq<Album>, i: nat, k: nat, b: Byte)
    requires i < |albums| && k < |albums[i].key| && b != albums[i].key[k]
    ensures Fingerprint(albums[i := Album(albums[i].key[k := b], albums[i].modified)]) != Fingerprint(albums)
  {
    hide FnvFrom, Xor, Fingerprint;
    var renamed := Album(albums[i].key[k := b], albums[i].modified);
    OneChangedByteIsNoticed(albums[i].key, k, b, FNV_OFFSET);
    CountMixed(FnvFrom(albums[i].key, FNV_OFFSET), FnvFrom(renamed.key, FNV_OFFSET), albums[i].modified);
    ReplacementIsMissedIff(albums, i, renamed);
  }

  lemma {:induction false} CountIs(n: nat)
    ensures Count(n) == n % WORD
  {
    if n > 0 {
      CountIs(n - 1);
      CountSteps(n - 1);
    }
  }

  lemma CountSteps(n: nat)
    ensures (n % WORD + 1) % WORD == (n + 1) % WORD
  {
  }

  lemma CountIsTheSize(n: nat)
    requires n < WORD
    ensures Count(n) == n
  {
    CountIs(n);
    hide Count;
  }

  /** Where the sums are equal, the count tells listings of different sizes apart. */
  lemma SizeAloneIsNoticed(a: seq<Album>, b: seq<Album>)
    requires Sum(a) == Sum(b) && |a| < WORD && |b| < WORD
    ensures Fingerprint(a) == Fingerprint(b) <==> |a| == |b|
  {
    hide Sum, Xor, Mul;
    CountIsTheSize(|a|);
    CountIsTheSize(|b|);
    hide Count;
    if |a| != |b| {
      MixIsOdd(|a|, |b|);
      XorIsInjective(Sum(a), Mul(|a|, COUNT_MIX), Mul(|b|, COUNT_MIX));
    }
  }

  /** The exclusive or of a word with nothing is the word, with itself nothing. */
  lemma {:induction false} XorBitsOfSame(a: nat, n: nat)
    ensures XorBits(a, a, n) == 0
    ensures a < Pow2(n) ==> XorBits(a, 0, n) == a
  {
    if n > 0 {
      XorBitsOfSame(a / 2, n - 1);
    }
  }

  lemma XorOfSame(a: Word)
    ensures Xor(a, a) == 0 && Xor(a, 0) == a
  {
    WordIs64Bits();
    XorBitsOfSame(a, 64);
  }

  /** The published hash of a one-letter text. */
  lemma HashOfOneLetter()
    ensures FnvFrom([0x61], FNV_OFFSET) == 0xaf63_dc4c_8601_ec8c
  {
    XorWithOneLetter();
    hide XorBits;
    assert [0x61 as Byte][1..] == [];
    assert FnvFrom([], Mul(Xor(FNV_OFFSET, 0x61), FNV_PRIME)) == Mul(Xor(FNV_OFFSET, 0x61), FNV_PRIME);
  }

  lemma XorStep(a: nat, b: nat, n: nat)
    requires n > 0
    ensures XorBits(a, b, n) == (a + b) % 2 + 2 * XorBits(a / 2, b / 2, n - 1)
  {
  }

  lemma NoMoreBits(a: nat)
    requires 128 * a < WORD
    ensures XorBits(a, 0, 57) == a
  {
    WordIs64Bits();
    assert Pow2(7) == 128;
    Pow2Doubles(7, 57);
    hide Pow2;
    XorBitsOfSame(a, 57);
  }

  /** Bit by bit, from where the letter has no more bits down to the lowest. */
  lemma XorWithOneLetter()
    ensures Xor(FNV_OFFSET, 0x61) == 0xcbf2_9ce4_8422_2344
  {
    hide XorBits, Pow2;
    NoMoreBits(0x0197_e539_c908_4446);
    XorStep(0x032f_ca73_9210_888c, 0x1, 58);
    XorStep(0x065f_94e7_2421_1119, 0x3, 59);
    XorStep(0x0cbf_29ce_4842_2232, 0x6, 60);
    XorStep(0x197e_539c_9084_4464, 0xc, 61);
    XorStep(0x32fc_a739_2108_88c9, 0x18, 62);
    XorStep(0x65f9_4e72_4211_1192, 0x30, 63);
    XorStep(0xcbf2_9ce4_8422_2325, 0x61, 64);
  }
}
