/** The string operations the tag code uses: trimming, splitting on separators
    and ASCII case folding. */
module Text {

  /** Unicode White_Space, which trimming strips. */
  predicate IsWhitespace(c: char) {
    || '\t' <= c <= '\r' || c == ' ' || c == '\U{0085}' || c == '\U{00A0}' || c == '\U{1680}'
    || '\U{2000}' <= c <= '\U{200A}' || c == '\U{2028}' || c == '\U{2029}' || c == '\U{202F}'
    || c == '\U{205F}' || c == '\U{3000}'
  }

  const WHITE_SPACE := {'\t', '\n', '\U{000B}', '\U{000C}', '\r', ' ', '\U{0085}', '\U{00A0}', '\U{1680}',
                        '\U{2000}', '\U{2001}', '\U{2002}', '\U{2003}', '\U{2004}', '\U{2005}', '\U{2006}',
                        '\U{2007}', '\U{2008}', '\U{2009}', '\U{200A}', '\U{2028}', '\U{2029}', '\U{202F}',
                        '\U{205F}', '\U{3000}'}

  /** The 25 characters with the property White_Space in the Unicode Character Database. */
  lemma WhitespaceIsListed(c: char)
    ensures IsWhitespace(c) <==> c in WHITE_SPACE
  {
    if '\t' <= c <= '\r' {
      assert c as int in {9, 10, 11, 12, 13};
    }
    if '\U{2000}' <= c <= '\U{200A}' {
      assert c as int in {0x2000, 0x2001, 0x2002, 0x2003, 0x2004, 0x2005, 0x2006, 0x2007, 0x2008, 0x2009, 0x200A};
    }
  }

  /** Unicode category Cc. */
  predicate IsControl(c: char) {
    c <= '\U{001F}' || '\U{007F}' <= c <= '\U{009F}'
  }

  function TrimStart(s: string): string {
    if s != "" && IsWhitespace(s[0]) then TrimStart(s[1..]) else s
  }

  function TrimEnd(s: string): string {
    if s != "" && IsWhitespace(s[|s| - 1]) then TrimEnd(s[..|s| - 1]) else s
  }

  function Trim(s: string): string {
    TrimEnd(TrimStart(s))
  }

  predicate Trimmed(s: string) {
    s == "" || (!IsWhitespace(s[0]) && !IsWhitespace(s[|s| - 1]))
  }

  lemma {:induction false} TrimEndKeepsStart(s: string)
    ensures var t := TrimEnd(s);
      |t| <= |s| && t == s[..|t|] && (t == "" || !IsWhitespace(t[|t| - 1]))
  {
    if s != "" && IsWhitespace(s[|s| - 1]) {
      TrimEndKeepsStart(s[..|s| - 1]);
    }
  }

  lemma {:induction false} TrimStartKeepsEnd(s: string)
    ensures var t := TrimStart(s);
      |t| <= |s| && t == s[|s| - |t|..] && (t == "" || !IsWhitespace(t[0]))
  {
    if s != "" && IsWhitespace(s[0]) {
      TrimStartKeepsEnd(s[1..]);
    }
  }

  lemma TrimIsTrimmed(s: string)
    ensures Trimmed(Trim(s)) && |Trim(s)| <= |s|
    ensures forall c :: c in Trim(s) ==> c in s
  {
    TrimStartKeepsEnd(s);
    TrimEndKeepsStart(TrimStart(s));
  }

  lemma TrimOfTrimmed(s: string)
    requires Trimmed(s)
    ensures Trim(s) == s
  {
  }

  /** The pieces that are not blank, trimmed. */
  function NonBlank(pieces: seq<string>): seq<string> {
    if pieces == [] then []
    else (if Trim(pieces[0]) == "" then [] else [Trim(pieces[0])]) + NonBlank(pieces[1..])
  }

  lemma {:induction false} NonBlankAreTrimmed(pieces: seq<string>)
    ensures forall v :: v in NonBlank(pieces) ==> v != "" && Trimmed(v)
  {
    if pieces != [] {
      NonBlankAreTrimmed(pieces[1..]);
      TrimIsTrimmed(pieces[0]);
    }
  }

  /** Splits at every character of `separators`; there is always a last piece. */
  function Split(s: string, separators: set<char>): (r: seq<string>)
    ensures |r| >= 1
  {
    if s == "" then [""]
    else if s[0] in separators then [""] + Split(s[1..], separators)
    else
      var rest := Split(s[1..], separators);
      [[s[0]] + rest[0]] + rest[1..]
  }

  predicate FreeOf(s: string, separators: set<char>) {
    forall c :: c in s ==> c !in separators
  }

  /** A piece free of separators, then a separator: the piece comes off the front. */
  lemma {:induction false} SplitFirst(piece: string, c: char, rest: string, separators: set<char>)
    requires FreeOf(piece, separators) && c in separators
    ensures Split(piece + [c] + rest, separators) == [piece] + Split(rest, separators)
  {
    var s := piece + [c] + rest;
    if piece == "" {
      assert s[0] == c && s[1..] == rest;
    } else {
      assert s[0] == piece[0] && s[1..] == piece[1..] + [c] + rest;
      SplitFirst(piece[1..], c, rest, separators);
      assert [piece[0]] + piece[1..] == piece;
    }
  }

  lemma {:induction false} SplitNothing(s: string, separators: set<char>)
    requires FreeOf(s, separators)
    ensures Split(s, separators) == [s]
  {
    if s != "" {
      assert s[0] in s;
      assert s == [s[0]] + s[1..];
      SplitNothing(s[1..], separators);
    }
  }

  lemma {:induction false} SplitPiecesAreFree(s: string, separators: set<char>)
    ensures forall piece :: piece in Split(s, separators) ==> FreeOf(piece, separators)
    ensures forall piece, c :: piece in Split(s, separators) && c in piece ==> c in s
  {
    if s != "" {
      SplitPiecesAreFree(s[1..], separators);
      var rest := Split(s[1..], separators);
      assert s == [s[0]] + s[1..];
      assert rest[0] in rest;
      forall piece | piece in Split(s, separators)
        ensures FreeOf(piece, separators)
        ensures forall c :: c in piece ==> c in s
      {
        assert piece in rest || piece == "" || piece == [s[0]] + rest[0];
      }
    }
  }

  /** The first piece of a split is what stands before the first separator. */
  lemma {:induction false} SplitFirstPiece(s: string, separators: set<char>)
    ensures var pieces := Split(s, separators);
      && FreeOf(pieces[0], separators)
      && (if |pieces| == 1 then pieces[0] == s
          else |pieces[0]| < |s| && s[..|pieces[0]|] == pieces[0] && s[|pieces[0]|] in separators)
  {
    if s != "" {
      SplitFirstPiece(s[1..], separators);
      assert s == [s[0]] + s[1..];
    }
  }

  /** The last piece of a split is what stands behind the last separator. */
  lemma {:induction false} LastPieceIsTheEnd(s: string, separators: set<char>) returns (before: string)
    ensures var pieces := Split(s, separators);
      && s == before + pieces[|pieces| - 1]
      && FreeOf(pieces[|pieces| - 1], separators)
      && (before == "" || before[|before| - 1] in separators)
      && (before == "" ==> |pieces| == 1)
  {
    before := "";
    if s != "" {
      var rest := LastPieceIsTheEnd(s[1..], separators);
      var pieces := Split(s[1..], separators);
      assert s == [s[0]] + s[1..];
      if s[0] in separators || |pieces| > 1 {
        before := [s[0]] + rest;
        assert before != [] && (rest != "" ==> before[|before| - 1] == rest[|rest| - 1]);
        hide Split;
      } else {
        SplitFirstPiece(s[1..], separators);
      }
    }
  }

  function LowerChar(c: char): char {
    if 'A' <= c <= 'Z' then (c as int + 32) as char else c
  }

  /** ASCII case folding. */
  function Lower(s: string): (r: string)
    ensures |r| == |s|
  {
    seq(|s|, i requires 0 <= i < |s| => LowerChar(s[i]))
  }

  const CAPITALS := "ABCDEFGHIJKLMNOPQRSTUVWXYZ"
  const SMALL := "abcdefghijklmnopqrstuvwxyz"

  /** Folding takes each capital to its small letter and leaves every other character. */
  lemma LowerFoldsCapitals(s: string, i: nat)
    requires i < |s|
    ensures s[i] !in CAPITALS ==> Lower(s)[i] == s[i]
    ensures forall k :: 0 <= k < 26 && s[i] == CAPITALS[k] ==> Lower(s)[i] == SMALL[k]
  {
    forall k | 0 <= k < 26 ensures CAPITALS[k] as int == 'A' as int + k && SMALL[k] as int == 'a' as int + k {
    }
    if 'A' <= s[i] <= 'Z' {
      var k := s[i] as int - 'A' as int;
      assert CAPITALS[k] == s[i];
    }
  }

  /** `needle` stands somewhere in `hay`. */
  predicate Contains(hay: string, needle: string) {
    exists i :: 0 <= i <= |hay| && needle <= hay[i..]
  }

  predicate ContainsIgnoringCase(hay: string, needle: string) {
    Contains(Lower(hay), Lower(needle))
  }

  predicate EqualsIgnoringCase(a: string, b: string) {
    Lower(a) == Lower(b)
  }

  lemma SliceIsInside(s: string, a: nat, b: nat)
    requires a <= b <= |s|
    ensures Contains(s, s[a..b])
  {
    assert s[a..b] <= s[a..];
  }

  lemma ContainsTransitive(whole: string, part: string, piece: string)
    requires Contains(whole, part) && Contains(part, piece)
    ensures Contains(whole, piece)
  {
    var i :| 0 <= i <= |whole| && part <= whole[i..];
    var j :| 0 <= j <= |part| && piece <= part[j..];
    assert whole[i + j..] == whole[i..][j..];
    assert part[j..] <= whole[i..][j..];
  }

  lemma LowerIsInside(whole: string, part: string)
    requires Contains(whole, part)
    ensures Contains(Lower(whole), Lower(part))
  {
    var i :| 0 <= i <= |whole| && part <= whole[i..];
    assert Lower(whole)[i..] == Lower(whole[i..]);
    assert Lower(part) <= Lower(whole[i..]);
  }

  lemma TrimIsASlice(s: string)
    ensures Contains(s, Trim(s))
  {
    TrimStartKeepsEnd(s);
    TrimEndKeepsStart(TrimStart(s));
    var a := |s| - |TrimStart(s)|;
    var b := a + |Trim(s)|;
    assert Trim(s) == s[a..b];
    SliceIsInside(s, a, b);
  }

  lemma {:induction false} SplitPiecesAreSlices(s: string, separators: set<char>)
    ensures Split(s, separators)[0] <= s
    ensures forall i :: 0 <= i < |Split(s, separators)| ==> Contains(s, Split(s, separators)[i])
  {
    hide Contains;
    if s == "" {
      SliceIsInside(s, 0, 0);
    } else {
      SplitPiecesAreSlices(s[1..], separators);
      var rest := Split(s[1..], separators);
      var pieces := Split(s, separators);
      SliceIsInside(s, 1, |s|);
      forall i | 0 <= i < |pieces| ensures Contains(s, pieces[i]) {
        if i == 0 {
          SliceIsInside(s, 0, |pieces[0]|);
          assert pieces[0] == s[..|pieces[0]|];
        } else {
          var k := if s[0] in separators then i - 1 else i;
          assert pieces[i] == rest[k];
          ContainsTransitive(s, s[1..], rest[k]);
        }
      }
    }
  }

  ghost predicate Blank(s: string) {
    forall i :: 0 <= i < |s| ==> IsWhitespace(s[i])
  }

  lemma {:induction false} TrimStartSkips(pad: string, s: string)
    requires Blank(pad)
    ensures TrimStart(pad + s) == TrimStart(s)
  {
    if pad == "" {
      assert pad + s == s;
    } else {
      assert (pad + s)[0] == pad[0] && (pad + s)[1..] == pad[1..] + s;
      TrimStartSkips(pad[1..], s);
    }
  }

  lemma {:induction false} TrimEndSkips(s: string, pad: string)
    requires Blank(pad)
    ensures TrimEnd(s + pad) == TrimEnd(s)
  {
    if pad == "" {
      assert s + pad == s;
    } else {
      var n := |pad| - 1;
      assert (s + pad)[|s + pad| - 1] == pad[n] && (s + pad)[..|s + pad| - 1] == s + pad[..n];
      TrimEndSkips(s, pad[..n]);
    }
  }

  /** Blanks around a trimmed text come off. */
  lemma TrimPadded(before: string, core: string, after: string)
    requires Blank(before) && Blank(after) && Trimmed(core)
    ensures Trim(before + core + after) == core
  {
    assert before + core + after == before + (core + after);
    TrimStartSkips(before, core + after);
    if core == "" {
      TrimStartSkips(after, "");
      assert core + after == after + "";
    } else {
      assert TrimStart(core + after) == core + after;
      TrimEndSkips(core, after);
    }
  }
}
