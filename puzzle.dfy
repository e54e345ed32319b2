/** The puzzle generator of the hidden word finder: a string of random
    upper-case letters, with the target words written over it one after the
    other at random offsets.

    Every call of `Math.random()` is replaced by an explicit `Draw`: a rational
    number num/den in [0, 1). `Math.floor(r * m)` is then `FloorScale(r, m)`. */
module Puzzle {

  /** One value of the random source, num/den, with 0 <= num/den < 1. */
  datatype Draw = Draw(num: nat, den: nat)

  type UnitDraw = r: Draw | r.num < r.den witness Draw(0, 1)

  /** `Math.floor(r * m)` for r in [0, 1): Dafny's division by a positive
      divisor rounds down, as `Math.floor` does, also for negative m. */
  function FloorScale(r: UnitDraw, m: int): (k: int)
    ensures m > 0 ==> 0 <= k < m
    ensures m == 0 ==> k == 0
    ensures m < 0 ==> m <= k <= 0
  {
    FloorScaleBounds(r, m);
    r.num * m / r.den
  }

  lemma FloorScaleBounds(r: UnitDraw, m: int)
    ensures var k := r.num * m / r.den;
            (m > 0 ==> 0 <= k < m) && (m == 0 ==> k == 0) && (m < 0 ==> m <= k <= 0)
  {
    var n, d := r.num, r.den;
    var x := n * m;
    if m > 0 {
      MulNonNeg(n, m);
      MulMono(n, d - 1, m);
      assert (d - 1) * m == m * d - m;
      DivBetween(x, d, m);
      DivBetween(x, d, 0);
    } else if m < 0 {
      MulMono(n, d, -m);
      assert n * (-m) == -x && d * (-m) == -(m * d);
      DivBetween(x, d, m);
      DivBetween(x, d, 1);
    }
  }

  lemma MulNonNeg(a: int, b: int)
    requires a >= 0 && b >= 0
    ensures a * b >= 0
  {
  }

  lemma MulMono(a: int, b: int, d: int)
    requires a <= b && d >= 0
    ensures a * d <= b * d
  {
    MulNonNeg(b - a, d);
    assert (b - a) * d == b * d - a * d;
  }

  /** Division by a positive d compares with m as x compares with m * d. */
  lemma DivBetween(x: int, d: int, m: int)
    requires d > 0
    ensures x < m * d ==> x / d < m
    ensures x >= m * d ==> x / d >= m
  {
    var q, rem := x / d, x % d;
    assert x == q * d + rem && 0 <= rem < d;
    if x < m * d && q >= m {
      MulMono(m, q, d);
    }
    if x >= m * d && q < m {
      MulMono(q + 1, m, d);
    }
  }

  /** Every k in [0, m) is `Math.floor(r * m)` for some r in [0, 1). */
  lemma FloorScaleReaches(m: nat, k: nat)
    requires k < m
    ensures FloorScale(Draw(k, m), m) == k
  {
    DivBetween(k * m, m, k);
    DivBetween(k * m, m, k + 1);
  }

  // ---------------------------------------------------------------------
  // generateRandomString

  const Characters: string := "ABCDEFGHIJKLMNOPQRSTUVWXYZ"

  predicate IsUpperLetter(c: char) {
    'A' <= c <= 'Z'
  }

  predicate AllUpperLetters(s: string) {
    forall i :: 0 <= i < |s| ==> IsUpperLetter(s[i])
  }

  /** The letter of A–Z at position floor(r * 26). */
  function RandomLetter(r: UnitDraw): (c: char)
    ensures IsUpperLetter(c)
    ensures c == ('A' as int + FloorScale(r, 26)) as char
  {
    assert |Characters| == 26;
    var k := FloorScale(r, |Characters|);
    AlphabetCharacters(k);
    Characters[k]
  }

  /** The k-th of the 26 characters is the k-th letter after 'A'. */
  lemma AlphabetCharacters(k: int)
    requires 0 <= k < 26
    ensures Characters[k] == ('A' as int + k) as char
  {
  }

  /** `generateRandomString(length)`, with one draw per character. */
  function GenerateRandomString(length: nat, draws: seq<UnitDraw>): (s: string)
    requires |draws| == length
    ensures |s| == length
    ensures AllUpperLetters(s)
    ensures forall i :: 0 <= i < length ==> s[i] == RandomLetter(draws[i])
  {
    seq(length, i requires 0 <= i < length => RandomLetter(draws[i]))
  }

  /** The draws that make `GenerateRandomString` produce `s`. */
  function DrawsFor(s: string): (ds: seq<UnitDraw>)
    requires AllUpperLetters(s)
    ensures |ds| == |s|
  {
    seq(|s|, i requires 0 <= i < |s| => Draw(s[i] as int - 'A' as int, 26))
  }

  /** Every string of upper-case letters is a possible random string: the
      generator can reach its whole range. */
  lemma GenerateReachesAll(s: string)
    requires AllUpperLetters(s)
    ensures GenerateRandomString(|s|, DrawsFor(s)) == s
  {
  }

  // ---------------------------------------------------------------------
  // insertWordsRandomly

  /** The offset at which a word of length |w| is written into a string of
      length len. */
  function Offset(len: int, w: string, r: UnitDraw): (i: int)
    ensures |w| < len ==> 0 <= i <= len - |w| - 1
    ensures |w| == len ==> i == 0
  {
    FloorScale(r, len - |w|)
  }

  /** The last offset at which the word would still fit is never chosen. */
  lemma LastSlotNeverChosen(len: int, w: string, r: UnitDraw)
    requires |w| < len
    ensures Offset(len, w, r) != len - |w|
  {
  }

  /** Every offset below len - |w| is chosen by some draw. */
  lemma OffsetReaches(len: int, w: string, i: nat)
    requires i < len - |w|
    ensures Offset(len, w, Draw(i, len - |w|)) == i
  {
    FloorScaleReaches(len - |w|, i);
  }

  /** The word w appears in s starting at offset i. */
  predicate HiddenAt(s: string, w: string, i: int) {
    0 <= i && i + |w| <= |s| && s[i..i + |w|] == w
  }

  /** w written over s from offset i. */
  function InsertAt(s: string, w: string, i: int): (r: string)
    requires 0 <= i && i + |w| <= |s|
    ensures |r| == |s|
    ensures HiddenAt(r, w, i)
    ensures forall p :: 0 <= p < |s| && !(i <= p < i + |w|) ==> r[p] == s[p]
  {
    s[..i] + w + s[i + |w|..]
  }

  /** Every word fits into a string of length len. */
  predicate Fits(words: seq<string>, len: int) {
    forall j :: 0 <= j < |words| ==> |words[j]| <= len
  }

  /** One offset per word, and each word's window lies inside a string of length len. */
  predicate Placeable(words: seq<string>, offsets: seq<int>, len: int) {
    |offsets| == |words| &&
    forall j :: 0 <= j < |words| ==> 0 <= offsets[j] && offsets[j] + |words[j]| <= len
  }

  /** The offsets that the draws give to the words, one draw per word. */
  function Offsets(len: int, words: seq<string>, draws: seq<UnitDraw>): (offs: seq<int>)
    requires |draws| == |words| && Fits(words, len)
    ensures Placeable(words, offs, len)
    ensures forall j :: 0 <= j < |words| ==> offs[j] == Offset(len, words[j], draws[j])
  {
    seq(|words|, j requires 0 <= j < |words| => Offset(len, words[j], draws[j]))
  }

  /** The words written over `s` one after the other at the given offsets,
      later words over earlier ones. */
  function Overwrite(s: string, words: seq<string>, offsets: seq<int>): (r: string)
    requires Placeable(words, offsets, |s|)
    ensures |r| == |s|
    decreases |words|
  {
    if words == [] then s
    else Overwrite(InsertAt(s, words[0], offsets[0]), words[1..], offsets[1..])
  }

  /** The result of `insertWordsRandomly(s, words)`: the j-th word is placed
      with the j-th draw. */
  function InsertAll(s: string, words: seq<string>, draws: seq<UnitDraw>): (r: string)
    requires |draws| == |words| && Fits(words, |s|)
    ensures |r| == |s|
  {
    Overwrite(s, words, Offsets(|s|, words, draws))
  }

  /** The loop of `insertWordsRandomly`: the accumulator `result` is
      overwritten with one word per iteration. */
  method InsertWordsRandomly(base: string, words: seq<string>, draws: seq<UnitDraw>)
    returns (result: string)
    requires |draws| == |words| && Fits(words, |base|)
    ensures result == InsertAll(base, words, draws)
    ensures |result| == |base|
  {
    ghost var offs := Offsets(|base|, words, draws);
    result := base;
    var j := 0;
    while j < |words|
      invariant 0 <= j <= |words|
      invariant |result| == |base|
      invariant Overwrite(result, words[j..], offs[j..]) == InsertAll(base, words, draws)
    {
      var w := words[j];
      var i := Offset(|result|, w, draws[j]);
      assert i == offs[j];
      assert words[j..][1..] == words[j + 1..] && offs[j..][1..] == offs[j + 1..];
      result := result[..i] + w + result[i + |w|..];
      j := j + 1;
    }
  }

  /** Position p lies in the window of a word w written at offset i. */
  predicate InWindow(i: int, w: string, p: int) {
    i <= p < i + |w|
  }

  /** The windows of w at offset i and v at offset k do not overlap. */
  predicate Apart(i: int, w: string, k: int, v: string) {
    i + |w| <= k || k + |v| <= i
  }

  /** A position that no word's window covers keeps its character. */
  lemma {:induction false} UncoveredKept(s: string, words: seq<string>, offsets: seq<int>, p: int)
    requires Placeable(words, offsets, |s|)
    requires 0 <= p < |s|
    requires forall j :: 0 <= j < |words| ==> !InWindow(offsets[j], words[j], p)
    ensures Overwrite(s, words, offsets)[p] == s[p]
    decreases |words|
  {
    if words != [] {
      var t := InsertAt(s, words[0], offsets[0]);
      assert !InWindow(offsets[0], words[0], p);
      forall j | 0 <= j < |words| - 1
        ensures !InWindow(offsets[1..][j], words[1..][j], p)
      {
        assert words[1..][j] == words[j + 1] && offsets[1..][j] == offsets[j + 1];
      }
      UncoveredKept(t, words[1..], offsets[1..], p);
    }
  }

  /** The k-th word is still hidden at its offset in the final string when no
      later word is written over its window. */
  lemma {:induction false} WordSurvives(s: string, words: seq<string>, offsets: seq<int>, k: int)
    requires Placeable(words, offsets, |s|)
    requires 0 <= k < |words|
    requires forall j :: k < j < |words| ==> Apart(offsets[k], words[k], offsets[j], words[j])
    ensures HiddenAt(Overwrite(s, words, offsets), words[k], offsets[k])
    decreases |words|
  {
    var t := InsertAt(s, words[0], offsets[0]);
    var ws, os := words[1..], offsets[1..];
    if k == 0 {
      var i, w := offsets[0], words[0];
      var r := Overwrite(s, words, offsets);
      forall p | i <= p < i + |w|
        ensures r[p] == w[p - i]
      {
        forall j | 0 <= j < |ws|
          ensures !InWindow(os[j], ws[j], p)
        {
          assert ws[j] == words[j + 1] && os[j] == offsets[j + 1];
        }
        UncoveredKept(t, ws, os, p);
        assert t[p] == t[i..i + |w|][p - i];
      }
      assert r[i..i + |w|] == w;
    } else {
      forall j | k - 1 < j < |ws|
        ensures Apart(os[k - 1], ws[k - 1], os[j], ws[j])
      {
        assert ws[j] == words[j + 1] && os[j] == offsets[j + 1];
      }
      WordSurvives(t, ws, os, k - 1);
    }
  }

  /** The last word inserted always appears at the offset its draw gives. */
  lemma LastWordHidden(s: string, words: seq<string>, draws: seq<UnitDraw>)
    requires |draws| == |words| && Fits(words, |s|) && words != []
    ensures HiddenAt(InsertAll(s, words, draws), words[|words| - 1],
                     Offset(|s|, words[|words| - 1], draws[|words| - 1]))
  {
    WordSurvives(s, words, Offsets(|s|, words, draws), |words| - 1);
  }

  /** Writing upper-case words over an upper-case string keeps it upper-case. */
  lemma {:induction false} OverwriteUpper(s: string, words: seq<string>, offsets: seq<int>)
    requires Placeable(words, offsets, |s|)
    requires AllUpperLetters(s)
    requires forall j :: 0 <= j < |words| ==> AllUpperLetters(words[j])
    ensures AllUpperLetters(Overwrite(s, words, offsets))
    decreases |words|
  {
    if words != [] {
      var i, w := offsets[0], words[0];
      var t := InsertAt(s, w, i);
      forall p | 0 <= p < |t|
        ensures IsUpperLetter(t[p])
      {
        if i <= p < i + |w| {
          assert t[p] == t[i..i + |w|][p - i];
        }
      }
      forall j | 0 <= j < |words| - 1
        ensures AllUpperLetters(words[1..][j])
      {
        assert words[1..][j] == words[j + 1];
      }
      OverwriteUpper(t, words[1..], offsets[1..]);
    }
  }

  /** A later word can overwrite an earlier one: with both draws 0, CAT is
      written over DOG and DOG is no longer in the puzzle. */
  lemma EarlierWordOverwritten()
    ensures InsertAll("QQQQQ", ["DOG", "CAT"], [Draw(0, 1), Draw(0, 1)]) == "CATQQ"
    ensures !HiddenAt(InsertAll("QQQQQ", ["DOG", "CAT"], [Draw(0, 1), Draw(0, 1)]), "DOG",
                      Offset(5, "DOG", Draw(0, 1)))
  {
  }
}
