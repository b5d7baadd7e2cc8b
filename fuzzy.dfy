/** The bigram-overlap similarity score `fuzzy_match(orig, sub)`: the share of the
    adjacent word pairs of `sub` that occur verbatim in `orig`, weighted by the
    pairs' lengths, after both strings are stripped to `[a-zA-Z0-9 ]` and
    lower-cased. */
module Fuzzy {
  import opened Wrappers
  import opened Strings

  /** The characters the substitution `[^a-zA-Z0-9 ]+` -> '' keeps. */
  predicate IsKept(c: char)
  {
    ('a' <= c <= 'z') || ('A' <= c <= 'Z') || ('0' <= c <= '9') || c == ' '
  }

  /** The regular-expression substitution: every character outside
      `[a-zA-Z0-9 ]` is dropped, the others keep their order. */
  function Strip(s: string): string
  {
    if s == [] then [] else (if IsKept(s[0]) then [s[0]] else []) + Strip(s[1..])
  }

  /** `str.lower()` on ASCII; once stripped, no other letters are left. */
  function LowerChar(c: char): char
  {
    if 'A' <= c <= 'Z' then (c as int - 'A' as int + 'a' as int) as char else c
  }

  function Lower(s: string): string
  {
    seq(|s|, i requires 0 <= i < |s| => LowerChar(s[i]))
  }

  /** Both operands are compared in this form: stripped, then lower-cased. */
  function Norm(s: string): string
  {
    Lower(Strip(s))
  }

  /** Number of non-space characters at the front of `s`. */
  function WordLength(s: string): (n: nat)
    ensures n <= |s|
    ensures forall i :: 0 <= i < n ==> s[i] != ' '
    ensures n == |s| || s[n] == ' '
  {
    if s == [] || s[0] == ' ' then 0 else 1 + WordLength(s[1..])
  }

  /** `str.split()` on a stripped string, where a space is the only whitespace
      left: maximal runs of non-space characters, in order. */
  function Split(s: string): (words: seq<string>)
    ensures forall w :: w in words ==> w != [] && ' ' !in w
    decreases |s|
  {
    if s == [] then []
    else if s[0] == ' ' then Split(s[1..])
    else
      var n := WordLength(s);
      [s[..n]] + Split(s[n..])
  }

  /** The n-1 adjacent word pairs, each joined by one space; none when n <= 1. */
  function Pairs(words: seq<string>): seq<string>
  {
    if |words| < 2 then []
    else seq(|words| - 1, i requires 0 <= i < |words| - 1 => words[i] + " " + words[i + 1])
  }

  /** Python's `needle in hay` on strings. */
  predicate Contains(hay: string, needle: string)
    decreases |hay|
  {
    needle <= hay || (hay != [] && Contains(hay[1..], needle))
  }

  /** A needle longer than the haystack is never found. */
  lemma {:induction false} ContainsNeedsRoom(hay: string, needle: string)
    requires Contains(hay, needle)
    ensures |needle| <= |hay|
    decreases |hay|
  {
    if !(needle <= hay) {
      ContainsNeedsRoom(hay[1..], needle);
    }
  }

  /** `sum(len(p) for p in pairs if p in hay)`. */
  function Matched(pairs: seq<string>, hay: string): (m: nat)
    ensures m <= |Concat(pairs)|
  {
    if pairs == [] then 0
    else (if Contains(hay, pairs[0]) then |pairs[0]| else 0) + Matched(pairs[1..], hay)
  }

  /** An exact score `num / den`. */
  datatype Ratio = Ratio(num: nat, den: nat)
  {
    function Value(): real
      requires den > 0
    {
      num as real / den as real
    }
  }

  /** The bigram pairs of `sub` after normalisation. */
  function SubPairs(sub: string): seq<string>
  {
    Pairs(Split(Norm(sub)))
  }

  /** `fuzzy_match(orig, sub)`. `None` is the ZeroDivisionError the division
      raises when `"".join(pairs)` is empty. */
  function FuzzyMatch(orig: string, sub: string): (r: Option<Ratio>)
    ensures r.None? <==> |Split(Norm(sub))| < 2
    ensures r.Some? ==> 0 < r.value.den && r.value.num <= r.value.den
    ensures r.Some? ==> r.value.den == |Concat(SubPairs(sub))|
  {
    var pairs := SubPairs(sub);
    var total := |Concat(pairs)|;
    PairsAreLong(Split(Norm(sub)));
    if total == 0 then None
    else Some(Ratio(Matched(pairs, Norm(orig)), total))
  }

  /** Each pair is two non-empty words and a space, so the pairs together are at
      least three characters per pair long. */
  lemma PairsAreLong(words: seq<string>)
    requires forall w :: w in words ==> w != []
    ensures |Concat(Pairs(words))| >= 3 * |Pairs(words)|
  {
    var ps := Pairs(words);
    forall i | 0 <= i < |ps|
      ensures |ps[i]| >= 3
    {
      assert words[i] in words && words[i + 1] in words;
    }
    ConcatLengthAtLeast(ps, 3);
  }

  /** The score lies in [0, 1] whenever it is defined, and it is defined exactly
      when `sub` has at least two words after normalisation. */
  lemma ScoreRange(orig: string, sub: string)
    ensures FuzzyMatch(orig, sub).Some? <==> |Split(Norm(sub))| >= 2
    ensures FuzzyMatch(orig, sub).Some? ==>
              0.0 <= FuzzyMatch(orig, sub).value.Value() <= 1.0
  {
    var r := FuzzyMatch(orig, sub);
    if r.Some? {
      RatioBounds(r.value);
    }
  }

  /** A ratio of naturals with `num <= den` lies in [0, 1] and is 1 only when
      `num == den`. */
  lemma RatioBounds(r: Ratio)
    requires 0 < r.den && r.num <= r.den
    ensures 0.0 <= r.Value() <= 1.0
    ensures r.Value() == 1.0 <==> r.num == r.den
  {
    var n, d := r.num as real, r.den as real;
    assert r.Value() == n / d;
    DivAtMost(n, d, 1.0);
    DivAtLeast(n, d, 0.0);
    DivAtLeast(n, d, 1.0);
  }

  /** With zero or one word there is no pair, and the division is undefined. */
  lemma DegenerateHasNoPairs(orig: string, sub: string)
    requires |Split(Norm(sub))| < 2
    ensures SubPairs(sub) == [] && |Concat(SubPairs(sub))| == 0
    ensures FuzzyMatch(orig, sub) == None
  {
  }

  /** The matched length reaches the total exactly when every pair is found. */
  lemma {:induction false} MatchedAll(pairs: seq<string>, hay: string)
    requires forall i :: 0 <= i < |pairs| ==> pairs[i] != []
    ensures Matched(pairs, hay) == |Concat(pairs)| <==>
            forall i :: 0 <= i < |pairs| ==> Contains(hay, pairs[i])
  {
    if pairs != [] {
      MatchedAll(pairs[1..], hay);
      assert forall i :: 1 <= i < |pairs| ==> pairs[i] == pairs[1..][i - 1];
    }
  }

  /** Every adjacent pair of `words`, joined by a space, occurs in `hay`. */
  predicate AllPairsOccur(hay: string, words: seq<string>)
  {
    forall i :: 0 <= i < |words| - 1 ==> Contains(hay, words[i] + " " + words[i + 1])
  }

  /** The thresholds 1/2 and 9/10 the decision compares a score with are exact
      integer comparisons of the ratio's parts. */
  lemma Thresholds(r: Ratio)
    requires 0 < r.den
    ensures r.Value() <= 0.5 <==> 2 * r.num <= r.den
    ensures r.Value() >= 0.9 <==> 10 * r.num >= 9 * r.den
  {
    var n, d := r.num as real, r.den as real;
    assert r.Value() == n / d;
    DivAtMost(n, d, 0.5);
    DivAtLeast(n, d, 0.9);
  }

  lemma DivAtMost(n: real, d: real, c: real)
    requires d > 0.0
    ensures n / d <= c <==> n <= c * d
  {
    var q := n / d;
    assert q * d == n;
    if q <= c {
      assert (c - q) * d >= 0.0;
    } else {
      assert (q - c) * d > 0.0;
    }
  }

  lemma DivAtLeast(n: real, d: real, c: real)
    requires d > 0.0
    ensures n / d >= c <==> n >= c * d
  {
    var q := n / d;
    assert q * d == n;
    if q >= c {
      assert (q - c) * d >= 0.0;
    } else {
      assert (c - q) * d > 0.0;
    }
  }

  /** The score is 1 exactly when every adjacent word pair of `sub` occurs in the
      stripped, lower-cased `orig`. */
  lemma FullMatch(orig: string, sub: string)
    requires FuzzyMatch(orig, sub).Some?
    ensures FuzzyMatch(orig, sub).value.Value() == 1.0 <==> AllPairsOccur(Norm(orig), Split(Norm(sub)))
  {
    var words := Split(Norm(sub));
    var hay := Norm(orig);
    var ps := Pairs(words);
    assert |words| >= 2;
    assert |ps| == |words| - 1;
    assert forall i :: 0 <= i < |ps| ==> ps[i] == words[i] + " " + words[i + 1];
    MatchedAll(ps, hay);
    var r := FuzzyMatch(orig, sub).value;
    assert r == Ratio(Matched(ps, hay), |Concat(ps)|);
    RatioBounds(r);
    assert r.Value() == 1.0 <==> Matched(ps, hay) == |Concat(ps)|;
    if AllPairsOccur(hay, words) {
      forall i | 0 <= i < |ps| ensures Contains(hay, ps[i]) {
      }
    }
    if forall i :: 0 <= i < |ps| ==> Contains(hay, ps[i]) {
      forall i | 0 <= i < |words| - 1 ensures Contains(hay, words[i] + " " + words[i + 1]) {
        assert Contains(hay, ps[i]);
      }
    }
  }

  lemma {:induction false} StripConcat(a: string, b: string)
    ensures Strip(a + b) == Strip(a) + Strip(b)
  {
    if a != [] {
      assert (a + b)[1..] == a[1..] + b;
      StripConcat(a[1..], b);
    } else {
      assert a + b == b;
    }
  }

  lemma {:induction false} LowerStripCommute(s: string)
    ensures Lower(Strip(s)) == Strip(Lower(s))
  {
    if s != [] {
      assert Lower(s)[1..] == Lower(s[1..]);
      LowerStripCommute(s[1..]);
      var head := if IsKept(s[0]) then [s[0]] else [];
      assert Lower(head + Strip(s[1..])) == Lower(head) + Lower(Strip(s[1..]));
    }
  }

  /** Letter case in either argument does not change the score. */
  lemma CaseInsensitive(orig: string, orig': string, sub: string, sub': string)
    requires Lower(orig) == Lower(orig') && Lower(sub) == Lower(sub')
    ensures FuzzyMatch(orig, sub) == FuzzyMatch(orig', sub')
  {
    LowerStripCommute(orig);
    LowerStripCommute(orig');
    LowerStripCommute(sub);
    LowerStripCommute(sub');
  }

  /** Inserting a character outside `[a-zA-Z0-9 ]` anywhere in `orig` does not
      change the score. */
  lemma PunctuationIgnoredInOrig(u: string, v: string, c: char, sub: string)
    requires !IsKept(c)
    ensures FuzzyMatch(u + [c] + v, sub) == FuzzyMatch(u + v, sub)
  {
    StripConcat(u + [c], v);
    StripConcat(u, [c]);
    StripConcat(u, v);
    assert Strip([c]) == [];
    assert Strip(u) + [] == Strip(u);
  }

  /** Inserting a character outside `[a-zA-Z0-9 ]` anywhere in `sub` does not
      change the score. */
  lemma PunctuationIgnoredInSub(orig: string, x: string, y: string, d: char)
    requires !IsKept(d)
    ensures FuzzyMatch(orig, x + [d] + y) == FuzzyMatch(orig, x + y)
  {
    StripConcat(x + [d], y);
    StripConcat(x, [d]);
    StripConcat(x, y);
    assert Strip([d]) == [];
    assert Strip(x) + [] == Strip(x);
  }

  /** A word already in normal form: non-empty lower-case letters and digits. */
  predicate IsNormalWord(w: string)
  {
    w != [] && forall c :: c in w ==> ('a' <= c <= 'z') || ('0' <= c <= '9')
  }

  lemma {:induction false} WordLengthOfWord(w: string, rest: string)
    requires ' ' !in w
    requires rest == [] || rest[0] == ' '
    ensures WordLength(w + rest) == |w|
  {
    if w != [] {
      assert (w + rest)[1..] == w[1..] + rest;
      WordLengthOfWord(w[1..], rest);
    } else {
      assert w + rest == rest;
    }
  }

  /** Splitting undoes joining with single spaces. */
  lemma {:induction false} SplitJoin(words: seq<string>)
    requires forall w :: w in words ==> w != [] && ' ' !in w
    ensures Split(Join(words, " ")) == words
  {
    if |words| == 1 {
      WordLengthOfWord(words[0], []);
      assert words[0] + [] == words[0];
    } else if |words| >= 2 {
      var w, rest := words[0], Join(words[1..], " ");
      var s := w + " " + rest;
      assert s == w + (" " + rest);
      WordLengthOfWord(w, " " + rest);
      assert s[..|w|] == w;
      assert s[|w|..] == " " + rest;
      assert (" " + rest)[1..] == rest;
      forall u | u in words[1..] ensures u != [] && ' ' !in u {
        assert u in words;
      }
      SplitJoin(words[1..]);
    }
  }

  lemma {:induction false} JoinOfNormalWords(words: seq<string>)
    requires forall w :: w in words ==> IsNormalWord(w)
    ensures forall c :: c in Join(words, " ") ==> ('a' <= c <= 'z') || ('0' <= c <= '9') || c == ' '
  {
    if |words| >= 2 {
      JoinOfNormalWords(words[1..]);
      assert words[0] in words;
    } else if |words| == 1 {
      assert words[0] in words;
    }
  }

  /** Text made of kept characters only survives stripping unchanged. */
  lemma {:induction false} StripKeepsNormal(s: string)
    requires forall i :: 0 <= i < |s| ==> IsKept(s[i])
    ensures Strip(s) == s
  {
    if s != [] {
      assert forall i :: 0 <= i < |s[1..]| ==> s[1..][i] == s[i + 1];
      StripKeepsNormal(s[1..]);
    }
  }

  /** A string of lower-case letters, digits and spaces is its own normal form. */
  lemma NormOfNormal(s: string)
    requires forall c :: c in s ==> ('a' <= c <= 'z') || ('0' <= c <= '9') || c == ' '
    ensures Norm(s) == s
  {
    assert forall i :: 0 <= i < |s| ==> s[i] in s;
    StripKeepsNormal(s);
    assert Lower(s) == s;
  }

  lemma {:induction false} ContainsAfter(prefix: string, hay: string, needle: string)
    requires Contains(hay, needle)
    ensures Contains(prefix + hay, needle)
  {
    if prefix != [] {
      assert (prefix + hay)[1..] == prefix[1..] + hay;
      ContainsAfter(prefix[1..], hay, needle);
    } else {
      assert prefix + hay == hay;
    }
  }

  /** Every adjacent pair of words occurs in their single-space join. */
  lemma {:induction false} JoinHasAllPairs(words: seq<string>)
    ensures AllPairsOccur(Join(words, " "), words)
  {
    if |words| >= 2 {
      var tail := Join(words[1..], " ");
      JoinHasAllPairs(words[1..]);
      assert words[1] <= tail;
      var pair := words[0] + " " + words[1];
      assert Join(words, " ") == (words[0] + " ") + tail;
      assert pair <= Join(words, " ");
      forall i | 1 <= i < |words| - 1
        ensures Contains(Join(words, " "), words[i] + " " + words[i + 1])
      {
        assert words[1..][i - 1] == words[i] && words[1..][i] == words[i + 1];
        ContainsAfter(words[0] + " ", tail, words[i] + " " + words[i + 1]);
      }
    }
  }

  /** A text of at least two normal words joined by single spaces scores 1
      against itself. */
  lemma SelfMatch(words: seq<string>)
    requires |words| >= 2
    requires forall w :: w in words ==> IsNormalWord(w)
    ensures FuzzyMatch(Join(words, " "), Join(words, " ")).Some?
    ensures FuzzyMatch(Join(words, " "), Join(words, " ")).value.Value() == 1.0
  {
    var s := Join(words, " ");
    JoinOfNormalWords(words);
    NormOfNormal(s);
    forall w | w in words ensures w != [] && ' ' !in w {
      assert IsNormalWord(w);
    }
    SplitJoin(words);
    JoinHasAllPairs(words);
    FullMatch(s, s);
  }

  /** The score from its parts: the normalised words of `sub`, their pairs, and
      the matched and total lengths. */
  lemma ScoreFromParts(orig: string, sub: string, words: seq<string>, pairs: seq<string>, m: nat, total: nat)
    requires Split(Norm(sub)) == words && Pairs(words) == pairs
    requires Matched(pairs, Norm(orig)) == m && |Concat(pairs)| == total > 0
    ensures FuzzyMatch(orig, sub) == Some(Ratio(m, total))
  {
  }

  lemma NormThreeWords()
    ensures Norm("a b c") == "a b c"
  {
    NormOfNormal("a b c");
  }

  lemma NormTwoWords()
    ensures Norm("a b") == "a b"
  {
    NormOfNormal("a b");
  }

  lemma SplitThreeWords()
    ensures Split(Norm("a b c")) == ["a", "b", "c"]
  {
    NormThreeWords();
    assert Join(["a", "b", "c"], " ") == "a b c";
    assert forall w :: w in ["a", "b", "c"] ==> w != [] && ' ' !in w;
    SplitJoin(["a", "b", "c"]);
  }

  lemma SplitTwoWords()
    ensures Split(Norm("a b")) == ["a", "b"]
  {
    NormTwoWords();
    assert Join(["a", "b"], " ") == "a b";
    assert forall w :: w in ["a", "b"] ==> w != [] && ' ' !in w;
    SplitJoin(["a", "b"]);
  }

  lemma PairsOfThree()
    ensures Pairs(["a", "b", "c"]) == ["a b", "b c"]
    ensures |Concat(["a b", "b c"])| == 6
  {
    assert "a" + " " + "b" == "a b";
    assert "b" + " " + "c" == "b c";
  }

  lemma PairsOfTwo()
    ensures Pairs(["a", "b"]) == ["a b"]
    ensures |Concat(["a b"])| == 3
  {
    assert "a" + " " + "b" == "a b";
  }

  lemma ThreeWordsInTwo()
    ensures FuzzyMatch("a b", "a b c") == Some(Ratio(3, 6))
  {
    SplitThreeWords();
    PairsOfThree();
    NormTwoWords();
    assert Contains("a b", "a b");
    assert !Contains("a b", "b c") by {
      assert !Contains("b", "b c");
      assert !Contains(" b", "b c");
    }
    assert Matched(["a b", "b c"], "a b") == 3;
    ScoreFromParts("a b", "a b c", ["a", "b", "c"], ["a b", "b c"], 3, 6);
  }

  lemma TwoWordsInThree()
    ensures FuzzyMatch("a b c", "a b") == Some(Ratio(3, 3))
  {
    SplitTwoWords();
    PairsOfTwo();
    NormThreeWords();
    assert Contains("a b c", "a b");
    assert Matched(["a b"], "a b c") == 3;
    ScoreFromParts("a b c", "a b", ["a", "b"], ["a b"], 3, 3);
  }

  /** The word pairs of `sub` are searched in `orig` but not the other way round:
      swapping the arguments changes the score. */
  lemma Asymmetric()
    ensures FuzzyMatch("a b", "a b c") != FuzzyMatch("a b c", "a b")
    ensures FuzzyMatch("a b", "a b c").value.Value() == 0.5
    ensures FuzzyMatch("a b c", "a b").value.Value() == 1.0
    ensures FuzzyMatch("a b", "a b c").value.Value() != FuzzyMatch("a b c", "a b").value.Value()
  {
    ThreeWordsInTwo();
    TwoWordsInThree();
    HalfAndWhole();
  }

  lemma HalfAndWhole()
    ensures Ratio(3, 6).Value() == 0.5 && Ratio(3, 3).Value() == 1.0
  {
    assert Ratio(3, 6).Value() == 3.0 / 6.0;
  }
}
