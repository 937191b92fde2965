/**
 * The scraper's scoring helpers: initial popularity (scripts/wikipedia_scraper.py:408-430),
 * reading time (:401-406) and key-word extraction (:432-444).
 */
module Scoring {
  import opened Seqs
  import opened Text

  // ---------------------------------------------------------------- popularity

  const BoostKeywords: seq<string> :=
    ["first", "largest", "smallest", "only", "unique", "discovered", "mystery"]

  /** The per-category popularity bonus table. */
  const CategoryPopularity: map<string, int> :=
    map["history" := 15, "science" := 20, "nature" := 15,
        "technology" := 25, "culture" := 10, "art" := 10]

  /** `category_popularity.get(category, 0)`. */
  function CategoryBonus(category: string): (b: int)
    ensures 0 <= b <= 25
    ensures category !in CategoryPopularity ==> b == 0
  {
    if category in CategoryPopularity then CategoryPopularity[category] else 0
  }

  /** How many of `keywords` occur as substrings of `text`. */
  function CountPresent(keywords: seq<string>, text: string): (n: nat)
    ensures n <= |keywords|
  {
    if keywords == [] then 0
    else
      var last := keywords[|keywords| - 1];
      CountPresent(keywords[..|keywords| - 1], text) + (if Contains(text, last) then 1 else 0)
  }

  /** The keywords of `keywords` that occur in `text`. */
  function PresentSet(keywords: seq<string>, text: string): set<string> {
    set k | k in keywords && Contains(text, k)
  }

  lemma PresentSetSnoc(init: seq<string>, last: string, text: string)
    ensures PresentSet(init + [last], text) ==
            PresentSet(init, text) + (if Contains(text, last) then {last} else {})
  {
  }

  /** Distinct keywords are counted once each: the count is the size of the set of those present. */
  lemma {:induction false} CountPresentIsSetSize(keywords: seq<string>, text: string)
    requires NoDup(keywords)
    ensures CountPresent(keywords, text) == |PresentSet(keywords, text)|
  {
    if keywords != [] {
      var init, last := keywords[..|keywords| - 1], keywords[|keywords| - 1];
      assert keywords == init + [last];
      assert NoDup(init) && last !in init;
      CountPresentIsSetSize(init, text);
      PresentSetSnoc(init, last, text);
      assert last !in PresentSet(init, text);
    }
  }

  /** The score before clamping: 50, plus 10 per boost keyword in the lower-cased content, plus the category bonus. */
  function RawPopularity(content: string, category: string): int {
    50 + 10 * CountPresent(BoostKeywords, Lower(content)) + CategoryBonus(category)
  }

  /** Each boost keyword found in the lower-cased content adds 10, however often it occurs. */
  lemma RawPopularityCountsKeywordsFound(content: string, category: string)
    ensures RawPopularity(content, category) ==
            50 + 10 * |PresentSet(BoostKeywords, Lower(content))| + CategoryBonus(category)
  {
    assert NoDup(BoostKeywords);
    CountPresentIsSetSize(BoostKeywords, Lower(content));
  }

  function Clamp(lo: int, hi: int, x: int): int
    requires lo <= hi
  {
    if x < lo then lo else if x > hi then hi else x
  }

  /** `calculate_initial_popularity`: the raw score clamped to [0, 100]. */
  function InitialPopularity(content: string, category: string): (p: int)
    ensures 0 <= p <= 100
  {
    Clamp(0, 100, RawPopularity(content, category))
  }

  /** `calculate_initial_popularity` as written: a loop adding 10 per keyword found. */
  method CalculateInitialPopularity(content: string, category: string) returns (score: int)
    ensures score == InitialPopularity(content, category)
    ensures 0 <= score <= 100
  {
    score := 50;
    var lowered := Lower(content);
    for k := 0 to |BoostKeywords|
      invariant score == 50 + 10 * CountPresent(BoostKeywords[..k], lowered)
    {
      assert BoostKeywords[..k + 1][..k] == BoostKeywords[..k];
      if Contains(lowered, BoostKeywords[k]) {
        score := score + 10;
      }
    }
    assert BoostKeywords[..|BoostKeywords|] == BoostKeywords;
    score := score + CategoryBonus(category);
    score := if score < 0 then 0 else score;
    score := if score > 100 then 100 else score;
  }

  /**
   * Bounds of the raw score: at least 50, so the lower clamp never applies, and at most
   * 50 + 10 * 7 + 25 = 145, so the upper clamp can.
   */
  lemma RawPopularityRange(content: string, category: string)
    ensures 50 <= RawPopularity(content, category) <= 145
    ensures InitialPopularity(content, category) ==
            if RawPopularity(content, category) > 100 then 100 else RawPopularity(content, category)
  {
  }

  /** A text holding all seven boost keywords. */
  const AllBoostKeywords: string :=
    "first" + ("largest" + ("smallest" + ("only" + ("unique" + ("discovered" + "mystery")))))

  /** When every keyword occurs, every keyword is counted. */
  lemma {:induction false} CountPresentAllFound(keywords: seq<string>, text: string)
    requires forall k :: 0 <= k < |keywords| ==> Contains(text, keywords[k])
    ensures CountPresent(keywords, text) == |keywords|
  {
    if keywords != [] {
      CountPresentAllFound(keywords[..|keywords| - 1], text);
    }
  }

  /** `AllBoostKeywords` is already lower-case. */
  lemma AllBoostKeywordsIsLowerCase()
    ensures Lower(AllBoostKeywords) == AllBoostKeywords
  {
    assert forall i :: 0 <= i < |AllBoostKeywords| ==> 'a' <= AllBoostKeywords[i] <= 'z';
  }

  /** `AllBoostKeywords` holds each boost keyword. */
  lemma AllBoostKeywordsHoldsEach()
    ensures forall k :: 0 <= k < |BoostKeywords| ==> Contains(AllBoostKeywords, BoostKeywords[k])
  {
    var r6 := "mystery";
    var r5 := "discovered" + r6;
    var r4 := "unique" + r5;
    var r3 := "only" + r4;
    var r2 := "smallest" + r3;
    var r1 := "largest" + r2;
    var text := "first" + r1;
    assert text == AllBoostKeywords;
    assert Contains(r6, "mystery") && Contains(r5, "discovered") && Contains(r4, "unique");
    assert Contains(r3, "only") && Contains(r2, "smallest") && Contains(r1, "largest");
    assert Contains(text, "first");
    forall n | Contains(r6, n) ensures Contains(r5, n) { ContainsExtend("discovered", r6, n); }
    forall n | Contains(r5, n) ensures Contains(r4, n) { ContainsExtend("unique", r5, n); }
    forall n | Contains(r4, n) ensures Contains(r3, n) { ContainsExtend("only", r4, n); }
    forall n | Contains(r3, n) ensures Contains(r2, n) { ContainsExtend("smallest", r3, n); }
    forall n | Contains(r2, n) ensures Contains(r1, n) { ContainsExtend("largest", r2, n); }
    forall n | Contains(r1, n) ensures Contains(text, n) { ContainsExtend("first", r1, n); }
  }

  /** The upper clamp is reached: a technology text holding every boost keyword scores 145 before clamping. */
  lemma RawPopularityReaches145()
    ensures RawPopularity(AllBoostKeywords, "technology") == 145
    ensures InitialPopularity(AllBoostKeywords, "technology") == 100
  {
    AllBoostKeywordsIsLowerCase();
    AllBoostKeywordsHoldsEach();
    CountPresentAllFound(BoostKeywords, AllBoostKeywords);
  }

  // ---------------------------------------------------------------- reading time

  /** Python's `round(n / d)` for a non-negative ratio: the nearest integer, ties to the even one. */
  function RoundHalfEven(n: nat, d: nat): (r: nat)
    requires d > 0
    ensures 2 * (n - r * d) <= d && 2 * (r * d - n) <= d
  {
    var q, rem := n / d, n % d;
    assert n == q * d + rem;
    assert (q + 1) * d == q * d + d;
    if 2 * rem < d then q
    else if 2 * rem > d then q + 1
    else if q % 2 == 0 then q else q + 1
  }

  /** `min(max(1, round(words / 225)), 15)`. */
  function ReadingMinutes(words: nat): (m: int)
    ensures 1 <= m <= 15
  {
    var rounded := RoundHalfEven(words, 225);
    var atLeastOne := if rounded < 1 then 1 else rounded;
    if atLeastOne > 15 then 15 else atLeastOne
  }

  /** `calculate_reading_time`: reading minutes for the number of words `content.split()` finds. */
  function CalculateReadingTime(content: string): (m: int)
    ensures 1 <= m <= 15
  {
    ReadingMinutes(|Split(content)|)
  }

  /** A whole number of words over 225 never lies half-way, so rounding is `floor((2w + 225) / 450)`. */
  lemma RoundingNeverTies(w: nat)
    ensures RoundHalfEven(w, 225) == (2 * w + 225) / 450
  {
    var q, rem := w / 225, w % 225;
    assert w == 225 * q + rem;
    assert 2 * rem != 225;
    if 2 * rem < 225 {
      assert 2 * w + 225 == 450 * q + (2 * rem + 225);
      assert 0 <= 2 * rem + 225 < 450;
    } else {
      assert 2 * w + 225 == 450 * (q + 1) + (2 * rem - 225);
      assert 0 <= 2 * rem - 225 < 450;
    }
  }

  lemma DivMonotone(a: int, b: int)
    requires 0 <= a <= b
    ensures a / 450 <= b / 450
  {
  }

  /** More words never mean fewer minutes. */
  lemma ReadingMinutesMonotone(w1: nat, w2: nat)
    requires w1 <= w2
    ensures ReadingMinutes(w1) <= ReadingMinutes(w2)
  {
    RoundingNeverTies(w1);
    RoundingNeverTies(w2);
    DivMonotone(2 * w1 + 225, 2 * w2 + 225);
  }

  /** Where the clamps bite: one minute up to 337 words, fifteen from 3263 words on. */
  lemma ReadingMinutesThresholds(w: nat)
    ensures ReadingMinutes(w) == 1 <==> w <= 337
    ensures ReadingMinutes(w) == 15 <==> w >= 3263
  {
    RoundingNeverTies(w);
    if w <= 337 {
      DivMonotone(2 * w + 225, 899);
    } else {
      DivMonotone(900, 2 * w + 225);
    }
    if w >= 3263 {
      DivMonotone(6751, 2 * w + 225);
    } else {
      DivMonotone(2 * w + 225, 6749);
    }
  }

  // ---------------------------------------------------------------- key words

  const StopWords: seq<string> := ["is", "was", "are", "were", "the", "a", "an"]

  /** A word `extract_key_words` keeps: not a stop word (case-insensitively), longer than 5, alphabetic. */
  predicate IsKeyWord(w: string) {
    Lower(w) !in StopWords && |w| > 5 && IsAlpha(w)
  }

  /** The stop-list test never decides anything: every stop word is too short to qualify anyway. */
  lemma StopListIsRedundant(w: string)
    ensures IsKeyWord(w) <==> |w| > 5 && IsAlpha(w)
  {
  }

  /** The words that qualify, in their original order: every kept word qualifies, and every qualifying word is kept. */
  function Qualifying(words: seq<string>): (r: seq<string>)
    ensures forall k :: 0 <= k < |r| ==> IsKeyWord(r[k])
    ensures forall k :: 0 <= k < |words| && IsKeyWord(words[k]) ==> words[k] in r
  {
    if words == [] then []
    else
      assert forall k :: 0 < k < |words| ==> words[k] == words[1..][k - 1];
      (if IsKeyWord(words[0]) then [words[0]] else []) + Qualifying(words[1..])
  }

  lemma {:induction false} QualifyingAppend(a: seq<string>, b: seq<string>)
    ensures Qualifying(a + b) == Qualifying(a) + Qualifying(b)
    decreases |a|
  {
    if a != [] {
      assert (a + b)[1..] == a[1..] + b;
      QualifyingAppend(a[1..], b);
    } else {
      assert a + b == b;
    }
  }

  lemma {:induction false} QualifyingIsSubseq(words: seq<string>)
    ensures IsSubseq(Qualifying(words), words)
    decreases |words|
  {
    if words != [] {
      QualifyingIsSubseq(words[1..]);
      if IsKeyWord(words[0]) {
        assert Qualifying(words) == [words[0]] + Qualifying(words[1..]);
        SubseqKeep(words[0], Qualifying(words[1..]), words[1..]);
      } else {
        assert Qualifying(words) == Qualifying(words[1..]);
        SubseqCons(Qualifying(words[1..]), words[0], words[1..]);
      }
      assert words == [words[0]] + words[1..];
    }
  }

  /** `extract_key_words`: the first five qualifying words of `content.split()`. */
  function KeyWords(content: string): seq<string> {
    PyPrefix(Qualifying(Split(content)), 5)
  }

  /** `extract_key_words` as written: a loop that collects the qualifying words, then keeps five. */
  method ExtractKeyWords(content: string) returns (keyWords: seq<string>)
    ensures keyWords == KeyWords(content)
    ensures |keyWords| <= 5
    ensures forall k :: 0 <= k < |keyWords| ==> IsKeyWord(keyWords[k])
  {
    var words := Split(content);
    var found: seq<string> := [];
    for i := 0 to |words|
      invariant found == Qualifying(words[..i])
    {
      assert words[..i + 1] == words[..i] + [words[i]];
      QualifyingAppend(words[..i], [words[i]]);
      assert Qualifying([words[i]]) == if IsKeyWord(words[i]) then [words[i]] else [];
      if Lower(words[i]) in StopWords {
        continue;
      }
      if |words[i]| > 5 && IsAlpha(words[i]) {
        found := found + [words[i]];
      }
    }
    assert words[..|words|] == words;
    keyWords := PyPrefix(found, 5);
  }

  /**
   * The key words are the first qualifying words of the split content, in order: a subsequence
   * of the words, at most five, and all of the qualifying ones when fewer than five qualify.
   */
  lemma KeyWordsAreFirstQualifying(content: string)
    ensures IsSubseq(KeyWords(content), Split(content))
    ensures |KeyWords(content)| == if |Qualifying(Split(content))| < 5 then |Qualifying(Split(content))| else 5
    ensures |Qualifying(Split(content))| <= 5 ==> KeyWords(content) == Qualifying(Split(content))
    ensures forall w :: w in KeyWords(content) ==> w in Split(content) && |w| > 5 && IsAlpha(w)
  {
    var q := Qualifying(Split(content));
    QualifyingIsSubseq(Split(content));
    PrefixIsSubseq(KeyWords(content), q);
    SubseqTrans(KeyWords(content), q, Split(content));
    SubseqMembers(KeyWords(content), Split(content));
  }
}
