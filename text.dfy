/**
 * The Python string built-ins the scraper leans on, over `string` (= `seq<char>`):
 * whitespace, lower-casing, alphabetic test, substring test, `str.replace(pat, '')`,
 * `str.split()` without arguments and `str.strip()`.
 */
module Text {
  import opened Seqs

  /**
   * The characters for which Python's `str.isspace()` holds. The same set is what
   * `\s` matches in a `str` pattern and what `str.split()` and `str.strip()` treat
   * as whitespace.
   */
  predicate IsSpace(c: char) {
    || c == ' '
    || ('\t' <= c <= '\r')
    || ('\U{1C}' <= c <= '\U{1F}')
    || c == '\U{85}' || c == '\U{A0}' || c == '\U{1680}'
    || ('\U{2000}' <= c <= '\U{200A}')
    || c == '\U{2028}' || c == '\U{2029}' || c == '\U{202F}' || c == '\U{205F}' || c == '\U{3000}'
  }

  predicate NoSpaceIn(s: string) {
    forall i :: 0 <= i < |s| ==> !IsSpace(s[i])
  }

  function LowerChar(c: char): char {
    if 'A' <= c <= 'Z' then (c as int + 32) as char else c
  }

  /**
   * `str.lower()`, on the ASCII letters: no capital is left, every capital becomes its small
   * letter, and every other character stays where it was.
   */
  function Lower(s: string): (r: string)
    ensures |r| == |s|
    ensures forall i :: 0 <= i < |r| ==> !('A' <= r[i] <= 'Z')
    ensures forall i :: 0 <= i < |s| && 'A' <= s[i] <= 'Z' ==> r[i] as int == s[i] as int + 32
    ensures forall i :: 0 <= i < |s| && !('A' <= s[i] <= 'Z') ==> r[i] == s[i]
  {
    seq(|s|, i requires 0 <= i < |s| => LowerChar(s[i]))
  }

  /** Lower-casing twice is lower-casing once. */
  lemma LowerIdempotent(s: string)
    ensures Lower(Lower(s)) == Lower(s)
  {
  }

  predicate IsLetter(c: char) {
    'a' <= c <= 'z' || 'A' <= c <= 'Z'
  }

  /** `str.isalpha()`: non-empty and letters only. */
  predicate IsAlpha(w: string) {
    |w| > 0 && forall i :: 0 <= i < |w| ==> IsLetter(w[i])
  }

  /** Python's `needle in hay` on strings. */
  predicate Contains(hay: string, needle: string)
    ensures Contains(hay, needle) ==> |needle| <= |hay|
    decreases |hay|
  {
    needle <= hay || (|hay| > 0 && Contains(hay[1..], needle))
  }

  /** `needle` occurs in `hay` at offset `i`. */
  predicate OccursAt(hay: string, needle: string, i: int) {
    0 <= i <= |hay| - |needle| && hay[i..i + |needle|] == needle
  }

  /** An occurrence at offset `i` makes the substring test succeed. */
  lemma {:induction false} ContainsAt(hay: string, needle: string, i: int)
    requires OccursAt(hay, needle, i)
    ensures Contains(hay, needle)
    decreases i
  {
    if i == 0 {
      assert hay[..|needle|] == needle;
    } else {
      assert hay[1..][i - 1..i - 1 + |needle|] == hay[i..i + |needle|];
      ContainsAt(hay[1..], needle, i - 1);
    }
  }

  /** A successful substring test has an occurrence to show for it. */
  lemma {:induction false} OccurrenceOf(hay: string, needle: string) returns (i: int)
    requires Contains(hay, needle)
    ensures OccursAt(hay, needle, i)
    decreases |hay|
  {
    if needle <= hay {
      i := 0;
      assert hay[0..|needle|] == needle;
    } else {
      var j := OccurrenceOf(hay[1..], needle);
      i := j + 1;
      assert hay[i..i + |needle|] == hay[1..][j..j + |needle|];
    }
  }

  /** The recursive substring test agrees with "occurs at some offset", in both directions. */
  lemma ContainsIffOccurs(hay: string, needle: string)
    ensures Contains(hay, needle) <==> exists i :: OccursAt(hay, needle, i)
  {
    if Contains(hay, needle) {
      var i := OccurrenceOf(hay, needle);
    }
    if exists i :: OccursAt(hay, needle, i) {
      var i :| OccursAt(hay, needle, i);
      ContainsAt(hay, needle, i);
    }
  }

  /** A substring of `b` is a substring of any `a + b`. */
  lemma {:induction false} ContainsExtend(a: string, b: string, needle: string)
    requires Contains(b, needle)
    ensures Contains(a + b, needle)
    decreases |a|
  {
    if a != [] {
      ContainsExtend(a[1..], b, needle);
      assert (a + b)[1..] == a[1..] + b;
    } else {
      assert a + b == b;
    }
  }

  /**
   * `s.replace(pat, '')`: delete the non-overlapping occurrences of `pat`, scanning left to right.
   * Text without `pat` is returned as it is; otherwise at least one occurrence goes.
   */
  function ReplaceAll(s: string, pat: string): (r: string)
    requires pat != []
    ensures |r| <= |s|
    ensures !Contains(s, pat) ==> r == s
    ensures Contains(s, pat) ==> |r| + |pat| <= |s|
    decreases |s|
  {
    if |s| < |pat| then s
    else if pat <= s then ReplaceAll(s[|pat|..], pat)
    else [s[0]] + ReplaceAll(s[1..], pat)
  }

  /** Only whole occurrences are deleted: the characters removed are a multiple of `len(pat)`. */
  lemma {:induction false} ReplaceAllDeletesWholeOccurrences(s: string, pat: string)
    requires pat != []
    ensures (|s| - |ReplaceAll(s, pat)|) % |pat| == 0
    decreases |s|
  {
    if |s| >= |pat| {
      if pat <= s {
        ReplaceAllDeletesWholeOccurrences(s[|pat|..], pat);
        ModShift(|s[|pat|..]| - |ReplaceAll(s[|pat|..], pat)|, |pat|);
      } else {
        ReplaceAllDeletesWholeOccurrences(s[1..], pat);
      }
    }
  }

  /**
   * Deletion runs left to right without overlaps: when the first occurrence of `pat` starts right
   * after `a`, `a` is kept, that occurrence goes, and the rest is processed the same way.
   */
  lemma {:induction false} ReplaceAllFirstOccurrence(a: string, pat: string, b: string)
    requires pat != [] && !Contains(a + pat[..|pat| - 1], pat)
    ensures ReplaceAll(a + pat + b, pat) == a + ReplaceAll(b, pat)
    decreases |a|
  {
    var s := a + pat + b;
    if a == [] {
      assert pat <= s && s[|pat|..] == b;
    } else {
      var x := a + pat[..|pat| - 1];
      assert s[..|pat|] == x[..|pat|];
      assert !(pat <= s);
      assert x[1..] == a[1..] + pat[..|pat| - 1];
      assert s[1..] == a[1..] + pat + b;
      ReplaceAllFirstOccurrence(a[1..], pat, b);
      assert s[0] == a[0];
      assert [a[0]] + (a[1..] + ReplaceAll(b, pat)) == a + ReplaceAll(b, pat);
    }
  }

  /** Adding the modulus leaves the remainder as it was. */
  lemma ModShift(x: int, p: int)
    requires p > 0
    ensures (x + p) % p == x % p
  {
    var q, m := x / p, x % p;
    assert x == q * p + m;
    assert x + p == (q + 1) * p + m;
    ModUnique(x + p, p, q + 1, m);
  }

  /** Euclidean remainders are unique. */
  lemma ModUnique(a: int, p: int, q: int, m: int)
    requires p > 0 && 0 <= m < p && a == q * p + m
    ensures a % p == m
  {
    var q', m' := a / p, a % p;
    assert a == q' * p + m';
    assert (q' - q) * p == m - m';
    if q' > q {
      MulAtLeast(q' - q, p);
    } else if q' < q {
      MulAtLeast(q - q', p);
    }
  }

  /** A positive multiple of `p` is at least `p`. */
  lemma MulAtLeast(k: int, p: int)
    requires k >= 1 && p > 0
    ensures k * p >= p
  {
    assert k * p == (k - 1) * p + p;
    assert (k - 1) * p >= 0;
  }

  /** `str.replace(pat, '')` only deletes characters. */
  lemma {:induction false} ReplaceAllIsSubseq(s: string, pat: string)
    requires pat != []
    ensures IsSubseq(ReplaceAll(s, pat), s)
    decreases |s|
  {
    if |s| < |pat| {
      SubseqRefl(s);
    } else if pat <= s {
      ReplaceAllIsSubseq(s[|pat|..], pat);
      SubseqDropFront(ReplaceAll(s, pat), s, |pat|);
    } else {
      ReplaceAllIsSubseq(s[1..], pat);
      SubseqKeep(s[0], ReplaceAll(s[1..], pat), s[1..]);
      assert s == [s[0]] + s[1..];
    }
  }

  /**
   * `str.split()` without arguments, scanning left to right with `cur` the word being read:
   * runs of whitespace separate words, and no empty word is produced.
   */
  function SplitFrom(s: string, cur: string): (ws: seq<string>)
    requires NoSpaceIn(cur)
    ensures forall k :: 0 <= k < |ws| ==> ws[k] != [] && NoSpaceIn(ws[k])
    ensures cur == [] ==> 2 * |ws| <= |s| + 1
    ensures cur != [] ==> 2 * |ws| <= |s| + 2
    decreases |s|
  {
    if s == [] then (if cur == [] then [] else [cur])
    else if IsSpace(s[0]) then
      (if cur == [] then [] else [cur]) + SplitFrom(s[1..], [])
    else SplitFrom(s[1..], cur + [s[0]])
  }

  /** The words of `s`, as `s.split()` returns them; there are at most `(|s| + 1) / 2` of them. */
  function Split(s: string): (ws: seq<string>)
    ensures forall k :: 0 <= k < |ws| ==> ws[k] != [] && NoSpaceIn(ws[k])
    ensures |ws| <= (|s| + 1) / 2
  {
    SplitFrom(s, [])
  }

  /** The non-whitespace characters of `s`, in order. */
  function NonSpace(s: string): (r: string)
    ensures NoSpaceIn(r)
  {
    if s == [] then []
    else if IsSpace(s[0]) then NonSpace(s[1..])
    else [s[0]] + NonSpace(s[1..])
  }

  lemma ConcatCons(w: string, ws: seq<string>)
    ensures Concat([w] + ws) == w + Concat(ws)
    decreases |ws|
  {
    if ws != [] {
      var all := [w] + ws;
      assert all[..|all| - 1] == [w] + ws[..|ws| - 1];
      ConcatCons(w, ws[..|ws| - 1]);
    }
  }

  lemma {:induction false} SplitFromKeepsText(s: string, cur: string)
    requires NoSpaceIn(cur)
    ensures Concat(SplitFrom(s, cur)) == cur + NonSpace(s)
    decreases |s|
  {
    if s == [] {
      if cur != [] {
        assert [cur][..0] == [];
        assert Concat([cur]) == Concat([]) + cur;
      }
    } else if IsSpace(s[0]) {
      SplitFromKeepsText(s[1..], []);
      if cur != [] {
        ConcatCons(cur, SplitFrom(s[1..], []));
      } else {
        assert [] + SplitFrom(s[1..], []) == SplitFrom(s[1..], []);
      }
    } else {
      SplitFromKeepsText(s[1..], cur + [s[0]]);
    }
  }

  lemma {:induction false} SplitFromWord(w: string, cur: string)
    requires NoSpaceIn(w) && NoSpaceIn(cur) && cur + w != []
    ensures SplitFrom(w, cur) == [cur + w]
    decreases |w|
  {
    if w == [] {
      assert cur + w == cur;
    } else {
      assert cur + w == (cur + [w[0]]) + w[1..];
      SplitFromWord(w[1..], cur + [w[0]]);
    }
  }

  /** A single run of non-whitespace is one word. */
  lemma SplitWord(w: string)
    requires w != [] && NoSpaceIn(w)
    ensures Split(w) == [w]
  {
    SplitFromWord(w, []);
    assert [] + w == w;
  }

  lemma {:induction false} SplitFromAtSpace(a: string, c: char, b: string, cur: string)
    requires IsSpace(c) && NoSpaceIn(cur)
    ensures SplitFrom(a + [c] + b, cur) == SplitFrom(a, cur) + SplitFrom(b, [])
    decreases |a|
  {
    var s := a + [c] + b;
    if a == [] {
      assert s[0] == c && s[1..] == b;
    } else {
      assert s[0] == a[0] && s[1..] == a[1..] + [c] + b;
      if IsSpace(a[0]) {
        SplitFromAtSpace(a[1..], c, b, []);
      } else {
        SplitFromAtSpace(a[1..], c, b, cur + [a[0]]);
      }
    }
  }

  /** Words break exactly at whitespace: splitting at a whitespace character splits the word list. */
  lemma SplitAtSpace(a: string, c: char, b: string)
    requires IsSpace(c)
    ensures Split(a + [c] + b) == Split(a) + Split(b)
  {
    SplitFromAtSpace(a, c, b, []);
  }

  /** Splitting loses exactly the whitespace: the words, glued back together, are the other characters. */
  lemma SplitKeepsText(s: string)
    ensures Concat(Split(s)) == NonSpace(s)
  {
    SplitFromKeepsText(s, []);
  }

  /** `s.lstrip()`: the suffix of `s` left after its leading whitespace. */
  function DropLeadingSpaces(s: string): (r: string)
    ensures |r| <= |s| && r == s[|s| - |r|..]
    ensures forall k :: 0 <= k < |s| - |r| ==> IsSpace(s[k])
    ensures r == [] || !IsSpace(r[0])
    decreases |s|
  {
    if s != [] && IsSpace(s[0]) then DropLeadingSpaces(s[1..]) else s
  }

  /** The end of the whitespace run starting at `i`. */
  function SkipSpaces(s: string, i: nat): (r: nat)
    requires i <= |s|
    ensures i <= r <= |s|
    ensures forall k :: i <= k < r ==> IsSpace(s[k])
    ensures r < |s| ==> !IsSpace(s[r])
    decreases |s| - i
  {
    if i < |s| && IsSpace(s[i]) then SkipSpaces(s, i + 1) else i
  }

  /** The start of the whitespace run ending at `j`, not going below `lo`. */
  function SkipSpacesBack(s: string, lo: nat, j: nat): (r: nat)
    requires lo <= j <= |s|
    ensures lo <= r <= j
    ensures forall k :: r <= k < j ==> IsSpace(s[k])
    ensures r > lo ==> !IsSpace(s[r - 1])
    decreases j
  {
    if j > lo && IsSpace(s[j - 1]) then SkipSpacesBack(s, lo, j - 1) else j
  }

  /** `r` is the slice of `s` at offset `i`, and everything of `s` outside it is whitespace. */
  predicate TrimmedAt(s: string, r: string, i: int) {
    && OccursAt(s, r, i)
    && (forall k :: 0 <= k < i ==> IsSpace(s[k]))
    && (forall k :: i + |r| <= k < |s| ==> IsSpace(s[k]))
  }

  /** `s.strip()`: no whitespace left at either end. */
  function Strip(s: string): (r: string)
    ensures |r| <= |s|
    ensures r == [] || (!IsSpace(r[0]) && !IsSpace(r[|r| - 1]))
  {
    var lo := SkipSpaces(s, 0);
    s[lo..SkipSpacesBack(s, lo, |s|)]
  }

  /** `strip()` cuts only whitespace: the result is the slice of `s` after its leading whitespace. */
  lemma StripTrims(s: string)
    ensures TrimmedAt(s, Strip(s), SkipSpaces(s, 0))
  {
    var lo := SkipSpaces(s, 0);
    var hi := SkipSpacesBack(s, lo, |s|);
    assert Strip(s) == s[lo..hi];
  }

  /** Text with no whitespace at either end is left alone by `strip()`. */
  lemma StripKeepsTrimmed(s: string)
    requires s == [] || (!IsSpace(s[0]) && !IsSpace(s[|s| - 1]))
    ensures Strip(s) == s
  {
    assert SkipSpaces(s, 0) == 0;
    assert SkipSpacesBack(s, 0, |s|) == |s|;
    assert s[0..|s|] == s;
  }

  /** A needle holding a character the haystack lacks is not in the haystack. */
  lemma MissingCharNotContained(hay: string, needle: string, c: char)
    requires c in needle && c !in hay
    ensures !Contains(hay, needle)
  {
    if Contains(hay, needle) {
      var i := OccurrenceOf(hay, needle);
    }
  }

  lemma StripIsSubseq(s: string)
    ensures IsSubseq(Strip(s), s)
  {
    var r := Strip(s);
    var i := SkipSpaces(s, 0);
    StripTrims(s);
    assert r <= s[i..];
    PrefixIsSubseq(r, s[i..]);
    SubseqDropFront(r, s, i);
  }
}
