/**
 * `clean_content` (scripts/wikipedia_scraper.py:314-327): a chain of whole-string rewrites,
 * each regular expression written as a left-to-right scanner.
 */
module Cleaning {
  import opened Wrappers
  import opened Seqs
  import opened Text

  /** `re.sub(r'\s+', ' ', s)`: every maximal run of whitespace becomes a single space. */
  function CollapseWhitespace(s: string): (r: string)
    ensures |r| <= |s|
    ensures s == [] <==> r == []
    ensures s != [] ==> r[0] == if IsSpace(s[0]) then ' ' else s[0]
    decreases |s|
  {
    if s == [] then []
    else if IsSpace(s[0]) then [' '] + CollapseWhitespace(DropLeadingSpaces(s[1..]))
    else [s[0]] + CollapseWhitespace(s[1..])
  }

  /** The last character likewise: trailing whitespace becomes one space, anything else is kept. */
  lemma {:induction false} CollapseKeepsLast(s: string)
    requires s != []
    ensures CollapseWhitespace(s) != []
    ensures CollapseWhitespace(s)[|CollapseWhitespace(s)| - 1] == if IsSpace(s[|s| - 1]) then ' ' else s[|s| - 1]
    decreases |s|
  {
    var last := s[|s| - 1];
    if IsSpace(s[0]) {
      var rest := DropLeadingSpaces(s[1..]);
      if rest == [] {
        if |s| > 1 {
          assert IsSpace(s[1..][|s| - 2]);
        }
      } else {
        assert rest[|rest| - 1] == last;
        CollapseKeepsLast(rest);
      }
    } else if |s| > 1 {
      assert s[1..][|s| - 2] == last;
      CollapseKeepsLast(s[1..]);
    }
  }

  /** The collapsed text's only whitespace is single plain spaces. */
  lemma CollapsedSpacing(s: string)
    ensures forall i :: 0 <= i < |CollapseWhitespace(s)| && IsSpace(CollapseWhitespace(s)[i]) ==>
              CollapseWhitespace(s)[i] == ' '
    ensures forall i :: 0 <= i < |CollapseWhitespace(s)| - 1 ==>
              !(IsSpace(CollapseWhitespace(s)[i]) && IsSpace(CollapseWhitespace(s)[i + 1]))
  {
    CollapsedPlainSpaces(s);
    CollapsedSingleSpaces(s);
  }

  lemma {:induction false} CollapsedPlainSpaces(s: string)
    ensures forall i :: 0 <= i < |CollapseWhitespace(s)| && IsSpace(CollapseWhitespace(s)[i]) ==>
              CollapseWhitespace(s)[i] == ' '
    decreases |s|
  {
    if s != [] {
      var r := CollapseWhitespace(s);
      var rest := if IsSpace(s[0]) then DropLeadingSpaces(s[1..]) else s[1..];
      var tail := CollapseWhitespace(rest);
      assert r == [r[0]] + tail;
      CollapsedPlainSpaces(rest);
      forall i | 0 < i < |r| && IsSpace(r[i])
        ensures r[i] == ' '
      {
        assert r[i] == tail[i - 1];
      }
    }
  }

  lemma {:induction false} CollapsedSingleSpaces(s: string)
    ensures forall i :: 0 <= i < |CollapseWhitespace(s)| - 1 ==>
              !(IsSpace(CollapseWhitespace(s)[i]) && IsSpace(CollapseWhitespace(s)[i + 1]))
    decreases |s|
  {
    if s != [] {
      var r := CollapseWhitespace(s);
      var rest := if IsSpace(s[0]) then DropLeadingSpaces(s[1..]) else s[1..];
      var tail := CollapseWhitespace(rest);
      assert r == [r[0]] + tail;
      CollapsedSingleSpaces(rest);
      forall i | 0 <= i < |r| - 1
        ensures !(IsSpace(r[i]) && IsSpace(r[i + 1]))
      {
        if i > 0 {
          assert r[i] == tail[i - 1] && r[i + 1] == tail[i];
        } else {
          assert r[1] == tail[0];
        }
      }
    }
  }

  lemma {:induction false} SplitFromSkipsLeadingSpaces(s: string)
    ensures SplitFrom(DropLeadingSpaces(s), []) == SplitFrom(s, [])
    decreases |s|
  {
    if s != [] && IsSpace(s[0]) {
      SplitFromSkipsLeadingSpaces(s[1..]);
    }
  }

  lemma {:induction false} CollapseKeepsWordsFrom(s: string, cur: string)
    requires NoSpaceIn(cur)
    ensures SplitFrom(CollapseWhitespace(s), cur) == SplitFrom(s, cur)
    decreases |s|
  {
    if s != [] {
      var r := CollapseWhitespace(s);
      if IsSpace(s[0]) {
        var rest := DropLeadingSpaces(s[1..]);
        assert r[0] == ' ' && r[1..] == CollapseWhitespace(rest);
        CollapseKeepsWordsFrom(rest, []);
        SplitFromSkipsLeadingSpaces(s[1..]);
      } else {
        assert r[0] == s[0] && r[1..] == CollapseWhitespace(s[1..]);
        CollapseKeepsWordsFrom(s[1..], cur + [s[0]]);
      }
    }
  }

  /** Collapsing whitespace never changes the words `str.split()` finds. */
  lemma CollapseKeepsWords(s: string)
    ensures Split(CollapseWhitespace(s)) == Split(s)
  {
    CollapseKeepsWordsFrom(s, []);
  }

  /**
   * The end of the lazy match `.*?` followed by `close`, started at `i`: the index of the first
   * `close` from `i` on, unless a line break (which `.` does not match) comes first.
   */
  function SpanEnd(s: string, i: nat, close: char): (r: Option<nat>)
    requires i <= |s| && close != '\n'
    ensures r.Some? ==> i <= r.value < |s| && s[r.value] == close
    ensures r.Some? ==> close !in s[i..r.value] && '\n' !in s[i..r.value]
    ensures r.None? ==> forall k :: i <= k < |s| && s[k] == close ==> '\n' in s[i..k]
    ensures r.None? && '\n' !in s[i..] ==> close !in s[i..]
    decreases |s| - i
  {
    if i == |s| then None
    else if s[i] == close then Some(i)
    else if s[i] == '\n' then
      assert forall k :: i < k <= |s| ==> s[i..k][0] == '\n';
      None
    else
      var r := SpanEnd(s, i + 1, close);
      assert s[i..] == [s[i]] + s[i + 1..];
      assert r.Some? ==> s[i..r.value] == [s[i]] + s[i + 1..r.value];
      assert forall k :: i < k <= |s| ==> s[i..k] == [s[i]] + s[i + 1..k];
      r
  }

  /**
   * `re.sub(r'\[.*?\]', '', s)` (or with parentheses): scanning left to right, each `open` that
   * starts a match is deleted together with everything up to and including the first `close`
   * after it; an `open` with no such `close` is kept.
   */
  function RemoveSpans(s: string, open: char, close: char): (r: string)
    requires close != '\n'
    ensures |r| <= |s|
    ensures open !in s ==> r == s
    ensures open in s ==> s[..FirstIndex(s, open)] <= r
    decreases |s|
  {
    if s == [] then []
    else if s[0] == open && SpanEnd(s, 1, close).Some? then
      RemoveSpans(s[SpanEnd(s, 1, close).value + 1..], open, close)
    else
      assert open !in s ==> open !in s[1..];
      assert s[0] != open ==> (open in s ==> open in s[1..]);
      [s[0]] + RemoveSpans(s[1..], open, close)
  }

  /** The lazy match ends at the first `close`, when no line break comes before it. */
  lemma {:induction false} SpanEndAtFirstClose(s: string, i: nat, j: nat, close: char)
    requires close != '\n' && i <= j < |s| && s[j] == close
    requires forall k :: i <= k < j ==> s[k] != close && s[k] != '\n'
    ensures SpanEnd(s, i, close) == Some(j)
    decreases j - i
  {
    if i < j {
      SpanEndAtFirstClose(s, i + 1, j, close);
    }
  }

  /** A first character other than `open` is kept. */
  lemma RemoveSpansKeepsHead(s: string, open: char, close: char)
    requires close != '\n' && s != [] && s[0] != open
    ensures RemoveSpans(s, open, close) == [s[0]] + RemoveSpans(s[1..], open, close)
  {
  }

  /** Text before the first `open` is kept as it is, and the rest is processed on its own. */
  lemma {:induction false} RemoveSpansKeepsPlainPrefix(a: string, b: string, open: char, close: char)
    requires close != '\n' && open !in a
    ensures RemoveSpans(a + b, open, close) == a + RemoveSpans(b, open, close)
    decreases |a|
  {
    if a == [] {
      assert a + b == b;
    } else {
      var rest := RemoveSpans(b, open, close);
      calc {
        RemoveSpans(a + b, open, close);
        { RemoveSpansKeepsHead(a + b, open, close); assert (a + b)[1..] == a[1..] + b; }
        [a[0]] + RemoveSpans(a[1..] + b, open, close);
        { RemoveSpansKeepsPlainPrefix(a[1..], b, open, close); }
        [a[0]] + (a[1..] + rest);
        { assert a == [a[0]] + a[1..]; }
        a + rest;
      }
    }
  }

  /** A complete span on one line is deleted, and scanning goes on right after its `close`. */
  lemma RemoveSpansDropsSpan(m: string, b: string, open: char, close: char)
    requires close != '\n' && close !in m && '\n' !in m
    ensures RemoveSpans([open] + m + [close] + b, open, close) == RemoveSpans(b, open, close)
  {
    var s := [open] + m + [close] + b;
    assert forall k :: 1 <= k < |m| + 1 ==> s[k] == m[k - 1];
    SpanEndAtFirstClose(s, 1, |m| + 1, close);
    assert s[|m| + 2..] == b;
  }

  /** An `open` with no `close` after it on its line is kept, and scanning goes on after it. */
  lemma RemoveSpansKeepsUnmatchedOpen(b: string, open: char, close: char)
    requires close != '\n'
    requires forall k :: 0 <= k < |b| && b[k] == close ==> '\n' in b[..k]
    ensures RemoveSpans([open] + b, open, close) == [open] + RemoveSpans(b, open, close)
  {
    var s := [open] + b;
    assert s[1..] == b;
    assert forall k :: 1 <= k < |s| ==> s[k] == b[k - 1] && s[1..k] == b[..k - 1];
  }

  /** No `open` in `s` is followed, anywhere later, by a `close`: no span is left to delete. */
  predicate NoSpan(s: string, open: char, close: char)
    decreases |s|
  {
    s == [] || ((s[0] == open ==> close !in s[1..]) && NoSpan(s[1..], open, close))
  }

  lemma {:induction false} NoSpanSubseq(a: string, b: string, open: char, close: char)
    requires IsSubseq(a, b) && NoSpan(b, open, close)
    ensures NoSpan(a, open, close)
    decreases |b|
  {
    if a != [] {
      if a[0] == b[0] {
        NoSpanSubseq(a[1..], b[1..], open, close);
        SubseqMembers(a[1..], b[1..]);
      } else {
        NoSpanSubseq(a, b[1..], open, close);
      }
    }
  }

  lemma {:induction false} RemoveSpansIsSubseq(s: string, open: char, close: char)
    requires close != '\n'
    ensures IsSubseq(RemoveSpans(s, open, close), s)
    decreases |s|
  {
    if s != [] {
      if s[0] == open && SpanEnd(s, 1, close).Some? {
        var e := SpanEnd(s, 1, close).value + 1;
        RemoveSpansIsSubseq(s[e..], open, close);
        SubseqDropFront(RemoveSpans(s, open, close), s, e);
      } else {
        RemoveSpansIsSubseq(s[1..], open, close);
        SubseqKeep(s[0], RemoveSpans(s[1..], open, close), s[1..]);
        assert s == [s[0]] + s[1..];
      }
    }
  }

  /** On a single line, removing spans leaves no `open` that a later `close` could match. */
  lemma {:induction false} RemoveSpansLeavesNoSpan(s: string, open: char, close: char)
    requires close != '\n' && '\n' !in s
    ensures NoSpan(RemoveSpans(s, open, close), open, close)
    decreases |s|
  {
    if s != [] {
      var r := RemoveSpans(s, open, close);
      if s[0] == open && SpanEnd(s, 1, close).Some? {
        var e := SpanEnd(s, 1, close).value + 1;
        assert '\n' !in s[e..] by {
          forall k | 0 <= k < |s[e..]| ensures s[e..][k] != '\n' {
            assert s[e..][k] == s[e + k];
          }
        }
        RemoveSpansLeavesNoSpan(s[e..], open, close);
      } else {
        var tail := RemoveSpans(s[1..], open, close);
        assert '\n' !in s[1..];
        RemoveSpansLeavesNoSpan(s[1..], open, close);
        assert r == [s[0]] + tail && r[1..] == tail;
        if s[0] == open {
          assert s[1..] == s[1..][0..];
          RemoveSpansIsSubseq(s[1..], open, close);
          SubseqMembers(tail, s[1..]);
        }
      }
    }
  }

  /** After `s.replace('==', '')` no `==` is left. */
  lemma {:induction false} NoDoubleEqualsLeft(s: string)
    ensures !Contains(ReplaceAll(s, "=="), "==")
    decreases |s|
  {
    if |s| >= 2 {
      if "==" <= s {
        NoDoubleEqualsLeft(s[2..]);
      } else {
        var tail := ReplaceAll(s[1..], "==");
        NoDoubleEqualsLeft(s[1..]);
        assert ReplaceAll(s, "==") == [s[0]] + tail;
        if |s[1..]| >= 2 && !("==" <= s[1..]) {
          assert tail[0] == s[1];
        }
        assert ([s[0]] + tail)[1..] == tail;
      }
    }
  }

  /** Hence the `replace('===', '')` that follows it never finds anything to delete. */
  lemma TripleEqualsPassIsNoOp(s: string)
    ensures ReplaceAll(ReplaceAll(s, "=="), "===") == ReplaceAll(s, "==")
  {
    NoDoubleEqualsLeft(s);
  }

  /** The four `str.replace(..., '')` calls that drop wiki markup markers, in source order. */
  function DropMarkers(s: string): (r: string)
    ensures |r| <= |s|
  {
    ReplaceAll(ReplaceAll(ReplaceAll(ReplaceAll(s, "=="), "==="), "Category:"), "File:")
  }

  lemma DropMarkersIsSubseq(s: string)
    ensures IsSubseq(DropMarkers(s), s)
  {
    var s1 := ReplaceAll(s, "==");
    var s2 := ReplaceAll(s1, "===");
    var s3 := ReplaceAll(s2, "Category:");
    ReplaceAllIsSubseq(s, "==");
    ReplaceAllIsSubseq(s1, "===");
    ReplaceAllIsSubseq(s2, "Category:");
    ReplaceAllIsSubseq(s3, "File:");
    SubseqTrans(DropMarkers(s), s3, s2);
    SubseqTrans(DropMarkers(s), s2, s1);
    SubseqTrans(DropMarkers(s), s1, s);
  }

  /** The two span removals: citations `[...]`, then parenthetical notes `(...)`. */
  function DropSpans(s: string): (r: string)
    ensures |r| <= |s|
  {
    RemoveSpans(RemoveSpans(s, '[', ']'), '(', ')')
  }

  lemma DropSpansShape(s: string)
    requires '\n' !in s
    ensures IsSubseq(DropSpans(s), s)
    ensures NoSpan(DropSpans(s), '[', ']') && NoSpan(DropSpans(s), '(', ')')
  {
    var s1 := RemoveSpans(s, '[', ']');
    RemoveSpansIsSubseq(s, '[', ']');
    RemoveSpansIsSubseq(s1, '(', ')');
    SubseqTrans(DropSpans(s), s1, s);
    SubseqMembers(s1, s);
    RemoveSpansLeavesNoSpan(s, '[', ']');
    RemoveSpansLeavesNoSpan(s1, '(', ')');
    NoSpanSubseq(DropSpans(s), s1, '[', ']');
  }

  /** `clean_content`: collapse whitespace, drop `[...]` and `(...)`, drop wiki markers, strip. */
  function CleanContent(content: string): (r: string)
    ensures |r| <= |content|
    ensures r == [] || (!IsSpace(r[0]) && !IsSpace(r[|r| - 1]))
  {
    var collapsed := CollapseWhitespace(content);
    var spans := DropSpans(collapsed);
    var markers := DropMarkers(spans);
    assert |markers| <= |spans| <= |collapsed| <= |content|;
    Strip(markers)
  }

  /**
   * Text `clean_content` has nothing to do on: its whitespace is single plain spaces between other
   * characters, and it has no `[`, `(`, `=` or `:`.
   */
  predicate AlreadyClean(s: string) {
    && (s == [] || (!IsSpace(s[0]) && !IsSpace(s[|s| - 1])))
    && (forall i :: 0 <= i < |s| && IsSpace(s[i]) ==> s[i] == ' ')
    && (forall i :: 0 <= i < |s| - 1 ==> !(IsSpace(s[i]) && IsSpace(s[i + 1])))
    && '[' !in s && '(' !in s && '=' !in s && ':' !in s
  }

  /** Text whose whitespace is already single plain spaces is not changed by collapsing. */
  lemma {:induction false} CollapseKeepsSingleSpaces(s: string)
    requires forall i :: 0 <= i < |s| && IsSpace(s[i]) ==> s[i] == ' '
    requires forall i :: 0 <= i < |s| - 1 ==> !(IsSpace(s[i]) && IsSpace(s[i + 1]))
    ensures CollapseWhitespace(s) == s
    decreases |s|
  {
    if s != [] {
      var t := s[1..];
      assert forall i :: 0 <= i < |t| ==> t[i] == s[i + 1];
      CollapseKeepsSingleSpaces(t);
      if IsSpace(s[0]) {
        assert t != [] ==> !IsSpace(t[0]);
        assert DropLeadingSpaces(t) == t;
      }
      assert s == [s[0]] + t;
    }
  }

  /** `clean_content` returns already clean text unchanged. */
  lemma CleanContentKeepsCleanText(s: string)
    requires AlreadyClean(s)
    ensures CleanContent(s) == s
  {
    CollapseKeepsSingleSpaces(s);
    MissingCharNotContained(s, "==", '=');
    MissingCharNotContained(s, "===", '=');
    MissingCharNotContained(s, "Category:", ':');
    MissingCharNotContained(s, "File:", ':');
    StripKeepsTrimmed(s);
  }

  /**
   * What cleaning leaves is a selection, in order, of the characters of the whitespace-collapsed
   * input, and its only whitespace is the plain space.
   */
  lemma CleanContentIsSubseq(content: string)
    ensures IsSubseq(CleanContent(content), CollapseWhitespace(content))
    ensures forall c :: c in CleanContent(content) && IsSpace(c) ==> c == ' '
  {
    var collapsed := CollapseWhitespace(content);
    var spans := DropSpans(collapsed);
    var markers := DropMarkers(spans);
    var r := CleanContent(content);
    CollapsedSpacing(content);
    DropSpansShape(collapsed);
    DropMarkersIsSubseq(spans);
    StripIsSubseq(markers);
    SubseqTrans(r, markers, spans);
    SubseqTrans(r, spans, collapsed);
    SubseqMembers(r, collapsed);
  }

  /** No `[...]` or `(...)` span survives cleaning. */
  lemma CleanContentHasNoSpan(content: string)
    ensures NoSpan(CleanContent(content), '[', ']')
    ensures NoSpan(CleanContent(content), '(', ')')
  {
    var collapsed := CollapseWhitespace(content);
    var spans := DropSpans(collapsed);
    var markers := DropMarkers(spans);
    var r := CleanContent(content);
    CollapsedSpacing(content);
    assert '\n' !in collapsed;
    DropSpansShape(collapsed);
    DropMarkersIsSubseq(spans);
    StripIsSubseq(markers);
    SubseqTrans(r, markers, spans);
    NoSpanSubseq(r, spans, '[', ']');
    NoSpanSubseq(r, spans, '(', ')');
  }
}
