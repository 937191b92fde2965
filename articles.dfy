/**
 * `get_wikipedia_articles` (scripts/wikipedia_scraper.py:158-180): merge the search results of a
 * category's first topics into a duplicate-free, capped list of article titles.
 * `wikipedia.search` is a parameter: `search(topic)` is `Some(results)`, or `None` when the call raised.
 */
module Articles {
  import opened Wrappers
  import opened Seqs
  import opened Categories

  /** The results each topic's search gave, in topic order; a search that raised gave nothing. */
  function SearchHits(topics: seq<string>, search: string -> Option<seq<string>>): (hits: seq<seq<string>>)
    ensures |hits| == |topics|
  {
    seq(|topics|, i requires 0 <= i < |topics| => search(topics[i]).GetOr([]))
  }

  /** Reference definition: the first `maxArticles` distinct titles, in the order they were first seen. */
  function FirstDistinct(titles: seq<string>, maxArticles: int): seq<string> {
    Take(Dedup(titles), maxArticles)
  }

  /**
   * The merged list has no duplicates, respects the cap, holds only titles that were found, and
   * holds every title found whenever the cap was not reached.
   */
  lemma FirstDistinctProperties(titles: seq<string>, maxArticles: int)
    ensures NoDup(FirstDistinct(titles, maxArticles))
    ensures |FirstDistinct(titles, maxArticles)| <= if maxArticles < 0 then 0 else maxArticles
    ensures forall k :: 0 <= k < |FirstDistinct(titles, maxArticles)| ==> FirstDistinct(titles, maxArticles)[k] in titles
    ensures |FirstDistinct(titles, maxArticles)| < maxArticles ==>
              forall k :: 0 <= k < |titles| ==> titles[k] in FirstDistinct(titles, maxArticles)
  {
    var d := Dedup(titles);
    var r := FirstDistinct(titles, maxArticles);
    DedupMembers(titles);
    assert forall k :: 0 <= k < |r| ==> r[k] == d[k];
  }

  /** The titles keep the order of their first appearance in the search results. */
  lemma FirstDistinctKeepsFirstSeenOrder(titles: seq<string>, maxArticles: int, i: nat, j: nat)
    requires i < j < |FirstDistinct(titles, maxArticles)|
    ensures FirstDistinct(titles, maxArticles)[i] in titles && FirstDistinct(titles, maxArticles)[j] in titles
    ensures FirstIndex(titles, FirstDistinct(titles, maxArticles)[i]) <
            FirstIndex(titles, FirstDistinct(titles, maxArticles)[j])
  {
    DedupFirstSeenOrder(titles, i, j);
  }

  /** One more search result: it is appended exactly when it is new and the list is not full. */
  lemma FirstDistinctStep(titles: seq<string>, t: string, maxArticles: int)
    ensures FirstDistinct(titles + [t], maxArticles) ==
            if t !in FirstDistinct(titles, maxArticles) && |FirstDistinct(titles, maxArticles)| < maxArticles
            then FirstDistinct(titles, maxArticles) + [t]
            else FirstDistinct(titles, maxArticles)
  {
    var all := titles + [t];
    assert all[..|all| - 1] == titles;
    var d := Dedup(titles);
    DedupMembers(titles);
    if |d| < maxArticles {
      assert FirstDistinct(titles, maxArticles) == d;
    } else if t !in d {
      assert Dedup(all) == d + [t];
      assert Take(d + [t], maxArticles) == Take(d, maxArticles);
    }
  }

  /** The titles the merge loop collects from the searches of `topics`. */
  function MergedTitles(topics: seq<string>, maxArticles: int, search: string -> Option<seq<string>>): seq<string> {
    FirstDistinct(Concat(SearchHits(topics, search)), maxArticles)
  }

  /** What `get_wikipedia_articles(category, max_articles)` returns. */
  function ArticlesFor(category: string, maxArticles: int, search: string -> Option<seq<string>>): seq<string> {
    MergedTitles(PyPrefix(Topics(category), maxArticles), maxArticles, search)
  }

  /**
   * `get_wikipedia_articles`: search the category's first `max_articles` topics and merge the
   * results, then cut the list to `max_articles`. The result is duplicate-free and within the cap.
   */
  method GetWikipediaArticles(category: string, maxArticles: int, search: string -> Option<seq<string>>)
    returns (articles: seq<string>)
    ensures articles == ArticlesFor(category, maxArticles, search)
    ensures NoDup(articles)
    ensures |articles| <= if maxArticles < 0 then 0 else maxArticles
  {
    var topics := PyPrefix(Topics(category), maxArticles);
    articles := MergeSearchResults(topics, maxArticles, search);
    FirstDistinctProperties(Concat(SearchHits(topics, search)), maxArticles);
    PyPrefixOfShort(articles, maxArticles);
    articles := PyPrefix(articles, maxArticles);
  }

  /**
   * The outer merge loop of `get_wikipedia_articles`: search each topic in turn and merge its
   * results; a search that raised is skipped.
   */
  method MergeSearchResults(topics: seq<string>, maxArticles: int, search: string -> Option<seq<string>>)
    returns (articles: seq<string>)
    ensures articles == MergedTitles(topics, maxArticles, search)
  {
    ghost var hits := SearchHits(topics, search);
    articles := [];
    for t := 0 to |topics|
      invariant articles == FirstDistinct(Concat(hits[..t]), maxArticles)
    {
      ghost var seen := Concat(hits[..t]);
      var found := search(topics[t]);
      if found.Some? {
        var results := found.value;
        articles := AppendNewResults(articles, results, maxArticles, seen);
        assert seen + results == Concat(hits[..t + 1]) by {
          assert hits[t] == found.GetOr([]) == results;
          ConcatSnoc(hits, t);
        }
      } else {
        assert seen == Concat(hits[..t + 1]) by {
          assert hits[t] == found.GetOr([]) == [];
          ConcatSnoc(hits, t);
        }
      }
    }
    assert hits[..|topics|] == hits;
  }

  /**
   * The inner merge loop of `get_wikipedia_articles`: append each search result that is not yet
   * listed while the list is below the cap. Merging into the list built from `seen` gives the
   * list built from `seen + results`.
   */
  method AppendNewResults(articles: seq<string>, results: seq<string>, maxArticles: int, ghost seen: seq<string>)
    returns (merged: seq<string>)
    requires articles == FirstDistinct(seen, maxArticles)
    ensures merged == FirstDistinct(seen + results, maxArticles)
  {
    merged := articles;
    assert seen + results[..0] == seen;
    for k := 0 to |results|
      invariant merged == FirstDistinct(seen + results[..k], maxArticles)
    {
      var title := results[k];
      FirstDistinctStep(seen + results[..k], title, maxArticles);
      assert seen + results[..k + 1] == (seen + results[..k]) + [title];
      if title !in merged && |merged| < maxArticles {
        merged := merged + [title];
      }
    }
    assert results[..|results|] == results;
  }
}
