/**
 * The run counters of `WikipediaScraper` (scripts/wikipedia_scraper.py:64-71, 477-536).
 * Fact extraction and the DynamoDB save are external: `outcomes(category, article)` lists, one
 * entry per fact extracted from the article, whether its save succeeded.
 */
module Scraper {
  import opened Wrappers
  import opened Seqs
  import opened Categories
  import opened Articles

  /** Successful saves over the facts of `articles`, in article order. */
  function SavedFor(category: string, articles: seq<string>, outcomes: (string, string) -> seq<bool>): nat {
    if articles == [] then 0
    else
      SavedFor(category, articles[..|articles| - 1], outcomes)
        + CountTrue(outcomes(category, articles[|articles| - 1]))
  }

  /** Facts extracted from `articles`, each one processed once. */
  function ProcessedFor(category: string, articles: seq<string>, outcomes: (string, string) -> seq<bool>): nat {
    if articles == [] then 0
    else
      ProcessedFor(category, articles[..|articles| - 1], outcomes)
        + |outcomes(category, articles[|articles| - 1])|
  }

  /** Within one category, saves never outnumber processed facts. */
  lemma {:induction false} SavedForAtMostProcessedFor(category: string, articles: seq<string>,
                                                      outcomes: (string, string) -> seq<bool>)
    ensures SavedFor(category, articles, outcomes) <= ProcessedFor(category, articles, outcomes)
  {
    if articles != [] {
      SavedForAtMostProcessedFor(category, articles[..|articles| - 1], outcomes);
    }
  }

  /** What `scrape_category(category, max_articles)` returns. */
  function CategorySaved(category: string, maxArticles: int, search: string -> Option<seq<string>>,
                         outcomes: (string, string) -> seq<bool>): nat {
    SavedFor(category, ArticlesFor(category, maxArticles, search), outcomes)
  }

  /** How much `scrape_category(category, max_articles)` adds to `facts_processed`. */
  function CategoryProcessed(category: string, maxArticles: int, search: string -> Option<seq<string>>,
                             outcomes: (string, string) -> seq<bool>): nat {
    ProcessedFor(category, ArticlesFor(category, maxArticles, search), outcomes)
  }

  /** An unknown category has no topics, hence no articles and nothing saved or processed. */
  lemma UnknownCategoryYieldsNothing(category: string, maxArticles: int, search: string -> Option<seq<string>>,
                                     outcomes: (string, string) -> seq<bool>)
    requires !IsKnownCategory(category)
    ensures CategorySaved(category, maxArticles, search, outcomes) == 0
    ensures CategoryProcessed(category, maxArticles, search, outcomes) == 0
  {
    assert Topics(category) == [];
    assert PyPrefix(Topics(category), maxArticles) == [];
    assert ArticlesFor(category, maxArticles, search) == [];
  }

  /** The categories `run_scraper` walks: the given list, or every configured category when none is given. */
  function RunCategories(categories: Option<seq<string>>): seq<string> {
    categories.GetOr(CategoryNames)
  }

  /** What `run_scraper` returns: the per-category save counts summed over the known categories. */
  function RunSaved(categories: seq<string>, maxArticles: int, search: string -> Option<seq<string>>,
                    outcomes: (string, string) -> seq<bool>): nat {
    if categories == [] then 0
    else
      var last := categories[|categories| - 1];
      RunSaved(categories[..|categories| - 1], maxArticles, search, outcomes)
        + (if IsKnownCategory(last) then CategorySaved(last, maxArticles, search, outcomes) else 0)
  }

  /** How many facts `run_scraper` processes over the known categories. */
  function RunProcessed(categories: seq<string>, maxArticles: int, search: string -> Option<seq<string>>,
                        outcomes: (string, string) -> seq<bool>): nat {
    if categories == [] then 0
    else
      var last := categories[|categories| - 1];
      RunProcessed(categories[..|categories| - 1], maxArticles, search, outcomes)
        + (if IsKnownCategory(last) then CategoryProcessed(last, maxArticles, search, outcomes) else 0)
  }

  /** One more category adds its counts exactly when it is known. */
  lemma RunStep(categories: seq<string>, i: nat, maxArticles: int, search: string -> Option<seq<string>>,
                outcomes: (string, string) -> seq<bool>)
    requires i < |categories|
    ensures RunSaved(categories[..i + 1], maxArticles, search, outcomes) ==
            RunSaved(categories[..i], maxArticles, search, outcomes)
              + (if IsKnownCategory(categories[i]) then CategorySaved(categories[i], maxArticles, search, outcomes) else 0)
    ensures RunProcessed(categories[..i + 1], maxArticles, search, outcomes) ==
            RunProcessed(categories[..i], maxArticles, search, outcomes)
              + (if IsKnownCategory(categories[i]) then CategoryProcessed(categories[i], maxArticles, search, outcomes) else 0)
  {
    assert categories[..i + 1][..i] == categories[..i];
  }

  /** Reference definition: the save counts of every listed category, with no filtering. */
  function SavedOverAll(categories: seq<string>, maxArticles: int, search: string -> Option<seq<string>>,
                        outcomes: (string, string) -> seq<bool>): nat {
    if categories == [] then 0
    else
      SavedOverAll(categories[..|categories| - 1], maxArticles, search, outcomes)
        + CategorySaved(categories[|categories| - 1], maxArticles, search, outcomes)
  }

  /** Skipping unknown categories changes nothing: they would have saved no fact anyway. */
  lemma {:induction false} RunSavedIsSavedOverAll(categories: seq<string>, maxArticles: int,
                                                  search: string -> Option<seq<string>>,
                                                  outcomes: (string, string) -> seq<bool>)
    ensures RunSaved(categories, maxArticles, search, outcomes) == SavedOverAll(categories, maxArticles, search, outcomes)
  {
    if categories != [] {
      var last := categories[|categories| - 1];
      RunSavedIsSavedOverAll(categories[..|categories| - 1], maxArticles, search, outcomes);
      if !IsKnownCategory(last) {
        UnknownCategoryYieldsNothing(last, maxArticles, search, outcomes);
      }
    }
  }

  /** A run never saves more facts than it processes. */
  lemma {:induction false} RunSavedAtMostProcessed(categories: seq<string>, maxArticles: int,
                                                   search: string -> Option<seq<string>>,
                                                   outcomes: (string, string) -> seq<bool>)
    ensures RunSaved(categories, maxArticles, search, outcomes) <= RunProcessed(categories, maxArticles, search, outcomes)
  {
    if categories != [] {
      var last := categories[|categories| - 1];
      RunSavedAtMostProcessed(categories[..|categories| - 1], maxArticles, search, outcomes);
      SavedForAtMostProcessedFor(last, ArticlesFor(last, maxArticles, search), outcomes);
    }
  }

  class WikipediaScraper {
    var factsProcessed: nat
    var factsSaved: nat

    /** Only processed facts are saved. */
    ghost predicate Valid()
      reads this
    {
      factsSaved <= factsProcessed
    }

    constructor ()
      ensures factsProcessed == 0 && factsSaved == 0
      ensures Valid()
    {
      factsProcessed := 0;
      factsSaved := 0;
    }

    /**
     * `scrape_category`: walk the category's articles and their facts, counting every fact as
     * processed and every successful save as saved; return the saves of this call.
     */
    method ScrapeCategory(category: string, maxArticles: int, search: string -> Option<seq<string>>,
                          outcomes: (string, string) -> seq<bool>)
      returns (factsSavedHere: nat)
      requires Valid()
      modifies this
      ensures Valid()
      ensures factsSavedHere == CategorySaved(category, maxArticles, search, outcomes)
      ensures factsSaved == old(factsSaved) + factsSavedHere
      ensures factsProcessed == old(factsProcessed) + CategoryProcessed(category, maxArticles, search, outcomes)
    {
      var articles := GetWikipediaArticles(category, maxArticles, search);
      factsSavedHere := ProcessArticles(category, articles, outcomes);
      SavedForAtMostProcessedFor(category, articles, outcomes);
    }

    /**
     * The article loop of `scrape_category`: every extracted fact counts as processed, every
     * successful save as saved, both here and in the scraper's totals.
     */
    method ProcessArticles(category: string, articles: seq<string>, outcomes: (string, string) -> seq<bool>)
      returns (factsSavedHere: nat)
      modifies this
      ensures factsSavedHere == SavedFor(category, articles, outcomes)
      ensures factsSaved == old(factsSaved) + factsSavedHere
      ensures factsProcessed == old(factsProcessed) + ProcessedFor(category, articles, outcomes)
    {
      factsSavedHere := 0;
      for a := 0 to |articles|
        invariant factsSavedHere == SavedFor(category, articles[..a], outcomes)
        invariant factsSaved == old(factsSaved) + factsSavedHere
        invariant factsProcessed == old(factsProcessed) + ProcessedFor(category, articles[..a], outcomes)
      {
        assert articles[..a + 1][..a] == articles[..a];
        ghost var savedBefore, processedBefore := factsSavedHere, factsProcessed;
        var saves := outcomes(category, articles[a]);
        for f := 0 to |saves|
          invariant factsSavedHere == savedBefore + CountTrue(saves[..f])
          invariant factsSaved == old(factsSaved) + factsSavedHere
          invariant factsProcessed == processedBefore + f
        {
          CountTrueSnoc(saves, f);
          if saves[f] {
            factsSavedHere := factsSavedHere + 1;
            factsSaved := factsSaved + 1;
          }
          factsProcessed := factsProcessed + 1;
        }
        assert saves[..|saves|] == saves;
      }
      assert articles[..|articles|] == articles;
    }

    /**
     * `run_scraper`: scrape every known category of the list (all configured categories when no
     * list is given), skipping unknown ones, and return the total number of saved facts.
     */
    method RunScraper(categories: Option<seq<string>>, maxArticlesPerCategory: int,
                      search: string -> Option<seq<string>>, outcomes: (string, string) -> seq<bool>)
      returns (totalFacts: nat)
      requires Valid()
      modifies this
      ensures Valid()
      ensures totalFacts == RunSaved(RunCategories(categories), maxArticlesPerCategory, search, outcomes)
      ensures factsSaved == old(factsSaved) + totalFacts
      ensures factsProcessed ==
                old(factsProcessed) + RunProcessed(RunCategories(categories), maxArticlesPerCategory, search, outcomes)
    {
      var cats := if categories.None? then CategoryNames else categories.value;
      totalFacts := ScrapeCategories(cats, maxArticlesPerCategory, search, outcomes);
    }

    /** The loop of `run_scraper` over the chosen category names. */
    method ScrapeCategories(cats: seq<string>, maxArticlesPerCategory: int,
                            search: string -> Option<seq<string>>, outcomes: (string, string) -> seq<bool>)
      returns (totalFacts: nat)
      requires Valid()
      modifies this
      ensures Valid()
      ensures totalFacts == RunSaved(cats, maxArticlesPerCategory, search, outcomes)
      ensures factsSaved == old(factsSaved) + totalFacts
      ensures factsProcessed == old(factsProcessed) + RunProcessed(cats, maxArticlesPerCategory, search, outcomes)
    {
      totalFacts := 0;
      for i := 0 to |cats|
        invariant Valid()
        invariant totalFacts == RunSaved(cats[..i], maxArticlesPerCategory, search, outcomes)
        invariant factsSaved == old(factsSaved) + totalFacts
        invariant factsProcessed == old(factsProcessed) + RunProcessed(cats[..i], maxArticlesPerCategory, search, outcomes)
      {
        RunStep(cats, i, maxArticlesPerCategory, search, outcomes);
        var factsCount := ScrapeIfKnown(cats[i], maxArticlesPerCategory, search, outcomes);
        totalFacts := totalFacts + factsCount;
      }
      assert cats[..|cats|] == cats;
    }

    /** One pass of the `run_scraper` loop: an unknown category is skipped, a known one scraped. */
    method ScrapeIfKnown(category: string, maxArticles: int, search: string -> Option<seq<string>>,
                         outcomes: (string, string) -> seq<bool>)
      returns (factsCount: nat)
      requires Valid()
      modifies this
      ensures Valid()
      ensures factsCount == if IsKnownCategory(category) then CategorySaved(category, maxArticles, search, outcomes) else 0
      ensures factsSaved == old(factsSaved) + factsCount
      ensures factsProcessed == old(factsProcessed)
                + if IsKnownCategory(category) then CategoryProcessed(category, maxArticles, search, outcomes) else 0
    {
      if !IsKnownCategory(category) {
        return 0;
      }
      factsCount := ScrapeCategory(category, maxArticles, search, outcomes);
    }
  }
}
