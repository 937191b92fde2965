/**
 * `create_fact_from_content` (scripts/wikipedia_scraper.py:270-312): clean a passage, reject it
 * unless its length is within 100..2000 and it is detected as English, then assemble the fact.
 * Language detection, title generation, tag extraction and difficulty grading rest on NLTK,
 * textstat and langdetect; they are parameters here.
 */
module Facts {
  import opened Wrappers
  import opened Seqs
  import opened Text
  import opened Cleaning
  import opened Scoring

  /** The three grades `determine_difficulty` can give. */
  datatype Difficulty = Beginner | Intermediate | Advanced {
    /** The string stored in the fact. */
    function Name(): (s: string)
      ensures s in {"beginner", "intermediate", "advanced"}
    {
      match this
      case Beginner => "beginner"
      case Intermediate => "intermediate"
      case Advanced => "advanced"
    }
  }

  /** The `Fact` record (scripts/wikipedia_scraper.py:51-62). */
  datatype Fact = Fact(
    title: string,
    content: string,
    category: string,
    tags: seq<string>,
    difficulty: Difficulty,
    readingTime: int,
    source: string,
    sourceUrl: string,
    popularity: int)

  /** The library calls fact assembly depends on. */
  datatype Oracles = Oracles(
    /** `detect(text)`: the language code, or `None` when langdetect raised. */
    detect: string -> Option<string>,
    /** `generate_title(content, source_title)`. */
    generateTitle: (string, string) -> string,
    /** `extract_tags(content, category)`. */
    extractTags: (string, string) -> seq<string>,
    /** `determine_difficulty(content)`. */
    determineDifficulty: string -> Difficulty)

  const MinFactLength := 100
  const MaxFactLength := 2000

  /** The length gate: cleaned content outside 100..2000 characters is rejected. */
  predicate LengthAccepted(cleaned: string) {
    MinFactLength <= |cleaned| <= MaxFactLength
  }

  /** The language gate: only content detected as `en` is kept; a detection error rejects it. */
  predicate IsEnglish(detect: string -> Option<string>, cleaned: string) {
    detect(cleaned) == Some("en")
  }

  /**
   * `create_fact_from_content`. A fact is produced exactly when the cleaned content passes both
   * gates, and then it carries the cleaned content, the given category, the source label and URL,
   * a popularity within 0..100 and a reading time within 1..15.
   */
  function CreateFactFromContent(content: string, category: string, sourceTitle: string, sourceUrl: string,
                                 oracles: Oracles): (r: Option<Fact>)
    ensures r.Some? <==> LengthAccepted(CleanContent(content)) && IsEnglish(oracles.detect, CleanContent(content))
    ensures r.Some? ==>
              && r.value.content == CleanContent(content)
              && r.value.category == category
              && r.value.source == "Wikipedia - " + sourceTitle
              && r.value.sourceUrl == sourceUrl
              && r.value.title == oracles.generateTitle(CleanContent(content), sourceTitle)
              && r.value.tags == oracles.extractTags(CleanContent(content), category)
              && r.value.difficulty == oracles.determineDifficulty(CleanContent(content))
              && r.value.popularity == InitialPopularity(r.value.content, category)
              && 0 <= r.value.popularity <= 100
              && r.value.readingTime == CalculateReadingTime(r.value.content)
              && 1 <= r.value.readingTime <= 15
  {
    var cleaned := CleanContent(content);
    if !LengthAccepted(cleaned) then None
    else if oracles.detect(cleaned) != Some("en") then None
    else
      Some(Fact(
        title := oracles.generateTitle(cleaned, sourceTitle),
        content := cleaned,
        category := category,
        tags := oracles.extractTags(cleaned, category),
        difficulty := oracles.determineDifficulty(cleaned),
        readingTime := CalculateReadingTime(cleaned),
        source := "Wikipedia - " + sourceTitle,
        sourceUrl := sourceUrl,
        popularity := InitialPopularity(cleaned, category)))
  }

  /**
   * The body of a created fact is clean: 100..2000 characters, only plain spaces inside, and no
   * `[...]` or `(...)` span (it has no surrounding whitespace by the contract of `CleanContent`).
   */
  lemma CreatedFactContentIsClean(content: string, category: string, sourceTitle: string, sourceUrl: string,
                                  oracles: Oracles, fact: Fact)
    requires CreateFactFromContent(content, category, sourceTitle, sourceUrl, oracles) == Some(fact)
    ensures 100 <= |fact.content| <= 2000
    ensures forall c :: c in fact.content && IsSpace(c) ==> c == ' '
    ensures NoSpan(fact.content, '[', ']') && NoSpan(fact.content, '(', ')')
  {
    var cleaned := CleanContent(content);
    assert fact.content == cleaned && LengthAccepted(cleaned);
    CleanContentIsSubseq(content);
    CleanContentHasNoSpan(content);
  }

  /**
   * The length gate bounds the reading time: 2000 characters hold at most 1000 words,
   * which read in at most 4 minutes.
   */
  lemma CreatedFactReadsInAtMostFourMinutes(content: string, category: string, sourceTitle: string,
                                            sourceUrl: string, oracles: Oracles, fact: Fact)
    requires CreateFactFromContent(content, category, sourceTitle, sourceUrl, oracles) == Some(fact)
    ensures fact.readingTime <= 4
  {
    var words := |Split(fact.content)|;
    assert words <= 1000;
    ReadingMinutesMonotone(words, 1000);
    RoundingNeverTies(1000);
  }
}
