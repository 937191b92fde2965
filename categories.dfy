/** The category table of `setup_categories` (scripts/wikipedia_scraper.py:93-153): names and search topics. */
module Categories {

  /** The category names, in the table's (insertion) order. */
  const CategoryNames: seq<string> := ["history", "science", "nature", "technology", "culture", "art"]

  /** The Wikipedia topics searched for each category. */
  const CategoryTopics: map<string, seq<string>> := map[
    "history" := [
      "Ancient history", "World War II", "Renaissance", "Roman Empire",
      "Ancient Egypt", "Medieval history", "Industrial Revolution",
      "Cold War", "American Civil War", "French Revolution",
      "Ancient Greece", "Byzantine Empire", "Ming Dynasty",
      "Ottoman Empire", "Spanish Inquisition", "Age of Exploration"],
    "science" := [
      "Quantum physics", "DNA", "Evolution", "Solar system",
      "Periodic table", "Photosynthesis", "Gravity", "Relativity",
      "Genetics", "Astronomy", "Chemistry", "Biology",
      "Neuroscience", "Climate change", "Ecology", "Mathematics"],
    "nature" := [
      "Amazon rainforest", "Ocean", "Biodiversity", "Ecosystem",
      "Wildlife", "Marine biology", "Botany", "Zoology",
      "National parks", "Conservation", "Endangered species",
      "Coral reef", "Desert", "Mountain", "Forest", "River"],
    "technology" := [
      "Internet", "Artificial intelligence", "Computer science",
      "Space exploration", "Robotics", "Biotechnology",
      "Nanotechnology", "Renewable energy", "Electric vehicle",
      "Blockchain", "Virtual reality", "Machine learning",
      "Quantum computing", "Cybersecurity", "Smartphone"],
    "culture" := [
      "Literature", "Music", "Art", "Philosophy", "Religion",
      "Language", "Anthropology", "Sociology", "Psychology",
      "Mythology", "Folklore", "Tradition", "Festival",
      "Architecture", "Cuisine", "Fashion"],
    "art" := [
      "Painting", "Sculpture", "Renaissance art", "Modern art",
      "Photography", "Cinema", "Theater", "Dance",
      "Leonardo da Vinci", "Vincent van Gogh", "Pablo Picasso",
      "Michelangelo", "Salvador Dal\U{C3}\U{AD}", "Impressionism",
      "Abstract art", "Street art"]
  ]

  predicate IsKnownCategory(category: string) {
    category in CategoryTopics
  }

  /** `self.categories.get(category, {}).get('topics', [])`: an unknown category has no topics. */
  function Topics(category: string): (ts: seq<string>)
    ensures !IsKnownCategory(category) ==> ts == []
    ensures IsKnownCategory(category) ==> |ts| >= 15
  {
    if category in CategoryTopics then CategoryTopics[category] else []
  }

  /** The ordered name list and the table hold the same six categories. */
  lemma CategoryNamesAreTheTable()
    ensures forall c :: c in CategoryNames <==> IsKnownCategory(c)
    ensures |CategoryNames| == 6
  {
  }
}
