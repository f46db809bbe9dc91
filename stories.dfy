/**
  The response record the tool builds for one story (`format_story`).
 */
module Stories {
  import opened Json

  /**
    The ISO-8601 rendering of a Unix timestamp in UTC. The date formatter is
    a library routine; the model keeps its result symbolic, as the timestamp
    it was computed from.
   */
  datatype IsoTime = IsoFormatOf(timestamp: Json)

  /** One entry of the tool's `stories` list; each field is the JSON key of the same name. */
  datatype Story = Story(
    id: Json,
    title: Json,
    url: Json,
    text: Json,
    author: Json,
    score: Json,
    commentCount: Json,
    createdAt: IsoTime,
    storyType: Json)

  /** The item keys the formatter reads; every other key of an item is ignored. */
  const STORY_KEYS: set<string> := {"id", "title", "url", "text", "by", "score", "descendants", "time", "type"}

  /**
    Builds the response record for a fetched item: `id`, `title`, `url`, `text`
    and `type` are copied, `by` becomes `author`, `descendants` becomes
    `comment_count`, a missing `score` or `descendants` reads as 0, a missing
    `time` as the epoch, and every other missing key as null.
   */
  function FormatStory(item: Item): (s: Story)
    // copied unchanged; null when missing
    ensures "id" in item ==> s.id == item["id"]
    ensures "id" !in item ==> s.id == Null
    ensures "title" in item ==> s.title == item["title"]
    ensures "title" !in item ==> s.title == Null
    ensures "url" in item ==> s.url == item["url"]
    ensures "url" !in item ==> s.url == Null
    ensures "text" in item ==> s.text == item["text"]
    ensures "text" !in item ==> s.text == Null
    ensures "type" in item ==> s.storyType == item["type"]
    ensures "type" !in item ==> s.storyType == Null
    // renamed: `by` -> `author` (null when missing)
    ensures "by" in item ==> s.author == item["by"]
    ensures "by" !in item ==> s.author == Null
    // defaulted to 0 when missing
    ensures "score" in item ==> s.score == item["score"]
    ensures "score" !in item ==> s.score == Int(0)
    // renamed and defaulted: `descendants` -> `comment_count`
    ensures "descendants" in item ==> s.commentCount == item["descendants"]
    ensures "descendants" !in item ==> s.commentCount == Int(0)
    // the creation time is rendered from `time`, or from 0 when missing
    ensures "time" in item ==> s.createdAt == IsoFormatOf(item["time"])
    ensures "time" !in item ==> s.createdAt == IsoFormatOf(Int(0))
  {
    var timestamp := GetOr(item, "time", Int(0));
    Story(
      id := Get(item, "id"),
      title := Get(item, "title"),
      url := Get(item, "url"),
      text := Get(item, "text"),
      author := Get(item, "by"),
      score := GetOr(item, "score", Int(0)),
      commentCount := GetOr(item, "descendants", Int(0)),
      createdAt := IsoFormatOf(timestamp),
      storyType := Get(item, "type"))
  }

  /** Two items that agree on the nine keys the formatter reads give the same record. */
  lemma FormatStoryReadsOnlyStoryKeys(a: Item, b: Item)
    requires forall k :: k in STORY_KEYS ==> (k in a <==> k in b)
    requires forall k :: k in STORY_KEYS && k in a ==> a[k] == b[k]
    ensures FormatStory(a) == FormatStory(b)
  {
  }
}
