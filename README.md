# Hacker News front page: a verified model

This project models the `get_front_page` tool of the Hacker News plugin
(`hackernews/get_front_page/run.py`). The tool reads an optional `limit` and
clamps it into [1, 500], with 30 as the default. It takes that many IDs from
the top-stories ranking and fetches each item in parallel. It gathers the
truthy answers into a dictionary as the requests complete. It then walks the
IDs in rank order and emits `{"stories": [...], "count": n}`, with one
formatted record for each occurrence of an ID whose answer was truthy.

The network is a parameter of the model. The ranking is a sequence of IDs.
`fetched[p]` is the answer to the request for the p-th selected ID:
`None` for a JSON `null`, otherwise a JSON object. `completion` is the order
in which those requests finished. It is any permutation of the request
indices, as `as_completed` yields each future exactly once.

Modules:

- `Json` (`json.dfy`): JSON values, `Option`, and the two forms of `dict.get`.
- `Stories` (`stories.dfy`): `format_story`. It is pure, so it is a function
  with its field-by-field contract.
- `FrontPage` (`front_page.dfy`): `main`. Its two loops are methods. The
  results loop runs over the completion order. The assembly loop runs over
  the selected IDs. Each loop is proved against a specification function
  (`Collected`, `StoriesOf`), and the lemmas state what those functions mean.

The main result is that the output does not depend on completion order. The
condition is that each ID gets the same answer every time it is requested,
as when the answers come from one map from ID to item. Under that condition,
`GetFrontPage` returns exactly `SequentialFrontPage`. That is the output of
fetching the stories one after another in rank order. Without the condition
the output can depend on completion order: if an ID appears twice in the
ranking and its two answers differ, the dictionary keeps whichever answer
arrived last (`DuplicateIdKeepsLastAnswer`).

## Model

| member | source | states |
|---|---|---|
| `Stories.FormatStory` | hackernews/get_front_page/run.py:23-38 | `id`, `title`, `url`, `text` and `type` are copied from the item, or are null when missing. `by` becomes `author` (null when missing). `score` is copied, or is 0 when missing. `descendants` becomes `comment_count`, or is 0 when missing. `created_at` is rendered from `time`, or from 0 when `time` is missing. A key that is present but null stays null. |
| `Stories.FormatStoryReadsOnlyStoryKeys` | hackernews/get_front_page/run.py:28-38 | The record depends only on the nine keys `id`, `title`, `url`, `text`, `by`, `score`, `descendants`, `time` and `type`. Two items that agree on those keys give the same record. |
| `FrontPage.EffectiveLimit` | hackernews/get_front_page/run.py:44-45 | The limit always lies in [1, 500]. It is 30 when absent. A requested value inside [1, 500] is kept unchanged. A value below 1 becomes 1, and a value above 500 becomes 500. |
| `FrontPage.SliceTo` | hackernews/get_front_page/run.py:50 | Python's `s[:n]` is always a prefix of `s`. Its length is `min(n, len(s))` for `n >= 0`, and `max(0, len(s) + n)` for negative `n`. |
| `FrontPage.SelectedIds` | hackernews/get_front_page/run.py:44-50 | The selected IDs are a prefix of the ranking, of length `min(limit, len(ranking))`. So there are at most 500 of them, and at least one when the ranking is non-empty. |
| `FrontPage.CollectedContents` | hackernews/get_front_page/run.py:57-61 | After any sequence of completions, an ID is a key of `results` exactly when one of its completed requests returned a truthy item. The stored value is one of the items returned for that ID. |
| `FrontPage.CollectedUnderDeterministicFetches` | hackernews/get_front_page/run.py:55-61 | When every request for an ID gets the same answer and every request completes, a selected ID is in `results` exactly when its answer is truthy. Its entry is then that answer. |
| `FrontPage.CollectedIgnoresCompletionOrder` | hackernews/get_front_page/run.py:54-61 | Under the same condition, any two completion orders produce the same `results` dictionary. |
| `FrontPage.CollectedKeepsLastTruthyAnswer` | hackernews/get_front_page/run.py:57-61 | For any completion order, take a completion whose answer is truthy. If no later completion for the same ID is truthy, the dictionary holds that answer for the ID. The last truthy answer wins, and falsy answers never remove an entry. |
| `FrontPage.DuplicateIdKeepsLastAnswer` | hackernews/get_front_page/run.py:55-61 | Example with the ranking `[id, id]` and two truthy answers. Completion order `[0, 1]` keeps the second answer and `[1, 0]` keeps the first. So when the answers differ, the result depends on completion order. |
| `FrontPage.CollectResults` | hackernews/get_front_page/run.py:56-61 | The `as_completed` loop builds exactly `Collected` for the given completion order. Falsy answers are skipped, and a later truthy answer for the same ID overwrites an earlier one. |
| `FrontPage.KeptPositions` | hackernews/get_front_page/run.py:64-66 | The positions that yield a story are strictly increasing, so they follow rank order and each appears once. They are exactly the positions whose ID is in `results`: one story per occurrence, never more than the number of IDs. |
| `FrontPage.StoriesOfStep` | hackernews/get_front_page/run.py:64-66 | Walking one more ID appends that ID's formatted story if it is in `results`, and appends nothing otherwise. |
| `FrontPage.AssembleStories` | hackernews/get_front_page/run.py:63-66 | The rank-order loop produces exactly `StoriesOf(ids, results)`: the formatted entries at the kept positions, in order. |
| `FrontPage.GetFrontPage` | hackernews/get_front_page/run.py:41-68 | `count` equals the number of stories, which is at most the effective limit, at most 500, and at most the length of the ranking. The stories are those assembled from the collected results. When each ID always gets the same answer, the output equals the sequential rank-order output, whatever the completion order. |
| `FrontPage.FrontPageStories` | hackernews/get_front_page/run.py:57-66 | When each ID always gets the same answer, a selected position yields a story exactly when its answer is truthy. The j-th story is the formatted answer at the j-th such position, in rank order. |

## Left out

- The HTTP requests (`fetch_item`, the `topstories.json` request, `raise_for_status`, the 10-second timeouts) are network I/O. The ranking and the per-request answers are parameters. A request that raises aborts the whole run in Python; the model does not represent that.
- `ThreadPoolExecutor` with 20 workers and `as_completed`: the concurrency is replaced by an explicit completion order, which may be any permutation of the requests.
- `datetime.fromtimestamp(...).isoformat()` is a library formatter. `created_at` is kept symbolic, as the timestamp it is rendered from (`Stories.IsoTime`). The exceptions the formatter raises for a null, non-numeric or out-of-range timestamp are not modelled.
- `Stories.IsoTime`: the symbolic `created_at` keeps apart timestamps that the formatter renders alike. For example, `1`, `1.0` and `true` all give the same ISO string, and float times are rounded to microseconds. So two records the model calls different can be equal in the program. The model states no property that depends on this.
- Reading the parameters from standard input, writing the JSON result to standard output, the `uv` script header and the top-level `main()` call are I/O plumbing.
- A `limit` that is not an integer (null, a float, a string, a boolean) is not modelled. The requested limit is `Option<int>`.
- An answer from `fetch_item` that is neither `null` nor a JSON object (for example a list) is not modelled. Answers are `Option<Item>`. Ranking entries are assumed to be integer IDs.
