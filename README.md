# custom_search_engine, modelled in Dafny

The repository is two near-copies of one command-line script. Each script
asks a custom search API for result links, page by page
(`google_SERP_links`), and then pulls the visible text out of every linked
page (`fetch_main_content` in `cse/main.py`, `scrape_url_content` in
`main.py`). This project models the logic inside those functions. It leaves
out the network and the HTML parser, which become inputs.

- `wrappers.dfy`, module `Wrappers`: `Option` and `Result`. An `Err` stands for
  a Python exception that escapes the function.
- `web.dfy`, module `Web`: `Fetch<P>`, the outcome of one `requests.get` inside
  a `try`. Either something `Raised`, or there is a `Response` with a status
  code and a parsed page of type `P`.
- `lines.dfy`, module `Lines`: the line filter both extractors use. It covers
  `str.splitlines` (Python's own set of line boundaries, with `"\r\n"` as one
  boundary and no piece after a final boundary), `str.strip` (Python's
  `str.isspace` set), `"\n".join`, and the test `line and len(line) > minLen`.
  `VisibleText(text, minLen)` is the whole filter. `cse/main.py` uses
  `minLen = 50` and `main.py` uses `minLen = 0`.
- `serp.dfy`, module `Serp`: the pagination loop both scripts share. The
  search API is a function `api: Params -> Reply`, so the model can state
  which requests are issued. A `Reply` either has `items` or has none. An
  `Item` has a `link` or does not. `Collected(offsets, params, api, message)`
  is the reference: the requests issued and the outcome. The method
  `CollectLinks` is the imperative loop, proved equal to it.
- `cse_main.dfy`, module `CseMain`: `cse/main.py`. It has the assertion
  message, the fixed failure message, the container choice
  main/article/body, and `FetchMainContent`.
- `root_main.dfy`, module `RootMain`: `main.py`. It has the bare assertion,
  the per-body filter with no length threshold, and `ScrapeUrlContent`, the
  loop that concatenates the bodies' texts.
- `variants.dfy`, module `Variants`: where the two scripts' filters part
  ways.

The two scripts differ in ways the contracts make visible:

- On a status other than 200, `cse/main.py` returns
  "Failed to fetch content or no content available." and `main.py` returns `""`.
- `cse/main.py` drops every line of 50 characters or fewer.
  `Variants.ShortLineKeptOnlyInMain` shows such a line surviving in `main.py`
  only.
- `main.py` concatenates the texts of several `<body>` elements with nothing
  between them. The last line of one body and the first line of the next
  become one line (`RootMain.BodiesMergeLines`). Nothing in the source says
  whether a separator was intended, so this is stated as a property of the
  code and not as a defect.
- In both scripts, `num_results <= 1` means no request is made at all
  (`Serp.OffsetsShape`).
- In `cse/main.py` the failure message cannot be confused with extracted
  text. Extracted text is either empty or longer than 50 characters, and the
  message has 48. So `FetchMainContent` returns the message exactly on the
  failure paths. An empty result can still mean "an exception was raised" or
  "the page had no line longer than 50 characters".
- `main.py` strips each body's lines and drops the blank ones before
  concatenating.

## Model

| member | source | states |
|---|---|---|
| `Serp.CollectLinks` | cse/main.py:22-39 | The loop's result and its list of issued requests are exactly those of `Collected` over the offsets `range(1, num_results, 10)`. |
| `Serp.AppendLinks` | cse/main.py:36-37 | The inner loop appends the page's links to those collected so far, exactly as `PageLinks` gives them. It reports failure exactly when some item has no `link`. |
| `Serp.Collected` | cse/main.py:22-39 | The reference semantics of the pagination loop: the requests issued and the outcome over a list of offsets. It has no contract of its own. Its properties are stated by `Serp.CollectedRequests`, `Serp.CollectedSplit`, `Serp.CollectedSucceedsIff`, `Serp.CollectedLinkCount` and `Serp.CollectedStopsAtFailure`, and `Serp.CollectLinks` is proved equal to it. |
| `CseMain.GoogleSerpLinks` | cse/main.py:9-39 | `google_SERP_links` of this script: the shared loop, where a page without `items` fails with this script's assertion message. |
| `RootMain.GoogleSerpLinks` | main.py:10-28 | `google_SERP_links` of this script: the same loop, where the bare `assert` fails with an empty message. |
| `Serp.Range` | cse/main.py:23 | Python's `range(start, stop, step)` for a positive step. It has no contract of its own. Its shape is stated by `Serp.OffsetsShape` and `Serp.OffsetsMembers`. |
| `Serp.Offsets` | cse/main.py:23 | The offsets `range(1, num_results, 10)` of the loop. It has no contract of its own. Its properties are stated by `Serp.OffsetsShape` and `Serp.OffsetsMembers`. |
| `Serp.OffsetsShape` | cse/main.py:23 | The offsets are 1, 11, 21, …, in increasing order, each below `num_results`. There are ceil((n-1)/10) of them for n ≥ 1 and none for n ≤ 1. |
| `Serp.OffsetsMembers` | main.py:14-16 | An offset is requested exactly when it is one more than a multiple of 10 and lies in [1, num_results). |
| `Serp.WithStart` | cse/main.py:26 | A request carries the caller's keys plus `start`. `start` is the offset, and every other key keeps the caller's value. |
| `Serp.CollectedRequests` | cse/main.py:23-27 | Request i is `params` with `start` set to offset i. There are never more requests than offsets, and on success there is one per offset. |
| `Serp.PageLinks` | cse/main.py:36-37 | A page yields its items' links in item order, one per item, exactly when every item has a `link`. Otherwise it fails with `KeyError("link")`. |
| `Serp.ReplyLinks` | cse/main.py:30-37 | A reply succeeds exactly when it has `items` and every item has a `link`. Its links are then those of the items, one per item and in order. A failure raises the assertion with this script's message when `items` is missing, and `KeyError("link")` otherwise. |
| `Serp.CollectedSplit` | cse/main.py:23-37 | The run over `a + b` is the run over `a`, then the run over `b` only if `a` succeeded. Links are concatenated page by page in offset order, and after a failure nothing more is requested. |
| `Serp.CollectedSucceedsIff` | cse/main.py:32-37 | The call succeeds if and only if every page has `items` and each of its items has a `link`. |
| `Serp.CollectedLinkCount` | main.py:25-26 | On success the number of links is the sum of the pages' item counts, so duplicates are kept. |
| `Serp.CollectedStopsAtFailure` | main.py:23 | On failure, every earlier page succeeded, the last request made is the first failing page, and its error is the call's error. Later offsets are never requested and no partial list is returned. |
| `Lines.SplitLines` | cse/main.py:61 | No piece contains a line boundary, and the result is empty exactly when the text is empty. |
| `Lines.SplitLinesContent` | cse/main.py:61 | The pieces, concatenated, are the text with its line-boundary characters removed: every other character is kept, in order, and nothing is added. |
| `Lines.JoinSplit` | cse/main.py:61-62 | For a text whose only boundaries are `"\n"` and that does not end with one, joining its lines with `"\n"` gives the text back. This is the converse of `SplitJoin`. |
| `Lines.Strip` | cse/main.py:61 | The result has no leading or trailing whitespace. The input is whitespace, then the result, then whitespace. A line that is already stripped is unchanged. |
| `Lines.StrippedLines` | cse/main.py:61 | Every line from the generator is stripped and has no line boundary. |
| `Lines.KeepLines` | cse/main.py:63 | Every kept line is an input line that passes the test. Every input line that passes is kept. The kept lines are a subsequence of the input lines. |
| `Lines.KeepLinesCount` | cse/main.py:63 | Each line that passes the test is kept as often as it occurs in the input. A line that fails is never kept. Together with the subsequence clause of `KeepLines`, this fixes the output exactly. |
| `Lines.Join` | cse/main.py:62 | `"\n".join` of a list of lines. It has no contract of its own. Its properties are stated by `Lines.SplitJoin` and `Lines.JoinSplit`, which relate it to `Lines.SplitLines` in both directions. |
| `Lines.SplitJoin` | cse/main.py:62 | Splitting the `"\n"`-join of non-empty lines that have no boundaries gives the lines back. |
| `Lines.VisibleText` | cse/main.py:61-64 | The whole line filter of both scripts: split, strip, keep the lines that are non-empty and longer than the threshold, and join with `"\n"`. It has no contract of its own. Its properties are stated by `Lines.VisibleLinesWellFormed`, `Lines.VisibleLinesSubsequence`, `Lines.VisibleTextIdempotent` and `Lines.VisibleTextLength`. |
| `Lines.VisibleLinesWellFormed` | cse/main.py:61-64 | The lines of the filtered text are exactly the stripped lines that pass the test. Each one is non-empty, longer than the threshold (50 here) and stripped. No line that passes is missing. |
| `Lines.VisibleLinesSubsequence` | cse/main.py:61-63 | The output lines are a subsequence of the stripped input lines: none is invented and none is reordered. |
| `Lines.VisibleTextIdempotent` | cse/main.py:61-64 | Filtering the filter's output returns it unchanged. |
| `Lines.VisibleTextLength` | cse/main.py:62-64 | The output is empty exactly when no stripped line is longer than the threshold. Otherwise the output is longer than the threshold. |
| `CseMain.MainContainer` | cse/main.py:56-59 | The container is the first of main, article and body that is present. There is none exactly when all three are absent. |
| `CseMain.FetchMainContent` | cse/main.py:42-69 | An exception gives `""`. The failure message is returned exactly when the status is not 200 or there is no container. Otherwise the result is the container's filtered text, which is `""` exactly when the container has no line longer than 50 characters. |
| `CseMain.FetchedLinesAreLong` | cse/main.py:59-65 | Any result other than the failure message consists of non-empty, stripped lines longer than 50 characters. |
| `CseMain.LongLineScenario` | cse/main.py:56-65 | A `<main>` with one line over 50 characters and one of at most 50 yields only the long line. |
| `RootMain.ScrapeUrlContent` | main.py:31-54 | An exception gives `""` and a status other than 200 gives `""`. With status 200 the result is the concatenation, in document order, of every body's filtered text, so zero bodies give `""`. |
| `RootMain.BodyText` | main.py:45-47 | One body's contribution: `Lines.VisibleText` with threshold 0, so every non-empty stripped line is kept. It has no contract of its own. Its properties are stated by `RootMain.BodyKeepsEveryNonEmptyLine` and `Variants.ShortLineKeptOnlyInMain`. |
| `RootMain.BodiesText` | main.py:41-48 | The bodies' texts concatenated in document order with no separator. It has no contract of its own. `RootMain.ScrapeUrlContent` is proved equal to it, and its properties are stated by `RootMain.BodiesTextAppend` and `RootMain.BodiesMergeLines`. |
| `RootMain.BodiesTextAppend` | main.py:41-48 | The text of bodies `a + b` is the text of `a` followed directly by the text of `b`, with no separator. |
| `RootMain.BodiesTextLines` | main.py:41-48 | Across all bodies, however their texts run together, every line of the whole output is non-empty and has no leading or trailing whitespace. |
| `RootMain.BodyKeepsEveryNonEmptyLine` | main.py:45-47 | A line is in a body's contribution if and only if it is a non-empty stripped line of that body. There is no length threshold. |
| `Variants.ShortLineKeptOnlyInMain` | main.py:46-47 | A stripped line of at most 50 characters is a body's whole contribution in main.py, but the filter of cse/main.py drops it. |
| `RootMain.BodiesMergeLines` | main.py:43-47 | Two one-line bodies become the single line made of both joined together. |

## Left out

- HTTP: `requests.get`, the User-Agent header, the search endpoint URL,
  `response.json()` and the status code. They become inputs. The API is the
  `api` function, and a page fetch is a `Web.Fetch` value.
- Errors that `google_SERP_links` does not raise itself: connection errors, a
  reply that is not valid JSON, and an item that is not a dictionary. They
  propagate uncaught in both scripts and are not modelled. The failures the
  model does cover are a missing `items`, which raises `AssertionError`, and a
  missing `link`, which raises `KeyError`.
- Python run with `-O`: `assert` statements are then skipped, and a reply
  without `items` raises `KeyError('items')` instead. The model assumes
  assertions are enabled.
- BeautifulSoup: parsing, `find`, `find_all`, `get_text`, and, in `cse/main.py`
  only, the removal of script, style, nav, footer, aside and form elements
  (in `main.py` the removal of script and style is commented out). The parsed page is
  given as abstract values. In `cse/main.py` a page is the `get_text()` of the
  first main, the first article and the body, each possibly absent. In
  `main.py` a page is the `get_text()` of every `<body>` element in document
  order. Nesting between these elements is not modelled.
- The `ScrapeUrlContent` and `FetchMainContent` exception paths: an exception
  anywhere inside the `try` is one abstract `Raised` outcome, and the model
  does not say where it was raised.
- The `__main__` drivers: argument parsing, environment variables and the
  default search engine id, the parameter dictionary, tqdm, printing and
  `pprint` slicing. The `print` calls on the error paths are left out too,
  since only the returned value is modelled.
- Python strings that contain lone surrogates. A Dafny `char` is a Unicode
  scalar value.
