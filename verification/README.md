# UFC decision scraper — a Dafny model

This project models the data pipeline of `ufc_decision_analyzer`. The pipeline collects the judges' scorecards of UFC events from mmadecisions.com into one table. It has three parts:

- **The event URL lister** (`get_ufc_event_urls_for_year`, data/url.py).
  - It picks the response encoding from the `charset=` parameter of the Content-Type header.
  - It walks the year's archive listing, skipping rows that have no link.
  - It keeps the events whose title starts with `UFC`.
  - It returns their (title, absolute URL) pairs, each pair once, in page order.
  - A link with no `href` raises, and so does the whole call.
- **The event scraper** (`scrape_event`, data/scrape.py).
  - It reads the event title and takes the year from the date cell: the leftmost stand-alone four-digit run.
  - For every bout cell it reads the matchup and the decision method. It then reads up to three following cells as judges: the name (or `Unknown`), the score with its whitespace normalised by `" ".join(raw.split())`, and the position 1–3.
  - It removes rows that repeat the six key columns, keeping the first.
  - A judge cell without a score makes the whole event fail.
- **The batch driver** (the `__main__` block of data/scrape.py).
  - It scrapes every listed event in order.
  - It logs and skips the events that raise.
  - It concatenates the rest and rewrites U+00A0 to a plain space in every text cell.
  - When no event scraped without raising (or no event was listed), the concatenation raises.

The HTML and the network are not modelled. The scraper receives the page as parsed data: an `Option` for each tag that may be missing, and a string for the text the parser returns. The lister receives the listing the same way. Resolving an `href` (`urljoin`, section 5.2 of RFC 3986) is a function parameter.

The modules follow the program:

| module | file | contents |
|---|---|---|
| `Wrappers` | wrappers.dfy | `Option` (a tag that may be missing) and `Result` (return or raise) |
| `Seqs` | seqs.dfy | laying a list of sequences end to end (`"".join`, `pd.concat`) |
| `Text` | text.dfy | Python's whitespace set, `str.split()`, `" ".join`, the one-pass normaliser, the U+00A0 rewrite |
| `Dedup` | dedup.dfy | keep-first de-duplication by a key, shared by `drop_duplicates` and `dict.fromkeys` |
| `Scrape` | scrape.dfy | the event page, rows, year detection, per-bout rows, `scrape_event` |
| `Batch` | batch.dfy | the driver loop, failure log, concatenation, U+00A0 rewrite |
| `EventUrls` | event_urls.dfy | charset selection, link handling, UFC filter, the lister |

Three details of the code that the model keeps:

- The event title is kept as stripped (data/scrape.py:23); nothing cuts it at a digit run.
- The batch walks the rows of the URL file in file order (data/scrape.py:79); nothing groups them by year.
- The year pattern needs a word boundary on both sides of the four digits (data/scrape.py:27), so `12345` gives no year.

The source names the decision-method column `method`. That is a Dafny keyword, so the column is called `decision` here.

## Model

| member | source | states |
|---|---|---|
| Text.Split | data/scrape.py:52 | Every piece `str.split()` returns is non-empty and holds no whitespace character. |
| Text.SplitAtBlank | data/scrape.py:52 | A non-empty whitespace run between two texts that hold words separates their words: the split of the whole is the split of the left text followed by the split of the right. With `SplitOfGlued`, this makes the pieces the maximal whitespace-free runs. |
| Text.SplitOfGlued | data/scrape.py:52 | A non-whitespace character in front of text that starts with a word joins that word: the split gains no piece, and its first piece gains the character. |
| Text.JoinAppend | data/scrape.py:52 | `" ".join` of two non-empty word lists laid end to end is the join of the first, one space, and the join of the second. |
| Text.NonSpaceOfSplit | data/scrape.py:52 | Laying the pieces of `str.split()` end to end gives the non-whitespace characters of the text, in order. |
| Text.NonSpaceOfJoin | data/scrape.py:52 | The single-space join of words adds only whitespace: its non-whitespace characters are the words laid end to end. |
| Text.NormalizeWhitespace | data/scrape.py:50-52 | The normalised score is in whitespace normal form: no whitespace at either end, the plain space as its only whitespace character, never two whitespace characters in a row. It keeps exactly the non-whitespace characters of the raw text, in order. |
| Text.NormalizeIsJoinOfSplit | data/scrape.py:52 | The one-pass normaliser gives the same string as `" ".join(raw.split())`. |
| Text.SplitJoin | data/scrape.py:52 | Round trip: splitting the single-space join of whitespace-free words gives back those words. |
| Text.NormalizeAtBlank | data/scrape.py:50-52 | A whitespace run of any length between two texts that hold words becomes exactly one space: the normalisation of the whole is the left text's, one space, then the right text's. |
| Text.NormalizeAtGlue | data/scrape.py:50-52 | Where two texts meet with non-whitespace on both sides, nothing is inserted: the normalisation of the whole is the two normalisations laid end to end. |
| Text.SplitOfNormalized | data/scrape.py:52 | Normalising does not change the words: the split of the normalised text is the split of the raw text. |
| Text.NormalizeIdempotent | data/scrape.py:52 | Normalising an already normalised score changes nothing. |
| Text.NormalizedIsFixedPoint | data/scrape.py:52 | Every string in whitespace normal form is its own normalisation, so the normal form is exactly the set of possible outputs. |
| Text.JoinSplitOfNormalized | data/scrape.py:52 | A string in normal form is the single-space join of its own split. |
| Text.ReplaceNbsp | data/scrape.py:94 | The rewrite keeps the length, leaves no U+00A0, turns each U+00A0 into a space and keeps every other character where it was. |
| Text.ReplaceNbspIdempotent | data/scrape.py:94 | Rewriting twice is rewriting once, and text without U+00A0 is left alone. |
| Text.NormalizedHasNoNbsp | data/scrape.py:94 | A normalised score holds no U+00A0, so the driver's rewrite leaves it unchanged. |
| Dedup.KeepFirst | data/scrape.py:66-69 | Keep-first de-duplication returns no more elements than it gets, and each of them from its input. Its positions are given by `Dedup.KeepFirstPositions`. |
| Dedup.KeepFirstLoop | data/url.py:56 | The single pass with a set of seen keys computes keep-first de-duplication, and its output has no two elements with one key. |
| Dedup.KeepFirstKeys | data/scrape.py:66-69 | De-duplication keeps every key of its input and adds none. |
| Dedup.KeepFirstUnique | data/scrape.py:66-69 | No two kept elements share a key. |
| Dedup.KeepFirstOfUnique | data/scrape.py:66-69 | An input whose keys are already distinct comes back unchanged. |
| Dedup.KeepFirstIdempotent | data/url.py:56 | De-duplicating twice is de-duplicating once. |
| Dedup.KeepFirstPositions | data/url.py:56 | The output is the subsequence of the input at exactly the positions that hold the first element with their key, in input order. |
| Scrape.FirstYearFrom | data/scrape.py:27 | The scan returns the leftmost position, from the start point on, where a stand-alone four-digit run begins. It returns none when no position has one. |
| Scrape.EventYear | data/scrape.py:26-29 | The year exists exactly when the date cell exists and holds a four-digit run with a word boundary on both sides. Its value is 0–9999, the number that leftmost run spells. |
| Scrape.YearExamples | data/scrape.py:27-29 | `12345` and `2024a` give no year, `Saturday 12.07.2025` gives 2025, `1999 / 2024` gives 1999, and a missing date cell gives none. |
| Scrape.JudgeRows | data/scrape.py:45-62 | Judge cells give rows exactly when each has a score. There is one row per cell, numbered on from the start position, with the bout's fields, the name or `Unknown`, and the normalised score. Otherwise the error is the position of the first cell without a score. |
| Scrape.BoutRows | data/scrape.py:34-62 | A bout gives rows exactly when each of its first three following cells has a score. It gives one row per such cell, at most three, numbered 1, 2, 3. A missing matchup or method tag becomes "". On failure the error names the bout and the first judge position without a score. |
| Scrape.JudgeTotal | data/scrape.py:42 | The number of judge cells read for a card is at most three per bout. |
| Scrape.CardRows | data/scrape.py:34-62 | A card gives rows exactly when every bout has all its scores. Its rows are then each bout's judge rows, bout after bout in page order. That is one row per judge cell read, each with the event's year and name, a position 1–3 and a normalised score. Otherwise the error names the first bout, in page order, that lacks a score. |
| Scrape.BoutRowSetsCons | data/scrape.py:34-62 | The rows of a card are the first bout's judge rows followed by the rows of the remaining bouts. |
| Scrape.ScrapeEvent | data/scrape.py:20-71 | Scraping fails exactly when some judge cell lacks a score, and the error names the first such bout. On success every row is a row of the card, no two rows share the six key columns, and every key of the card is kept. Every row has the page's year and title, a position 1–3 and a normalised score. There are at most as many rows as judge cells. |
| Scrape.ScrapeEventPositions | data/scrape.py:64-69 | The scraper's rows are the card's rows at exactly the positions that hold the first row with their key, in page order. |
| Scrape.CardRowsFromBouts | data/scrape.py:34-62 | Every row carries the matchup and method of one of the card's bouts. |
| Scrape.CardRowsUniqueKeys | data/scrape.py:34-62 | When no two bouts share a matchup and method, no two rows of the card share a key. |
| Scrape.DistinctBoutsKeepEveryRow | data/scrape.py:64-69 | When no two bouts share a matchup and method, de-duplication removes nothing. The result is every judge row in page order, one per judge cell. |
| Batch.EventOutcome | data/scrape.py:86-90 | An event yields rows exactly when its page was fetched and scraping it succeeded, and then they are the scraper's rows. A request failure is reported as a network error. |
| Batch.Survivors | data/scrape.py:86-88 | The collected row sets number at most the events, and are empty exactly when every event failed. |
| Batch.SurvivorsPositions | data/scrape.py:79-88 | The collected row sets are the rows of exactly the events that did not raise, each once, in input order. |
| Batch.FailedFrom | data/scrape.py:89-90 | The failure log names exactly the events that raised, in increasing order. |
| Batch.CleanRow | data/scrape.py:94 | Each text column of the rewritten row is the U+00A0 rewrite of the original column. The row has no U+00A0 in any text column, keeps its year and position, and is unchanged when it had no U+00A0. |
| Batch.CleanRows | data/scrape.py:94 | The rewrite maps the table row by row, keeping its length. |
| Batch.RunBatch | data/scrape.py:76-94 | An event is logged exactly when it raised, and the log is in input order. A table exists exactly when some event succeeded. It is the collected row sets of those events laid end to end, with U+00A0 rewritten, and holds no U+00A0. |
| Batch.RunOnPages | data/scrape.py:79-94 | Over fetched pages, an event is logged exactly when fetching or scraping it failed; the log holds event positions only, each once, in input order. A table exists exactly when some event was fetched and scraped, and it is their collected rows end to end, with U+00A0 rewritten. |
| Batch.RunOnPagesPositions | data/scrape.py:79-93 | Over fetched pages, the collected row sets are the scraper's rows of exactly the events that were fetched and scraped, each once, in input order. |
| Seqs.FlattenMembers | data/scrape.py:93 | Laying row sets end to end (`pd.concat`) loses no row and adds none: every row of every set is in the result, and every row of the result comes from some set. |
| Seqs.FlattenAppend | data/scrape.py:93 | Concatenating two lists of row sets laid end to end gives the two concatenations laid end to end. |
| Seqs.FlattenLength | data/scrape.py:93 | Appending a row set to the list adds exactly its length to the concatenation. |
| Batch.SurvivorsAppend | data/scrape.py:79-88 | The row sets collected over two lists of events are those of the first list followed by those of the second. |
| Batch.RowsOfAppend | data/scrape.py:79-93 | The table rows of two lists of events laid end to end are the first list's rows followed by the second's. |
| Batch.FailedEventContributesNothing | data/scrape.py:86-93 | Removing an event that raised changes neither the table nor whether one exists. |
| Batch.MiddleEventFails | data/scrape.py:79-94 | With three events of which the second raises, the log is [1] and the table is the first event's rows followed by the third's. |
| Batch.AllFailedHasNoTable | data/scrape.py:86-93 | When every event raises (or there is none), there is no table and every event is logged. |
| Batch.AllFailedAllLogged | data/scrape.py:89-90 | When every event raises, the log has one entry per event. |
| Batch.CleanKeepsScores | data/scrape.py:94 | The driver's U+00A0 rewrite never changes a scraped score. |
| EventUrls.UpToSemicolon | data/url.py:25 | The result is the whole run of non-`;` characters at the start of the text. |
| EventUrls.FirstCharsetFrom | data/url.py:25 | The scan returns the leftmost position, from the start point on, where `charset=` is followed by a character other than `;`. It returns none when there is no such position. |
| EventUrls.FirstIsLeftmost | data/url.py:25 | The scan stops at the first match and at no later one. |
| EventUrls.CharsetParam | data/url.py:24-25 | The header pattern matches exactly when `charset=` occurs followed by a non-`;` character. The value is then the whole non-`;` run after the leftmost such occurrence. |
| EventUrls.ResponseEncoding | data/url.py:24-31 | With no `charset=` followed by a non-`;` character (including a missing header), the encoding is the guess. Otherwise it is the whole non-`;` run after the leftmost match. |
| EventUrls.CharsetExample | data/url.py:25-28 | `text/html; charset=ISO-8859-1; x=y` selects `ISO-8859-1`. |
| EventUrls.NoCharsetExample | data/url.py:24-31 | `text/html`, `text/html; charset=;` and a missing header all fall back to the guess. |
| EventUrls.UfcPairs | data/url.py:39-53 | Collecting succeeds exactly when every linked row has an `href`. Otherwise the error names the first linked row without one, whatever its title. On success every title starts with `UFC` and there is at most one pair per row. |
| EventUrls.UfcPairsPositions | data/url.py:39-53 | Before de-duplication the list holds the pair of every UFC row and nothing else, in row order. |
| EventUrls.EventUrlsForYear | data/url.py:39-56 | The lister succeeds exactly when every linked row has an `href`. The result has no repeated pair and at most one pair per row. Every title starts with `UFC`, and every linked UFC row's (title, joined URL) pair is in it. |
| EventUrls.EventUrlsFirstSeen | data/url.py:50-56 | Each returned pair comes from a UFC row. The rows strictly increase along the result, and no earlier UFC row carries the same pair, so each pair appears at its first place in the page. |
| EventUrls.EventUrlsIdempotent | data/url.py:56 | De-duplicating the result again changes nothing. |
| EventUrls.FiveRowsTwoUfc | data/url.py:39-56 | A listing of five linked events of which two are UFC events yields exactly those two pairs, in page order. |

## Left out

- Fetching pages, the user-agent header and the forced UTF-8 decoding of event pages (data/scrape.py:16-17, data/url.py:13-20) are network I/O. A fetched event page is an input, and a request that raises is `Batch.RequestFailed`.
- `resp.apparent_encoding` (data/url.py:31) is a library heuristic. It is the parameter `guess` of `EventUrls.ResponseEncoding`.
- HTML parsing with BeautifulSoup, including the CSS selectors and `get_text(strip=True)`, is not modelled. The parsed page is given as data, with texts already stripped where the source strips them; the score text is raw.
- `urljoin` (data/url.py:52) is URL reference resolution per section 5.2 of RFC 3986. It is the parameter `join`.
- DataFrame construction, reading and writing CSV files, and console progress and error messages are storage and I/O (data/scrape.py:65, 74, 84, 90-92, 95; data/url.py:59-75). The error messages are summarised by the list of failed events.
- pandas dtype details are not modelled: a year column holding missing years becomes floating point in the CSV. The model keeps the year as `Option<int>`.
- Any other exception inside `scrape_event` (a page the parser cannot handle, say) counts as `RequestFailed`. The driver treats every exception alike.
- Scrape.EventYear: treats only ASCII letters, digits and `_` as word characters, and only ASCII digits as digits. Python's `re` on `str` also counts other Unicode letters and digits, so dates written with non-ASCII digits are outside the model.
- The dashboard (app.py) and its aggregations are not part of this model.
