# ZipRecruiter job scraper — a Dafny model

This project models the core logic of a small job-listing scraper for
ZipRecruiter. It has two entry points.

- `scraper.py` runs one browser session per search term, in parallel. For each
  job card on the result page it reads the card's text and builds one row:
  - title, company, location, salary and link;
  - a TF-IDF match percentage against the résumé profile;
  - the first 500 characters of the card's description.

  Each term's rows are tagged with the term. The rows of all terms are merged,
  rows with the same (title, company) pair are dropped, and the rest are
  ordered by match percentage, highest first. Finally a plain-text notes file
  is written.
- `cookie_scraper.py` fetches the result page over HTTP. It keeps one record
  per card that has both a title and a company, and scores each record by how
  many résumé keywords occur in its title as whole words. It then saves every
  record, ordered by score.

The model works on what those programs compute. The browser, the HTTP
session and the HTML parser are outside it: a card arrives as the texts the
page returned for it.

| file | module | models |
|---|---|---|
| `text.dfy` | `PyText` | the Python string operations the core uses: `strip`, `lower`, `split`, `startswith`, `in`, `str(int)`, and repetition |
| `ranking.dfy` | `Ranking` | `sort_values(ascending=False)`: non-increasing and a permutation |
| `keyword_score.dfy` | `KeywordScore` | `calculate_match_score`, with `\b` word boundaries |
| `cookie_scraper.dfy` | `CookieScraper` | the record rule, `scrape_with_cookies` and the main block's sort |
| `card_extraction.dfy` | `CardExtraction` | `compute_match_pct`'s guard and `extract_jobs_from_page`'s field rules |
| `search.dfy` | `Search` | `scrape_ziprecruiter`'s tagging and failures, and `search_all_titles`' merge, de-duplication and sort |
| `notes.dfy` | `Notes` | `save_to_notes`' file layout |

Points where the model follows the code's exact behaviour:

- De-duplication compares the exact title and company strings, as
  `drop_duplicates(subset=["title", "company"])` does. Titles that differ only
  in case or surrounding whitespace are kept as separate rows, and so does
  `Search.Dedup`.
- The sort is pandas' default `sort_values`, which is not stable: rows with
  equal match percentages may come out in any order. So only "non-increasing
  and a permutation" is claimed. `Ranking.SortedPermutationsAgreeOnKeys` shows
  that this fixes the key column position by position.
- A card without a link gets the URL "N/A". That value does not start with
  "http", so the next statement prefixes it with the site's origin. The model
  keeps this behaviour, and `CardExtraction.MissingLinkIsPrefixed` states the
  resulting value.
- The match percentage is computed on the title and the full description. The
  description is cut to 500 characters only afterwards.

## Model

| member | source | states |
|---|---|---|
| PyText.Strip | scraper.py:63 | `str.strip()`: the result is no longer than the input, has no whitespace at either end, and is empty exactly when the input is all whitespace |
| PyText.StripIsSlice | scraper.py:63 | stripping removes characters only at the ends: the result is a contiguous slice of the input |
| PyText.StripKeepsChars | scraper.py:63 | stripping only removes characters: every character of the result occurs in the input |
| PyText.StripUnchanged | scraper.py:63 | a text without whitespace at either end is its own strip |
| PyText.Lower | cookie_scraper.py:24 | `str.lower()` keeps the length and lower-cases each character |
| PyText.LowerIdempotent | cookie_scraper.py:24-26 | lower-casing twice is lower-casing once |
| PyText.Split | scraper.py:63 | `str.split("\n")`: at least one part, no part holds the separator, and joining the parts with the separator gives the text back |
| PyText.SplitJoin | scraper.py:63 | the other round trip: splitting the join of separator-free parts gives the parts |
| PyText.SplitNoSeparator | scraper.py:63 | a text without the separator splits into itself alone |
| PyText.SplitPrefix | scraper.py:63 | a separator-free first piece followed by the separator becomes the first part |
| PyText.NatToString | scraper.py:201 | `str(n)` for a count: non-empty decimal digits, no leading zero unless "0", reading back as `n` |
| PyText.Repeat | scraper.py:202 | `"=" * 50`: that many copies of the character |
| Ranking.SortDesc | scraper.py:175 | `sort_values(by=..., ascending=False)`: the result is non-increasing in the key and a permutation of the rows |
| Ranking.SortedPermutationsAgreeOnKeys | scraper.py:175 | any two non-increasing permutations of the same rows agree on the key at every position, so an unstable sort can only reorder rows with equal keys |
| KeywordScore.CountMatches | cookie_scraper.py:25-27 | the number of matching keyword entries never exceeds the number of entries |
| KeywordScore.MatchScore | cookie_scraper.py:21-28 | the score is at most the number of keyword entries, and 0 for an empty text |
| KeywordScore.CalculateMatchScore | cookie_scraper.py:21-28 | the scoring loop computes `MatchScore`: one point per entry found as a whole word in the lower-cased text |
| KeywordScore.MatchScoreCountsEntries | cookie_scraper.py:25-27 | for a non-empty text the score is the number of list positions whose keyword matches, so repeated occurrences in the text add nothing |
| KeywordScore.CountMatchesIsCardinality | cookie_scraper.py:25-27 | the count equals the size of the set of matching entry positions |
| KeywordScore.CountMatchesAppend | cookie_scraper.py:25-27 | scoring against two keyword lists in sequence adds their scores |
| KeywordScore.DuplicatedKeywordsCountTwice | cookie_scraper.py:25-27 | a keyword list given twice doubles the score |
| KeywordScore.MatchScoreIgnoresTextCase | cookie_scraper.py:24 | lower-casing the text first leaves the score unchanged |
| KeywordScore.MatchScoreIgnoresKeywordCase | cookie_scraper.py:26 | lower-casing every keyword leaves the score unchanged |
| KeywordScore.KeywordInsideWordDoesNotCount | cookie_scraper.py:26 | `\b` anchoring: "sql" is not found in "i know mysql" but is found in "sql and python" |
| KeywordScore.DataEngineerScoresTwo | cookie_scraper.py:21-28 | with keywords "data" and "engineer", the title "Data Engineer" scores 2 |
| CookieScraper.CardRecord | cookie_scraper.py:60-73 | a card yields a record exactly when it has a title and a company and its link, if any, has an `href` |
| CookieScraper.CardRecordFields | cookie_scraper.py:65-73 | the record holds the stripped title and company, the stripped location or "N/A", the link's `href` or "N/A", and the keyword score of the stripped title, at most the number of keywords |
| CookieScraper.CardRecords | cookie_scraper.py:58-73 | the records of a list of cards are never more than the cards |
| CookieScraper.CardRecordsFromCards | cookie_scraper.py:58-73 | no more records than cards; every record is the record of one of the cards, scored on its own title and bounded by the number of keywords |
| CookieScraper.CardRecordsInCardOrder | cookie_scraper.py:58-73 | the records are exactly the records of the qualifying cards, each card at most once and in card order: record `j` comes from card `at[j]`, the positions increase, and every card with a title, a company and a usable link is among them |
| CookieScraper.ScrapeWithCookies | cookie_scraper.py:49-80 | a failed request gives no records; otherwise the card loop gives the records of the cards in card order |
| CookieScraper.ManualScrapeAll | cookie_scraper.py:82-91 | nothing is saved exactly when no search title yields a record; otherwise the saved table holds every record once, ordered by score, highest first, each score at most the keyword count |
| CookieScraper.AllRecords | cookie_scraper.py:83-86 | the records of all search titles concatenated; when every request failed there are none |
| CookieScraper.AllRecordsScored | cookie_scraper.py:83-86 | every collected record carries the keyword score of its title, at most the number of keywords |
| CardExtraction.ComputeMatchPct | scraper.py:34-44 | an empty text, or one whose stripped length is below 20, scores 0.0; a long enough text scores the similarity when it is computed; a non-zero score is always the similarity's value |
| CardExtraction.NonBlankStripped | scraper.py:63 | the kept lines are non-empty stripped pieces, no more than there were pieces |
| CardExtraction.NonBlankStrippedAppend | scraper.py:63 | the pieces are filtered one at a time and in order: the lines of two runs of pieces are the first run's lines followed by the second's |
| CardExtraction.NonBlankStrippedKeepsEvery | scraper.py:63 | every piece that is not blank once stripped is kept, stripped |
| CardExtraction.CardLines | scraper.py:62-63 | every card line is non-empty, already stripped, and free of newlines |
| CardExtraction.CardLinesFirstLine | scraper.py:62-63 | the card lines of a text are those of its first line (its stripped text unless blank) followed by those of the rest of the text |
| CardExtraction.CardLinesOneLine | scraper.py:62-63 | a text without a newline gives its stripped text as its only card line, or none when that is blank |
| CardExtraction.CardLocation | scraper.py:66 | the `i`-th card's location is the stripped `i`-th location element, or "N/A" when there are fewer location elements than cards; either way it has no surrounding whitespace |
| CardExtraction.TitleOf | scraper.py:68-72 | the title is "N/A" or one of the card's lines that is neither the company nor the location, is longer than 3 and does not start with "$" |
| CardExtraction.TitleIsFirstQualifyingLine | scraper.py:68-72 | the title is "N/A" exactly when no line qualifies (not the company, not the location, longer than 3, not starting with "$"); otherwise it is the first line that qualifies |
| CardExtraction.PickTitle | scraper.py:68-72 | the loop with `break` finds that first qualifying line |
| CardExtraction.SalaryOf | scraper.py:79-83 | the salary is "N/A" or one of the card's lines that holds "$", "year" or "hour" (case-insensitively) |
| CardExtraction.MissingIsNoSalaryLine | scraper.py:79-83 | the "N/A" placeholder itself never looks like a salary |
| CardExtraction.SalaryIsFirstQualifyingLine | scraper.py:79-83 | the salary is "N/A" exactly when no line holds "$", "year" or "hour" (case-insensitively); otherwise it is the first such line |
| CardExtraction.PickSalary | scraper.py:79-83 | the loop with `break` finds that first salary line |
| CardExtraction.ResolveUrl | scraper.py:76-77 | an empty or absolute URL is kept; any other gets the site origin prefixed, so the result is empty or starts with "http" |
| CardExtraction.ResolveUrlIdempotent | scraper.py:76-77 | resolving a resolved URL changes nothing |
| CardExtraction.MissingLinkIsPrefixed | scraper.py:74-77 | a card without a link ends up with the URL "https://www.ziprecruiter.comN/A" |
| CardExtraction.StoredDescription | scraper.py:104 | the stored description is a prefix of the loaded one, at most 500 characters, the whole of it when it fits, and exactly 500 characters otherwise |
| CardExtraction.CardJob | scraper.py:96-107 | a fresh row has no search term yet and a description of at most 500 characters |
| CardExtraction.CardJobFields | scraper.py:62-107 | a row holds the stripped company and the card's location; a title that is "N/A" or a card line that is neither that company nor that location, is longer than 3 and does not start with "$"; a salary that is "N/A" or a card line that looks like a salary; an empty or absolute URL, a prefix of the loaded description, a zero match when title and description are too short, and the scrape time |
| CardExtraction.ParseCard | scraper.py:58-107 | the body of the per-card loop builds exactly the row `CardJob` describes |
| CardExtraction.PageRowsCount | scraper.py:56-113 | the page yields one row per readable card, so one per card when none raises |
| CardExtraction.PageRowsFromCards | scraper.py:56-111 | every row is the row of a readable card at that card's position |
| CardExtraction.PageRowsPositions | scraper.py:56-113 | the rows are exactly those of the readable cards, each card at most once and in page order: row `j` is built from readable card `at[j]` at its own index, the positions increase, and every readable card is among them |
| CardExtraction.ExtractJobsFromPage | scraper.py:47-113 | the card loop computes `PageRows`: it skips the cards whose reads raise and, by `PageRowsPositions`, appends the row of every other card once, in page order |
| Search.TagJobs | scraper.py:136-137 | every row gets the search term as its `search_title` and nothing else changes |
| Search.TermResultOf | scraper.py:116-146 | what the call yields: an exception exactly when the session could not be set up or closing it raised; no rows when the page failed; one row per readable card of a loaded page; every row tagged with the term |
| Search.ScrapeZipRecruiter | scraper.py:116-146 | the method computes `TermResultOf`: it raises exactly when the session could not be set up or closing it raised; a page failure gives no rows; every row returned carries the term |
| Search.TermRowsTagged | scraper.py:127-146 | a term contributes rows only when its page loaded, and every one carries the term |
| Search.CollectedGrows | scraper.py:160-164 | `all_jobs` only grows: the rows collected after `m` futures begin with those collected after any earlier number of futures |
| Search.CollectedMembership | scraper.py:160-164 | after `m` futures, a row has been collected exactly when one of those futures returned it |
| Search.CollectedIndependentOfOrder | scraper.py:154-167 | whatever order the futures complete in, a row is collected exactly when some term's future returned it |
| Search.FailedTermsContributeNothing | scraper.py:160-167 | every collected row comes from a term whose page loaded, and carries that term |
| Search.NothingReturnedCollectsNothing | scraper.py:160-171 | when no future returns a row, nothing is collected |
| Search.NothingLoadedCollectsNothing | scraper.py:121-171 | when no term's page loads, nothing is collected |
| Search.Dedup | scraper.py:174 | `drop_duplicates(subset=["title", "company"])`: no two rows share the pair, every pair of the input survives, every row kept is an input row, and the result is no longer |
| Search.DedupKeepsEveryFirstOccurrence | scraper.py:174 | the first row with each (title, company) pair is kept |
| Search.DedupKeepsOnlyFirstOccurrences | scraper.py:174 | only those first rows are kept |
| Search.DropDuplicates | scraper.py:174 | the pass with a set of pairs already seen computes `Dedup` |
| Search.PermutationKeepsKeys | scraper.py:174-175 | sorting after de-duplication keeps the length, the set of pairs and their uniqueness |
| Search.Aggregate | scraper.py:169-178 | no rows give an empty table; otherwise the table holds the de-duplicated rows once each, highest match first, with distinct pairs, the input's pairs, and no more rows than the input |
| Search.SearchAllTitles | scraper.py:149-178 | the collected rows, de-duplicated and sorted: the table is a permutation of the de-duplicated rows, non-increasing in the match, free of repeated pairs, and every row comes from a loaded term and carries it |
| Search.TableRowsTagged | scraper.py:160-178 | every row of a table drawn from the de-duplicated collected rows comes from a term whose page loaded, and carries that term |
| Search.TableKeysIndependentOfOrder | scraper.py:160-175 | the table's (title, company) pairs do not depend on the completion order |
| Notes.SaveToNotes | scraper.py:191-211 | the lines written are the notes layout for the table, with the empty case for a missing or empty table |
| Notes.NotesHeader | scraper.py:193-202 | the file built by `NotesLines` starts with the heading, the timestamp and the row count (0 for no table); its fourth line is "# No jobs found." exactly when there are no rows, and otherwise the fourth and fifth lines are the rule of 50 "=" and a blank line |
| Notes.WriteSection | scraper.py:205-211 | the writes for one row give its eight-line section: heading, six labelled fields and a blank line |
| Notes.SectionsAt | scraper.py:204-211 | the sections take 8 lines per row, and row `k`'s section, numbered `k + 1`, occupies lines `8k` to `8k + 7` |
| Notes.NotesLayout | scraper.py:194-211 | an empty table gives four lines; otherwise the file has `5 + 8n` lines, the third states the row count, and row `k`'s section starts at line `5 + 8k` |
| Notes.TotalLineReadsBack | scraper.py:201 | the count line is the label followed by digits that read back as the row count |
| Notes.ReadEntry | scraper.py:205-211 | a reader of the section layout, the inverse used by `ReadEntryOfSection` and `NotesReadBack`, not a model of the writes; its own contract states only that an entry is read from at least seven lines |
| Notes.ReadEntryOfSection | scraper.py:205-211 | reading a written section after its 15-character labels gives back the row's title, company, location, salary and URL |
| Notes.FileTextSplits | scraper.py:193-211 | splitting the file text on newlines gives the lines back, plus the empty text after the last newline |
| Notes.NotesReadBack | scraper.py:191-211 | when no field holds a newline, splitting the written file and reading the section at line `5 + 8k` recovers row `k`'s fields |

## Left out

- Playwright, `requests` and BeautifulSoup are not modelled. They cover launching the browser, loading pages, waits, clicks, cookies and HTTP. A page is given as the texts of the elements the code queries.
- A failure of any of these steps is given as a value. Examples are `PageOutcome.SessionFailed` and `PageOutcome.PageFailed`, a `CardRead.Unreadable` card, a `None` detail pane, and a `None` response.
- The TF-IDF vectorizer and cosine similarity are not modelled. `ComputeMatchPct` takes them as a function returning a percentage in [0, 100], or `None` when the vectorizer raises.
- The clock readings (`datetime.now()`) are parameters.
- Python's `str()` of the match percentage is a parameter of the notes layout.
- The thread pool is not modelled. The order in which the futures complete is a parameter: any ordering of the terms. `MAX_WORKERS` only affects timing.
- Logging, `time.sleep`, `print`, and the CSV writes (`save_to_csv`, the main blocks' `to_csv`) are not modelled.
- Opening and writing the notes file are not modelled. `SaveToNotes` returns the file's lines, and the text is `FileText` of them. The error handler that logs a failed write, leaving a partial file, is not modelled.
- `strip`, `lower` and `\w` are modelled on ASCII only. Python's Unicode whitespace, case mapping and word characters beyond ASCII are not.
- Pandas DataFrames are modelled as sequences of rows. The in-place `drop_duplicates` returns a new sequence.
- `SortDesc` is one particular ordering. Only the properties every non-increasing sort shares are stated about it, because pandas' default sort is not stable.
- `config.py` (`SEARCH_TITLES`, `RESUME_KEYWORDS`) is not part of this model. The search terms and keywords are parameters.
- `main.py` is not part of this model.
- `link.get_attribute("href")` is not modelled as returning `None`, because the `a[href]` selector only finds links that carry an `href`.
- CookieScraper.CardRecord: a link element without an `href` makes the subscript raise, and the card is skipped. This is modelled as `Link(None)`. No other exception inside the record building is modelled.
