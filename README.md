# HSSAA scraper: table extraction, modelled in Dafny

This project models the table-extraction core of the HSSAA scraper
(`scripts/scrape_hssaa.py`), the nightly job that reads the standings page
and the scores page of each school sports league and writes one JSON snapshot
per league. The model covers:

- `fetch`: up to three requests for a URL, returning the body of the first
  success or nothing (`Fetcher.Fetch`).
- `parse_standings`: each table of the standings page becomes a tier. The
  tier is labelled by the nearest preceding sibling with text, or
  `"Classement"`. A table is skipped when it has fewer than two rows, or when
  its header row has no cells, or when its space-joined header text contains
  neither `"School"` nor `"GP"`. Its data rows are the rows after the header
  with at least three `td` cells. The table yields a tier only if one such row
  exists (`Standings.ExtractStandings`, `Standings.ParseStandings`).
- `parse_scores`: every `tr` of the page with at least three `td` cells, in
  document order (`Scores.ParseScores`).
- `scrape_league`: the two page addresses and the snapshot record
  (`Site.StandingsUrl`, `Site.ScoresUrl`, `League.ScrapeLeague`).

The HTML library is a parameter `soup: string -> Document`. A `Document`
gives every table and every `tr` of the page in document order. A table
carries the stripped texts of its preceding siblings, nearest first, and its
rows. A cell keeps its tag (`th` or `td`) and its stripped text. The network
is a parameter `net: (url, attempt) -> Response`. Each parser is a method with
loops and accumulators, as in the source, and is proved equal to a pure
function (`StandingsOf`, `KeptRows`). The properties are proved about those
functions.

Modules, leaf first: `Wrappers` (Option), `Text` (`" ".join`, the substring
test `in`, `str(int)`), `Html` (document shape and the data-row filter that
both parsers share), `Fetcher`, `Site` (base URL and page addresses),
`Standings`, `Scores`, `League`.

The snapshot's `label` field is called `displayLabel` because `label` is a
Dafny keyword.

The header check at `scripts/scrape_hssaa.py:83` skips a table whose header
row has no `th`/`td` cells (`not headers`). It also skips a table whose
space-joined header text contains neither `"School"` nor `"GP"`.
`Standings.SkipsHeader` models both, and `Standings.SkipsHeaderPerCell` proves
it equal to a test on each header cell.

## Model

| member | source | states |
|---|---|---|
| `Fetcher.Fetch` | scripts/scrape_hssaa.py:43-52 | Makes between 1 and 3 requests. Every request before the last one failed. If a body is returned, it is the body of the last request made. If nothing is returned, exactly 3 requests were made and the last one failed. The result equals `FetchResult`. |
| `Fetcher.FetchResult` | scripts/scrape_hssaa.py:43-52 | The value `fetch` returns. It is nothing exactly when all 3 attempts fail. A body it returns is the body of one of the first 3 attempts. |
| `Fetcher.FetchResultMeaning` | scripts/scrape_hssaa.py:45-52 | A fetch returns a body exactly when one of the first three attempts succeeds. That body is the one from the first successful attempt, and every earlier attempt failed. When all three attempts fail, it returns nothing. |
| `Text.ContainsIffOccurs` | scripts/scrape_hssaa.py:83 | The left-to-right substring scan finds `w` in `s` exactly when `w` occurs at some index of `s`. |
| `Text.JoinContains` | scripts/scrape_hssaa.py:83 | For a non-empty word with no space, searching the space-joined string finds the word exactly when one of the parts contains it. |
| `Text.DecimalRoundTrip` | scripts/scrape_hssaa.py:57 | The decimal text of an integer, as the URL f-string renders it, reads back as that integer. |
| `Site.StandingsUrl` | scripts/scrape_hssaa.py:57 | The standings URL starts with the base URL and `/displayStandings.php?leagueid=`. The rest of it is a numeral that reads back as the league id. |
| `Site.ScoresUrl` | scripts/scrape_hssaa.py:101 | The scores URL starts with the base URL and `/viewScores.php?leagueid=`. Next comes a numeral without `&` that reads back as the league id. Then comes `&schoolid=`, and the rest is a numeral that reads back as the school id. |
| `Site.StandingsUrlInjective` | scripts/scrape_hssaa.py:57 | Two standings URLs are equal exactly when their league ids are equal. |
| `Site.ScoresUrlInjective` | scripts/scrape_hssaa.py:101 | Two scores URLs are equal exactly when both the league ids and the school ids are equal. |
| `Html.DataTexts` | scripts/scrape_hssaa.py:88 | A row's data texts come only from its `td` cells, so there are no more of them than cells. The list is empty exactly when every cell is a `th`. A one-cell row gives its text if the cell is a `td`, and nothing if it is a `th`. |
| `Html.DataTextsAppend` | scripts/scrape_hssaa.py:88 | The data texts of `a + b` are those of `a` followed by those of `b`. With the one-cell case, every `td` cell's text comes out, once and in cell order. |
| `Html.KeptRows` | scripts/scrape_hssaa.py:87-91 | Every kept row has at least 3 cells. No more rows are kept than were read. |
| `Html.KeptRowsAppend` | scripts/scrape_hssaa.py:110-114 | Filtering `a + b` gives the filtered `a` followed by the filtered `b`, so kept rows stay in document order. |
| `Html.KeptRowsMembership` | scripts/scrape_hssaa.py:111-114 | A list of cells is kept exactly when it has at least 3 entries and it is the `td` texts of one of the rows. |
| `Html.KeptRowsNonEmpty` | scripts/scrape_hssaa.py:87-93 | At least one row is kept exactly when some row has at least 3 `td` cells. |
| `Html.KeepDataRows` | scripts/scrape_hssaa.py:109-114 | The row loop with `continue` computes exactly `KeptRows` of its input. |
| `Html.HeaderOnlyRowDropped` | scripts/scrape_hssaa.py:109-114 | A row with only `th` cells is never kept. Wherever it sits in a page, the kept rows are those of the rows before it followed by those of the rows after it. |
| `Standings.FirstLabelled` | scripts/scrape_hssaa.py:70-76 | Gives the index of the nearest preceding sibling with non-empty text, or the number of siblings when there is none. Every nearer sibling is empty. |
| `Standings.TierLabel` | scripts/scrape_hssaa.py:69-76 | The label is never empty. It is `"Classement"` when every preceding sibling is empty. Otherwise it is the text of the nearest non-empty sibling. |
| `Standings.HeaderAccepted` | scripts/scrape_hssaa.py:82-83 | The header test reads `th` and `td` cells alike. A header row passes exactly when one of its cells, of either kind, mentions `"School"` or `"GP"`. |
| `Standings.SkipsHeaderPerCell` | scripts/scrape_hssaa.py:82-84 | `SkipsHeader` is the check as written: no header cells, or a joined header text containing neither `"School"` nor `"GP"`. It skips a table exactly when no header cell contains `"School"` or `"GP"`. This also covers an empty header row. |
| `Standings.TableTier` | scripts/scrape_hssaa.py:78-94 | A tier that a table yields has a non-empty label and at least one row. Each of its rows has at least 3 cells. |
| `Standings.TableTierIff` | scripts/scrape_hssaa.py:78-94 | A table yields a tier exactly when three things hold: it has at least 2 rows, some header cell names `"School"` or `"GP"`, and some row after the header has at least 3 `td` cells. The tier then holds the table's label and the kept rows from `rows[1:]`, so the header row is never among them. |
| `Standings.StandingsOf` | scripts/scrape_hssaa.py:63-96 | There are no more entries than tables. Every entry has a non-empty label and non-empty rows, and each of those rows has at least 3 cells. |
| `Standings.Contribution` | scripts/scrape_hssaa.py:93-94 | One table adds at most one entry. Any entry it adds is the tier it yields, and when it yields a tier, it adds exactly that tier. |
| `Standings.StandingsAppend` | scripts/scrape_hssaa.py:66-67 | The standings of `a + b` are the standings of `a` followed by those of `b`, so entries come out in table order. |
| `Standings.RejectedTableContributesNothing` | scripts/scrape_hssaa.py:78-84 | Removing a table that yields no tier leaves the standings unchanged. |
| `Standings.StandingsMembership` | scripts/scrape_hssaa.py:93-94 | An entry appears exactly when some table of the page yields it. |
| `Standings.ExtractStandings` | scripts/scrape_hssaa.py:63-96 | The table loop computes exactly `StandingsOf` of the page's tables. |
| `Standings.ReadTable` | scripts/scrape_hssaa.py:68-94 | One pass of the table loop computes exactly `TableTier`. That pass is the sibling walk with `break`, the two checks that `continue` (returns of `None` here), the row loop and the non-empty test. |
| `Standings.StandingsPage` | scripts/scrape_hssaa.py:58-60 | An absent or empty page gives no entries. Otherwise there are no more entries than tables. Every entry has a non-empty label and non-empty rows, and each of those rows has at least 3 cells. |
| `Standings.ParseStandings` | scripts/scrape_hssaa.py:55-96 | Fetches the league's standings URL and reads its tables. An absent or empty page yields `[]`. |
| `Standings.OneTierScenario` | scripts/scrape_hssaa.py:66-94 | Take a table under a non-empty heading, with header `School GP W L` and two four-cell rows. It yields exactly one tier, named by the heading and holding both rows in order. |
| `Scores.ScoresPage` | scripts/scrape_hssaa.py:102-104 | An absent or empty page gives no games. Otherwise there are no more games than rows. Every game has at least 3 cells. |
| `Scores.ParseScores` | scripts/scrape_hssaa.py:99-116 | Fetches the league's scores URL for the school and keeps exactly `KeptRows` of every `tr`. An absent or empty page yields `[]`. Every game row has at least 3 cells. |
| `Scores.ScoresWithoutHeader` | scripts/scrape_hssaa.py:109-114 | A page whose only row is a game row of at least 3 `td` cells, with no header row, yields exactly that row. |
| `League.ScrapeLeague` | scripts/scrape_hssaa.py:119-137 | The snapshot's label, league id and school id are the config's, unchanged. Its time stamp is the one given. Its standings and scores are the parser results for the two league URLs. |
| `League.AllFetchesFailed` | scripts/scrape_hssaa.py:127-128 | When every request fails, the snapshot still has both lists, and both are empty. |

## Left out

- HTML tokenising and tree building, and `get_text(strip=True)`: the parsed document and the stripped texts are inputs. So are nested tables, whose rows and `td` cells `find_all` would also return.
- The HTTP transport (`requests.get`, request headers, timeout, status check): each attempt's outcome is an input.
- Fetcher.Fetch: the per-attempt diagnostic line is not modelled, and the attempt count it returns is not returned by the source. The count is there to state the bound of three attempts.
- The time stamp from the UTC clock and its formatting: `updated` is a parameter.
- Writing the snapshot: the output directory, the file path built from the league key, and JSON serialisation. These are file I/O, so the JSON round trip is not modelled.
- The static `LEAGUES` table, `main`, and the progress `print`s are not modelled. They are a driver loop and logging.
- `assets/js/main.js`, `assets/js/staff.js`, `assets/js/include-header.js` and `assets/js/include-footer.js` are not modelled. They are browser UI wiring, DOM templating and XHR includes.
