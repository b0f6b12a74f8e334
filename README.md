# Tournament listing extraction, modelled in Dafny

This project models the extraction core of `tournaments_api.py`. The
extractor takes a parsed Liquipedia tournament page and turns it into a list
of `Tournament` records. The model covers three pieces:

- **The record.** `Tournament` has five string fields. A pydantic validator
  `_clean_str`, registered for every field, keeps `value.strip()`.
- **One row.** `_parse_row` looks up five cells in a table row by their exact
  class strings. It copies each cell's `.text` into the record. A missing
  prize cell becomes `"TBA"`. A missing title, date, team-count or location
  cell raises an error, because `.text` is read on `None`.
- **The page.** `_parse_html` finds every `div` carrying `gridTable` or
  `tournamentCard`. It finds every `gridRow` div inside each one and appends
  one record per row, table by table, in document order.

Modules:

- `Wrappers` holds `Option` and `Result`.
- `PyStr` models Python's `str.isspace()` and argument-less `str.strip()`,
  including the Unicode white-space characters.
- `Soup` models the parsed document as a tree of `Node`s. It gives the three
  BeautifulSoup operations the extractor uses: `find_all`, `find` and `.text`.
  Class matching follows BeautifulSoup's rule for the multi-valued `class`
  attribute: an element matches if one of its tokens is a wanted value, or if
  its whole space-joined attribute value is.
- `Lists` holds generic facts about flattening a list of lists, and about
  collecting a list of results that stops at the first failure.
- `TournamentsApi` holds the record, `ParseRow` (`_parse_row`) and the
  imperative `ParseHtml` (`_parse_html`). `ParseHtml` uses two nested `for`
  loops that append to a list. It is proved equal to the specification
  function `ParseAll(Rows(html))`, and the lemmas prove that function's
  properties.
- `CellOrder` holds two concrete examples of `TournamentsApi.CellMatch`. They
  show that a cell's class tokens must appear in the order the lookup string
  spells them.

`_parse_html` does not catch the `AttributeError` that `_parse_row` raises
when it reads `.text` from a missing cell, so the exception ends the whole
call. The model returns `Failure(MissingCell(f))` for the whole page, where
`f` is the first mandatory cell missing, in the order the keyword arguments
of `Tournament(...)` are evaluated: one bad row fails the page and no
partial list is returned. A page with no tables yields `[]`, not an error.
The cell selectors are single space-joined strings, which BeautifulSoup
compares with the whole `class` attribute value, so the order of a cell's
class tokens matters (`CellOrder`).

## Model

| member | source | states |
|---|---|---|
| PyStr.Strip | tournaments_api.py:14-15 | the stripped value has no white space at its start or end |
| PyStr.StripIsCut | tournaments_api.py:14-15 | the stripped value is a slice of the input, and everything outside that slice is white space |
| PyStr.StripUnique | tournaments_api.py:14-15 | any slice with only white space around it and none at its edges is the result of strip, so strip drops exactly the longest white-space prefix and suffix |
| PyStr.StripFixedIff | tournaments_api.py:14-15 | strip leaves a string unchanged if and only if it has no white space at its start or end |
| PyStr.StripIdempotent | tournaments_api.py:14-15 | stripping twice gives the same as stripping once |
| TournamentsApi.NewTournament | tournaments_api.py:6-15 | each of the five fields of a built record is the stripped value supplied, so the record is clean |
| TournamentsApi.NewTournamentFixedIff | tournaments_api.py:13-15 | validation leaves a record unchanged if and only if every field is clean |
| TournamentsApi.RebuildUnchanged | tournaments_api.py:13-15 | rebuilding a record from the fields of a built record changes no field |
| Soup.Filter | tournaments_api.py:28-30 | a node is kept if and only if it is in the input and matches the search |
| Soup.FilterFirst | tournaments_api.py:35-43 | the first node kept is the earliest matching node of the input |
| Soup.FilterAppend | tournaments_api.py:28-30 | filtering keeps document order and distributes over concatenation |
| Soup.ClassMatch | tournaments_api.py:28-43 | an element with a single class token matches exactly when that token is wanted, and nothing matches an empty list of wanted values |
| Soup.FindAll | tournaments_api.py:28-30 | `find_all` keeps exactly the descendants that match the search |
| Soup.Find | tournaments_api.py:35-43 | `find` returns a node if and only if some descendant matches, and the node it returns is a matching descendant |
| Soup.FindGivesFirstMatch | tournaments_api.py:35-43 | `find` returns the first matching descendant in document order, and only that node |
| Soup.FirstMatchUnique | tournaments_api.py:35-43 | a search has at most one first match |
| Soup.Text | tournaments_api.py:45-49 | `.text` of an element is the `.text` of its children, concatenated in order |
| Soup.AnyTokenMatch | tournaments_api.py:28-30 | for space-free wanted values, an element matches if and only if one of its class tokens is wanted |
| Soup.WholeValueMatch | tournaments_api.py:35-43 | for a wanted value containing a space, an element matches if and only if its space-joined class attribute equals that value |
| TournamentsApi.TableMatch | tournaments_api.py:28 | a `div` is a table if and only if one of its class tokens is `gridTable` or `tournamentCard` |
| TournamentsApi.RowMatch | tournaments_api.py:30 | a `div` is a row if and only if one of its class tokens is `gridRow` |
| TournamentsApi.CellMatch | tournaments_api.py:35-43 | a `div` is a field's cell if and only if its space-joined class attribute is exactly that field's class string |
| CellOrder.TitleCellInSourceOrder | tournaments_api.py:35 | a `div` with classes `gridCell`, `Tournament`, `Header` in that order is the title cell |
| CellOrder.TitleTokensJoin | tournaments_api.py:35 | the tokens `gridCell`, `Tournament`, `Header` joined in that order spell the title's class string |
| CellOrder.TitleCellReordered | tournaments_api.py:35 | the same three tokens in the order `Tournament`, `gridCell`, `Header` are not the title cell |
| TournamentsApi.ParseRow | tournaments_api.py:34-50 | a row yields a record if and only if its title, date, team-count and location cells are all present; otherwise the error names a mandatory cell the row lacks |
| TournamentsApi.ParseRowFirstMissing | tournaments_api.py:44-49 | the error names the first missing mandatory cell in argument order: every mandatory cell before it is present |
| TournamentsApi.ParseRowClean | tournaments_api.py:44-50 | every record a row yields has no white space at the start or end of any field |
| TournamentsApi.ParseRowField | tournaments_api.py:35-49 | each field of the record, the prize included when its cell exists, is the stripped `.text` of the first cell matching that field's class string |
| TournamentsApi.ParseRowPrizeDefault | tournaments_api.py:37-47 | a row without a prize cell gets the prize `TBA` |
| TournamentsApi.PlaceholderIsClean | tournaments_api.py:47 | the placeholder `TBA` passes the validator unchanged |
| TournamentsApi.ParseAll | tournaments_api.py:29-31 | a successful result has one record per row |
| TournamentsApi.ParseAllSuccess | tournaments_api.py:29-31 | the rows succeed as a whole if and only if every row parses, and record `k` is row `k`'s record |
| TournamentsApi.ParseAllFailure | tournaments_api.py:29-31 | a failure carries the error of the first row that fails; every row before it parsed |
| TournamentsApi.ParseAllAt | tournaments_api.py:29-31 | record `k` of a successful parse is the record of row `k` |
| TournamentsApi.ParseAllStep | tournaments_api.py:31 | one more row either appends its record or makes its error the outcome |
| TournamentsApi.ParseAllAbort | tournaments_api.py:29-31 | once a row fails, the rows after it do not change the outcome |
| TournamentsApi.ParseHtml | tournaments_api.py:26-32 | the nested loops return exactly `ParseAll` of all the rows of all the tables, table by table and row by row, stopping at the first row that raises |
| TournamentsApi.RecordCount | tournaments_api.py:28-31 | there are as many records as rows found, summed over the tables |
| TournamentsApi.RecordAt | tournaments_api.py:28-31 | the record of row `j` of table `i` comes after the records of all rows of the earlier tables and of the `j` earlier rows of its own table |
| TournamentsApi.RecordSource | tournaments_api.py:28-31 | every record comes from some row `j` of some table `i`, at the place RecordAt gives |
| TournamentsApi.NoRowsNoRecords | tournaments_api.py:27-32 | a page with no tables, or whose tables have no rows, gives the empty list and not an error |
| TournamentsApi.BadRowFailsDocument | tournaments_api.py:31-45 | one row lacking a mandatory cell makes the whole page fail; no partial list is returned |

## Left out

- The HTTP request and BeautifulSoup's parsing of bytes into a tree (`get`, tournaments_api.py:21-24) are network I/O and a library parser. The model starts from the parsed tree, a `Soup.Node`.
- `.text` in the model concatenates every text node below an element. The tree has no comment, CDATA or other special string kinds, so how BeautifulSoup treats those is not part of this model.
- The pydantic model's type coercion and its other validation are not modelled. Every field is already a string here, and only the `"*"` validator's strip is modelled.
- The URL constant (tournaments_api.py:19) is used only by `get`.
- tournaments_calendar.py, main_server.py and main_cli.py are not part of this model. They are iCalendar serialisation with a clock and file I/O, a web endpoint and a command-line shim.
- game.py is not part of this model. It is an enumeration of game names with no behaviour used by the extractor.
- Date-range parsing, tournament tiers and tournament URLs do not exist in the extractor's code. `date` is kept as the raw cell text.
- Python's exception is modelled as a `Result` failure naming the missing cell. The exception's message and type are not modelled.
- The model has no mutation of the tree, no aliasing and no concurrency. The extractor does none of these.
