# China box-office scraper, modelled in Dafny

`scrape.py` fetches the daily box-office table of the EntGroup site, takes the
top five films and writes them into a static HTML page. This project models the
logic between the network fetch and the file write:

- `clean_text`: drops `$`, turns `\n` and `\r` into spaces, collapses runs of
  whitespace and trims the ends (module `Text`, with Python's `split`, `join`
  and `strip` written out over Python's whitespace set);
- the report date: spaces are removed from the value of the `txtdate` input,
  the rest is read as `%m/%d/%Y` and rewritten as `DD.MM.YYYY`, and any failure
  keeps the fallback date (module `Dates`);
- the row walk of `get_data`: rows with fewer than eight cells or a
  non-numeric stripped first cell are skipped, at most five rows are taken, and
  each yields rank, title, days, daily and total gross. A taken row with exactly
  eight cells raises `IndexError` on the ninth cell, and the outer handler turns
  the whole result into an empty list (module `Extract`, method `ScanTable`
  proved against the function `Extracted`);
- `get_data` around it (the fetch failing, the table missing) and the entry
  point (module `Scraper`);
- `generate_html`: the page as a list of blocks — the banner with the date,
  then either the "KEINE DATEN" block or one row block per film, then the
  closing part (module `Render`).

The parsed page is an input: a `Page` holds the `txtdate` value (if any) and
the table rows (if the table exists). Each row is its list of cell texts plus
the text of the `<strong>` element in cell 1, if there is one. The clock reading
used for the fallback date is a parameter.

## Model

| member | source | states |
|---|---|---|
| Text.CleanText | scrape.py:21-25 | the result is normalised (single spaces only, none leading, trailing or doubled) and holds no `$` |
| Text.CleanTextNormalized | scrape.py:21-25 | the empty input gives ""; the result holds no `$`, `\n` or `\r`, does not start or end with a space, has no two spaces in a row and no whitespace other than single spaces |
| Text.CleanTextFixpoints | scrape.py:21-25 | `clean_text` leaves a string unchanged exactly when the string is already normalised and holds no `$` |
| Text.CleanTextIdempotent | scrape.py:21-25 | cleaning twice gives the same as cleaning once |
| Text.CleanTextKeepsVisible | scrape.py:24-25 | apart from the removed `$`, cleaning keeps every non-whitespace character, in order |
| Text.CleanTextWords | scrape.py:21-25 | for every text, including the empty one, the result is the space-join of the words of the unformatted text, and "" exactly when there are none |
| Text.CleanTextSeparated | scrape.py:24-25 | a run of whitespace between two pieces of text becomes exactly one space: the two cleaned pieces joined by one space, or just the one that does not clean to "" |
| Text.UnformatConcat | scrape.py:24 | the three `replace` calls act on each piece of a concatenation separately |
| Text.UnformatBlank | scrape.py:24 | the three `replace` calls turn whitespace into whitespace of the same length |
| Text.JoinSplitNonBlank | scrape.py:25 | `" ".join(s.split())` keeps the non-whitespace characters of `s` in order |
| Text.JoinSplitNormalized | scrape.py:25 | `" ".join(s.split())` returns a normalised `s` unchanged |
| Text.JoinNormalized | scrape.py:25 | joining whitespace-free, non-empty words with single spaces gives a normalised string |
| Text.JoinCons | scrape.py:25 | `" ".join` of a word followed by more words is the word, one space, and the join of the rest (unfolds the definition) |
| Text.JoinConcat | scrape.py:25 | `" ".join` of two non-empty word lists is their two joins with one space between |
| Text.SplitWords | scrape.py:25 | `split()` yields non-empty words without whitespace |
| Text.SplitBlank | scrape.py:25 | `split()` yields no words exactly when the string is all whitespace |
| Text.SplitWord | scrape.py:25 | `split()` of a single word is that word alone |
| Text.SplitSkip | scrape.py:25 | leading whitespace does not change the words of `split()` |
| Text.SplitWordThen | scrape.py:25 | a word followed by whitespace, or by nothing, is the first word of `split()` and the rest are the words after it |
| Text.SplitSeparated | scrape.py:25 | the words of `x + sep + y`, for a non-empty run of whitespace `sep`, are the words of `x` followed by the words of `y` |
| Text.Strip | scrape.py:76 | `strip()` returns a string that neither starts nor ends with whitespace |
| Text.StripFrame | scrape.py:76 | `strip()` removes exactly the leading and trailing whitespace and keeps everything between |
| Text.TrimStartBlank | scrape.py:76 | `lstrip()` removes exactly the leading whitespace |
| Text.TrimEndBlank | scrape.py:76 | `rstrip()` removes exactly the trailing whitespace |
| Text.RemoveAll | scrape.py:24 | `replace('$', '')` leaves no `$` and adds no character |
| Text.RemoveAllConcat | scrape.py:24 | `replace('$', '')` on a concatenation is the concatenation of the two results |
| Text.RemoveAllChar | scrape.py:24 | `replace('$', '')` drops a single character exactly when it is `$` and keeps it otherwise (unfolds the definition) |
| Text.ReplaceAll | scrape.py:24 | `replace('\n', ' ')` keeps the length and puts a space at every position that held `\n` and the original character everywhere else |
| Text.ReplaceAllConcat | scrape.py:24 | `replace('\n', ' ')` on a concatenation is the concatenation of the two results |
| Dates.DaysInMonth | scrape.py:53 | months have 28 to 31 days, and 29 exactly for February of a leap year |
| Dates.ParseDate | scrape.py:52-53 | a parsed date is always a valid calendar date with a year from 1 to 9999 |
| Dates.FormatDate | scrape.py:54 | `%d.%m.%Y` gives ten characters, dots at positions 2 and 5, and digit groups that read back as day, month and year |
| Dates.ParseUsDate | scrape.py:53 | `M/D/YYYY`, with month and day each zero-padded or a single digit, parses back to its own year, month and day exactly when they form a valid date |
| Dates.ParsedIsSpelled | scrape.py:52-53 | every space-free value that `strptime` accepts is one of those spellings of the date it returns |
| Dates.ReportDate | scrape.py:48-56 | a missing or empty value keeps the fallback, and the result is always the fallback or `DD.MM.YYYY` of a valid date |
| Dates.ReportDateOfUsDate | scrape.py:48-56 | a valid `M/D/YYYY` value in any of the four spellings becomes `DD.MM.YYYY`; an invalid one (month 13, 30 February, 29 February outside a leap year, year 0000) keeps the fallback |
| Dates.ReportDateIgnoresSpaces | scrape.py:52 | removing spaces from the value beforehand does not change the report date |
| Extract.QualifyingMembers | scrape.py:68-77 | a row is kept exactly when it is a row of the table and has at least eight cells and an all-digit stripped first cell |
| Extract.QualifyingQualifies | scrape.py:73-77 | every row kept has at least eight cells and a stripped first cell made of digits |
| Extract.QualifyingConcat | scrape.py:68-77 | the rows kept from two consecutive stretches of the table are those of the first followed by those of the second |
| Extract.Money | scrape.py:96-101 | a gross amount starts with `$`, ends with ` M` and holds no other `$` |
| Extract.MakeMovie | scrape.py:81-112 | title and days hold no `$`; title and days are normalised; daily and total start with `$` and end with ` M` |
| Extract.MovieFields | scrape.py:76-104 | an entry's rank is the stripped cell 0 and made of digits; the title is the cleaned strong text if present, else the cleaned cell 1; days is the cleaned cell 8; daily and total are `$` + cleaned cell 2 or 3 + ` M` (unfolds the definition) |
| Extract.Extracted | scrape.py:67-69 | the list returned for a table has at most five entries |
| Extract.ScanTable | scrape.py:65-116 | the loop returns `Extracted(rows)`, at most five entries |
| Extract.ExtractedEmpty | scrape.py:65-120 | the result is empty exactly when no row qualifies or one of the first five qualifying rows has exactly eight cells |
| Extract.ExtractedEntries | scrape.py:65-116 | a non-empty result holds one entry per qualifying row, up to five, entry k built from qualifying row k |
| Extract.LeadingPrefix | scrape.py:67-69 | the rows taken are the first five qualifying rows, or all of them when fewer qualify (unfolds the definition) |
| Extract.SkipsNonQualifying | scrape.py:73-77 | a row that does not qualify can be removed without changing the result |
| Extract.ExtractedStopsAtFive | scrape.py:69 | after five qualifying rows, later rows do not affect the result |
| Extract.ExtractedEightCells | scrape.py:103-120 | a qualifying row with exactly eight cells, reached before five rows were taken, makes the whole result empty |
| Extract.ExtractedAppends | scrape.py:106-113 | a qualifying row with a ninth cell appends its own entry after the earlier ones |
| Render.GenerateHtml | scrape.py:202-231 | the banner shows the date and comes first, the closing part comes last; no films gives exactly banner, "KEINE DATEN", closing; otherwise row block k shows film k and there is no "KEINE DATEN" block; there are exactly as many row blocks as films |
| Render.MoviesOfCountsRows | scrape.py:209-231 | reading a document's films back gives one film per row block |
| Scraper.GetData | scrape.py:33-120 | a failed fetch gives no films and the fallback date; otherwise the date is the report date of the `txtdate` value, a missing table gives no films, and a table gives `Extracted(rows)` |
| Scraper.Run | scrape.py:247-249 | the page shows the films extracted from the table when there is one and none when the page could not be fetched or has no table; at most five; and "KEINE DATEN" exactly when there are none; the page is the date banner, then either "KEINE DATEN" or one row per film in order, then the closing block, and nothing else |

## Left out

- The HTTP session, retries, headers, timeout and encoding detection are not modelled: they are network I/O. A failed fetch or parse is the `None` page.
- BeautifulSoup's `find` and `find_all` are not modelled. The rows and cells they return are inputs. `find_all('td')` collects nested cells too, so the model makes no claim that cells are direct children of the row.
- `datetime.now()` is not modelled. The current date is a parameter of `GetData` and `Run`.
- The literal HTML and CSS text of the page is reduced to four kinds of block. Titles and other values are not HTML-escaped in the source, and the model does not look inside them.
- Writing `index.html` and the `print` logging are not modelled: they are I/O.
- Text.IsDigit: `str.isdigit()` and strptime's `\d` also accept non-ASCII digits. The model accepts only `0`-`9`.
- Text.CleanText: `clean_text(None)` returns `""` in the source. Every call site passes a string, and the model takes strings only.
- Dates.FormatDate: always writes the year as four digits. Below year 1000, `%Y` depends on the platform's C library. Such years come only from values like `0999` that the model parses.
- Dates.ParsedIsSpelled: covers only values without spaces. The day alternative ` 5` (a space, then one digit) that `strptime` also accepts never reaches it, because the value's spaces are removed first.
- Scraper.GetData: when the table is missing, the source returns the date already read from the page, not the fallback date. The model follows the code.
- Extract.Qualifies: the rank check uses `strip()` on cell 0, as the code does, not `clean_text`. So a `$` in that cell stops the row from qualifying.
- Exceptions other than the ninth-cell `IndexError` are not modelled, because they cannot arise from the modelled inputs. Any other failure of the fetch or the parse is the `None` page.
