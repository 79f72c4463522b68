# device-os-tracker: the heading scan and the version table

`generate_os_versions.py` fetches Apple's developer releases page. It walks
the page's `<article>` elements in document order. It takes the iPadOS
version from the first `h2` heading naming iPadOS, and the macOS version from
the first heading naming macOS that the iPadOS branch does not take. It then
writes a
fixed four-row table (iPad, MacBook, Chromebook, Windows) under a five-column
header to `os_versions.csv`. This project models the part of the script that
touches neither the network, nor the HTML library, nor the file system:

- `Text` (text.dfy): Python's `pat in text` on strings (`Contains`) and
  `str.split()` with no argument (`Split`).
- `Scan` (scan.dfy): the loop at lines 19-31. `Step` is one pass of the loop
  body. `Run` is the scan over every article, without the early exit; it is
  defined on prefixes, so `Run(hs[..i])` is the state after `i` articles.
  `ScanArticles` is the loop as written, with its `break`, and is proved
  equal to `Run`. `IpadTakes` and `MacTakes` say declaratively which article
  the `if` branch and the `elif` branch take. `RunMatchesClaims` connects
  them to `Run`.
- `Rows` (rows.dfy): the `os_data` rows (lines 34-39), the header (line 44)
  and the composition `Report`. An `IndexError` in the scan aborts the
  script before any row is built.
- `Outcomes` (outcomes.dfy): `Option` for Python's `None` and `Result` for
  a value or the exception that stopped the script.

The scan's input is one entry per `<article>`: `Some(text)` for the text of
the first `h2` element inside it, or `None` when `article.find('h2')` finds nothing. A found
bs4 tag is always truthy, so `if heading:` is exactly "a heading was found".
The guards `not ipad_version` and `not mac_version` are modelled with
Python truthiness (`Truthy`: neither `None` nor `""`). `Run` proves that
every found version is a non-empty field, so on every reachable state this
is the same as testing for `None`.

The script writes the text `None` for a missing version. Its table has
five columns and puts iPad first. Its upcoming versions and dates are
constants. Because of the `elif`, a heading naming both systems is taken for
iPadOS while iPadOS is unfound. Once iPadOS is found, such a heading can
supply the macOS version: after an earlier iPadOS heading, "iPadOS 19 and
macOS 15" sets `mac_version` to "19".

## Model

| member | source | states |
|---|---|---|
| Text.ContainsIffOccurs | generate_os_versions.py:26-28 | `'iPadOS' in text` and `'macOS' in text` hold exactly when the name occurs at some position of the heading text |
| Text.Split | generate_os_versions.py:27-29 | every field of `text.split()` is non-empty and contains no whitespace |
| Text.SplitJoin | generate_os_versions.py:27-29 | splitting a single-space join of fields gives back exactly those fields |
| Text.SplitKeepsContent | generate_os_versions.py:27-29 | the fields, concatenated, are exactly the heading's non-whitespace characters in order; splitting drops only whitespace |
| Text.SplitAtSpaceRun | generate_os_versions.py:27-29 | a token followed by any non-empty run of whitespace characters, of any length and kind, is split off as exactly one field, and the rest splits on its own |
| Scan.TruthyMeansFound | generate_os_versions.py:26-30 | on every state the scan reaches, Python truthiness of `ipad_version` and `mac_version` (the `not` guards at lines 26 and 28 and the `and` at line 30) is the same as "not `None`" |
| Scan.SecondToken | generate_os_versions.py:27 | `text.split()[1]` raises `IndexError` exactly when the heading has fewer than two fields; otherwise the version is a single non-empty, whitespace-free field |
| Scan.Step | generate_os_versions.py:23-29 | an article without a heading changes nothing; once both versions are found nothing changes and nothing raises; each pass sets at most one variable, and only a variable that is still unset |
| Scan.Run | generate_os_versions.py:19-29 | every version the full scan reports is a single non-empty, whitespace-free field |
| Scan.IpadClaimIsTaker | generate_os_versions.py:26-27 | the index search for the `if` branch finds exactly the first article whose heading mentions iPadOS |
| Scan.MacClaimIsTaker | generate_os_versions.py:26-29 | the index search for the `elif` branch finds exactly the first article mentioning macOS that the `if` branch does not take |
| Scan.RunMatchesClaims | generate_os_versions.py:19-29 | after any number of articles, the scan fails exactly when a taken article among them has under two fields; otherwise each variable holds the second field of its taken article if the scan has passed it, and `None` if not |
| Scan.ScanFailsIffTakenHeadingShort | generate_os_versions.py:26-29 | the scan raises exactly when an article taken by the `if` or `elif` branch has a heading with fewer than two fields |
| Scan.IpadIsFirstMention | generate_os_versions.py:19-27 | `ipad_version` is `None` exactly when no heading mentions iPadOS; otherwise it is the second field of the first heading that does |
| Scan.MacIsFirstUnclaimedMention | generate_os_versions.py:20-29 | `mac_version` is `None` exactly when every heading mentioning macOS is the one the iPadOS branch takes; otherwise it is the second field of the first heading mentioning macOS that the iPadOS branch does not take |
| Scan.BothNamesHeading | generate_os_versions.py:26-29 | a heading naming both systems sets `ipad_version` while iPadOS is unfound, and sets `mac_version` when iPadOS is already found and macOS is not |
| Scan.NeverOverwritten | generate_os_versions.py:26-29 | if the scan gets through `n` articles it got through every shorter prefix, and a version found after `m` articles has the same value after `n >= m` |
| Scan.DoneIsFinal | generate_os_versions.py:30-31 | once both versions are found, every longer prefix gives the same result and none raises |
| Scan.EarlyExitIrrelevant | generate_os_versions.py:30-31 | stopping at the first point where both are found gives the same result as scanning every article |
| Scan.ErrIsFinal | generate_os_versions.py:27-29 | once the scan has raised, every longer prefix has raised too |
| Scan.FailureIsFinal | generate_os_versions.py:27-29 | an `IndexError` part-way through is the result of the whole scan |
| Scan.HeadinglessIrrelevant | generate_os_versions.py:23-24 | removing the articles without a heading changes neither version and no failure |
| Scan.ScanArticles | generate_os_versions.py:19-31 | the `for` loop with its `if`/`elif` guards and `break` gives exactly the full scan's result, including its `IndexError` |
| Rows.DeviceRows | generate_os_versions.py:34-39 | exactly four rows, in the order iPad, MacBook, Chromebook, Windows, each with as many fields as the header has columns |
| Rows.Table | generate_os_versions.py:34-44 | the writer receives the five-column header first, then the four device rows, every row five fields wide |
| Rows.Report | generate_os_versions.py:19-44 | a table comes out exactly when no heading taken by the `if` or `elif` branch has fewer than two fields; it is the table built from some pair of versions, so the header plus four rows, all five wide, in the device order iPad, MacBook, Chromebook, Windows, with the constant cells of `DeviceRows`; the iPad cell is `iPadOS ` plus the second field of the first heading mentioning iPadOS, or `iPadOS None` when none does; the MacBook cell is `macOS ` plus the second field of the first macOS mention the iPadOS branch does not take, or `macOS None` when there is none |
| Rows.OnlyCurrentVersionCellsVary | generate_os_versions.py:34-39 | every cell other than the current-version cells of the iPad and MacBook rows is the same whatever the scan found |
| Rows.CurrentVersionCells | generate_os_versions.py:34-35 | the two current-version cells are the system name, a space and the found version, or `None` after the space when nothing was found |
| Rows.TableDeterminesVersions | generate_os_versions.py:34-35 | different scan results give different tables, unless a found version is the text `None` |

## Left out

- HTTP fetch (line 13): network I/O. The script checks no status; connection errors raised by `requests.get` are network I/O and are left out.
- HTML parsing, `find_all('article')`, `find('h2')` and `.text` (lines 14, 17, 23, 25): calls into BeautifulSoup. Their outcome is the input: one optional heading text per article.
- CSV writing and quoting (lines 42-45): file I/O and library serialisation. The table is modelled as `seq<seq<string>>`.
- The completion message with `date.today()` (line 47): console output that depends on the clock.
- Text.IsSpace: a fixed list of the characters Python's `str.isspace()` accepts (ASCII TAB to CR, FS to US, SPACE, NEL, NO-BREAK SPACE, OGHAM SPACE MARK, EN QUAD to HAIR SPACE, LINE and PARAGRAPH SEPARATOR, NARROW NO-BREAK SPACE, MEDIUM MATHEMATICAL SPACE, IDEOGRAPHIC SPACE). It is not derived from a Unicode database, so a future Unicode version that adds whitespace characters is not followed.
- Strings are sequences of Unicode scalar values. No normalisation or case folding is modelled; Python's `in` and `split()` do neither.
- Rows.TableDeterminesVersions: stated only for versions other than the text `None`, because the f-string renders `Some("None")` and `None` identically.
