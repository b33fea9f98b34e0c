# Cloudwater menu checker: extraction and snapshot diff

A verified Dafny model of the logic in `cloudwater.py`. The script fetches a brewery's menu
page, extracts one record per beer (name, description, optional extra info, strength), keys
them by name, compares this snapshot with the one stored by the previous run, and prints which
beers were removed and which were added. The model covers the part that is logic:

- `Beers` (`beer.dfy`): the `Beer` record and its `repr`, the text printed for each beer.
  `Lines` splits a text at newlines so that the three-line shape of a rendering can be stated.
- `Extract` (`extract.dfy`): `get_name`, `get_description`, `get_extra_info`, the regular
  expression token of `get_strength`, `parse_beer`, and the dict fold of `get_beers`. A menu
  item is a record of texts that have already been located (`MenuItem`), not an HTML node.
- `Differ` (`differ.dfy`): `check_difference` and `check_for_changes` as methods. What they
  `print` goes into an explicit log, `seq<Printed>`, with one entry per `print` argument. The
  stored snapshot is the parameter `previous: Option<Snapshot>`: `None` means no earlier run.
  `Captured` turns a log into the text that the source's `Capture` collects.
- `Wrappers` (`wrappers.dfy`): `Option` and `Result`.

`check_difference` loops over a Python set, whose iteration order is unspecified. The first
run's listing follows the insertion order of `dict.values()`, which the model does not keep.
The contracts therefore say that the printed records follow *some* order that lists every key
exactly once (`Enumerates`, `Listing`).

The model follows the code as written in two places that are easy to get wrong:

- The description is kept exactly as given, not stripped (cloudwater.py:115).
- The name loses all its `*` characters and its trailing whitespace only (cloudwater.py:104-105).
  Leading whitespace is kept.

## Model

| member | source | states |
|---|---|---|
| `Beers.Render` | cloudwater.py:54-61 | `Beer.__repr__`: the name, the tab-indented quoted description, and the tab-indented strength with `%` and the optional ` - <extra>`, each followed by a newline. Its properties are stated by `RenderLines`, `RenderFirstLine`, `RenderDistinguishesNames` and `RenderEnding`. |
| `Beers.RenderLines` | cloudwater.py:54-61 | If no field contains a newline, a rendered record has exactly three lines. The first is the name. The second is the description in quotes after a tab. The third is a tab, the formatted strength, `%`, and then ` - <extra>` only when extra info is present. |
| `Beers.RenderFirstLine` | cloudwater.py:55-57 | The first line of a rendering is the record's name. |
| `Beers.RenderDistinguishesNames` | cloudwater.py:55-57 | Two records whose renderings are equal have the same name, provided neither name contains a newline. |
| `Beers.RenderEnding` | cloudwater.py:58-61 | A rendering ends in `%\n` when there is no extra info, and in ` - <extra>\n` when there is. |
| `Extract.RemoveStars` | cloudwater.py:104 | `replace('*', '')`: every character except `*`, in order. Its properties are stated by `RemoveStarsNoStar`, `RemoveStarsAppend` and `RemoveStarsKeeps`. |
| `Extract.RemoveStarsNoStar` | cloudwater.py:104 | The result of `replace('*', '')` contains no `*`. |
| `Extract.RemoveStarsAppend` | cloudwater.py:104 | Removing asterisks works piece by piece: on `a + b` it gives the result on `a` followed by the result on `b`. |
| `Extract.RemoveStarsKeeps` | cloudwater.py:104 | A text with no asterisk is unchanged. Together with the lemma above, this pins down that every other character is kept, in order. |
| `Extract.RStrip` | cloudwater.py:105 | `rstrip()`: trailing `isspace` characters removed. Characterised by `RStripSpec` and `RStripUnique`. |
| `Extract.RStripSpec` | cloudwater.py:105 | `rstrip()` returns a prefix of its input that does not end in whitespace, and everything it removes is whitespace in Python's `isspace` sense. |
| `Extract.RStripUnique` | cloudwater.py:105 | Any prefix with those two properties is the one `rstrip()` returns. |
| `Extract.GetName` | cloudwater.py:96-107 | `get_name`: the title's text with asterisks removed, then right-stripped. Its properties are stated by `GetNameShape` and `GetNameIdempotent`. |
| `Extract.GetDescription` | cloudwater.py:110-117 | `get_description`: the description element's text, verbatim and not stripped. `ParseBeer` states that the record's description is this value. |
| `Extract.GetExtraInfo` | cloudwater.py:120-126 | `get_extra_info`: the option element's text when the element exists, otherwise none. `ParseBeer` states that the record's extra info is this value. |
| `Extract.GetNameShape` | cloudwater.py:96-107 | The name contains no `*` and does not end in whitespace. It is a prefix of the title with its asterisks removed, so leading whitespace is kept. Only whitespace follows it in that text. |
| `Extract.GetNameIdempotent` | cloudwater.py:96-107 | Normalising a name that is already normalised changes nothing. |
| `Extract.LeadingDigits` | cloudwater.py:131 | The longest prefix made only of digits: the part `\d+` or `\d*` matches greedily. |
| `Extract.MatchStrength` | cloudwater.py:131 | The match fails exactly when the text is empty or does not begin with a digit. On success the token is a prefix of the text and has the form `\d+\.?\d*`. |
| `Extract.MatchStrengthLongest` | cloudwater.py:131 | No longer prefix of the text has the form `\d+\.?\d*`, so the token is the greedy match. |
| `Extract.GetStrength` | cloudwater.py:129-134 | Fails with `NoCurrencySign` when the block has no currency sign. Fails with `NoLeadingNumber` exactly when the text after the sign does not start with a digit. Otherwise returns the token, which is a prefix of that text. |
| `Extract.ParseBeer` | cloudwater.py:137-147 | Fails exactly when the strength fails, and with the same error. On success the key equals the record's own name, which is `get_name` of the title. The description is kept verbatim, the extra info is the option text if present, and the strength is the matched token. |
| `Extract.GetBeers` | cloudwater.py:161-166 | Builds the dict by inserting the items in order. The result equals the fold `BuildSnapshot`. |
| `Extract.BuildSnapshot` | cloudwater.py:164 | The `dict(...)` fold over the parsed items: insertion in order, aborted by the first failing item. Its properties are stated by the `BuildSnapshot...` lemma rows, and `GetBeers` is proved equal to it. |
| `Extract.BuildSnapshotFailureSticks` | cloudwater.py:164 | Once a prefix of the items fails to parse, the whole list fails with that same error. |
| `Extract.BuildSnapshotSucceeds` | cloudwater.py:164 | Building the snapshot succeeds exactly when every item parses. |
| `Extract.BuildSnapshotFirstError` | cloudwater.py:164 | A failure carries the error of the first item that does not parse. |
| `Extract.BuildSnapshotKeys` | cloudwater.py:164 | On success the keys are exactly the set of item names, and every stored record has its key as its name. |
| `Extract.BuildSnapshotLastWins` | cloudwater.py:164 | For a name that occurs more than once, the record of its last occurrence is the stored value. |
| `Differ.PrintRecords` | cloudwater.py:173-174 | Appends to the log the record under each given key, once per key, in some order. Everything logged before is left unchanged. |
| `Differ.CheckDifference` | cloudwater.py:169-178 | Returns true exactly when `other_beers` has a key that `beers` lacks. It prints nothing when there is none. Otherwise it prints `Some beers were <suffix>:` and then, taken from `other_beers`, the record of each key in `other_beers.keys() - beers.keys()`, once each. The earlier log is kept. |
| `Differ.CheckForChanges` | cloudwater.py:181-193 | With no previous snapshot: returns true, prints `No previous record found! Beers are:`, then every record once. With one: prints the "removed" report first (keys only in the previous snapshot, rendered from it) and then the "added" report (keys only in the new one, rendered from it). It returns true exactly when the key sets differ. Equal key sets give false and no output. |
| `Differ.KeysDiffer` | cloudwater.py:185-187 | The OR of the two directions is true exactly when the key sets differ. |
| `Differ.ListingContents` | cloudwater.py:173-174 | A listing has one line per key. It includes the record of every key and nothing else. |
| `Differ.ListingRendersOnce` | cloudwater.py:189-191 | If every record is stored under its own name, as `BuildSnapshotKeys` proves for the extractor, and no name contains a newline, then no two rendered lines of a listing are equal. So each record appears exactly once. The extractor does not ensure newline-free names: `get_name` keeps leading whitespace. |
| `Differ.DiffReportContents` | cloudwater.py:169-178 | One direction's report is empty exactly when the key set of `to` is contained in that of `from`. Otherwise it starts with the header and holds the record from `to` of every key that `from` lacks, and no other record. |
| `Differ.DirectionExample` | cloudwater.py:185-186 | Previous keys {A, B} and new keys {B, C}: the removed block reports A with its old record, the added block reports C with its new record, and neither reports B. |
| `Differ.Transcript` | cloudwater.py:34-44 | The values given to `print`, shown as strings in order: a text as itself, a record by `Render`. It has one string per printed value. |
| `Differ.Captured` | cloudwater.py:34-44 | The captured standard output: each printed string followed by a newline. Its properties are stated by `CapturedAppend` and `CapturedEmpty`. |
| `Differ.CapturedAppend` | cloudwater.py:34-44 | The text captured from two stretches of output is the two texts concatenated. |
| `Differ.CapturedEmpty` | cloudwater.py:233-236 | The captured message is empty exactly when nothing was printed. |

## Left out

- Fetching the page over HTTP and the `/br` text repair in `get_menu_items` (cloudwater.py:150-158) are network I/O. The list of menu items is an input.
- The BeautifulSoup searches (`find`, `find_all`, `.next`) belong to a foreign library. `MenuItem` holds the texts those searches locate. A missing title or description element raises `AttributeError` in the source; the model does not cover this, because its item always has both texts. A currency sign followed by a tag instead of text raises `TypeError` in the source and is not modelled either.
- Extract.MatchStrength: `\d` is modelled as the ASCII digits `0`-`9`. Python 3 also matches other Unicode decimal digits.
- `float()` and the `{:.1f}` formatting (cloudwater.py:55, cloudwater.py:132) are floating point. A record keeps the matched token, and `Render` takes the formatting of the token as a parameter `fmt`.
- Pickle persistence, `os.path.isfile`, and the mismatch between the relative `FILENAME` in `read_db` and the absolute `DATABASE_PATH` in `write_db` (cloudwater.py:64-73, cloudwater.py:182) are file I/O. The stored snapshot is the `previous` parameter.
- Sending mail and loading credentials (cloudwater.py:23-31, cloudwater.py:196-223) are network and file I/O.
- `argparse`, the flag wiring in `main`, and the save-or-not decision (cloudwater.py:76-93, cloudwater.py:226-252) are CLI glue.
- Printing order: Python's set iteration order, and the insertion order of `dict.values()` on a first run, are not modelled. The map has no order, so the contracts allow any order that lists each key once.
- `Capture` writing the captured text back to standard output when it exits (cloudwater.py:44) is I/O.
