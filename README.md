# Tibia XP notifier, modelled in Dafny

Two scripts track the daily experience (XP) gains of a handful of Tibia
characters, as guildstats.eu charts them.

- **scrape_xp.py** reads the roster from `characters.txt`. It scrapes each
  character's XP chart table into a map from date to gain text. It writes all
  maps to `xp_log.json` only when they differ from what is stored. When they
  differ, it:
  - takes the latest date seen in any table;
  - reads every character's gain on that date as an integer;
  - sorts the characters by gain, highest first, stably;
  - renders one line per character, with 🥇 🥈 🥉 for the first three and a
    thousands separator in the figure.
- **xp_notifier.py** builds a report for every tracked character. For each
  one, it finds the first chart row dated yesterday and echoes that row's XP
  cell, or says that there is no data, or that the request failed. It then
  joins the lines under a header.

The model has four modules:

- `Text` (text.dfy) holds the Python string built-ins the scripts rely on:
  - `str.strip()`, using the `str.isspace()` code points;
  - `str.split()[0]`;
  - `str.replace(c, "")`;
  - `int()` on a decimal literal;
  - the `{n:,}` format;
  - Python's ordering `<` on `str`.
- `Leaderboard` (leaderboard.dfy) holds the stable descending sort and the
  medal lines.
- `ScrapeXp` (scrape_xp.dfy) models:
  - `load_characters`;
  - the row → map comprehension of `scrape_xp`;
  - `load_existing` and `save_if_changed`, as a class over the stored maps;
  - the `__main__` block, as `Run`, a method from the roster and the parsed
    pages to an outcome. `Run` calls `ScrapeAll` for the scraping loop and
    `Publish` for the ranking, the sort and the medal loop.
- `XpNotifier` (xp_notifier.dfy) models the row scan of
  `fetch_character_xp` and `build_report`.

What the HTML pages held enters the model as parameters, as sequences of rows
of cell texts. So do the request outcomes and yesterday's date. `Wrappers`
(wrappers.dfy) holds `Option` and `Result`.

The loops of the source are methods with loop invariants:

- the scraping loop;
- the `all_xp` collection loop;
- the two `max` computations;
- the ranking loop;
- the medal loop;
- the row scan;
- the report loop.

Most of these methods are proved equal to a recursive or closed-form
specification function, and the properties are proved about that function.
The three `max` computations (`MaxDate`, `MaxOf` and `LatestDate`) are
different. They are proved against the defining property of a maximum: the
result is one of the candidates, and no candidate comes after it. Python's
`list.sort` is specified by an insertion sort that keeps equal gains in input
order. The model proves three things about it: the result is ordered, it is
a permutation, and it is stable.

## Model

| member | source | states |
|---|---|---|
| Text.Strip | scrape_xp.py:23 | `str.strip()`, defined; `StripShape` states what it gives |
| Text.StripShape | scrape_xp.py:23 | `strip()` gives the slice of the text left after removing only whitespace from each end, with no whitespace left at either end; it never lengthens, and it gives `""` exactly for all-whitespace text |
| Text.StripStripped | scrape_xp.py:23 | stripping stripped text changes nothing |
| Text.StripNewline | xp_notifier.py:47 | stripping a stripped line followed by `"\n"` gives back the line |
| Text.FirstToken | xp_notifier.py:35 | `split()[0]` fails (`IndexError`) exactly on all-whitespace text; otherwise it is a non-empty run of non-whitespace |
| Text.FirstTokenIsFirstWord | xp_notifier.py:35 | the token `split()[0]` gives starts right after the leading whitespace and runs up to the next whitespace or the end of the text |
| Text.Without | scrape_xp.py:64 | `str.replace(c, "")`, defined; `WithoutDeletes`, `WithoutAppend` and `WithoutAbsent` state what it gives |
| Text.WithoutDeletes | scrape_xp.py:64 | `replace(c, "")` leaves no `c` and never lengthens |
| Text.ParseInt | scrape_xp.py:64-68 | `int()` yields a value exactly when the text is an optional `-` followed by ASCII digits |
| Text.NatToDigitsValue | scrape_xp.py:80 | the decimal digits of `n` read back as `n`, with no leading zero |
| Text.GroupThousandsShape | scrape_xp.py:80 | the `,`-grouped figure holds only digits and commas and begins and ends with a digit |
| Text.GroupThousandsUngroups | scrape_xp.py:80 | deleting the commas of the grouped figure gives back the digits |
| Text.FormatThousands | scrape_xp.py:80 | `f"{n:,}"`, defined; `FormatThousandsUngroups` and `FormatThousandsParses` state what it gives |
| Text.FormatThousandsUngroups | scrape_xp.py:64-80 | deleting the commas of `f"{n:,}"` gives the plain signed decimal of `n` |
| Text.SignedDigitsParses | scrape_xp.py:66 | `int()` reads the plain signed decimal of `n` as `n`, negatives included |
| Text.FormatThousandsParses | scrape_xp.py:64-80 | `f"{n:,}"` with commas and `+` removed, stripped and passed to `int()`, gives back `n` |
| Text.LexLess | scrape_xp.py:55-59 | Python's `<` on `str`, by code point with a proper prefix first, defined; the next five lemmas make it a strict total order |
| Text.LexLessIrreflexive | scrape_xp.py:55-59 | no date is before itself in `str` order |
| Text.LexLessTransitive | scrape_xp.py:55-59 | `str` order is transitive |
| Text.LexLessTotal | scrape_xp.py:55-59 | of two different dates one is before the other |
| Text.LexLessEqTransitive | scrape_xp.py:55-59 | `<=` on `str` is transitive |
| Text.LexLessEqAntisymmetric | scrape_xp.py:55-59 | two dates each `<=` the other are equal, so the `max` is unique |
| Leaderboard.Insert | scrape_xp.py:72 | inserting an entry adds exactly that entry to the multiset of entries |
| Leaderboard.InsertSorted | scrape_xp.py:72 | inserting into a ranking ordered by gain keeps it ordered |
| Leaderboard.InsertWithXp | scrape_xp.py:72 | an inserted entry goes in front of every entry with the same gain |
| Leaderboard.WithXpAppend | scrape_xp.py:72 | the entries with a given gain of a concatenation are those of each part, in order |
| Leaderboard.SortDesc | scrape_xp.py:72 | the sort keeps the number of entries; the three lemmas below state the rest |
| Leaderboard.SortDescSorted | scrape_xp.py:72 | after the sort, gains are non-increasing |
| Leaderboard.SortDescPermutes | scrape_xp.py:72 | the sorted ranking is a permutation of the unsorted one |
| Leaderboard.SortDescStable | scrape_xp.py:72 | for every gain, the entries with that gain keep their roster order (`sort` is stable under `reverse=True`) |
| Leaderboard.Standing | scrape_xp.py:80 | `f"{name}: {xp_val:,} XP"`, defined; `StandingReadsBack` states that its figure reads back |
| Leaderboard.Decorated | scrape_xp.py:79-80 | line `idx`: the medal and a space in front of the standing for the first three places, the standing alone after them, defined |
| Leaderboard.RenderedLines | scrape_xp.py:78-82 | line `i` of the leaderboard is its standing, with medal `i` in front for `i < 3` |
| Leaderboard.RenderLeaderboard | scrape_xp.py:75-82 | one line per entry; the first min(3, n) are `"{medal} {name}: {xp:,} XP"` with 🥇, 🥈, 🥉 in order; later ones are `"{name}: {xp:,} XP"` |
| Leaderboard.StandingReadsBack | scrape_xp.py:64-80 | the figure in every leaderboard line normalises back to that entry's gain |
| ScrapeXp.LoadCharacters | scrape_xp.py:21-23 | every roster name is non-empty and stripped, and there are no more names than lines |
| ScrapeXp.LoadCharactersAppend | scrape_xp.py:21-23 | names keep the relative order of their lines |
| ScrapeXp.LoadCharactersMembers | scrape_xp.py:21-23 | a name is on the roster exactly when it is non-empty and some line strips to it |
| ScrapeXp.LoadCharactersIdempotent | scrape_xp.py:21-23 | loading a roster written from the loaded names gives the same roster |
| ScrapeXp.FirstShortRow | scrape_xp.py:17-18 | the first row whose `find_all("td")[1]` raises, or the row count when none does |
| ScrapeXp.PairsToMap | scrape_xp.py:16-19 | the keys of the comprehension's dict are the keys of its pairs |
| ScrapeXp.PairsToMapLast | scrape_xp.py:16-19 | a key takes the value of the last pair carrying it |
| ScrapeXp.PairsToMapSnoc | scrape_xp.py:47 | assigning a key overrides its earlier value |
| ScrapeXp.RowsToTable | scrape_xp.py:16-19 | the comprehension succeeds exactly when every row has two cells; otherwise it fails at the first short row; on success it is the dict of the stripped pairs |
| ScrapeXp.RowsToTableEntries | scrape_xp.py:16-19 | every row's date is a key; a date not repeated lower down maps to that row's XP text |
| ScrapeXp.RowsToTableKeys | scrape_xp.py:16-19 | every key is the date of some row |
| ScrapeXp.ScrapeTable | scrape_xp.py:12-19 | no `chart_table` gives `{}`; the header row is skipped; a failure names a short data row |
| ScrapeXp.XpStore.SaveIfChanged | scrape_xp.py:31-39 | answers `true` exactly when the data differs from `load_existing()`; it then stores the data; otherwise the store is untouched |
| ScrapeXp.SaveTwice | scrape_xp.py:31-39 | a second save of the same data answers `false` and leaves the data stored |
| ScrapeXp.Unique | scrape_xp.py:45-47 | the keys of `all_xp` are the roster names, each once |
| ScrapeXp.UniqueSnoc | scrape_xp.py:47 | assigning `all_xp[name]` adds `name` at the end only when it is new |
| ScrapeXp.UniqueInRosterOrder | scrape_xp.py:45-47 | the keys of `all_xp` come in order of first appearance in the roster |
| ScrapeXp.CollectStep | scrape_xp.py:45-47 | one turn of the collection loop keeps keys and tables in step with the roster read so far |
| ScrapeXp.CollectAllXp | scrape_xp.py:43-47 | `all_xp` lists each roster name once, in first-appearance order, and maps it as the assignments in roster order leave it |
| ScrapeXp.CollectedLastTable | scrape_xp.py:45-47 | a name listed twice keeps the table scraped for its last occurrence |
| ScrapeXp.MaxDate | scrape_xp.py:55 | `max(xp.keys())` is a key of the table and no key is after it |
| ScrapeXp.MaxOf | scrape_xp.py:59 | `max(latest_dates)` is one of the dates and no date is after it |
| ScrapeXp.LatestDate | scrape_xp.py:55-59 | no date exactly when every table is empty; otherwise a date of some table that no date of any table is after |
| ScrapeXp.NormaliseXp | scrape_xp.py:64-68 | `int(text.replace(",", "").replace("+", "").strip())`, with 0 where `int()` raises `ValueError`, defined; the three lemmas below state what it gives |
| ScrapeXp.NormaliseXpReadsFormat | scrape_xp.py:64-80 | a gain rendered with thousands separators normalises back to itself |
| ScrapeXp.NormaliseXpDefault | scrape_xp.py:64 | the `"+0"` default normalises to 0 |
| ScrapeXp.NormaliseXpUnparsable | scrape_xp.py:65-68 | text `int()` rejects normalises to 0 |
| ScrapeXp.GainOn | scrape_xp.py:64-68 | `xp_dict.get(latest_date, "+0")`, normalised, defined; `GainOnCases` states what it gives |
| ScrapeXp.GainOnCases | scrape_xp.py:64-68 | a character with an entry for the latest date gets that entry's normalised gain; one without gets 0 |
| ScrapeXp.RankingEntries | scrape_xp.py:62-69 | entry `i` of the ranking pairs name `i` with gain `i` |
| ScrapeXp.BuildRanking | scrape_xp.py:62-69 | one entry per key of `all_xp`, in `all_xp` order, holding that character's gain on the latest date; it is the `Ranking` of the names and their gains |
| ScrapeXp.FirstFailedPage | scrape_xp.py:45-47 | the first roster entry whose scrape raises `IndexError`, or the roster length when none does |
| ScrapeXp.ScrapedTables | scrape_xp.py:45-47 | when no scrape raises, entry `i` is the table scraped from page `i` |
| ScrapeXp.ScrapeAll | scrape_xp.py:45-47 | the scraping loop stops at the first page with a short row, naming that row; otherwise it gives every page's table, in roster order |
| ScrapeXp.Publish | scrape_xp.py:62-82 | the ranking is sorted and rendered: line `i` is the decorated standing of entry `i` of the sorted ranking |
| ScrapeXp.Run | scrape_xp.py:41-82 | a short row stops the script before saving, at the first such page; an empty roster saves nothing; the scraped `all_xp` is saved exactly when it differs from `load_existing()`, and the store is untouched otherwise; after a save, no date is found exactly when every table is empty; otherwise the published lines are the leaderboard for the greatest date of any table |
| XpNotifier.Scan | xp_notifier.py:32-40 | the row scan, defined; `ScanByFirstDecisive`, `ShortRowsSkipped` and `ScanSuffix` state what it gives |
| XpNotifier.FetchLine | xp_notifier.py:18-40 | `fetch_character_xp`, given the response: the failure line for a failed request, the scan otherwise; defined |
| XpNotifier.XpLine | xp_notifier.py:38 | `f"- {name}: {xp_gained} XP"`, defined |
| XpNotifier.NoDataLine | xp_notifier.py:40 | `f"- {name}: ⚠️ No XP data for {yesterday}"`, defined |
| XpNotifier.FailureLine | xp_notifier.py:24 | `f"- {name}: ❌ Failed to fetch data ({e})"`, defined |
| XpNotifier.FirstDecisive | xp_notifier.py:32-38 | the first row with three cells or more whose date either raises or is yesterday |
| XpNotifier.ScanByFirstDecisive | xp_notifier.py:32-40 | the scan's line is decided by the first such row: no row gives the no-data line, a blank date raises, and a row dated yesterday gives `"- {name}: {stripped cell 2} XP"`, whatever follows |
| XpNotifier.ShortRowsSkipped | xp_notifier.py:34 | removing a row with fewer than three cells never changes the scan |
| XpNotifier.ScanSuffix | xp_notifier.py:32-38 | rows that do not end the scan can be dropped from its front |
| XpNotifier.FetchCharacterXp | xp_notifier.py:18-40 | the loop with its early returns gives the scan's line; a failed request gives the `❌ Failed to fetch data (…)` line instead of raising |
| XpNotifier.ScanLineEnds | xp_notifier.py:38-40 | a line that does not raise starts with `-` and ends in a visible character |
| XpNotifier.Header | xp_notifier.py:44 | `f"📊 **Tibia XP Gains – {yesterday}**"`, defined; `HeaderStripped` states that it has no surrounding whitespace |
| XpNotifier.Body | xp_notifier.py:45-46 | the text the report loop appends, or the `IndexError` a line raises, defined; `BodyFailsIffALineRaises` and `BodyIsTerminatedLines` state what it gives |
| XpNotifier.ReportStep | xp_notifier.py:45-46 | one turn of the report loop either raises or appends the character's line and a newline |
| XpNotifier.BodyFailurePersists | xp_notifier.py:45-46 | once a character's line raises, `build_report` raises |
| XpNotifier.BodyFailsIffALineRaises | xp_notifier.py:20-46 | the report raises exactly when some character's scan raises, so a failed request never stops it |
| XpNotifier.BuildReport | xp_notifier.py:42-47 | the loop gives the header, a newline and every character's line plus newline, stripped, or `IndexError` |
| XpNotifier.ReportLines | xp_notifier.py:45-46 | one line per roster entry, in roster order |
| XpNotifier.BodyIsTerminatedLines | xp_notifier.py:44-46 | the accumulated report is the header and the lines joined by newlines, plus a final newline |
| XpNotifier.JoinLinesEnds | xp_notifier.py:47 | the joined lines begin with the first line's first character and end with the last line's last character |
| XpNotifier.LinesOfReport | xp_notifier.py:38-46 | every line of a report that does not raise ends in a visible character |
| XpNotifier.HeaderStripped | xp_notifier.py:44 | the header has no whitespace at either end |
| XpNotifier.StripJoinedLines | xp_notifier.py:47 | `strip()` removes only the final newline after the joined lines |
| XpNotifier.EmptyRosterReport | xp_notifier.py:42-47 | with nobody on the roster the report is the header alone |
| XpNotifier.RosterReport | xp_notifier.py:42-47 | with a roster the report is the header and the lines, joined by `"\n"` with no trailing newline |
| XpNotifier.ReportIsJoinedLines | xp_notifier.py:42-47 | `build_report()` is the header line, then one line per character in roster order, joined by `"\n"` |
| XpNotifier.TrackedRosterReport | xp_notifier.py:10-16 | over `CHARACTERS`, the report is the header and five lines, from "Ilumine" to "Zanron the monk", joined by `"\n"` |

## Left out

- HTTP: `requests.get` (scrape_xp.py:11, xp_notifier.py:21) and the Discord post in `send_to_discord` (xp_notifier.py:49-59) are network I/O. A page enters as its rows. A request enters as `Fetched(rows)` or `RequestFailed(reason)`, and `reason` stands for the exception's text.
- The URL building (scrape_xp.py:10, xp_notifier.py:19) only feeds the request.
- BeautifulSoup (`find`, `find_all`, `.text`) is a foreign library. Its output is modelled as a sequence of rows of cell texts.
- ScrapeXp.ScrapeTable: the "No XP data found" message is not modelled.
- ScrapeXp.ScrapeTable: a row too short for `find_all("td")[1]` makes the script die with `IndexError`. The model turns that into a `Failure` naming the row.
- File and JSON I/O: `open`, `json.load`, `json.dump` and `os.path.exists`. The store is the `saved` field of `XpStore`.
- ScrapeXp.XpStore.SaveIfChanged assumes that the JSON written and read back is the same map.
- The `git` commands run through `os.system` (scrape_xp.py:85-90), commit message included, are shell side effects. `Run` returns the date and the lines that would go into the commit.
- `print` and `exit()` are modelled only as the outcomes of `Run`: `ScrapeFailed`, `NoCharacters`, `Unchanged`, `NoDates` and `Published`.
- The clock: `datetime.utcnow()` and `timedelta` (xp_notifier.py:30, 43).
- XpNotifier.BuildReport takes one `yesterday` string for both the header and every row match. The source computes it separately each time, at different instants, so near midnight they could differ.
- XpNotifier.ReportIsJoinedLines requires yesterday's date to end in a visible character, as a `YYYY-MM-DD` date does. Otherwise `strip()` could eat into the last no-data line.
- The constant `CHARACTERS` (xp_notifier.py:10-16) is `XpNotifier.Characters`. `BuildReport` takes the roster as a parameter.
- XpNotifier.BuildReport takes each name's response as a function of the name, so two roster entries with the same name get the same response. The source makes a separate request for each entry, which can differ. This only matters for a roster that lists a name twice, and `CHARACTERS` does not.
- Text.ParseInt accepts an optional `-` followed by ASCII digits only. Python's `int()` also accepts underscores between digits, other Unicode decimal digits and a leading `+`. The `+` is deleted before `int()` sees the text, so only the first two matter here.
- Leaderboard.SortDesc: `list.sort` is Timsort working in place. The model gives it a stable insertion sort on a value and reassigns the result, so the sorting steps and the in-place update are not modelled.
