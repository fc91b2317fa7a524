# Corner Grocer item tracker, modelled in Dafny

The Corner Grocer program reads a file of purchased items, one item per line.
It counts how often each item occurs and writes a backup of the counts. Then it
serves a console menu with four choices: search one item (case-insensitively),
list every item with its count, draw a histogram, or exit.

This project models the program's one class, `ItemTracker`, and the menu loop of
`main`, and proves what each part guarantees.

- `wrappers.dfy`: the `Option` type.
- `seqfacts.dfy`: three generic sequence facts the loop proofs use.
- `text.dfy`: ASCII lower-casing (`::tolower` on `A`..`Z`) and the order of
  `std::string` (lexicographic on character codes). It also holds the decimal
  text a stream writes for an `int`, with its reader.
- `ordering.dfy`: `SortedKeys`, the order in which a `std::map<string,int>`
  visits its keys. It is proved ascending and proved to be the only ascending
  listing of the key set.
- `table.dfy`: the frequency table as a value, with the specification
  functions for the tracker's views:
  - `Frequencies` is what aggregation produces.
  - `Lookup` is the case-insensitive first-match search.
  - `Entries` is the listing and `Histogram` the histogram.
  - `BackupLines` is the backup text. Its reader `ParseBackup` and a
    round-trip lemma go with it.
- `tracker.dfy`: the class `ItemTracker`.
  - Its field `itemFrequency` is a `map<string,int>`, filled in place by a loop
    over the input lines.
  - Each query is a loop, proved equal to its specification function.
  - The field `backupFile` holds the lines the constructor wrote.
- `menu.dfy`: one pass of the loop (`Step` specifies it and `ServeChoice`
  implements it) and the whole session (`Transcript` specifies it and
  `RunMenu` implements it). `RunProgram` is `main` end to end.
- `scenarios.dfy`: a worked example with four input lines. The keys `"Apple"`,
  `"apple"` and `"banana"` are checked through counting, order, lookup,
  listing and backup.

The model treats its inputs as values:
- The input file is an `Option<seq<string>>` of its lines; `None` means it
  could not be opened.
- Whether the backup file can be created is the flag `sinkOpen`.
- The menu choices are a finite `seq<int>` that has already been parsed.
- The search lines are a `seq<string>`.
- Console output becomes the `Reply` values the loop returns.

The table is only read after construction: none of the query methods has a
`modifies` clause.

## Model

| member | source | states |
|---|---|---|
| Tracker.ItemTracker.ReadInputFile | main.cpp:31-48 | An unreadable input leaves the table unchanged. Otherwise the new table is the old one merged with the counts of every non-empty input line; `itemFrequency[item]++` starts a new key at 0. |
| Table.ReadStep | main.cpp:41-45 | One loop step: an empty line leaves the running table alone, and any other line adds one to its own key. |
| Table.FrequenciesExact | main.cpp:41-45 | A key is in the table exactly when it is non-empty and occurs among the lines. Its count equals the number of lines equal to it, and that count is at least 1. The empty string is never a key. |
| Table.FrequenciesSnoc | main.cpp:42-43 | One more line: an empty line changes nothing, and any other line adds one to that exact, case-sensitive key. |
| Table.FrequenciesTotal | main.cpp:35-45 | The counts sum to the number of non-empty input lines. |
| Table.MergeAt | main.cpp:43 | Merging two tables keeps the keys of both and adds their counts key by key. |
| Tracker.ItemTracker.constructor | main.cpp:70-75 | Reading comes first and the backup second. A missing input gives the empty table; otherwise the table is the input's frequencies, with every key non-empty and every count at least 1. The backup holds the table's lines, or is absent when the file cannot be created. |
| Tracker.ItemTracker.CreateBackupFile | main.cpp:51-66 | It writes the backup lines of the current table in key order, or nothing when the file cannot be created. |
| Table.BackupLineAt | main.cpp:60-62 | Backup line i is the i-th key in map order, one space, and the decimal count. |
| Table.BackupRoundTrip | main.cpp:60-62 | Reading the backup back, splitting each line at its last space, recovers exactly the table. |
| Table.ParseBackupLine | main.cpp:61 | One backup line reads back as its key and its count, even when the key itself contains spaces. |
| Text.IntStringRoundTrip | main.cpp:61 | The decimal text written for an `int`, including a leading `-` for a negative one, reads back as that number. |
| Text.NatStringRoundTrip | main.cpp:61 | The digits of a natural number read back as that number. |
| Tracker.ItemTracker.SearchItemFrequency | main.cpp:78-102 | The scan lower-cases the query and every key, stops at the first key that then matches, and returns its entry, or None (the not-found report). This equals `Lookup`. |
| Table.LookupFirstMatch | main.cpp:84-101 | The result is None exactly when no key matches the query up to ASCII case. Otherwise the result is a key of the table, with its own count, whose lower-case form equals the query's, and no key before it in map order matches. |
| Table.LookupNormalised | main.cpp:84 | Because the query is lower-cased first, searching for q and for lower(q) gives the same result. |
| Table.LookupUnambiguous | main.cpp:88-96 | When exactly one key matches up to case, the search finds that key with its count. |
| Table.FirstMatch | main.cpp:88-96 | The index returned is the first position whose lower-cased key equals the target; None means no position matches. |
| Text.LowerIdempotent | main.cpp:84 | Lower-casing twice is lower-casing once. |
| Text.Lower | main.cpp:84 | Lower-casing keeps the length; it maps `A`..`Z` to `a`..`z` and leaves every other character alone. |
| Tracker.ItemTracker.DisplayAllFrequencies | main.cpp:105-113 | The listing rows are the table's entries in key order. |
| Table.EntriesInKeyOrder | main.cpp:110-112 | There is one row per table entry; each row is a key with its own count. The keys strictly ascend, and every entry of the table appears. |
| Tracker.ItemTracker.DisplayHistogram | main.cpp:116-128 | The histogram rows equal `Histogram` of the table: one row per entry, in key order. For the tracker's own table (every count at least 1), each row's bar is exactly as long as that key's count. |
| Table.HistogramCounts | main.cpp:119-127 | For a table without negative counts, there is one bar per entry, and each bar is as long as its own key's count. |
| Tracker.ItemTracker.StarBar | main.cpp:123-125 | The inner loop builds `Stars(count)`: one `*` per unit of a positive count, nothing otherwise. |
| Table.HistogramRows | main.cpp:119-127 | There is one row per entry, with the same key as the listing row at that position. Each bar has as many characters as the count (or is empty for a count that is not positive), and every character is `*`. |
| Table.Stars | main.cpp:123-125 | A bar has length equal to the count, or 0 when the count is not positive, and contains only `*`. |
| Tracker.ItemTracker.GetTotalItems | main.cpp:149-151 | The number of distinct items equals the number of listing rows and the number of backup lines. |
| Tracker.ItemTracker.IsValidChoice | main.cpp:144-146 | A choice is valid exactly when it is one of 1, 2, 3 and 4. |
| Menu.ActionOf | main.cpp:178-196 | The switch has a case exactly for choices 1 to 4: 1 is the search, 2 the listing, 3 the histogram and 4 the exit. |
| Menu.ValidChoiceSelectsAction | main.cpp:144-146 | A choice is valid exactly when 1 <= choice <= 4, and exactly then the switch has a case for it, so its `default` branch is dead. |
| Menu.SearchReply | main.cpp:92-101 | A search reports not-found, echoing the lower-cased term, exactly when no key matches it up to case; otherwise it reports the entry `Lookup` finds. |
| Menu.Step | main.cpp:166-203 | An invalid choice changes nothing and answers with the invalid-choice message. Choices 1 to 3 keep the loop running; choice 4 stops it and says goodbye. Only a search consumes a search line, and an empty one when none is left. Choice 1 answers with the search report for that line, choice 2 with the listing `Entries(m)`, and choice 3 with the histogram `Histogram(m)`. |
| Menu.ServeChoice | main.cpp:171-196 | One loop body — validation, then the chosen query or exit — produces exactly the reply and loop state `Step` specifies. |
| Menu.Consumed | main.cpp:166-191 | The loop reads choices up to and including the first 4, or all of them when there is none. |
| Menu.Transcript | main.cpp:166-203 | The session's replies, one `Step` per choice read, in order: never more replies than choices. Which choices are answered, and how, is stated by `TranscriptShape`. |
| Menu.TranscriptShape | main.cpp:166-203 | A session answers every choice up to and including the first 4 and nothing after it. Reply j is the invalid-choice message exactly when choice j is out of range, and the goodbye exactly when choice j is 4. |
| Menu.RunMenu | main.cpp:162-203 | The `while (running)` loop produces the session's replies as `Transcript` specifies them. The loop is left still running exactly when no choice was 4. |
| Menu.RunProgram | main.cpp:154-206 | `main` end to end: the count of distinct items, the backup text of the aggregated table, and the session's replies over that table. |
| Ordering.SortedKeys | main.cpp:26 | The map's iteration order is a listing of exactly the key set, with no repeats, in strictly ascending `std::string` order. |
| Ordering.AscendingUnique | main.cpp:26 | Any strictly ascending listing of the key set is that iteration order. |
| Text.LessTotal | main.cpp:26 | Of two different strings one is smaller; together with `LessIrreflexive`, `LessAsymmetric` and `LessTransitive` this makes the order a strict total order. |
| Text.Less | main.cpp:26 | `std::string` order, which fixes the map's order. No string is smaller than the empty string, a proper prefix is smaller than the longer string, and where the first characters differ the smaller code decides. |
| Text.LessTransitive | main.cpp:26 | The string order is transitive. |
| Scenarios.AppleFrequencies | main.cpp:41-45 | The lines Apple, banana, apple, Apple count as Apple 2, apple 1, banana 1. |
| Scenarios.AppleOrder | main.cpp:26 | Their keys sort as Apple, apple, banana, because upper case has the smaller codes. |
| Scenarios.AppleLookup | main.cpp:84-96 | A search for APPLE finds Apple (count 2), the first key in map order that matches. |
| Scenarios.AppleListing | main.cpp:110-112 | The listing is (Apple, 2), (apple, 1), (banana, 1). |
| Scenarios.AppleBackup | main.cpp:60-62 | The backup lines are "Apple 2", "apple 1", "banana 1". |

## Left out

- File I/O (opening, reading, writing and closing, main.cpp:32-47, 52-65) and
  the two file names are not modelled. The input arrives as a value, and the
  backup is returned as its lines; see above.
- The error and success messages of reading and writing, the banners, the
  menu text, the prompts and the `setw(15)`/`left` column padding are all
  console output. The model returns the data those lines show, as `Reply`
  values.
- `cin >> choice` and `cin.ignore()` are not modelled: a choice arrives as an
  already-parsed `int`, drawn from a finite sequence. In C++ the operator
  behaves in three ways:
  - Input that is not a number stores 0 and leaves the stream failed.
  - An out-of-range number stores `INT_MAX` or `INT_MIN`.
  - At end of input the read fails before parsing and `choice` keeps its old
    value. After a choice of 1, 2 or 3 that action then repeats forever,
    because `getline` and `cin.get()` fail at once too. At end of input
    before any choice, the uninitialised `choice` (main.cpp:162) is read.

  None of this is modelled. The model's own policy is that the loop stops
  when the sequence of choices runs out.
- `cin.get()` (the pause between cycles, main.cpp:199-202) takes one
  character from the same stream that supplies the next choice. The model
  assumes the user answers the pause with Enter, so the pause consumes
  nothing that a later choice or search term would see. A missing search
  line (a failed `getline`) gives an empty term.
- `::tolower` is modelled for ASCII `A`..`Z` only; locale-dependent mappings
  are not modelled.
- The `default:` branch of the switch is not modelled: it is dead code, as
  `Menu.ValidChoiceSelectsAction` shows.
- Tracker.ItemTracker.ReadInputFile: counts are unbounded integers. The
  32-bit `int` overflow of `itemFrequency[item]++` after 2^31 - 1 equal lines
  is not modelled.
- A `char` is a Dafny character, not a signed byte, and `std::string`
  comparison is modelled on character codes. Bytes outside ASCII therefore
  take their code point, not their `unsigned char` value.
- `Table.ParseBackup` (and `ParseLine`, `ParseEntries`, `ToMap`) are not part of
  the program. They are the inverse of the backup format, defined here so that
  the round trip can be stated.
