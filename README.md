# RetroHash in Dafny

RetroHash has two halves.

- **Catalog builder** (`main.py`). It downloads the Nintendo 64 game list from RetroAchievements and keeps the eligible titles. It fetches each title's details and supported ROM hashes, retrying on rate limiting with a growing wait. It then writes a "light" catalog of the official games: `{game_id, game_title, supported_hashes}`.
- **ROM filter** (`filter_roms.py`). It reads the light catalog and builds an index:
  - the set of supported MD5 digests;
  - one preferred digest per game, by region priority (France > Europe > USA > other).

  It then scans a folder of ROM files and ZIP archives. It keeps at most one file per game and copies or extracts the kept files into `filtered`. Finally it prints a summary and the sorted list of catalog games that were not found.

This project models both halves, plus `remove_achievements` from `retroachievements/utils.py`, and proves properties of the model.

Modules:

- `Common` (`common.dfy`): `Option`, `Result`, bytes.
- `Text` (`text.dfy`): the Python `str` operations the scripts use:
  - `in`, `startswith`, `endswith`;
  - ASCII `upper`/`lower`;
  - `Path.suffix` and `Path.name`;
  - code-point string order and `sorted`.
- `Catalog` (`catalog.dfy`): the light catalog record.
- `RomIndex` (`rom_index.dfy`): the priority function and the two index tables.
- `RomScan` (`rom_scan.dfy`): digest of a candidate file, the `found_md5s` table and the scan loop.
- `RomCopy` (`rom_copy.dfy`): the copy/extract loop and `kept_count`.
- `FilterRoms` (`filter_roms.dfy`): the whole `filter_roms` run, the summary figures, the missing-games list and properties of a run.
- `CatalogBuilder` (`catalog_builder.dfy`): the title filter, the retry loop, the light projection and the credential guard of `main`.
- `JsonUtils` (`json_utils.dfy`): `remove_achievements` over a JSON datatype.

The environment the scripts touch is an input to the model:

- **Library code.** An `Io` value gives the MD5 function and the ZIP reader. Both are uninterpreted functions.
- **The ROM folder.** It is the ordered list of `Candidate`s the glob calls return. Each candidate carries its bytes at scan time and at copy time (`None` when reading raises) and whether writing its output succeeds.
- **The RetroAchievements server.** An `Env` gives what attempt `k` of the `i`-th title meets.
- **Sleeps.** They are recorded as a list of durations in milliseconds.

The loops of the scripts are methods. Each is proved against a recursive specification function, and the properties are lemmas about those functions. `found_md5s` is kept as the ordered list of its items, so Python's insertion order is kept and "one entry per game" is proved rather than assumed.

Where the code and its comments or documentation differ, the model follows the code:

- **A game without a region tag still gets a preferred digest.** The comment at `filter_roms.py:92` says otherwise. But `best_priority` starts at -1, so every game with a non-empty MD5 gets one (`RomIndex.BestOfSpec`).
- **Ties keep the first record, so list order matters.** Among records of equal best priority the first one wins, so the preferred digest depends on the order of the list.
- **A duplicated MD5 keeps the last name.** When two records carry the same MD5, `supported_hashes` keeps the name of the last one (`RomIndex.SupportedOfSpec`).
- **A digest listed under two games is kept for both.** The `break` leaves only the inner loop, so the file is kept, and copied, once per game. A single file can then make "ROMs ignored" negative (`FilterRoms.SharedDigestCountsTwice`).
- **The last preferred file wins.** When several scanned files carry a game's preferred digest, the last one scanned is kept (`RomScan.KeptForPreferredWins`).

## Model

| member | source | states |
|---|---|---|
| Text.Upper | filter_roms.py:17 | `str.upper()` on ASCII: same length, each character upper-cased |
| Text.Lower | filter_roms.py:118 | `str.lower()` on ASCII: same length, each character lower-cased |
| Text.Suffix | filter_roms.py:118 | `Path.suffix`: non-empty exactly when the name has a dot, neither its first nor its last character, with no dot after it; then it is the name from that dot on |
| Text.BaseName | filter_roms.py:168 | `Path(name).name`: the text after the last `/`; a name without `/` is its own base name |
| Text.SortStrings | filter_roms.py:195 | `sorted(...)` on strings: the result is ordered and is a permutation of the input |
| Text.SortedUnique | filter_roms.py:195 | two ordered permutations of the same strings are equal, so the printed order is determined |
| RomIndex.Priority | filter_roms.py:79-86 | 3 iff a French tag occurs (it wins over Europe and USA); else 2 iff "(Europe)"; else 1 iff "(USA)"; else 0 |
| RomIndex.PriorityGrowsWithName | filter_roms.py:79-86 | adding text to a name never lowers its priority |
| RomIndex.SupportedOfSpec | filter_roms.py:69-76 | the keys of `supported_hashes` are exactly the upper-cased non-empty MD5s; each maps to the name of the last record carrying it |
| RomIndex.BestOfSpec | filter_roms.py:66-91 | a game has a best digest iff it has a non-empty MD5; it is the digest of the first record of maximal priority; with none, the priority stays -1 |
| RomIndex.PreferredMapKeys | filter_roms.py:61-94 | `game_priority` has a key iff a game with that id has a non-empty MD5 |
| RomIndex.PreferredMapValues | filter_roms.py:61-94 | the value for an id is the first-best digest of the last game with that id that has a non-empty MD5 |
| RomIndex.PreferredIsListed | filter_roms.py:88-94 | a preferred digest is non-empty and listed by a game with that id |
| RomIndex.IndexRecords | filter_roms.py:69-91 | the inner index loop extends `supported_hashes` by one game's records and computes `best_priority`/`best_hash` |
| RomIndex.BuildIndex | filter_roms.py:56-94 | the nested index loops build exactly the two specified tables |
| RomScan.FirstRomEntry | filter_roms.py:25-30 | the first archive member whose name ends, case-sensitively, in .z64/.n64/.v64; none iff no member does |
| RomScan.ArchiveNameSpec | filter_roms.py:118 | a file is handled as an archive iff its name ends in ".zip" in any case with at least one character before the dot |
| RomScan.ArchiveDigest | filter_roms.py:20-39 | `calculate_md5_from_zip` gives a digest iff the file reads, is a ZIP, has a ROM member and that member reads; the digest is that member's upper-cased MD5 |
| RomScan.CandidateDigest | filter_roms.py:117-124 | an archive gets the digest of `calculate_md5_from_zip`; a loose file gets the upper-cased MD5 of its bytes, and none when reading raises; a digest is always upper case |
| RomScan.IndexOf | filter_roms.py:135 | the slot of a game id in `found_md5s`, absent iff no slot has that id |
| RomScan.LookupAt | filter_roms.py:110 | in a table with unique ids, looking up a slot's id finds that slot |
| RomScan.PutSpec | filter_roms.py:135-143 | a dict store keeps ids unique, changes only that id, and grows the table only for a new id |
| RomScan.UpdateSpec | filter_roms.py:135-143 | a game seen for the first time gets the file; a game that has one switches only to its preferred digest; no other game's entry changes |
| RomScan.AssignAt | filter_roms.py:129-144 | for one game id, the loop over the catalog acts as one selection step: insert if absent, replace only with the preferred digest |
| RomScan.StepAt | filter_roms.py:116-147 | one scanned candidate changes a game's entry only if the candidate matches that game |
| RomScan.ScanIsPerGame | filter_roms.py:110-147 | after the scan, ids are unique and each game's entry is given by the per-game selection rule |
| RomScan.KeptForValid | filter_roms.py:129-143 | a kept entry names a scanned file whose digest is supported and listed by that game |
| RomScan.KeptForMatched | filter_roms.py:135-136 | once a file matches a game, that game has an entry |
| RomScan.KeptForEntries | filter_roms.py:127-143 | a game has an entry iff some scanned file matches it |
| RomScan.KeptForPreferredWins | filter_roms.py:139-143 | if some scanned file carries the game's preferred digest, the entry is the last such file |
| RomScan.KeptForFirstMatchStays | filter_roms.py:135-143 | if no scanned file carries the preferred digest, the entry is the first file that matched |
| RomScan.AssignNoHit | filter_roms.py:129-131 | a digest no game lists changes nothing |
| RomScan.StepNoMatchUnchanged | filter_roms.py:123-127 | a candidate with no digest, an unsupported digest or no matching game leaves `found_md5s` unchanged |
| RomScan.AssignDigest | filter_roms.py:129-144 | the nested loop over games and their records, with the inner `break`, performs the specified selection step |
| RomScan.Scan | filter_roms.py:113-147 | the scan loop builds exactly the specified `found_md5s` |
| RomCopy.Materialise | filter_roms.py:156-180 | a loose file is written, under its own name and with its bytes, iff it reads and its destination is writable; an archive is written iff it reads, is a ZIP and its first ROM member reads, under that member's base name with its data; nothing happens iff a readable ZIP has no ROM member |
| RomCopy.CopyPreservesDigest | filter_roms.py:157-176 | a file unchanged since the scan is written with exactly the digest the scan matched |
| RomCopy.WrittenNameIsFlat | filter_roms.py:166-170 | output names have no directory part |
| RomCopy.Emitted | filter_roms.py:171-176 | one iteration writes at most one file, and exactly the file it produced when it succeeds |
| RomCopy.OutputsAppend | filter_roms.py:178-180 | a failing entry adds nothing and the loop goes on: outputs of a concatenation concatenate |
| RomCopy.OutputsBound | filter_roms.py:153-180 | `kept_count <= len(found_md5s)`, with equality iff every copy or extraction succeeds |
| RomCopy.FolderOfSpec | filter_roms.py:165-175 | the output folder holds its earlier files plus every written name, each with the last data written under it |
| RomCopy.CopyAll | filter_roms.py:153-180 | the copy loop counts exactly the files written and leaves the specified folder |
| FilterRoms.Percent | filter_roms.py:184 | `kept*100//total` is the floor of the percentage, and is at most 100 when the part is at most the whole |
| FilterRoms.MissingTitlesSpec | filter_roms.py:188-191 | a title is listed iff a catalog game with that title has no entry; there are at most as many as games |
| FilterRoms.MissingGames | filter_roms.py:188-191 | the loop collects exactly the specified missing titles |
| FilterRoms.FilterRoms | filter_roms.py:42-196 | a run fails with division by zero iff the catalog is empty; otherwise its figures are the specified ones |
| FilterRoms.RecordsOfGames | filter_roms.py:61-69 | a record is in the catalog's record list iff some game lists it |
| FilterRoms.SupportedIffListed | filter_roms.py:127-131 | a digest is supported iff it is non-empty and some game lists it |
| FilterRoms.PreferredDigestKept | filter_roms.py:127-144 | a scanned file carrying a game's preferred digest makes that game's entry carry it, order notwithstanding |
| FilterRoms.MissingMeansUnmatched | filter_roms.py:188-191 | a game is missing iff no scanned file has a non-empty digest that a game with its id lists |
| FilterRoms.IdsOfCount | filter_roms.py:149 | a table with unique ids has as many ids as slots |
| FilterRoms.CatalogIdsCount | filter_roms.py:59 | a catalog has at most as many distinct ids as games |
| FilterRoms.SelectionIds | filter_roms.py:110-147 | `found_md5s` has unique ids from the catalog; each digest is listed by that game and is the file's digest; at most one entry per game |
| FilterRoms.ReportBounds | filter_roms.py:183-184 | kept <= unique games found <= catalog games, so the percentage is at most 100 |
| FilterRoms.SharedDigestCountsTwice | filter_roms.py:144 | one file listed under two games is kept and copied twice, so "ROMs ignored" is negative |
| CatalogBuilder.FilterAppend | main.py:29-32 | list-comprehension filters preserve order over concatenation |
| CatalogBuilder.FilterMembers | main.py:29-32 | a filter keeps exactly the elements satisfying its condition and never grows the list |
| CatalogBuilder.Map | main.py:96-103 | a list-comprehension map keeps the length and maps each position |
| CatalogBuilder.FilterTitlesSpec | main.py:29-34 | `filtered_games` holds exactly the titles not starting with '~' and not containing "[Subset"; `ignored_count` counts the others |
| CatalogBuilder.FilterSplit | main.py:34 | every game is either kept or ignored |
| CatalogBuilder.TitleSpec | main.py:47-76 | the retry loop of one title; a title that yields a record ends with the 0.5 s pause, never with a backoff |
| CatalogBuilder.TitleSucceeds | main.py:47-76 | a title yields a record iff some attempt k < 3 succeeds after k rate limits; the record is what that attempt fetched |
| CatalogBuilder.ThreeRateLimits | main.py:50-69 | three 429s in a row, from either request: nothing appended; waits of 30 s, 60 s and 90 s, each after the 0.5 s pause of an attempt whose first request answered |
| CatalogBuilder.OtherFailureStops | main.py:70-76 | another HTTP error or exception ends the title with nothing appended and no backoff |
| CatalogBuilder.TitleWaits | main.py:53-69 | every sleep is the 0.5 s pause or a backoff of 30*n s with n <= 3; the backoffs strictly increase, so each happens at most once |
| CatalogBuilder.FetchTitle | main.py:47-76 | the retry loop yields exactly the specified record and sleeps |
| CatalogBuilder.LightOfSpec | main.py:89-103 | the light list projects, in order, exactly the official records |
| CatalogBuilder.Appended | main.py:61 | a title appends at most one record, the one it fetched |
| CatalogBuilder.CollectedSpec | main.py:41-62 | `all_games_data` has one record per successful title, in order, and nothing else |
| CatalogBuilder.GetAllGames | main.py:23-117 | a failed list request makes the run fail; otherwise it returns the specified lists, counts and sleeps |
| CatalogBuilder.SizesShrink | main.py:29-103 | len(light) <= len(all_games_data) <= len(filtered_games) <= len(list) |
| CatalogBuilder.Resolve | main.py:127-134 | a set, non-empty environment value is used; otherwise the typed answer is; the credential is empty iff both are |
| CatalogBuilder.StartMain | main.py:127-141 | `main` goes on iff both resolved credentials are non-empty, and then with exactly those credentials |
| CatalogBuilder.CredentialGuard | main.py:136-141 | `main` stops before any request iff the username or the key ends up empty |
| JsonUtils.In | retroachievements/utils.py:33 | Python's `in`: key of an object, element of a list, substring of a string; a TypeError exactly on scalars |
| JsonUtils.Del | retroachievements/utils.py:34 | Python's `del`: succeeds iff the value is an object, which then loses that key and keeps every other key and value |
| JsonUtils.RemoveAchievements | retroachievements/utils.py:20-36 | fails exactly where Python raises TypeError; otherwise every key but `game_info` is untouched and `game_info` loses only `Achievements` |
| JsonUtils.NothingToRemove | retroachievements/utils.py:33 | without `game_info`, or without `Achievements` in it, the record comes back unchanged |
| JsonUtils.RemoveAchievementsIdempotent | retroachievements/utils.py:33-34 | removing twice is removing once |

## Left out

- MD5 itself: `hashlib` and the 4096-byte chunk loops (filter_roms.py:13-16, 33-36). The hex digest is an uninterpreted function of the bytes.
- ZIP parsing: `zipfile` is an uninterpreted function from bytes to members. The sandboxing of member paths and the directories `extract` creates for a member with a directory part are not modelled.
- RomCopy.Materialise: a failed iteration is modelled as writing nothing. In the source, `extract` can raise BadZipFile on a CRC mismatch after writing part of the file, a `copy2` that fails in `copystat` has already written the whole file, and a failed `rename` leaves the member under its directory path. These partial writes are not modelled.
- Globbing: the candidates are the list the four glob calls return, in the order .z64, .n64, .v64, .zip. Glob case-sensitivity and the directory order within each glob depend on the OS.
- JSON loading and saving, `save_to_json`, and the key order of JSON objects. Also left out are JSON floats and the records a catalog file could hold beyond `game_id`, `game_title` and `supported_hashes`.
- A missing `MD5`, `Name` or `supported_hashes` field is modelled as its default (`""` or `[]`). A missing `game_id` or `game_title`, or any other malformed record, makes the script raise KeyError; that case is not modelled.
- Network calls and `time.sleep`: replaced by the `Env` outcomes and the recorded list of waits. The '429' substring test on the exception text is the `RateLimited` tag.
- `RetroAchievementsAPI` (`retroachievements/client.py`) is not part of this model. Nor is `retroachievements/display.py`, which only prints.
- Printing and progress lines, `input()` prompts, environment-variable lookup and the `sys.path` import: the prompt answers and the environment values are parameters of `CatalogBuilder.StartMain`. The rest of `main` after the guard is not modelled: the check for the roms folder and the call to `filter_roms`.
- Exceptions neither script catches stop the run; they are not modelled, and the model skips that candidate instead. An example is the `RuntimeError` for an encrypted member or the `NotImplementedError` for an unsupported compression method, raised by `zip_ref.open` or `extract` (filter_roms.py:34, 165); the model reads such a member as unreadable (`data: None`).
- CatalogBuilder.GetAllGames: after a successful listing it always returns a result. In the source, a KeyError on a malformed API answer or an I/O error in `save_to_json` after the listing makes `get_all_n64_games` return False (main.py:115-117); the model assumes well-formed answers and successful writes.
- Text.Upper: maps ASCII letters only, whereas Python's `str.upper` maps all of Unicode. MD5 hex digests are ASCII.
- Text.Suffix: models `Path.suffix` of a name without a directory part, which the glob results are.
