# RomChecker in Dafny

RomChecker checks Game Boy and Game Boy Color ROM files against their file extension. It takes
ROMs from loose files, folders and zip/7z archives. For each ROM it reads the cartridge header
byte at offset 0x143, which declares GB (0x00) or GBC (0x80 or 0xC0). The verdict is correct,
wrong with a suggested extension, or unknown. The verdicts are printed as a table sorted by name.
The table has a 48-cell name column. Names that are too wide are abbreviated around their
extension, with a display width of two cells for every character above U+007F. A tally of
correct, wrong and unknown verdicts closes the report.

This project models the deterministic string and byte logic between the I/O calls of
`RomChecker.py` and proves its properties:

- `text.dfy` (`Text`): ASCII lower-casing, `str.rfind`, substring tests, and decimal rendering of
  the collision counter.
- `display_width.dfy` (`DisplayWidth`): the fallback `wcswidth` and `pad_to_display_width`.
- `truncate.dfy` (`Truncate`): `truncate_to_display_width`.
  - Recursive functions state each of its loops.
  - The method `TruncateToWidth` runs those loops and is proved to compute `Truncated`.
- `paths.dfy` (`RomPaths`):
  - `os.path.basename`, `os.path.splitext` and `PurePath.suffix`;
  - the `.gb`/`.gbc` filter;
  - the arrow-joined display name of a ROM found in a folder.
- `classifier.dfy` (`Classifier`): `detect_gb_type` on the file's bytes, and `check_rom`.
- `zip_collect.dfy` (`ZipCollect`): extraction of the ROM entries of a zip archive.
  - The name-choosing loop picks a collision-free output name.
  - The extraction loop is modelled as written, and as corrected (see Findings).
- `report.dfy` (`Report`): from `print_table`, the sort by lower-cased name, the name and suggestion
  cells, and the tally.

Two behaviours of the code are worth stating plainly, because a reader might expect otherwise:

- An unknown verdict carries the suggestion `"?"`, not an empty suggestion (`RomChecker.py:180`).
- A ROM taken from a zip archive is shown under the name of the file it was renamed to (for
  example `a_1.gb`), not under the entry's bare base name: `collect_from_archive` uses `f.name`
  of the returned path (`RomChecker.py:203`).

## Model

| member | source | states |
|---|---|---|
| Text.RFind | RomChecker.py:48-49 | the index of the last occurrence of the character; -1 exactly when it does not occur, and no occurrence lies after the returned index |
| Text.Lower | RomChecker.py:144 | `str.lower()` on ASCII, as also used at lines 181, 220 and 251: same length, no capital letter left, each capital replaced by its small letter and every other character kept; exact for the `.gb`/`.gbc` tests (see Left out) |
| Text.Contains | RomChecker.py:98 | `x in s`: a prefix of `s` is contained, and what is contained is no longer than `s` |
| Text.ContainsMeansOccurs | RomChecker.py:98 | `x in s` holds exactly when `x` occurs in `s` at some index |
| Text.Decimal | RomChecker.py:155 | `str(counter)`: a nonempty run of decimal digits with no leading zero for a positive number |
| Text.ParseDecimalOfDecimal | RomChecker.py:155 | the rendered counter reads back as the same number, so different counters give different text |
| DisplayWidth.WidthAppend | RomChecker.py:26-27 | the fallback width is additive over concatenation |
| DisplayWidth.WidthBounds | RomChecker.py:26-27 | a string takes between one and two cells per character, and exactly one cell per character if and only if it is pure ASCII |
| DisplayWidth.Width | RomChecker.py:26-27 | the fallback `wcswidth`: 2 cells for a character above U+007F, 1 otherwise, summed over the string; its properties are WidthAppend and WidthBounds |
| DisplayWidth.PadToWidth | RomChecker.py:29-34 | text at least the target width comes back unchanged; narrower text is extended by spaces only, to exactly the target width |
| Truncate.SplitForTruncation | RomChecker.py:47-54 | base + extension is the name; an extension is split off exactly when the name has a '.' and the part from the last '.' is at most 8 characters; it then starts with its only '.' |
| Truncate.TailIsLongestFit | RomChecker.py:71-78 | the tail is an end of the base at most 4 cells wide, and an end of the base fits in 4 cells if and only if it is no longer than the tail |
| Truncate.KeptPrefixFacts | RomChecker.py:80-102 | the kept prefix is empty or within the budget; a greedy prefix is a maximal run from the start sharing no character with the tail; a refilled prefix followed by the tail occurs in the base |
| Truncate.TruncatedShape | RomChecker.py:44-104 | a name that fits is returned unchanged; otherwise the result ends with the extension, is exactly "..." + extension when the width leaves no more room, and else ends with "..." + tail + extension |
| Truncate.TruncatedWidth | RomChecker.py:80-104 | the result fits the width whenever the width leaves room for the ellipsis, the tail and the extension; TruncatedOverflowsWithoutRoomForTail shows that the room for the tail is needed |
| Truncate.TruncatedOverflowsWithoutRoomForTail | RomChecker.py:64-104 | a name that does not fit, in a width above 3 + width(extension) but below 3 + width(tail) + width(extension), comes out wider than the width, because the tail is kept whatever the budget |
| Truncate.TruncatedOverflowExample | RomChecker.py:64-104 | `abcdefgh` in 5 cells becomes `...efgh`, 7 cells wide |
| Truncate.TruncatedWidthWithRoom | RomChecker.py:80-104 | the result fits whenever the width is at least 7 cells more than the extension |
| Truncate.TruncatedFitsColumn | RomChecker.py:44-104 | with at least 23 cells every name fits, whatever its extension |
| Truncate.CollectTail | RomChecker.py:71-78 | the right-to-left tail loop yields the tail and its width |
| Truncate.CollectGreedyPrefix | RomChecker.py:85-92 | the left-to-right prefix loop stops at the first character found in the tail or that would exceed the budget |
| Truncate.CollectRefill | RomChecker.py:94-102 | the fallback loop yields the refilled prefix |
| Truncate.TruncateToWidth | RomChecker.py:36-104 | `truncate_to_display_width` computes `Truncated`, about which the lemmas above are stated |
| Truncate.Truncated | RomChecker.py:36-104 | `truncate_to_display_width` as a function of text and width, built from SplitForTruncation, Tail, KeptPrefix and the final concatenation; its properties are TruncatedShape and the width lemmas |
| RomPaths.Basename | RomChecker.py:149 | the result holds no separator, ends the path, and is the whole path or follows a separator |
| RomPaths.SplitExt | RomChecker.py:153 | stem + suffix is the file name |
| RomPaths.SplitExtCharacterized | RomChecker.py:153 | a suffix is split off exactly when the last '.' follows the last separator and something other than dots stands between them; it then holds one '.', at its start, and no separator |
| RomPaths.PathSuffix | RomChecker.py:181 | `Path.suffix`: empty exactly when the last '.' is missing, first or last; otherwise an end of the name of at least two characters starting with its only '.' |
| RomPaths.HasRomExtension | RomChecker.py:144 | the filter shared by the zip listing and the folder walk (line 220): the lower-cased name ends with `.gb` or `.gbc` |
| RomPaths.FolderDisplayName | RomChecker.py:223-224 | the path relative to the folder with every platform separator replaced by `→`; its properties are FolderDisplayNameRoundTrip and FolderDisplayNameExample |
| RomPaths.FolderDisplayNameRoundTrip | RomChecker.py:222-224 | the display name has the path's length and no separator, and when the path holds no arrow the path can be read back from it |
| RomPaths.FolderDisplayNameExample | RomChecker.py:222-224 | `x/y.gb` is shown as `x→y.gb` |
| Classifier.DetectGbTypeCharacterized | RomChecker.py:167-176 | a type is detected exactly when the file has a byte at 0x143 and that byte declares the type (0x00 GB; 0x80, 0xC0 GBC); a missing file, a short file or any other byte gives no type |
| Classifier.DetectGbType | RomChecker.py:167-176 | `detect_gb_type` on the file contents (None for a file that cannot be read); characterized by DetectGbTypeCharacterized |
| Classifier.CheckRom | RomChecker.py:178-185 | unknown type gives the warning mark and "?"; otherwise the status is correct if and only if the lower-cased suffix is the expected extension, the suggestion is empty if and only if the status is correct, and a wrong status suggests the expected extension |
| Classifier.CheckRomStatuses | RomChecker.py:178-185 | every verdict carries one of the three marks |
| Classifier.CheckRomExamples | RomChecker.py:178-185 | GB header on `game.gb` is correct, GBC header on `game.gb` is wrong with `.gbc`, byte 0x55 is unknown whatever the name |
| Classifier.RenamingToSuggestionFixes | RomChecker.py:181-184 | renaming a file flagged as wrong to the suggested extension makes its verdict correct |
| ZipCollect.CandidatesDistinct | RomChecker.py:152-156 | the names tried (the name, then stem_k + suffix) are pairwise different, so the search cannot revisit a name |
| ZipCollect.Candidate | RomChecker.py:152-156 | the k-th name the rename loop tries: the file name itself, then stem + "_" + str(k) + suffix |
| ZipCollect.ChosenName | RomChecker.py:149-156 | the name the rename loop settles on; it is never the name of an existing file |
| ZipCollect.ChosenNameIsFirstFree | RomChecker.py:149-156 | the chosen name is not an existing file, and every name tried before it is |
| ZipCollect.FirstFreeUnique | RomChecker.py:152-156 | any free candidate preceded only by taken ones is the chosen one |
| ZipCollect.ChooseOutputName | RomChecker.py:149-156 | the rename loop terminates with a name no existing file has, the first free candidate |
| ZipCollect.RomEntries | RomChecker.py:144 | the entries kept are exactly the archive's names ending in `.gb` or `.gbc`, in any letter case |
| ZipCollect.RomEntriesAppend | RomChecker.py:144 | the filter distributes over concatenation of name lists, so it keeps archive order and duplicates |
| ZipCollect.RomEntriesSingle | RomChecker.py:144 | a single name is kept exactly when it ends in `.gb` or `.gbc` in any letter case; with RomEntriesAppend this determines the filtered list |
| ZipCollect.LastIndex | RomChecker.py:158 | the entry `zf.extract(name, ...)` reads: an entry of that name with no entry of that name after it |
| ZipCollect.ExtractAsWritten | RomChecker.py:148-162 | the extraction loop as written: each entry name is written under its full archive name, with the bytes of the last entry of that name, over any file of that name, then renamed to the chosen name when the two differ |
| ZipCollect.ExtractAsWrittenLosesNestedEntry | RomChecker.py:148-162 | extracting `dir/n` and then `n` as written leaves no file `n` and one file holding the second entry, while both `n` and the second candidate are reported |
| ZipCollect.ExtractAsWrittenLosesFirstEntry | RomChecker.py:148-162 | archive order `sub/a.gb`, `a.gb`: reported `a.gb` and `a_1.gb`, but only `a_1.gb` exists and it holds the second entry |
| ZipCollect.ExtractAsWrittenLosesRepeatedEntry | RomChecker.py:148-162 | two entries of the same name `n`: both extractions read the second entry, so no file holds the first, `n` is reported but names no file, and the second candidate holds the second entry |
| ZipCollect.ExtractAsWrittenLosesRepeatedA | RomChecker.py:148-162 | entries `a.gb`, `a.gb`: reported `a.gb` and `a_1.gb`, but only `a_1.gb` exists and it holds the second entry |
| ZipCollect.ExtractFromZip | RomChecker.py:140-163 | no ROM entry gives the "no ROM entries" outcome and touches nothing; otherwise every entry is reported under the name the rename loop chooses for its base name among the files present before and the names reported for earlier entries; these names are distinct, each holds its own entry's bytes, files already present are untouched, and no other file appears |
| Report.LessEqTotal | RomChecker.py:251 | Python's string order compares any two names |
| Report.LessEqTransitive | RomChecker.py:251 | the string order is transitive |
| Report.LessEqAntisymmetric | RomChecker.py:251 | two names each ordered before the other are equal |
| Report.SortByNameSortsAndPermutes | RomChecker.py:251 | the rows come out ordered by lower-cased name and are a permutation of the results |
| Report.SortByNameIsStable | RomChecker.py:251 | rows with the same lower-cased name keep their original order |
| Report.SortByName | RomChecker.py:251 | `sorted(results, key=lambda x: x[0].lower())` as a stable insertion sort; its properties are SortByNameSortsAndPermutes and SortByNameIsStable |
| Report.Summarize | RomChecker.py:261-264 | total is the number of results, ok and bad count the two marks, unknown is the remainder |
| Report.CountStatus | RomChecker.py:262-263 | the number of rows carrying a given status mark, the sums of lines 262-263 |
| Report.UnknownIsRemainder | RomChecker.py:261-264 | the remainder counts exactly the rows with neither mark, so it is never negative |
| Report.UnknownCountsUnknownMarks | RomChecker.py:261-264 | for verdicts of `check_rom` the remainder is the number of unknown verdicts |
| Report.SortKeepsCounts | RomChecker.py:251-264 | the counts over the unsorted results equal those over the printed rows |
| Report.NameCell | RomChecker.py:252-253 | every name cell is exactly 48 cells wide, and a name that fits is only padded |
| Report.SuggestionCell | RomChecker.py:255 | the suggestion starts its cell, and a suggestion that fits is padded to exactly 10 cells |
| Report.SuggestionCellWidth | RomChecker.py:255 | every suggestion `check_rom` makes fills exactly 10 cells |

## Left out

- Running `7za` in a subprocess, with its timeout and output parsing (`RomChecker.py:106-138`): an external process.
- The real `zipfile` reading, `Path.exists`, `Path.rename` and their exceptions (`RomChecker.py:143-165`): the work directory is a map from file name to contents, and the archive is its list of entry names.
- Directories created while extracting nested entries, and zip member-name sanitisation: a directory of the same name as a candidate is not modelled as taking that name.
- `os.walk`, `Path.resolve` and the temporary work directory (`RomChecker.py:218, 273, 281`): filesystem plumbing.
- The per-archive subdirectory name from `hash(str(archive_path))` (`RomChecker.py:189`): Python's string hash is salted per process.
- The thread pool, `as_completed` and the `tqdm` progress bar (`RomChecker.py:303-310`): concurrency and a third-party display library.
- The real `wcwidth` package (`RomChecker.py:24`): a foreign Unicode table. Only the fallback width is modelled.
- Printing, `input()`, the header and rule lines, `str.center` for the status cell, and the "no ROM" message for an empty table (`RomChecker.py:230-250, 254, 267-325`): console output.
- `min_reserve_width` and `tail_reserve_width` (`RomChecker.py:61, 68`): computed but never read, so they do not affect the result.
- Windows paths: `os.path.basename` and `os.path.splitext` are modelled with '/' as the only separator, and the folder separator is a parameter.
- The `except` branch of the folder display name (`RomChecker.py:225-226`): a file found under a folder always has a path relative to it.
- Text.Lower: lowers only ASCII capitals. This is exact for the `.gb`/`.gbc` comparisons, but sort keys of names with non-ASCII capitals may order differently from Python's `str.lower`.
- Report.Key: inherits that ASCII-only lowering, for the same reason.
- Name comparison is modelled as case-sensitive: on Windows and macOS `Path.exists()` and `rename` ignore letter case, so an existing `A.gb` would make `a.gb` count as taken, while the model's set of existing names and its directory map compare names exactly.
- Strings are sequences of code points. Surrogate pairs and combining characters get no special treatment, as in the fallback width.

## Findings

| source | as written | input that shows it | evidently intended | confidence | as-written member | corrected member |
|---|---|---|---|---|---|---|
| RomChecker.py:148-162 | the output name is chosen first, then `zf.extract` writes the entry under its full archive name, then it is renamed; an entry whose full name equals an earlier entry's chosen name is written over that file | a zip whose ROM entries are `sub/a.gb` then `a.gb`: the first is renamed to `a.gb`, the second is extracted over it and renamed to `a_1.gb` | every ROM entry ends up in its own file under the reported name | not executed | ZipCollect.ExtractAsWrittenLosesFirstEntry | ZipCollect.ExtractFromZip |
| RomChecker.py:144-158 | `zf.extract` is given the entry's name, and a name that occurs twice in the archive is looked up as its last entry; `namelist()` keeps both occurrences | a zip with two entries named `a.gb`: the first extraction writes the second entry to `a.gb`, the second writes it again and the file is renamed to `a_1.gb` | every ROM entry, a repeated name included, ends up in its own file under the reported name; the corrected loop writes entry `i`'s own bytes | not executed | ZipCollect.ExtractAsWrittenLosesRepeatedA | ZipCollect.ExtractFromZip |
