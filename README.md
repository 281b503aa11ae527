# Complete Greek Bible merge — a Dafny model

`merge_bible.py` builds one MyBible module out of two: it copies the
Septuagint database (LXX-Rahlfs-1935) and appends the New Testament from an
SBLGNT module to it. The New Testament books are renumbered into the range the
MyBible guide reserves for them: 470, 480, … 730, in canonical order. The
script also finds the SBLGNT database in the add-ons checkout, loads a
bridging CSV, and patches the module's `info` table.

This project models that core:

- `Strings`: the ASCII lower-casing and the substring test (`in`) that the
  book matching and the path filter use.
- `Collect`: the two shapes the script's loops take. One is a filtering list
  comprehension or append loop (`FilterMap`). The other is a dictionary
  filled row by row, where a later row replaces an earlier one (`LastWins`).
- `Tables`: the rows read from and written to the databases.
- `NtBooks`: the 27 canonical names, the id arithmetic, and the first-match
  search of a canonical name for each SBL book.
- `SblSearch`: choosing the SBLGNT database from the lists of files found.
- `Bridging`: loading the bridging CSV into a dictionary.
- `Merge`: the merge itself. The output database is a `Database` object whose
  `books` and `verses` tables and `info` name/value table the merge extends
  and updates in place.

The name test is containment, in both directions, and the first canonical
name that passes wins. Two consequences follow. "john" is in "1 john", and
John comes before the letters in the canonical list, so the epistles 1, 2
and 3 John, when they have no short name, all get John's id, 500
(`NtBooks.JohnineLettersTakeJohnsId`). The short-name test can also send a
book to an earlier position: "re" occurs in "hebrews", so a book "Revelation"
with short name "Re" gets Hebrews' position 18 or an earlier one, never its
own 26 (`NtBooks.RevelationAbbreviatedRe`).

## Model

| member | source | states |
|---|---|---|
| Strings.Lower | merge_bible.py:93 | lower-casing keeps the length, leaves no ASCII capital, keeps every other character, and turns each capital into its small letter |
| Strings.Contains | merge_bible.py:93 | the `in` test on strings: an empty needle is in every string, and a needle is never found in a shorter string |
| Strings.ContainsIff | merge_bible.py:93 | the substring test holds exactly when some position of the haystack starts an occurrence of the needle |
| Strings.ContainsLower | merge_bible.py:93 | a substring stays a substring after both strings are lower-cased, so lower-casing both sides never loses a match |
| Collect.FilterMap | merge_bible.py:116-120 | a filtering pass never yields more elements than it reads |
| Collect.FilterMapSelection | merge_bible.py:116-120 | the result of a filtering pass is exactly the kept images, in input order: some strictly increasing index sequence picks out every input element the step keeps, and no other |
| Collect.LastWinsKeys | merge_bible.py:57-60 | a key is in the dictionary filled row by row exactly when some row yields an entry for it |
| Collect.LastWinsValue | merge_bible.py:57-60 | the value stored under a key is the one from the last row that yields that key |
| Collect.LastWinsValues | merge_bible.py:57-60 | every stored value comes from some row that yields that key |
| NtBooks.TargetId | merge_bible.py:94 | the id of canonical position i is a New Testament id (470 to 730, a multiple of 10), and position i can be recovered from it |
| NtBooks.TargetIdOrder | merge_bible.py:94 | ids keep canonical order strictly, so distinct positions get distinct ids |
| NtBooks.TargetIdOnto | merge_bible.py:24-25 | every New Testament id is the id of exactly one canonical position |
| NtBooks.Matches | merge_bible.py:93 | the name test of a canonical name against a book; a match needs the canonical name to fit in the long name, or a non-empty short name that fits in the canonical name |
| NtBooks.EmptyShortNameIgnored | merge_bible.py:93 | an empty short name would be in every name, and the truthiness guard leaves only the long-name test for it and for a missing one |
| NtBooks.FirstMatchFrom | merge_bible.py:92-104 | the search from position `from` returns the first position at or after it whose name matches the book, or none when nothing from there on matches |
| NtBooks.CanonIndex | merge_bible.py:92-104 | a book's canonical position is the first in the list whose name matches it, and it has none exactly when no name matches |
| NtBooks.MatchBook | merge_bible.py:91-104 | the loop over the canonical list with its `break` returns the first matching position, or none when no position matches |
| NtBooks.CanonIndexIsFirstMatch | merge_bible.py:92-104 | any position that matches while no earlier one does is the book's canonical position |
| NtBooks.MatchesIgnoresCase | merge_bible.py:93 | the name test gives the same answer whatever the case of the book's names |
| NtBooks.LongNameOccurrenceMatches | merge_bible.py:93 | a canonical name that appears verbatim in a long name matches it, so that book gets this position or an earlier one |
| NtBooks.ShadowedByEarlierName | merge_bible.py:92-104 | a book matched by an earlier canonical name never receives a later position |
| NtBooks.ShortNameClaimsPosition | merge_bible.py:93 | a non-empty short name that occurs in a canonical name gives the book that position or an earlier one |
| NtBooks.RevelationAbbreviatedRe | merge_bible.py:18-23 | a book "Revelation" with short name "Re" gets position 18 (Hebrews) or earlier, not 26 |
| NtBooks.JohnineLettersTakeJohnsId | merge_bible.py:18-25 | a book with long name "1 John", "2 John" or "3 John" and no short name is given John's position and id 500, not its own |
| SblSearch.Candidates | merge_bible.py:34 | the filtering comprehension keeps at most the paths found, and each kept path was found and contains no excluded word |
| SblSearch.CandidatesAreAdmissible | merge_bible.py:34 | every candidate was found and contains none of the excluded words, in any case |
| SblSearch.AdmissibleAreCandidates | merge_bible.py:39 | every found path that contains no excluded word is a candidate |
| SblSearch.CandidatesHead | merge_bible.py:34-46 | the candidate list is non-empty exactly when some found path is admissible, and its head is the first admissible path found |
| SblSearch.FindSblDatabase | merge_bible.py:27-46 | a returned path was found by one of the searches and passes that search's filter; the error is returned only when no fallback path is free of "dictionary" |
| SblSearch.FindSblDatabaseSpec | merge_bible.py:27-46 | the primary search wins when it keeps a path without "dictionary" or "lexicon"; otherwise the fallback's first path without "dictionary" is returned, and the error is reported exactly when there is none |
| Bridging.BridgingEntry | merge_bible.py:58-60 | a row yields an entry exactly when it has two or more cells, and the entry maps its first cell to its second |
| Bridging.LoadBridgingData | merge_bible.py:48-62 | a missing file gives the empty mapping; otherwise the keys are exactly the first cells of rows with two or more cells, each mapped to the second cell of the last such row |
| Merge.SqlUpdate | merge_bible.py:130 | the update changes the value of an existing name only, adds no name, and leaves other names alone |
| Merge.SqlInsertOrReplace | merge_bible.py:131 | insert-or-replace makes the name present with the new value and leaves other names alone |
| Merge.PatchedInfo | merge_bible.py:130-131 | after the patch the title is set; the description is set exactly when one was there before; every other entry is unchanged |
| Merge.BookIdMap | merge_bible.py:83-95 | the id map after the books loop; every value in it is a New Testament id |
| Merge.BookIdMapKeys | merge_bible.py:83-95 | an SBL book number is a key of the id map exactly when some book with that number matched a canonical name, and every value is a New Testament id |
| Merge.BookIdMapValue | merge_bible.py:95 | the id stored for a book number is computed from the last matched book with that number |
| Merge.NewBookRows | merge_bible.py:92-107 | the books rows the loop inserts: no more than there are SBL books, each with a New Testament id and colour "#FFD700" |
| Merge.NewBookRowsExact | merge_bible.py:92-107 | the rows added to books are one per matched SBL book, in SBL order, each with the book's target id, colour "#FFD700" and the book's own names; unmatched books add nothing |
| Merge.RemappedVerses | merge_bible.py:116-120 | the verses the loop keeps: no more than it reads, each carrying a value of the id map as its book number |
| Merge.RemapVerses | merge_bible.py:116-120 | the loop computes the remapped verses; it adds nothing, every kept verse carries a value of the id map, and so a New Testament id whenever every value of the map is one |
| Merge.RemappedVersesExact | merge_bible.py:116-120 | the kept verses are exactly the source verses whose book is in the id map, in source order, with chapter, verse and text unchanged and the book renumbered |
| Merge.VerseCarriedIffBookMatched | merge_bible.py:88-120 | a source verse reaches the output exactly when some SBL book with its book number matched a canonical name |
| Merge.Database.constructor | merge_bible.py:67-69 | the output database starts as a copy of the LXX tables given |
| Merge.Database.InsertBook | merge_bible.py:99-102 | inserting a book appends exactly that row and changes nothing else |
| Merge.Database.InsertVerses | merge_bible.py:122-125 | the batch insert appends the rows in order and changes nothing else |
| Merge.Database.UpdateInfo | merge_bible.py:130 | the update sets the info table to the SQL update of the old one |
| Merge.Database.InsertOrReplaceInfo | merge_bible.py:131 | insert-or-replace sets the info table to the insert-or-replace of the old one |
| Merge.MergeDatabases | merge_bible.py:64-131 | after the merge, books is the LXX books followed by the matched New Testament rows, verses is the LXX verses followed by the renumbered SBL verses, and info is patched |

## Left out

- Copying the LXX file, connecting to SQLite, `ATTACH`, `commit` and `close` are not modelled. The merge works on a `Database` object that stands for the copied file.
- `glob.glob` becomes the lists of paths each search finds, passed as parameters. The `sys.exit(1)` when nothing is found becomes the `NoSblDatabase` error value.
- Printing (progress, warnings, counts) is left out. So is the "not matched" warning; the model only skips the book.
- In `load_bridging_data`, the `os.path.exists` check becomes an `Option` input: a missing file is `None`. CSV tokenisation is not modelled; rows come in already split into cells.
- The `ORDER BY book_number` of the SBL book query is not modelled. The books are an input sequence in whatever order the query returns. The verse query has no `ORDER BY`, and its rows are an input sequence too.
- Database constraints are not modelled. With a unique `book_number` in `books`, the second of two rows with the same target id would make the script stop with an error, for example 1 John and John both landing on 500. The model appends both rows.
- A book whose `long_name` is NULL would make `.lower()` raise in the script. The model gives every book a long name, as a string.
- `str.lower()` is modelled for ASCII letters only. Greek and other non-ASCII characters keep their case.
- The `info` table is a map from name to value, so duplicate names cannot occur. The model assumes the uniqueness that `INSERT OR REPLACE` needs to replace rather than add.
- The unused variable `current_target_id` (line 86) is left out, since nothing reads it.
- The `__main__` sequence (lines 137-144) is left out: the existence check on the LXX file, the call to `load_bridging_data` whose result is discarded, and the two calls in order. Each function it calls is modelled on its own.
