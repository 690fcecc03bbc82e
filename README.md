# Image rater ratings ledger, modelled in Dafny

This is a model of the bookkeeping core of a single-user image-rating tool. The tool keeps a
ratings table (`image_ratings.csv`) with one record per image file: `image_path`,
`image_uuid`, `done` and `rating`. Around the table sits some per-session state: the
row on screen (`current_index`), an undo stack of rated rows (`history`) and the
`all_rated` flag. The model covers all of the following:

- reconciling the table with a folder scan (build a fresh table, or append rows for new paths);
- rating the row on screen and undoing the last rating;
- the first-unrated lookup, the skip rule and the bulk reset;
- importing an edited copy of the table, merged conservatively by identifier.

Modules:

- `Wrappers` (`wrappers.dfy`): `Option`. A missing rating (NaN in the table) is `None`.
- `Ledger` (`ledger.dfy`): the `Record` datatype. It has the reconciliation functions, the
  loop that builds new rows, the navigation lookups (`UnratedIndices`, `FirstUnrated`,
  `SkipTarget`) and the row updates (`Marked`, `Unmarked`, `Cleared`), with lemmas about each.
- `Merge` (`merge.dfy`): the import merge. `Merged` is its specification, a fold of
  `MergeRow` over the imported rows. `MergeRatings` is the loop, proved equal to `Merged`.
  Lemmas state what the merge keeps, adds and leaves alone.
- `RatingApp` (`session.dfy`): class `Session`, which holds the session state. Its fields
  are `rows`, `history`, `currentIndex`, `allRated` and `initialized`. Each button handler is one method.
  Rating, undo, skip, reset, import and rescan change the fields in place. Each method
  states the whole new state in terms of the `Ledger`/`Merge` functions and keeps
  `Valid()`, which says that the current index and every history entry name a row.
  Four client methods sit beside the class: the rate-then-undo round trip, a two-image
  scenario, and the two halves of the finding described under "Findings".

Row positions in the sequence stand for the table's positional labels. Every
concatenation renumbers rows (`ignore_index=True`), so the labels are always `0..n-1`.

The environment becomes parameters:

- the scanned path list (already normalised) is `scan`;
- the identifiers that the generator would return are `uuids`. The generator mixes in a
  random namespace on each call. The k-th row created in one initialization gets `uuids[k]`;
- `os.path.exists` is the set `onDisk`;
- the ratings file as found at start-up is `stored` (`None` when it does not exist).
  Every change writes the table out, so the corrected rescan (`RescanChecked`) reads back
  the session's own `rows`.

The source behaviour that the model keeps, including its quirks:

- Initialization runs only on a request where the `initialized` key is absent, which is
  the first request of a session. The rescan button stores `False` under that key, but the
  key stays present, so the rescan changes nothing (see "Findings").
- An empty scan resets `current_index` to 0 and halts; nothing else changes.
- Appending rows to a stored table is followed by an immediate rerun. The rerun skips the
  unrated-image check: `current_index` stays 0 and `all_rated` is left as it was. Every
  other path to the end of initialization runs the check. In the program as written this
  append can happen only on the first request, where `all_rated` has no value yet.
- `save_rating` changes `current_index` only when an unrated row remains. Otherwise it
  sets `all_rated`.
- The unreadable-image path calls `SaveRating(None)`. This gives `done = true` with no rating.
- The merge copies the imported `done` verbatim whenever the imported rating is present.
- The merge matches each imported row against the table as built so far, so earlier
  appended rows count.
- So `done` being equivalent to "rating present" is NOT an invariant of the model.
- An imported row whose identifier is unknown is appended when its file exists, even when
  the table already has a row for that path. So unique paths are NOT an invariant either.

Where the system's design intent and its code differ, the model follows the code.
By design `done` holds exactly when a rating is present, and the code breaks this in the
two places above. By design a rescan picks up images added to the folder, and the code
does not rescan at all (see "Findings").

## Model

| member | source | states |
|---|---|---|
| `Ledger.NewPaths` | main.py:75-76 | a path is new exactly when it was scanned and the table does not hold it; never more new paths than scanned ones |
| `Ledger.NewPathsAppend` | main.py:76 | the new-path filter keeps scan order: filtering a concatenation is concatenating the filtered parts |
| `Ledger.NewPathsAllKnown` | main.py:75-78 | when every scanned path is already in the table, no new path is found |
| `Ledger.NewPathsNoDuplicates` | main.py:76 | a scan without repeated paths yields new paths without repeats |
| `Ledger.FreshRecords` | main.py:80-87 | one record per given path, in order: the k-th record has the k-th path and the k-th fresh identifier, is not done and unrated; the table's path set is exactly the given paths |
| `Ledger.Reconcile` | main.py:71-109 | a stored table survives as the prefix of the result; the result's path set is the stored paths together with the scanned ones |
| `Ledger.NewRecords` | main.py:80-87 | the loop yields, for the k-th new path, one record with that path, the k-th fresh identifier, `done = false`, no rating |
| `Ledger.ReconcileFresh` | main.py:100-109 | with no ratings file, the table has exactly one row per scanned path, in scan order, each not done and unrated |
| `Ledger.ReconcileExisting` | main.py:71-98 | with a ratings file, the stored rows stay unchanged and in place; after them comes one unrated row per scanned path not yet present, in scan order, and none for present ones |
| `Ledger.ReconcileCovers` | main.py:71-109 | after initialization every scanned path has a row |
| `Ledger.ReconcileUniquePaths` | main.py:71-109 | paths stay unique when the stored table has unique paths and the scan lists each file once |
| `Ledger.ReconcileIdempotent` | main.py:75-98 | reconciling the result again against the same scan appends nothing and returns the same table |
| `Ledger.ReconcileNonEmpty` | main.py:65-109 | a non-empty scan always yields a non-empty table |
| `Ledger.UnratedIndices` | main.py:131 | the unrated positions: increasing, each naming an unrated row, and containing every unrated row |
| `Ledger.FirstUnrated` | main.py:131-137 | None exactly when every row is done; otherwise the lowest position whose row is not done |
| `Ledger.Without` | main.py:335 | the filtered list holds exactly the other positions, stays increasing and loses at most one element |
| `Ledger.SkipTarget` | main.py:332-338 | a target exists exactly when at least two rows are unrated; it is then the lowest unrated position other than the current one |
| `Ledger.Marked` | main.py:121-122 | row i becomes done with the given rating and keeps its path and identifier; every other row and the length are unchanged |
| `Ledger.Unmarked` | main.py:146-147 | row i becomes not done with no rating and keeps its path and identifier; every other row and the length are unchanged |
| `Ledger.Cleared` | main.py:251-252 | every row becomes not done with no rating and keeps its path and identifier; the length is unchanged |
| `Ledger.UnmarkUndoesMark` | main.py:120-147 | clearing a row after marking it gives the same table as clearing it directly; a row that was unrated is restored exactly |
| `Ledger.ClearedRestarts` | main.py:251-256 | after the reset the first unrated row is row 0, and there is none only for an empty table |
| `Merge.FindUuid` | main.py:180-184 | None exactly when no row has the identifier; otherwise the first row that has it |
| `Merge.MergeRow` | main.py:180-194 | a matched row changes only at the first match, only when the imported rating is present, and only in `done`/`rating`; an unmatched row is appended as is exactly when its path exists; nothing else changes |
| `Merge.Merged` | main.py:173-196 | the merged table is at most the current table plus one row per imported row |
| `Merge.MergeRatings` | main.py:173-196 | the merge loop computes `Merged` of the current table and the imported rows |
| `Merge.MergedKeepsBase` | main.py:176-196 | the merge never removes or reorders a row of the current table; its length never shrinks; paths and identifiers of existing rows are unchanged |
| `Merge.MergedAppendsFromImport` | main.py:190-194 | every appended row has an existing path and the path and identifier of some imported row |
| `Merge.MergedUntouched` | main.py:179-189 | a row whose identifier no imported row carries comes out unchanged |
| `Merge.MergeCanRepeatPath` | main.py:190-194 | a table with unique paths can, after a merge, hold two rows for the same path, when the imported row has an unknown identifier and an existing path |
| `Merge.MergeOwnPrefix` | main.py:179-189 | merging any prefix of the table's own rows, when identifiers are unique, leaves the table unchanged |
| `Merge.MergeOwnExport` | main.py:173-196 | importing an unmodified export of a table with unique identifiers changes nothing |
| `RatingApp.Session.Start` | main.py:16-22 | the first request initializes the table from a non-empty scan with an empty history; it ends on the first unrated row unless rows were appended to a stored table, where it is on row 0 and not all-rated |
| `RatingApp.Session.Initialize` | main.py:56-115 | sets the initialized flag; an empty scan only resets the position; otherwise the table becomes the reconciled one; the unrated-image check runs except after appending to a stored table, where the position is 0 and the flag is kept |
| `RatingApp.Session.Rescan` | main.py:235-237 | the rescan button only stores false under the initialized key; the key stays present (main.py:17), so the table, history, position and all-rated flag are unchanged |
| `RatingApp.Session.RescanChecked` | main.py:56-115 | corrected rescan: initialization against the session's own table, then the unrated-image check; the old rows stay as a prefix, every scanned path has a row, the history is kept, and the session is on the lowest unrated row, or all-rated (at position 0) exactly when every row is done |
| `RatingApp.Session.CheckUnrated` | main.py:160-171 | all-rated is set exactly when every row is done; otherwise the position is the first unrated row |
| `RatingApp.Session.SaveRating` | main.py:117-137 | the row on screen becomes done with the given rating, its index is pushed on the history, other rows are unchanged; the position moves to the first unrated row, or all-rated is set |
| `RatingApp.Session.GoBack` | main.py:139-158 | with a non-empty history: pop index i, clear row i, show row i, leave all-rated; with an empty history nothing changes |
| `RatingApp.Session.Skip` | main.py:329-338 | moves to the skip target when there is one; otherwise stays; nothing else changes |
| `RatingApp.Session.Reset` | main.py:250-256 | every row is cleared, the history is emptied, the position is 0 and all-rated is false (for a non-empty table) |
| `RatingApp.Session.Import` | main.py:216-232 | a well-formed import replaces the table by the merge; a malformed or unreadable one leaves it unchanged |
| `RatingApp.RateThenGoBack` | main.py:117-156 | rating and then going back restores the history and the position and leaves the rated row unrated |
| `RatingApp.TwoImageSession` | main.py:100-156 | two images, no ratings file: both rows start unrated at row 0; rating the first moves to the second; undo returns to the first, now unrated |
| `RatingApp.RescanAddsNoRow` | main.py:235-237 | a concrete session whose folder gains `data/b.jpg`: after the rescan button that path still has no row |
| `RatingApp.RescanCheckedAddsRow` | main.py:56-115 | the same folder under the corrected rescan: `data/b.jpg` gets a row |

## Left out

- The Streamlit interface is not modelled: layout, buttons, messages, progress bar and image display. Each button is a method call; `st.stop`/`st.rerun` is a return.
- Reading and writing CSV files, and the timestamped export, are not modelled (I/O). Persistence is taken as "the stored table equals `rows`".
- Folder scanning with `glob` and `os.path.normpath` is not modelled (a foreign call). The normalised path list is an input.
- Identifier generation is not modelled (`os.stat`, hashing, a random namespace). Fresh identifiers are an input sequence, and no stability of identifiers is claimed.
- Image loading and resizing are not modelled. The floating-point aspect ratio and progress fraction are left out too.
- The required-column check and the exceptions while reading an import are not modelled separately. Both appear as `imported == None`, and the table is then unchanged.
- `build.py` is not part of this model (packaging glue).
- Ratings are integers or missing. An imported file with other values (fractions, non-boolean `done`, missing identifiers) is not modelled.
- RatingApp.Session.Start: requires a non-empty first scan. With an empty one the source halts before any table exists, and every later request fails reading the table (main.py:65-67, 242).
- RatingApp.Session.Start: when rows are appended to a stored table on the very first request, the source never sets `all_rated`, and reading it then fails. The model starts the flag at false instead.
- RatingApp.Session.Initialize: requires the stored table to be the session's own table whenever the history is non-empty. An externally replaced or deleted ratings file with a non-empty history can leave history entries pointing past the table, and that case is not modelled.
- RatingApp.Session.SaveRating: requires the row on screen to exist. A session halted by an empty first scan has no table to rate.
- Ledger.SkipTarget: the source's inner `if next_indices` test always holds once two rows are unrated. The model omits that dead branch.

## Findings

| source | as written | input that shows it | evidently intended | confidence | as-written member | corrected member |
|---|---|---|---|---|---|---|
| main.py:235-237 | the rescan button stores `False` under `initialized`, but initialization runs only when that key is absent (main.py:17), so the rerun never rescans | start with `data/a.jpg`, add `data/b.jpg` to the folder, press rescan: `data/b.jpg` gets no row | rerun initialization against the session's own table, so new images get rows | high, not executed | `RatingApp.Session.Rescan` (exhibited by `RatingApp.RescanAddsNoRow`) | `RatingApp.Session.RescanChecked` (exhibited by `RatingApp.RescanCheckedAddsRow`) |

Once the rescan does run initialization, a second defect appears. After appending rows,
`st.rerun()` at main.py:96 comes before the unrated-image check at line 115. So a session
that was all-rated would stay all-rated while the new rows are unrated. `RescanChecked`
corrects both: it runs initialization and then the unrated-image check, and the intended
navigation property is proved about it. The rest of the model follows the code as written.
