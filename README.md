# DeckoDecko on-device bookmark store, in Dafny

DeckoDecko is a mobile app for bookmarking capsule-toy ("gacha") catalog
entries into user-named folders. Its one part with real logic is the store
on the device: three SQLite tables behind small repository classes, plus two
utilities next to them. This project models them and proves their contracts.

- `folders.dfy` (module `Folders`): the `folders` table, class `TbFolders`.
  - Seeds the default folder "기본 폴더" at sequence 1 into an empty table.
  - Supports create, list by `sequence`, lookup by id, rename and delete.
  - `updateSequence` rewrites `sequence` for a list of folders inside one transaction.
- `items.dfy` (module `Items`): the `items` table of bookmarks, class `TbItems`.
  - Enforces the `CHECK(type IN ('WISH','GET'))` constraint.
  - Enforces `UNIQUE gacha_id` until `migration` rebuilds the table without it.
  - Lookups return rows newest first.
  - A partial update writes only the columns named, plus `updated_at`.
  - `clear` empties the table.
- `images.dfy` (module `Images`): the `images` table, class `TbImages`.
  - Supports insert, newest-first reads and conditional delete.
  - A guarded migration renames the column `assetId` to `uri`.
- `changed_values.dfy` (module `ChangedValues`): `getChangedValues`, the diff of an edited object against the stored one.
  The bookmark sheet passes that diff to `TbItems.update`.
- `split_text.dfy` (module `TextLines`): `splitTextIntoLines`, a greedy word wrapper.
  A word longer than its character limit is cut into pieces of that length.
- `rows.dfy` (module `Rows`): what the SQL statements do to a sequence of rows.
  It covers WHERE, first row, ORDER BY with unspecified order among ties, and the largest id.

## How the store is modelled

- Each table is a class. Its fields are:
  - `connected`: false when the database could not be opened;
  - `rows`: the rows in rowid order;
  - `lastId`: SQLite's AUTOINCREMENT counter;
  - a schema tag where the table has more than one schema:
    - `TbItems.gachaUnique`;
    - `TbImages.tableExists` and `TbImages.columns`.
- Every method that changes a table has `modifies this`. It states the whole new state in terms of the old one, and keeps the invariant `Valid()`.
- `Valid()` says:
  - ids are distinct, and none is larger than the counter;
  - items satisfy the CHECK constraint, and also the UNIQUE constraint while it is in force;
  - every image row has exactly the table's text columns.
- A SQL error that the repository catches becomes a `false`, `[]` or `None` result, and the table is left unchanged.
- Reads are methods that change nothing. Their contracts relate the result to `rows`:
  - the result is a permutation of the matching rows;
  - it is sorted;
  - membership is stated in both directions.
- Timestamps are opaque integers passed in as `now`. A larger value is later.
- `UpdateSequence` takes a `fault` parameter. It is the index of the statement the driver fails on, if any; index `|list|` is the COMMIT. Its contract states all-or-nothing.
- `TbItems.Migration` takes a `reported` parameter. It stands for the driver's change count after the final `ALTER TABLE`, which is what that method returns.
- `splitTextIntoLines` has a per-word limit. The model takes it as a function `limitOf` from the word to a positive integer.
- `WrapText(text, limitOf, skipBlank)` specifies the wrapper:
  - `skipBlank` false gives the code as written, which `SplitTextIntoLines` is proved to compute;
  - `skipBlank` true gives the corrected flush described under Findings.
  - Every line property is proved for both.

Two points of the folder table's behaviour:
- `updateSequence` writes each listed folder's own `sequence` field; the folder's position in the list plays no part. `Folders.LastSequenceOfDistinct` states what that means for a list without repeated ids.
- `getAll` on folders orders by `sequence` with ties allowed, because nothing makes sequences unique. The model promises a non-decreasing order, not a strict one.

## Model

| member | source | states |
|---|---|---|
| Folders.TbFolders.constructor | services/table/folders.ts:9-38 | Opening an available database over stored rows seeds the default folder exactly when the table is empty; an unavailable one leaves the stored rows as they are. |
| Folders.TbFolders.Init | services/table/folders.ts:26-30 | The seed row ("기본 폴더", sequence 1, next id) is inserted only when connected and the table has no row, so a second run adds nothing. |
| Folders.TbFolders.Create | services/table/folders.ts:40-56 | True iff connected and a sequence is given (NOT NULL); then exactly one row with that name and sequence is appended under an id larger than every earlier id; names are not checked; otherwise nothing changes. |
| Folders.TbFolders.GetAll | services/table/folders.ts:58-68 | Every row exactly once (same multiset), in non-decreasing `sequence`; [] when not connected. |
| Folders.TbFolders.GetFolderById | services/table/folders.ts:70-80 | Some row with that id iff connected and one exists; None otherwise. |
| Folders.TbFolders.Update | services/table/folders.ts:82-93 | True iff connected and a row has the id; only that row's `name` changes, every other field and row is unchanged. |
| Folders.TbFolders.UpdateSequence | services/table/folders.ts:95-114 | One UPDATE per list element inside a transaction: true iff connected and no statement (COMMIT included) fails, and then the rows are the result of all the updates in list order; otherwise no row changes. |
| Folders.ResequencedAt | services/table/folders.ts:101-106 | After the updates, each row differs from before only in `sequence`, which is the sequence of the last list element naming its id, or its old one if none does. |
| Folders.LastSequenceOfDistinct | services/table/folders.ts:102-105 | With no id repeated in the list, each listed folder gets exactly the sequence its element carries, whatever its position. |
| Folders.LastSequenceOfUnlisted | services/table/folders.ts:101-106 | A folder no element names keeps its sequence. |
| Folders.ResequenceCurrentIsNoOp | services/table/folders.ts:100-107 | A list whose every element equals its stored row leaves the table unchanged; a list renumbered 1..n in list order is such a list only when the stored sequences already are 1..n in that order. |
| Folders.TbFolders.Delete | services/table/folders.ts:116-127 | True iff connected and a row had the id; exactly the rows with other ids remain, in order. |
| Items.TbItems.constructor | services/table/items.ts:16-42 | An available database without the table gets it empty under the initial schema (`UNIQUE gacha_id`, counter 0); an unavailable database or an existing table keeps the stored rows, counter and schema; `Valid()` holds. |
| Items.TbItems.Create | services/table/items.ts:44-56 | True iff connected, `type` is WISH or GET, and (under the UNIQUE schema) no row has the `gacha_id`; then one row with the given fields, `created_at = updated_at = now` and a fresh larger id is appended; otherwise nothing changes. |
| Items.TbItems.GetItemsByFolderId | services/table/items.ts:58-74 | Exactly the rows of that folder (same multiset as the WHERE filter, membership both ways), newest `created_at` first; [] when not connected. |
| Items.TbItems.GetItemsByGachaId | services/table/items.ts:76-92 | Exactly the rows of that catalog entry, newest first; [] when not connected. |
| Items.TbItems.GetItemByName | services/table/items.ts:94-110 | A row with that name iff connected and one exists, else None. |
| Items.TbItems.GetAll | services/table/items.ts:112-126 | Every row exactly once, newest first; [] when not connected. |
| Items.TbItems.Update | services/table/items.ts:128-157 | False with no change when not connected or the update object is empty; otherwise true iff a row has the id and the patched row meets the constraints, and then only that row changes, to the patched row. |
| Items.PatchedWritesOnlyItsColumns | services/table/items.ts:133-152 | The patched row's editable columns are the old ones overwritten by exactly the update's columns; id and `created_at` are kept and `updated_at` is the new time. |
| Items.AcceptedUpdate | services/table/items.ts:147-150 | When the row with the id may take the patched values, the table with that row patched meets every constraint and differs from the old table only in the rows that have the id. |
| Items.ReplacedKeepsWellFormed | services/table/items.ts:22-33 | Replacing a row by an admissible row with the same id keeps ids distinct, the CHECK and, while in force, the UNIQUE constraint. |
| Items.EditRoundTrip | components/BottomSheet/BookmarkSheet.tsx:85-95 | The diff of the edited fields against the stored row is a well-typed update, and applying it leaves the row holding the edited fields. |
| Items.TbItems.Clear | services/table/items.ts:159-171 | True iff connected and a row existed; all rows are removed; the counter is kept. |
| Items.TbItems.Migration | services/table/items.ts:173-207 | Every row is kept with identical id and values; the UNIQUE on `gacha_id` is dropped, so later creates may share one; the counter becomes the largest id present. |
| Images.TbImages.constructor | services/table/images.ts:18-35 | An available database gets an empty `images(uri)` table if it had none; an existing table is kept whatever its columns. |
| Images.TbImages.Create | services/table/images.ts:37-49 | True iff a row was inserted: connected, the table exists and has exactly the `uri` column; the row holds that uri and a fresh id. |
| Images.TbImages.GetAll | services/table/images.ts:51-66 | Every row exactly once, newest first; [] on error. |
| Images.TbImages.GetOne | services/table/images.ts:68-83 | A row with the largest `created_at` iff there is a row, else None. |
| Images.TbImages.Delete | services/table/images.ts:85-94 | Exactly the rows matching every given condition are removed; true iff at least one was; a `uri` condition on a table without `uri` fails with no change. |
| Images.TbImages.Migration | services/table/images.ts:96-137 | True iff connected. No change without the table, without `assetId`, or with `uri` already present. Otherwise every row keeps id and `created_at`, its `assetId` value moves to `uri`, `assetId` is gone, and the counter becomes the largest id. |
| Images.CopyKeepsWellFormed | services/table/images.ts:115-126 | The rebuilt table keeps ids distinct, none above the restarted counter, and each row holds exactly the `uri` column. |
| Images.MigrationSettles | services/table/images.ts:106-113 | After a rebuilding migration the guard fails, so a second run is a no-op. |
| ChangedValues.GetChangedValues | utils/getChangedValues.ts:7-22 | A key is in the result iff `updated` owns it and `original` lacks it or holds another value; each value is `updated`'s; overlaying the result on `original` agrees with `updated` on its keys. |
| ChangedValues.OverlayRoundTrip | utils/getChangedValues.ts:12-18 | Overlaying the changes onto `original` gives the same object as overlaying all of `updated`. |
| ChangedValues.NoChangesIffAgree | utils/getChangedValues.ts:12-21 | The result is empty iff `original` agrees with `updated` on every key of `updated`. |
| ChangedValues.ChangesSettle | utils/getChangedValues.ts:12-18 | Diffing again after applying the changes finds nothing. |
| TextLines.SplitTextIntoLines | utils/splitTextIntoLines.ts:8-60 | The loops compute `WrapText(text, limitOf, false)`, the fold of the per-word step over `split(/\s+/)`. |
| TextLines.Split | utils/splitTextIntoLines.ts:10 | At least one piece, none containing white space. |
| TextLines.SplitKeepsText | utils/splitTextIntoLines.ts:10 | The pieces, put together, hold exactly the text's characters other than white space. |
| TextLines.Chunks | utils/splitTextIntoLines.ts:32-36 | Every piece cut off a long word has exactly the limit's length. |
| TextLines.ChunksRebuild | utils/splitTextIntoLines.ts:32-38 | The cut pieces followed by the rest that starts the next line are the word. |
| TextLines.LinesFit | utils/splitTextIntoLines.ts:25-57 | No line is longer than the largest limit of the text's words (with one limit: than that limit). |
| TextLines.LinesTrimmed | utils/splitTextIntoLines.ts:28-56 | No line starts or ends with white space. |
| TextLines.WrapKeepsText | utils/splitTextIntoLines.ts:10-57 | Without white space, the concatenated lines equal the text without white space: nothing is dropped, duplicated or reordered. |
| TextLines.SmallWordsStayWhole | utils/splitTextIntoLines.ts:25-50 | The k-th word, if non-empty and no longer than its limit, appears whole in one line, at the point where exactly the non-white-space characters of the words before it precede it; with `WrapKeepsText` this is that word's own occurrence, not another copy. |
| TextLines.ExactFitGivesBlankLine | utils/splitTextIntoLines.ts:43-47 | As written, a lone word exactly as long as its limit yields `["", word]`. |
| TextLines.ExactFitCorrected | utils/splitTextIntoLines.ts:43-47 | With the corrected flush the same text yields `[word]`. |
| TextLines.SplitLeadingSpace | utils/splitTextIntoLines.ts:10 | Leading white space before a word splits into an empty first piece and the word. |
| TextLines.EmptyPieceThenExactFit | utils/splitTextIntoLines.ts:43-50 | The empty first piece is appended to the line as one space; a following word exactly as long as its limit then pushes that line. |
| TextLines.LeadingSpaceGivesBlankLine | utils/splitTextIntoLines.ts:43-47 | As written, a space followed by a word exactly as long as its limit yields `["", word]`. |
| TextLines.LeadingSpaceBeforeLongWord | utils/splitTextIntoLines.ts:25-28 | As written, a space followed by a word longer than its limit yields a first line that is empty, because the forced split tests the untrimmed line. |
| TextLines.NoBlankLines | utils/splitTextIntoLines.ts:27-28 | With the corrected flush no line is empty. |

## Findings

| source | as written | input that shows it | evidently intended | confidence | as-written member | corrected member |
|---|---|---|---|---|---|---|
| utils/splitTextIntoLines.ts:43-47 | When the word fits its limit but the current line plus the word and a space does not, `currentLine.trim()` is pushed even when it is empty. | The text "hello" with a limit of 5 gives `["", "hello"]`; the text " hello" with a limit of 5 also gives `["", "hello"]`. The returned array starts with an empty string. | Push only lines with content other than white space, as the final push (line 55) does. | medium; not executed | TextLines.ExactFitGivesBlankLine, TextLines.LeadingSpaceGivesBlankLine | TextLines.NoBlankLines |
| utils/splitTextIntoLines.ts:27-28 | Before a forced split, the current line is pushed when its untrimmed length is non-zero, so a line holding only a space is pushed as "". | The text " aaaaaaaaaa" with a limit of 5 gives `["", "aaaaa", "aaaaa"]`. | Test the trimmed line, as the final push (line 55) does. | medium; not executed | TextLines.LeadingSpaceBeforeLongWord | TextLines.NoBlankLines |

## Left out

- SQL text, `buildInsertQuery`/`buildSelectQuery`/`buildDeleteQuery` and `utils/sqlite` are not part of this model. Each statement is modelled by its effect on the rows.
- Asynchronous plumbing is left out. This covers the promise-valued `#dbInstance`, `await`, and the logging in `catch`. An unavailable database is the flag `connected`.
- The foreign key `ON DELETE CASCADE` from items to folders (services/table/items.ts:32) is left out. Whether SQLite enforces it depends on a connection pragma in code that is not part of this model. `Folders.TbFolders.Delete` touches only the `folders` table.
- `TbFolders.clear` (services/table/folders.ts:129-145) is left out. It is a development utility that drops the table and edits `SQLITE_SEQUENCE`.
- Images.TbImages.GetAll, Images.TbImages.GetOne: only the default options (ORDER BY `created_at` DESC) are modelled. Other sort and filter options go through `buildSelectQuery`, which is not part of this model.
- Images.TbImages.Delete: the delete options must name at least one condition. What `buildDeleteQuery` does with no condition is not visible. The model covers equality conditions on `id`, `uri` and `created_at`.
- Images: the model assumes every text column of an older schema is NOT NULL without a default, as `uri` is. That is why an insert of `uri` alone is accepted only when `uri` is the only text column.
- Items.TbItems.Migration: the boolean result is the parameter `reported`. A failure part-way through the migration's statements is not modelled. Those statements are not in a transaction, so no atomicity is claimed.
- Images.TbImages.Migration: a failure part-way through the rebuild is not modelled. The result is false only when the database is unavailable.
- The startup gate that runs `items.migration()` (app/_layout.tsx:34-41) is AsyncStorage I/O. It runs the migration whenever the stored flag is any non-empty string, "true" included, and never when the flag is missing.
- Items.TbItems.Update takes a well-typed update object. A JavaScript object with keys outside the editable columns, or with values of the wrong type, is an SQL or type error. `Object.keys` order does not affect the row.
- Timestamps: `CURRENT_TIMESTAMP` and `new Date().toDateString()` are opaque integers. The order among rows with equal `created_at` is not specified, and the model promises none.
- getChangedValues compares with `!==` and iterates with `for...in`. The model compares with value equality over a map of own keys, so inherited keys, `NaN` and object identity are not modelled.
- splitTextIntoLines computes the limit from the font size and box width in floating point (utils/splitTextIntoLines.ts:15-22). The model takes the resulting integer as `limitOf(word)`.
- TextLines.SplitTextIntoLines requires every limit to be at least 1. With a limit of 0 or below and a non-empty word, the loop at lines 33-36 never shortens `wordPart` and does not terminate.
- String lengths count characters. JavaScript counts UTF-16 code units, which differ for characters outside the Basic Multilingual Plane.
