# Vocabulary store — a Dafny model

This project models the data layer of a small desktop vocabulary manager. The
`VocabularyDatabase` object (`db.py`) keeps two things side by side:

- an SQLite table `vocabulary(id INTEGER PRIMARY KEY AUTOINCREMENT, word, definition, note)`;
- an in-memory cache `word_data`, a dictionary from id to `{word, definition, note}`.

The model also covers the "Add" handler of the add-word window (`gui.py`,
`add_data_window.add_word_data`). This handler decides between inserting, inserting a
duplicate, and overwriting an existing entry, and then saves.

## How the model is built

- `vocab_db.dfy`, module `VocabDb`, models `db.py`.
  - The table is a value `Table(rows, nextId)`. `rows` holds the rows in insertion order. `nextId` is the AUTOINCREMENT counter: one more than the largest id ever handed out. A `DELETE` does not reset it, so an id is never reused.
  - The whole store is a value `Store(table, wordData, keyOrder)`. `keyOrder` is the iteration order of the Python dictionary. Python dictionaries keep insertion order, and `save_data` inserts rows in that order.
  - Each operation's success path has a pure specification function: `Inserted`, `SetItem` (Python's `d[k] = v`), `AddNew` and `Save`. The lemmas state their properties against the store invariant `Consistent`.
  - The class `VocabularyDatabase` has the fields `table`, `wordData` and `keyOrder`. Its methods update these fields step by step, as the source does: insert, take `lastrowid`, commit, then write the cache; or delete everything and re-insert in a loop. Each method's `ensures` ties the new `State()` to the matching specification function of the old state.
  - A failing SQL statement or commit is a boolean parameter (`fails`). On failure the transaction is rolled back, which restores the rows and the counter, and the error propagates (`ok == false`).
- `vocab_gui.dfy`, module `VocabGui`, models `add_word_data`.
  - The three text-field values, the Yes/No answer and the two store failures are parameters.
  - `Strip` models Python's `str.strip()`. It uses Python's whitespace set, not only ASCII spaces.

In the code, `save_data` re-inserts every cached entry as a new row, so each row gets a fresh id. It never re-keys `word_data`, so after any save no cache key is a table id (`SaveRekeysCache`). The handler's "update" branch is meant to ask the table for the word's id (`update_data`) and write `word_data[id]`. With that intended call, the drift shows up there as follows:

- Right after start-up, cache keys and table ids agree. The entry is overwritten in place (`UpdateAfterLoadOverwrites`).
- After any earlier save, the resolved id is not a cache key. The write adds a new entry next to the old one, and the next save stores the word twice (`UpdateAfterSaveAddsKey`, `UpdateAfterSaveDuplicates`).

As written, the handler calls `self.vocab_db.updata_data(word)` (gui.py:61), but the store defines only `update_data`. The "update" branch therefore raises `AttributeError` before it changes anything, and the duplicate above appears only once that call is corrected. The model makes the intended call to `update_data`.

On these points the model follows what the code does:

- `add_new_word` returns nothing.
- `update_data` with no matching row fails by indexing `None`. It has no `NotFound` error, so the model makes a match a precondition.
- The store has no closed-store guard.
- Bulk save is delete-all/re-insert-all, not an upsert by id.

## Model

| member | source | states |
|---|---|---|
| VocabDb.CreateTable | db.py:14-25 | `CREATE TABLE IF NOT EXISTS`: an existing table is kept unchanged (so opening twice is harmless); a missing one starts empty; either way the table is well formed |
| VocabDb.LoadWordData | db.py:27-36 | the loop over `SELECT *`: every row's id is a cache key holding that row's word/definition/note, there is no other key, and keys are in row order |
| VocabDb.VocabularyDatabase.constructor | db.py:5-9 | construction creates the table if needed and loads every row into the cache; the store invariant holds |
| VocabDb.Loaded | db.py:28-35 | the store right after construction: the table as stored, the key order is the row ids in row order, and each row's id holds that row's entry |
| VocabDb.LoadedConsistent | db.py:28-36 | after loading, the cache has exactly one key per table row (`\|cache\| == \|rows\|`), each holding that row's entry, and the store invariant holds |
| VocabDb.FirstMatch | db.py:38-41 | `WHERE word = ?` then `fetchone()`: the index of the first row whose word equals the text exactly, or none when no row matches |
| VocabDb.VocabularyDatabase.CheckWordExists | db.py:38-41 | true iff some row's word equals the given text exactly (case-sensitive, untrimmed); reads the table and changes nothing |
| VocabDb.ResolveId | db.py:67-71 | the id of the first row, in table order, whose word matches; requires a match |
| VocabDb.ResolveIdIsLowest | db.py:67-71 | on a well-formed table that first match is also the matching row with the lowest id, and the id has been issued by the counter |
| VocabDb.VocabularyDatabase.UpdateData | db.py:67-71 | returns the id of a row whose word equals the text, and no earlier row in table order matches; requires a match, because `result[0]` on `None` fails |
| VocabDb.Inserted | db.py:46-48 | `INSERT` with AUTOINCREMENT: one row is appended under the counter's current value, earlier rows are unchanged, the counter advances, and a well-formed table stays well formed |
| VocabDb.SetItem | db.py:50 | Python's `word_data[k] = v`: the table is untouched; the key set gains `k`, which holds the new entry; every other slot is unchanged; an existing key keeps the key order's length, a new key makes it one longer, and the old order is kept as a prefix |
| VocabDb.AddNew | db.py:46-50 | a successful `add_new_word`: one row under the counter's value is appended and the counter advances, keeping the table well formed; the cache gains that id holding the triple, and every other slot is unchanged |
| VocabDb.VocabularyDatabase.AddNewWord | db.py:43-53 | on success the table and the cache both reflect the insert; on a failed insert or commit the table (and counter) is rolled back, the cache is untouched and the error propagates |
| VocabDb.AddNewFresh | db.py:46-50 | an insert appends exactly one row whose id lies above every existing row id and every cache key; the cache gains that id with the inserted triple, and every other key and value is unchanged |
| VocabDb.SetItemConsistent | db.py:50 | writing a cache slot for an issued id keeps the invariant; an existing key keeps its place and the cache its size, a new key is appended; no other slot changes |
| VocabDb.ReloadSeesInsert | db.py:46-49 | write-through: a store constructed afresh over the table after a successful insert loads the inserted entry under the new id |
| VocabDb.Save | db.py:58-61 | a successful `save_data`: the cache and its order are unchanged; the table has one row per key, and its entries, in order, are the cache's values in key order; the counter advances by that many, and a well-formed table stays well formed |
| VocabDb.VocabularyDatabase.SaveData | db.py:55-65 | on success the table is the delete-all/re-insert-all result of the current cache and the cache is unchanged; on failure the rollback leaves the table exactly as before |
| VocabDb.SaveWritesCache | db.py:58-61 | after a save the table holds one row per cache key, in the cache's order, with that key's entry; the cache is unchanged and the invariant holds |
| VocabDb.SaveReplacesFully | db.py:58-61 | after a save, every entry occurs in the table exactly as many times as cache keys hold it (multiset equality of table and cache) |
| VocabDb.SaveDropsOldRows | db.py:58-61 | no earlier row survives a save: every re-inserted id is above every previous row id and at least the old counter; the counter never decreases |
| VocabDb.SaveRekeysCache | db.py:58-61 | after a save no cache key is the id of any table row: table ids and cache keys drift apart |
| VocabGui.LStrip | gui.py:48 | leading whitespace removal: the result is a suffix, everything dropped is whitespace, and the result does not start with whitespace |
| VocabGui.RStrip | gui.py:48 | trailing whitespace removal: the result is a prefix, everything dropped is whitespace, and the result does not end with whitespace |
| VocabGui.Strip | gui.py:48 | `str.strip()`: the word splits into a whitespace prefix, the result and a whitespace suffix, and the result neither starts nor ends with whitespace |
| VocabGui.StripBlankIff | gui.py:48-50 | `word.strip()` is empty exactly when every character of the word is whitespace, the empty word included |
| VocabGui.AddWordData | gui.py:43-69 | blank word: rejected with no change. Absent word, or present and the user says No: inserted. Present and the user says Yes: the cache slot of the resolved id gets the new triple. Then exactly one save, unless the insert raised. Definition and note are not validated |
| VocabGui.UpdateAfterLoadOverwrites | gui.py:60-62 | with cache keys equal to table ids (right after start-up), "update" overwrites an existing cache entry in place and the next save writes as many rows as before |
| VocabGui.UpdateAfterSaveAddsKey | gui.py:60-62 | after any save, "update" resolves an id that is not a cache key: the entry the user meant to update stays as it was and a new key is appended |
| VocabGui.UpdateAfterSaveDuplicates | gui.py:60-69 | after any save, "update" followed by the handler's save leaves the table one row larger, with the word in two rows |

## Left out

- The SQLite connection, cursors and SQL text (db.py:11-12, db.py:73-75, `close`). These are handled by a foreign library. The table and its AUTOINCREMENT counter are modelled as values, so `close` has nothing to model, and the model adds no closed-store behaviour of its own.
- Errors raised while reading: opening the connection, `CREATE TABLE` and the `SELECT` at construction (db.py:8-9, db.py:14-36), and the `SELECT` queries of `check_word_exists` and `update_data` (db.py:38-41, db.py:67-71). These reads are modelled as always succeeding. Only the two write paths, `add_new_word` and `save_data`, have a failure flag.
- Which statement fails: each write operation has one failure flag. It covers an error from any of its statements or from the commit, and every such error leads to the same rollback. Errors other than `sqlite3.Error` are not modelled.
- SQLite's 64-bit rowid limit: ids are unbounded integers, so the error SQLite raises once the AUTOINCREMENT counter reaches the maximum rowid is not modelled.
- The window plumbing of the handler: the message box, the dialog, closing the window and refreshing the list (gui.py:49, gui.py:55-58, gui.py:71-72). The dialog's answer is a parameter. All other widgets, layout, column sizing, list rendering, `on_close` and `main` in gui.py are user interface and are not modelled.
- VocabGui.AddWordData: models the intended call to `update_data`. It does not model the `AttributeError` that the misspelt `updata_data` raises at gui.py:61.
