# CodeSnap snippet manager — a Dafny model of its store and editing session

CodeSnap is a desktop snippet manager. All of its state lives in two places:

- the **snippet store** (`database_manager.py`): one SQLite table `snippets` with add, update, delete, get,
  list-all, list-favourites, search and toggle-favourite, plus the schema step of `initialize_db`;
- the **editing session** of the main window (`ui/main_window.py`): which snippet is open, the title, language,
  tags and code fields, the dirty flag with the `*` it puts on the window title, the favourites filter, and the
  save / discard / cancel guard in front of loading another snippet, starting a new one and closing the window.

The model keeps both and drops the widgets. The table is a sequence of rows in rowid order together with the
largest id ever assigned (what `AUTOINCREMENT` keeps in `sqlite_sequence`). Its invariant is part of the type
`Store.Table`: ids are positive and strictly increasing, no id is above that largest id, and `is_favorite` is 0 or 1.
Every slot of the window is a pure function from (session, table) to (session, table). The user's answer to a dialog
and the code formatter are parameters.

Modules, one per file:

| file | module | what it holds |
|---|---|---|
| `wrappers.dfy` | `Wrappers` | `Option`, `Result` |
| `text.dfy` | `Text` | Python whitespace, `str.strip()`, `endswith("*")` |
| `title_order.dfy` | `TitleOrder` | the order of `ORDER BY title` (code-point lexicographic) |
| `snippets.dfy` | `Snippets` | the row and the list-row (summary) records |
| `listing.dfy` | `Listing` | stable sort by title, filtering, and the lemmas that relate them |
| `sql_like.dfy` | `SqlLike` | SQLite `LIKE` with `%`, `_` and ASCII case folding |
| `store.dfy` | `Store` | the table and every function of the database module |
| `schema.dfy` | `Schema` | the column migration of `initialize_db` |
| `editor.dfy` | `Editor` | the session, `set_dirty`, the edit signals, the guard, save/load/new/delete/toggle/filter |
| `snippet_list.dfy` | `SnippetList` | the list projection: labels and re-selection |
| `prettify.dfy` | `Prettify` | the decision logic of `prettify_code` |

Behaviour of the code that the model shows rather than hides:

- Answering Save in the guard lets the navigation proceed even when the save is refused for a blank title
  (`Editor.GuardProceedsAfterRefusedSave`). Loading another snippet then drops the edits
  (`Editor.RefusedSaveThenLoadDropsEdits`).
- `add_snippet` returns nothing and `save_snippet` never adopts the new id. Saving a new snippet twice therefore inserts
  two rows (`Editor.SaveNewTwiceInsertsTwice`). See Findings.
- The line edits and the combo box pass their new text into `set_dirty(dirty=True)`, so clearing the title or the tags
  marks the session clean (`Editor.ClearingFieldSkipsGuard`). The combo box only ever holds non-empty entries, so a
  language change always marks the session dirty. See Findings.
- The search pattern is `%query%` with the query pasted in unescaped: `%` and `_` in a query act as wildcards
  (`SqlLike.UnderscoreQueryIsWildcard`). For wildcard-free queries the search is a case-insensitive substring test
  (`Store.SearchIsSubstringSearch`).
- The New button's `clicked(bool checked)` passes `False` into `new_snippet(check_save=True)`, so New skips the guard
  and drops unsaved edits (`Editor.NewButtonSkipsGuard`). See Findings.
- `load_snippet` passes the stored language to a non-editable combo box, which ignores a text it does not offer.
  `Editor.LoadSnippet` keeps the previous language in that case.

## Model

| member | source | states |
|---|---|---|
| `Text.Strip` | ui/main_window.py:286 | The result is the input minus its leading and trailing Python whitespace. It is empty exactly when the input is blank, and otherwise starts and ends with a non-space. |
| `TitleOrder.LeTotal` | database_manager.py:65 | Any two titles are comparable under the `ORDER BY title` collation. |
| `TitleOrder.LeTransitive` | database_manager.py:65 | The title order is transitive. |
| `TitleOrder.LeAntisymmetric` | database_manager.py:65 | Two titles that each sort at or before the other are equal. |
| `Listing.SortByTitle` | database_manager.py:65 | `ORDER BY title ASC` returns a permutation of its input (same multiset, same length) that is sorted by title. |
| `Listing.Filter` | database_manager.py:72 | A `WHERE` keeps exactly the entries satisfying the predicate, drops every other entry, and keeps a sorted list sorted. |
| `Listing.FilterMultiplicity` | database_manager.py:72 | Each entry satisfying the predicate is kept as often as it occurs in the input; every other entry occurs zero times. |
| `Listing.SortFilterCommute` | database_manager.py:63-74 | Filtering then sorting gives the same list, in the same order, as sorting then filtering. |
| `Listing.CountSort` | database_manager.py:65 | Sorting neither drops nor duplicates any id. |
| `SqlLike.LiteralThenPercent` | database_manager.py:110 | A wildcard-free text followed by `%` matches exactly the texts that start with it, ignoring ASCII case. |
| `SqlLike.LeadingPercent` | database_manager.py:110 | A leading `%` lets the rest of the pattern match any suffix of the text. |
| `SqlLike.SubstringSearch` | database_manager.py:110-112 | For a query without `%` or `_`, `LIKE '%q%'` holds exactly when `q` occurs in the text, ignoring ASCII case. |
| `SqlLike.EmptyQueryMatchesAll` | database_manager.py:110 | The empty query's pattern matches every text, the empty text included. |
| `SqlLike.UnderscoreQueryIsWildcard` | database_manager.py:110 | A query `_` matches every non-empty text, including `ab`, which contains no underscore. |
| `Store.GetSnippetById` | database_manager.py:76-80 | Returns a row exactly when some row carries the id, and then it is a stored row with that id. |
| `Store.AddSnippet` | database_manager.py:84-91 | Inserts one row with the given fields and `is_favorite = 0`. Its id is one above the largest id ever used, so above every present id and unused before. No other row changes. |
| `Store.FirstInsertGetsIdOne` | database_manager.py:22-24 | On a freshly created table the first insert gets id 1, and it is then the only row. |
| `Store.UpdateSnippet` | database_manager.py:93-100 | On a present id, overwrites exactly title, language, tags and code; `is_favorite` and all other rows are unchanged. On an absent id the table is unchanged. |
| `Store.DeleteSnippet` | database_manager.py:102-106 | The id is absent afterwards and every other row is unchanged. On an absent id the table is unchanged, with no error. |
| `Store.DeletedIdIsNeverReused` | database_manager.py:23 | After a deletion, the next insert gets an id above the deleted one. |
| `Store.ToggleFavoriteStatus` | database_manager.py:45-61 | Fails exactly when the row is missing. Otherwise it returns `1 - old` (again 0 or 1) and sets only that row's flag to it. |
| `Store.ToggleTwiceRestores` | database_manager.py:45-61 | A second toggle returns the original flag and gives back the original table. |
| `Store.GetAllSnippets` | database_manager.py:63-67 | The full list is sorted by title and is a permutation of the table's rows. |
| `Store.AllSnippetsExactlyOnce` | database_manager.py:63-67 | Every stored id appears exactly once and absent ids never. Each entry carries the stored columns of its row. |
| `Store.GetFavoriteSnippets` | database_manager.py:70-74 | The favourites list is sorted by title and holds exactly the rows with `is_favorite = 1`. |
| `Store.FavoritesAreFilteredAll` | database_manager.py:63-74 | The favourites list equals the full list with the non-favourites removed, in the same order. |
| `Store.SearchIsFilteredAll` | database_manager.py:108-122 | Any search result is the full list with the non-matching entries removed, in the same order. So it lists each stored id at most once and never an absent id. |
| `Store.SearchSnippets` | database_manager.py:108-122 | The search result is sorted by title and holds exactly the rows whose title, tags or language is `LIKE '%q%'`. With `favorites_only` it also requires `is_favorite = 1`. `Store.SearchIsFilteredAll` pins the exact list. |
| `Store.FavoriteSearchIsFilteredSearch` | database_manager.py:115-116 | The favourites-only search is the plain search with the non-favourites removed, in the same order. So it is a subset of it, and all its entries are favourites. |
| `Store.EmptySearchIsAll` | database_manager.py:108-122 | The empty query without the favourites restriction returns exactly the full list. |
| `Store.SearchIsSubstringSearch` | database_manager.py:108-122 | For a query without `%` or `_`, an entry is in the result exactly when it is in the full list and the query occurs, ignoring ASCII case, in its title, tags or language (and it is a favourite when asked). |
| `Schema.InitializeDb` | database_manager.py:21-37 | Afterwards `is_favorite` is present. The existing columns (or those of a freshly created table) are kept as a prefix, and one column is added exactly when `is_favorite` was missing. |
| `Schema.InitializeDbIdempotent` | database_manager.py:33-37 | Running the migration twice gives the same columns as running it once. |
| `Schema.CurrentSchemaUntouched` | database_manager.py:35 | A table that already has `is_favorite` is left as it is. |
| `Editor.SetDirty` | ui/main_window.py:169-176 | Sets the flag and changes nothing else but the window title. When dirty, one `*` is added exactly when the title does not already end with one. When clean, one trailing `*` is removed exactly when present. A title consistent with the flag stays consistent. |
| `Editor.InitialSessionWellFormed` | ui/main_window.py:20-26 | The constructor's session has the base window title, is clean, has nothing open and the filter off, so it satisfies the title invariant that every transition keeps. |
| `Editor.SetDirtyIdempotent` | ui/main_window.py:169-176 | Setting the same flag twice is the same as setting it once. |
| `Editor.SetDirtyRoundTrip` | ui/main_window.py:173-176 | Marking dirty and then clean restores a window title that had no trailing `*`. |
| `Editor.CleanOverrides` | ui/main_window.py:262-268 | A closing `set_dirty(False)` erases the effect of any earlier `set_dirty`. So the change signals fired while the editor is filled or cleared do not matter. |
| `Editor.EditAsWritten` | ui/main_window.py:102-105 | A user edit sets that field only. When the text really changes, the flag becomes true for the code editor and the text's truthiness for the other fields. |
| `Editor.Edit` | ui/main_window.py:102-105 | Corrected wiring: a user edit sets that field only and, when the text changes, always marks the session dirty. |
| `Editor.SaveSnippet` | ui/main_window.py:285-300 | A blank title writes nothing and leaves the session, dirty flag included, untouched. Otherwise it stores the stripped title and tags, the language and the code. With an open id that row is updated; without one a new row is inserted whose id is not adopted. The session then ends clean and nothing else in it changes. |
| `Editor.SaveSnippetAdopting` | ui/main_window.py:295-298 | Corrected save: the same writes as `save_snippet`, but an insert makes the new id the open one. |
| `Editor.SaveNewTwiceInsertsTwice` | ui/main_window.py:295-298 | As written, saving a new snippet twice inserts two identical rows, and no id is ever opened. |
| `Editor.SaveAdoptingTwiceInsertsOnce` | ui/main_window.py:295-298 | With the id adopted, the second save updates the first insert's row, and no second row is created. |
| `Editor.CheckForUnsavedChanges` | ui/main_window.py:178-199 | A clean session proceeds without consulting the user. A dirty one proceeds on Save (after running the save) and on Discard, and stops on Cancel. Stopping changes nothing. |
| `Editor.GuardProceedsAfterRefusedSave` | ui/main_window.py:193-195 | On Save with a blank title the guard proceeds although the save was refused. Nothing is written and the session stays dirty. |
| `Editor.ResetEditor` | ui/main_window.py:274-283 | No open id, empty title, tags and code, the first combo entry `python`, clean. The favourites filter is kept. |
| `Editor.NewSnippet` | ui/main_window.py:270-283 | When the guard stops, nothing changes. Otherwise the editor is reset. Only a Save answer to the guard writes to the table. |
| `Editor.LoadSnippet` | ui/main_window.py:241-268 | When the guard stops, nothing changes. Without a selected item the editor is reset without a second guard. Otherwise the item's id becomes the open one. When its row exists, the editor shows the row's title, tags, code and (if offered) language, and ends clean. |
| `Editor.RefusedSaveThenLoadDropsEdits` | ui/main_window.py:193-195 | Answering Save with a blank title while loading another snippet writes nothing and replaces the unsaved code with the loaded row's. |
| `Editor.DeleteSnippet` | ui/main_window.py:304-311 | Without an open id or without confirmation, nothing changes. Otherwise that row is gone, every other row is unchanged, and the editor is reset without the guard. The largest id ever assigned is kept, so the deleted id is not handed out again. |
| `Editor.ToggleFavorite` | ui/main_window.py:313-320 | Without an open id, nothing changes. Otherwise only the open row's flag flips, and the session (fields and dirty flag) is untouched. The action fails exactly when the row is missing. On success the largest id ever assigned is unchanged. |
| `Editor.ClearingFieldSkipsGuard` | ui/main_window.py:102-104 | As written, clearing a non-empty title or tags field leaves the session clean, so the guard proceeds without asking. |
| `Editor.EditMakesGuardAsk` | ui/main_window.py:178-199 | With the corrected wiring, any changed field makes the guard ask, and Cancel keeps the edit. |
| `Editor.NewButtonSkipsGuard` | ui/main_window.py:126 | As wired, New on a dirty session resets the editor whatever the user would answer. The table is untouched, so the unsaved code is lost. |
| `Editor.NewWithGuardKeepsEdits` | ui/main_window.py:270-272 | Called with `check_save=True`, New on a dirty session asks first: Cancel changes nothing, Discard writes nothing, and Save writes what `save_snippet` writes. |
| `SnippetList.OpenRowStaysSelected` | ui/main_window.py:205-223 | With the full list shown, an open id whose row still exists stays selected after a refresh. |
| `SnippetList.FavoritesAreStoredRows` | database_manager.py:70-74 | Each favourites entry is the summary of the stored row with its id, and is a favourite. |
| `SnippetList.FavoritesViewIsStarred` | ui/main_window.py:209-218 | With the filter on, every label starts with `★ `, and an open row that is not a favourite is not selected. |
| `SnippetList.RefreshSelection` | ui/main_window.py:205-223 | After a refresh the open id is selected exactly when its row still exists and, with the favourites filter on, is a favourite. Otherwise nothing is selected. |
| `SnippetList.RefreshListsStoredRows` | ui/main_window.py:209-218 | Every item of the refreshed list names a stored row (a favourite under the filter) and carries that row's label: `★ ` plus the title for a favourite, the bare title otherwise. With the filter off every stored row has an item. |
| `SnippetList.FilterFavoritesNarrowsList` | ui/main_window.py:322-331 | With the filter on, the list is the full list's items minus the non-favourites, in the same order; with it off, the full list. Turning the filter back restores the session. |
| `SnippetList.SearchViewListsMatches` | ui/main_window.py:225-239 | Every item of the search view names a stored row that matches the query (a favourite when asked) and carries its label, and every matching row has an item. For a query without `%` or `_`, every item's title, tags or language contains the query, ignoring ASCII case. |
| `Prettify.FormatterFor` | ui/main_window.py:344-370 | python goes to `black`, javascript to jsbeautifier's `beautify`, html to `beautify_html` and css to `beautify_css`, each exactly for that language. Every other language has no formatter. |
| `Prettify.PrettifyCode` | ui/main_window.py:333-385 | Blank code, a language without a formatter, a failed formatter, and an empty or identical output all leave the session unchanged. Otherwise the code becomes the output and the session is marked dirty. |
| `Prettify.PrettifyIsCodeEdit` | ui/main_window.py:372-376 | A successful prettify changes the session exactly as typing the formatted text into the code editor would. |

## Findings

| source | as written | input that shows it | evidently intended | confidence | as-written member | corrected member |
|---|---|---|---|---|---|---|
| ui/main_window.py:102-104 | `textChanged(str)` and `currentTextChanged(str)` are connected to `set_dirty(self, dirty=True)`, so the new text becomes `is_dirty` | edit the code (session dirty), then delete all text in the tags (or title) field: `is_dirty` becomes `""`, the guard proceeds without asking, and the code edit is lost | every edit marks the session dirty | medium (depends on PyQt passing the signal argument); not executed | `Editor.ClearingFieldSkipsGuard` | `Editor.EditMakesGuardAsk` |
| ui/main_window.py:126 | `new_button.clicked` is connected to `new_snippet(self, check_save=True)`, and `clicked(bool checked=False)` passes `False` into `check_save` | edit the code (session dirty), press New: the editor is cleared without the save / discard / cancel dialog and the edit is lost | New asks before discarding unsaved changes | medium (depends on PyQt passing the signal argument); not executed | `Editor.NewButtonSkipsGuard` | `Editor.NewWithGuardKeepsEdits` |
| ui/main_window.py:295-298 | an insert leaves `current_snippet_id` at None (`add_snippet` returns nothing) | type a title, Save, Save again: two identical rows | the new row's id becomes the open id, so the second save updates it | high; not executed | `Editor.SaveNewTwiceInsertsTwice` | `Editor.SaveAdoptingTwiceInsertsOnce` |

The guard, load and new transitions call the as-written `Editor.SaveSnippet`, because they describe the program as it
is. `Editor.SaveSnippetAdopting` and `Editor.Edit` are the corrected definitions, and each has its property proved.
`Editor.NewSnippet` takes `check_save` as a parameter, so the New button's wiring and the intended call are both
instances of it.

## Left out

- SQLite connection handling, the database directory, `row_factory`, `commit` and `close` (database_manager.py:6-13):
  I/O. The table is an abstract value.
- `created_at`: a wall-clock timestamp. `get_snippet_by_id` returns it with the other columns, but no caller uses it,
  and only the insert writes it.
- The rows of an older table that gain `is_favorite` through `ALTER TABLE ... DEFAULT 0`: the table model already
  carries the column, so `Schema.InitializeDb` tracks the column list only.
- Order among equal titles: SQL leaves it unspecified. The model's stable sort keeps rowid order.
- Non-ASCII case folding, `NULL` tags and the 64-bit limit of SQLite integer ids: texts are always present and ids
  are unbounded.
- The print statements of `initialize_db`, the status-bar messages and the warning and confirmation dialogs. The
  dialogs' answers are parameters (`Editor.Choice`, the `confirmed` flag of `Editor.DeleteSnippet`).
- Widget construction, layout, palettes, shortcuts, `QSettings` geometry and `closeEvent` (ui/main_window.py:28-166).
  Closing the window passes through `Editor.CheckForUnsavedChanges` the same way loading another snippet does.
- The list refresh at the end of save, delete, toggle and filter. Its projection is `SnippetList.RefreshSnippetList`,
  but the transitions do not replay the `currentItemChanged` signal that its re-selection fires. That signal re-enters
  `load_snippet`: after an update it reloads the saved row, and after a toggle or filter change in a dirty session it
  raises the guard dialog.
- `Editor.LoadSnippet`: the Save branch assumes the current item survives the save. `save_snippet` refreshes the list,
  and `clear()` deletes every item, including the one `load_snippet` goes on to read, so the source plausibly fails
  there instead of loading the row. On Cancel, re-selecting the previous item fires `currentItemChanged` back into
  `load_snippet` while the session is still dirty, so the dialog plausibly appears again. The model stops after one
  Cancel. Neither effect is modelled, because both depend on Qt's item ownership and signal re-entry.
- `Editor.ToggleFavorite`: states the slot's own effect. The session is untouched only up to the re-entrant load
  described above.
- The favourite button's visibility, checked state and glyph: display only.
- The formatters (`black` as a subprocess, jsbeautifier and its options) and the mapping of their exceptions to
  messages. The formatter is a function parameter, and every failure becomes `FormatterFailed`.
- `copy_code_to_clipboard` and `open_export_dialog` (clipboard and file I/O), `core/syntax_highlighter.py`,
  `core/image_generator.py`, `ui/image_dialog.py` and `main.py`: rendering, image I/O and startup glue.
