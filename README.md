# Activity catalog search and download list — a Dafny model

This project models the sequential core of `canvas.py`, the widget module of a
small desktop tool that browses, searches and installs activities (installable
packages) from a catalog:

- **Row formatting** (`_gen_activity`): a catalog record becomes a four-column
  row (icon, bold name, six labelled details lines, status text).
- **Search** (class `List`): a query is lower-cased, the rows of earlier passes
  are removed through the module-level `ITERS` list of row handles, and the
  catalog is scanned in order. Every record whose field [1] or [2], lower-cased,
  contains the query is rendered and inserted into the list store at the cursor
  `current`, which then moves on. The scan stops while `stopped` is set, and
  nothing ever clears `stopped`.
- **Download list** (class `DownloadList`): one row per download; a single
  integer progress value drives the row's status text and bar through four
  overlapping checks.

Three modules, one per concern:

- `catalog.dfy`, module `Catalog`: pure functions. It holds the record type
  `Entry` (field k is index k of the source record), the ASCII `Lower`, the
  substring test `Contains` proved against its definition `IsSubstring`, and
  the filter `Select` with its order and membership lemmas. It also holds
  `GenActivity` and the round trip of its details text through `Split`.
- `search.dfy`, module `Search`: the list store is a sequence of rows tagged
  with their handles. `InsertAt` is the store's `insert`. `Without` is the
  removal of a list of handles. Class `List` has the fields `rows`, `iters`
  (the module-level `ITERS` list, made a field of the one `List` object the
  module builds at `canvas.py:76`), `current`, `stopped`, `canSearch`, `w` and `catalog`.
  Its methods `Up`, `Down`, `StopSearch`, `AddActivity`, `SearchPass`
  (`_search`, split into the removal loop `RemoveListed`, the scan loop
  `ScanCatalog` and its step `ScanOne`) and `Search` (`search`) each state
  their new state. A few client
  methods at the end state what a caller sees.
- `downloads.dfy`, module `Downloads`: class `DownloadList` with
  `AddDownload` and `SetDownloadProgress`. The latter is written as the
  source's sequence of overwriting checks and proved equal to `Progressed`, a
  table of disjoint progress ranges. `Replay` folds a sequence of callbacks.

Three behaviours of the code are easy to misread. The model keeps them as
written:

- The filter reads record fields [1] and [2] (`canvas.py:199-200`). Row
  formatting reads [1] as the status, [2] as the name and [3] as the
  description (`canvas.py:47`, `canvas.py:56-58`). So the search looks at the
  status flag and the name, not the name and the description.
  `StatusFieldIsSearched` and `DescriptionIsNotSearched` state the
  consequences.
- Progress 0 does not set "Starting download...". It leaves the status text
  alone (`canvas.py:238`), and only `add_download` writes that text. Negative
  progress also keeps the text and writes the negative value to the bar.
- Out-of-order progress values are not guarded against. `OutOfOrderRegresses`
  shows a 90 after a 150 moving the row back to "Downloading...".

## Model

| member | source | states |
|---|---|---|
| Catalog.Lower | canvas.py:182 | lower-casing keeps the length and folds each character on its own: an ASCII capital becomes its small letter (code plus 32), every other character is kept, so no upper-case letter is left |
| Catalog.LowerIdempotent | canvas.py:182 | lower-casing is idempotent: a lower-cased string is left unchanged by `lower()` |
| Catalog.Contains | canvas.py:201 | `w in s` holds exactly when `w` occurs in `s` at some position |
| Catalog.Select | canvas.py:195-203 | a record is kept if and only if it is in the catalog and field [1] or [2], lower-cased, contains the query; no more records than the catalog holds |
| Catalog.SelectAppend | canvas.py:195-203 | filtering keeps catalog order: the filter of a concatenation is the concatenation of the filters |
| Catalog.EmptyQuerySelectsAll | canvas.py:201 | the empty query keeps the whole catalog, in order |
| Catalog.StatusFieldIsSearched | canvas.py:199-201 | an experimental record (field [1] is "E") matches the query "e" whatever its name |
| Catalog.DescriptionIsNotSearched | canvas.py:199-201 | for every record and query, whatever field [3] holds: the record is selected exactly when field [1] or [2], lower-cased, holds the query; so a query in neither selects nothing, and one in field [2] selects the record |
| Catalog.DescriptionScenario | canvas.py:199-201 | in a two-record catalog "paint"/"music", the query "pa" selects "paint", while "play", found only in the description "play sound", selects nothing |
| Catalog.GenActivity | canvas.py:44-64 | the row carries the icon handle, the name wrapped in `<b>…</b>`, and the status "Experimental" exactly when field [1] is "E", otherwise "Public" |
| Catalog.DetailsRoundTrip | canvas.py:47-53 | the details text splits at line breaks back into the six `<b>Label: </b>value` lines, when no field holds a line break |
| Search.InsertAt | canvas.py:169 | inserting puts the row at the requested position, or at the end when that position is past the end or negative; deleting it there gives back the old store |
| Search.Without | canvas.py:193-194 | after removing a list of handles, a row is left exactly when it was there and its handle is not in the list |
| Search.WithoutListed | canvas.py:193-194 | removing every handle the rows carry empties the store |
| Search.WithoutOneMore | canvas.py:193-194 | removing handles one at a time equals removing the whole list at once |
| Search.PlacedInOrder | canvas.py:169-171 | from a cursor that is not negative, inserting rows at consecutive cursor positions into an emptied store appends them in order |
| Search.List.constructor | canvas.py:141-155 | a new list has an empty store, cursor 0, `stopped` false and `can_search` true |
| Search.List.Up | canvas.py:159-160 | the cursor moves on by one |
| Search.List.Down | canvas.py:162-163 | the cursor moves back by one |
| Search.List.StopSearch | canvas.py:165-166 | `stopped` is set |
| Search.List.AddActivity | canvas.py:168-171 | the row is inserted at the cursor under a new handle, exactly that handle is appended to `ITERS`, and the cursor moves on by one |
| Search.List.RemoveListed | canvas.py:193-194 | removing every handle in `ITERS` leaves the store empty |
| Search.List.ScanOne | canvas.py:198-203 | one scan step keeps the store equal to the rendered matches of the records scanned so far, placed from the starting cursor |
| Search.List.ScanCatalog | canvas.py:195-203 | the scan loop, from a cursor with nothing scanned yet: with `stopped` clear every record has been scanned, with `stopped` set none; the list stays consistent and `ITERS` only grows |
| Search.List.SearchPass | canvas.py:190-204 | with `stopped` clear, the store shows exactly the rendered matches in catalog order, placed from the old cursor, and the cursor has moved on by their number; with `stopped` set, the store is empty and the cursor unchanged; `can_search` is true afterwards and `ITERS` only grows |
| Search.List.Search | canvas.py:178-188 | with `can_search` true the query is lower-cased and a pass runs to completion; otherwise `stopped` is set and nothing else changes |
| Search.FirstSearch | canvas.py:178-204 | a first search on a new list shows exactly the matching records, rendered, in catalog order |
| Search.SearchTwice | canvas.py:178-204 | a second search shows only the second query's matches, although the cursor keeps counting across passes |
| Search.SearchAfterStop | canvas.py:165-166 | after a stop every later search shows nothing and leaves the cursor where it was |
| Downloads.Progressed | canvas.py:234-246 | up to 100 the bar takes the value; 101 to 149 keep the bar; from 150 the bar is 100; up to 0 the status text is kept; 1 to 149 show "Downloading..."; from 150 "Installing...", except 200, which shows "Installed!" |
| Downloads.StateAfter | canvas.py:238-246 | after a positive value the phase shown depends on the value alone |
| Downloads.LastValueWins | canvas.py:234-246 | a positive value outside 101 to 149 overwrites the row completely, whatever value came before |
| Downloads.ReplayLast | canvas.py:234-246 | each callback acts on the row the earlier callbacks left |
| Downloads.EndsInstalled | canvas.py:245-246 | whatever came before, a final 200 leaves the row "Installed!" with a full bar |
| Downloads.OutOfOrderRegresses | canvas.py:235-243 | a 90 after a 150 moves the row back to "Downloading..." with bar 90 |
| Downloads.DownloadList.constructor | canvas.py:212 | a new download list is empty |
| Downloads.DownloadList.AddDownload | canvas.py:230-232 | exactly one row `(name, "Starting download...", 0)` is appended and its handle, distinct from every earlier one, is returned |
| Downloads.DownloadList.SetDownloadProgress | canvas.py:234-246 | the addressed row becomes `Progressed` of its old value and every other row is unchanged |
| Downloads.CompleteDownload | canvas.py:230-246 | a download reported at 0, 50, 150 and 200 shows Starting, Downloading, Installing and Installed, with bars 0, 50, 100 and 100 |

## Left out

- Widget construction and layout are not modelled: `Canvas`, the columns and
  renderers of `List.__init__` and `DownloadList.__init__`, and
  `switch_to_list`/`switch_to_downloads_list`. They hold no logic.
- The worker thread and the `gobject.idle_add` retry in `search` are not
  modelled. A pass runs synchronously to completion, so `can_search` is only
  false inside `Search`. The retry that `search` schedules after asking a
  running pass to stop is not modelled.
- `List.clear`, which removes the tree view's child widgets, is not modelled.
- A stale handle left in `ITERS` from an earlier pass is assumed to remove
  nothing when removed again. The toolkit's behaviour for such a handle is not
  part of this model.
- The store's `insert` is assumed to append when the position is past the end
  or negative. This matters because `current` is never reset between passes.
- `utils.get_store_list` is not part of this model; the catalog is a
  constructor parameter. The logger, the gconf colour lookup, `style.zoom`
  and `CellRendererIcon` are left out too.
- The gettext `_()` translation is taken as the identity on its literals.
- Records are modelled as ten string fields. A record with fewer than three
  fields raises at `canvas.py:199-200` when the scan reaches it; one with three
  to nine fields raises in `_gen_activity` (`canvas.py:47-52`) only when the
  filter keeps it, and is skipped without error otherwise. No record is read
  once `stopped` is set (`canvas.py:196-197`). A non-string field [1] or [2]
  would raise at `.lower()` (`canvas.py:199-200`), and a non-string [5] or [6]
  at the `+ ' - ' +` concatenation (`canvas.py:49`). Fields [3], [4], [7], [8]
  and [9] only pass through `%s` formatting, which accepts any value except a
  tuple, and field [0] goes into the store's string column. None of these
  cases is modelled.
- `lower()` is modelled on ASCII letters only. Python 2's byte-string
  `lower()` folds only ASCII letters under the C or a UTF-8 locale, and the
  model assumes one. Under a single-byte locale it also folds that locale's
  capitals, and this is not modelled. Unicode case folding is not modelled.
- The `int(progress)` conversion is not modelled: progress is an integer.
- Download handles are row positions, since download rows are never removed.
  A handle that addresses no row is excluded by a precondition; the source
  would raise.
- The unused fields `thread` and `words` are not modelled.
