# Warehouse inventory app: a Dafny model of its logic

The application is a desktop stock-keeping tool. Users enter incoming components on an
input tab, browse current stock on an inventory tab, and see each component's photo
beside the form. Most of the code is widget wiring. This project models the parts that
are plain logic, as immutable data and pure functions, and proves what they guarantee:

- **Invoice names** (`MainWindow`): `cat_chuoi_invoice` pulls an invoice name out of
  copied text. Unicode dashes are normalised first. A `CBW…` part between underscores is
  preferred, then the last underscore part, and otherwise the text is cut at its last dash.
- **Tabs by role and the options memo** (`MainWindow`): `role_tabs` with its viewer
  default, and `load_categories_once`, which fetches each team's options at most once.
- **Photo pipeline** (`Image`): `ImageLoader.run` falls back from the photo to the default
  image to a grey blank. `display_image_async` and its `on_finished` callback keep a
  process-wide cache and each label's `current_loader`. Thread completions are events
  applied one at a time.
- **Input tab** (`InputTab`): rendering the table and `col_indices`, filling the form from
  a row (`get_value`, `parse_list`), name suggestions, the New/Edit/Delete mode machine,
  the normalised id a save uses, the copy-or-convert decision of `save_image`, and the
  search dictionary.
- **Inventory tab** (`InventoryTab`): cell formatting (with `current_quantity` going
  through `int`), loading the table, the placeholders the form shows, the photo-path
  choice of `display_image`, and the twelve-box search dictionary.

The support modules are:

- `Strings`: the Python `str` operations used above.
- `Paths`: `os.path.join` and a filesystem given as a map from path to size and decodability.
- `Table`: rows, `col_indices`, `get_value`, `parse_list` and the `", "` join.
- `Filters`: dictionaries built from ticked search boxes.
- `Wrappers`: `Option`.

Calls into the database, Qt and the filesystem are represented in one of three ways:

- as inputs: the rows a query returned, the files present, whether a pixmap decodes;
- as outputs: the `Command` or `Query` a step issues;
- as events: a loader finishing, a worker returning rows.

## Behaviour worth noting

- **Superseded loads.** `on_finished` shows and caches every non-null result. Only the
  reset of `current_loader` checks that the finishing loader is still the current one. So
  a superseded result that arrives is still shown and cached, and the newer loader stays
  current. `Image.SupersededResultIsShown` states this.
- **Fallback caching.** `run` emits the fallback image under the requested path, and
  `on_finished` caches it there. A photo that appears later is never picked up for that
  path. `Image.LoaderRun` and `Image.RequestAfterFinishHits` state this.
- **Choosing a photo.** `select_image` in `modules/ui/input_tab.py` is not connected by
  `setup_connections`, and a double-click on the preview opens the zoom instead. A chosen
  photo reaches `save_image` only through wiring outside that file. The model takes the
  choice as an `ImageChosen` event.

## Model

| member | source | states |
|---|---|---|
| MainWindow.NormalizeDashes | modules/ui/main_window.py:173-174 | each U+2010, U+2013 and U+2014 becomes `-`; every other character stays where it was |
| MainWindow.Cleaned | modules/ui/main_window.py:173-174 | the text every branch works on is stripped and holds no Unicode dash |
| MainWindow.FirstCbw | modules/ui/main_window.py:180-182 | no index exactly when no part starts with `CBW` in any case; otherwise the least such index |
| MainWindow.NameFromParts | modules/ui/main_window.py:177-184 | the `_` branch returns stripped text made only of characters of the parts |
| MainWindow.NameBeforeLastDash | modules/ui/main_window.py:186-192 | the dash branch returns stripped text made only of characters of the cleaned text |
| MainWindow.InvoiceName | modules/ui/main_window.py:171-192 | in every branch the name is stripped and holds no `_` and no Unicode dash; all its characters come from the cleaned text |
| MainWindow.InvoiceNamePrefersCbw | modules/ui/main_window.py:177-182 | with `_` present, the name is the stripped first part whose upper-case form starts with `CBW` |
| MainWindow.InvoiceNameLastPart | modules/ui/main_window.py:183-184 | with `_` present and no `CBW` part, the name is the stripped last part |
| MainWindow.InvoiceNameCutsAtLastDash | modules/ui/main_window.py:186-189 | without `_`, and with the last `-` at index k > 0, the name is the stripped text before k |
| MainWindow.InvoiceNameWholeText | modules/ui/main_window.py:186-192 | without `_` and without a `-` past index 0, the name is the whole cleaned text |
| MainWindow.LeadingDashKept | modules/ui/main_window.py:187-192 | a `-` only at index 0 does not cut: `-` followed by digits is returned unchanged |
| MainWindow.TabVisibility | modules/ui/main_window.py:81-86 | one flag per tab, and tab i is visible exactly when i is in the role's list |
| MainWindow.UnknownRoleIsViewer | modules/ui/main_window.py:74-81 | a role outside the table sees exactly the viewer's tabs, `[5, 6]` |
| MainWindow.RolesNested | modules/ui/main_window.py:74-79 | viewer's tabs ⊆ user's ⊆ manager's ⊆ admin's, and admin sees tabs 0 to 8 |
| MainWindow.EveryRoleSeesFiveAndSix | modules/ui/main_window.py:74-81 | whatever the role, tabs 5 and 6 are visible |
| MainWindow.LoadCategoriesOnce | modules/ui/main_window.py:235-244 | afterwards the team is cached and its stored options are returned; a fetch happens exactly when the team was not cached; a failed fetch stores `{}`; other teams are untouched |
| MainWindow.SecondLoadIsMemoised | modules/ui/main_window.py:238-244 | a second call for the same team never fetches and returns what the first call stored |
| Image.Load | modules/image.py:25-27 | a loaded pixmap is null exactly when the file is missing or does not decode |
| Image.Scale | modules/image.py:29-30 | scaling gives a null pixmap exactly when the source is null or the size is empty |
| Image.LoaderRun | modules/image.py:20-41 | the result is emitted under the requested path. It is the scaled photo if the photo decodes, else the scaled default image if that decodes, else a scaled light-grey blank of the requested size. It is null exactly when the size is empty |
| Image.DisplayImage | modules/image.py:44-70 | other labels and the cache never change. An empty id clears the picture and starts nothing. A cache hit shows the cached pixmap and leaves every loader alone. A miss starts one running loader for `folder/{id}.jpg`, makes it current, and tells a still-running previous loader to quit |
| Image.OnFinished | modules/image.py:72-78 | the cache gains `path ↦ pixmap` and the label shows it exactly when the pixmap is non-null, current or not; `current_loader` is reset only when it is the finishing loader |
| Image.InitInv | modules/image.py:9 | the empty cache and untouched labels satisfy the pipeline invariant |
| Image.DisplayImagePreservesInv | modules/image.py:44-70 | a request keeps the cache non-null and keeps every current loader running and bound to its own label |
| Image.CompletePreservesInv | modules/image.py:72-78 | a completion keeps the same invariant |
| Image.ApplyPreservesInv | modules/image.py:44-81 | any sequence of requests and completions keeps the invariant |
| Image.CacheNeverShrinks | modules/image.py:72-75 | nothing is ever evicted: a cached path stays cached through any later events |
| Image.FinishOnce | modules/image.py:20-41 | a loader emits once: completing it again changes nothing |
| Image.RequestAfterFinishHits | modules/image.py:55-58 | once a loader has finished, a request for its path shows the cached result (possibly a fallback) and starts no loader |
| Image.SupersededResultIsShown | modules/image.py:72-78 | a loader that is no longer current still puts its picture on the label, and the newer loader stays current |
| Paths.PathJoin | modules/image.py:53 | the joined path ends with the name and, for a relative name, starts with the folder |
| Paths.ImagePath | modules/image.py:53 | a component's photo path ends with `{id}.jpg` and, for a relative id, starts with the folder |
| Paths.ImagePathInjective | modules/image.py:53 | within one folder, two relative ids with the same photo path are equal |
| Paths.AbsoluteIdCollides | modules/image.py:53 | an id that is itself an absolute path escapes the folder and shares another id's photo path |
| Strings.Split | modules/ui/main_window.py:178 | `split` never returns an empty list, and no piece holds the separator |
| Strings.JoinSplit | modules/ui/main_window.py:178 | joining the pieces of a split with the separator gives the text back |
| Strings.SplitJoin | modules/ui/input_tab.py:325 | splitting a join of separator-free pieces gives the pieces back |
| Strings.RFind | modules/ui/main_window.py:187 | -1 exactly when the character is absent; otherwise an index holding it with none after it |
| Strings.StripOfPadded | modules/ui/input_tab.py:325 | `strip` removes exactly the whitespace padding around a stripped core |
| Strings.StripEmptyIff | modules/ui/input_tab.py:388-389 | `strip` leaves nothing exactly when the text is all whitespace |
| Strings.IntTextRoundTrip | modules/ui/input_tab.py:438-439 | `int(str(n)) == n` for every integer |
| Table.ColIndices | modules/ui/input_tab.py:268-270 | keys are exactly the headers; each maps to a position holding it; no later position holds it (the last duplicate wins) |
| Table.ColIndicesOfDistinct | modules/ui/inventory_tab.py:154-156 | with distinct headers (a dict's keys), each header maps to its own position |
| Table.GetValue | modules/ui/input_tab.py:302-307 | the text of the row's cell in the named column when both exist; `""` when the column is unknown, the row does not exist, or the row has no item at that column |
| Table.NonEmpty | modules/ui/input_tab.py:325 | the non-blank filter keeps, in order, every non-empty string exactly as often as it occurs, and drops every empty one |
| Table.CleanPieces | modules/ui/input_tab.py:325 | the kept items are non-empty strips of pieces, in piece order, and the strip of every non-blank piece is kept as often as it occurs |
| Table.ParseList | modules/ui/input_tab.py:324-325 | `[]` for empty text. Items are non-empty, stripped and comma-free. Otherwise they are, in order, strips of the comma-separated pieces, and the strip of every non-blank piece is kept as often as it occurs |
| Table.ParseListText | modules/ui/input_tab.py:276-277 | `parse_list` of the `", "` join of non-empty, unpadded, comma-free items gives the items back |
| Table.ShowCell | modules/ui/input_tab.py:275-278 | a missing key shows `""`, `None` shows `None`, an integer its decimal text, a text itself, a list its `", "` join |
| Table.ShowCellReadBack | modules/ui/input_tab.py:275-278 | the shown text of an integer parses back to that integer, and that of a list of proper items reads back with `parse_list` to the items |
| Filters.Value | modules/ui/inventory_tab.py:187-245 | an unticked box adds nothing. A ticked line edit adds its stripped text (upper-cased for the id) exactly when that is non-empty. A ticked combo box adds its text, wrapped in a list when asked, exactly when non-empty. A ticked multi-select adds its items exactly when some are selected |
| Filters.AddEntriesKeys | modules/ui/inventory_tab.py:185-245 | a key is in the dictionary exactly when it was there before or some box for it added a value |
| Filters.FilterPresentIff | modules/ui/inventory_tab.py:187-245 | with one box per key, a key is present exactly when its box is ticked and its field is non-empty, with that field's value |
| Filters.NothingAddedIff | modules/ui/inventory_tab.py:247-251 | the dictionary stays as it was exactly when no ticked box holds anything |
| InputTab.PreviewPath | modules/ui/input_tab.py:95-96 | an existing non-empty path is kept; an empty or missing path becomes the default image |
| InputTab.EmptyForm | modules/ui/input_tab.py:548-562 | a cleared form has no text and no selection and shows the default image |
| InputTab.RowImageChoice | modules/ui/input_tab.py:339-343 | a row's preview is the component's photo exactly when that file exists, else the default |
| InputTab.FillForm | modules/ui/input_tab.py:293-343 | each text field is `get_value` of its column for the row, each list field is `parse_list` of it, and the preview follows the id |
| InputTab.Matching | modules/ui/input_tab.py:364-365 | every cached name containing the text in any case, each one matching, in cache order |
| InputTab.NameSuggestions | modules/ui/input_tab.py:360-366 | nothing below two characters. Otherwise the first min(20, n) of the n matches, in cache order; fewer than 20 means every match |
| InputTab.NormalizeId | modules/ui/input_tab.py:388 | the saved id is stripped, has no lower-case ASCII letter, equals the stripped field up to case, and is empty exactly when the field is all whitespace |
| InputTab.NormalizeIdIdempotent | modules/ui/input_tab.py:388 | the saved id (stripped, upper-cased) is unchanged by normalising it again |
| InputTab.SaveImageAction | modules/ui/input_tab.py:531-543 | nothing without a chosen file. Otherwise the target is `folder/{id}.jpg`. A `.jpg`/`.jpeg` (any case) is copied unless it already is the target. Anything else is converted |
| InputTab.SavedPhotoIsShown | modules/ui/input_tab.py:534-544 | once the photo is at its target, the row preview for that id shows it |
| InputTab.SearchFilters | modules/ui/input_tab.py:245-246 | the search always asks for stock-in entries |
| InputTab.SearchByIdIff | modules/ui/input_tab.py:247-250 | the id filter is present exactly when ticked and non-empty after strip and upper-casing, with that value |
| InputTab.SearchByNameIff | modules/ui/input_tab.py:251-254 | the name filter is present exactly when ticked and non-empty after strip, with that value |
| InputTab.Init | modules/ui/input_tab.py:119-171 | the tab starts in neither New nor Edit mode, with no entry id, an empty table, no chosen photo, and a fresh preview label that has been given no path and shows no picture |
| InputTab.ClearForm | modules/ui/input_tab.py:548-562 | the form is emptied and the chosen photo forgotten; the mode is untouched |
| InputTab.FinishEditMode | modules/ui/input_tab.py:513-519 | not New, not Editing, no entry id, buttons back to New/Delete/enabled, empty form |
| InputTab.LoadedTable | modules/ui/input_tab.py:268-281 | headers are the first row's keys, `col_indices` their positions, one rendered row per record, first row selected |
| InputTab.UpdateTableModel | modules/ui/input_tab.py:262-288 | no rows empties the table and the form and keeps the old `col_indices`; otherwise the table is rebuilt and the form filled from row 0; the mode never changes |
| InputTab.OnRowSelected | modules/ui/input_tab.py:293-298 | no selection clears the form, a selected row fills it |
| InputTab.SaveImage | modules/ui/input_tab.py:531-546 | a photo save issues no command and leaves the mode alone. Without a chosen photo nothing changes; otherwise the preview shows `folder/{id}.jpg` |
| InputTab.SaveNewItem | modules/ui/input_tab.py:386-421 | an empty id (after strip and upper-casing) changes nothing and saves no photo; otherwise an add with that id and the photo decision is issued |
| InputTab.SaveEditItem | modules/ui/input_tab.py:445-482 | no entry id (or id 0), or an empty id, changes nothing; otherwise an update of that entry is issued |
| InputTab.AddNewItem | modules/ui/input_tab.py:373-384 | in New mode it saves a new item and in Edit mode the edit. From idle it enters New mode with an empty form, no chosen photo, buttons Save/Cancel and Edit disabled, and issues nothing |
| InputTab.EditSelectedItem | modules/ui/input_tab.py:429-443 | without a selection, in New mode, or with an id cell that is missing or not an integer, nothing changes. Otherwise it enters Edit mode for the row's integer id with buttons Save Edit/Cancel and Edit disabled, keeping the form |
| InputTab.DeleteSelectedItem | modules/ui/input_tab.py:490-507 | "Cancel" only finishes the mode. Otherwise the state is unchanged, and a delete of the row's entry id is issued exactly when the box is confirmed on a selected row whose id cell is an integer |
| InputTab.InitInv | modules/ui/input_tab.py:119-121 | the initial state satisfies the mode invariant |
| InputTab.StepPreservesInv | modules/ui/input_tab.py:373-519 | no event puts the tab in New and Edit mode at once; Edit mode has an entry id and New/idle mode has none; the buttons always match the mode |
| InputTab.NewFromIdle | modules/ui/input_tab.py:380-384 | from idle, New enters New mode with an empty form and issues nothing |
| InputTab.EditIgnoredWhileNew | modules/ui/input_tab.py:434-435 | in New mode, Edit changes nothing |
| InputTab.CancelOnlyFinishes | modules/ui/input_tab.py:490-493 | in New or Edit mode, Delete reads "Cancel", only leaves the mode, and deletes nothing |
| InputTab.SaveWithEmptyIdAborts | modules/ui/input_tab.py:386-391 | saving a new item with an empty id saves nothing, not even the photo |
| InputTab.EditReadsEntryId | modules/ui/input_tab.py:437-443 | Edit on a row whose id cell shows integer n enters Edit mode for n and leaves the form alone |
| InputTab.LoadedColumns | modules/ui/input_tab.py:268-270 | after a load, each header of the first row maps to its own column |
| InputTab.LoadedCellText | modules/ui/input_tab.py:302-307 | after a load, `get_value` reads back exactly the text the cell was rendered as |
| InputTab.LoadedListReadBack | modules/ui/input_tab.py:276-277 | after a load, `parse_list` of a list field gives its items back |
| InventoryTab.CellText | modules/ui/inventory_tab.py:159-167 | for `current_quantity`: `None` shows `0`, an integer its text, a text converts exactly when it parses as an integer and is shown as `str` of that integer, and a missing key or a list raises; every converted text parses back to the same integer. Every other column shows as in the input tab and never raises |
| InventoryTab.ClearForm | modules/ui/inventory_tab.py:324-341 | every field emptied and `images/default.jpg` shown; the table untouched |
| InventoryTab.DisplayImagePath | modules/ui/inventory_tab.py:116-121 | the photo when it exists with size > 0, else `images/default.jpg` |
| InventoryTab.ShownPhotoNotEmpty | modules/ui/inventory_tab.py:119-120 | the path shown is the default or an existing non-empty file |
| InventoryTab.OnRowSelected | modules/ui/inventory_tab.py:259-316 | a negative row clears the form. Otherwise name and size show `-` and quantity `0` exactly when their cell text is empty, and the cell text otherwise. The other text fields are their cells, the list fields go through `parse_list`, and the photo follows the id |
| InventoryTab.LoadedTable | modules/ui/inventory_tab.py:147-167 | headers are the first row's keys, `col_indices` their positions, one rendered row per record |
| InventoryTab.LoadInventoryTable | modules/ui/inventory_tab.py:135-179 | no rows empties the rows and clears the form. Otherwise headers and `col_indices` are rebuilt. A raising cell fails the load. A clean load has one row per record and row 0 shown |
| InventoryTab.QuantityShownIsInteger | modules/ui/inventory_tab.py:162-163 | after a clean load, the quantity field of any selected row holds an integer |
| InventoryTab.QuantityShownIsRecorded | modules/ui/inventory_tab.py:162-163 | after a clean load, a row whose record holds quantity n shows a quantity text that reads back as n, never the `0` placeholder for another value |
| InventoryTab.SearchCriteria | modules/ui/inventory_tab.py:187-245 | twelve search boxes, one per key |
| InventoryTab.SearchInventory | modules/ui/inventory_tab.py:247-251 | a filtered search always carries at least one filter |
| InventoryTab.FullStockIff | modules/ui/inventory_tab.py:247-251 | the full stock is fetched exactly when no ticked box holds anything |
| InventoryTab.SearchKeyIff | modules/ui/inventory_tab.py:187-245 | each key is present exactly when its box is ticked and its field is non-empty, with that field's value |
| InventoryTab.StorageLocationWrapped | modules/ui/inventory_tab.py:242-245 | a chosen storage location is searched as a one-element list |
| InventoryTab.SearchIdUpper | modules/ui/inventory_tab.py:187-190 | a ticked id box searches the stripped, upper-cased id |

## Left out

- Widgets, layouts, style sheets, signals, event filters, message boxes and file dialogs: these are presentation. A form is a record of field texts, and a click on a disabled button is not delivered.
- Thread and event-loop lifecycles (`QThread`, `AsyncWorker`, `quit`, `wait`, `terminate`, `deleteLater`): completions are events applied one at a time. Deleting a previous loader that is still running is not modelled.
- Pixmap decoding and aspect-preserving scaling: a pixmap is a symbolic value that records where it came from. Decodability is a flag on each file.
- `IMAGE_LABEL_SIZE`, `DEFAULT_IMAGE_PATH` and `get_folders` live in configuration modules that are not part of this model. They are parameters.
- Database and search calls, the Excel export, `shutil.copy2`, PIL conversion and `subprocess`: foreign I/O. A step returns the command or query it would issue, and query results come in as events.
- `open_invoice`, `show_zoomed_image`, the double-click zoom, `generate_and_set_cid`, `setup_dropdowns` and `load_name_suggestions_cache` are I/O and widget flows. The suggestion cache is an input.
- `HoverPreviewLabel` of `modules/image_hover_preview.py` is not part of this model. For the inventory tab, the form records the path handed to `set_image`.
- `float(...)` quantity parsing on save, and `int(float)` truncation in inventory cells: floating point. Quantities are integers or `None`.
- Strings.Upper and Strings.Lower map ASCII letters only. Python maps all of Unicode. This affects `InvoiceName`, `NormalizeId`, name suggestions and the JPEG-extension test.
- Strings.ParseInt accepts surrounding whitespace, an optional sign and ASCII digits. Python's `int` also accepts `_` separators and non-ASCII digits.
- Paths.PathJoin follows POSIX `os.path.join`. Windows drive and backslash rules are not modelled.
- A combo box's `setCurrentText` with a text that is not among its items is not modelled. The form stores the text.
- InputTab.SaveImage assumes creating the image folder and the copy or conversion succeed. A failed copy or conversion only logs and leaves the preview unchanged; a failed `os.makedirs` raises out of `save_image` and aborts the save before the add or update is issued.
- InputTab.SaveNewItem and InputTab.SaveEditItem always issue the add or update once the id is non-empty (and, for an edit, the entry id is set). They do not model a failed `os.makedirs` in `save_image`, which makes the source issue nothing, nor the `float` quantity error that can come after the photo is saved.
- InventoryTab.LoadInventoryTable on a raising cell keeps the previous rows. The code leaves the table resized and partly refilled up to that cell.
- The per-team options memo is an explicit map rather than a module-level global.
- Image.DisplayImage lets a previous loader that was told to quit keep running and finish at any later point. In the program `wait(1000)` blocks first and `deleteLater` follows, so the model admits completion orders the program does not produce, such as a superseded result arriving after its successor's.
- `select_image` is modelled only as the `ImageChosen` event: it has no caller in `modules/ui/input_tab.py`, and the file dialog is I/O.
