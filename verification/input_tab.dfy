/**
 * The input tab (`modules/ui/input_tab.py`): the table of stock-in entries, the form that
 * mirrors the selected row, name suggestions, the New / Edit / Delete mode machine, the
 * component id a save uses, and how a chosen photo is put in place.
 *
 * Widget calls become fields of a record; database calls become the `Command` a step
 * issues; worker completions are events of their own (`Loaded`, `Saved`).
 */
module InputTab {
  import opened Wrappers
  import opened Strings
  import opened Paths
  import opened Table
  import opened Filters

  /** What the tab can see of the machine: the files, `image_folder`, and `DEFAULT_IMAGE_PATH`. */
  datatype Env = Env(fs: FileSystem, folder: string, defaultPath: string)

  // ---------------------------------------------------------------------------
  // The table
  // ---------------------------------------------------------------------------

  /** One rendered row: the texts of the record's values, in header order. */
  function RenderRow(headers: seq<string>, r: Record): (row: seq<string>)
    ensures |row| == |headers|
    ensures forall j :: 0 <= j < |headers| ==> row[j] == ShowCell(Lookup(r, headers[j]))
  {
    seq(|headers|, j requires 0 <= j < |headers| => ShowCell(Lookup(r, headers[j])))
  }

  /** `table_model.item(row, col).text()`, `None` when there is no such item. */
  function CellAt(t: TableView, row: nat, col: nat): (v: Option<string>)
    ensures v.Some? <==> row < |t.grid| && col < |t.grid[row]|
  {
    if row < |t.grid| && col < |t.grid[row]| then Some(t.grid[row][col]) else None
  }

  /** `col_indices.get("id", 0)`: the column the entry id is read from. */
  function IdColumn(t: TableView): nat {
    if "id" in t.cols then t.cols["id"] else 0
  }

  /** `int(...)` of the id cell of a row; `None` when the cell is missing or not an integer. */
  function EntryIdAt(t: TableView, row: nat): Option<int> {
    match CellAt(t, row, IdColumn(t))
    case None => None
    case Some(text) => ParseInt(text)
  }

  // ---------------------------------------------------------------------------
  // The form
  // ---------------------------------------------------------------------------

  /** `HoverPreviewLabel.set_image(path)`: an empty or missing path falls back to the default image. */
  function PreviewPath(env: Env, path: string): (p: string)
    ensures p == path || p == env.defaultPath
    ensures path != "" && path in env.fs ==> p == path
    ensures path == "" || path !in env.fs ==> p == env.defaultPath
  {
    if path == "" || path !in env.fs then env.defaultPath else path
  }

  /** `clear_form`: every text and selection emptied, the preview reset to the default image. */
  function EmptyForm(env: Env): (f: Form)
    ensures f == BlankForm(env.defaultPath)
  {
    BlankForm(PreviewPath(env, ""))
  }

  /** The photo the row's preview loads: the component's photo when present, else the default. */
  function RowImage(env: Env, componentId: string): string {
    var p := ImagePath(env.folder, componentId);
    PreviewPath(env, if p in env.fs then p else env.defaultPath)
  }

  /** Whatever the folder holds, the row preview is the component's photo exactly when it exists. */
  lemma RowImageChoice(env: Env, componentId: string)
    ensures RowImage(env, componentId) ==
              if ImagePath(env.folder, componentId) in env.fs then ImagePath(env.folder, componentId)
              else env.defaultPath
  {
    var p := ImagePath(env.folder, componentId);
    assert p != "" by {
      assert EndsWith(p, componentId + ".jpg");
    }
  }

  /** `on_row_selected` for `row`: every field read with `get_value`, list fields with `parse_list`. */
  function FillForm(env: Env, t: TableView, row: nat): (f: Form)
    ensures f.componentId == GetValue(t.grid, t.cols, row, "component_id")
    ensures f.componentName == GetValue(t.grid, t.cols, row, "component_name")
    ensures f.size == GetValue(t.grid, t.cols, row, "size")
    ensures f.quantity == GetValue(t.grid, t.cols, row, "quantity")
    ensures f.unit == GetValue(t.grid, t.cols, row, "unit")
    ensures f.status == GetValue(t.grid, t.cols, row, "status")
    ensures f.invoice == GetValue(t.grid, t.cols, row, "invoice")
    ensures f.modinvoice == GetValue(t.grid, t.cols, row, "modinvoice")
    ensures f.note == GetValue(t.grid, t.cols, row, "note")
    ensures f.storageLocation == GetValue(t.grid, t.cols, row, "storage_location")
    ensures f.groups == ParseList(GetValue(t.grid, t.cols, row, "group_name"))
    ensures f.process == ParseList(GetValue(t.grid, t.cols, row, "process"))
    ensures f.model == ParseList(GetValue(t.grid, t.cols, row, "model"))
    ensures f.material == ParseList(GetValue(t.grid, t.cols, row, "material"))
    ensures f.image == RowImage(env, f.componentId)
  {
    var id := GetValue(t.grid, t.cols, row, "component_id");
    Form(
      id,
      GetValue(t.grid, t.cols, row, "component_name"),
      GetValue(t.grid, t.cols, row, "size"),
      GetValue(t.grid, t.cols, row, "quantity"),
      GetValue(t.grid, t.cols, row, "unit"),
      GetValue(t.grid, t.cols, row, "status"),
      GetValue(t.grid, t.cols, row, "invoice"),
      GetValue(t.grid, t.cols, row, "modinvoice"),
      GetValue(t.grid, t.cols, row, "note"),
      GetValue(t.grid, t.cols, row, "storage_location"),
      ParseList(GetValue(t.grid, t.cols, row, "group_name")),
      ParseList(GetValue(t.grid, t.cols, row, "process")),
      ParseList(GetValue(t.grid, t.cols, row, "model")),
      ParseList(GetValue(t.grid, t.cols, row, "material")),
      RowImage(env, id))
  }

  // ---------------------------------------------------------------------------
  // Name suggestions
  // ---------------------------------------------------------------------------

  /** `text.lower() in v.lower()`. */
  predicate Suggests(text: string, v: string) {
    Contains(Lower(v), Lower(text))
  }

  /**
   * Every cached name that contains `text`, case-insensitively, in cache order. The cache
   * is built as `sorted(set(...))`, so it holds no duplicates, and for such a cache these
   * ensures determine the result; how often a repeated name would appear is not stated.
   */
  function Matching(text: string, cache: seq<string>): (m: seq<string>)
    ensures IsSubseq(m, cache)
    ensures forall v :: v in m ==> Suggests(text, v)
    ensures forall v :: v in cache && Suggests(text, v) ==> v in m
  {
    if cache == [] then []
    else
      var rest := Matching(text, cache[1..]);
      assert forall v :: v in cache ==> v == cache[0] || v in cache[1..];
      if Suggests(text, cache[0]) then [cache[0]] + rest else rest
  }

  /**
   * `on_name_text_changed(text)`: nothing for fewer than two characters; otherwise the first
   * twenty cached names containing the text in any case, in cache order. A list shorter than
   * twenty holds every match.
   */
  function NameSuggestions(text: string, cache: seq<string>): (r: seq<string>)
    ensures |text| < 2 ==> r == []
    ensures |r| <= 20
    ensures IsSubseq(r, cache)
    ensures forall v :: v in r ==> Suggests(text, v)
    ensures |text| >= 2 && |r| < 20 ==> forall v :: v in cache && Suggests(text, v) ==> v in r
    ensures |text| >= 2 ==> r <= Matching(text, cache)
    ensures |text| >= 2 ==> |r| == if |Matching(text, cache)| < 20 then |Matching(text, cache)| else 20
  {
    if |text| < 2 then []
    else
      var m := Matching(text, cache);
      if |m| <= 20 then m
      else
        SubseqPrefix(m, cache, 20);
        assert forall v :: v in m[..20] ==> v in m;
        m[..20]
  }

  // ---------------------------------------------------------------------------
  // Saving
  // ---------------------------------------------------------------------------

  lemma UpperKeepsStripped(s: string)
    requires IsStripped(s)
    ensures IsStripped(Upper(s))
  {
  }

  /**
   * The id a save uses: the field's text stripped and upper-cased. It is the stripped text up
   * to letter case, holds no lower-case ASCII letter, and is empty exactly when the field holds
   * only whitespace.
   */
  function NormalizeId(s: string): (id: string)
    ensures |id| <= |s|
    ensures IsStripped(id)
    ensures |id| == |Strip(s)| && forall i :: 0 <= i < |id| ==> LowerChar(id[i]) == LowerChar(Strip(s)[i])
    ensures forall i :: 0 <= i < |id| ==> !('a' <= id[i] <= 'z')
    ensures id == "" <==> AllSpace(s)
  {
    StripEmptyIff(s);
    UpperKeepsStripped(Strip(s));
    Upper(Strip(s))
  }

  /** Normalising twice changes nothing: a saved id is already in its saved form. */
  lemma NormalizeIdIdempotent(s: string)
    ensures NormalizeId(NormalizeId(s)) == NormalizeId(s)
  {
    var u := NormalizeId(s);
    UpperKeepsStripped(Strip(s));
    StripStripped(u);
    assert Upper(u) == u;
  }

  /** What `save_image` does with the chosen photo. */
  datatype ImageAction =
    | NoImage
    | CopyImage(source: string, target: string)
    | AlreadyInPlace(target: string)
    | ConvertImage(source: string, target: string)

  /** The chosen file is a JPEG by name: it ends in `.jpg` or `.jpeg` in any case. */
  predicate IsJpegName(path: string) {
    EndsWith(Lower(path), ".jpg") || EndsWith(Lower(path), ".jpeg")
  }

  /**
   * `save_image(component_id)`: nothing without a chosen photo; otherwise the photo goes to
   * the component's photo path, copied when it is a JPEG that is not already there and
   * converted when it is not a JPEG.
   */
  function SaveImageAction(selected: Option<string>, folder: string, componentId: string): (a: ImageAction)
    ensures (selected.None? || selected.value == "") <==> a.NoImage?
    ensures !a.NoImage? ==> a.target == ImagePath(folder, componentId)
    ensures a.CopyImage? || a.ConvertImage? ==> a.source == selected.value
    ensures a.CopyImage? <==> selected.Some? && selected.value != "" && IsJpegName(selected.value)
                              && selected.value != ImagePath(folder, componentId)
    ensures a.AlreadyInPlace? <==> selected.Some? && IsJpegName(selected.value)
                                   && selected.value == ImagePath(folder, componentId)
    ensures a.ConvertImage? <==> selected.Some? && selected.value != "" && !IsJpegName(selected.value)
  {
    match selected
    case None => NoImage
    case Some(src) =>
      if src == "" then NoImage
      else
        var target := ImagePath(folder, componentId);
        if IsJpegName(src) then
          if src != target then CopyImage(src, target) else AlreadyInPlace(target)
        else ConvertImage(src, target)
  }

  /** A photo saved for an id is the one the row preview of that id then shows. */
  lemma SavedPhotoIsShown(env: Env, selected: Option<string>, componentId: string, info: FileInfo)
    requires !SaveImageAction(selected, env.folder, componentId).NoImage?
    ensures var a := SaveImageAction(selected, env.folder, componentId);
            RowImage(env.(fs := env.fs[a.target := info]), componentId) == a.target
  {
    var a := SaveImageAction(selected, env.folder, componentId);
    RowImageChoice(env.(fs := env.fs[a.target := info]), componentId);
  }

  /** The two search boxes of the tab: the id (upper-cased) and the name. */
  function SearchCriteria(f: Form, byId: bool, byName: bool): seq<Criterion> {
    [Criterion.Typed("component_id", byId, f.componentId, true),
     Criterion.Typed("component_name", byName, f.componentName, false)]
  }

  /** `search_items`: stock-in entries, narrowed by the ticked id and name boxes. */
  function SearchFilters(f: Form, byId: bool, byName: bool): (m: FilterMap)
    ensures "movement_type" in m && m["movement_type"] == Text("in")
  {
    var base := map["movement_type" := Text("in")];
    var cs := SearchCriteria(f, byId, byName);
    AddEntriesKeepsBase(base, Evaluate(cs), "movement_type");
    AddCriteria(base, cs)
  }

  /** The id filter is present exactly when its box is ticked and the normalised id is non-empty. */
  lemma SearchByIdIff(f: Form, byId: bool, byName: bool)
    ensures "component_id" in SearchFilters(f, byId, byName) <==> byId && NormalizeId(f.componentId) != ""
    ensures "component_id" in SearchFilters(f, byId, byName) ==>
              SearchFilters(f, byId, byName)["component_id"] == Text(NormalizeId(f.componentId))
  {
    var base := map["movement_type" := Text("in")];
    var cs := SearchCriteria(f, byId, byName);
    FilterPresentIff(base, cs, 0);
  }

  /** The name filter is present exactly when its box is ticked and the stripped name is non-empty. */
  lemma SearchByNameIff(f: Form, byId: bool, byName: bool)
    ensures "component_name" in SearchFilters(f, byId, byName) <==> byName && Strip(f.componentName) != ""
    ensures "component_name" in SearchFilters(f, byId, byName) ==>
              SearchFilters(f, byId, byName)["component_name"] == Text(Strip(f.componentName))
  {
    var base := map["movement_type" := Text("in")];
    var cs := SearchCriteria(f, byId, byName);
    FilterPresentIff(base, cs, 1);
  }

  // ---------------------------------------------------------------------------
  // The mode machine
  // ---------------------------------------------------------------------------

  /** The controller's state, with the three buttons' texts and enabled flag. */
  datatype InputState = InputState(
    isNew: bool, isEditing: bool, editingId: Option<int>,
    newText: string, deleteText: string, editEnabled: bool,
    table: TableView, form: Form, selectedImage: Option<string>)

  /** Two states in the same mode, with the same button texts. */
  predicate SameMode(a: InputState, b: InputState) {
    && a.isNew == b.isNew && a.isEditing == b.isEditing && a.editingId == b.editingId
    && a.newText == b.newText && a.deleteText == b.deleteText && a.editEnabled == b.editEnabled
  }

  /** What a step asks the database layer to do. */
  datatype Command =
    | NoCommand
    | AddEntry(componentId: string, image: ImageAction)
    | UpdateEntry(entryId: int, componentId: string, image: ImageAction)
    | DeleteEntry(entryId: int)

  datatype Outcome = Outcome(state: InputState, command: Command)

  /** What can happen to the tab. */
  datatype Event =
    | Loaded(data: seq<Record>)          // a search worker finished with these rows
    | Select(row: Option<nat>)           // the table's selection changed
    | FormEdited(form: Form)             // the user edited the form's fields
    | ImageChosen(path: string)          // `select_image` returned a file name, possibly empty
    | NewClicked
    | EditClicked
    | DeleteClicked(confirmed: bool)     // `confirmed`: the answer to the confirmation box
    | Saved                              // an add or update worker finished

  /**
   * The tab as `__init__` leaves it: idle, an empty table, no chosen photo, and a preview
   * that has not been given any path yet, so it shows no picture until the first load.
   */
  function Init(): (st: InputState)
    ensures !st.isNew && !st.isEditing && st.editingId.None?
    ensures st.form == BlankForm("") && st.selectedImage.None? && st.table.grid == []
  {
    InputState(false, false, None, "New", "Delete", true, TableView([], map[], [], None), BlankForm(""), None)
  }

  /** `clear_form`. */
  function ClearForm(env: Env, st: InputState): (st': InputState)
    ensures st'.form == EmptyForm(env) && st'.selectedImage.None?
    ensures SameMode(st', st)
  {
    st.(form := EmptyForm(env), selectedImage := None)
  }

  /** `finish_edit_mode`: back to idle with an empty form. */
  function FinishEditMode(env: Env, st: InputState): (st': InputState)
    ensures !st'.isNew && !st'.isEditing && st'.editingId.None?
    ensures st'.newText == "New" && st'.deleteText == "Delete" && st'.editEnabled
    ensures st'.form == EmptyForm(env) && st'.table == st.table
  {
    ClearForm(env, st.(isNew := false, isEditing := false, editingId := None,
                       newText := "New", deleteText := "Delete", editEnabled := true))
  }

  /** The table a non-empty load builds: the first row's keys as headers, every row rendered, row 0 selected. */
  function LoadedTable(data: seq<Record>): (t: TableView)
    requires data != []
    ensures t.headers == Keys(data[0]) && t.cols == ColIndices(t.headers)
    ensures |t.grid| == |data| && t.selection == Some(0)
    ensures forall i :: 0 <= i < |data| ==> t.grid[i] == RenderRow(t.headers, data[i])
  {
    var headers := Keys(data[0]);
    TableView(headers, ColIndices(headers), seq(|data|, i requires 0 <= i < |data| => RenderRow(headers, data[i])), Some(0))
  }

  /**
   * `update_table_model(data)`: no rows clears the table and the form (the old `col_indices`
   * stay); otherwise the table is rebuilt and its first row is selected, which fills the form.
   */
  function UpdateTableModel(env: Env, st: InputState, data: seq<Record>): (st': InputState)
    ensures data == [] ==> st'.table == st.table.(headers := [], grid := [], selection := None)
    ensures data == [] ==> st'.form == EmptyForm(env)
    ensures data != [] ==> st'.table == LoadedTable(data) && st'.form == FillForm(env, st'.table, 0)
    ensures SameMode(st', st)
  {
    if data == [] then
      ClearForm(env, st.(table := st.table.(headers := [], grid := [], selection := None)))
    else
      var t := LoadedTable(data);
      st.(table := t, form := FillForm(env, t, 0))
  }

  /** `on_row_selected`: no selection clears the form, a selected row fills it. */
  function OnRowSelected(env: Env, st: InputState, row: Option<nat>): (st': InputState)
    ensures row.None? ==> st'.form == EmptyForm(env)
    ensures row.Some? ==> st'.form == FillForm(env, st.table, row.value)
    ensures st'.table == st.table.(selection := row)
    ensures SameMode(st', st)
  {
    var st1 := st.(table := st.table.(selection := row));
    match row
    case None => ClearForm(env, st1)
    case Some(r) => st1.(form := FillForm(env, st.table, r))
  }

  /** `save_image` followed by the preview update it makes once the photo is in place. */
  function SaveImage(env: Env, st: InputState, componentId: string): (o: Outcome)
    ensures o.command == NoCommand && SameMode(o.state, st)
    ensures SaveImageAction(st.selectedImage, env.folder, componentId).NoImage? ==> o.state == st
    ensures !SaveImageAction(st.selectedImage, env.folder, componentId).NoImage? ==>
              o.state == st.(form := st.form.(image := ImagePath(env.folder, componentId)))
  {
    var a := SaveImageAction(st.selectedImage, env.folder, componentId);
    if a.NoImage? then Outcome(st, NoCommand)
    else Outcome(st.(form := st.form.(image := a.target)), NoCommand)
  }

  /** `save_new_item`: an empty id is refused before anything is saved. */
  function SaveNewItem(env: Env, st: InputState): (o: Outcome)
    ensures NormalizeId(st.form.componentId) == "" ==> o == Outcome(st, NoCommand)
    ensures NormalizeId(st.form.componentId) != "" ==>
              o.command == AddEntry(NormalizeId(st.form.componentId),
                                    SaveImageAction(st.selectedImage, env.folder, NormalizeId(st.form.componentId)))
    ensures SameMode(o.state, st)
  {
    var id := NormalizeId(st.form.componentId);
    if id == "" then Outcome(st, NoCommand)
    else
      var saved := SaveImage(env, st, id);
      Outcome(saved.state, AddEntry(id, SaveImageAction(st.selectedImage, env.folder, id)))
  }

  /** `save_edit_item`: nothing without an entry id (0 counts as none), or with an empty id. */
  function SaveEditItem(env: Env, st: InputState): (o: Outcome)
    ensures st.editingId.None? || st.editingId == Some(0) || NormalizeId(st.form.componentId) == "" ==>
              o == Outcome(st, NoCommand)
    ensures st.editingId.Some? && st.editingId.value != 0 && NormalizeId(st.form.componentId) != "" ==>
              o.command == UpdateEntry(st.editingId.value, NormalizeId(st.form.componentId),
                                       SaveImageAction(st.selectedImage, env.folder, NormalizeId(st.form.componentId)))
    ensures SameMode(o.state, st)
  {
    var id := NormalizeId(st.form.componentId);
    match st.editingId
    case None => Outcome(st, NoCommand)
    case Some(entry) =>
      if entry == 0 || id == "" then Outcome(st, NoCommand)
      else
        var saved := SaveImage(env, st, id);
        Outcome(saved.state, UpdateEntry(entry, id, SaveImageAction(st.selectedImage, env.folder, id)))
  }

  /** `add_new_item`: saves in New or Edit mode, otherwise enters New mode with an empty form. */
  function AddNewItem(env: Env, st: InputState): (o: Outcome)
    ensures st.isNew ==> o == SaveNewItem(env, st)
    ensures !st.isNew && st.isEditing ==> o == SaveEditItem(env, st)
    ensures !st.isNew && !st.isEditing ==>
              && o.command == NoCommand
              && o.state.isNew && !o.state.isEditing && o.state.editingId == st.editingId
              && o.state.newText == "Save" && o.state.deleteText == "Cancel" && !o.state.editEnabled
              && o.state.form == EmptyForm(env) && o.state.selectedImage.None? && o.state.table == st.table
  {
    if st.isNew then SaveNewItem(env, st)
    else if st.isEditing then SaveEditItem(env, st)
    else
      var cleared := ClearForm(env, st);
      Outcome(cleared.(isNew := true, newText := "Save", deleteText := "Cancel", editEnabled := false), NoCommand)
  }

  /**
   * `edit_selected_item`: with a row selected and not in New mode, reads the row's entry id
   * and enters Edit mode. A missing or non-integer id cell raises, which leaves the state as
   * it was.
   */
  function EditSelectedItem(st: InputState): (st': InputState)
    ensures st.table.selection.None? || st.isNew ==> st' == st
    ensures st.table.selection.Some? && EntryIdAt(st.table, st.table.selection.value).None? ==> st' == st
    ensures st.table.selection.Some? && !st.isNew && EntryIdAt(st.table, st.table.selection.value).Some? ==>
              && st' == st.(isEditing := true, editingId := EntryIdAt(st.table, st.table.selection.value),
                            newText := "Save Edit", deleteText := "Cancel", editEnabled := false)
              && st'.isEditing && st'.editingId.Some?
  {
    match st.table.selection
    case None => st
    case Some(row) =>
      if st.isNew then st
      else
        match EntryIdAt(st.table, row)
        case None => st
        case Some(entry) =>
          st.(editingId := Some(entry), isEditing := true,
              newText := "Save Edit", deleteText := "Cancel", editEnabled := false)
  }

  /** `delete_selected_item`: "Cancel" leaves New or Edit mode; "Delete" asks, then deletes the row's entry. */
  function DeleteSelectedItem(env: Env, st: InputState, confirmed: bool): (o: Outcome)
    ensures st.deleteText == "Cancel" ==> o == Outcome(FinishEditMode(env, st), NoCommand)
    ensures st.deleteText != "Cancel" ==> o.state == st
    ensures o.command == NoCommand || o.command.DeleteEntry?
    ensures o.command.DeleteEntry? <==>
              && st.deleteText != "Cancel" && confirmed && st.table.selection.Some?
              && EntryIdAt(st.table, st.table.selection.value).Some?
    ensures o.command.DeleteEntry? ==> Some(o.command.entryId) == EntryIdAt(st.table, st.table.selection.value)
  {
    if st.deleteText == "Cancel" then Outcome(FinishEditMode(env, st), NoCommand)
    else
      match st.table.selection
      case None => Outcome(st, NoCommand)
      case Some(row) =>
        match EntryIdAt(st.table, row)
        case None => Outcome(st, NoCommand)
        case Some(entry) => Outcome(st, if confirmed then DeleteEntry(entry) else NoCommand)
  }

  /** One event. A click on the disabled Edit button does nothing, as Qt does not deliver it. */
  function Step(env: Env, st: InputState, e: Event): Outcome {
    match e
    case Loaded(data) => Outcome(UpdateTableModel(env, st, data), NoCommand)
    case Select(row) => Outcome(OnRowSelected(env, st, row), NoCommand)
    case FormEdited(f) => Outcome(st.(form := f.(image := st.form.image)), NoCommand)
    case ImageChosen(path) =>
      if path == "" then Outcome(st, NoCommand)
      else Outcome(st.(selectedImage := Some(path), form := st.form.(image := PreviewPath(env, path))), NoCommand)
    case NewClicked => AddNewItem(env, st)
    case EditClicked => Outcome(if st.editEnabled then EditSelectedItem(st) else st, NoCommand)
    case DeleteClicked(confirmed) => DeleteSelectedItem(env, st, confirmed)
    case Saved => Outcome(FinishEditMode(env, st), NoCommand)
  }

  /** The three flags agree with each other and with the buttons. */
  predicate Inv(st: InputState) {
    && !(st.isNew && st.isEditing)
    && (st.isEditing <==> st.editingId.Some?)
    && st.newText == (if st.isNew then "Save" else if st.isEditing then "Save Edit" else "New")
    && st.deleteText == (if st.isNew || st.isEditing then "Cancel" else "Delete")
    && st.editEnabled == !(st.isNew || st.isEditing)
  }

  lemma InitInv()
    ensures Inv(Init())
  {
  }

  /** No event breaks the invariant: in particular New and Edit mode are never both on. */
  lemma StepPreservesInv(env: Env, st: InputState, e: Event)
    requires Inv(st)
    ensures Inv(Step(env, st, e).state)
  {
    match e {
      case Loaded(data) =>
      case Select(row) =>
      case FormEdited(_) =>
      case ImageChosen(_) =>
      case NewClicked =>
      case EditClicked =>
      case DeleteClicked(confirmed) =>
      case Saved =>
    }
  }

  /** From idle, New enters New mode with an empty form and issues nothing. */
  lemma NewFromIdle(env: Env, st: InputState)
    requires Inv(st) && !st.isNew && !st.isEditing
    ensures var o := Step(env, st, NewClicked);
            o.state.isNew && !o.state.isEditing && o.state.form == EmptyForm(env) && o.command == NoCommand
  {
  }

  /** In New mode, Edit changes nothing. */
  lemma EditIgnoredWhileNew(env: Env, st: InputState)
    requires Inv(st) && st.isNew
    ensures Step(env, st, EditClicked) == Outcome(st, NoCommand)
  {
  }

  /** In New or Edit mode, Delete reads "Cancel" and only leaves the mode: nothing is deleted. */
  lemma CancelOnlyFinishes(env: Env, st: InputState, confirmed: bool)
    requires Inv(st) && (st.isNew || st.isEditing)
    ensures var o := Step(env, st, DeleteClicked(confirmed));
            o == Outcome(FinishEditMode(env, st), NoCommand)
            && !o.state.isNew && !o.state.isEditing && o.state.editingId.None?
  {
  }

  /** Saving in New mode with an empty (or all-space) id saves nothing, not even the photo. */
  lemma SaveWithEmptyIdAborts(env: Env, st: InputState)
    requires st.isNew && NormalizeId(st.form.componentId) == ""
    ensures Step(env, st, NewClicked) == Outcome(st, NoCommand)
  {
  }

  /** Edit on a selected row whose id cell shows an integer enters Edit mode for that integer. */
  lemma EditReadsEntryId(env: Env, st: InputState, row: nat, n: int)
    requires Inv(st) && !st.isNew && !st.isEditing
    requires st.table.selection == Some(row)
    requires CellAt(st.table, row, IdColumn(st.table)) == Some(IntToText(n))
    ensures var o := Step(env, st, EditClicked);
            o.state.isEditing && o.state.editingId == Some(n) && o.state.form == st.form
  {
    IntTextRoundTrip(n);
    assert EntryIdAt(st.table, row) == Some(n);
    assert Step(env, st, EditClicked).state == EditSelectedItem(st);
  }

  /** Loading rows whose first row has distinct keys maps every header to its own column. */
  lemma LoadedColumns(data: seq<Record>, i: int)
    requires data != [] && Distinct(Keys(data[0]))
    requires 0 <= i < |data[0]|
    ensures var t := LoadedTable(data);
            data[0][i].0 in t.cols && t.cols[data[0][i].0] == i
  {
    ColIndicesOfDistinct(Keys(data[0]), i);
  }

  /** After a load, `get_value` on a row reads back exactly the text its cell was rendered as. */
  lemma LoadedCellText(data: seq<Record>, row: nat, j: int)
    requires data != [] && Distinct(Keys(data[0]))
    requires row < |data| && 0 <= j < |data[0]|
    ensures var t := LoadedTable(data);
            GetValue(t.grid, t.cols, row, data[0][j].0) == ShowCell(Lookup(data[row], data[0][j].0))
  {
    var t := LoadedTable(data);
    ColIndicesOfDistinct(t.headers, j);
    assert t.headers[j] == data[0][j].0;
  }

  /**
   * After a load, the form reads back what a row's list field held: a list cell shown with
   * `", "` and read with `parse_list` gives its items again.
   */
  lemma LoadedListReadBack(data: seq<Record>, row: nat, j: int, items: seq<string>)
    requires data != [] && Distinct(Keys(data[0]))
    requires row < |data| && 0 <= j < |data[0]|
    requires Lookup(data[row], data[0][j].0) == Some(ListCell(items))
    requires forall k :: 0 <= k < |items| ==> IsListItem(items[k])
    ensures var t := LoadedTable(data);
            ParseList(GetValue(t.grid, t.cols, row, data[0][j].0)) == items
  {
    LoadedCellText(data, row, j);
    ParseListText(items);
  }
}
