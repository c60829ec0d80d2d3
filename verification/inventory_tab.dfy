/**
 * The inventory tab (`modules/ui/inventory_tab.py`): the current-stock table, the search
 * dictionary its form builds, the form filled from the selected row with its placeholders,
 * and the photo path it shows.
 */
module InventoryTab {
  import opened Wrappers
  import opened Strings
  import opened Paths
  import opened Table
  import opened Filters

  /** The image `display_image` and `clear_form` fall back to. */
  const DefaultImage: string := "images/default.jpg"

  // ---------------------------------------------------------------------------
  // The table
  // ---------------------------------------------------------------------------

  /**
   * A cell's text in this tab, `None` where the conversion raises. `current_quantity` goes
   * through `int`: `None` shows `"0"`, and a missing key (read as `""`), a list or a
   * non-integer text raises. Every other column shows the value as the input tab does.
   */
  function CellText(key: string, v: Option<Cell>): (t: Option<string>)
    ensures key != "current_quantity" ==> t == Some(ShowCell(v))
    ensures key == "current_quantity" ==>
              (t.Some? <==> v == Some(NoneCell) || (v.Some? && v.value.IntCell?)
                            || (v.Some? && v.value.TextCell? && ParseInt(v.value.s).Some?))
    ensures key == "current_quantity" && t.Some? ==> ParseInt(t.value).Some?
    ensures key == "current_quantity" && v == Some(NoneCell) ==> t == Some("0")
    ensures key == "current_quantity" && v.Some? && v.value.IntCell? ==>
              t == Some(IntToText(v.value.n)) && ParseInt(t.value) == Some(v.value.n)
    ensures key == "current_quantity" && v.Some? && v.value.TextCell? && t.Some? ==>
              ParseInt(t.value) == ParseInt(v.value.s)
    ensures key == "current_quantity" && v.Some? && v.value.TextCell? && ParseInt(v.value.s).Some? ==>
              t == Some(IntToText(ParseInt(v.value.s).value))
  {
    if key == "current_quantity" then
      match v
      case Some(NoneCell) => ZeroText(); IntTextRoundTrip(0); Some("0")
      case Some(IntCell(n)) => IntTextRoundTrip(n); Some(IntToText(n))
      case Some(TextCell(s)) =>
        (match ParseInt(s)
         case Some(n) => IntTextRoundTrip(n); Some(IntToText(n))
         case None => None)
      case _ => None
    else
      Some(ShowCell(v))
  }

  /** Every cell of the record converts. */
  predicate RowConverts(headers: seq<string>, r: Record) {
    forall j :: 0 <= j < |headers| ==> CellText(headers[j], Lookup(r, headers[j])).Some?
  }

  /** The texts of a record whose cells all convert, in header order. */
  function RenderRow(headers: seq<string>, r: Record): (row: seq<string>)
    requires RowConverts(headers, r)
    ensures |row| == |headers|
    ensures forall j :: 0 <= j < |headers| ==> Some(row[j]) == CellText(headers[j], Lookup(r, headers[j]))
  {
    seq(|headers|, j requires 0 <= j < |headers| => CellText(headers[j], Lookup(r, headers[j])).value)
  }

  /** The state of the tab: its table and its form. */
  datatype InventoryState = InventoryState(table: TableView, form: Form)

  /** The end of `load_inventory_table`: the new state, and whether a cell raised. */
  datatype LoadOutcome = LoadOutcome(state: InventoryState, failed: bool)

  /** `clear_form`: every field emptied and the default image shown. */
  function ClearForm(st: InventoryState): (st': InventoryState)
    ensures st'.form == BlankForm(DefaultImage) && st'.table == st.table
  {
    st.(form := BlankForm(DefaultImage))
  }

  /** `display_image(component_id)`: the component's photo when it exists and is not empty, else the default. */
  function DisplayImagePath(fs: FileSystem, folder: string, componentId: string): (p: string)
    ensures ImagePath(folder, componentId) in fs && fs[ImagePath(folder, componentId)].size > 0 ==>
              p == ImagePath(folder, componentId)
    ensures !(ImagePath(folder, componentId) in fs && fs[ImagePath(folder, componentId)].size > 0) ==>
              p == DefaultImage
  {
    var photo := ImagePath(folder, componentId);
    if photo in fs && fs[photo].size > 0 then photo else DefaultImage
  }

  /** The tab never hands an empty photo file to the preview: what it shows is the default or a non-empty file. */
  lemma ShownPhotoNotEmpty(fs: FileSystem, folder: string, componentId: string)
    ensures var p := DisplayImagePath(fs, folder, componentId);
            p == DefaultImage || (p in fs && fs[p].size > 0)
  {
  }

  /** An empty text shows as the placeholder instead. */
  function OrPlaceholder(text: string, placeholder: string): (r: string)
    ensures text != "" ==> r == text
    ensures text == "" ==> r == placeholder
  {
    if text != "" then text else placeholder
  }

  /**
   * `on_row_selected(row, col)`: a negative row clears the form; otherwise every field is read
   * with `get_value`, an empty name or size shows `"-"`, an empty quantity `"0"`, the list
   * fields go through `parse_list`, and the component's photo is shown.
   */
  function OnRowSelected(fs: FileSystem, folder: string, st: InventoryState, row: int): (st': InventoryState)
    ensures row < 0 ==> st' == ClearForm(st)
    ensures st'.table == st.table
    ensures row >= 0 ==> st'.form.componentName != "" && st'.form.size != "" && st'.form.quantity != ""
    ensures row >= 0 ==> st'.form.image == DisplayImagePath(fs, folder, st'.form.componentId)
    ensures row >= 0 ==> var g := GetValue(st.table.grid, st.table.cols, row, "component_name");
                         st'.form.componentName == if g == "" then "-" else g
    ensures row >= 0 ==> var g := GetValue(st.table.grid, st.table.cols, row, "size");
                         st'.form.size == if g == "" then "-" else g
    ensures row >= 0 ==> var g := GetValue(st.table.grid, st.table.cols, row, "current_quantity");
                         st'.form.quantity == if g == "" then "0" else g
    ensures row >= 0 ==> var t := st.table;
              && st'.form.componentId == GetValue(t.grid, t.cols, row, "component_id")
              && st'.form.unit == GetValue(t.grid, t.cols, row, "unit")
              && st'.form.status == GetValue(t.grid, t.cols, row, "status")
              && st'.form.invoice == GetValue(t.grid, t.cols, row, "invoice")
              && st'.form.modinvoice == GetValue(t.grid, t.cols, row, "modinvoice")
              && st'.form.note == GetValue(t.grid, t.cols, row, "note")
              && st'.form.storageLocation == GetValue(t.grid, t.cols, row, "storage_location")
    ensures row >= 0 ==> var t := st.table;
              && st'.form.groups == ParseList(GetValue(t.grid, t.cols, row, "group_name"))
              && st'.form.process == ParseList(GetValue(t.grid, t.cols, row, "process"))
              && st'.form.model == ParseList(GetValue(t.grid, t.cols, row, "model"))
              && st'.form.material == ParseList(GetValue(t.grid, t.cols, row, "material"))
  {
    if row < 0 then ClearForm(st)
    else
      var t := st.table;
      var id := GetValue(t.grid, t.cols, row, "component_id");
      st.(form := Form(
        id,
        OrPlaceholder(GetValue(t.grid, t.cols, row, "component_name"), "-"),
        OrPlaceholder(GetValue(t.grid, t.cols, row, "size"), "-"),
        OrPlaceholder(GetValue(t.grid, t.cols, row, "current_quantity"), "0"),
        GetValue(t.grid, t.cols, row, "unit"),
        GetValue(t.grid, t.cols, row, "status"),
        GetValue(t.grid, t.cols, row, "invoice"),
        GetValue(t.grid, t.cols, row, "modinvoice"),
        GetValue(t.grid, t.cols, row, "note"),
        GetValue(t.grid, t.cols, row, "storage_location"),
        ParseList(GetValue(t.grid, t.cols, row, "group_name")),
        ParseList(GetValue(t.grid, t.cols, row, "process")),
        ParseList(GetValue(t.grid, t.cols, row, "model")),
        ParseList(GetValue(t.grid, t.cols, row, "material")),
        DisplayImagePath(fs, folder, id)))
  }

  /** The table a load builds when every cell converts: headers from the first row, every row rendered. */
  function LoadedTable(data: seq<Record>): (t: TableView)
    requires data != []
    requires forall i :: 0 <= i < |data| ==> RowConverts(Keys(data[0]), data[i])
    ensures t.headers == Keys(data[0]) && t.cols == ColIndices(t.headers)
    ensures |t.grid| == |data| && t.selection == Some(0)
    ensures forall i :: 0 <= i < |data| ==> t.grid[i] == RenderRow(t.headers, data[i])
  {
    var headers := Keys(data[0]);
    TableView(headers, ColIndices(headers), seq(|data|, i requires 0 <= i < |data| => RenderRow(headers, data[i])), Some(0))
  }

  /**
   * `load_inventory_table(data)`: no rows empties the table (headers and `col_indices` stay)
   * and clears the form; otherwise the headers and `col_indices` are rebuilt and, when every
   * cell converts, the rows are filled and the first row is selected and shown. A cell that
   * raises ends the load with an error.
   */
  function LoadInventoryTable(fs: FileSystem, folder: string, st: InventoryState, data: seq<Record>): (o: LoadOutcome)
    ensures data == [] ==> !o.failed && o.state == ClearForm(st.(table := st.table.(grid := [], selection := None)))
    ensures data != [] ==> o.state.table.headers == Keys(data[0]) && o.state.table.cols == ColIndices(Keys(data[0]))
    ensures o.failed <==> exists i :: 0 <= i < |data| && !RowConverts(Keys(data[0]), data[i])
    ensures !o.failed && data != [] ==>
              o.state.table == LoadedTable(data) && o.state == OnRowSelected(fs, folder, o.state, 0)
  {
    if data == [] then LoadOutcome(ClearForm(st.(table := st.table.(grid := [], selection := None))), false)
    else
      var headers := Keys(data[0]);
      if forall i :: 0 <= i < |data| ==> RowConverts(headers, data[i]) then
        var loaded := st.(table := LoadedTable(data));
        LoadOutcome(OnRowSelected(fs, folder, loaded, 0), false)
      else
        LoadOutcome(st.(table := st.table.(headers := headers, cols := ColIndices(headers))), true)
  }

  /** After a successful load, the quantity field of any selected row holds an integer. */
  lemma QuantityShownIsInteger(fs: FileSystem, folder: string, data: seq<Record>, row: nat)
    requires data != []
    requires forall i :: 0 <= i < |data| ==> RowConverts(Keys(data[0]), data[i])
    ensures var st := InventoryState(LoadedTable(data), BlankForm(DefaultImage));
            ParseInt(OnRowSelected(fs, folder, st, row).form.quantity).Some?
  {
    var t := LoadedTable(data);
    var q := GetValue(t.grid, t.cols, row, "current_quantity");
    if q != "" {
      var j := t.cols["current_quantity"];
      assert t.headers[j] == "current_quantity";
      assert Some(q) == CellText("current_quantity", Lookup(data[row], "current_quantity"));
    } else {
      IntTextRoundTrip(0);
      assert IntToText(0) == "0" by {
        assert NatToText(0) == "0";
      }
    }
  }

  /**
   * After a clean load, selecting a row whose record holds the quantity `n` shows a quantity
   * text that reads back as `n`: the placeholder never hides a recorded quantity.
   */
  lemma QuantityShownIsRecorded(fs: FileSystem, folder: string, data: seq<Record>, row: nat, n: int)
    requires data != []
    requires forall i :: 0 <= i < |data| ==> RowConverts(Keys(data[0]), data[i])
    requires row < |data| && "current_quantity" in Keys(data[0])
    requires Lookup(data[row], "current_quantity") == Some(IntCell(n))
    ensures var st := InventoryState(LoadedTable(data), BlankForm(DefaultImage));
            ParseInt(OnRowSelected(fs, folder, st, row).form.quantity) == Some(n)
  {
    var t := LoadedTable(data);
    var j := t.cols["current_quantity"];
    assert t.headers[j] == "current_quantity";
    var q := GetValue(t.grid, t.cols, row, "current_quantity");
    assert Some(q) == CellText("current_quantity", Lookup(data[row], "current_quantity"));
    assert q != "" by {
      assert ParseInt(q) == Some(n);
    }
  }

  // ---------------------------------------------------------------------------
  // Search
  // ---------------------------------------------------------------------------

  /** The twelve "search by" check boxes. */
  datatype SearchBoxes = SearchBoxes(
    id: bool, name: bool, size: bool, status: bool, invoice: bool, modinvoice: bool, note: bool,
    groups: bool, process: bool, model: bool, material: bool, storageLocation: bool)

  /** The form's search criteria in the order `search_inventory` reads them. */
  function SearchCriteria(f: Form, b: SearchBoxes): (cs: seq<Criterion>)
    ensures |cs| == 12 && DistinctKeys(cs)
  {
    [ Criterion.Typed("component_id", b.id, f.componentId, true),
      Criterion.Typed("component_name_contains", b.name, f.componentName, false),
      Criterion.Typed("size", b.size, f.size, false),
      Criterion.Chosen("status", b.status, f.status, false),
      Criterion.Typed("invoice", b.invoice, f.invoice, false),
      Criterion.Typed("modinvoice", b.modinvoice, f.modinvoice, false),
      Criterion.Typed("note_contains", b.note, f.note, false),
      Criterion.Picked("group_name", b.groups, f.groups),
      Criterion.Picked("process", b.process, f.process),
      Criterion.Picked("model", b.model, f.model),
      Criterion.Picked("material", b.material, f.material),
      Criterion.Chosen("storage_location", b.storageLocation, f.storageLocation, true) ]
  }

  /** The stock query a search makes. */
  datatype Query = FullStock | SearchStock(filters: FilterMap)

  /** `search_inventory`: the filter dictionary of the ticked, non-empty fields; none at all fetches the full stock. */
  function SearchInventory(f: Form, b: SearchBoxes): (q: Query)
    ensures q.SearchStock? ==> q.filters != map[]
  {
    var filters := AddCriteria(map[], SearchCriteria(f, b));
    if filters == map[] then FullStock else SearchStock(filters)
  }

  /** The full stock is fetched exactly when no ticked field holds anything. */
  lemma FullStockIff(f: Form, b: SearchBoxes)
    ensures SearchInventory(f, b) == FullStock <==>
              forall i :: 0 <= i < 12 ==> !Contributes(SearchCriteria(f, b)[i])
  {
    NothingAddedIff(map[], SearchCriteria(f, b));
  }

  /** Each criterion's key is in the dictionary exactly when its box is ticked and its field holds something. */
  lemma SearchKeyIff(f: Form, b: SearchBoxes, i: int)
    requires 0 <= i < 12
    requires SearchInventory(f, b).SearchStock?
    ensures var c := SearchCriteria(f, b)[i];
            (c.key in SearchInventory(f, b).filters <==> Contributes(c))
            && (Contributes(c) ==> SearchInventory(f, b).filters[c.key] == Value(c).value)
  {
    FilterPresentIff(map[], SearchCriteria(f, b), i);
  }

  /** A chosen storage location is searched as a one-element list. */
  lemma StorageLocationWrapped(f: Form, b: SearchBoxes)
    requires b.storageLocation && f.storageLocation != ""
    ensures SearchInventory(f, b).SearchStock?
    ensures "storage_location" in SearchInventory(f, b).filters
    ensures SearchInventory(f, b).filters["storage_location"] == Items([f.storageLocation])
  {
    var cs := SearchCriteria(f, b);
    FilterPresentIff(map[], cs, 11);
    NothingAddedIff(map[], cs);
  }

  /** A ticked id box searches the stripped, upper-cased id, when there is one. */
  lemma SearchIdUpper(f: Form, b: SearchBoxes)
    requires b.id && Upper(Strip(f.componentId)) != ""
    ensures SearchInventory(f, b).SearchStock?
    ensures "component_id" in SearchInventory(f, b).filters
    ensures SearchInventory(f, b).filters["component_id"] == Text(Upper(Strip(f.componentId)))
  {
    var cs := SearchCriteria(f, b);
    FilterPresentIff(map[], cs, 0);
    NothingAddedIff(map[], cs);
  }
}
