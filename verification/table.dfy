/**
 * Rows returned by the database layer, the header-to-column map both tabs build
 * (`col_indices`), the cell lookup they use to fill their forms (`get_value`), and the
 * comma-separated list cells (`", ".join` when shown, `parse_list` when read back).
 */
module Table {
  import opened Wrappers
  import opened Strings

  /** One field value of a database row. Quantities are integers here (floats are not modelled). */
  datatype Cell = NoneCell | IntCell(n: int) | TextCell(s: string) | ListCell(items: seq<string>)

  /** A database row: a Python dict, keys in insertion order. */
  type Record = seq<(string, Cell)>

  /** The rendered table: one list of cell texts per row. */
  type Grid = seq<seq<string>>

  /** A tab's table: header labels, `col_indices`, the rendered cells, and the selected row. */
  datatype TableView = TableView(headers: seq<string>, cols: map<string, nat>, grid: Grid, selection: Option<nat>)

  /**
   * The detail form beside a tab's table. The multi-select dropdowns hold item lists;
   * `image` is the photo path the preview label was last given, `""` before it is given one.
   */
  datatype Form = Form(
    componentId: string, componentName: string, size: string, quantity: string,
    unit: string, status: string, invoice: string, modinvoice: string, note: string,
    storageLocation: string,
    groups: seq<string>, process: seq<string>, model: seq<string>, material: seq<string>,
    image: string)

  /** A cleared form: no text, no selection, the given image. */
  function BlankForm(image: string): (f: Form)
    ensures f.componentId == "" && f.groups == [] && f.image == image
  {
    Form("", "", "", "", "", "", "", "", "", "", [], [], [], [], image)
  }

  /** `list(row.keys())`. */
  function Keys(r: Record): (keys: seq<string>)
    ensures |keys| == |r|
    ensures forall i :: 0 <= i < |r| ==> keys[i] == r[i].0
  {
    seq(|r|, i requires 0 <= i < |r| => r[i].0)
  }

  /** Where `key` first occurs among a row's keys, or -1. */
  function KeyIndex(r: Record, key: string): (i: int)
    ensures -1 <= i < |r|
    ensures i == -1 <==> forall j :: 0 <= j < |r| ==> r[j].0 != key
    ensures i >= 0 ==> r[i].0 == key && forall j :: 0 <= j < i ==> r[j].0 != key
  {
    if |r| == 0 then -1
    else if r[0].0 == key then 0
    else
      var i := KeyIndex(r[1..], key);
      if i == -1 then -1 else i + 1
  }

  /** `row.get(key)`: the value stored under `key`, `None` when the row has no such key. */
  function Lookup(r: Record, key: string): Option<Cell> {
    var i := KeyIndex(r, key);
    if i < 0 then None else Some(r[i].1)
  }

  /** `{h: i for i, h in enumerate(headers)}`: a later duplicate header overwrites an earlier one. */
  function ColIndices(headers: seq<string>): (cols: map<string, nat>)
    ensures forall h :: h in cols <==> h in headers
    ensures forall h :: h in cols ==> cols[h] < |headers| && headers[cols[h]] == h
    ensures forall h, j :: h in cols && cols[h] < j < |headers| ==> headers[j] != h
  {
    map h | h in headers :: LastIndex(headers, h) as nat
  }

  /** The position of the last occurrence of `x`, or -1 when there is none. */
  function LastIndex(xs: seq<string>, x: string): (r: int)
    ensures -1 <= r < |xs|
    ensures r == -1 <==> x !in xs
    ensures r >= 0 ==> xs[r] == x && forall j :: r < j < |xs| ==> xs[j] != x
  {
    if |xs| == 0 then -1
    else if xs[|xs| - 1] == x then |xs| - 1
    else
      var r := LastIndex(xs[..|xs| - 1], x);
      assert xs == xs[..|xs| - 1] + [xs[|xs| - 1]];
      r
  }

  predicate Distinct(xs: seq<string>) {
    forall i, j :: 0 <= i < j < |xs| ==> xs[i] != xs[j]
  }

  /** With distinct headers (as a dict's keys are), every header maps to its own position. */
  lemma ColIndicesOfDistinct(headers: seq<string>, i: int)
    requires Distinct(headers)
    requires 0 <= i < |headers|
    ensures headers[i] in ColIndices(headers)
    ensures ColIndices(headers)[headers[i]] == i
  {
    var cols := ColIndices(headers);
    var c := cols[headers[i]];
    assert headers[c] == headers[i];
  }

  /**
   * `get_value(col_name)` of both tabs: the text of the selected row's cell in the named
   * column, or `""` when the column is unknown or the table has no such cell.
   */
  function GetValue(grid: Grid, cols: map<string, nat>, row: int, name: string): (v: string)
    ensures name !in cols ==> v == ""
    ensures !(0 <= row < |grid|) ==> v == ""
    ensures name in cols && 0 <= row < |grid| && cols[name] < |grid[row]| ==> v == grid[row][cols[name]]
    ensures name in cols && 0 <= row < |grid| && cols[name] >= |grid[row]| ==> v == ""
  {
    if name !in cols then ""
    else if 0 <= row < |grid| && cols[name] < |grid[row]| then grid[row][cols[name]]
    else ""
  }

  /** `", ".join(items)`: how a list cell is shown in a table. */
  function ListText(items: seq<string>): string {
    Join(", ", items)
  }

  /** Every piece, stripped. */
  function StripEach(pieces: seq<string>): (r: seq<string>)
    ensures |r| == |pieces|
    ensures forall j :: 0 <= j < |pieces| ==> r[j] == Strip(pieces[j])
  {
    if |pieces| == 0 then [] else [Strip(pieces[0])] + StripEach(pieces[1..])
  }

  /** `a` is `b` with some elements dropped, order kept. */
  predicate IsSubseq(a: seq<string>, b: seq<string>)
    decreases |b|
  {
    if a == [] then true
    else if b == [] then false
    else if a[0] == b[0] then IsSubseq(a[1..], b[1..])
    else IsSubseq(a, b[1..])
  }

  lemma {:induction false} SubseqPrefix(a: seq<string>, b: seq<string>, k: nat)
    requires IsSubseq(a, b) && k <= |a|
    ensures IsSubseq(a[..k], b)
    decreases |b|
  {
    if k > 0 && b != [] {
      if a[0] == b[0] {
        SubseqPrefix(a[1..], b[1..], k - 1);
        assert a[1..][..k - 1] == a[..k][1..];
      } else {
        SubseqPrefix(a, b[1..], k);
      }
    }
  }

  /**
   * The non-empty strings of `xs`, in order: a subsequence of `xs` holding every non-empty
   * string exactly as often as `xs` does, and no empty one.
   */
  function NonEmpty(xs: seq<string>): (r: seq<string>)
    ensures |r| <= |xs|
    ensures forall i :: 0 <= i < |r| ==> r[i] != "" && r[i] in xs
    ensures IsSubseq(r, xs)
    ensures forall x :: x != "" ==> multiset(r)[x] == multiset(xs)[x]
  {
    if |xs| == 0 then []
    else
      var rest := NonEmpty(xs[1..]);
      assert forall x :: x in xs[1..] ==> x in xs;
      assert xs == [xs[0]] + xs[1..];
      if xs[0] != "" then [xs[0]] + rest else rest
  }

  lemma {:induction false} NonEmptyKeepsAll(xs: seq<string>)
    requires forall i :: 0 <= i < |xs| ==> xs[i] != ""
    ensures NonEmpty(xs) == xs
  {
    if |xs| > 0 {
      NonEmptyKeepsAll(xs[1..]);
    }
  }

  /**
   * The stripped, non-empty pieces, in order: each kept item is the strip of some piece, and
   * the strip of every piece that is not blank is kept.
   */
  function CleanPieces(pieces: seq<string>): (r: seq<string>)
    ensures |r| <= |pieces|
    ensures forall i :: 0 <= i < |r| ==> r[i] != "" && r[i] in StripEach(pieces)
    ensures IsSubseq(r, StripEach(pieces))
    ensures forall j :: 0 <= j < |pieces| && Strip(pieces[j]) != "" ==> Strip(pieces[j]) in r
    ensures forall x :: x != "" ==> multiset(r)[x] == multiset(StripEach(pieces))[x]
  {
    var stripped := StripEach(pieces);
    var r := NonEmpty(stripped);
    assert forall j :: 0 <= j < |pieces| && Strip(pieces[j]) != "" ==> Strip(pieces[j]) in r by {
      forall j | 0 <= j < |pieces| && Strip(pieces[j]) != "" ensures Strip(pieces[j]) in r {
        assert stripped[j] in multiset(stripped);
      }
    }
    r
  }

  /**
   * `parse_list(text)`: `[]` for empty text, otherwise the comma-separated pieces, stripped,
   * with the empty ones dropped. No item is empty, padded, or holds a comma.
   */
  function ParseList(text: string): (items: seq<string>)
    ensures text == "" ==> items == []
    ensures forall i :: 0 <= i < |items| ==> items[i] != "" && IsStripped(items[i]) && ',' !in items[i]
    ensures |items| <= |Split(text, ',')|
    ensures text != "" ==> IsSubseq(items, StripEach(Split(text, ',')))
    ensures text != "" ==> forall j :: 0 <= j < |Split(text, ',')| && Strip(Split(text, ',')[j]) != "" ==>
                             Strip(Split(text, ',')[j]) in items
    ensures text != "" ==> forall x :: x != "" ==> multiset(items)[x] == multiset(StripEach(Split(text, ',')))[x]
  {
    if text == "" then []
    else
      var pieces := Split(text, ',');
      var items := CleanPieces(pieces);
      assert forall i :: 0 <= i < |items| ==> IsStripped(items[i]) && ',' !in items[i] by {
        forall i | 0 <= i < |items| ensures IsStripped(items[i]) && ',' !in items[i] {
          var j :| 0 <= j < |pieces| && StripEach(pieces)[j] == items[i];
          assert ',' !in pieces[j];
        }
      }
      items
  }

  /** An item a list cell can carry through a show-then-parse cycle unchanged. */
  predicate IsListItem(x: string) {
    x != "" && IsStripped(x) && ',' !in x
  }

  function SpaceEach(xs: seq<string>): (r: seq<string>)
    ensures |r| == |xs|
    ensures forall i :: 0 <= i < |xs| ==> r[i] == " " + xs[i]
  {
    seq(|xs|, i requires 0 <= i < |xs| => " " + xs[i])
  }

  lemma {:induction false} CommaSpaceJoin(items: seq<string>)
    requires |items| >= 1
    ensures Join(", ", items) == Join(",", [items[0]] + SpaceEach(items[1..]))
  {
    if |items| > 1 {
      var tail := items[1..];
      CommaSpaceJoin(tail);
      assert SpaceEach(tail) == [" " + tail[0]] + SpaceEach(tail[1..]);
      JoinPrepend(",", " ", tail[0], SpaceEach(tail[1..]));
      assert ([items[0]] + SpaceEach(tail))[1..] == SpaceEach(tail);
    }
  }

  /** A list item after the join's space strips back to itself. */
  lemma StripSpaced(x: string)
    requires IsStripped(x)
    ensures Strip(" " + x) == x
  {
    StripOfPadded(" ", x, "");
    assert " " + x + "" == " " + x;
  }

  lemma StripEachCons(a: string, ys: seq<string>)
    ensures StripEach([a] + ys) == [Strip(a)] + StripEach(ys)
  {
    assert ([a] + ys)[1..] == ys;
  }

  /** Items that are already stripped come back from their space-prefixed forms. */
  lemma {:induction false} StripSpaceEach(xs: seq<string>)
    requires forall i :: 0 <= i < |xs| ==> IsStripped(xs[i])
    ensures StripEach(SpaceEach(xs)) == xs
  {
    if |xs| > 0 {
      StripSpaced(xs[0]);
      assert SpaceEach(xs)[1..] == SpaceEach(xs[1..]);
      StripSpaceEach(xs[1..]);
      assert xs == [xs[0]] + xs[1..];
    }
  }

  /** The pieces of a `", "` join, stripped, are the items again. */
  lemma StripJoinedPieces(items: seq<string>)
    requires |items| >= 1
    requires forall i :: 0 <= i < |items| ==> IsListItem(items[i])
    ensures StripEach([items[0]] + SpaceEach(items[1..])) == items
  {
    StripEachCons(items[0], SpaceEach(items[1..]));
    StripSpaceEach(items[1..]);
    StripStripped(items[0]);
    assert items == [items[0]] + items[1..];
  }

  /**
   * Showing a list cell with `", ".join` and reading it back with `parse_list` gives the
   * same items, provided each is non-empty, unpadded and comma-free.
   */
  lemma ParseListText(items: seq<string>)
    requires forall i :: 0 <= i < |items| ==> IsListItem(items[i])
    ensures ParseList(ListText(items)) == items
  {
    if |items| > 0 {
      var pieces := [items[0]] + SpaceEach(items[1..]);
      CommaSpaceJoin(items);
      assert forall j :: 0 <= j < |pieces| ==> ',' !in pieces[j];
      SplitJoin(pieces, ',');
      var text := ListText(items);
      assert text != "" by {
        JoinSplit("", ',');
        assert Split("", ',') == [""];
      }
      assert Split(text, ',') == pieces;
      StripJoinedPieces(items);
      NonEmptyKeepsAll(items);
      assert ParseList(text) == CleanPieces(pieces);
    }
  }

  /**
   * `str(value)` of a row's value as both tabs show it: a missing key reads as `""`, `None`
   * shows `"None"`, an integer its decimal text, a list its `", "` join.
   */
  function ShowCell(v: Option<Cell>): (t: string)
    ensures v.None? ==> t == ""
    ensures v == Some(NoneCell) ==> t == "None"
    ensures v.Some? && v.value.IntCell? ==> t == IntToText(v.value.n)
    ensures v.Some? && v.value.TextCell? ==> t == v.value.s
    ensures v.Some? && v.value.ListCell? ==> t == ListText(v.value.items)
  {
    match v
    case None => ""
    case Some(NoneCell) => "None"
    case Some(IntCell(n)) => IntToText(n)
    case Some(TextCell(s)) => s
    case Some(ListCell(items)) => ListText(items)
  }

  /**
   * What a shown cell gives back when read: an integer cell parses to its integer, and a list
   * cell of proper items parses with `parse_list` to its items.
   */
  lemma ShowCellReadBack(v: Option<Cell>)
    ensures v.Some? && v.value.IntCell? ==> ParseInt(ShowCell(v)) == Some(v.value.n)
    ensures v.Some? && v.value.ListCell? && (forall k :: 0 <= k < |v.value.items| ==> IsListItem(v.value.items[k])) ==>
              ParseList(ShowCell(v)) == v.value.items
  {
    match v
    case Some(IntCell(n)) => IntTextRoundTrip(n);
    case Some(ListCell(items)) =>
      if forall k :: 0 <= k < |items| ==> IsListItem(items[k]) {
        ParseListText(items);
      }
    case _ =>
  }
}
