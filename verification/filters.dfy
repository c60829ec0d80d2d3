/**
 * The search dictionaries both tabs build from their form: one entry per ticked search
 * box whose field holds something, keyed by the database column the field searches.
 */
module Filters {
  import opened Wrappers
  import opened Strings

  /** A filter value: one text, or a list of texts (multi-selections and the storage location). */
  datatype FilterValue = Text(text: string) | Items(items: seq<string>)

  /** A search dictionary. */
  type FilterMap = map<string, FilterValue>

  /** One search box of a form, with the field it reads and how the field's value is taken. */
  datatype Criterion =
    /** A line edit: stripped, and upper-cased when `upper`. */
    | Typed(key: string, checked: bool, text: string, upper: bool)
    /** A combo box's current text, taken as is; wrapped in a one-element list when `wrap`. */
    | Chosen(key: string, checked: bool, text: string, wrap: bool)
    /** A multi-select dropdown's selected items. */
    | Picked(key: string, checked: bool, items: seq<string>)

  /** The value the criterion adds to the dictionary, `None` when its box is not ticked or it is empty. */
  function Value(c: Criterion): (v: Option<FilterValue>)
    ensures !c.checked ==> v.None?
    ensures v.Some? && v.value.Text? ==> v.value.text != ""
    ensures v.Some? && v.value.Items? ==> v.value.items != []
    ensures c.Typed? ==> (v.Some? <==> c.checked && Strip(c.text) != "")
    ensures c.Typed? && v.Some? && !c.upper ==> v.value == Text(Strip(c.text))
    ensures c.Typed? && v.Some? && c.upper ==> v.value == Text(Upper(Strip(c.text)))
    ensures c.Chosen? ==> (v.Some? <==> c.checked && c.text != "")
    ensures c.Chosen? && v.Some? ==> v.value == if c.wrap then Items([c.text]) else Text(c.text)
    ensures c.Picked? ==> (v.Some? <==> c.checked && c.items != [])
    ensures c.Picked? && v.Some? ==> v.value == Items(c.items)
  {
    if !c.checked then None
    else
      match c
      case Typed(_, _, text, upper) =>
        var t := Strip(text);
        var t' := if upper then Upper(t) else t;
        if t' == "" then None else Some(Text(t'))
      case Chosen(_, _, text, wrap) =>
        if text == "" then None
        else if wrap then Some(Items([text]))
        else Some(Text(text))
      case Picked(_, _, items) =>
        if items == [] then None else Some(Items(items))
  }

  predicate Contributes(c: Criterion) {
    Value(c).Some?
  }

  /** A criterion once read from the form: the key and what it adds, if anything. */
  datatype Entry = Entry(key: string, value: Option<FilterValue>)

  function Evaluate(cs: seq<Criterion>): (es: seq<Entry>)
    ensures |es| == |cs|
    ensures forall i :: 0 <= i < |cs| ==> es[i] == Entry(cs[i].key, Value(cs[i]))
  {
    seq(|cs|, i requires 0 <= i < |cs| => Entry(cs[i].key, Value(cs[i])))
  }

  /** Adds the entries to `base` in order, as the chain of `if ...: filters[key] = value` does. */
  function AddEntries(base: FilterMap, es: seq<Entry>): FilterMap {
    if |es| == 0 then base
    else
      var n := |es| - 1;
      var m := AddEntries(base, es[..n]);
      if es[n].value.Some? then m[es[n].key := es[n].value.value] else m
  }

  function AddCriteria(base: FilterMap, cs: seq<Criterion>): FilterMap {
    AddEntries(base, Evaluate(cs))
  }

  /** A key is present iff `base` has it or some entry for that key carries a value. */
  lemma {:induction false} AddEntriesKeys(base: FilterMap, es: seq<Entry>, k: string)
    ensures k in AddEntries(base, es) <==>
              k in base || exists i :: 0 <= i < |es| && es[i].key == k && es[i].value.Some?
  {
    if |es| > 0 {
      var n := |es| - 1;
      var front := es[..n];
      AddEntriesKeys(base, front, k);
      assert forall i :: 0 <= i < n ==> front[i] == es[i];
    }
  }

  /** The last entry for a key that carries a value decides the key's value. */
  lemma {:induction false} AddEntriesLastWins(base: FilterMap, es: seq<Entry>, i: int)
    requires 0 <= i < |es| && es[i].value.Some?
    requires forall j :: i < j < |es| ==> es[j].key != es[i].key
    ensures es[i].key in AddEntries(base, es)
    ensures AddEntries(base, es)[es[i].key] == es[i].value.value
  {
    var n := |es| - 1;
    if i < n {
      var front := es[..n];
      assert front[i] == es[i];
      AddEntriesLastWins(base, front, i);
    }
  }

  /** A key no entry names keeps its `base` value. */
  lemma {:induction false} AddEntriesKeepsBase(base: FilterMap, es: seq<Entry>, k: string)
    requires k in base
    requires forall i :: 0 <= i < |es| ==> es[i].key != k
    ensures k in AddEntries(base, es) && AddEntries(base, es)[k] == base[k]
  {
    if |es| > 0 {
      var n := |es| - 1;
      AddEntriesKeepsBase(base, es[..n], k);
    }
  }

  predicate DistinctKeys(cs: seq<Criterion>) {
    forall i, j :: 0 <= i < j < |cs| ==> cs[i].key != cs[j].key
  }

  /** With one criterion per key, each key is present exactly when its box is ticked and non-empty. */
  lemma FilterPresentIff(base: FilterMap, cs: seq<Criterion>, i: int)
    requires DistinctKeys(cs)
    requires 0 <= i < |cs|
    requires cs[i].key !in base
    ensures cs[i].key in AddCriteria(base, cs) <==> Contributes(cs[i])
    ensures Contributes(cs[i]) ==> AddCriteria(base, cs)[cs[i].key] == Value(cs[i]).value
  {
    var es := Evaluate(cs);
    AddEntriesKeys(base, es, cs[i].key);
    if Contributes(cs[i]) {
      AddEntriesLastWins(base, es, i);
    }
  }

  /** The dictionary stays equal to `base` exactly when no criterion contributes. */
  lemma NothingAddedIff(base: FilterMap, cs: seq<Criterion>)
    requires forall i :: 0 <= i < |cs| ==> cs[i].key !in base
    ensures AddCriteria(base, cs) == base <==> forall i :: 0 <= i < |cs| ==> !Contributes(cs[i])
  {
    var es := Evaluate(cs);
    var m := AddCriteria(base, cs);
    if exists i :: 0 <= i < |cs| && Contributes(cs[i]) {
      var i :| 0 <= i < |cs| && Contributes(cs[i]);
      AddEntriesKeys(base, es, cs[i].key);
      assert cs[i].key in m && cs[i].key !in base;
    } else {
      forall k ensures k in m <==> k in base {
        AddEntriesKeys(base, es, k);
      }
      forall k | k in base ensures m[k] == base[k] {
        AddEntriesKeepsBase(base, es, k);
      }
    }
  }
}
