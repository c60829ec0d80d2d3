/**
 * The three pieces of logic in `modules/ui/main_window.py` that are not widget wiring:
 * extracting an invoice name from copied text (`cat_chuoi_invoice`), which tabs a role
 * sees, and the per-team options memo (`load_categories_once`).
 */
module MainWindow {
  import opened Wrappers
  import opened Strings

  // ---------------------------------------------------------------------------
  // Invoice name extraction
  // ---------------------------------------------------------------------------

  /** U+2010 HYPHEN, U+2013 EN DASH and U+2014 EM DASH, which are read as `-`. */
  predicate IsUnicodeDash(c: char) {
    c == '\U{2010}' || c == '\U{2013}' || c == '\U{2014}'
  }

  /** The three chained `replace` calls: every Unicode dash becomes `-`, nothing else moves. */
  function NormalizeDashes(text: string): (r: string)
    ensures |r| == |text|
    ensures forall i :: 0 <= i < |text| ==> r[i] == if IsUnicodeDash(text[i]) then '-' else text[i]
  {
    ReplaceChar(ReplaceChar(ReplaceChar(text, '\U{2010}', '-'), '\U{2013}', '-'), '\U{2014}', '-')
  }

  /** The text every branch works on: dashes normalised, then stripped. */
  function Cleaned(text: string): (t: string)
    ensures IsStripped(t)
    ensures forall c :: c in t ==> !IsUnicodeDash(c)
  {
    var n := NormalizeDashes(text);
    var t := Strip(n);
    assert forall c :: c in n ==> !IsUnicodeDash(c);
    t
  }

  /** `part.upper().startswith("CBW")`. */
  predicate StartsCbw(part: string) {
    StartsWith(Upper(part), "CBW")
  }

  /** The position of the first part that starts with `CBW` in any case, if there is one. */
  function FirstCbw(parts: seq<string>): (r: Option<nat>)
    ensures r.None? <==> forall j :: 0 <= j < |parts| ==> !StartsCbw(parts[j])
    ensures r.Some? ==> r.value < |parts| && StartsCbw(parts[r.value])
    ensures r.Some? ==> forall j :: 0 <= j < r.value ==> !StartsCbw(parts[j])
  {
    if |parts| == 0 then None
    else if StartsCbw(parts[0]) then Some(0)
    else
      match FirstCbw(parts[1..])
      case None => None
      case Some(i) => Some(i + 1)
  }

  /** The `_` branch: the first part that starts with `CBW`, else the last part, stripped. */
  function NameFromParts(parts: seq<string>): (r: string)
    requires |parts| >= 1
    ensures IsStripped(r)
    ensures forall c :: c in r ==> exists i :: 0 <= i < |parts| && c in parts[i]
  {
    match FirstCbw(parts)
    case Some(i) => Strip(parts[i])
    case None => Strip(parts[|parts| - 1])
  }

  /** The `-` branch: the text before the last `-`, unless that `-` is the first character. */
  function NameBeforeLastDash(t: string): (r: string)
    ensures IsStripped(r)
    ensures forall c :: c in r ==> c in t
  {
    var dash := RFind(t, '-');
    if dash > 0 then Strip(t[..dash]) else Strip(t)
  }

  /**
   * `cat_chuoi_invoice(text)`: the invoice name inside copied text. The result is stripped,
   * holds no `_` and no Unicode dash, and all its characters come from the cleaned text.
   */
  function InvoiceName(text: string): (r: string)
    ensures IsStripped(r)
    ensures '_' !in r
    ensures forall c :: c in r ==> !IsUnicodeDash(c) && c in Cleaned(text)
  {
    var t := Cleaned(text);
    if '_' in t then
      var parts := Split(t, '_');
      assert forall i, c :: 0 <= i < |parts| && c in parts[i] ==> c in t by {
        JoinSplit(t, '_');
        forall i, c | 0 <= i < |parts| && c in parts[i] ensures c in t {
          CharOfJoinedPart(parts, "_", i, c);
        }
      }
      NameFromParts(parts)
    else
      NameBeforeLastDash(t)
  }

  /** A character of one of the joined parts is a character of the joined text. */
  lemma {:induction false} CharOfJoinedPart(parts: seq<string>, sep: string, i: int, c: char)
    requires 0 <= i < |parts| && c in parts[i]
    ensures c in Join(sep, parts)
  {
    if |parts| > 1 {
      if i > 0 {
        CharOfJoinedPart(parts[1..], sep, i - 1, c);
      }
    }
  }

  /** With `_` present, the first part that starts with `CBW` in any case is the name. */
  lemma InvoiceNamePrefersCbw(text: string, i: int)
    requires '_' in Cleaned(text)
    requires 0 <= i < |Split(Cleaned(text), '_')|
    requires StartsCbw(Split(Cleaned(text), '_')[i])
    requires forall j :: 0 <= j < i ==> !StartsCbw(Split(Cleaned(text), '_')[j])
    ensures InvoiceName(text) == Strip(Split(Cleaned(text), '_')[i])
  {
    var parts := Split(Cleaned(text), '_');
    assert InvoiceName(text) == NameFromParts(parts);
    NameFromPartsPrefersCbw(parts, i);
  }

  lemma NameFromPartsPrefersCbw(parts: seq<string>, i: int)
    requires 0 <= i < |parts|
    requires StartsCbw(parts[i])
    requires forall j :: 0 <= j < i ==> !StartsCbw(parts[j])
    ensures NameFromParts(parts) == Strip(parts[i])
  {
    var first := FirstCbw(parts);
    assert first == Some(i) by {
      assert first.Some?;
      assert !(first.value < i);
      assert !(i < first.value);
    }
  }

  /** With `_` present and no part starting with `CBW`, the last part is the name. */
  lemma InvoiceNameLastPart(text: string)
    requires '_' in Cleaned(text)
    requires forall p :: p in Split(Cleaned(text), '_') ==> !StartsCbw(p)
    ensures var parts := Split(Cleaned(text), '_');
            InvoiceName(text) == Strip(parts[|parts| - 1])
  {
    var parts := Split(Cleaned(text), '_');
    assert InvoiceName(text) == NameFromParts(parts);
    assert forall j :: 0 <= j < |parts| ==> parts[j] in parts;
  }

  /** Without `_`, the text is cut at its last `-` when that `-` is not the first character. */
  lemma InvoiceNameCutsAtLastDash(text: string, k: int)
    requires '_' !in Cleaned(text)
    requires 0 < k < |Cleaned(text)| && Cleaned(text)[k] == '-'
    requires '-' !in Cleaned(text)[k + 1..]
    ensures InvoiceName(text) == Strip(Cleaned(text)[..k])
  {
    var t := Cleaned(text);
    assert InvoiceName(text) == NameBeforeLastDash(t);
    var dash := RFind(t, '-');
    assert dash == k;
  }

  /** Without `_` and with no `-` past the first character, the cleaned text is the name. */
  lemma InvoiceNameWholeText(text: string)
    requires '_' !in Cleaned(text)
    requires forall k :: 0 < k < |Cleaned(text)| ==> Cleaned(text)[k] != '-'
    ensures InvoiceName(text) == Cleaned(text)
  {
    var t := Cleaned(text);
    StripStripped(t);
    var dash := RFind(t, '-');
    assert dash <= 0;
  }

  /** Text that is already stripped and holds no Unicode dash is its own cleaned form. */
  lemma CleanedOfClean(text: string)
    requires IsStripped(text)
    requires forall c :: c in text ==> !IsUnicodeDash(c)
    ensures Cleaned(text) == text
  {
    var n := NormalizeDashes(text);
    assert n == text;
    StripStripped(text);
  }

  /** Clean text without `_` and without a `-` past its first character is returned as is. */
  lemma InvoiceNameOfPlainText(t: string)
    requires IsStripped(t)
    requires forall c :: c in t ==> !IsUnicodeDash(c) && c != '_'
    requires forall k :: 0 < k < |t| ==> t[k] != '-'
    ensures InvoiceName(t) == t
  {
    CleanedOfClean(t);
    var c := Cleaned(t);
    assert c == t;
    assert '_' !in c;
    assert forall k :: 0 < k < |c| ==> c[k] != '-';
    InvoiceNameWholeText(t);
  }

  /** A lone leading `-` does not cut: "-123" stays "-123". */
  lemma LeadingDashKept(digits: string)
    requires digits != [] && AllDigits(digits)
    ensures InvoiceName("-" + digits) == "-" + digits
  {
    var t := "-" + digits;
    assert forall i :: 0 < i < |t| ==> t[i] == digits[i - 1];
    assert IsStripped(t);
    assert forall c :: c in t ==> c == '-' || IsDigit(c);
    InvoiceNameOfPlainText(t);
  }

  // ---------------------------------------------------------------------------
  // Tabs by role
  // ---------------------------------------------------------------------------

  /** `role_tabs`: the tab positions each known role may see. */
  const RoleTabs: map<string, seq<nat>> := map[
    "admin" := [0, 1, 2, 3, 4, 5, 6, 7, 8],
    "manager" := [1, 2, 5, 6],
    "user" := [1, 5, 6],
    "viewer" := [5, 6]
  ]

  /** `role_tabs.get(role, [5, 6])`: an unknown role gets the viewer's tabs. */
  function AllowedTabs(role: string): seq<nat> {
    if role in RoleTabs then RoleTabs[role] else [5, 6]
  }

  /**
   * The loop over `tab_widget.count()` tabs: tab `i` is made visible exactly when `i` is in
   * the role's list, and hidden otherwise.
   */
  method TabVisibility(role: string, count: nat) returns (visible: seq<bool>)
    ensures |visible| == count
    ensures forall i :: 0 <= i < count ==> (visible[i] <==> i in AllowedTabs(role))
  {
    var allowed := AllowedTabs(role);
    visible := [];
    var i := 0;
    while i < count
      invariant 0 <= i <= count
      invariant |visible| == i
      invariant forall j :: 0 <= j < i ==> (visible[j] <==> j in allowed)
    {
      if i !in allowed {
        visible := visible + [false];
      } else {
        visible := visible + [true];
      }
      i := i + 1;
    }
  }

  /** A role the table does not know sees exactly what a viewer sees. */
  lemma UnknownRoleIsViewer(role: string)
    requires role !in RoleTabs
    ensures AllowedTabs(role) == AllowedTabs("viewer")
  {
  }

  /** The roles are nested: every tab a viewer sees a user sees, and so on up to admin. */
  lemma RolesNested(i: nat)
    ensures i in AllowedTabs("viewer") ==> i in AllowedTabs("user")
    ensures i in AllowedTabs("user") ==> i in AllowedTabs("manager")
    ensures i in AllowedTabs("manager") ==> i in AllowedTabs("admin")
    ensures i in AllowedTabs("admin") <==> i < 9
  {
  }

  /** Whatever the role, tabs 5 and 6 are visible. */
  lemma EveryRoleSeesFiveAndSix(role: string)
    ensures 5 in AllowedTabs(role) && 6 in AllowedTabs(role)
  {
  }

  // ---------------------------------------------------------------------------
  // Options memo
  // ---------------------------------------------------------------------------

  /** The dropdown options of a team: option group name to its items. */
  type Options = map<string, seq<string>>

  /** `user_info.get("team_id")`, which may be missing. */
  type TeamId = Option<int>

  /** How the `get_all_categories` call would end if it were made now. */
  datatype Fetch = Fetched(options: Options) | FetchFailed

  datatype MemoResult = MemoResult(cache: map<TeamId, Options>, options: Options, fetched: bool)

  /**
   * `load_categories_once(team_id)`: the first call for a team fetches and stores the
   * options (`{}` when the fetch fails); every later call returns what was stored without
   * fetching. Other teams' entries never change.
   */
  function LoadCategoriesOnce(cache: map<TeamId, Options>, team: TeamId, fetch: Fetch): (r: MemoResult)
    ensures team in r.cache && r.options == r.cache[team]
    ensures r.fetched <==> team !in cache
    ensures team in cache ==> r.cache == cache
    ensures team !in cache ==> r.options == (if fetch.Fetched? then fetch.options else map[])
    ensures forall t :: t != team ==> (t in r.cache <==> t in cache)
    ensures forall t :: t != team && t in cache ==> r.cache[t] == cache[t]
  {
    if team !in cache then
      var stored := match fetch case Fetched(o) => o case FetchFailed => map[];
      MemoResult(cache[team := stored], stored, true)
    else MemoResult(cache, cache[team], false)
  }

  /** A second call for the same team never fetches and returns what the first call stored. */
  lemma SecondLoadIsMemoised(cache: map<TeamId, Options>, team: TeamId, first: Fetch, second: Fetch)
    ensures var r1 := LoadCategoriesOnce(cache, team, first);
            var r2 := LoadCategoriesOnce(r1.cache, team, second);
            !r2.fetched && r2.options == r1.options && r2.cache == r1.cache
  {
  }
}
