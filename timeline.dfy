/** The timeline explorer as a state machine over values: which timeline
    items carry "is-hidden", which timeline buttons carry "is-active", the
    pinned button, the detail card's four texts and the filter buttons'
    "is-active" class and `aria-pressed` attribute. Every timeline item
    holds exactly one timeline button, so button `i` is the button of item
    `i` and both lists are in document order. */
module Timeline {
  import opened Js

  /** The `data-*` attributes of a timeline button. */
  datatype Button = Button(kind: Option<string>, title: Option<string>,
                           period: Option<string>, description: Option<string>)

  /** A `.timeline-item`: its `data-type` and its button. */
  datatype Item = Item(kind: Option<string>, button: Button)

  /** The four texts of the detail card. */
  datatype Detail = Detail(kind: string, title: string, period: string, description: string)

  datatype State = State(
    items: seq<Item>,
    hidden: seq<bool>,        // item k carries "is-hidden"
    active: seq<bool>,        // button k carries "is-active"
    pinned: nat,              // index of `pinnedButton`
    detail: Detail,
    filters: seq<Option<string>>,  // `data-filter` of each filter button
    filterActive: seq<bool>,       // filter button k carries "is-active"
    filterPressed: seq<bool>)      // filter button k has aria-pressed="true"

  /** The explorer exists only with at least one timeline button
      (script.js:146); the per-element lists have one entry per element. */
  predicate Valid(s: State)
  {
    |s.items| > 0 && |s.hidden| == |s.items| && |s.active| == |s.items|
    && s.pinned < |s.items|
    && |s.filterActive| == |s.filters| && |s.filterPressed| == |s.filters|
  }

  /** What the detail card shows for a button; missing or empty attributes
      read as "Timeline" for the type and as "" for the rest. */
  function DetailOf(b: Button): (d: Detail)
    ensures d.kind != ""
    ensures d.kind == "Timeline" <==> b.kind in {None, Some(""), Some("Timeline")}
    ensures b.kind.Some? && b.kind.value != "" ==> d.kind == b.kind.value
    ensures d.title == "" <==> b.title in {None, Some("")}
    ensures b.title.Some? ==> d.title == b.title.value
    ensures b.period.Some? ==> d.period == b.period.value
    ensures b.description.Some? ==> d.description == b.description.value
    ensures b.period.None? ==> d.period == ""
    ensures b.description.None? ==> d.description == ""
  {
    assert b.kind.Some? && b.kind.value == "Timeline" ==> Or(b.kind, "Timeline") == "Timeline";
    Detail(Or(b.kind, "Timeline"), Or(b.title, ""), Or(b.period, ""), Or(b.description, ""))
  }

  /** `item.dataset.type || ""`. */
  function ItemType(it: Item): (t: string)
    ensures it.kind.Some? ==> t == it.kind.value
    ensures it.kind.None? ==> t == ""
  {
    Or(it.kind, "")
  }

  /** The visibility test of `applyFilter`. */
  predicate Matches(filter: string, it: Item)
  {
    filter == "all" || ItemType(it) == filter
  }

  /** The value a filter button applies: `data-filter`, or "all". */
  function FilterValue(dataFilter: Option<string>): (f: string)
    ensures f != ""
    ensures dataFilter.None? || dataFilter == Some("") ==> f == "all"
    ensures dataFilter.Some? && dataFilter.value != "" ==> f == dataFilter.value
  {
    Or(dataFilter, "all")
  }

  /** The indices of the buttons whose item is not hidden, in document
      order: the `visibleButtons` list of the keydown handler. */
  function VisibleIndices(hidden: seq<bool>): (r: seq<nat>)
    ensures forall i :: 0 <= i < |r| ==> r[i] < |hidden| && !hidden[r[i]]
    ensures forall k :: 0 <= k < |hidden| && !hidden[k] ==> k in r
    ensures forall i, j :: 0 <= i < j < |r| ==> r[i] < r[j]
  {
    if |hidden| == 0 then []
    else
      var prefix := VisibleIndices(hidden[..|hidden| - 1]);
      if hidden[|hidden| - 1] then prefix else prefix + [|hidden| - 1]
  }

  /** The first item not hidden, if any: the `find` of `applyFilter`. */
  function FirstVisible(hidden: seq<bool>): (r: Option<nat>)
    ensures r.None? <==> forall k :: 0 <= k < |hidden| ==> hidden[k]
    ensures r.Some? ==> r.value < |hidden| && !hidden[r.value]
                        && forall k :: 0 <= k < r.value ==> hidden[k]
  {
    var visible := VisibleIndices(hidden);
    if |visible| == 0 then None
    else
      Some(visible[0])
  }

  /** The index the arrow keys move to in a list of `n` visible buttons:
      one step down or up, clamped at both ends. */
  function Step(down: bool, i: nat, n: nat): (j: nat)
    requires i < n
    ensures j < n
    ensures down && i + 1 < n ==> j == i + 1
    ensures down && i + 1 == n ==> j == i
    ensures !down && i > 0 ==> j == i - 1
    ensures !down && i == 0 ==> j == 0
  {
    if down then Min(i + 1, n - 1) else Max(i - 1, 0)
  }

  /** `b` is the one active button and the card shows it. */
  predicate Shows(s: State, b: nat)
  {
    b < |s.items| && |s.active| == |s.items|
    && (forall j :: 0 <= j < |s.active| ==> (s.active[j] <==> j == b))
    && s.detail == DetailOf(s.items[b].button)
  }

  /** Exactly one button is active and the card shows that button. */
  predicate Coherent(s: State)
  {
    Valid(s) && exists b :: 0 <= b < |s.items| && Shows(s, b)
  }

  /** `setDetail(button)`. */
  function SetDetail(s: State, b: nat): (r: State)
    requires Valid(s) && b < |s.items|
    ensures Valid(r) && Shows(r, b)
    ensures r.items == s.items && r.hidden == s.hidden && r.pinned == s.pinned
    ensures r.filters == s.filters && r.filterActive == s.filterActive
    ensures r.filterPressed == s.filterPressed
  {
    s.(active := seq(|s.items|, j => j == b), detail := DetailOf(s.items[b].button))
  }

  /** "is-hidden" on every item that does not match `filter`. */
  function HiddenFor(items: seq<Item>, filter: string): (h: seq<bool>)
    ensures |h| == |items|
  {
    seq(|items|, k requires 0 <= k < |items| => !Matches(filter, items[k]))
  }

  /** `applyFilter(filter)`: hide the items that do not match, then stop if
      nothing is left, keep and show a visible pin, or else pin and show
      the first visible item's button. */
  function ApplyFilter(s: State, filter: string): (r: State)
    requires Valid(s)
    ensures Valid(r) && r.items == s.items && r.hidden == HiddenFor(s.items, filter)
    ensures r.filters == s.filters && r.filterActive == s.filterActive
    ensures r.filterPressed == s.filterPressed
  {
    var hidden := HiddenFor(s.items, filter);
    var t := s.(hidden := hidden);
    match FirstVisible(hidden)
    case None => t
    case Some(first) =>
      if !hidden[s.pinned] then SetDetail(t, s.pinned)
      else SetDetail(t.(pinned := first), first)
  }

  /** The focus handler of button `b`. */
  function Focus(s: State, b: nat): (r: State)
    requires Valid(s) && b < |s.items|
    ensures Valid(r) && Shows(r, b) && r.pinned == s.pinned
  {
    SetDetail(s, b)
  }

  /** The click handler of button `b`. */
  function Click(s: State, b: nat): (r: State)
    requires Valid(s) && b < |s.items|
    ensures Valid(r) && Shows(r, b) && r.pinned == b
  {
    SetDetail(s.(pinned := b), b)
  }

  /** The keydown handler of the focused button `b`. `nextButton.focus()`
      runs the target's focus handler when focus moves to another button. */
  function KeyDown(s: State, b: nat, key: string): (r: State)
    requires Valid(s) && b < |s.items|
    ensures Valid(r) && r.items == s.items && r.hidden == s.hidden
    ensures r.filters == s.filters && r.filterActive == s.filterActive
    ensures r.filterPressed == s.filterPressed
  {
    if key != "ArrowDown" && key != "ArrowUp" then s
    else
      var visible := VisibleIndices(s.hidden);
      var i := IndexOf(visible, b);
      if i == -1 then s
      else
        var target := visible[Step(key == "ArrowDown", i, |visible|)];
        var pinned := s.(pinned := target);
        var focused := if target != b then Focus(pinned, target) else pinned;
        SetDetail(focused, target)
  }

  /** The click handler of filter button `f`. */
  function FilterClick(s: State, f: nat): (r: State)
    requires Valid(s) && f < |s.filters|
    ensures Valid(r) && r.items == s.items && r.filters == s.filters
  {
    var pressed := seq(|s.filters|, j => j == f);
    ApplyFilter(s.(filterActive := pressed, filterPressed := pressed), FilterValue(s.filters[f]))
  }

  /** Start-up on the page as served: pin the first button, show it, then
      `applyFilter("all")`. The page's own `pinned` plays no part. */
  function Init(page: State): (r: State)
    requires Valid(page)
    ensures Valid(r) && r.items == page.items && r.filters == page.filters
  {
    ApplyFilter(SetDetail(page.(pinned := 0), 0), "all")
  }

  // ---------------------------------------------------------------------
  // Properties

  /** `setDetail(b)` leaves `b` the only active button, the card showing
      b's attributes, and nothing else changed. */
  lemma SetDetailShows(s: State, b: nat)
    requires Valid(s) && b < |s.items|
    ensures Shows(SetDetail(s, b), b) && Coherent(SetDetail(s, b))
    ensures var r := SetDetail(s, b);
      r.items == s.items && r.hidden == s.hidden && r.pinned == s.pinned
      && r.filters == s.filters && r.filterActive == s.filterActive
      && r.filterPressed == s.filterPressed
  {
    assert Shows(SetDetail(s, b), b);
  }

  /** Showing the same button twice is showing it once. */
  lemma SetDetailIdempotent(s: State, b: nat)
    requires Valid(s) && b < |s.items|
    ensures SetDetail(SetDetail(s, b), b) == SetDetail(s, b)
  {
  }

  /** After `applyFilter`, an item is hidden exactly when it does not match. */
  lemma ApplyFilterVisibility(s: State, filter: string)
    requires Valid(s)
    ensures var r := ApplyFilter(s, filter);
      Valid(r) && r.items == s.items && |r.hidden| == |s.items|
      && forall k :: 0 <= k < |s.items| ==> (!r.hidden[k] <==> filter == "all" || ItemType(s.items[k]) == filter)
  {
  }

  /** A pin whose item matches survives the filter and is shown. */
  lemma ApplyFilterKeepsPin(s: State, filter: string)
    requires Valid(s) && Matches(filter, s.items[s.pinned])
    ensures var r := ApplyFilter(s, filter);
      r.pinned == s.pinned && Shows(r, s.pinned)
  {
    var hidden := HiddenFor(s.items, filter);
    assert !hidden[s.pinned];
    SetDetailShows(s.(hidden := hidden), s.pinned);
  }

  /** A pin whose item no longer matches falls back to the first matching
      item in document order, which becomes pinned and shown. */
  lemma ApplyFilterFallsBack(s: State, filter: string, k: nat)
    requires Valid(s) && !Matches(filter, s.items[s.pinned])
    requires k < |s.items| && Matches(filter, s.items[k])
    ensures var r := ApplyFilter(s, filter);
      r.pinned <= k && Matches(filter, s.items[r.pinned])
      && (forall j :: 0 <= j < r.pinned ==> !Matches(filter, s.items[j]))
      && Shows(r, r.pinned)
  {
    var hidden := HiddenFor(s.items, filter);
    assert !hidden[k];
    assert forall j :: 0 <= j < |hidden| ==> (hidden[j] <==> !Matches(filter, s.items[j]));
    var first := FirstVisible(hidden).value;
    SetDetailShows(s.(hidden := hidden, pinned := first), first);
  }

  /** When nothing matches, `applyFilter` hides every item and returns
      before touching the pin, the active button or the card. */
  lemma ApplyFilterNoMatch(s: State, filter: string)
    requires Valid(s)
    requires forall k :: 0 <= k < |s.items| ==> !Matches(filter, s.items[k])
    ensures ApplyFilter(s, filter) == s.(hidden := seq(|s.items|, k => true))
  {
    var hidden := HiddenFor(s.items, filter);
    assert forall k :: 0 <= k < |hidden| ==> hidden[k];
    assert hidden == seq(|s.items|, k => true);
  }

  /** After `applyFilter`, either nothing matches or the pin is visible
      and shown. */
  lemma ApplyFilterPinVisible(s: State, filter: string)
    requires Coherent(s)
    ensures var r := ApplyFilter(s, filter);
      Coherent(r)
      && ((forall k :: 0 <= k < |r.hidden| ==> r.hidden[k])
          || (!r.hidden[r.pinned] && Shows(r, r.pinned)))
  {
    var b: nat :| b < |s.items| && Shows(s, b);
    if Matches(filter, s.items[s.pinned]) {
      ApplyFilterKeepsPin(s, filter);
    } else if k :| 0 <= k < |s.items| && Matches(filter, s.items[k]) {
      ApplyFilterFallsBack(s, filter, k);
    } else {
      ApplyFilterNoMatch(s, filter);
      var r := ApplyFilter(s, filter);
      assert r.items == s.items && r.active == s.active && r.detail == s.detail;
      assert Shows(r, b);
    }
  }

  /** Focus previews a button without touching the pin. */
  lemma FocusPreviews(s: State, b: nat)
    requires Valid(s) && b < |s.items|
    ensures var r := Focus(s, b);
      r.pinned == s.pinned && r.hidden == s.hidden && Shows(r, b)
      && r.items == s.items && r.filters == s.filters
      && r.filterActive == s.filterActive && r.filterPressed == s.filterPressed
  {
    SetDetailShows(s, b);
  }

  /** A click pins the button and shows it. */
  lemma ClickPins(s: State, b: nat)
    requires Valid(s) && b < |s.items|
    ensures var r := Click(s, b);
      r.pinned == b && r.hidden == s.hidden && Shows(r, b)
      && r.items == s.items && r.filters == s.filters
      && r.filterActive == s.filterActive && r.filterPressed == s.filterPressed
  {
    SetDetailShows(s.(pinned := b), b);
  }

  /** Keys other than the two arrows, and arrows on a button whose item is
      hidden, change nothing. */
  lemma KeyDownIgnored(s: State, b: nat, key: string)
    requires Valid(s) && b < |s.items|
    requires (key != "ArrowDown" && key != "ArrowUp") || s.hidden[b]
    ensures KeyDown(s, b, key) == s
  {
    if key == "ArrowDown" || key == "ArrowUp" {
      assert b !in VisibleIndices(s.hidden);
    }
  }

  /** The focus event that `nextButton.focus()` triggers adds nothing: an
      arrow key pins the target and shows it. */
  lemma KeyDownPinsTarget(s: State, b: nat, key: string)
    requires Valid(s) && b < |s.items| && !s.hidden[b]
    requires key == "ArrowDown" || key == "ArrowUp"
    ensures var visible := VisibleIndices(s.hidden);
      var target := visible[Step(key == "ArrowDown", IndexOf(visible, b), |visible|)];
      KeyDown(s, b, key) == SetDetail(s.(pinned := target), target)
  {
  }

  /** Between two neighbours of the visible list, and before the first or
      after the last, every item is hidden. */
  lemma VisibleNeighbours(hidden: seq<bool>, i: nat)
    requires i < |VisibleIndices(hidden)|
    ensures var v := VisibleIndices(hidden);
      forall k :: v[i] < k < (if i + 1 < |v| then v[i + 1] else |hidden|) ==> hidden[k]
    ensures var v := VisibleIndices(hidden);
      forall k :: (if i > 0 then v[i - 1] + 1 else 0) <= k < v[i] ==> hidden[k]
  {
    var v := VisibleIndices(hidden);
    forall k | 0 <= k < |hidden| && !hidden[k]
      ensures !(v[i] < k < (if i + 1 < |v| then v[i + 1] else |hidden|))
      ensures !((if i > 0 then v[i - 1] + 1 else 0) <= k < v[i])
    {
      var j := IndexOf(v, k);
      assert v[j] == k;
      if j < i { assert v[j] < v[i]; if i > 0 && j < i - 1 { assert v[j] < v[i - 1]; } }
      if j > i { assert v[i] < v[j]; if i + 1 < |v| && j > i + 1 { assert v[i + 1] < v[j]; } }
    }
  }

  /** ArrowDown pins and shows the next visible button after `b` in
      document order, or `b` itself when no visible button follows. */
  lemma {:induction false} ArrowDownMovesToNextVisible(s: State, b: nat)
    requires Valid(s) && b < |s.items| && !s.hidden[b]
    ensures var r := KeyDown(s, b, "ArrowDown");
      b <= r.pinned < |s.items| && !s.hidden[r.pinned]
      && (forall k :: b < k < r.pinned ==> s.hidden[k])
      && (r.pinned == b ==> forall k :: b < k < |s.items| ==> s.hidden[k])
      && r.hidden == s.hidden && Shows(r, r.pinned)
      && r.items == s.items && r.filters == s.filters
      && r.filterActive == s.filterActive && r.filterPressed == s.filterPressed
  {
    var visible := VisibleIndices(s.hidden);
    var i := IndexOf(visible, b);
    var target := visible[Step(true, i, |visible|)];
    KeyDownPinsTarget(s, b, "ArrowDown");
    SetDetailShows(s.(pinned := target), target);
    VisibleNeighbours(s.hidden, i);
    if i + 1 < |visible| {
      assert target == visible[i + 1] && b < target;
    } else {
      assert target == b;
    }
  }

  /** ArrowUp pins and shows the previous visible button before `b` in
      document order, or `b` itself when no visible button precedes it. */
  lemma {:induction false} ArrowUpMovesToPreviousVisible(s: State, b: nat)
    requires Valid(s) && b < |s.items| && !s.hidden[b]
    ensures var r := KeyDown(s, b, "ArrowUp");
      r.pinned <= b && !s.hidden[r.pinned]
      && (forall k :: r.pinned < k < b ==> s.hidden[k])
      && (r.pinned == b ==> forall k :: 0 <= k < b ==> s.hidden[k])
      && r.hidden == s.hidden && Shows(r, r.pinned)
      && r.items == s.items && r.filters == s.filters
      && r.filterActive == s.filterActive && r.filterPressed == s.filterPressed
  {
    var visible := VisibleIndices(s.hidden);
    var i := IndexOf(visible, b);
    var target := visible[Step(false, i, |visible|)];
    KeyDownPinsTarget(s, b, "ArrowUp");
    SetDetailShows(s.(pinned := target), target);
    VisibleNeighbours(s.hidden, i);
    if i > 0 {
      assert target == visible[i - 1] && target < b;
    } else {
      assert target == b;
    }
  }

  /** A filter click leaves exactly that filter button active and
      pressed, then applies its filter (an empty `data-filter` meaning
      "all"). */
  lemma FilterClickPressesOne(s: State, f: nat)
    requires Valid(s) && f < |s.filters|
    ensures var r := FilterClick(s, f);
      |r.filterActive| == |s.filters| && |r.filterPressed| == |s.filters|
      && (forall j :: 0 <= j < |s.filters| ==> (r.filterActive[j] <==> j == f))
      && (forall j :: 0 <= j < |s.filters| ==> (r.filterPressed[j] <==> j == f))
      && (forall k :: 0 <= k < |s.items| ==> (!r.hidden[k] <==> Matches(FilterValue(s.filters[f]), s.items[k])))
  {
  }

  /** Start-up shows every item and pins and shows the first button,
      whatever the markup's classes and card said. */
  lemma InitPinsFirst(page: State)
    requires Valid(page)
    ensures var r := Init(page);
      Coherent(r) && r.pinned == 0 && Shows(r, 0)
      && (forall k :: 0 <= k < |page.items| ==> !r.hidden[k])
  {
    var s := SetDetail(page.(pinned := 0), 0);
    ApplyFilterKeepsPin(s, "all");
  }

  /** Every handler keeps exactly one button active with the card showing
      it. */
  lemma HandlersKeepCoherent(s: State, b: nat, key: string)
    requires Coherent(s) && b < |s.items|
    ensures Coherent(Focus(s, b)) && Coherent(Click(s, b))
    ensures Coherent(KeyDown(s, b, key))
  {
    FocusPreviews(s, b);
    ClickPins(s, b);
    if (key == "ArrowDown" || key == "ArrowUp") && !s.hidden[b] {
      if key == "ArrowDown" {
        ArrowDownMovesToNextVisible(s, b);
      } else {
        ArrowUpMovesToPreviousVisible(s, b);
      }
    } else {
      KeyDownIgnored(s, b, key);
    }
  }

  /** A filter click keeps exactly one button active with the card showing
      it. */
  lemma FilterClickKeepsCoherent(s: State, f: nat)
    requires Coherent(s) && f < |s.filters|
    ensures Coherent(FilterClick(s, f))
  {
    var pressed := seq(|s.filters|, j => j == f);
    var t := s.(filterActive := pressed, filterPressed := pressed);
    var a: nat :| a < |s.items| && Shows(s, a);
    assert Shows(t, a);
    ApplyFilterPinVisible(t, FilterValue(s.filters[f]));
  }
}
