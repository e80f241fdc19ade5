/** The timeline block of script.js as the code runs it: one object whose
    fields are the classes and texts the handlers rewrite, with one method
    per handler. Each method is proved to have exactly the effect of the
    matching function of module Timeline, whose properties are proved
    there. */
module TimelineWidget {
  import opened Js
  import opened Timeline

  class Explorer {
    /** The timeline items, each with its one button, in document order. */
    const items: seq<Item>
    /** The `data-filter` of each filter button, in document order. */
    const filters: seq<Option<string>>

    var hidden: seq<bool>
    var active: seq<bool>
    /** `pinnedButton`, as an index into the button list. */
    var pinned: nat
    var detail: Detail
    var filterActive: seq<bool>
    var filterPressed: seq<bool>

    function State(): Timeline.State
      reads this
    {
      Timeline.State(items, hidden, active, pinned, detail, filters, filterActive, filterPressed)
    }

    predicate Valid()
      reads this
    {
      Timeline.Valid(State())
    }

    /** The start-up of the timeline block on the page as served:
        `pinnedButton` is the first button, `setDetail(pinnedButton)`,
        then `applyFilter("all")`. */
    constructor (page: Timeline.State)
      requires Timeline.Valid(page)
      ensures Valid() && State() == Init(page)
    {
      items := page.items;
      filters := page.filters;
      hidden := page.hidden;
      active := page.active;
      pinned := 0;
      detail := page.detail;
      filterActive := page.filterActive;
      filterPressed := page.filterPressed;
      new;
      SetDetail(0);
      ApplyFilter("all");
    }

    /** `setDetail(button)`: clear "is-active" on every button, set it on
        `b`, and copy b's attributes into the card. */
    method SetDetail(b: nat)
      requires Valid() && b < |items|
      modifies this
      ensures Valid() && State() == Timeline.SetDetail(old(State()), b)
    {
      var j := 0;
      while j < |active|
        invariant 0 <= j <= |active| == |items|
        invariant forall k :: 0 <= k < j ==> !active[k]
        invariant hidden == old(hidden) && pinned == old(pinned) && detail == old(detail)
        invariant filterActive == old(filterActive) && filterPressed == old(filterPressed)
      {
        active := active[j := false];
        j := j + 1;
      }
      active := active[b := true];
      detail := DetailOf(items[b].button);
      assert active == seq(|items|, k => k == b);
    }

    /** The buttons whose item is not hidden, in document order. */
    method VisibleButtons() returns (visible: seq<nat>)
      requires Valid()
      ensures visible == VisibleIndices(hidden)
    {
      visible := [];
      var j := 0;
      while j < |hidden|
        invariant 0 <= j <= |hidden|
        invariant visible == VisibleIndices(hidden[..j])
      {
        assert hidden[..j + 1][..j] == hidden[..j];
        if !hidden[j] {
          visible := visible + [j];
        }
        j := j + 1;
      }
      assert hidden[..|hidden|] == hidden;
    }

    /** The first item not hidden, if any. */
    method FirstVisibleItem() returns (first: Option<nat>)
      requires Valid()
      ensures first == FirstVisible(hidden)
    {
      var j := 0;
      while j < |hidden|
        invariant 0 <= j <= |hidden|
        invariant forall k :: 0 <= k < j ==> hidden[k]
      {
        if !hidden[j] {
          return Some(j);
        }
        j := j + 1;
      }
      return None;
    }

    /** `applyFilter(filter)`. */
    method ApplyFilter(filter: string)
      requires Valid()
      modifies this
      ensures Valid() && State() == Timeline.ApplyFilter(old(State()), filter)
    {
      var j := 0;
      while j < |items|
        invariant 0 <= j <= |items| && |hidden| == |items|
        invariant forall k :: 0 <= k < j ==> hidden[k] == !Matches(filter, items[k])
        invariant active == old(active) && pinned == old(pinned) && detail == old(detail)
        invariant filterActive == old(filterActive) && filterPressed == old(filterPressed)
      {
        var itemType := Or(items[j].kind, "");
        var visible := filter == "all" || itemType == filter;
        hidden := hidden[j := !visible];
        j := j + 1;
      }
      assert hidden == HiddenFor(items, filter);
      var first := FirstVisibleItem();
      if first.None? {
        return;
      }
      if !hidden[pinned] {
        SetDetail(pinned);
        return;
      }
      pinned := first.value;
      SetDetail(first.value);
    }

    /** The focus handler of button `b`. */
    method Focus(b: nat)
      requires Valid() && b < |items|
      modifies this
      ensures Valid() && State() == Timeline.Focus(old(State()), b)
    {
      SetDetail(b);
    }

    /** The click handler of button `b`. */
    method Click(b: nat)
      requires Valid() && b < |items|
      modifies this
      ensures Valid() && State() == Timeline.Click(old(State()), b)
    {
      pinned := b;
      SetDetail(b);
    }

    /** The keydown handler of the focused button `b`. */
    method KeyDown(b: nat, key: string)
      requires Valid() && b < |items|
      modifies this
      ensures Valid() && State() == Timeline.KeyDown(old(State()), b, key)
    {
      if key != "ArrowDown" && key != "ArrowUp" {
        return;
      }
      var visible := VisibleButtons();
      var current := IndexOf(visible, b);
      if current == -1 {
        return;
      }
      var next := if key == "ArrowDown" then Min(current + 1, |visible| - 1)
                  else Max(current - 1, 0);
      assert next == Step(key == "ArrowDown", current, |visible|);
      var target := visible[next];
      ghost var pinnedState := old(State()).(pinned := target);
      pinned := target;
      assert State() == pinnedState;
      if target != b {
        Focus(target);
      }
      SetDetail(target);
    }

    /** The click handler of filter button `f`. */
    method FilterClick(f: nat)
      requires Valid() && f < |filters|
      modifies this
      ensures Valid() && State() == Timeline.FilterClick(old(State()), f)
    {
      var filter := Or(filters[f], "all");
      var j := 0;
      while j < |filters|
        invariant 0 <= j <= |filters| == |filterActive| == |filterPressed|
        invariant forall k :: 0 <= k < j ==> (filterActive[k] <==> k == f)
        invariant forall k :: 0 <= k < j ==> (filterPressed[k] <==> k == f)
        invariant hidden == old(hidden) && active == old(active)
        invariant pinned == old(pinned) && detail == old(detail)
      {
        var isActive := j == f;
        filterActive := filterActive[j := isActive];
        filterPressed := filterPressed[j := isActive];
        j := j + 1;
      }
      assert filterActive == seq(|filters|, k => k == f);
      assert filterPressed == seq(|filters|, k => k == f);
      ApplyFilter(filter);
    }
  }
}
