/**
 * The selection bookkeeping of `src/panel/scene_hierarchy_panel.rs`: a map
 * from entity id to "selected", the operations on it, and how hierarchy
 * click events change it.
 */
module Selection {
  import opened Wrappers

  /** Entity ids (`usize`). */
  type Id = nat

  /** `ENTITY_HIERARCHY_SELECTED`: every known id, and whether it is selected. */
  type SelectionMap = map<Id, bool>

  /** `set_select`: overwrite the flag of a known id; an unknown id changes nothing. */
  function SetSelect(sel: SelectionMap, id: Id, state: bool): (r: SelectionMap)
    ensures r.Keys == sel.Keys
    ensures forall k :: k in r ==> r[k] == (if k == id then state else sel[k])
    ensures id !in sel ==> r == sel
  {
    if id in sel then sel[id := state] else sel
  }

  /** `select`. */
  function Select(sel: SelectionMap, id: Id): (r: SelectionMap)
    ensures r.Keys == sel.Keys
    ensures forall k :: k in r ==> r[k] == (k == id || sel[k])
  {
    SetSelect(sel, id, true)
  }

  /** `unselect`. */
  function Unselect(sel: SelectionMap, id: Id): (r: SelectionMap)
    ensures r.Keys == sel.Keys
    ensures forall k :: k in r ==> r[k] == (k != id && sel[k])
  {
    SetSelect(sel, id, false)
  }

  /** `toggle_select`: flip the flag of a known id; an unknown id changes nothing. */
  function ToggleSelect(sel: SelectionMap, id: Id): (r: SelectionMap)
    ensures r.Keys == sel.Keys
    ensures forall k :: k in r ==> r[k] == (if k == id then !sel[k] else sel[k])
  {
    if id in sel then sel[id := !sel[id]] else sel
  }

  /** `select_all`. */
  function SelectAll(sel: SelectionMap): (r: SelectionMap)
    ensures r.Keys == sel.Keys
    ensures forall k :: k in r ==> r[k]
  {
    map k | k in sel :: true
  }

  /** `unselect_all`. */
  function UnselectAll(sel: SelectionMap): (r: SelectionMap)
    ensures r.Keys == sel.Keys
    ensures forall k :: k in r ==> !r[k]
  {
    map k | k in sel :: false
  }

  /** `get_selected`: the ids whose flag is set (the source lists them in map order). */
  function GetSelected(sel: SelectionMap): (r: set<Id>)
    ensures r <= sel.Keys
    ensures forall k :: k in sel ==> (k in r <==> sel[k])
  {
    set k | k in sel && sel[k]
  }

  /** `is_selected`: membership in `get_selected`. */
  function IsSelected(sel: SelectionMap, id: Id): (b: bool)
    ensures b <==> id in sel && sel[id]
  {
    id in GetSelected(sel)
  }

  /** `query_select`: the flag of an id that must be known (the source unwraps). */
  function QuerySelect(sel: SelectionMap, id: Id): (b: bool)
    requires id in sel
    ensures b == IsSelected(sel, id)
  {
    sel[id]
  }

  /** Toggling twice restores the map. */
  lemma ToggleSelectInvolution(sel: SelectionMap, id: Id)
    ensures ToggleSelect(ToggleSelect(sel, id), id) == sel
  {
  }

  /** After `unselect_all` nothing is selected; after `select_all` every known id is. */
  lemma SelectAllUnselectAll(sel: SelectionMap)
    ensures GetSelected(UnselectAll(sel)) == {}
    ensures GetSelected(SelectAll(sel)) == sel.Keys
  {
    assert forall k :: k in GetSelected(UnselectAll(sel)) ==> false;
  }

  /** The events a hierarchy row can raise. */
  datatype SelectionEvent = Add | Change | ToggleCollapse | Hovered

  /**
   * `make_hierarchy_selectable`: ctrl + primary click adds, then a double
   * click toggles collapse, then a click changes the selection, then hovering
   * highlights.
   */
  function Classify(primaryClicked: bool, ctrl: bool, doubleClicked: bool, hovered: bool): (r: Option<SelectionEvent>)
    ensures r == Some(Add) <==> primaryClicked && ctrl
    ensures r == Some(ToggleCollapse) <==> doubleClicked && !(primaryClicked && ctrl)
    ensures r == Some(Change) <==> primaryClicked && !ctrl && !doubleClicked
    ensures r == Some(Hovered) <==> hovered && !primaryClicked && !doubleClicked
    ensures r == None <==> !primaryClicked && !doubleClicked && !hovered
  {
    if primaryClicked && ctrl then Some(Add)
    else if doubleClicked then Some(ToggleCollapse)
    else if primaryClicked then Some(Change)
    else if hovered then Some(Hovered)
    else None
  }

  /** The selection flags and the collapse flags (`ENTITY_HIERARCHY_OPEN`) of the hierarchy. */
  datatype Hierarchy = Hierarchy(selected: SelectionMap, open: map<Id, bool>)

  /**
   * The handling of an event on the row of `id`. `Change` reads the flag
   * first (the id must be known), clears every selection, then stores the
   * flipped flag. Hovering only highlights the row.
   */
  function HandleEvent(h: Hierarchy, ev: Option<SelectionEvent>, id: Id): (r: Hierarchy)
    requires ev == Some(Change) ==> id in h.selected
    ensures ev == Some(Add) ==> r.selected == Select(h.selected, id) && r.open == h.open
    ensures ev == Some(Change) && IsSelected(h.selected, id) ==> GetSelected(r.selected) == {}
    ensures ev == Some(Change) && !IsSelected(h.selected, id) ==> GetSelected(r.selected) == {id}
    ensures ev == Some(Change) ==> r.selected.Keys == h.selected.Keys && r.open == h.open
    ensures ev == Some(ToggleCollapse) ==> r.selected == h.selected && r.open.Keys == h.open.Keys
    ensures ev == Some(ToggleCollapse) && id in h.open ==> r.open[id] == !h.open[id]
    ensures ev == Some(ToggleCollapse) ==> forall k :: k in h.open && k != id ==> r.open[k] == h.open[k]
    ensures ev == Some(Hovered) || ev == None ==> r == h
  {
    match ev
    case None => h
    case Some(Add) => h.(selected := Select(h.selected, id))
    case Some(Change) =>
      var state := QuerySelect(h.selected, id);
      h.(selected := SetSelect(UnselectAll(h.selected), id, !state))
    case Some(ToggleCollapse) =>
      h.(open := if id in h.open then h.open[id := !h.open[id]] else h.open)
    case Some(Hovered) => h
  }

  /** An `Add` selects the id without clearing the others. */
  lemma AddKeepsOthers(h: Hierarchy, id: Id)
    requires id in h.selected
    ensures GetSelected(HandleEvent(h, Some(Add), id).selected) == GetSelected(h.selected) + {id}
  {
  }
}
