/**
 * The per-agent request lifecycle of `src/panel/demo_panel.rs`: pending
 * search handles (`path_map`), active paths (`current_paths`), the queued
 * waypoints, the click that issues requests, the poll that installs results
 * and the tick that moves agents one cell along their paths.
 */
module Agents {
  import opened Wrappers
  import opened Position
  import opened Navigation
  import opened Search
  import opened Waypoints
  import opened Selection

  /**
   * A `PathPromise`. `Empty` is a promise slot holding nothing (what cloning
   * a `PathPromise` yields). `Pending` is a search still running on its own
   * copy of the mesh; it carries the outcome that search will deliver.
   * `Ready` is a finished search whose outcome has not been taken yet.
   */
  datatype Handle = Empty | Pending(outcome: Option<seq<Pos2>>) | Ready(outcome: Option<seq<Pos2>>)

  /** An entity of the registry, with the position of its `Transform2` component if it has one. */
  datatype Entity = Entity(transform: Option<Pos2>)

  type Registry = map<Id, Entity>

  /** The panel's path bookkeeping. */
  datatype PathState = PathState(pathMap: map<Id, Handle>, currentPaths: map<Id, seq<Pos2>>, queued: seq<Pos2>)

  /** `async_a_star`: the search runs on a copy of the mesh taken now. */
  function SubmitAStar(nav: NavMesh, start: Pos2, end: Pos2): (h: Handle)
    ensures h.Pending?
    ensures IsBlocked(nav, start) || IsBlocked(nav, end) ==> h.outcome == None
    ensures h.outcome.Some? ==> SoundPath(nav, start, end, h.outcome.value)
  {
    Pending(AStar(nav, start, end))
  }

  /** `async_waypointed_a_star`: likewise for a waypoint list. */
  function SubmitWaypointed(nav: NavMesh, start: Pos2, ws: seq<Pos2>): (h: Handle)
    ensures h.Pending?
    ensures h.outcome.None? <==> |ws| == 0 || AnyBlocked(nav, start, ws) || NoLegFound(nav, start, ws)
  {
    Pending(WaypointedAStar(nav, start, ws))
  }

  /** The worker behind the handle of `id` finishes. */
  function Resolve(st: PathState, id: Id): (r: PathState)
    ensures r.currentPaths == st.currentPaths && r.queued == st.queued
    ensures r.pathMap.Keys == st.pathMap.Keys
    ensures forall k :: k in r.pathMap ==>
              r.pathMap[k] == (if k == id && st.pathMap[k].Pending? then Ready(st.pathMap[k].outcome) else st.pathMap[k])
  {
    if id in st.pathMap && st.pathMap[id].Pending? then
      st.(pathMap := st.pathMap[id := Ready(st.pathMap[id].outcome)])
    else st
  }

  /** Where `navigate` starts an agent's search: its transform, or the default cell without one. */
  function PositionOf(reg: Registry, id: Id): (p: Pos2)
    requires id in reg
    ensures reg[id].transform.Some? ==> p == reg[id].transform.value
    ensures reg[id].transform.None? ==> p == DefaultPos
  {
    reg[id].transform.UnwrapOr(DefaultPos)
  }

  /** A middle click queues the clicked cell as a waypoint. */
  function QueuePoint(st: PathState, p: Pos2): (r: PathState)
    ensures r.queued == st.queued + [p]
    ensures r.pathMap == st.pathMap && r.currentPaths == st.currentPaths
  {
    st.(queued := st.queued + [p])
  }

  /**
   * `navigate`: with a non-empty selection the clicked cell joins the queued
   * waypoints. A selected agent without a handle gets one waypointed request
   * over them; one whose slot is empty gets a single-target request to the
   * click; one with a live handle gets nothing. The queue is then emptied.
   */
  function Navigate(st: PathState, nav: NavMesh, reg: Registry, selected: set<Id>, click: Pos2): (r: PathState)
    requires forall s :: s in selected ==> s in reg
    ensures r.queued == []
    ensures r.currentPaths == st.currentPaths
    ensures r.pathMap.Keys == st.pathMap.Keys + selected
    ensures forall s :: s in selected && s !in st.pathMap ==>
              r.pathMap[s] == Pending(WaypointedAStar(nav, PositionOf(reg, s), st.queued + [click]))
    ensures forall s :: s in selected && s in st.pathMap && st.pathMap[s] == Empty ==>
              r.pathMap[s] == Pending(AStar(nav, PositionOf(reg, s), click))
    ensures forall s :: s in st.pathMap && (s !in selected || st.pathMap[s] != Empty) ==>
              r.pathMap[s] == st.pathMap[s]
  {
    var queued := if |selected| > 0 then st.queued + [click] else st.queued;
    var pathMap := map s | s in st.pathMap.Keys + selected ::
                     if s !in selected then st.pathMap[s]
                     else if s !in st.pathMap then SubmitWaypointed(nav, PositionOf(reg, s), queued)
                     else if st.pathMap[s] == Empty then SubmitAStar(nav, PositionOf(reg, s), click)
                     else st.pathMap[s];
    PathState(pathMap, st.currentPaths, [])
  }

  /** The selected agents whose handle has finished. */
  function Finished(st: PathState, selected: set<Id>): set<Id> {
    set s | s in selected && s in st.pathMap && st.pathMap[s].Ready?
  }

  /**
   * The poll in `update_cursor_pos`: for each selected agent whose search
   * finished, a route becomes its active path and a failure clears its
   * active path; either way its handle is dropped. Nothing else changes.
   */
  function Poll(st: PathState, selected: set<Id>): (r: PathState)
    ensures r.queued == st.queued
    ensures forall s :: s in selected && s in st.pathMap && st.pathMap[s].Ready? ==>
              && s !in r.pathMap
              && (s in r.currentPaths <==> st.pathMap[s].outcome.Some?)
              && (st.pathMap[s].outcome.Some? ==> r.currentPaths[s] == st.pathMap[s].outcome.value)
    ensures forall s :: !(s in selected && s in st.pathMap && st.pathMap[s].Ready?) ==>
              && (s in r.pathMap <==> s in st.pathMap)
              && (s in r.pathMap ==> r.pathMap[s] == st.pathMap[s])
              && (s in r.currentPaths <==> s in st.currentPaths)
              && (s in r.currentPaths ==> r.currentPaths[s] == st.currentPaths[s])
  {
    var done := Finished(st, selected);
    var installed := map s | s in done && st.pathMap[s].outcome.Some? :: st.pathMap[s].outcome.value;
    var cleared := set s | s in done && st.pathMap[s].outcome.None?;
    PathState(st.pathMap - done, (st.currentPaths - cleared) + installed, st.queued)
  }

  /** The registry and the active paths after a movement tick. */
  datatype Moved = Moved(reg: Registry, paths: map<Id, seq<Pos2>>)

  /** An agent moves on a tick: it exists, has a transform, and its path is not exhausted. */
  predicate Moves(reg: Registry, paths: map<Id, seq<Pos2>>, id: Id) {
    id in paths && id in reg && reg[id].transform.Some? && |paths[id]| > 0
  }

  /**
   * `move_entities`: every moving agent jumps to the head of its path and
   * the path loses exactly that cell. Empty paths, paths of agents no longer
   * in the registry and agents without a transform are left alone, and no
   * entity is created or removed.
   */
  function MoveEntities(reg: Registry, paths: map<Id, seq<Pos2>>): (r: Moved)
    ensures r.reg.Keys == reg.Keys && r.paths.Keys == paths.Keys
    ensures forall id :: Moves(reg, paths, id) ==>
              r.reg[id] == Entity(Some(paths[id][0])) && [paths[id][0]] + r.paths[id] == paths[id]
    ensures forall id :: id in paths && !Moves(reg, paths, id) ==> r.paths[id] == paths[id]
    ensures forall id :: id in reg && !Moves(reg, paths, id) ==> r.reg[id] == reg[id]
  {
    var reg' := map id | id in reg ::
                  if Moves(reg, paths, id) then Entity(Some(paths[id][0])) else reg[id];
    var paths' := map id | id in paths ::
                    if Moves(reg, paths, id) then paths[id][1..] else paths[id];
    Moved(reg', paths')
  }

  /** Selecting every hit of a click, in order. */
  function SelectEach(sel: SelectionMap, hits: seq<Id>): (r: SelectionMap)
    ensures r.Keys == sel.Keys
    ensures forall k :: k in r ==> r[k] == (sel[k] || k in hits)
    decreases |hits|
  {
    if |hits| == 0 then sel else SelectEach(Select(sel, hits[0]), hits[1..])
  }

  /**
   * A primary click on the grid: with entities under the cursor it selects
   * them (replacing the selection unless ctrl is held); on an empty cell it
   * navigates the selected agents there.
   */
  function PrimaryClick(sel: SelectionMap, st: PathState, nav: NavMesh, reg: Registry,
                        hits: seq<Id>, ctrl: bool, click: Pos2): (r: (SelectionMap, PathState))
    requires forall s :: s in sel && sel[s] ==> s in reg
    ensures |hits| > 0 ==> r.1 == st && r.0.Keys == sel.Keys
    ensures |hits| > 0 ==> forall k :: k in r.0 ==> r.0[k] == ((ctrl && sel[k]) || k in hits)
    ensures |hits| == 0 ==> r.0 == sel && r.1 == Navigate(st, nav, reg, GetSelected(sel), click)
  {
    if |hits| > 0 then
      (SelectEach(if ctrl then sel else UnselectAll(sel), hits), st)
    else
      (sel, Navigate(st, nav, reg, GetSelected(sel), click))
  }

  /** While an agent's search is pending, a new click issues no second search for it. */
  lemma NoSecondRequestWhilePending(st: PathState, nav: NavMesh, reg: Registry, selected: set<Id>,
                                    click: Pos2, s: Id)
    requires forall t :: t in selected ==> t in reg
    requires s in st.pathMap && st.pathMap[s].Pending?
    ensures Navigate(st, nav, reg, selected, click).pathMap[s] == st.pathMap[s]
  {
  }

  /**
   * A fresh selected agent's request, once its worker finishes and the
   * agent is polled, installs exactly the waypointed search over the queued
   * points and the click, computed on the mesh as it was at the click; a
   * failed search leaves the agent without an active path. The handle is gone.
   */
  lemma RequestLifecycle(st: PathState, nav: NavMesh, reg: Registry, selected: set<Id>, click: Pos2, s: Id)
    requires forall t :: t in selected ==> t in reg
    requires s in selected && s !in st.pathMap
    ensures var outcome := WaypointedAStar(nav, PositionOf(reg, s), st.queued + [click]);
            var r := Poll(Resolve(Navigate(st, nav, reg, selected, click), s), selected);
            && s !in r.pathMap
            && (s in r.currentPaths <==> outcome.Some?)
            && (outcome.Some? ==> r.currentPaths[s] == outcome.value)
  {
    var st1 := Navigate(st, nav, reg, selected, click);
    var st2 := Resolve(st1, s);
    assert st2.pathMap[s] == Ready(WaypointedAStar(nav, PositionOf(reg, s), st.queued + [click]));
  }

  /** An active path is consumed one cell per tick: after `|p|` moving ticks it is empty. */
  function MoveTicks(reg: Registry, paths: map<Id, seq<Pos2>>, n: nat): Moved
    decreases n
  {
    if n == 0 then Moved(reg, paths)
    else
      var m := MoveEntities(reg, paths);
      MoveTicks(m.reg, m.paths, n - 1)
  }

  lemma {:induction false} PathDrains(reg: Registry, paths: map<Id, seq<Pos2>>, id: Id, n: nat)
    requires id in reg && reg[id].transform.Some? && id in paths && n <= |paths[id]|
    ensures var m := MoveTicks(reg, paths, n);
            && id in m.reg && m.reg[id].transform.Some?
            && id in m.paths && m.paths[id] == paths[id][n..]
            && (n > 0 ==> m.reg[id] == Entity(Some(paths[id][n - 1])))
    decreases n
  {
    if n > 0 {
      var m := MoveEntities(reg, paths);
      assert Moves(reg, paths, id);
      assert m.paths[id] == paths[id][1..];
      PathDrains(m.reg, m.paths, id, n - 1);
      assert paths[id][1..][n - 1..] == paths[id][n..];
      if n > 1 {
        assert paths[id][1..][n - 2] == paths[id][n - 1];
      }
    }
  }

  /** A result installed for an agent no longer registered never moves or recreates it. */
  lemma OrphanPathIsInert(reg: Registry, paths: map<Id, seq<Pos2>>, id: Id)
    requires id !in reg && id in paths
    ensures MoveEntities(reg, paths).paths[id] == paths[id]
    ensures id !in MoveEntities(reg, paths).reg
  {
  }
}
