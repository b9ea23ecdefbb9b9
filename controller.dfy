/**
 * The Flicking controller: the state `sync` and `moveCamera` update in
 * place, as a class, with the pure rules they apply stated beside it.
 */
module Controller {
  import opened Wrappers
  import opened JsSemantics
  import opened Panels
  import opened Navigation
  import opened SyncTables
  import opened CheckedRanges
  import opened VisibleSync

  /** The part of the state machine's state that `moveCamera` reads and writes. */
  datatype GestureState = GestureState(stateType: StateType, holding: bool, direction: Option<Direction>, delta: int)

  /** The fields of an axes `change` event used here, on the flicking axis. */
  datatype AxesEvent = AxesEvent(pos: int, delta: int, isTrusted: bool, offsetX: int, offsetY: int)

  /** `viewport.getVisibleIndex()`; `resetVisibleIndex` clears it. */
  datatype VisibleIndex = Unset | Window(min: int, max: int)

  // ----- moveCamera (src/Flicking.ts:834-873) -----

  /** The input moved towards the next panel: a negative offset on the flicking axis. */
  predicate IsNextDirection(e: AxesEvent, horizontal: bool) {
    (if horizontal then e.offsetX else e.offsetY) < 0
  }

  /**
   * The camera change of one move. In circular mode, a change whose sign
   * disagrees with the input direction means the axes wrapped around, and
   * the change is measured the other way round the loop.
   */
  function CameraChange(pos: int, previous: int, isNext: bool, circular: bool, scrollAreaSize: nat): (r: int)
    ensures !(circular && isNext == (pos < previous)) ==> r == pos - previous
    ensures circular && isNext == (pos < previous) ==> Abs(r - (pos - previous)) == scrollAreaSize
    ensures circular && isNext == (pos < previous) && Abs(pos - previous) <= scrollAreaSize ==>
              (pos - previous > 0 ==> r <= 0) && (pos - previous <= 0 ==> r >= 0)
  {
    var change := pos - previous;
    if circular && isNext == (pos < previous) then
      (if change > 0 then -1 else 1) * (scrollAreaSize - Abs(change))
    else change
  }

  /** The direction after a move: unchanged when the camera did not move, else the sign of the change. */
  function NewDirection(e: AxesEvent, previous: int, current: Option<Direction>, horizontal: bool, circular: bool, scrollAreaSize: nat): (r: Option<Direction>)
    ensures r == current || r.Some?
  {
    var change := CameraChange(e.pos, previous, IsNextDirection(e, horizontal), circular, scrollAreaSize);
    if change == 0 then current else if change > 0 then Some(Next) else Some(Prev)
  }

  /**
   * The whole rule, case by case. A change whose sign agrees with the input
   * direction (or any change outside circular mode) sets the direction by
   * its sign and keeps it when zero. In circular mode a change that
   * disagrees is taken the other way round the loop: a change shorter than
   * the scroll area reverses the direction (a still camera with such input
   * turns it to next), a change of exactly the scroll area keeps it, and a
   * longer one keeps its own sign.
   */
  lemma NewDirectionRule(e: AxesEvent, previous: int, current: Option<Direction>, horizontal: bool, circular: bool, scrollAreaSize: nat)
    ensures var change := e.pos - previous;
            var bySign := if change > 0 then Some(Next) else Some(Prev);
            var r := NewDirection(e, previous, current, horizontal, circular, scrollAreaSize);
            if !(circular && IsNextDirection(e, horizontal) == (e.pos < previous)) then
              r == (if change == 0 then current else bySign)
            else if Abs(change) == scrollAreaSize then r == current
            else if Abs(change) > scrollAreaSize then r == bySign
            else r == (if change > 0 then Some(Prev) else Some(Next))
  {
    var change := e.pos - previous;
    var r := CameraChange(e.pos, previous, IsNextDirection(e, horizontal), circular, scrollAreaSize);
    if circular && IsNextDirection(e, horizontal) == (e.pos < previous) {
      if change > 0 {
        assert r == change - scrollAreaSize;
      } else {
        assert r == scrollAreaSize + change;
      }
    }
  }

  /** Outside circular mode a still camera keeps the direction it had. */
  lemma StillCameraKeepsDirection(e: AxesEvent, previous: int, current: Option<Direction>, horizontal: bool, scrollAreaSize: nat)
    requires e.pos == previous
    ensures NewDirection(e, previous, current, horizontal, false, scrollAreaSize) == current
  {
  }

  /**
   * In circular mode a still camera whose input did not point to the next
   * panel counts as a full loop and turns the direction to next.
   */
  lemma StillCircularCameraTurnsNext(e: AxesEvent, previous: int, current: Option<Direction>, horizontal: bool, scrollAreaSize: nat)
    requires e.pos == previous && !IsNextDirection(e, horizontal) && scrollAreaSize > 0
    ensures NewDirection(e, previous, current, horizontal, true, scrollAreaSize) == Some(Next)
  {
  }

  /** Crossing the seam of a circular scroll area reverses the direction the raw change suggests. */
  lemma SeamCrossingReversesDirection(e: AxesEvent, previous: int, current: Option<Direction>, horizontal: bool, scrollAreaSize: nat)
    requires IsNextDirection(e, horizontal) == (e.pos < previous)
    requires 0 < Abs(e.pos - previous) < scrollAreaSize
    ensures e.pos > previous ==> NewDirection(e, previous, current, horizontal, true, scrollAreaSize) == Some(Prev)
    ensures e.pos < previous ==> NewDirection(e, previous, current, horizontal, true, scrollAreaSize) == Some(Next)
  {
  }

  /** A change that agrees with the input direction is taken as it is, and sets the direction by its sign. */
  lemma AgreeingChangeSetsDirection(e: AxesEvent, previous: int, current: Option<Direction>, horizontal: bool, circular: bool, scrollAreaSize: nat)
    requires IsNextDirection(e, horizontal) != (e.pos < previous) && e.pos != previous
    ensures NewDirection(e, previous, current, horizontal, circular, scrollAreaSize) == if e.pos > previous then Some(Next) else Some(Prev)
  {
  }

  // ----- Full resynchronisation (src/Flicking.ts:598-669) -----

  /** `(list.length / (cloneCount + 1)) >> 0`. */
  function NewOriginalCount(listLength: nat, cloneCount: nat): (r: nat)
    ensures r * (cloneCount + 1) <= listLength < r * (cloneCount + 1) + (cloneCount + 1)
  {
    var d := cloneCount + 1;
    DivBounds(listLength, d);
    listLength / d
  }

  /**
   * `((list.length / newOriginalPanelCount) >> 0) - 1`, as a number of
   * groups: with no original left the division gives no group.
   */
  function NewCloneCount(listLength: nat, originalCount: nat): (r: nat)
    ensures originalCount > 0 && originalCount <= listLength ==>
              originalCount * (r + 1) <= listLength < originalCount * (r + 1) + originalCount
    ensures originalCount == 0 ==> r == 0
  {
    if originalCount == 0 || listLength < originalCount then 0
    else
      var q := listLength / originalCount;
      DivBounds(listLength, originalCount);
      assert originalCount * q == q * originalCount;
      assert q >= 1;
      q - 1
  }

  lemma DivBounds(n: nat, d: nat)
    requires d > 0
    ensures (n / d) * d <= n < (n / d) * d + d
  {
    assert n == (n / d) * d + n % d;
  }

  /**
   * The new originals and clone groups divide the list: there are at least
   * as many groups as before, and the clone part of the list has room for
   * all of them.
   */
  lemma CloneGroupsFitList(listLength: nat, cloneCount: nat)
    requires NewOriginalCount(listLength, cloneCount) > 0
    ensures var o := NewOriginalCount(listLength, cloneCount);
            var n := NewCloneCount(listLength, o);
            n >= cloneCount && o * n <= listLength - o
  {
    var o := NewOriginalCount(listLength, cloneCount);
    var n := NewCloneCount(listLength, o);
    assert o * (cloneCount + 1) <= listLength;
    assert o <= listLength by {
      MulMonotone(o, 1, cloneCount + 1);
    }
    assert o * (n + 1) == o * n + o;
    assert o * (n + 1) + o == o * (n + 2);
    if n < cloneCount {
      MulMonotone(o, n + 2, cloneCount + 1);
      assert false;
    }
  }

  /** The kept items that were original panels: `maintained.filter(([before]) => before <= indexRange.max)`. */
  function KeptOriginals(maintained: seq<(nat, nat)>, range: Range): (r: seq<(nat, nat)>)
    ensures forall p :: p in r <==> p in maintained && p.0 <= range.max
  {
    Filter(maintained, (p: (nat, nat)) => p.0 <= range.max)
  }

  /** The added items that land among the originals: `added.filter(index => index < newOriginalPanelCount)`. */
  function AddedOriginals(added: seq<nat>, originalCount: nat): (r: seq<nat>)
    ensures forall a :: a in r <==> a in added && a < originalCount
  {
    Filter(added, (a: nat) => a < originalCount)
  }

  /** What a full resynchronisation needs of the renderer's diff, as a list differ reports it: no two kept or added items sent to one index. */
  ghost predicate FullSyncReady(diff: Diff<Element>) {
    DistinctTargets(diff.maintained, diff.added)
  }

  /** The kept and added originals are part of the diff, so they too go to distinct indices. */
  lemma OriginalTargetsDistinct(diff: Diff<Element>, range: Range, originalCount: nat)
    requires FullSyncReady(diff)
    ensures DistinctTargets(KeptOriginals(diff.maintained, range), AddedOriginals(diff.added, originalCount))
  {
  }

  /** The kept originals of a full resynchronisation all name a panel of the table; otherwise line 623 throws. */
  predicate KeptOriginalsPresent(diff: Diff<Element>, t: Table) {
    KeptArePresent(t, KeptOriginals(diff.maintained, GetRange(t)))
  }

  /** Every checked range, pushed by the indices added and removed before it (the `splice` loop). */
  function ShiftAll(cs: seq<Checked>, added: seq<nat>, removed: seq<nat>, t: Table): (r: seq<Checked>)
    ensures |r| == |cs|
    ensures forall i :: 0 <= i < |cs| ==> r[i] == Shifted(cs[i], added, removed, t)
  {
    seq(|cs|, i requires 0 <= i < |cs| => Shifted(cs[i], added, removed, t))
  }

  /** The checked ranges after a full resynchronisation, computed on the table before it. */
  function CheckedAfterSync(cs: seq<Checked>, diff: Diff<Element>, t: Table): seq<Checked> {
    var shifted := ShiftAll(DropRemoved(DropAdded(cs, diff.added), diff.removed), diff.added, diff.removed, t);
    if |diff.changed| > 0 then DropMaintained(shifted, diff.maintained) else shifted
  }

  /**
   * No checked range survives next to a removed index or over an added one,
   * and every survivor keeps its width; when indices changed, none covers a
   * kept item's new index either.
   */
  lemma CheckedAfterSyncDropsTouched(cs: seq<Checked>, diff: Diff<Element>, t: Table, c: Checked)
    requires c in CheckedAfterSync(cs, diff, t)
    ensures exists d :: d in cs && d.1 - d.0 == c.1 - c.0
              && (forall a :: a in diff.added ==> !Overlaps(d, a, a))
              && (forall x :: x in diff.removed ==> !NextTo(d, x))
    ensures |diff.changed| > 0 ==> forall p :: p in diff.maintained ==> !Overlaps(c, p.1, p.1)
  {
    var dropped := DropRemoved(DropAdded(cs, diff.added), diff.removed);
    var shifted := ShiftAll(dropped, diff.added, diff.removed, t);
    assert c in shifted;
    var i :| 0 <= i < |shifted| && shifted[i] == c;
    assert dropped[i] in dropped;
  }

  /**
   * The tables of a full resynchronisation: the originals built from the
   * kept and added originals, and the new number of clone groups, each
   * built from the cloned part of the list in circular mode and empty
   * otherwise.
   */
  ghost predicate FullRebuilt(prev: Table, prevClones: seq<Table>, cloneCount: nat, diff: Diff<Element>, circular: bool,
                              np: Table, nc: seq<Table>)
    requires FullSyncReady(diff) && KeptOriginalsPresent(diff, prev)
  {
    var o := NewOriginalCount(|diff.list|, cloneCount);
    var m := KeptOriginals(diff.maintained, GetRange(prev));
    var a := AddedOriginals(diff.added, o);
    && OriginalsBuilt(np, prev, m, a, diff.list[..o])
    && |nc| == NewCloneCount(|diff.list|, o)
    && (!circular ==> forall g :: 0 <= g < |nc| ==> nc[g] == [])
    && (circular ==> forall g :: 0 <= g < |nc| ==>
          GroupInRange(o, g, |diff.list| - o, a) &&
          CloneGroupBuilt(nc[g], np, PrevGroup(prevClones, g), m, a, g, diff.list[o..], o * g))
  }

  method RebuildTables(prev: Table, prevClones: seq<Table>, cloneCount: nat, diff: Diff<Element>, circular: bool)
    returns (np: Table, nc: seq<Table>)
    requires FullSyncReady(diff) && KeptOriginalsPresent(diff, prev)
    ensures FullRebuilt(prev, prevClones, cloneCount, diff, circular, np, nc)
  {
    var o := NewOriginalCount(|diff.list|, cloneCount);
    var groupCount := NewCloneCount(|diff.list|, o);
    var m := KeptOriginals(diff.maintained, GetRange(prev));
    var a := AddedOriginals(diff.added, o);
    OriginalTargetsDistinct(diff, GetRange(prev), o);
    np := BuildOriginals(prev, m, a, diff.list[..o]);
    if circular && groupCount > 0 {
      CloneGroupsFitList(|diff.list|, cloneCount);
      nc := BuildClones(np, prevClones, m, a, groupCount, o, diff.list[o..], circular);
    } else {
      nc := seq(groupCount, _ => []);
    }
  }

  // ----- Rebinding the visible panels (src/Flicking.ts:738-746) -----

  /** Where a panel `calcVisiblePanels` reports sits: the original table, or clone group `g`. */
  datatype Position = Position(group: Option<nat>, index: nat)

  /** The panel at a position; none for a hole or a position outside the tables. */
  function PanelAt(panels: Table, clones: seq<Table>, q: Position): (r: Option<Panel>)
    ensures q.group.None? ==> r == At(panels, q.index)
    ensures q.group.Some? ==> r == if q.group.value < |clones| then At(clones[q.group.value], q.index) else None
  {
    match q.group
    case None => At(panels, q.index)
    case Some(g) => if g < |clones| then At(clones[g], q.index) else None
  }

  /** The last of the first `upto` reported positions that is `q`, or -1 when none is. */
  function LastReport(ps: seq<Position>, q: Position, upto: nat): (r: int)
    requires upto <= |ps|
    ensures -1 <= r < upto
    ensures r >= 0 ==> ps[r] == q
    ensures forall k :: r < k < upto ==> ps[k] != q
  {
    if upto == 0 then -1 else if ps[upto - 1] == q then upto - 1 else LastReport(ps, q, upto - 1)
  }

  /** An entry once rebound: the panel bound to the element rendered at index `last`, untouched for `-1` or a hole. */
  function Rebound(o: Option<Panel>, last: int, elements: seq<Element>): (r: Option<Panel>)
    ensures r.Some? <==> o.Some?
    ensures last < 0 ==> r == o
    ensures last >= 0 && o.Some? ==> r == Some(o.value.(element := ElementAt(elements, last)))
  {
    if last < 0 || o.None? then o else Some(o.value.(element := ElementAt(elements, last)))
  }

  /** Table `t` (the originals, or group `group`) after the first `upto` reported panels are rebound. */
  function ReboundTable(t: Table, group: Option<nat>, ps: seq<Position>, upto: nat, elements: seq<Element>): (r: Table)
    requires upto <= |ps|
    ensures |r| == |t|
    ensures forall i :: 0 <= i < |t| ==> r[i] == Rebound(t[i], LastReport(ps, Position(group, i), upto), elements)
  {
    seq(|t|, i requires 0 <= i < |t| => Rebound(t[i], LastReport(ps, Position(group, i), upto), elements))
  }

  /** Every clone group after the first `upto` reported panels are rebound. */
  function ReboundClones(clones: seq<Table>, ps: seq<Position>, upto: nat, elements: seq<Element>): (r: seq<Table>)
    requires upto <= |ps|
    ensures |r| == |clones|
    ensures forall g :: 0 <= g < |clones| ==> r[g] == ReboundTable(clones[g], Some(g), ps, upto, elements)
  {
    seq(|clones|, g requires 0 <= g < |clones| => ReboundTable(clones[g], Some(g), ps, upto, elements))
  }

  /** The panels at the reported positions, in the order reported. */
  function PanelsAt(panels: Table, clones: seq<Table>, ps: seq<Position>): (r: Table)
    ensures |r| == |ps| && forall k :: 0 <= k < |ps| ==> r[k] == PanelAt(panels, clones, ps[k])
  {
    seq(|ps|, k requires 0 <= k < |ps| => PanelAt(panels, clones, ps[k]))
  }

  /** Every position names a panel of the tables. */
  predicate Reported(panels: Table, clones: seq<Table>, ps: seq<Position>) {
    forall k :: 0 <= k < |ps| ==> PanelAt(panels, clones, ps[k]).Some?
  }

  /**
   * Rebinding the whole list and then looking a position up gives the panel
   * that was there, bound to the element at the last index that reported it.
   */
  lemma ReboundPanelAt(panels: Table, clones: seq<Table>, ps: seq<Position>, elements: seq<Element>, q: Position)
    ensures PanelAt(ReboundTable(panels, None, ps, |ps|, elements), ReboundClones(clones, ps, |ps|, elements), q)
            == Rebound(PanelAt(panels, clones, q), LastReport(ps, q, |ps|), elements)
  {
    var np, nc := ReboundTable(panels, None, ps, |ps|, elements), ReboundClones(clones, ps, |ps|, elements);
    match q.group
    case None =>
      if q.index < |panels| {
        assert np[q.index] == Rebound(panels[q.index], LastReport(ps, Position(None, q.index), |ps|), elements);
      }
    case Some(g) =>
      if g < |clones| && q.index < |clones[g]| {
        assert nc[g][q.index] == Rebound(clones[g][q.index], LastReport(ps, Position(Some(g), q.index), |ps|), elements);
      }
  }

  /**
   * When no panel is reported twice, the `k`-th visible panel after the
   * rebinding is the panel reported there, bound to the `k`-th rendered
   * element and otherwise unchanged.
   */
  lemma RebindFollowsRenderOrder(panels: Table, clones: seq<Table>, ps: seq<Position>, elements: seq<Element>, k: nat)
    requires Reported(panels, clones, ps)
    requires forall j, k' :: 0 <= j < k' < |ps| ==> ps[j] != ps[k']
    requires k < |ps|
    ensures PanelsAt(ReboundTable(panels, None, ps, |ps|, elements), ReboundClones(clones, ps, |ps|, elements), ps)[k]
            == Some(PanelAt(panels, clones, ps[k]).value.(element := ElementAt(elements, k)))
  {
    ReboundPanelAt(panels, clones, ps, elements, ps[k]);
    var last := LastReport(ps, ps[k], |ps|);
    assert last == k;
  }

  /** One more reported panel: only the entry at its position changes, to the panel bound to element `k`. */
  lemma RebindStep(t: Table, group: Option<nat>, ps: seq<Position>, k: nat, elements: seq<Element>)
    requires k < |ps|
    ensures ps[k].group == group && ps[k].index < |t| ==>
              ReboundTable(t, group, ps, k + 1, elements)
                == ReboundTable(t, group, ps, k, elements)[ps[k].index := Rebound(ReboundTable(t, group, ps, k, elements)[ps[k].index], k, elements)]
    ensures ps[k].group != group ==> ReboundTable(t, group, ps, k + 1, elements) == ReboundTable(t, group, ps, k, elements)
  {
  }

  lemma RebindNothing(panels: Table, clones: seq<Table>, ps: seq<Position>, elements: seq<Element>)
    ensures ReboundTable(panels, None, ps, 0, elements) == panels
    ensures ReboundClones(clones, ps, 0, elements) == clones
  {
    forall g | 0 <= g < |clones|
      ensures ReboundTable(clones[g], Some(g), ps, 0, elements) == clones[g]
    {
    }
  }

  /** One more reported panel, on the clone groups: only its own group changes, at its index. */
  lemma RebindClonesStep(clones: seq<Table>, ps: seq<Position>, k: nat, elements: seq<Element>)
    requires k < |ps|
    ensures var before := ReboundClones(clones, ps, k, elements);
            var q := ps[k];
            if q.group.Some? && q.group.value < |clones| && q.index < |clones[q.group.value]| then
              ReboundClones(clones, ps, k + 1, elements)
                == before[q.group.value := before[q.group.value][q.index := Rebound(before[q.group.value][q.index], k, elements)]]
            else ReboundClones(clones, ps, k + 1, elements) == before
  {
    var before := ReboundClones(clones, ps, k, elements);
    var after := ReboundClones(clones, ps, k + 1, elements);
    forall g | 0 <= g < |clones|
      ensures after[g] == if ps[k].group == Some(g) && ps[k].index < |clones[g]|
                          then before[g][ps[k].index := Rebound(before[g][ps[k].index], k, elements)]
                          else before[g]
    {
      RebindStep(clones[g], Some(g), ps, k, elements);
    }
  }

  // ----- The controller -----

  class Flicking {
    const circular: bool
    const horizontal: bool
    const renderOnlyVisible: bool

    /** `panelManager`: the original panels and one table per clone group. */
    var panels: Table
    var clones: seq<Table>
    var cloneCount: nat
    /** `viewport`: checked ranges, the rendered panels in only-visible mode, the camera. */
    var checkedIndexes: seq<Checked>
    var visiblePanels: Table
    var visibleIndex: VisibleIndex
    var camera: int
    var state: GestureState

    /** A controller with no panel yet, at rest. */
    constructor (circular: bool, horizontal: bool, renderOnlyVisible: bool)
      ensures this.circular == circular && this.horizontal == horizontal && this.renderOnlyVisible == renderOnlyVisible
      ensures panels == [] && clones == [] && cloneCount == 0 && checkedIndexes == [] && visiblePanels == []
      ensures visibleIndex == Unset && camera == 0 && state == GestureState(Idle, false, None, 0)
    {
      this.circular := circular;
      this.horizontal := horizontal;
      this.renderOnlyVisible := renderOnlyVisible;
      panels := [];
      clones := [];
      cloneCount := 0;
      checkedIndexes := [];
      visiblePanels := [];
      visibleIndex := Unset;
      camera := 0;
      state := GestureState(Idle, false, None, 0);
    }

    /**
     * `moveCamera`: a trusted move while holding updates the direction, the
     * delta always grows, the camera follows the axes, and when a listener
     * cancels the move event the camera goes back where it was.
     */
    method MoveCamera(e: AxesEvent, scrollAreaSize: nat, accepted: bool) returns (cb: TriggerCallback)
      modifies this`state, this`camera
      ensures cb == TriggerEvent(true, accepted)
      ensures state.direction == if e.isTrusted && old(state).holding
                                 then NewDirection(e, old(camera), old(state).direction, horizontal, circular, scrollAreaSize)
                                 else old(state).direction
      ensures state == old(state).(direction := state.direction, delta := old(state).delta + e.delta)
      ensures camera == if accepted then e.pos else old(camera)
    {
      var previous := camera;
      if e.isTrusted && state.holding {
        state := state.(direction := NewDirection(e, previous, state.direction, horizontal, circular, scrollAreaSize));
      }
      state := state.(delta := state.delta + e.delta);
      camera := e.pos;
      cb := TriggerEvent(true, accepted);
      camera := OnStopped(cb, (_: int) => previous, camera);
    }

    /** The `checkedIndexes.forEach(... splice ...)` loop: each range pushed in place. */
    method ShiftCheckedIndexes(added: seq<nat>, removed: seq<nat>)
      modifies this`checkedIndexes
      ensures checkedIndexes == ShiftAll(old(checkedIndexes), added, removed, panels)
    {
      var idx := 0;
      while idx < |checkedIndexes|
        invariant idx <= |checkedIndexes| == |old(checkedIndexes)|
        invariant forall i :: 0 <= i < idx ==> checkedIndexes[i] == Shifted(old(checkedIndexes)[i], added, removed, panels)
        invariant forall i :: idx <= i < |checkedIndexes| ==> checkedIndexes[i] == old(checkedIndexes)[i]
      {
        checkedIndexes := checkedIndexes[idx := Shifted(checkedIndexes[idx], added, removed, panels)];
        idx := idx + 1;
      }
    }

    /** The kept originals of a changed diff miss a panel, so the full resynchronisation throws. */
    predicate FullSyncThrows(diff: Diff<Element>)
      reads this
    {
      Changed(diff) && !KeptOriginalsPresent(diff, panels)
    }

    /**
     * `sync` outside only-visible mode: rebuilds the original and clone
     * tables from the diff, drops and pushes the checked ranges, and
     * replaces the panels; a diff without change leaves everything as it
     * is, and so does one whose kept originals miss a panel, which throws.
     */
    method SyncFull(diff: Diff<Element>) returns (thrown: bool)
      requires FullSyncReady(diff)
      modifies this`panels, this`clones, this`cloneCount, this`checkedIndexes
      ensures thrown <==> old(FullSyncThrows(diff))
      ensures !Changed(diff) || thrown ==>
                panels == old(panels) && clones == old(clones) && cloneCount == old(cloneCount) && checkedIndexes == old(checkedIndexes)
      ensures Changed(diff) && !thrown ==>
                && old(KeptOriginalsPresent(diff, panels))
                && FullRebuilt(old(panels), old(clones), old(cloneCount), diff, circular, panels, clones)
                && cloneCount == |clones|
                && checkedIndexes == CheckedAfterSync(old(checkedIndexes), diff, old(panels))
    {
      thrown := false;
      if !Changed(diff) {
        return;
      }
      if !KeptOriginalsPresent(diff, panels) {
        thrown := true;
        return;
      }
      var np, nc := RebuildTables(panels, clones, cloneCount, diff, circular);
      checkedIndexes := DropRemoved(DropAdded(checkedIndexes, diff.added), diff.removed);
      ShiftCheckedIndexes(diff.added, diff.removed);
      if |diff.changed| > 0 {
        checkedIndexes := DropMaintained(checkedIndexes, diff.maintained);
      }
      panels, clones, cloneCount := np, nc, |nc|;
    }

    // ----- sync in only-visible mode (src/Flicking.ts:670-748) -----

    /** `visibleIndex.max - visibleIndex.min`: the leading part of the rendered list that was already visible. */
    function PrevVisibleCount(): nat
      reads this
      requires visibleIndex.Window? && visibleIndex.min <= visibleIndex.max
    {
      visibleIndex.max - visibleIndex.min
    }

    /** What the original list's diff branch needs: a window, a consistent diff, and no more clone tables than groups. */
    ghost predicate OriginalsSyncReady<T>(od: Diff<T>)
      reads this
    {
      && visibleIndex.Window? && visibleIndex.min <= visibleIndex.max
      && DistinctTargets(od.maintained, od.added)
      && (forall j, k :: 0 <= j < k < |od.added| ==> od.added[j] != od.added[k])
      && |clones| <= cloneCount
    }

    /**
     * The original list changed: kept panels and their clones move to their
     * new indices, each added item gets a panel and, in circular mode, one
     * clone per group, all of which are appended to the visible panels; the
     * visible window is reset. A kept index that names no panel throws
     * before anything is replaced.
     */
    method SyncVisibleOriginals<T>(elements: seq<Element>, od: Diff<T>) returns (thrown: bool)
      requires OriginalsSyncReady(od)
      modifies this`panels, this`clones, this`visiblePanels, this`visibleIndex
      ensures thrown <==> !old(KeptArePresent(panels, od.maintained))
      ensures thrown ==> panels == old(panels) && clones == old(clones) && visiblePanels == old(visiblePanels) && visibleIndex == old(visibleIndex)
      ensures !thrown ==>
                var addedElements := AddedElements(elements, old(PrevVisibleCount()), |od.added|);
                var ace := AddedCloneSlice(elements, old(PrevVisibleCount()), |od.added|, cloneCount, circular);
                && old(KeptArePresent(panels, od.maintained))
                && |visiblePanels| >= |old(visiblePanels)|
                && OriginalsRebuilt(old(panels), old(clones), cloneCount, od.maintained, od.added, addedElements, ace,
                                    circular, panels, clones, visiblePanels[|old(visiblePanels)|..])
                && visiblePanels[..|old(visiblePanels)|] == old(visiblePanels)
                && visibleIndex == Unset
    {
      if !KeptArePresent(panels, od.maintained) {
        return true;
      }
      thrown := false;
      var addedElements := AddedElements(elements, PrevVisibleCount(), |od.added|);
      var ace := AddedCloneSlice(elements, PrevVisibleCount(), |od.added|, cloneCount, circular);
      var np, nc, addedPanels := RebuildForOriginals(panels, clones, cloneCount, od.maintained, od.added, addedElements, ace, circular);
      visiblePanels := visiblePanels + addedPanels;
      panels, clones := np, nc;
      visibleIndex := Unset;
    }

    /**
     * The clone count changed: new groups, cloned from the original table
     * with its holes, are inserted and appended to the visible panels, or
     * the surplus groups are removed; the visible window is reset.
     */
    method SyncVisibleCloneCount(elements: seq<Element>, prevCloneCount: nat)
      requires cloneCount != prevCloneCount
      requires visibleIndex.Window? && visibleIndex.min <= visibleIndex.max
      modifies this`clones, this`visiblePanels, this`visibleIndex
      ensures cloneCount > prevCloneCount ==>
                CloneGroupsAdded(old(clones), old(visiblePanels), clones, visiblePanels, panels, prevCloneCount,
                                 elements, old(PrevVisibleCount()), cloneCount - prevCloneCount)
      ensures cloneCount < prevCloneCount ==> clones == RemoveClonesAfter(old(clones), cloneCount) && visiblePanels == old(visiblePanels)
      ensures visibleIndex == Unset
    {
      if cloneCount > prevCloneCount {
        clones, visiblePanels := AddCloneGroups(clones, visiblePanels, panels, prevCloneCount, elements,
                                                PrevVisibleCount(), cloneCount - prevCloneCount);
      } else {
        clones := RemoveClonesAfter(clones, cloneCount);
      }
      visibleIndex := Unset;
    }

    /**
     * Nothing but the window changed: each panel `calcVisiblePanels` reports
     * is bound, where it sits in the tables, to the element rendered at its
     * index (a panel reported twice keeps the later one); no other entry
     * changes, and the reported panels, rebound, are the visible ones.
     */
    method RebindVisible(elements: seq<Element>, calcVisible: seq<Position>)
      requires Reported(panels, clones, calcVisible)
      modifies this`panels, this`clones, this`visiblePanels
      ensures panels == ReboundTable(old(panels), None, calcVisible, |calcVisible|, elements)
      ensures clones == ReboundClones(old(clones), calcVisible, |calcVisible|, elements)
      ensures visiblePanels == PanelsAt(panels, clones, calcVisible)
    {
      ghost var panels0, clones0 := panels, clones;
      RebindNothing(panels0, clones0, calcVisible, elements);
      for k := 0 to |calcVisible|
        invariant panels == ReboundTable(panels0, None, calcVisible, k, elements)
        invariant clones == ReboundClones(clones0, calcVisible, k, elements)
      {
        var q := calcVisible[k];
        assert PanelAt(panels0, clones0, q).Some?;
        RebindStep(panels0, None, calcVisible, k, elements);
        RebindClonesStep(clones0, calcVisible, k, elements);
        match q.group {
          case None =>
            panels := panels[q.index := Rebound(panels[q.index], k, elements)];
          case Some(g) =>
            clones := clones[g := clones[g][q.index := Rebound(clones[g][q.index], k, elements)]];
        }
      }
      visiblePanels := PanelsAt(panels, clones, calcVisible);
    }

    /** The diff reports some change. */
    static predicate Changed<T>(d: Diff<T>) {
      |d.added| > 0 || |d.removed| > 0 || |d.changed| > 0
    }

    /** The full resynchronisation runs: outside only-visible mode, or without the original list's diff. */
    predicate FullMode<T>(origDiff: Option<Diff<T>>)
      reads this
    {
      !renderOnlyVisible || origDiff.None?
    }

    /** `sync` throws: a kept index, in the branch taken, names no panel. */
    predicate SyncThrows<T>(diff: Diff<Element>, origDiff: Option<Diff<T>>)
      reads this
    {
      if FullMode(origDiff) then FullSyncThrows(diff)
      else Changed(origDiff.value) && !KeptArePresent(panels, origDiff.value.maintained)
    }

    /** What `sync` needs in the branch the diffs select. */
    ghost predicate SyncReady<T>(diff: Diff<Element>, origDiff: Option<Diff<T>>, prevCloneCount: nat, calcVisible: seq<Position>)
      reads this
    {
      && (FullMode(origDiff) ==> FullSyncReady(diff))
      && (!FullMode(origDiff) && Changed(origDiff.value) ==> OriginalsSyncReady(origDiff.value))
      && (!FullMode(origDiff) && !Changed(origDiff.value) && cloneCount != prevCloneCount ==>
            visibleIndex.Window? && visibleIndex.min <= visibleIndex.max)
      && (!FullMode(origDiff) && !Changed(origDiff.value) && cloneCount == prevCloneCount ==>
            Reported(panels, clones, calcVisible))
    }

    /**
     * `sync`: a full resynchronisation unless only the visible panels are
     * rendered and the original list's diff is given; then one of three
     * updates, chosen by what changed. When it throws, nothing is replaced.
     */
    method Sync<T>(diff: Diff<Element>, origDiff: Option<Diff<T>>, prevCloneCount: nat, calcVisible: seq<Position>)
      returns (thrown: bool)
      requires SyncReady(diff, origDiff, prevCloneCount, calcVisible)
      modifies this
      ensures thrown <==> old(SyncThrows(diff, origDiff))
      ensures thrown ==>
                && panels == old(panels) && clones == old(clones) && cloneCount == old(cloneCount)
                && checkedIndexes == old(checkedIndexes) && visiblePanels == old(visiblePanels) && visibleIndex == old(visibleIndex)
      ensures camera == old(camera) && state == old(state)
      // outside only-visible mode
      ensures FullMode(origDiff) ==> visiblePanels == old(visiblePanels) && visibleIndex == old(visibleIndex)
      ensures FullMode(origDiff) && !Changed(diff) ==>
                panels == old(panels) && clones == old(clones) && cloneCount == old(cloneCount) && checkedIndexes == old(checkedIndexes)
      ensures FullMode(origDiff) && Changed(diff) && !thrown ==>
                && old(KeptOriginalsPresent(diff, panels))
                && FullRebuilt(old(panels), old(clones), old(cloneCount), diff, circular, panels, clones)
                && cloneCount == |clones|
                && checkedIndexes == CheckedAfterSync(old(checkedIndexes), diff, old(panels))
      // in only-visible mode
      ensures !FullMode(origDiff) ==> checkedIndexes == old(checkedIndexes) && cloneCount == old(cloneCount)
      ensures !FullMode(origDiff) && Changed(origDiff.value) && !thrown ==>
                && old(visibleIndex).Window? && old(visibleIndex).min <= old(visibleIndex).max
                && old(KeptArePresent(panels, origDiff.value.maintained))
                && |visiblePanels| >= |old(visiblePanels)|
                && OriginalsRebuilt(old(panels), old(clones), cloneCount, origDiff.value.maintained, origDiff.value.added,
                                    AddedElements(diff.list, old(PrevVisibleCount()), |origDiff.value.added|),
                                    AddedCloneSlice(diff.list, old(PrevVisibleCount()), |origDiff.value.added|, cloneCount, circular),
                                    circular, panels, clones, visiblePanels[|old(visiblePanels)|..])
                && visiblePanels[..|old(visiblePanels)|] == old(visiblePanels)
                && visibleIndex == Unset
      ensures !FullMode(origDiff) && !Changed(origDiff.value) ==> !thrown
      ensures !FullMode(origDiff) && !Changed(origDiff.value) && cloneCount != prevCloneCount ==>
                panels == old(panels) && visibleIndex == Unset
      ensures !FullMode(origDiff) && !Changed(origDiff.value) && cloneCount > prevCloneCount ==>
                && old(visibleIndex).Window? && old(visibleIndex).min <= old(visibleIndex).max
                && CloneGroupsAdded(old(clones), old(visiblePanels), clones, visiblePanels, panels, prevCloneCount,
                                    diff.list, old(PrevVisibleCount()), cloneCount - prevCloneCount)
      ensures !FullMode(origDiff) && !Changed(origDiff.value) && cloneCount < prevCloneCount ==>
                clones == RemoveClonesAfter(old(clones), cloneCount) && visiblePanels == old(visiblePanels)
      ensures !FullMode(origDiff) && !Changed(origDiff.value) && cloneCount == prevCloneCount ==>
                && panels == ReboundTable(old(panels), None, calcVisible, |calcVisible|, diff.list)
                && clones == ReboundClones(old(clones), calcVisible, |calcVisible|, diff.list)
                && visiblePanels == PanelsAt(panels, clones, calcVisible)
                && visibleIndex == old(visibleIndex)
    {
      thrown := false;
      if FullMode(origDiff) {
        thrown := SyncFull(diff);
      } else if Changed(origDiff.value) {
        thrown := SyncVisibleOriginals(diff.list, origDiff.value);
      } else if cloneCount != prevCloneCount {
        SyncVisibleCloneCount(diff.list, prevCloneCount);
      } else {
        RebindVisible(diff.list, calcVisible);
      }
    }
  }
}
