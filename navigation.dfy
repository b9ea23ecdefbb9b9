/**
 * The public movement and query operations of the controller: `moveTo` with
 * its circular "nearest copy" resolution, `prev`/`next`, the insertion index
 * of `prepend`/`append`, the hole filtering of `getAllPanels`/`getStatus`,
 * and the callback object returned by `triggerEvent`.
 */
module Navigation {
  import opened Wrappers
  import opened JsSemantics
  import opened Panels

  /** The states of the gesture machine that matter here; only `Idle` lets a movement start. */
  datatype StateType = Idle | Holding | Animating

  datatype Direction = Prev | Next

  /** The event a committed move emits: `""` (none) or `"change"`. */
  datatype EventType = NoEvent | Change

  /** A member of `panel.getIdenticalPanels()`: the original, or its copy in a clone group. */
  datatype Identical = Original | Copy(group: nat)

  /** A number or `Infinity`, the seed of the `reduce` in `moveTo`. */
  datatype Extended = Finite(v: int) | PosInfinity

  /** `Math.abs(c - h) < Math.abs(e - h)`, where every finite distance is below `Infinity`. */
  predicate Closer(c: int, e: Extended, h: int) {
    e.PosInfinity? || Abs(c - h) < Abs(e.v - h)
  }

  /** `cands.reduce((nearest, current) => closer ? current : nearest, acc)`. */
  function ReduceNearest(cands: seq<int>, h: int, acc: Extended): Extended
    decreases |cands|
  {
    if cands == [] then acc
    else ReduceNearest(cands[1..], h, if Closer(cands[0], acc, h) then Finite(cands[0]) else acc)
  }

  /** Reference definition: the first index whose candidate is nearest to `h`. */
  function FirstNearestIndex(cands: seq<int>, h: int): (k: nat)
    requires |cands| > 0
    ensures k < |cands|
    ensures forall j :: 0 <= j < k ==> Abs(cands[j] - h) > Abs(cands[k] - h)
    ensures forall j :: k < j < |cands| ==> Abs(cands[j] - h) >= Abs(cands[k] - h)
    decreases |cands|
  {
    if |cands| == 1 then 0
    else
      var k' := FirstNearestIndex(cands[1..], h) + 1;
      if Abs(cands[0] - h) <= Abs(cands[k'] - h) then 0 else k'
  }

  lemma {:induction false} ReduceNearestFrom(cands: seq<int>, h: int, acc: Extended)
    requires |cands| > 0
    ensures var c := cands[FirstNearestIndex(cands, h)];
            ReduceNearest(cands, h, acc) == if Closer(c, acc, h) then Finite(c) else acc
    decreases |cands|
  {
    var acc' := if Closer(cands[0], acc, h) then Finite(cands[0]) else acc;
    if |cands| > 1 {
      ReduceNearestFrom(cands[1..], h, acc');
    }
  }

  /**
   * The `reduce` seeded with `Infinity` picks a candidate at least as near as
   * every other one, and among equally near candidates the first.
   */
  lemma ReduceNearestIsFirstNearest(cands: seq<int>, h: int)
    requires |cands| > 0
    ensures ReduceNearest(cands, h, PosInfinity) == Finite(cands[FirstNearestIndex(cands, h)])
  {
    ReduceNearestFrom(cands, h, PosInfinity);
  }

  lemma NearestOfThree(cands: seq<int>, h: int)
    requires |cands| == 3
    ensures ReduceNearest(cands, h, PosInfinity).Finite?
    ensures var c := ReduceNearest(cands, h, PosInfinity).v;
            && (c == cands[0] || c == cands[1] || c == cands[2])
            && Abs(c - h) <= Abs(cands[0] - h) && Abs(c - h) <= Abs(cands[1] - h) && Abs(c - h) <= Abs(cands[2] - h)
            && (c != cands[0] ==> Abs(cands[0] - h) > Abs(c - h))
            && (c != cands[0] && c != cands[1] ==> Abs(cands[1] - h) > Abs(c - h))
  {
    ReduceNearestIsFirstNearest(cands, h);
    var k := FirstNearestIndex(cands, h);
    assert k == 0 || k == 1 || k == 2;
  }

  /** The three places a panel can appear on a circular track: previous loop, own, next loop. */
  function Candidates(anchor: int, scrollAreaSize: int): seq<int> {
    [anchor - scrollAreaSize, anchor, anchor + scrollAreaSize]
  }

  /** The candidate anchor position nearest to the hanger (before subtracting the relative anchor). */
  function NearestAnchor(anchor: int, scrollAreaSize: int, hanger: int): (c: int)
    ensures c in Candidates(anchor, scrollAreaSize)
    ensures forall d :: d in Candidates(anchor, scrollAreaSize) ==> Abs(c - hanger) <= Abs(d - hanger)
    ensures c == anchor && scrollAreaSize != 0 ==> Abs(anchor - scrollAreaSize - hanger) > Abs(anchor - hanger)
    ensures c == anchor + scrollAreaSize && scrollAreaSize != 0 ==>
              Abs(anchor - scrollAreaSize - hanger) > Abs(c - hanger) && Abs(anchor - hanger) > Abs(c - hanger)
  {
    var cands := Candidates(anchor, scrollAreaSize);
    NearestOfThree(cands, hanger);
    ReduceNearest(cands, hanger, PosInfinity).v
  }

  /**
   * The retargeting step: `offset > 0` takes `identicals[1]`, `offset < 0` the
   * last identical, `0` keeps the panel. `None` is the `TypeError` when
   * `identicals[1]` does not exist (no clone group).
   */
  function Retarget(offset: int, cloneCount: nat): (r: Option<Identical>)
    ensures offset == 0 ==> r == Some(Original)
    ensures offset > 0 ==> (r.Some? <==> cloneCount >= 1) && (r.Some? ==> r.value == Copy(0))
    ensures offset < 0 ==> r == Some(if cloneCount == 0 then Original else Copy(cloneCount - 1))
  {
    if offset > 0 then (if cloneCount >= 1 then Some(Copy(0)) else None)
    else if offset < 0 then Some(if cloneCount == 0 then Original else Copy(cloneCount - 1))
    else Some(Original)
  }

  datatype MoveOutcome =
    | NoMove
    | Throws
    | Move(target: Identical, targetAnchor: int, eventType: EventType)

  /**
   * `flicking.moveTo(index)`: which panel copy the viewport animates to, the
   * anchor position it will rest at, and the event it commits. `anchor` and
   * `relativeAnchor` are the requested panel's geometry, `hanger` the hanger
   * position, `currentIndex` the viewport's current index. A clone has the
   * same size as its original, so after `setPosition(nearest)` its anchor is
   * `nearest + relativeAnchor`.
   */
  function MoveTo(panels: Table, index: int, state: StateType, circular: bool,
                  anchor: int, relativeAnchor: int, hanger: int, scrollAreaSize: int,
                  cloneCount: nat, currentIndex: int): (r: MoveOutcome)
    ensures Get(panels, index).None? || state != Idle ==> r == NoMove
    ensures r.Move? ==> Get(panels, index).Some? && state == Idle
    ensures r.Move? ==> !(hanger == r.targetAnchor && currentIndex == index)
    ensures r.Move? ==> (r.eventType == NoEvent <==> Get(panels, index).value.index == currentIndex)
    ensures !circular ==> r != Throws
    ensures !circular && r.Move? ==> r.target == Original && r.targetAnchor == anchor
    ensures (!circular && Get(panels, index).Some? && state == Idle && !(hanger == anchor && currentIndex == index))
              ==> r.Move?
    ensures circular && r.Move? ==>
              forall d :: d in Candidates(anchor, scrollAreaSize) ==> Abs(r.targetAnchor - hanger) <= Abs(d - hanger)
    ensures circular && r.Move? ==>
              r.targetAnchor == NearestAnchor(anchor, scrollAreaSize, hanger) &&
              Retarget(NearestAnchor(anchor, scrollAreaSize, hanger) - relativeAnchor - anchor, cloneCount) == Some(r.target)
    ensures r == Throws <==>
              circular && Get(panels, index).Some? && state == Idle &&
              NearestAnchor(anchor, scrollAreaSize, hanger) - relativeAnchor - anchor > 0 && cloneCount == 0
    ensures (circular && Get(panels, index).Some? && state == Idle &&
             !(NearestAnchor(anchor, scrollAreaSize, hanger) - relativeAnchor - anchor > 0 && cloneCount == 0) &&
             !(hanger == NearestAnchor(anchor, scrollAreaSize, hanger) && currentIndex == index))
              ==> r.Move?
  {
    var panel := Get(panels, index);
    if panel.None? || state != Idle then NoMove
    else
      var choice: Option<(Identical, int)> :=
        if circular then
          var nearestPosition := NearestAnchor(anchor, scrollAreaSize, hanger) - relativeAnchor;
          match Retarget(nearestPosition - anchor, cloneCount)
          case None => None
          case Some(t) => Some((t, nearestPosition + relativeAnchor))
        else Some((Original, anchor));
      match choice
      case None => Throws
      case Some(pick) =>
        var (target, targetAnchor) := pick;
        if hanger == targetAnchor && currentIndex == index then NoMove
        else Move(target, targetAnchor, if panel.value.index == currentIndex then NoEvent else Change)
  }

  /**
   * The code compares `nearest - relativeAnchor` (a panel position) with the
   * panel's anchor position, so when the panel's own copy is the nearest and its
   * relative anchor is positive, the offset is negative and the last clone is taken.
   */
  lemma OwnCopyWithPositiveAnchorGoesToLastClone(panels: Table, index: int, anchor: int, relativeAnchor: int,
                                                 hanger: int, scrollAreaSize: int, cloneCount: nat, currentIndex: int)
    requires Get(panels, index).Some?
    requires relativeAnchor > 0 && cloneCount >= 1 && hanger != anchor
    requires NearestAnchor(anchor, scrollAreaSize, hanger) == anchor
    ensures MoveTo(panels, index, Idle, true, anchor, relativeAnchor, hanger, scrollAreaSize, cloneCount, currentIndex)
            == Move(Copy(cloneCount - 1), anchor,
                    if Get(panels, index).value.index == currentIndex then NoEvent else Change)
  {
  }

  /** With a zero relative anchor the copy follows the loop: next loop to group 0, previous loop to the last group. */
  lemma ZeroAnchorFollowsLoop(anchor: int, hanger: int, scrollAreaSize: int, cloneCount: nat)
    requires scrollAreaSize > 0 && cloneCount >= 1
    ensures var c := NearestAnchor(anchor, scrollAreaSize, hanger);
            Retarget(c - anchor, cloneCount) ==
              Some(if c == anchor then Original
                   else if c == anchor + scrollAreaSize then Copy(0)
                   else Copy(cloneCount - 1))
  {
  }

  /** The documented example: track size 300, hanger 0, anchor 280 resolves to the previous loop at -20. */
  lemma PreviousLoopExample()
    ensures NearestAnchor(280, 300, 0) == -20
  {
    ReduceNearestIsFirstNearest(Candidates(280, 300), 0);
  }

  /**
   * `prev()` / `next()`: the panel that gets focused. `neighbour` is
   * `currentPanel.prev()` or `currentPanel.next()`, which the panel computes.
   */
  function Step(current: Option<Panel>, state: StateType, neighbour: Panel -> Option<Panel>): (r: Option<Panel>)
    ensures r.Some? <==> current.Some? && state == Idle && neighbour(current.value).Some?
    ensures r.Some? ==> r == neighbour(current.value)
  {
    if current.Some? && state == Idle then neighbour(current.value) else None
  }

  /** No movement command has an effect while a gesture or an animation is in progress. */
  lemma MovementOnlyWhenIdle(panels: Table, index: int, state: StateType, circular: bool,
                             anchor: int, relativeAnchor: int, hanger: int, scrollAreaSize: int,
                             cloneCount: nat, currentIndex: int, current: Option<Panel>,
                             prevOf: Panel -> Option<Panel>, nextOf: Panel -> Option<Panel>)
    requires state != Idle
    ensures MoveTo(panels, index, state, circular, anchor, relativeAnchor, hanger, scrollAreaSize, cloneCount, currentIndex) == NoMove
    ensures Step(current, state, prevOf) == None && Step(current, state, nextOf) == None
  {
  }

  /** `prepend(elements)`: `Math.max(range.min - n, 0)`. */
  function PrependIndex(t: Table, n: nat): (r: nat)
    ensures r + n <= GetRange(t).min || r == 0
  {
    var m := GetRange(t).min - n;
    if m > 0 then m else 0
  }

  /** `append(elements)`: `range.max + 1`. */
  function AppendIndex(t: Table): (r: nat)
    ensures forall i :: 0 <= i < |t| && t[i].Some? ==> i < r
    ensures r <= |t|
    ensures forall i :: r <= i < |t| ==> t[i].None?
    ensures r == 0 || t[r - 1].Some?
  {
    var range := GetRange(t);
    if Occupied(t) == 0 then
      0
    else range.max + 1
  }

  /**
   * The insertion index of `append` is the only index that follows every
   * panel and is either 0 or right after a panel: on a table with trailing
   * holes it is not any later index.
   */
  lemma AppendIndexUnique(t: Table, r: nat)
    requires forall i :: 0 <= i < |t| && t[i].Some? ==> i < r
    requires r <= |t|
    requires r == 0 || t[r - 1].Some?
    ensures r == AppendIndex(t)
  {
  }

  /**
   * When the elements fit in the hole before the first panel they land right
   * before it, in slots that are all empty; otherwise they go to index 0.
   */
  lemma PrependFillsLeadingHole(t: Table, n: nat)
    requires Occupied(t) > 0
    ensures GetRange(t).min >= n ==> PrependIndex(t, n) + n == GetRange(t).min
    ensures GetRange(t).min >= n ==> forall i :: PrependIndex(t, n) <= i < PrependIndex(t, n) + n ==> t[i].None?
    ensures GetRange(t).min < n ==> PrependIndex(t, n) == 0
  {
  }

  /** `getAllPanels(includeClone)`: the panels without holes, clones after the originals when asked. */
  function AllPanels(t: Table, clones: seq<Table>, includeClone: bool): (r: seq<Panel>)
    ensures !includeClone ==> forall p :: p in r <==> Some(p) in t
    ensures includeClone ==> forall p :: p in r <==> Some(p) in t || exists g :: 0 <= g < |clones| && Some(p) in clones[g]
  {
    if includeClone then
      FlattenCompact(clones);
      CompactAppend(t, Flatten(clones));
      Compact(t + Flatten(clones))
    else Compact(t)
  }

  /** `panelManager.allPanels()` lists the clone groups after the originals. */
  function Flatten(groups: seq<Table>): Table
    decreases |groups|
  {
    if groups == [] then [] else groups[0] + Flatten(groups[1..])
  }

  lemma {:induction false} FlattenCompact(groups: seq<Table>)
    ensures forall p :: p in Compact(Flatten(groups)) <==> exists g :: 0 <= g < |groups| && Some(p) in groups[g]
    decreases |groups|
  {
    if groups != [] {
      FlattenCompact(groups[1..]);
      CompactAppend(groups[0], Flatten(groups[1..]));
      forall p ensures (exists g :: 0 <= g < |groups| && Some(p) in groups[g]) <==>
                       (Some(p) in groups[0] || exists g :: 0 <= g < |groups[1..]| && Some(p) in groups[1..][g]) {
        if exists g :: 0 <= g < |groups| && Some(p) in groups[g] {
          var g :| 0 <= g < |groups| && Some(p) in groups[g];
          if g > 0 { assert Some(p) in groups[1..][g - 1]; }
        }
        if exists g :: 0 <= g < |groups[1..]| && Some(p) in groups[1..][g] {
          var g :| 0 <= g < |groups[1..]| && Some(p) in groups[1..][g];
          assert Some(p) in groups[g + 1];
        }
      }
    }
  }

  /** One entry of a status snapshot: the panel's element (its serialized HTML) and index. */
  datatype StatusPanel = StatusPanel(html: Element, index: int)

  datatype Status = Status(index: int, panels: seq<StatusPanel>, position: int)

  /** `getStatus()`: current index, camera position, and one entry per original panel, holes dropped. */
  function GetStatus(t: Table, currentIndex: int, cameraPosition: int): (s: Status)
    ensures s.index == currentIndex && s.position == cameraPosition
    ensures |s.panels| == |Compact(t)|
    ensures forall i :: 0 <= i < |s.panels| ==>
              s.panels[i] == StatusPanel(Compact(t)[i].element, Compact(t)[i].index)
  {
    var ps := Compact(t);
    Status(currentIndex, seq(|ps|, i requires 0 <= i < |ps| => StatusPanel(ps[i].element, ps[i].index)), cameraPosition)
  }

  /** On a table without holes the snapshot lists every panel, in index order. */
  lemma StatusOfDenseTable(t: Table, currentIndex: int, cameraPosition: int)
    requires forall i :: 0 <= i < |t| ==> t[i].Some?
    ensures |GetStatus(t, currentIndex, cameraPosition).panels| == |t|
    ensures forall i :: 0 <= i < |t| ==>
              GetStatus(t, currentIndex, cameraPosition).panels[i] == StatusPanel(t[i].value.element, t[i].value.index)
  {
    CompactDense(t);
  }

  /** The object `triggerEvent` returns; `canceled` is fixed when the event is emitted. */
  datatype TriggerCallback = TriggerCallback(canceled: bool)

  /**
   * `triggerEvent(...)`: an event emitted before the viewport exists counts as
   * canceled; otherwise it is canceled exactly when a listener stopped it
   * (`accepted` is what the emitter's `trigger` returned).
   */
  function TriggerEvent(viewportReady: bool, accepted: bool): (cb: TriggerCallback)
    ensures cb.canceled <==> !viewportReady || !accepted
  {
    TriggerCallback(if viewportReady then !accepted else true)
  }

  /** `.onSuccess(callback)` applied to the state the callback would change. */
  function OnSuccess<S>(cb: TriggerCallback, callback: S -> S, s: S): S {
    if !cb.canceled then callback(s) else s
  }

  /** `.onStopped(callback)`. */
  function OnStopped<S>(cb: TriggerCallback, callback: S -> S, s: S): S {
    if cb.canceled then callback(s) else s
  }

  /** Chained in either order, exactly one of the two callbacks runs. */
  lemma ExactlyOneCallbackRuns<S>(cb: TriggerCallback, success: S -> S, stopped: S -> S, s: S)
    ensures OnStopped(cb, stopped, OnSuccess(cb, success, s)) == (if cb.canceled then stopped(s) else success(s))
    ensures OnSuccess(cb, success, OnStopped(cb, stopped, s)) == (if cb.canceled then stopped(s) else success(s))
  {
  }
}
