/**
 * The panel tables that the controller reads and rewrites. A panel is kept as
 * a value: the element it is bound to, its index among the original panels
 * and, for a clone, the clone group it belongs to. Tables are JavaScript arrays
 * that may hold holes, so they are sequences of optional panels.
 */
module Panels {
  import opened Wrappers
  import opened JsSemantics

  /**
   * An opaque handle on a DOM element supplied by the renderer, or
   * `undefined`, which is what reading past the end of the rendered list gives.
   */
  datatype Element = Undefined | Node(id: nat)

  /** `elements[i]` on the rendered list: `undefined` outside it. */
  function ElementAt(s: seq<Element>, i: int): (e: Element)
    ensures 0 <= i < |s| ==> e == s[i]
    ensures !(0 <= i < |s|) ==> e == Undefined
  {
    if 0 <= i < |s| then s[i] else Undefined
  }

  /** Reading a slice `s.slice(start, end)` at `i` reads `s` at `start + i`, `undefined` included. */
  lemma ElementOfSlice(s: seq<Element>, start: nat, end: nat, i: nat)
    requires i < end - start
    ensures ElementAt(Slice(s, start, end), i) == ElementAt(s, start + i)
  {
  }

  datatype Panel = Panel(element: Element, index: int, cloneIndex: Option<nat>)

  type Table = seq<Option<Panel>>

  /** `new Panel(element, index, viewport)`: an original panel. */
  function NewPanel(element: Element, index: int): (p: Panel)
    ensures p.cloneIndex == None && p.index == index && p.element == element
  {
    Panel(element, index, None)
  }

  /** `panel.cloneExternal(group, element)`: a clone of `p` in group `group`, bound to `element`. */
  function CloneExternal(p: Panel, group: nat, element: Element): (c: Panel)
    ensures c.index == p.index && c.cloneIndex == Some(group) && c.element == element
  {
    Panel(element, p.index, Some(group))
  }

  /** `panel.setIndex(i)`. */
  function SetIndex(p: Panel, i: int): (q: Panel)
    ensures q.index == i && q.element == p.element && q.cloneIndex == p.cloneIndex
  {
    p.(index := i)
  }

  /** `panelManager.get(index)`: the original panel at `index`, or none for a hole or an index out of range. */
  function Get(t: Table, index: int): (r: Option<Panel>)
    ensures r.Some? <==> 0 <= index < |t| && t[index].Some?
    ensures r.Some? ==> r == t[index]
  {
    At(t, index)
  }

  /** `panelManager.has(index)`. */
  predicate Has(t: Table, index: int) {
    Get(t, index).Some?
  }

  /** The panels of a table with its holes dropped, in order: `panels.filter(panel => !!panel)`. */
  function Compact(t: Table): (r: seq<Panel>)
    ensures |r| <= |t|
    ensures forall p :: p in r <==> Some(p) in t
  {
    if t == [] then []
    else
      var rest := Compact(t[1..]);
      assert forall o :: o in t <==> o == t[0] || o in t[1..];
      match t[0]
      case None => rest
      case Some(p) => [p] + rest
  }

  /** Number of occupied slots. */
  function Occupied(t: Table): nat {
    if t == [] then 0 else (if t[0].Some? then 1 else 0) + Occupied(t[1..])
  }

  lemma {:induction false} CompactLength(t: Table)
    ensures |Compact(t)| == Occupied(t)
  {
    if t != [] {
      CompactLength(t[1..]);
    }
  }

  /** Dropping holes keeps the relative order of the panels. */
  lemma {:induction false} CompactAppend(t: Table, u: Table)
    ensures Compact(t + u) == Compact(t) + Compact(u)
  {
    if t == [] {
      assert t + u == u;
    } else {
      assert (t + u)[1..] == t[1..] + u;
      CompactAppend(t[1..], u);
    }
  }

  /** A table without holes is compacted to exactly its panels. */
  lemma {:induction false} CompactDense(t: Table)
    requires forall i :: 0 <= i < |t| ==> t[i].Some?
    ensures |Compact(t)| == |t|
    ensures forall i :: 0 <= i < |t| ==> Compact(t)[i] == t[i].value
  {
    if t != [] {
      CompactDense(t[1..]);
    }
  }

  /** `{min, max}` of the occupied original indices; an empty table has `{0, -1}`. */
  datatype Range = Range(min: int, max: int)

  function FirstOccupied(t: Table, from: nat): (r: int)
    requires from <= |t|
    ensures from <= r <= |t|
    ensures r < |t| ==> t[r].Some?
    ensures forall i :: from <= i < r ==> t[i].None?
    decreases |t| - from
  {
    if from == |t| then |t| else if t[from].Some? then from else FirstOccupied(t, from + 1)
  }

  function LastOccupied(t: Table, upto: nat): (r: int)
    requires upto <= |t|
    ensures -1 <= r < upto
    ensures r >= 0 ==> t[r].Some?
    ensures forall i :: r < i < upto ==> t[i].None?
    decreases upto
  {
    if upto == 0 then -1 else if t[upto - 1].Some? then upto - 1 else LastOccupied(t, upto - 1)
  }

  /** `panelManager.getRange()`. */
  function GetRange(t: Table): (r: Range)
    ensures Occupied(t) == 0 ==> r == Range(0, -1)
    ensures Occupied(t) > 0 ==> 0 <= r.min <= r.max < |t| && t[r.min].Some? && t[r.max].Some?
    ensures forall i :: 0 <= i < |t| && t[i].Some? ==> r.min <= i <= r.max
  {
    var lo := FirstOccupied(t, 0);
    if lo == |t| then
      NoneOccupied(t);
      Range(0, -1)
    else
      SomeOccupied(t, lo);
      Range(lo, LastOccupied(t, |t|))
  }

  lemma {:induction false} NoneOccupied(t: Table)
    requires forall i :: 0 <= i < |t| ==> t[i].None?
    ensures Occupied(t) == 0
  {
    if t != [] {
      NoneOccupied(t[1..]);
    }
  }

  lemma {:induction false} SomeOccupied(t: Table, i: nat)
    requires i < |t| && t[i].Some?
    ensures Occupied(t) > 0
  {
    if i > 0 {
      SomeOccupied(t[1..], i - 1);
    }
  }

  /**
   * A list diff as the renderer reports it: the new list, pairs of (index
   * before, index after) for kept items, indices of added items in the new list and
   * of removed items in the old list, and pairs whose index changed.
   */
  datatype Diff<T> = Diff(
    list: seq<T>,
    maintained: seq<(nat, nat)>,
    added: seq<nat>,
    removed: seq<nat>,
    changed: seq<(nat, nat)>)

  function Afters(m: seq<(nat, nat)>): (r: seq<nat>)
    ensures |r| == |m| && forall j :: 0 <= j < |m| ==> r[j] == m[j].1
  {
    seq(|m|, j requires 0 <= j < |m| => m[j].1)
  }
}
