/**
 * The viewport's checked index ranges: regions already measured, dropped
 * when a sync touches them and shifted when panels are added or removed
 * before them.
 */
module CheckedRanges {
  import opened JsSemantics
  import opened Panels

  /** A checked range `[min, max]`. */
  type Checked = (int, int)

  predicate Overlaps(c: Checked, lo: int, hi: int) {
    lo <= c.1 && hi >= c.0
  }

  /**
   * `viewport.updateCheckedIndexes({min: lo, max: hi})`: every checked range
   * that shares an index with `[lo, hi]` is forgotten, the others are kept in order.
   */
  function DropOverlapping(cs: seq<Checked>, lo: int, hi: int): (r: seq<Checked>)
    ensures forall c :: c in r <==> c in cs && !Overlaps(c, lo, hi)
    ensures |r| <= |cs|
  {
    Filter(cs, c => !Overlaps(c, lo, hi))
  }

  /** `added.forEach(index => update({index, index}))`. */
  function DropAdded(cs: seq<Checked>, added: seq<nat>): (r: seq<Checked>)
    ensures forall c :: c in r <==> c in cs && forall a :: a in added ==> !Overlaps(c, a, a)
    decreases |added|
  {
    if added == [] then cs
    else
      var r := DropAdded(DropOverlapping(cs, added[0], added[0]), added[1..]);
      assert forall a :: a in added <==> a == added[0] || a in added[1..];
      r
  }

  /** A removed index touches the range when the range meets `[index - 1, index + 1]`. */
  predicate NextTo(c: Checked, x: int) {
    Overlaps(c, x - 1, x + 1)
  }

  /** `removed.forEach(index => update({index - 1, index + 1}))`. */
  function DropRemoved(cs: seq<Checked>, removed: seq<nat>): (r: seq<Checked>)
    ensures forall c :: c in r <==> c in cs && forall x :: x in removed ==> !NextTo(c, x)
    decreases |removed|
  {
    if removed == [] then cs
    else
      var d := DropOverlapping(cs, (removed[0] as int) - 1, removed[0] + 1);
      assert forall c :: c in d <==> c in cs && !NextTo(c, removed[0]);
      var r := DropRemoved(d, removed[1..]);
      assert forall x :: x in removed <==> x == removed[0] || x in removed[1..];
      r
  }

  /** `maintained.forEach(([prev, next]) => update({next, next}))`. */
  function DropMaintained(cs: seq<Checked>, m: seq<(nat, nat)>): (r: seq<Checked>)
    ensures forall c :: c in r <==> c in cs && forall p :: p in m ==> !Overlaps(c, p.1, p.1)
    decreases |m|
  {
    if m == [] then cs
    else
      var r := DropMaintained(DropOverlapping(cs, m[0].1, m[0].1), m[1..]);
      assert forall p :: p in m <==> p == m[0] || p in m[1..];
      r
  }

  /**
   * How far a range starting at `min` is pushed: the added indices before it
   * that the (old) panel table holds, minus the removed indices before it.
   */
  function PushedIndex(added: seq<nat>, removed: seq<nat>, t: Table, min: int): int {
    |Filter(added, a => a < min && Has(t, a))| - |Filter(removed, x => x < min)|
  }

  function Shifted(c: Checked, added: seq<nat>, removed: seq<nat>, t: Table): (r: Checked)
    ensures r.1 - r.0 == c.1 - c.0
  {
    var p := PushedIndex(added, removed, t, c.0);
    (c.0 + p, c.1 + p)
  }

  /** The push is bounded by the number of added and of removed indices. */
  lemma PushedIndexBounds(added: seq<nat>, removed: seq<nat>, t: Table, min: int)
    ensures -|removed| <= PushedIndex(added, removed, t, min) <= |added|
  {
  }

  lemma FilterNone<T(!new)>(s: seq<T>, keep: T -> bool)
    requires forall x :: x in s ==> !keep(x)
    ensures Filter(s, keep) == []
  {
  }

  /** A range with no added or removed index before it stays where it is. */
  lemma NothingBeforeKeepsRange(c: Checked, added: seq<nat>, removed: seq<nat>, t: Table)
    requires forall a :: a in added ==> a >= c.0
    requires forall x :: x in removed ==> x >= c.0
    ensures Shifted(c, added, removed, t) == c
  {
    FilterNone(added, a => a < c.0 && Has(t, a));
    FilterNone(removed, x => x < c.0);
  }

  /** Added indices the old table does not hold (fresh slots) do not push a range. */
  lemma NewSlotsDoNotPush(c: Checked, added: seq<nat>, t: Table)
    requires forall a :: a in added ==> !Has(t, a)
    ensures Shifted(c, added, [], t) == c
  {
    FilterNone(added, a => a < c.0 && Has(t, a));
  }
}
