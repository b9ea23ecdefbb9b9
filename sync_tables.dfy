/**
 * The tables `sync` builds for the full resynchronisation: the new original
 * table from the kept and added entries of a diff, and one table per clone
 * group, reusing an earlier group's clone where that group existed.
 */
module SyncTables {
  import opened Wrappers
  import opened JsSemantics
  import opened Panels

  /**
   * A diff never sends two kept items to one index, nor a kept and an added
   * item; stated on values, so that it survives filtering.
   */
  ghost predicate DistinctTargets(m: seq<(nat, nat)>, added: seq<nat>) {
    && (forall p, q :: p in m && q in m && p.1 == q.1 ==> p == q)
    && (forall p, a :: p in m && a in added ==> p.1 != a)
  }

  /**
   * Every kept entry points at an occupied slot of the old table; otherwise
   * re-indexing the missing panel throws a `TypeError`.
   */
  predicate KeptArePresent(prev: Table, m: seq<(nat, nat)>) {
    forall p :: p in m ==> p.0 < |prev| && prev[p.0].Some?
  }

  /** The content `newPanels` must have once the two loops are done. */
  ghost predicate OriginalsBuilt(np: Table, prev: Table, m: seq<(nat, nat)>, added: seq<nat>, elems: seq<Element>)
    requires KeptArePresent(prev, m)
    requires forall a :: a in added ==> a < |elems|
  {
    && (forall p :: p in m ==> p.1 < |np| && np[p.1] == Some(SetIndex(prev[p.0].value, p.1)))
    && (forall a :: a in added ==> a < |np| && np[a] == Some(NewPanel(elems[a], a)))
    && (forall i :: 0 <= i < |np| && np[i].Some? ==> i in Afters(m) || i in added)
  }

  /** `newPanels` once the kept items are placed. */
  ghost predicate KeptPlaced(np: Table, prev: Table, m: seq<(nat, nat)>)
    requires KeptArePresent(prev, m)
  {
    forall p :: p in m ==> p.1 < |np| && np[p.1] == Some(SetIndex(prev[p.0].value, p.1))
  }

  /** The first `forEach`: a kept panel moves to its new index and is re-indexed. */
  method PlaceKept(prev: Table, m: seq<(nat, nat)>) returns (np: Table)
    requires KeptArePresent(prev, m)
    requires forall p, q :: p in m && q in m && p.1 == q.1 ==> p == q
    ensures KeptPlaced(np, prev, m)
    ensures forall i :: 0 <= i < |np| && np[i].Some? ==> i in Afters(m)
    ensures |np| == 0 || np[|np| - 1].Some?
  {
    np := [];
    for k := 0 to |m|
      invariant forall j :: 0 <= j < k ==> m[j].1 < |np| && np[m[j].1] == Some(SetIndex(prev[m[j].0].value, m[j].1))
      invariant forall i :: 0 <= i < |np| && np[i].Some? ==> i in Afters(m)
      invariant |np| == 0 || np[|np| - 1].Some?
    {
      assert m[k] in m;
      forall j | 0 <= j < k ensures m[j].1 != m[k].1 || m[j] == m[k] {
        assert m[j] in m;
      }
      np := Put(np, m[k].1, Some(SetIndex(prev[m[k].0].value, m[k].1)));
      assert Afters(m)[k] == m[k].1;
    }
    forall p | p in m ensures p.1 < |np| && np[p.1] == Some(SetIndex(prev[p.0].value, p.1)) {
      var j :| 0 <= j < |m| && m[j] == p;
    }
  }

  /** The second `forEach`: an added index gets a fresh panel on its element. */
  method PlaceAdded(np0: Table, prev: Table, m: seq<(nat, nat)>, added: seq<nat>, elems: seq<Element>) returns (np: Table)
    requires KeptArePresent(prev, m)
    requires KeptPlaced(np0, prev, m)
    requires forall i :: 0 <= i < |np0| && np0[i].Some? ==> i in Afters(m)
    requires |np0| == 0 || np0[|np0| - 1].Some?
    requires forall a :: a in added ==> a < |elems|
    requires forall p, a :: p in m && a in added ==> p.1 != a
    ensures OriginalsBuilt(np, prev, m, added, elems)
    ensures |np| == 0 || np[|np| - 1].Some?
  {
    np := np0;
    for k := 0 to |added|
      invariant KeptPlaced(np, prev, m)
      invariant forall j :: 0 <= j < k ==> added[j] in added && added[j] < |np| && np[added[j]] == Some(NewPanel(elems[added[j]], added[j]))
      invariant forall i :: 0 <= i < |np| && np[i].Some? ==> i in Afters(m) || i in added
      invariant |np| == 0 || np[|np| - 1].Some?
    {
      assert added[k] in added;
      forall p | p in m ensures p.1 != added[k] { }
      np := Put(np, added[k], Some(NewPanel(elems[added[k]], added[k])));
    }
    forall a | a in added ensures a < |np| && np[a] == Some(NewPanel(elems[a], a)) {
      var j :| 0 <= j < |added| && added[j] == a;
    }
  }

  /**
   * The two `forEach` loops filling `newPanels`: kept panels first, then the
   * added ones; a JavaScript array ends at its last assigned slot.
   */
  method BuildOriginals(prev: Table, m: seq<(nat, nat)>, added: seq<nat>, elems: seq<Element>) returns (np: Table)
    requires KeptArePresent(prev, m)
    requires forall a :: a in added ==> a < |elems|
    requires DistinctTargets(m, added)
    ensures OriginalsBuilt(np, prev, m, added, elems)
    ensures |np| == 0 || np[|np| - 1].Some?
  {
    np := PlaceKept(prev, m);
    np := PlaceAdded(np, prev, m, added, elems);
  }

  /** `prevClonedPanels[g]`: an existing group (an array, even an empty one, is truthy) or `undefined`. */
  function PrevGroup(prevClones: seq<Table>, g: nat): (r: Option<Table>)
    ensures r.Some? <==> g < |prevClones|
    ensures r.Some? ==> r.value == prevClones[g]
  {
    if g < |prevClones| then Some(prevClones[g]) else None
  }

  /** The entry a kept item gets in clone group `g`. */
  function KeptClone(np: Table, prevGroup: Option<Table>, p: (nat, nat), g: nat, cloned: seq<Element>, offset: nat): Option<Panel>
    requires p.1 < |np| && np[p.1].Some?
  {
    if prevGroup.Some? then At(prevGroup.value, p.0)
    else Some(CloneExternal(np[p.1].value, g, ElementAt(cloned, offset + p.1)))
  }

  /** The content of clone group `g` once its two loops are done. */
  ghost predicate CloneGroupBuilt(group: Table, np: Table, prevGroup: Option<Table>, m: seq<(nat, nat)>, added: seq<nat>,
                                  g: nat, cloned: seq<Element>, offset: nat)
    requires forall p :: p in m ==> p.1 < |np| && np[p.1].Some?
    requires forall a :: a in added ==> a < |np| && np[a].Some? && offset + a < |cloned|
  {
    && (forall p :: p in m ==> p.1 < |group| && group[p.1] == KeptClone(np, prevGroup, p, g, cloned, offset))
    && (forall a :: a in added ==> a < |group| && group[a] == Some(CloneExternal(np[a].value, g, cloned[offset + a])))
    && (forall i :: 0 <= i < |group| && group[i].Some? ==> i in Afters(m) || i in added)
  }

  /**
   * One clone group of the circular full resync: a kept item reuses the
   * earlier group's clone when that group existed, otherwise it and every
   * added item get a new clone on the element at `offset + index` of the
   * cloned part of the list (`undefined` past its end).
   */
  method BuildCloneGroup(np: Table, prevGroup: Option<Table>, m: seq<(nat, nat)>, added: seq<nat>,
                         g: nat, cloned: seq<Element>, offset: nat) returns (group: Table)
    requires forall p :: p in m ==> p.1 < |np| && np[p.1].Some?
    requires forall a :: a in added ==> a < |np| && np[a].Some? && offset + a < |cloned|
    requires DistinctTargets(m, added)
    ensures CloneGroupBuilt(group, np, prevGroup, m, added, g, cloned, offset)
  {
    group := PlaceKeptInGroup(np, prevGroup, m, g, cloned, offset);
    group := PlaceAddedInGroup(group, np, prevGroup, m, added, g, cloned, offset);
  }

  /** The `originalMaintained.forEach` loop of one clone group. */
  method PlaceKeptInGroup(np: Table, prevGroup: Option<Table>, m: seq<(nat, nat)>, g: nat, cloned: seq<Element>, offset: nat)
    returns (group: Table)
    requires forall p :: p in m ==> p.1 < |np| && np[p.1].Some?
    requires forall p, q :: p in m && q in m && p.1 == q.1 ==> p == q
    ensures forall p :: p in m ==> p.1 < |group| && group[p.1] == KeptClone(np, prevGroup, p, g, cloned, offset)
    ensures forall i :: 0 <= i < |group| && group[i].Some? ==> i in Afters(m)
  {
    group := [];
    for k := 0 to |m|
      invariant forall j :: 0 <= j < k ==> m[j].1 < |group| && group[m[j].1] == KeptClone(np, prevGroup, m[j], g, cloned, offset)
      invariant forall i :: 0 <= i < |group| && group[i].Some? ==> i in Afters(m)
    {
      assert m[k] in m;
      forall j | 0 <= j < k ensures m[j].1 != m[k].1 || m[j] == m[k] {
        assert m[j] in m;
      }
      group := Put(group, m[k].1, KeptClone(np, prevGroup, m[k], g, cloned, offset));
      assert Afters(m)[k] == m[k].1;
    }
    forall p | p in m ensures p.1 < |group| && group[p.1] == KeptClone(np, prevGroup, p, g, cloned, offset) {
      var j :| 0 <= j < |m| && m[j] == p;
    }
  }

  /** The `originalAdded.forEach` loop of one clone group. */
  method PlaceAddedInGroup(group0: Table, np: Table, prevGroup: Option<Table>, m: seq<(nat, nat)>, added: seq<nat>,
                           g: nat, cloned: seq<Element>, offset: nat) returns (group: Table)
    requires forall p :: p in m ==> p.1 < |np| && np[p.1].Some?
    requires forall a :: a in added ==> a < |np| && np[a].Some? && offset + a < |cloned|
    requires forall p, a :: p in m && a in added ==> p.1 != a
    requires forall p :: p in m ==> p.1 < |group0| && group0[p.1] == KeptClone(np, prevGroup, p, g, cloned, offset)
    requires forall i :: 0 <= i < |group0| && group0[i].Some? ==> i in Afters(m)
    ensures CloneGroupBuilt(group, np, prevGroup, m, added, g, cloned, offset)
  {
    group := group0;
    for k := 0 to |added|
      invariant forall p :: p in m ==> p.1 < |group| && group[p.1] == KeptClone(np, prevGroup, p, g, cloned, offset)
      invariant forall j :: 0 <= j < k ==> added[j] in added && added[j] < |group| && group[added[j]] == Some(CloneExternal(np[added[j]].value, g, cloned[offset + added[j]]))
      invariant forall i :: 0 <= i < |group| && group[i].Some? ==> i in Afters(m) || i in added
    {
      assert added[k] in added;
      forall p | p in m ensures p.1 != added[k] { }
      group := Put(group, added[k], Some(CloneExternal(np[added[k]].value, g, cloned[offset + added[k]])));
    }
    forall a | a in added ensures a < |group| && group[a] == Some(CloneExternal(np[a].value, g, cloned[offset + a])) {
      var j :| 0 <= j < |added| && added[j] == a;
    }
  }

  /**
   * `newClones`: `cloneCount` groups; in circular mode each is built from the
   * kept and added items, group `g` reading its elements at offset
   * `originalCount * g`; otherwise every group stays empty.
   */
  method BuildClones(np: Table, prevClones: seq<Table>, m: seq<(nat, nat)>, added: seq<nat>,
                     cloneCount: nat, originalCount: nat, cloned: seq<Element>, circular: bool)
    returns (groups: seq<Table>)
    requires forall p :: p in m ==> p.1 < |np| && np[p.1].Some?
    requires forall a :: a in added ==> a < originalCount && a < |np| && np[a].Some?
    requires originalCount * cloneCount <= |cloned|
    requires DistinctTargets(m, added)
    ensures |groups| == cloneCount
    ensures !circular ==> forall g :: 0 <= g < cloneCount ==> groups[g] == []
    ensures circular ==> forall g :: 0 <= g < cloneCount ==>
              GroupInRange(originalCount, g, |cloned|, added) &&
              CloneGroupBuilt(groups[g], np, PrevGroup(prevClones, g), m, added, g, cloned, originalCount * g)
  {
    groups := [];
    for g := 0 to cloneCount
      invariant |groups| == g
      invariant !circular ==> forall h :: 0 <= h < g ==> groups[h] == []
      invariant circular ==> forall h :: 0 <= h < g ==>
                  GroupInRange(originalCount, h, |cloned|, added) &&
                  CloneGroupBuilt(groups[h], np, PrevGroup(prevClones, h), m, added, h, cloned, originalCount * h)
    {
      var group := [];
      if circular {
        GroupOffsetFits(originalCount, g, cloneCount, |cloned|, added);
        group := BuildCloneGroup(np, PrevGroup(prevClones, g), m, added, g, cloned, originalCount * g);
      }
      groups := groups + [group];
    }
  }

  /** Group `g` reads the element of every added item inside the `n` cloned elements of the list. */
  ghost predicate GroupInRange(originalCount: nat, g: nat, n: nat, added: seq<nat>) {
    forall a :: a in added ==> originalCount * g + a < n
  }

  /** Group `g < cloneCount` reads inside the cloned part of the list. */
  lemma GroupOffsetFits(originalCount: nat, g: nat, cloneCount: nat, n: nat, added: seq<nat>)
    requires g < cloneCount && originalCount * cloneCount <= n
    requires forall a :: a in added ==> a < originalCount
    ensures GroupInRange(originalCount, g, n, added)
  {
    assert originalCount * g + originalCount == originalCount * (g + 1);
    assert originalCount * (g + 1) <= originalCount * cloneCount by {
      MulMonotone(originalCount, g + 1, cloneCount);
    }
  }

  lemma MulMonotone(a: nat, b: nat, c: nat)
    requires b <= c
    ensures a * b <= a * c
  {
  }
}
