/**
 * Pieces of `sync` in only-visible mode, where the rendered list holds the
 * visible panels, then the added items, then their clones, then whole new
 * clone groups.
 */
module VisibleSync {
  import opened Wrappers
  import opened JsSemantics
  import opened Panels
  import SyncTables

  // ----- Elements of the clones of added items (src/Flicking.ts:695-697) -----

  /** As written: `elements.slice(addedCloneOffset, addedCount * cloneCount)`, a length used as an end index. */
  function AddedCloneElementsAsWritten(elements: seq<Element>, visibleCount: nat, addedCount: nat, cloneCount: nat): (r: seq<Element>)
    ensures addedCount * cloneCount <= visibleCount + addedCount ==> r == []
  {
    Slice(elements, visibleCount + addedCount, addedCount * cloneCount)
  }

  /**
   * Three visible panels, one added item, one clone group: the list has the
   * clone's element at index 4, yet the slice is empty, so the clone is built
   * on `undefined`.
   */
  lemma AddedCloneSliceIsEmpty()
    ensures var elements := [Node(10), Node(11), Node(12), Node(13), Node(14)];
            |elements| >= 3 + 1 + 1 * 1 && AddedCloneElementsAsWritten(elements, 3, 1, 1) == []
  {
  }

  /**
   * Corrected: the `addedCount * cloneCount` elements that follow the added
   * items, all of them when the list is long enough, and otherwise what is
   * left of it, the missing ones reading as `undefined`.
   */
  function AddedCloneElements(elements: seq<Element>, visibleCount: nat, addedCount: nat, cloneCount: nat): (r: seq<Element>)
    ensures visibleCount + addedCount + addedCount * cloneCount <= |elements| ==> |r| == addedCount * cloneCount
    ensures forall k :: 0 <= k < addedCount * cloneCount ==> ElementAt(r, k) == ElementAt(elements, visibleCount + addedCount + k)
  {
    var start := visibleCount + addedCount;
    var r := Slice(elements, start, start + addedCount * cloneCount);
    forall k | 0 <= k < addedCount * cloneCount
      ensures ElementAt(r, k) == ElementAt(elements, start + k)
    {
      ElementOfSlice(elements, start, start + addedCount * cloneCount, k);
    }
    r
  }

  /**
   * With the corrected slice, the clone in group `g` of the `index`-th added
   * item gets the element the wrapper rendered for it (group-major order),
   * and no two (item, group) pairs share an element.
   */
  lemma AddedCloneElementFor(elements: seq<Element>, visibleCount: nat, addedCount: nat, cloneCount: nat,
                             index: nat, g: nat, index': nat, g': nat)
    requires index < addedCount && g < cloneCount && index' < addedCount && g' < cloneCount
    ensures index + addedCount * g < addedCount * cloneCount
    ensures ElementAt(AddedCloneElements(elements, visibleCount, addedCount, cloneCount), index + addedCount * g)
            == ElementAt(elements, visibleCount + addedCount * (g + 1) + index)
    ensures (index, g) != (index', g') ==> index + addedCount * g != index' + addedCount * g'
  {
    GroupMajorFits(index, g, addedCount, cloneCount);
    GroupMajorInjective(index, g, index', g', addedCount);
    assert addedCount * (g + 1) == addedCount * g + addedCount;
  }

  lemma GroupMajorFits(i: nat, g: nat, width: nat, count: nat)
    requires i < width && g < count
    ensures i + width * g < width * count
  {
    assert width * g + width == width * (g + 1);
    assert width * (g + 1) <= width * count;
  }

  lemma GroupMajorInjective(i: nat, g: nat, i': nat, g': nat, width: nat)
    requires i < width && i' < width
    ensures (i, g) != (i', g') ==> i + width * g != i' + width * g'
  {
    if g < g' {
      assert width * g + width <= width * g' by { assert width * (g + 1) <= width * g'; }
    } else if g' < g {
      assert width * g' + width <= width * g by { assert width * (g' + 1) <= width * g; }
    }
  }

  // ----- Elements of new clone groups (src/Flicking.ts:720-725) -----

  /** As written: the clone of panel `idx` in the `offset`-th new group reads `newCloneElements[idx + cloneCount * offset]`. */
  function NewCloneElementIndexAsWritten(idx: nat, offset: nat, cloneCount: nat): nat {
    idx + cloneCount * offset
  }

  /**
   * Three panels, clone count going from 0 to 2: panel 2 of the first new
   * group and panel 0 of the second read the same element.
   */
  lemma NewCloneStrideCollides()
    ensures NewCloneElementIndexAsWritten(2, 0, 2) == NewCloneElementIndexAsWritten(0, 1, 2)
  {
  }

  /** Corrected: groups are laid out one after the other, `panelCount` elements each. */
  function NewCloneElementIndex(idx: nat, offset: nat, panelCount: nat): (r: nat)
    requires idx < panelCount
    ensures panelCount * offset <= r < panelCount * (offset + 1)
  {
    assert panelCount * (offset + 1) == panelCount * offset + panelCount;
    idx + panelCount * offset
  }

  /** With the corrected stride every (panel, group) pair reads its own element inside the slice. */
  lemma NewCloneElementsDistinct(idx: nat, offset: nat, idx': nat, offset': nat, panelCount: nat, groups: nat)
    requires idx < panelCount && idx' < panelCount && offset < groups
    ensures NewCloneElementIndex(idx, offset, panelCount) < panelCount * groups
    ensures (idx, offset) != (idx', offset') ==>
              NewCloneElementIndex(idx, offset, panelCount) != NewCloneElementIndex(idx', offset', panelCount)
  {
    GroupMajorFits(idx, offset, panelCount, groups);
    GroupMajorInjective(idx, offset, idx', offset', panelCount);
  }

  /**
   * `prevOriginalPanels.map((panel, idx) => panel.cloneExternal(cloneIndex, newCloneElements[idx + panelCount * offset]))`,
   * with the corrected stride; holes stay holes (`map` skips them), and an
   * element past the end of the slice is `undefined`.
   */
  function NewCloneGroup(prev: Table, cloneIndex: nat, offset: nat, els: seq<Element>): (r: Table)
    ensures |r| == |prev|
    ensures forall idx :: 0 <= idx < |prev| ==>
              (r[idx].Some? <==> prev[idx].Some?) &&
              (prev[idx].Some? ==> r[idx] == Some(CloneExternal(prev[idx].value, cloneIndex, ElementAt(els, NewCloneElementIndex(idx, offset, |prev|)))))
  {
    seq(|prev|, idx requires 0 <= idx < |prev| =>
      if prev[idx].Some? then Some(CloneExternal(prev[idx].value, cloneIndex, ElementAt(els, NewCloneElementIndex(idx, offset, |prev|)))) else None)
  }

  // ----- The manager operations called here, with the contract their names imply -----

  /** `panelManager.insertClones(g, 0, panels)`: the panels go to the front of group `g`, missing groups are created empty. */
  function InsertClones(clones: seq<Table>, g: nat, panels: Table): (r: seq<Table>)
    ensures |r| == if g < |clones| then |clones| else g + 1
    ensures r[g] == panels + (if g < |clones| then clones[g] else [])
    ensures forall h :: 0 <= h < |clones| && h != g ==> r[h] == clones[h]
    ensures forall h :: |clones| <= h < |r| && h != g ==> r[h] == []
  {
    if g < |clones| then clones[g := panels + clones[g]]
    else clones + seq(g - |clones|, _ => []) + [panels]
  }

  /** `panelManager.removeClonesAfter(n)`: groups with id `>= n` are dropped. */
  function RemoveClonesAfter(clones: seq<Table>, n: nat): (r: seq<Table>)
    ensures |r| == if n < |clones| then n else |clones|
    ensures forall h :: 0 <= h < |r| ==> r[h] == clones[h]
  {
    if n < |clones| then clones[..n] else clones
  }

  // ----- Tables rebuilt when the original list changed (src/Flicking.ts:680-709) -----

  /** A kept panel's clones follow it to its new index in every existing group. */
  method PlaceKeptClones(prevGroup: Table, m: seq<(nat, nat)>) returns (group: Table)
    requires forall p, q :: p in m && q in m && p.1 == q.1 ==> p == q
    ensures forall p :: p in m ==> p.1 < |group| && group[p.1] == At(prevGroup, p.0)
    ensures forall i :: 0 <= i < |group| && group[i].Some? ==> i in Afters(m)
  {
    group := [];
    for k := 0 to |m|
      invariant forall j :: 0 <= j < k ==> m[j].1 < |group| && group[m[j].1] == At(prevGroup, m[j].0)
      invariant forall i :: 0 <= i < |group| && group[i].Some? ==> i in Afters(m)
    {
      assert m[k] in m;
      forall j | 0 <= j < k ensures m[j].1 != m[k].1 || m[j] == m[k] {
        assert m[j] in m;
      }
      group := Put(group, m[k].1, At(prevGroup, m[k].0));
      assert Afters(m)[k] == m[k].1;
    }
    forall p | p in m ensures p.1 < |group| && group[p.1] == At(prevGroup, p.0) {
      var j :| 0 <= j < |m| && m[j] == p;
    }
  }

  /** `newClones`: `cloneCount` groups, the existing ones carrying the kept clones. */
  method KeptCloneGroups(prevClones: seq<Table>, cloneCount: nat, m: seq<(nat, nat)>) returns (nc: seq<Table>)
    requires |prevClones| <= cloneCount
    requires forall p, q :: p in m && q in m && p.1 == q.1 ==> p == q
    ensures |nc| == cloneCount
    ensures forall g, p :: 0 <= g < |prevClones| && p in m ==> p.1 < |nc[g]| && nc[g][p.1] == At(prevClones[g], p.0)
    ensures forall g, i :: 0 <= g < |nc| && 0 <= i < |nc[g]| && nc[g][i].Some? ==> i in Afters(m)
  {
    nc := [];
    for g := 0 to cloneCount
      invariant |nc| == g
      invariant forall h, p :: 0 <= h < g && h < |prevClones| && p in m ==> p.1 < |nc[h]| && nc[h][p.1] == At(prevClones[h], p.0)
      invariant forall h, i :: 0 <= h < g && 0 <= i < |nc[h]| && nc[h][i].Some? ==> i in Afters(m)
    {
      var group := [];
      if g < |prevClones| {
        group := PlaceKeptClones(prevClones[g], m);
      }
      nc := nc + [group];
    }
  }

  /** The panels one added item contributes to the visible list: itself, then its clones in group order. */
  function AddedBlock(added: seq<nat>, addedElements: seq<Element>, ace: seq<Element>, cloneCount: nat, circular: bool, j: nat): (r: seq<Panel>)
    requires j < |added|
    ensures |r| == if circular then cloneCount + 1 else 1
    ensures r[0] == NewPanel(ElementAt(addedElements, j), added[j])
    ensures circular ==> r[1..] == AddedClones(NewPanel(ElementAt(addedElements, j), added[j]), ace, j, |added|, cloneCount)
  {
    var p := NewPanel(ElementAt(addedElements, j), added[j]);
    [p] + if circular then AddedClones(p, ace, j, |added|, cloneCount) else []
  }

  /**
   * The clones of the `j`-th of `n` added panels, one per group, group `g`
   * reading its element at `j + n * g`, inside the `n * cloneCount` elements
   * of the added clones.
   */
  function AddedClones(p: Panel, ace: seq<Element>, j: nat, n: nat, cloneCount: nat): (r: seq<Panel>)
    requires j < n
    ensures |r| == cloneCount
    ensures forall g :: 0 <= g < cloneCount ==> GroupMajorFitsP(j, g, n, cloneCount) && r[g] == CloneExternal(p, g, ElementAt(ace, j + n * g))
  {
    assert forall g :: 0 <= g < cloneCount ==> GroupMajorFitsP(j, g, n, cloneCount) by {
      forall g | 0 <= g < cloneCount ensures GroupMajorFitsP(j, g, n, cloneCount) {
        GroupMajorFits(j, g, n, cloneCount);
      }
    }
    seq(cloneCount, g requires 0 <= g < cloneCount => CloneExternal(p, g, ElementAt(ace, j + n * g)))
  }

  /** The `reduce` building `addedPanels` over the first `k` added items. */
  function AddedPanelList(added: seq<nat>, addedElements: seq<Element>, ace: seq<Element>, cloneCount: nat, circular: bool, k: nat): seq<Panel>
    requires k <= |added|
  {
    if k == 0 then [] else AddedPanelList(added, addedElements, ace, cloneCount, circular, k - 1) + AddedBlock(added, addedElements, ace, cloneCount, circular, k - 1)
  }

  /** The added part of the visible list has one block per added item, each with the item and all its clones. */
  lemma {:induction false} AddedPanelListShape(added: seq<nat>, addedElements: seq<Element>, ace: seq<Element>, cloneCount: nat, circular: bool, k: nat)
    requires k <= |added|
    ensures |AddedPanelList(added, addedElements, ace, cloneCount, circular, k)| == k * (if circular then cloneCount + 1 else 1)
    ensures forall j :: 0 <= j < k ==> NewPanel(ElementAt(addedElements, j), added[j]) in AddedPanelList(added, addedElements, ace, cloneCount, circular, k)
    ensures circular ==> forall j, c :: 0 <= j < k && c in AddedClones(NewPanel(ElementAt(addedElements, j), added[j]), ace, j, |added|, cloneCount) ==>
              c in AddedPanelList(added, addedElements, ace, cloneCount, circular, k)
    ensures !circular ==> forall c :: c in AddedPanelList(added, addedElements, ace, cloneCount, circular, k) ==> c.cloneIndex.None?
  {
    forall j | 0 <= j < k
      ensures NewPanel(ElementAt(addedElements, j), added[j]) in AddedPanelList(added, addedElements, ace, cloneCount, circular, k)
      ensures circular ==> forall c :: c in AddedClones(NewPanel(ElementAt(addedElements, j), added[j]), ace, j, |added|, cloneCount) ==>
                c in AddedPanelList(added, addedElements, ace, cloneCount, circular, k)
    {
      BlockInList(added, addedElements, ace, cloneCount, circular, j, k);
    }
    AddedPanelListLength(added, addedElements, ace, cloneCount, circular, k);
    if !circular {
      UnclonedList(added, addedElements, ace, cloneCount, k);
    }
  }

  lemma {:induction false} AddedPanelListLength(added: seq<nat>, addedElements: seq<Element>, ace: seq<Element>, cloneCount: nat, circular: bool, k: nat)
    requires k <= |added|
    ensures |AddedPanelList(added, addedElements, ace, cloneCount, circular, k)| == k * (if circular then cloneCount + 1 else 1)
  {
    if k > 0 {
      AddedPanelListLength(added, addedElements, ace, cloneCount, circular, k - 1);
      var w := if circular then cloneCount + 1 else 1;
      assert (k - 1) * w + w == k * w;
    }
  }

  /** The block of added item `j` lies in the list of the first `k > j` items. */
  lemma {:induction false} BlockInList(added: seq<nat>, addedElements: seq<Element>, ace: seq<Element>, cloneCount: nat, circular: bool, j: nat, k: nat)
    requires j < k <= |added|
    ensures forall c :: c in AddedBlock(added, addedElements, ace, cloneCount, circular, j) ==>
              c in AddedPanelList(added, addedElements, ace, cloneCount, circular, k)
    ensures NewPanel(ElementAt(addedElements, j), added[j]) in AddedPanelList(added, addedElements, ace, cloneCount, circular, k)
    ensures circular ==> forall c :: c in AddedClones(NewPanel(ElementAt(addedElements, j), added[j]), ace, j, |added|, cloneCount) ==>
              c in AddedPanelList(added, addedElements, ace, cloneCount, circular, k)
  {
    var block := AddedBlock(added, addedElements, ace, cloneCount, circular, j);
    var prefix := AddedPanelList(added, addedElements, ace, cloneCount, circular, k - 1);
    var last := AddedBlock(added, addedElements, ace, cloneCount, circular, k - 1);
    assert AddedPanelList(added, addedElements, ace, cloneCount, circular, k) == prefix + last;
    if j < k - 1 {
      BlockInList(added, addedElements, ace, cloneCount, circular, j, k - 1);
    }
    assert block[0] in block;
    if circular {
      forall c | c in AddedClones(NewPanel(ElementAt(addedElements, j), added[j]), ace, j, |added|, cloneCount)
        ensures c in block
      {
        assert c in block[1..];
      }
    }
  }

  /** Outside circular mode the added panels hold no clone. */
  lemma {:induction false} UnclonedList(added: seq<nat>, addedElements: seq<Element>, ace: seq<Element>, cloneCount: nat, k: nat)
    requires k <= |added|
    ensures forall c :: c in AddedPanelList(added, addedElements, ace, cloneCount, false, k) ==> c.cloneIndex.None?
  {
    if k > 0 {
      UnclonedList(added, addedElements, ace, cloneCount, k - 1);
      var block := AddedBlock(added, addedElements, ace, cloneCount, false, k - 1);
      assert block == [block[0]];
      assert AddedPanelList(added, addedElements, ace, cloneCount, false, k)
             == AddedPanelList(added, addedElements, ace, cloneCount, false, k - 1) + block;
    }
  }

  predicate GroupMajorFitsP(i: nat, g: nat, width: nat, count: nat) {
    i + width * g < width * count
  }

  /** Puts the clones of one added panel (the `k`-th of `n`) into every group at `a`. */
  method PutClones(nc0: seq<Table>, a: nat, panel: Panel, ace: seq<Element>, k: nat, n: nat) returns (nc: seq<Table>)
    requires k < n
    ensures |nc| == |nc0|
    ensures forall g :: 0 <= g < |nc0| ==> nc[g] == Put(nc0[g], a, Some(AddedClones(panel, ace, k, n, |nc0|)[g]))
  {
    var cs := AddedClones(panel, ace, k, n, |nc0|);
    nc := nc0;
    for g := 0 to |nc0|
      invariant |nc| == |nc0|
      invariant forall h :: 0 <= h < g ==> nc[h] == Put(nc0[h], a, Some(cs[h]))
      invariant forall h :: g <= h < |nc0| ==> nc[h] == nc0[h]
    {
      nc := nc[g := Put(nc[g], a, Some(cs[g]))];
    }
  }

  /** The `addedPanels` reduce's effect on the original table: a new panel at each added index. */
  method PlaceAddedVisible(np0: Table, prev: Table, m: seq<(nat, nat)>, added: seq<nat>, addedElements: seq<Element>)
    returns (np: Table)
    requires SyncTables.KeptArePresent(prev, m) && SyncTables.KeptPlaced(np0, prev, m)
    requires forall i :: 0 <= i < |np0| && np0[i].Some? ==> i in Afters(m)
    requires forall p, a :: p in m && a in added ==> p.1 != a
    requires forall j, k :: 0 <= j < k < |added| ==> added[j] != added[k]
    ensures OriginalsPlaced(np, prev, m, added, addedElements)
  {
    np := np0;
    for k := 0 to |added|
      invariant SyncTables.KeptPlaced(np, prev, m)
      invariant forall j :: 0 <= j < k ==> added[j] < |np| && np[added[j]] == Some(NewPanel(ElementAt(addedElements, j), added[j]))
      invariant forall i :: 0 <= i < |np| && np[i].Some? ==> i in Afters(m) || i in added
    {
      assert added[k] in added;
      forall p | p in m ensures p.1 != added[k] { }
      np := Put(np, added[k], Some(NewPanel(ElementAt(addedElements, k), added[k])));
    }
  }

  /** The same reduce's effect on the clone tables: in circular mode, a clone of each added panel in every group. */
  method PlaceAddedClonesVisible(nc0: seq<Table>, prevClones: seq<Table>, cloneCount: nat, m: seq<(nat, nat)>, added: seq<nat>,
                                 addedElements: seq<Element>, ace: seq<Element>, circular: bool)
    returns (nc: seq<Table>)
    requires |nc0| == cloneCount
    requires forall g, p :: 0 <= g < |prevClones| && g < cloneCount && p in m ==> p.1 < |nc0[g]| && nc0[g][p.1] == At(prevClones[g], p.0)
    requires forall p, a :: p in m && a in added ==> p.1 != a
    requires forall j, k :: 0 <= j < k < |added| ==> added[j] != added[k]
    ensures ClonesPlaced(nc, prevClones, cloneCount, m, added, addedElements, ace, circular)
  {
    nc := nc0;
    if !circular {
      return;
    }
    for k := 0 to |added|
      invariant |nc| == cloneCount
      invariant forall g, p :: 0 <= g < |prevClones| && g < cloneCount && p in m ==> p.1 < |nc[g]| && nc[g][p.1] == At(prevClones[g], p.0)
      invariant forall g, j :: 0 <= g < cloneCount && 0 <= j < k ==>
                  added[j] < |nc[g]| &&
                  nc[g][added[j]] == Some(AddedClones(NewPanel(ElementAt(addedElements, j), added[j]), ace, j, |added|, cloneCount)[g])
    {
      assert added[k] in added;
      forall p | p in m ensures p.1 != added[k] { }
      nc := PutClones(nc, added[k], NewPanel(ElementAt(addedElements, k), added[k]), ace, k, |added|);
    }
  }

  // ----- New clone groups when the clone count grew (src/Flicking.ts:717-731) -----

  /** `clones` once the first `k` new groups are inserted, group `prevCloneCount + offset` at offset `offset`. */
  function InsertedGroups(clones: seq<Table>, prev: Table, prevCloneCount: nat, els: seq<Element>, k: nat): seq<Table> {
    if k == 0 then clones
    else InsertClones(InsertedGroups(clones, prev, prevCloneCount, els, k - 1), prevCloneCount + k - 1,
                      NewCloneGroup(prev, prevCloneCount + k - 1, k - 1, els))
  }

  /** The entries `newVisiblePanels.push(...newClones)` appends for the first `k` new groups, holes included. */
  function NewGroupPanels(prev: Table, prevCloneCount: nat, els: seq<Element>, k: nat): Table {
    if k == 0 then []
    else NewGroupPanels(prev, prevCloneCount, els, k - 1) + NewCloneGroup(prev, prevCloneCount + k - 1, k - 1, els)
  }

  /**
   * When exactly the groups below `prevCloneCount` existed, the new groups
   * are appended in order, each a clone of the original table bound to its
   * own slice of the elements, and the old groups are kept.
   */
  lemma {:induction false} InsertedGroupsAppend(clones: seq<Table>, prev: Table, prevCloneCount: nat, els: seq<Element>, k: nat)
    requires |clones| == prevCloneCount
    ensures |InsertedGroups(clones, prev, prevCloneCount, els, k)| == prevCloneCount + k
    ensures InsertedGroups(clones, prev, prevCloneCount, els, k)[..prevCloneCount] == clones
    ensures forall h :: prevCloneCount <= h < prevCloneCount + k ==>
              InsertedGroups(clones, prev, prevCloneCount, els, k)[h] == NewCloneGroup(prev, h, h - prevCloneCount, els)
  {
    if k > 0 {
      InsertedGroupsAppend(clones, prev, prevCloneCount, els, k - 1);
      var before := InsertedGroups(clones, prev, prevCloneCount, els, k - 1);
      var after := InsertedGroups(clones, prev, prevCloneCount, els, k);
      assert after == InsertClones(before, prevCloneCount + k - 1, NewCloneGroup(prev, prevCloneCount + k - 1, k - 1, els));
      assert after[..prevCloneCount] == before[..prevCloneCount];
    }
  }

  /** The pushed entries are the new groups one after the other: `|prev|` per group, entry `idx` of group `o` at `idx + |prev| * o`. */
  lemma {:induction false} NewGroupPanelsAt(prev: Table, prevCloneCount: nat, els: seq<Element>, k: nat, o: nat, idx: nat)
    requires o < k && idx < |prev|
    ensures |NewGroupPanels(prev, prevCloneCount, els, k)| == |prev| * k
    ensures idx + |prev| * o < |prev| * k
    ensures NewGroupPanels(prev, prevCloneCount, els, k)[idx + |prev| * o] == NewCloneGroup(prev, prevCloneCount + o, o, els)[idx]
  {
    var w := |prev|;
    NewGroupPanelsLength(prev, prevCloneCount, els, k);
    GroupMajorFits(idx, o, w, k);
    var before := NewGroupPanels(prev, prevCloneCount, els, k - 1);
    var group := NewCloneGroup(prev, prevCloneCount + k - 1, k - 1, els);
    assert NewGroupPanels(prev, prevCloneCount, els, k) == before + group;
    NewGroupPanelsLength(prev, prevCloneCount, els, k - 1);
    var i := idx + w * o;
    if o < k - 1 {
      NewGroupPanelsAt(prev, prevCloneCount, els, k - 1, o, idx);
      FirstPartAt(before, group, i);
    } else {
      assert i == |before| + idx;
      SecondPartAt(before, group, idx);
    }
  }

  lemma FirstPartAt<T>(p0: seq<T>, p1: seq<T>, i: nat)
    requires i < |p0|
    ensures i < |p0 + p1| && (p0 + p1)[i] == p0[i]
  {
  }

  lemma SecondPartAt<T>(p0: seq<T>, p1: seq<T>, i: nat)
    requires i < |p1|
    ensures |p0| + i < |p0 + p1| && (p0 + p1)[|p0| + i] == p1[i]
  {
  }

  lemma {:induction false} NewGroupPanelsLength(prev: Table, prevCloneCount: nat, els: seq<Element>, k: nat)
    ensures |NewGroupPanels(prev, prevCloneCount, els, k)| == |prev| * k
  {
    if k > 0 {
      NewGroupPanelsLength(prev, prevCloneCount, els, k - 1);
      assert |prev| * k == |prev| * (k - 1) + |prev|;
    }
  }

  /** Every panel pushed onto the visible list is a clone, in one of the new groups, of an original panel. */
  lemma {:induction false} NewGroupPanelsAreClones(prev: Table, prevCloneCount: nat, els: seq<Element>, k: nat, x: Panel)
    requires Some(x) in NewGroupPanels(prev, prevCloneCount, els, k)
    ensures x.cloneIndex.Some? && prevCloneCount <= x.cloneIndex.value < prevCloneCount + k
    ensures exists i :: 0 <= i < |prev| && prev[i].Some? && prev[i].value.index == x.index
  {
    var group := NewCloneGroup(prev, prevCloneCount + k - 1, k - 1, els);
    if Some(x) in NewGroupPanels(prev, prevCloneCount, els, k - 1) {
      NewGroupPanelsAreClones(prev, prevCloneCount, els, k - 1, x);
    } else {
      assert Some(x) in group;
      var i :| 0 <= i < |group| && group[i] == Some(x);
      assert prev[i].Some?;
    }
  }

  /**
   * The new clone groups read the `|prev| * k` elements after the first
   * `start` of the rendered list; the groups are inserted and their entries
   * appended to the visible ones.
   */
  ghost predicate CloneGroupsAdded(clones0: seq<Table>, visible0: Table, clones: seq<Table>, visible: Table,
                                   prev: Table, prevCloneCount: nat, elements: seq<Element>, start: nat, k: nat)
  {
    var els := Slice(elements, start, start + |prev| * k);
    && clones == InsertedGroups(clones0, prev, prevCloneCount, els, k)
    && visible == visible0 + NewGroupPanels(prev, prevCloneCount, els, k)
  }

  /**
   * In group `o` of the `k` new ones, the clone of original `idx` is bound to
   * the rendered element at `start + idx + |prev| * o`, `undefined` past the
   * end of the list.
   */
  lemma NewGroupElement(prev: Table, prevCloneCount: nat, elements: seq<Element>, start: nat, k: nat, o: nat, idx: nat)
    requires o < k && idx < |prev| && prev[idx].Some?
    ensures var els := Slice(elements, start, start + |prev| * k);
            NewCloneGroup(prev, prevCloneCount + o, o, els)[idx]
              == Some(CloneExternal(prev[idx].value, prevCloneCount + o, ElementAt(elements, start + idx + |prev| * o)))
  {
    GroupMajorFits(idx, o, |prev|, k);
    ElementOfSlice(elements, start, start + |prev| * k, idx + |prev| * o);
  }

  /** Slices the elements of the new groups off the rendered list and adds the groups. */
  method AddCloneGroups(clones0: seq<Table>, visible0: Table, prev: Table, prevCloneCount: nat, elements: seq<Element>, start: nat, k: nat)
    returns (clones: seq<Table>, visible: Table)
    ensures CloneGroupsAdded(clones0, visible0, clones, visible, prev, prevCloneCount, elements, start, k)
  {
    var els := Slice(elements, start, start + |prev| * k);
    var pushed;
    clones, pushed := InsertCloneGroups(clones0, prev, prevCloneCount, els, k);
    visible := visible0 + pushed;
  }

  /** The `counter(cloneCount - prevCloneCount).forEach` loop: inserts each new group and collects the entries it pushes. */
  method InsertCloneGroups(clones0: seq<Table>, prev: Table, prevCloneCount: nat, els: seq<Element>, k: nat)
    returns (clones: seq<Table>, pushed: Table)
    ensures clones == InsertedGroups(clones0, prev, prevCloneCount, els, k)
    ensures pushed == NewGroupPanels(prev, prevCloneCount, els, k)
  {
    clones, pushed := clones0, [];
    for offset := 0 to k
      invariant clones == InsertedGroups(clones0, prev, prevCloneCount, els, offset)
      invariant pushed == NewGroupPanels(prev, prevCloneCount, els, offset)
    {
      var group := NewCloneGroup(prev, prevCloneCount + offset, offset, els);
      clones := InsertClones(clones, prevCloneCount + offset, group);
      pushed := pushed + group;
    }
  }

  // ----- The whole rebuild when the original list changed (src/Flicking.ts:680-716) -----

  /** The original table: kept panels at their new indices, a new panel per added item, nothing else. */
  ghost predicate OriginalsPlaced(np: Table, prev: Table, m: seq<(nat, nat)>, added: seq<nat>, addedElements: seq<Element>)
    requires SyncTables.KeptArePresent(prev, m)
  {
    && SyncTables.KeptPlaced(np, prev, m)
    && (forall j :: 0 <= j < |added| ==> added[j] < |np| && np[added[j]] == Some(NewPanel(ElementAt(addedElements, j), added[j])))
    && (forall i :: 0 <= i < |np| && np[i].Some? ==> i in Afters(m) || i in added)
  }

  /** The clone tables: one per group, kept clones moved along, and in circular mode a clone of every added panel. */
  ghost predicate ClonesPlaced(nc: seq<Table>, prevClones: seq<Table>, cloneCount: nat, m: seq<(nat, nat)>, added: seq<nat>,
                               addedElements: seq<Element>, ace: seq<Element>, circular: bool)
  {
    && |nc| == cloneCount
    && (forall g, p :: 0 <= g < |prevClones| && g < cloneCount && p in m ==> p.1 < |nc[g]| && nc[g][p.1] == At(prevClones[g], p.0))
    && (circular ==> forall g, j :: 0 <= g < cloneCount && 0 <= j < |added| ==>
          added[j] < |nc[g]| &&
          nc[g][added[j]] == Some(AddedClones(NewPanel(ElementAt(addedElements, j), added[j]), ace, j, |added|, cloneCount)[g]))
  }

  /**
   * `elements.slice(prevVisibleOrigCount, prevVisibleOrigCount + addedCount)`:
   * the added items' elements, `undefined` past the end of the list.
   */
  function AddedElements(elements: seq<Element>, start: nat, n: nat): (r: seq<Element>)
    ensures |r| <= n
    ensures start + n <= |elements| ==> |r| == n
    ensures forall j :: 0 <= j < n ==> ElementAt(r, j) == ElementAt(elements, start + j)
  {
    var r := Slice(elements, start, start + n);
    forall j | 0 <= j < n
      ensures ElementAt(r, j) == ElementAt(elements, start + j)
    {
      ElementOfSlice(elements, start, start + n, j);
    }
    r
  }

  /** The elements of the added items' clones (the corrected slice), none outside circular mode. */
  function AddedCloneSlice(elements: seq<Element>, start: nat, n: nat, cloneCount: nat, circular: bool): (r: seq<Element>)
    ensures circular ==> r == AddedCloneElements(elements, start, n, cloneCount)
    ensures !circular ==> r == []
  {
    if circular then AddedCloneElements(elements, start, n, cloneCount) else []
  }

  /** The tables and the added entries of the visible list after the original list changed. */
  ghost predicate OriginalsRebuilt(prev: Table, prevClones: seq<Table>, cloneCount: nat, m: seq<(nat, nat)>, added: seq<nat>,
                                   addedElements: seq<Element>, ace: seq<Element>, circular: bool,
                                   np: Table, nc: seq<Table>, addedPanels: Table)
    requires SyncTables.KeptArePresent(prev, m)
  {
    && OriginalsPlaced(np, prev, m, added, addedElements)
    && ClonesPlaced(nc, prevClones, cloneCount, m, added, addedElements, ace, circular)
    && addedPanels == Defined(AddedPanelList(added, addedElements, ace, cloneCount, circular, |added|))
  }

  method RebuildForOriginals(prev: Table, prevClones: seq<Table>, cloneCount: nat, m: seq<(nat, nat)>, added: seq<nat>,
                             addedElements: seq<Element>, ace: seq<Element>, circular: bool)
    returns (np: Table, nc: seq<Table>, addedPanels: Table)
    requires SyncTables.KeptArePresent(prev, m) && SyncTables.DistinctTargets(m, added)
    requires forall j, k :: 0 <= j < k < |added| ==> added[j] != added[k]
    requires |prevClones| <= cloneCount
    ensures OriginalsRebuilt(prev, prevClones, cloneCount, m, added, addedElements, ace, circular, np, nc, addedPanels)
  {
    var np0 := SyncTables.PlaceKept(prev, m);
    np := PlaceAddedVisible(np0, prev, m, added, addedElements);
    var nc0 := KeptCloneGroups(prevClones, cloneCount, m);
    nc := PlaceAddedClonesVisible(nc0, prevClones, cloneCount, m, added, addedElements, ace, circular);
    addedPanels := Defined(AddedPanelList(added, addedElements, ace, cloneCount, circular, |added|));
  }
}
