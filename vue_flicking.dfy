/**
 * The Vue wrapper's rendering side: which virtual nodes it renders as
 * panels, how it clones a slot for a clone group and keys the copy, and
 * how it hands the renderer's diff to the controller's `sync`.
 */
module VueFlicking {
  import opened Wrappers
  import opened JsSemantics
  import opened Panels
  import Navigation
  import VisibleSync
  import Controller

  /** A Vue key: a string or a number. */
  datatype Key = StrKey(s: string) | NumKey(n: int)

  /**
   * A virtual node. `data` stands for every field the clone copies as it is
   * (`data`, `isComment`, `componentOptions`, `context`, `ns`, `isStatic`).
   */
  datatype VNode = VNode(tag: string, data: nat, text: Option<string>, key: Option<Key>, children: Children)

  /** `vnode.children`: undefined, or an array (truthy even when empty). */
  datatype Children = NoChildren | ChildArray(nodes: seq<VNode>)

  // ----- $_cloneVNode (packages/vue-flicking/src/Flicking.ts:233-250) -----

  /** JavaScript truthiness of a key: `""` and `0` are falsy, like a missing key. */
  predicate KeyTruthy(k: Option<Key>) {
    match k
    case None => false
    case Some(StrKey(s)) => s != ""
    case Some(NumKey(n)) => n != 0
  }

  /** A key as a template literal prints it. */
  function KeyText(k: Key): string {
    match k
    case StrKey(s) => s
    case NumKey(n) => IntToString(n)
  }

  /** An optional index as a template literal prints it. */
  function IndexText(i: Option<int>): string {
    match i
    case None => "undefined"
    case Some(n) => IntToString(n)
  }

  /** The key of a clone: set only for a truthy clone index, from the node's own key or else its child index. */
  function CloneKey(v: VNode, cloneIndex: Option<int>, childIndex: Option<int>): Option<Key> {
    if cloneIndex.Some? && cloneIndex.value != 0 then
      Some(StrKey("clone" + IntToString(cloneIndex.value) + "-" + (if KeyTruthy(v.key) then KeyText(v.key.value) else IndexText(childIndex))))
    else None
  }

  /**
   * `$_cloneVNode(vnode, h, cloneIndex, childIndex)`: a copy of the node whose
   * children are cloned without a clone or child index, keyed by group and
   * position when the clone index is truthy and left unkeyed otherwise.
   */
  function CloneVNode(v: VNode, cloneIndex: Option<int>, childIndex: Option<int>): (r: VNode)
    ensures r.tag == v.tag && r.data == v.data && r.text == v.text
    ensures r.key.Some? <==> cloneIndex.Some? && cloneIndex.value != 0
    ensures r.key.Some? ==> r.key == CloneKey(v, cloneIndex, childIndex)
    ensures r.children.ChildArray? <==> v.children.ChildArray?
    ensures v.children.ChildArray? ==>
              |r.children.nodes| == |v.children.nodes| &&
              forall k :: 0 <= k < |v.children.nodes| ==> r.children.nodes[k] == CloneVNode(v.children.nodes[k], None, None)
    decreases v
  {
    var children := match v.children
      case NoChildren => NoChildren
      case ChildArray(cs) => ChildArray(seq(|cs|, k requires 0 <= k < |cs| => CloneVNode(cs[k], None, None)));
    VNode(v.tag, v.data, v.text, CloneKey(v, cloneIndex, childIndex), children)
  }

  /** The node with every key in it removed: what a clone must agree with. */
  function StripKeys(v: VNode): VNode
    decreases v
  {
    var children := match v.children
      case NoChildren => NoChildren
      case ChildArray(cs) => ChildArray(seq(|cs|, k requires 0 <= k < |cs| => StripKeys(cs[k])));
    VNode(v.tag, v.data, v.text, None, children)
  }

  /** No key anywhere in the tree. */
  predicate Unkeyed(v: VNode)
    decreases v
  {
    && v.key.None?
    && (v.children.ChildArray? ==> forall k :: 0 <= k < |v.children.nodes| ==> Unkeyed(v.children.nodes[k]))
  }

  /** A clone is the node itself except for its keys. */
  lemma {:induction false} CloneOnlyChangesKeys(v: VNode, cloneIndex: Option<int>, childIndex: Option<int>)
    ensures StripKeys(CloneVNode(v, cloneIndex, childIndex)) == StripKeys(v)
    decreases v
  {
    if v.children.ChildArray? {
      var cs := v.children.nodes;
      forall k | 0 <= k < |cs|
        ensures StripKeys(CloneVNode(cs[k], None, None)) == StripKeys(cs[k])
      {
        CloneOnlyChangesKeys(cs[k], None, None);
      }
      var r := CloneVNode(v, cloneIndex, childIndex);
      assert StripKeys(r).children.nodes == StripKeys(v).children.nodes;
    }
  }

  /** Cloning without a clone index (how children are cloned) leaves no key at any depth. */
  lemma {:induction false} NestedClonesUnkeyed(v: VNode, childIndex: Option<int>)
    ensures Unkeyed(CloneVNode(v, None, childIndex))
    decreases v
  {
    if v.children.ChildArray? {
      var cs := v.children.nodes;
      forall k | 0 <= k < |cs|
        ensures Unkeyed(CloneVNode(cs[k], None, None))
      {
        NestedClonesUnkeyed(cs[k], None);
      }
    }
  }

  /** The text before the first `-` of `a + "-" + b` is `a` when `a` has only digits. */
  lemma SplitAtSeparator(a: string, b: string, a': string, b': string)
    requires forall k :: 0 <= k < |a| ==> '0' <= a[k] <= '9'
    requires forall k :: 0 <= k < |a'| ==> '0' <= a'[k] <= '9'
    requires a + "-" + b == a' + "-" + b'
    ensures a == a' && b == b'
  {
    var s := a + "-" + b;
    if |a| < |a'| {
      DigitAt(a', |a|);
    } else if |a'| < |a| {
      DigitAt(a, |a'|);
    }
    assert a == s[..|a|] && a' == s[..|a'|];
    assert b == s[|a| + 1..] && b' == s[|a'| + 1..];
  }

  lemma DigitAt(a: string, i: nat)
    requires i < |a| && forall k :: 0 <= k < |a| ==> '0' <= a[k] <= '9'
    ensures a[i] != '-'
  {
  }

  /** `"clone" + g + "-" + rest` determines a positive group `g` and `rest`. */
  lemma CloneKeyParts(c: nat, d: nat, x: string, y: string)
    requires c > 0 && d > 0
    requires "clone" + IntToString(c) + "-" + x == "clone" + IntToString(d) + "-" + y
    ensures c == d && x == y
  {
    var s := "clone" + IntToString(c) + "-" + x;
    assert NatToString(c) + "-" + x == s[5..];
    assert NatToString(d) + "-" + y == s[5..];
    SplitAtSeparator(NatToString(c), x, NatToString(d), y);
    NatToStringInjective(c, d);
  }

  /** Clones in different (keyed) groups never share a key, whatever the nodes' own keys. */
  lemma CloneKeysSeparateGroups(v: VNode, w: VNode, c: nat, d: nat, i: Option<int>, j: Option<int>)
    requires c > 0 && d > 0 && c != d
    ensures CloneVNode(v, Some(c), i).key != CloneVNode(w, Some(d), j).key
  {
    var x := if KeyTruthy(v.key) then KeyText(v.key.value) else IndexText(i);
    var y := if KeyTruthy(w.key) then KeyText(w.key.value) else IndexText(j);
    if CloneVNode(v, Some(c), i).key == CloneVNode(w, Some(d), j).key {
      CloneKeyParts(c, d, x, y);
    }
  }

  /** Within one keyed group, unkeyed slots at different positions get different keys. */
  lemma UnkeyedCloneKeysDistinct(v: VNode, w: VNode, c: nat, i: nat, j: nat)
    requires c > 0 && !KeyTruthy(v.key) && !KeyTruthy(w.key) && i != j
    ensures CloneVNode(v, Some(c), Some(i)).key != CloneVNode(w, Some(c), Some(j)).key
  {
    if CloneVNode(v, Some(c), Some(i)).key == CloneVNode(w, Some(c), Some(j)).key {
      CloneKeyParts(c, c, NatToString(i), NatToString(j));
      NatToStringInjective(i, j);
    }
  }

  // ----- Visible indices in only-visible mode (packages/vue-flicking/src/Flicking.ts:170-186) -----

  /** A rendered position: an original slot, or slot `slot` of clone group `cloneIndex`. */
  datatype Entry = SlotEntry(slot: nat) | CloneEntry(slot: nat, cloneIndex: int)

  lemma MulStrict(p: int, x: int, y: int)
    requires p > 0 && p * x < p * y
    ensures x < y
  {
  }

  lemma MulGap(p: int, d: int, k: int)
    requires p > 0 && d > k
    ensures p * d >= p * k + p
  {
    MulNat(p, d - k - 1);
    assert p * d == p * k + p * (d - k - 1) + p;
  }

  /** `x == s + p * k` with `0 <= s < p` fixes `s` and `k` as the remainder and quotient. */
  lemma DivModUnique(x: int, p: int, s: int, k: int)
    requires p > 0 && 0 <= s < p && x == s + p * k
    ensures x / p == k && x % p == s
  {
    var d, m := x / p, x % p;
    assert x == m + p * d;
    if d > k {
      MulGap(p, d, k);
    } else if d < k {
      MulGap(p, k, d);
    }
  }

  /**
   * The entry the wrapper renders at visible index `index`, as written: a
   * negative index takes its slot from `(index + 1) % panelCnt` (truncated)
   * and its group from `newCloneCount - ((index + 1) % panelCnt + 1)`.
   */
  function VisibleEntryAsWritten(index: int, panelCnt: nat, newCloneCount: nat): (e: Entry)
    requires panelCnt > 0
    ensures e.SlotEntry? <==> 0 <= index < panelCnt
    ensures e.slot < panelCnt
  {
    if index < 0 then
      var r := TruncRem(index + 1, panelCnt);
      CloneEntry(panelCnt + (r - 1), newCloneCount - (r + 1))
    else if index >= panelCnt then
      CloneEntry(index % panelCnt, index / panelCnt - 1)
    else SlotEntry(index)
  }

  /**
   * The entry at visible index `index`: the originals occupy `[0, panelCnt)`,
   * group `g` of the clones after them occupies `[panelCnt * (g + 1), panelCnt * (g + 2))`,
   * and the clones before them count back from the last group.
   */
  function VisibleEntry(index: int, panelCnt: nat, newCloneCount: nat): (e: Entry)
    requires panelCnt > 0
    ensures e.SlotEntry? <==> 0 <= index < panelCnt
    ensures e.slot < panelCnt
    ensures e.SlotEntry? ==> e.slot == index
    ensures e.CloneEntry? && index >= panelCnt ==> e.cloneIndex >= 0 && index == e.slot + panelCnt * (e.cloneIndex + 1)
    ensures e.CloneEntry? && index < 0 ==> e.cloneIndex < newCloneCount && index == e.slot + panelCnt * (e.cloneIndex - newCloneCount)
  {
    if index < 0 then
      CloneEntry(index % panelCnt, newCloneCount + index / panelCnt)
    else if index >= panelCnt then
      CloneEntry(index % panelCnt, index / panelCnt - 1)
    else SlotEntry(index)
  }

  /** Every index of the circular track, `[-panelCnt * n, panelCnt * (n + 1))`, names an existing clone group. */
  lemma VisibleEntryWithinClones(index: int, panelCnt: nat, newCloneCount: nat)
    requires panelCnt > 0 && -(panelCnt as int) * newCloneCount <= index < panelCnt * (newCloneCount + 1)
    ensures var e := VisibleEntry(index, panelCnt, newCloneCount);
            e.CloneEntry? ==> 0 <= e.cloneIndex < newCloneCount
  {
    var e := VisibleEntry(index, panelCnt, newCloneCount);
    if e.CloneEntry? && index >= panelCnt {
      MulStrict(panelCnt, e.cloneIndex + 1, newCloneCount + 1);
    } else if e.CloneEntry? {
      assert panelCnt * (e.cloneIndex - newCloneCount) > panelCnt * (-(newCloneCount as int) - 1);
      MulStrict(panelCnt, -(newCloneCount as int) - 1, e.cloneIndex - newCloneCount);
    }
  }

  /** As written, the slot is right for every index, and the whole entry is right for index `-1` and upwards. */
  lemma AsWrittenSlotAgrees(index: int, panelCnt: nat, newCloneCount: nat)
    requires panelCnt > 0
    ensures VisibleEntryAsWritten(index, panelCnt, newCloneCount).slot == VisibleEntry(index, panelCnt, newCloneCount).slot
    ensures index >= -1 ==> VisibleEntryAsWritten(index, panelCnt, newCloneCount) == VisibleEntry(index, panelCnt, newCloneCount)
  {
    if index < 0 {
      var r := TruncRem(index + 1, panelCnt);
      if index + 1 == 0 {
        DivModUnique(index, panelCnt, panelCnt - 1, -1);
      } else {
        var q := (-(index + 1)) / panelCnt;
        assert index == (panelCnt + (r - 1)) + panelCnt * (-q - 1);
        DivModUnique(index, panelCnt, panelCnt + (r - 1), -q - 1);
      }
    }
  }

  /**
   * As written, every index in `[-panelCnt, -2]` is given the clone group
   * `newCloneCount` or above, past the last group, where the slot belongs
   * to the last group.
   */
  lemma AsWrittenCloneIndexOverruns(index: int, panelCnt: nat, newCloneCount: nat)
    requires panelCnt > 0 && -(panelCnt as int) <= index <= -2
    ensures VisibleEntryAsWritten(index, panelCnt, newCloneCount).cloneIndex >= newCloneCount
    ensures VisibleEntry(index, panelCnt, newCloneCount).cloneIndex == newCloneCount - 1
  {
    DivModUnique(index, panelCnt, index + panelCnt, -1);
  }

  /**
   * With three panels and two clone groups, indices -4 and -1 both render
   * slot 2 of group 1 as written, so two rendered clones share one key; the
   * correct entries are slot 2 of group 0 and slot 2 of group 1.
   */
  lemma AsWrittenEntriesCollide()
    ensures VisibleEntryAsWritten(-4, 3, 2) == VisibleEntryAsWritten(-1, 3, 2) == CloneEntry(2, 1)
    ensures VisibleEntry(-4, 3, 2) == CloneEntry(2, 0) && VisibleEntry(-1, 3, 2) == CloneEntry(2, 1)
  {
    assert TruncRem(-3, 3) == 0;
  }

  // ----- The rendered panel list (packages/vue-flicking/src/Flicking.ts:143-231) -----

  /** Each slot paired with its own position (`slots.map((slot, slotIndex) => ...)`). */
  function Numbered(s: seq<VNode>): (r: seq<(VNode, int)>)
    ensures |r| == |s| && forall j :: 0 <= j < |s| ==> r[j] == (s[j], j)
  {
    seq(|s|, j requires 0 <= j < |s| => (s[j], j))
  }

  /** The added slots paired with their positions (`added.map(addedIdx => slots[addedIdx])`). */
  function AddedNodes(slots: seq<VNode>, added: seq<nat>): (r: seq<(VNode, int)>)
    requires forall j :: 0 <= j < |added| ==> added[j] < |slots|
    ensures |r| == |added| && forall j :: 0 <= j < |added| ==> r[j] == (slots[added[j]], added[j] as int)
  {
    seq(|added|, j requires 0 <= j < |added| => (slots[added[j]], added[j] as int))
  }

  /** `added.map(addedIndex => slots[addedIndex])`. */
  function AddedSlots(slots: seq<VNode>, added: seq<nat>): (r: seq<VNode>)
    requires forall j :: 0 <= j < |added| ==> added[j] < |slots|
    ensures |r| == |added| && forall j :: 0 <= j < |added| ==> r[j] == slots[added[j]]
  {
    seq(|added|, j requires 0 <= j < |added| => slots[added[j]])
  }

  /** One clone group: every node cloned into group `cloneIndex` at its own position. */
  function CloneGroup(nodes: seq<(VNode, int)>, cloneIndex: int): (r: seq<VNode>)
    ensures |r| == |nodes|
  {
    seq(|nodes|, j requires 0 <= j < |nodes| => CloneVNode(nodes[j].0, Some(cloneIndex), Some(nodes[j].1)))
  }

  lemma CloneGroupAt(nodes: seq<(VNode, int)>, cloneIndex: int, j: nat)
    requires j < |nodes|
    ensures CloneGroup(nodes, cloneIndex)[j] == CloneVNode(nodes[j].0, Some(cloneIndex), Some(nodes[j].1))
  {
  }

  /** Clone groups `from`, ..., `from + count - 1`, one after another. */
  function CloneRun(nodes: seq<(VNode, int)>, from: int, count: nat): seq<VNode>
    decreases count
  {
    if count == 0 then [] else CloneRun(nodes, from, count - 1) + CloneGroup(nodes, from + count - 1)
  }

  lemma MulNat(a: nat, b: nat)
    ensures a * b >= 0
  {
  }

  /** `w` is the number of nodes, passed so that callers can name it by the list it comes from. */
  lemma {:induction false} CloneRunLength(nodes: seq<(VNode, int)>, from: int, count: nat, w: nat)
    requires w == |nodes|
    ensures |CloneRun(nodes, from, count)| == w * count
    decreases count
  {
    if count > 0 {
      CloneRunLength(nodes, from, count - 1, w);
      assert w * count == w * (count - 1) + w;
    }
  }

  /** Node `j` of group `g` sits at `j + w * g`, for `w` nodes, and is cloned into group `from + g`. */
  lemma {:induction false} CloneRunAt(nodes: seq<(VNode, int)>, from: int, count: nat, g: nat, j: nat, w: nat)
    requires w == |nodes| && g < count && j < w
    ensures 0 <= j + w * g < |CloneRun(nodes, from, count)|
    ensures CloneRun(nodes, from, count)[j + w * g] == CloneGroup(nodes, from + g)[j]
    decreases count
  {
    CloneRunLength(nodes, from, count - 1, w);
    MulNat(w, g);
    var prefix := CloneRun(nodes, from, count - 1);
    var last := CloneGroup(nodes, from + count - 1);
    assert CloneRun(nodes, from, count) == prefix + last;
    if g < count - 1 {
      CloneRunAt(nodes, from, count - 1, g, j, w);
      VisibleSync.FirstPartAt(prefix, last, j + w * g);
    } else {
      assert j + w * g == |prefix| + j;
      VisibleSync.SecondPartAt(prefix, last, j);
    }
  }

  /** A run of `count` groups has `count` copies of the nodes, group after group, each in its own group. */
  lemma CloneRunShape(nodes: seq<(VNode, int)>, from: int, count: nat)
    ensures |CloneRun(nodes, from, count)| == |nodes| * count
    ensures forall g, j :: 0 <= g < count && 0 <= j < |nodes| ==>
              VisibleSync.GroupMajorFitsP(j, g, |nodes|, count) &&
              CloneRun(nodes, from, count)[j + |nodes| * g] == CloneVNode(nodes[j].0, Some(from + g), Some(nodes[j].1))
  {
    CloneRunLength(nodes, from, count, |nodes|);
    forall g, j | 0 <= g < count && 0 <= j < |nodes|
      ensures VisibleSync.GroupMajorFitsP(j, g, |nodes|, count)
      ensures CloneRun(nodes, from, count)[j + |nodes| * g] == CloneVNode(nodes[j].0, Some(from + g), Some(nodes[j].1))
    {
      CloneRunAt(nodes, from, count, g, j, |nodes|);
      CloneGroupAt(nodes, from + g, j);
    }
  }

  /** `slots.slice(0, lastIndex + 1)`: the slots rendered as originals. */
  function Originals(slots: seq<VNode>, lastIndex: Navigation.Extended): (r: seq<VNode>)
    ensures |r| <= |slots| && r == slots[..|r|]
    ensures lastIndex.PosInfinity? ==> r == slots
    ensures lastIndex.Finite? && 0 <= lastIndex.v < |slots| ==> |r| == lastIndex.v + 1
  {
    match lastIndex
    case PosInfinity => slots
    case Finite(v) => SlicePrefix(slots, v + 1)
  }

  /** `options.lastIndex || DEFAULT_OPTIONS.lastIndex`: a missing or zero option means no limit. */
  function OptionLastIndex(option: Option<int>): (r: Navigation.Extended)
    ensures r.PosInfinity? <==> option.None? || option.value == 0
    ensures r.Finite? ==> r.v == option.value
  {
    if option.Some? && option.value != 0 then Navigation.Finite(option.value) else Navigation.PosInfinity
  }

  /**
   * `$_getClonedVNodes`: for each clone index from 0 up to the clone count, a
   * clone of every rendered original, at its position, in that group.
   */
  method ClonedVNodes(slots: seq<VNode>, lastIndex: Navigation.Extended, cloneCount: nat) returns (clones: seq<VNode>)
    ensures clones == CloneRun(Numbered(Originals(slots, lastIndex)), 0, cloneCount)
  {
    var children := Originals(slots, lastIndex);
    clones := [];
    for cloneIndex := 0 to cloneCount
      invariant clones == CloneRun(Numbered(children), 0, cloneIndex)
    {
      clones := clones + CloneGroup(Numbered(children), cloneIndex);
    }
  }

  /** The list rendered outside only-visible mode: the originals, then their clone groups. */
  function FullList(slots: seq<VNode>, lastIndex: Navigation.Extended, cloneCount: nat): seq<VNode> {
    Originals(slots, lastIndex) + CloneRun(Numbered(Originals(slots, lastIndex)), 0, cloneCount)
  }

  lemma FullListLength(slots: seq<VNode>, lastIndex: Navigation.Extended, cloneCount: nat)
    ensures |FullList(slots, lastIndex, cloneCount)| == |Originals(slots, lastIndex)| * (cloneCount + 1)
  {
    var n := |Originals(slots, lastIndex)|;
    CloneRunLength(Numbered(Originals(slots, lastIndex)), 0, cloneCount, n);
    assert n * (cloneCount + 1) == n + n * cloneCount;
  }

  /** Group `g`'s clone of original `j` sits at `n + (j + n * g)` of the full list. */
  lemma FullListAt(slots: seq<VNode>, lastIndex: Navigation.Extended, cloneCount: nat, g: nat, j: nat)
    requires g < cloneCount && j < |Originals(slots, lastIndex)|
    ensures var n := |Originals(slots, lastIndex)|;
            n + (j + n * g) < |FullList(slots, lastIndex, cloneCount)| &&
            FullList(slots, lastIndex, cloneCount)[n + (j + n * g)] == CloneVNode(slots[j], Some(g), Some(j))
  {
    var o := Originals(slots, lastIndex);
    var n := |o|;
    var run := CloneRun(Numbered(o), 0, cloneCount);
    CloneRunAt(Numbered(o), 0, cloneCount, g, j, n);
    CloneGroupAt(Numbered(o), g, j);
    var list := o + run;
    assert list[n + (j + n * g)] == run[j + n * g];
    assert o[j] == slots[j];
  }

  /**
   * The full list has `(cloneCount + 1) * n` nodes for `n` originals: the
   * originals first, then group `g`'s clone of original `j` at `n * (g + 1) + j`.
   */
  lemma FullListShape(slots: seq<VNode>, lastIndex: Navigation.Extended, cloneCount: nat)
    ensures var n := |Originals(slots, lastIndex)|;
            && |FullList(slots, lastIndex, cloneCount)| == n * (cloneCount + 1)
            && FullList(slots, lastIndex, cloneCount)[..n] == Originals(slots, lastIndex)
            && forall g, j :: 0 <= g < cloneCount && 0 <= j < n ==>
                 VisibleSync.GroupMajorFitsP(j, g, n, cloneCount) &&
                 FullList(slots, lastIndex, cloneCount)[n + (j + n * g)] == CloneVNode(slots[j], Some(g), Some(j))
  {
    var n := |Originals(slots, lastIndex)|;
    FullListLength(slots, lastIndex, cloneCount);
    forall g, j | 0 <= g < cloneCount && 0 <= j < n
      ensures VisibleSync.GroupMajorFitsP(j, g, n, cloneCount)
      ensures FullList(slots, lastIndex, cloneCount)[n + (j + n * g)] == CloneVNode(slots[j], Some(g), Some(j))
    {
      VisibleSync.GroupMajorFits(j, g, n, cloneCount);
      FullListAt(slots, lastIndex, cloneCount, g, j);
    }
  }

  /**
   * The full list has the shape the controller's full resynchronisation
   * assumes: dividing its length by `cloneCount + 1` gives the number of
   * originals back, and dividing by that gives `cloneCount` groups.
   */
  lemma FullListMatchesSync(slots: seq<VNode>, lastIndex: Navigation.Extended, cloneCount: nat)
    requires |Originals(slots, lastIndex)| > 0
    ensures var n := |Originals(slots, lastIndex)|;
            var len := |FullList(slots, lastIndex, cloneCount)|;
            Controller.NewOriginalCount(len, cloneCount) == n && Controller.NewCloneCount(len, n) == cloneCount
  {
    var n := |Originals(slots, lastIndex)|;
    var len := |FullList(slots, lastIndex, cloneCount)|;
    var d := cloneCount + 1;
    FullListLength(slots, lastIndex, cloneCount);
    assert len == 0 + d * n;
    DivModUnique(len, d, 0, n);
    assert len == 0 + n * d;
    DivModUnique(len, n, 0, d);
    assert len >= n;
  }

  // ----- The list in only-visible mode (packages/vue-flicking/src/Flicking.ts:165-208) -----

  /** The entry at the `k`-th index of the window that starts at `vmin`. */
  function WindowEntry(vmin: int, k: nat, panelCnt: nat, newCloneCount: nat): Entry
    requires panelCnt > 0
  {
    VisibleEntry(vmin + k, panelCnt, newCloneCount)
  }

  /** A clone of a slot that is not there: `$_cloneVNode(undefined)` reads `undefined.key` and throws. */
  predicate MissingClone(slots: seq<VNode>, e: Entry) {
    e.CloneEntry? && e.slot >= |slots|
  }

  /**
   * Rendering a window of `count` indices throws: with no panel every index
   * takes its slot from a `% 0`, which is `NaN`, and a clone entry on a slot
   * past the slots clones `undefined`.
   */
  predicate WindowThrows(slots: seq<VNode>, vmin: int, count: nat, panelCnt: nat, newCloneCount: nat) {
    count > 0 && (panelCnt == 0 || exists k :: 0 <= k < count && MissingClone(slots, WindowEntry(vmin, k, panelCnt, newCloneCount)))
  }

  /** The node rendered for an entry: the slot itself (`undefined` past the slots), or its clone keyed by group and slot. */
  function WindowNode(slots: seq<VNode>, e: Entry): (r: Option<VNode>)
    requires !MissingClone(slots, e)
    ensures e.SlotEntry? ==> (r.Some? <==> e.slot < |slots|) && (r.Some? ==> r.value == slots[e.slot])
    ensures e.CloneEntry? ==> r == Some(CloneVNode(slots[e.slot], Some(e.cloneIndex), Some(e.slot)))
  {
    match e
    case SlotEntry(s) => if s < |slots| then Some(slots[s]) else None
    case CloneEntry(s, c) => Some(CloneVNode(slots[s], Some(c), Some(s)))
  }

  /** The `count` entries of the visible window from index `vmin`. */
  function Visibles(slots: seq<VNode>, vmin: int, count: nat, panelCnt: nat, newCloneCount: nat): (r: seq<Option<VNode>>)
    requires !WindowThrows(slots, vmin, count, panelCnt, newCloneCount)
    ensures |r| == count
    ensures forall k :: 0 <= k < count ==> panelCnt > 0 && r[k] == WindowNode(slots, WindowEntry(vmin, k, panelCnt, newCloneCount))
  {
    seq(count, k requires 0 <= k < count => WindowNode(slots, WindowEntry(vmin, k, panelCnt, newCloneCount)))
  }

  /**
   * With no more panels than slots, as when the slots did not shrink since
   * the panels were built, no window throws and every entry is rendered.
   */
  lemma WindowWithinSlots(slots: seq<VNode>, vmin: int, count: nat, panelCnt: nat, newCloneCount: nat)
    requires 0 < panelCnt <= |slots|
    ensures !WindowThrows(slots, vmin, count, panelCnt, newCloneCount)
    ensures forall k :: 0 <= k < count ==> Visibles(slots, vmin, count, panelCnt, newCloneCount)[k].Some?
  {
  }

  /**
   * After slots were removed, the window can still hold indices of the old
   * panels: with two slots left of three panels and one clone group, index 2
   * renders `undefined` and index 5, the clone of slot 2, throws.
   */
  lemma RemovedSlotInWindow(a: VNode, b: VNode)
    ensures Visibles([a, b], 1, 2, 3, 1) == [Some(b), None]
    ensures WindowThrows([a, b], 5, 1, 3, 1)
  {
    assert WindowEntry(1, 1, 3, 1) == SlotEntry(2);
    assert WindowEntry(5, 0, 3, 1) == CloneEntry(2, 0) by {
      DivModUnique(5, 3, 2, 1);
    }
    assert MissingClone([a, b], WindowEntry(5, 0, 3, 1));
  }

  /** The window, the added slots, their clones, and the new groups can be rendered. */
  predicate VisibleListReady(slots: seq<VNode>, vmin: int, vmax: int, panelCnt: nat, oldCloneCount: nat, newCloneCount: nat, added: seq<nat>) {
    && vmin <= vmax + 1
    && !WindowThrows(slots, vmin, vmax - vmin + 1, panelCnt, newCloneCount)
    && oldCloneCount <= newCloneCount
    && forall j :: 0 <= j < |added| ==> added[j] < |slots|
  }

  /** What follows the window: the added slots, a clone of every added slot in each old group, and every slot in each new group. */
  function VisibleTail(slots: seq<VNode>, oldCloneCount: nat, newCloneCount: nat, added: seq<nat>): seq<VNode>
    requires oldCloneCount <= newCloneCount && forall j :: 0 <= j < |added| ==> added[j] < |slots|
  {
    AddedSlots(slots, added)
    + CloneRun(AddedNodes(slots, added), 0, oldCloneCount)
    + CloneRun(Numbered(slots), oldCloneCount, newCloneCount - oldCloneCount)
  }

  /** The list rendered in only-visible mode: the visible window, then its tail. */
  function VisibleList(slots: seq<VNode>, vmin: int, vmax: int, panelCnt: nat, oldCloneCount: nat, newCloneCount: nat, added: seq<nat>): seq<Option<VNode>>
    requires VisibleListReady(slots, vmin, vmax, panelCnt, oldCloneCount, newCloneCount, added)
  {
    Visibles(slots, vmin, vmax - vmin + 1, panelCnt, newCloneCount) + Defined(VisibleTail(slots, oldCloneCount, newCloneCount, added))
  }

  lemma VisibleTailAt(vis: seq<Option<VNode>>, tail: seq<VNode>, i: nat)
    requires i < |tail|
    ensures |vis| + i < |vis + Defined(tail)| && (vis + Defined(tail))[|vis| + i] == Some(tail[i])
  {
  }

  lemma VisibleListLength(slots: seq<VNode>, vmin: int, vmax: int, panelCnt: nat, oldCloneCount: nat, newCloneCount: nat, added: seq<nat>)
    requires VisibleListReady(slots, vmin, vmax, panelCnt, oldCloneCount, newCloneCount, added)
    ensures |VisibleList(slots, vmin, vmax, panelCnt, oldCloneCount, newCloneCount, added)|
              == (vmax - vmin + 1) + |added| + |added| * oldCloneCount + |slots| * (newCloneCount - oldCloneCount)
  {
    CloneRunLength(AddedNodes(slots, added), 0, oldCloneCount, |added|);
    CloneRunLength(Numbered(slots), oldCloneCount, newCloneCount - oldCloneCount, |slots|);
  }

  /**
   * The visible window comes first, one entry per index from `vmin` to
   * `vmax`: an index among the originals renders its slot, or `undefined`
   * past the slots; any other index a clone of slot `index mod panelCnt`.
   */
  lemma VisibleListWindow(slots: seq<VNode>, vmin: int, vmax: int, panelCnt: nat, oldCloneCount: nat, newCloneCount: nat, added: seq<nat>, k: nat)
    requires VisibleListReady(slots, vmin, vmax, panelCnt, oldCloneCount, newCloneCount, added)
    requires k <= vmax - vmin
    ensures panelCnt > 0
    ensures var list := VisibleList(slots, vmin, vmax, panelCnt, oldCloneCount, newCloneCount, added);
            var e := VisibleEntry(vmin + k, panelCnt, newCloneCount);
            && k < |list|
            && (0 <= vmin + k < panelCnt ==> list[k] == if vmin + k < |slots| then Some(slots[vmin + k]) else None)
            && (e.CloneEntry? ==> e.slot == (vmin + k) % panelCnt && e.slot < |slots| &&
                                  list[k] == Some(CloneVNode(slots[e.slot], Some(e.cloneIndex), Some(e.slot))))
  {
    VisibleListLength(slots, vmin, vmax, panelCnt, oldCloneCount, newCloneCount, added);
    var e := WindowEntry(vmin, k, panelCnt, newCloneCount);
    var vis := Visibles(slots, vmin, vmax - vmin + 1, panelCnt, newCloneCount);
    var tail := VisibleTail(slots, oldCloneCount, newCloneCount, added);
    assert VisibleList(slots, vmin, vmax, panelCnt, oldCloneCount, newCloneCount, added) == vis + Defined(tail);
    assert vis[k] == WindowNode(slots, e);
    if e.CloneEntry? && vmin + k >= panelCnt {
      DivModUnique(vmin + k, panelCnt, e.slot, e.cloneIndex + 1);
    } else if e.CloneEntry? {
      DivModUnique(vmin + k, panelCnt, e.slot, e.cloneIndex - newCloneCount);
    }
  }

  /** The added slots follow the window, in the diff's order. */
  lemma VisibleListAdded(slots: seq<VNode>, vmin: int, vmax: int, panelCnt: nat, oldCloneCount: nat, newCloneCount: nat, added: seq<nat>, j: nat)
    requires VisibleListReady(slots, vmin, vmax, panelCnt, oldCloneCount, newCloneCount, added)
    requires j < |added|
    ensures var list := VisibleList(slots, vmin, vmax, panelCnt, oldCloneCount, newCloneCount, added);
            var w := vmax - vmin + 1;
            w + j < |list| && list[w + j] == Some(slots[added[j]])
  {
    var vis := Visibles(slots, vmin, vmax - vmin + 1, panelCnt, newCloneCount);
    var tail := VisibleTail(slots, oldCloneCount, newCloneCount, added);
    VisibleTailAt(vis, tail, j);
  }

  /** Node `j` of group `g` of a run that follows `prefix`. */
  lemma RunAfterAt(prefix: seq<VNode>, nodes: seq<(VNode, int)>, from: int, count: nat, g: nat, j: nat, w: nat)
    requires w == |nodes| && g < count && j < w
    ensures |prefix| + (j + w * g) < |prefix + CloneRun(nodes, from, count)|
    ensures (prefix + CloneRun(nodes, from, count))[|prefix| + (j + w * g)] == CloneGroup(nodes, from + g)[j]
  {
    CloneRunAt(nodes, from, count, g, j, w);
    VisibleSync.SecondPartAt(prefix, CloneRun(nodes, from, count), j + w * g);
  }

  /** Then, for each old group `g`, a clone of every added slot, keyed by its slot position. */
  lemma VisibleListAddedClone(slots: seq<VNode>, vmin: int, vmax: int, panelCnt: nat, oldCloneCount: nat, newCloneCount: nat, added: seq<nat>, g: nat, j: nat)
    requires VisibleListReady(slots, vmin, vmax, panelCnt, oldCloneCount, newCloneCount, added)
    requires g < oldCloneCount && j < |added|
    ensures var list := VisibleList(slots, vmin, vmax, panelCnt, oldCloneCount, newCloneCount, added);
            var w := vmax - vmin + 1;
            var a := |added|;
            w + a + (j + a * g) < |list| && list[w + a + (j + a * g)] == Some(CloneVNode(slots[added[j]], Some(g), Some(added[j])))
  {
    var nodes := AddedNodes(slots, added);
    var vis := Visibles(slots, vmin, vmax - vmin + 1, panelCnt, newCloneCount);
    var tail := VisibleTail(slots, oldCloneCount, newCloneCount, added);
    var i := |added| + (j + |added| * g);
    MulNat(|added|, g);
    assert i < |tail| && tail[i] == CloneGroup(nodes, g)[j] by {
      var prefix := AddedSlots(slots, added);
      var rest := CloneRun(Numbered(slots), oldCloneCount, newCloneCount - oldCloneCount);
      assert tail == prefix + CloneRun(nodes, 0, oldCloneCount) + rest;
      RunAfterAt(prefix, nodes, 0, oldCloneCount, g, j, |added|);
      VisibleSync.FirstPartAt(prefix + CloneRun(nodes, 0, oldCloneCount), rest, i);
    }
    CloneGroupAt(nodes, g, j);
    VisibleTailAt(vis, tail, i);
  }

  /** Last, for each new group, a clone of every slot, in the groups after the old ones. */
  lemma VisibleListNewClone(slots: seq<VNode>, vmin: int, vmax: int, panelCnt: nat, oldCloneCount: nat, newCloneCount: nat, added: seq<nat>, g: nat, i: nat)
    requires VisibleListReady(slots, vmin, vmax, panelCnt, oldCloneCount, newCloneCount, added)
    requires g < newCloneCount - oldCloneCount && i < |slots|
    ensures var list := VisibleList(slots, vmin, vmax, panelCnt, oldCloneCount, newCloneCount, added);
            var start := (vmax - vmin + 1) + |added| + |added| * oldCloneCount;
            start + (i + |slots| * g) < |list| &&
            list[start + (i + |slots| * g)] == Some(CloneVNode(slots[i], Some(oldCloneCount + g), Some(i)))
  {
    var nodes := Numbered(slots);
    var vis := Visibles(slots, vmin, vmax - vmin + 1, panelCnt, newCloneCount);
    var tail := VisibleTail(slots, oldCloneCount, newCloneCount, added);
    var start := |added| + |added| * oldCloneCount;
    MulNat(|added|, oldCloneCount);
    MulNat(|slots|, g);
    var x := start + (i + |slots| * g);
    assert x < |tail| && tail[x] == CloneGroup(nodes, oldCloneCount + g)[i] by {
      var count: nat := newCloneCount - oldCloneCount;
      var prefix := AddedSlots(slots, added) + CloneRun(AddedNodes(slots, added), 0, oldCloneCount);
      CloneRunLength(AddedNodes(slots, added), 0, oldCloneCount, |added|);
      assert |prefix| == start;
      assert tail == prefix + CloneRun(nodes, oldCloneCount, count);
      RunAfterAt(prefix, nodes, oldCloneCount, count, g, i, |slots|);
    }
    CloneGroupAt(nodes, oldCloneCount + g, i);
    VisibleTailAt(vis, tail, x);
  }

  /**
   * The controller, reading this list, takes the elements of added panels
   * from index `vmax - vmin` on; the list holds the last visible entry at
   * that index and the first added slot one further.
   */
  lemma VisibleCountsDiffer(slots: seq<VNode>, vmin: int, vmax: int, panelCnt: nat, oldCloneCount: nat, newCloneCount: nat, added: seq<nat>)
    requires VisibleListReady(slots, vmin, vmax, panelCnt, oldCloneCount, newCloneCount, added)
    requires vmin <= vmax && |added| > 0
    ensures panelCnt > 0
    ensures var list := VisibleList(slots, vmin, vmax, panelCnt, oldCloneCount, newCloneCount, added);
            && vmax - vmin + 1 < |list|
            && list[vmax - vmin] == WindowNode(slots, WindowEntry(vmin, vmax - vmin, panelCnt, newCloneCount))
            && list[vmax - vmin + 1] == Some(slots[added[0]])
  {
    VisibleListAdded(slots, vmin, vmax, panelCnt, oldCloneCount, newCloneCount, added, 0);
  }

  /**
   * `$_getPanels` in only-visible mode throws: `Array(NaN)` for a window
   * never set, `Array` of a negative length for an empty window or fewer
   * clone groups than rendered last, or a window entry that cannot be cloned.
   */
  predicate RenderThrows(slots: seq<VNode>, visibleIndex: Option<(int, int)>, panelCnt: nat, oldCloneCount: nat, newCloneCount: nat) {
    || visibleIndex.None?
    || visibleIndex.value.0 > visibleIndex.value.1 + 1
    || WindowThrows(slots, visibleIndex.value.0, visibleIndex.value.1 - visibleIndex.value.0 + 1, panelCnt, newCloneCount)
    || oldCloneCount > newCloneCount
  }
  // ----- The component (packages/vue-flicking/src/Flicking.ts:18-141) -----

  /**
   * The wrapper component's own state: the native controller (absent
   * before mounting), the clone count rendered last, the slot diff
   * waiting for the next `sync`, and the visible window.
   */
  class Flicking {
    const renderOnlyVisible: bool
    /** `options.lastIndex`. */
    const lastIndexOption: Option<int>
    var native: Controller.Flicking?
    var cloneCount: nat
    var slotDiffResult: Option<Diff<VNode>>
    /** `$_visibleIndex`; none while it holds `NaN`. */
    var visibleIndex: Option<(int, int)>

    constructor (renderOnlyVisible: bool, lastIndexOption: Option<int>, native: Controller.Flicking?, visibleIndex: Option<(int, int)>)
      ensures this.renderOnlyVisible == renderOnlyVisible && this.lastIndexOption == lastIndexOption
      ensures this.native == native && this.visibleIndex == visibleIndex
      ensures cloneCount == 0 && slotDiffResult == None
    {
      this.renderOnlyVisible := renderOnlyVisible;
      this.lastIndexOption := lastIndexOption;
      this.native := native;
      this.visibleIndex := visibleIndex;
      cloneCount := 0;
      slotDiffResult := None;
    }

    /** Only the visible panels are rendered once the slot differ exists, which is once the native controller does. */
    predicate VisibleMode()
      reads this
    {
      renderOnlyVisible && native != null
    }

    /** `flicking ? flicking.getCloneCount() : 0`. */
    function NativeCloneCount(): nat
      reads this, native
    {
      if native != null then native.cloneCount else 0
    }

    /** `flicking ? flicking.getLastIndex() : options.lastIndex || DEFAULT_OPTIONS.lastIndex`, given the native value. */
    function LastIndex(nativeLastIndex: Navigation.Extended): Navigation.Extended
      reads this
    {
      if native != null then nativeLastIndex else OptionLastIndex(lastIndexOption)
    }

    /** The slot differ reports added indices of the new slots; only-visible rendering reads those slots. */
    predicate GetPanelsReady(slots: Option<seq<VNode>>, slotsDiff: Diff<VNode>)
      reads this
    {
      slots.Some? && VisibleMode() ==> forall j :: 0 <= j < |slotsDiff.added| ==> slotsDiff.added[j] < |slots.value|
    }

    /**
     * `$_getPanels`: no slots render nothing; in only-visible mode the slot
     * diff is stored for the next `sync` and the visible list is rendered,
     * unless the window or the clone counts make it throw; otherwise the
     * originals up to the last index and their clone groups.
     */
    method GetPanels(slots: Option<seq<VNode>>, nativeLastIndex: Navigation.Extended, slotsDiff: Diff<VNode>)
      returns (panels: seq<Option<VNode>>, thrown: bool)
      requires GetPanelsReady(slots, slotsDiff)
      modifies this`slotDiffResult
      ensures slots.None? ==> panels == [] && !thrown && slotDiffResult == old(slotDiffResult)
      ensures slots.Some? && VisibleMode() ==>
                && slotDiffResult == Some(slotsDiff)
                && (thrown <==> RenderThrows(slots.value, visibleIndex, |native.panels|, cloneCount, native.cloneCount))
                && (!thrown ==>
                      VisibleListReady(slots.value, visibleIndex.value.0, visibleIndex.value.1, |native.panels|,
                                       cloneCount, native.cloneCount, slotsDiff.added) &&
                      panels == VisibleList(slots.value, visibleIndex.value.0, visibleIndex.value.1, |native.panels|,
                                            cloneCount, native.cloneCount, slotsDiff.added))
      ensures slots.Some? && !VisibleMode() ==>
                && !thrown && slotDiffResult == old(slotDiffResult)
                && panels == Defined(FullList(slots.value, LastIndex(nativeLastIndex), NativeCloneCount()))
    {
      thrown := false;
      panels := [];
      if slots.None? {
        return;
      }
      var s := slots.value;
      var newCloneCount := NativeCloneCount();
      var lastIndex := LastIndex(nativeLastIndex);
      if VisibleMode() {
        slotDiffResult := Some(slotsDiff);
        var panelCnt := |native.panels|;
        if RenderThrows(s, visibleIndex, panelCnt, cloneCount, newCloneCount) {
          thrown := true;
          return;
        }
        var (vmin, vmax) := visibleIndex.value;
        panels := VisibleList(s, vmin, vmax, panelCnt, cloneCount, newCloneCount, slotsDiff.added);
      } else {
        var clones := ClonedVNodes(s, lastIndex, newCloneCount);
        panels := Defined(Originals(s, lastIndex) + clones);
      }
    }

    /**
     * `onUpdate`: passes the renderer's diff, the stored slot diff and the
     * clone count rendered last to `sync`, then records the clone count the
     * native controller had before it and drops the slot diff; when `sync`
     * throws, neither is recorded.
     */
    method OnUpdate(diff: Diff<Element>, calcVisible: seq<Controller.Position>) returns (thrown: bool)
      requires native != null
      requires native.SyncReady(diff, slotDiffResult, cloneCount, calcVisible)
      modifies this`cloneCount, this`slotDiffResult, native
      ensures thrown <==> old(native.SyncThrows(diff, slotDiffResult))
      ensures thrown ==>
                && cloneCount == old(cloneCount) && slotDiffResult == old(slotDiffResult)
                && native.panels == old(native.panels) && native.clones == old(native.clones)
                && native.cloneCount == old(native.cloneCount)
      ensures !thrown ==> cloneCount == old(native.cloneCount) && slotDiffResult == None
      ensures native.FullMode(old(slotDiffResult)) && Controller.Flicking.Changed(diff) && !thrown ==>
                && old(Controller.KeptOriginalsPresent(diff, native.panels))
                && native.cloneCount == |native.clones|
                && Controller.FullRebuilt(old(native.panels), old(native.clones), old(native.cloneCount), diff, native.circular,
                                          native.panels, native.clones)
      ensures !native.FullMode(old(slotDiffResult)) && !thrown ==> native.cloneCount == cloneCount
    {
      var flicking := native;
      var prevCloneCount := cloneCount;
      var newCloneCount := flicking.cloneCount;
      thrown := flicking.Sync(diff, slotDiffResult, prevCloneCount, calcVisible);
      if thrown {
        return;
      }
      cloneCount := newCloneCount;
      slotDiffResult := None;
    }

    /** `$_checkCloneCount`: a re-render is forced exactly when the clone count rendered last is no longer the native one. */
    method CheckCloneCount() returns (forceUpdate: bool)
      requires native != null
      ensures forceUpdate <==> cloneCount != native.cloneCount
    {
      var prevCloneCount := cloneCount;
      var newCloneCount := native.cloneCount;
      forceUpdate := prevCloneCount != newCloneCount;
    }
  }
}
