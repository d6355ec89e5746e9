/**
  The tree view of public/js/arf.js as an object: every loaded node, its two
  child slots, its lazily assigned id, its column and its tooltip, together with
  the running id counter. Nodes are addressed by handle; the loaded tree is
  numbered parents first, so every child handle exceeds its parent's.
 */
module TreeView {
  import opened Options
  import opened ToolTree

  // ---------------------------------------------------------------------------
  // The shape of the node graph, as values

  /** Every child handle, visible or hidden, points forward and stays in range. */
  ghost predicate Forward(g: seq<Slots>) {
    (forall x, c :: 0 <= x < |g| && c in Listed(g[x].children) ==> x < c < |g|) &&
    (forall x, c :: 0 <= x < |g| && c in Listed(g[x].hidden) ==> x < c < |g|)
  }

  /** The edges a walk follows: the visible children only, or both slots. */
  function Edges(s: Slots, all: bool): seq<Handle> {
    if all then Kin(s) else Listed(s.children)
  }

  lemma EdgesForward(g: seq<Slots>, x: Handle, all: bool)
    requires Forward(g) && x < |g|
    ensures forall k :: 0 <= k < |Edges(g[x], all)| ==> x < Edges(g[x], all)[k] < |g|
  {
    forall k | 0 <= k < |Edges(g[x], all)|
      ensures x < Edges(g[x], all)[k] < |g|
    {
      var c := Edges(g[x], all)[k];
      assert c in Edges(g[x], all);
      if all {
        assert c in Listed(g[x].children) || c in Listed(g[x].hidden);
      }
    }
  }

  /** The successors of `x` in `g`; each lies after `x`. */
  ghost function Succ(g: seq<Slots>, x: Handle, all: bool): (E: seq<Handle>)
    requires Forward(g) && x < |g|
    ensures E == Edges(g[x], all)
    ensures forall k :: 0 <= k < |E| ==> x < E[k] < |g|
  {
    EdgesForward(g, x, all);
    Edges(g[x], all)
  }

  /** The nodes reachable from `x`: through visible children only, or through both slots. */
  ghost function Reach(g: seq<Slots>, x: Handle, all: bool): (r: set<Handle>)
    requires Forward(g) && x < |g|
    ensures x in r
    ensures forall y :: y in r ==> x <= y < |g|
    decreases |g| - x, 1, 0
  {
    {x} + Below(g, Succ(g, x, all), x, all)
  }

  /** The nodes reachable from any node of the list `l`, all of which lie after `lo`. */
  ghost function Below(g: seq<Slots>, l: seq<Handle>, lo: Handle, all: bool): (r: set<Handle>)
    requires Forward(g) && forall k :: 0 <= k < |l| ==> lo < l[k] < |g|
    ensures forall y :: y in r ==> lo < y < |g|
    decreases |g| - lo, 0, |l|
  {
    if l == [] then {} else Below(g, l[..|l| - 1], lo, all) + Reach(g, l[|l| - 1], all)
  }

  /** `g` after `collapse` visited exactly the nodes of `S`. */
  ghost function CollapsedOver(g: seq<Slots>, S: set<Handle>): (h: seq<Slots>)
    ensures |h| == |g|
    ensures forall y :: 0 <= y < |g| && y !in S ==> h[y] == g[y]
    ensures forall y :: 0 <= y < |g| && y in S ==>
              h[y].children.None? && (g[y].children.Some? ==> h[y].hidden == g[y].children)
    ensures forall y :: 0 <= y < |g| && y in S && g[y].children.None? ==> h[y] == g[y]
  {
    seq(|g|, x requires 0 <= x < |g| => if x in S then Folded(g[x]) else g[x])
  }

  /** `S` contains the visible children of each of its members. */
  ghost predicate Closed(g: seq<Slots>, S: set<Handle>) {
    forall x, c :: x in S && 0 <= x < |g| && c in Listed(g[x].children) ==> c in S
  }

  /** A graph freshly loaded from the dataset: nothing is hidden yet. */
  ghost predicate Fresh(g: seq<Slots>) {
    forall x :: 0 <= x < |g| ==> g[x].hidden.None?
  }

  /** A node is reachable from a list exactly when it is reachable from one of its elements. */
  lemma {:induction false} BelowMember(g: seq<Slots>, l: seq<Handle>, lo: Handle, all: bool, y: Handle)
    requires Forward(g) && forall k :: 0 <= k < |l| ==> lo < l[k] < |g|
    ensures y in Below(g, l, lo, all) <==> exists j :: 0 <= j < |l| && y in Reach(g, l[j], all)
    decreases |l|
  {
    if l != [] {
      var n := |l| - 1;
      var l0 := l[..n];
      BelowMember(g, l0, lo, all, y);
      assert Below(g, l, lo, all) == Below(g, l0, lo, all) + Reach(g, l[n], all);
      if y in Below(g, l0, lo, all) {
        var j :| 0 <= j < n && y in Reach(g, l0[j], all);
        assert l0[j] == l[j];
      } else if y !in Reach(g, l[n], all) {
        forall j | 0 <= j < |l|
          ensures y !in Reach(g, l[j], all)
        {
          if j < n {
            assert l0[j] == l[j];
          }
        }
      }
    }
  }

  /** A reachable node other than `x` is reachable from one of the successors of `x`. */
  lemma ReachStep(g: seq<Slots>, x: Handle, all: bool, y: Handle)
    requires Forward(g) && x < |g| && y in Reach(g, x, all) && y != x
    ensures exists k :: 0 <= k < |Succ(g, x, all)| && y in Reach(g, Succ(g, x, all)[k], all)
  {
    BelowMember(g, Succ(g, x, all), x, all, y);
  }

  /** Whatever a successor reaches, `x` reaches. */
  lemma ReachSucc(g: seq<Slots>, x: Handle, all: bool, k: nat)
    requires Forward(g) && x < |g| && k < |Succ(g, x, all)|
    ensures Reach(g, Succ(g, x, all)[k], all) <= Reach(g, x, all)
  {
    var E := Succ(g, x, all);
    forall y | y in Reach(g, E[k], all)
      ensures y in Reach(g, x, all)
    {
      BelowMember(g, E, x, all, y);
    }
  }

  /** Folding nodes only moves or drops child handles, so the graph stays forward. */
  lemma CollapsedOverForward(g: seq<Slots>, S: set<Handle>)
    requires Forward(g)
    ensures Forward(CollapsedOver(g, S))
  {
    var h := CollapsedOver(g, S);
    forall x, c | 0 <= x < |h| && c in Listed(h[x].hidden)
      ensures x < c < |g|
    {
      assert c in Kin(h[x]);
      assert c in Kin(g[x]);
      assert c in Listed(g[x].children) || c in Listed(g[x].hidden);
    }
  }

  /** Reachability from `x` depends only on the edges of the nodes from `x` on. */
  lemma {:induction false} ReachFromSameEdges(g: seq<Slots>, h: seq<Slots>, x: Handle, all: bool)
    requires Forward(g) && Forward(h) && |g| == |h| && x < |g|
    requires forall y :: x <= y < |g| ==> Edges(g[y], all) == Edges(h[y], all)
    ensures Reach(g, x, all) == Reach(h, x, all)
    decreases |g| - x
  {
    var E := Succ(g, x, all);
    assert Succ(h, x, all) == E;
    forall k | 0 <= k < |E|
      ensures Reach(g, E[k], all) == Reach(h, E[k], all)
    {
      ReachFromSameEdges(g, h, E[k], all);
    }
    forall y | y in Reach(g, x, all)
      ensures y in Reach(h, x, all)
    {
      if y != x {
        ReachStep(g, x, all, y);
        var k :| 0 <= k < |E| && y in Reach(g, E[k], all);
        ReachSucc(h, x, all, k);
      }
    }
    forall y | y in Reach(h, x, all)
      ensures y in Reach(g, x, all)
    {
      if y != x {
        ReachStep(h, x, all, y);
        var k :| 0 <= k < |E| && y in Reach(h, E[k], all);
        ReachSucc(g, x, all, k);
      }
    }
  }

  /** Whatever is reachable from a reachable node is reachable. */
  lemma {:induction false} ReachTransitive(g: seq<Slots>, x: Handle, y: Handle, all: bool)
    requires Forward(g) && x < |g| && y in Reach(g, x, all)
    ensures Reach(g, y, all) <= Reach(g, x, all)
    decreases |g| - x
  {
    if y != x {
      var E := Succ(g, x, all);
      ReachStep(g, x, all, y);
      var k :| 0 <= k < |E| && y in Reach(g, E[k], all);
      ReachTransitive(g, E[k], y, all);
      ReachSucc(g, x, all, k);
    }
  }

  /** The visible subtree of a node is closed under visible children. */
  lemma ReachClosed(g: seq<Slots>, x: Handle)
    requires Forward(g) && x < |g|
    ensures Closed(g, Reach(g, x, false))
  {
    forall y, c | y in Reach(g, x, false) && 0 <= y < |g| && c in Listed(g[y].children)
      ensures c in Reach(g, x, false)
    {
      var E := Succ(g, y, false);
      var k :| 0 <= k < |E| && E[k] == c;
      ReachSucc(g, y, false, k);
      ReachTransitive(g, x, y, false);
    }
  }

  /** The visible reach of a list is closed under visible children. */
  lemma BelowClosed(g: seq<Slots>, l: seq<Handle>, lo: Handle)
    requires Forward(g) && forall k :: 0 <= k < |l| ==> lo < l[k] < |g|
    ensures Closed(g, Below(g, l, lo, false))
  {
    forall y, c | y in Below(g, l, lo, false) && 0 <= y < |g| && c in Listed(g[y].children)
      ensures c in Below(g, l, lo, false)
    {
      BelowMember(g, l, lo, false, y);
      var j :| 0 <= j < |l| && y in Reach(g, l[j], false);
      ReachClosed(g, l[j]);
      BelowMember(g, l, lo, false, c);
    }
  }

  /** A closed set holds the whole visible subtree of each of its members. */
  lemma {:induction false} ReachInClosed(g: seq<Slots>, D: set<Handle>, x: Handle)
    requires Forward(g) && x < |g| && x in D && Closed(g, D)
    ensures Reach(g, x, false) <= D
    decreases |g| - x
  {
    var E := Succ(g, x, false);
    forall y | y in Reach(g, x, false)
      ensures y in D
    {
      if y != x {
        ReachStep(g, x, false, y);
        var k :| 0 <= k < |E| && y in Reach(g, E[k], false);
        assert E[k] in Listed(g[x].children);
        ReachInClosed(g, D, E[k]);
      }
    }
  }

  /**
    After the nodes of a closed set `D` have been folded, the visible reach of
    any node, taken together with `D`, is what it was before.
   */
  lemma {:induction false} ReachAfterFold(g: seq<Slots>, h: seq<Slots>, D: set<Handle>, x: Handle)
    requires Forward(g) && Forward(h) && |g| == |h| && x < |g| && Closed(g, D)
    requires forall y :: x <= y < |g| ==> if y in D then h[y].children.None? else h[y] == g[y]
    ensures Reach(h, x, false) + D == Reach(g, x, false) + D
    decreases |g| - x
  {
    if x in D {
      ReachInClosed(g, D, x);
      assert Succ(h, x, false) == [];
      assert Reach(h, x, false) == {x};
    } else {
      var E := Succ(g, x, false);
      assert Succ(h, x, false) == E;
      forall k | 0 <= k < |E|
        ensures Reach(h, E[k], false) + D == Reach(g, E[k], false) + D
      {
        ReachAfterFold(g, h, D, E[k]);
      }
      forall y | y in Reach(h, x, false) && y !in D
        ensures y in Reach(g, x, false)
      {
        if y != x {
          ReachStep(h, x, false, y);
          var k :| 0 <= k < |E| && y in Reach(h, E[k], false);
          assert y in Reach(g, E[k], false) + D;
          ReachSucc(g, x, false, k);
        }
      }
      forall y | y in Reach(g, x, false) && y !in D
        ensures y in Reach(h, x, false)
      {
        if y != x {
          ReachStep(g, x, false, y);
          var k :| 0 <= k < |E| && y in Reach(g, E[k], false);
          assert y in Reach(h, E[k], false) + D;
          ReachSucc(h, x, false, k);
        }
      }
    }
  }

  /** Adding one list element adds its subtree. */
  lemma BelowSnoc(g: seq<Slots>, l: seq<Handle>, lo: Handle, k: nat)
    requires Forward(g) && k < |l| && forall j :: 0 <= j < |l| ==> lo < l[j] < |g|
    ensures Below(g, l[..k + 1], lo, false) == Below(g, l[..k], lo, false) + Reach(g, l[k], false)
  {
    assert l[..k + 1][..k] == l[..k];
  }

  /**
    One more `collapse(l[k])` after those of `l[..k]` folds the visible subtrees
    of all of `l[..k + 1]`.
   */
  lemma FoldStep(g: seq<Slots>, l: seq<Handle>, lo: Handle, k: nat)
    requires Forward(g) && k < |l| && forall j :: 0 <= j < |l| ==> lo < l[j] < |g|
    ensures Forward(CollapsedOver(g, Below(g, l[..k], lo, false)))
    ensures var st := CollapsedOver(g, Below(g, l[..k], lo, false));
            CollapsedOver(st, Reach(st, l[k], false)) == CollapsedOver(g, Below(g, l[..k + 1], lo, false))
  {
    var D := Below(g, l[..k], lo, false);
    BelowClosed(g, l[..k], lo);
    BelowSnoc(g, l, lo, k);
    CollapsedOverForward(g, D);
    var st := CollapsedOver(g, D);
    ReachAfterFold(g, st, D, l[k]);
    var lhs := CollapsedOver(st, Reach(st, l[k], false));
    var rhs := CollapsedOver(g, D + Reach(g, l[k], false));
    forall x | 0 <= x < |g|
      ensures lhs[x] == rhs[x]
    {
      FoldedTwice(g[x]);
    }
  }

  /** The subtrees of a list of nodes after `d` do not depend on `d` or anything before it. */
  lemma BelowIgnoresAncestor(g: seq<Slots>, h: seq<Slots>, l: seq<Handle>, d: Handle)
    requires Forward(g) && Forward(h) && |g| == |h|
    requires forall k :: 0 <= k < |l| ==> d < l[k] < |g|
    requires forall y :: d < y < |g| ==> h[y] == g[y]
    ensures Below(g, l, d, false) == Below(h, l, d, false)
  {
    forall k | 0 <= k < |l|
      ensures Reach(g, l[k], false) == Reach(h, l[k], false)
    {
      ReachFromSameEdges(g, h, l[k], false);
    }
    forall y
      ensures y in Below(g, l, d, false) <==> y in Below(h, l, d, false)
    {
      BelowMember(g, l, d, false, y);
      BelowMember(h, l, d, false, y);
    }
  }

  /** With nothing hidden, the visible subtree is the whole subtree. */
  lemma {:induction false} FreshReachIsWhole(g: seq<Slots>, x: Handle)
    requires Forward(g) && Fresh(g) && x < |g|
    ensures Reach(g, x, true) == Reach(g, x, false)
    decreases |g| - x
  {
    var E := Succ(g, x, false);
    assert Succ(g, x, true) == E + [] == E;
    forall k | 0 <= k < |E|
      ensures Reach(g, E[k], true) == Reach(g, E[k], false)
    {
      FreshReachIsWhole(g, E[k]);
    }
    forall y
      ensures y in Below(g, E, x, true) <==> y in Below(g, E, x, false)
    {
      BelowMember(g, E, x, true, y);
      BelowMember(g, E, x, false, y);
    }
  }

  /**
    Collapsing keeps every node's children, moved between slots, so the whole
    subtree of every node is what it was.
   */
  lemma CollapsePreservesSubtrees(g: seq<Slots>, S: set<Handle>, x: Handle)
    requires Forward(g) && x < |g|
    requires forall y :: 0 <= y < |g| ==> SingleSlot(g[y])
    ensures Forward(CollapsedOver(g, S))
    ensures Reach(CollapsedOver(g, S), x, true) == Reach(g, x, true)
  {
    CollapsedOverForward(g, S);
    var h := CollapsedOver(g, S);
    forall y | x <= y < |g|
      ensures Edges(g[y], true) == Edges(h[y], true)
    {
    }
    ReachFromSameEdges(g, h, x, true);
  }

  /**
    The load step on a freshly loaded tree: the root is untouched, and every other
    node of its subtree ends with no visible children and with its original
    children list in the hidden slot.
   */
  lemma LoadCollapsesDescendants(g: seq<Slots>, root: Handle, x: Handle)
    requires Forward(g) && Fresh(g) && root < |g| && g[root].children.Some?
    requires x in Reach(g, root, true)
    ensures forall k :: 0 <= k < |g[root].children.value| ==> root < g[root].children.value[k] < |g|
    ensures var h := CollapsedOver(g, Below(g, g[root].children.value, root, false));
            h[root] == g[root] && (x != root ==> h[x].children.None? && h[x].hidden == g[x].children)
  {
    var cs := g[root].children.value;
    assert Succ(g, root, false) == cs;
    FreshReachIsWhole(g, root);
    if x != root {
      ReachStep(g, root, false, x);
      BelowMember(g, cs, root, false, x);
    }
  }

  // ---------------------------------------------------------------------------
  // Ids

  /** The ids in use: none exceeds the counter, and no two nodes share a non-zero id. */
  ghost predicate IdsValid(ids: seq<nat>, counter: nat) {
    (forall x :: 0 <= x < |ids| ==> ids[x] <= counter) &&
    (forall x, y :: 0 <= x < |ids| && 0 <= y < |ids| && x != y && ids[x] != 0 ==> ids[x] != ids[y])
  }

  /** How many of the first `n` nodes of `l` have no id yet (id 0, which JavaScript treats as falsy). */
  function Unassigned(ids: seq<nat>, l: seq<Handle>, n: nat): nat
    requires n <= |l| && forall k :: 0 <= k < |l| ==> l[k] < |ids|
  {
    if n == 0 then 0 else Unassigned(ids, l, n - 1) + (if ids[l[n - 1]] == 0 then 1 else 0)
  }

  lemma {:induction false} UnassignedMonotone(ids: seq<nat>, l: seq<Handle>, a: nat, b: nat)
    requires a <= b <= |l| && forall k :: 0 <= k < |l| ==> l[k] < |ids|
    ensures Unassigned(ids, l, a) <= Unassigned(ids, l, b)
    decreases b
  {
    if a < b {
      UnassignedMonotone(ids, l, a, b - 1);
    }
  }

  /**
    The ids handed out grow in the order of the node list: a node without an id
    that comes later gets a strictly larger id than any earlier node's new id.
   */
  lemma IdsFollowListOrder(ids: seq<nat>, l: seq<Handle>, j: nat, k: nat)
    requires j < k < |l| && forall i :: 0 <= i < |l| ==> l[i] < |ids|
    requires ids[l[k]] == 0
    ensures Unassigned(ids, l, j + 1) < Unassigned(ids, l, k + 1)
  {
    UnassignedMonotone(ids, l, j + 1, k);
  }

  /** Handing the next counter value to one node keeps the ids distinct. */
  lemma NextIdKeepsValid(ids: seq<nat>, counter: nat, x: Handle)
    requires IdsValid(ids, counter) && x < |ids|
    ensures IdsValid(ids[x := counter + 1], counter + 1)
  {
  }

  /**
    After keying the first `k` nodes of `nodes`, starting from `ids0` and
    `c0`: the counter has advanced once per node that had no id, those nodes
    got the counter values in list order, and nothing else changed.
   */
  ghost predicate KeyedPrefix(ids0: seq<nat>, c0: nat, nodes: seq<Handle>, k: nat, ids: seq<nat>, counter: nat) {
    k <= |nodes| && |ids| == |ids0| && (forall j :: 0 <= j < |nodes| ==> nodes[j] < |ids0|) &&
    counter == c0 + Unassigned(ids0, nodes, k) &&
    (forall x :: 0 <= x < |ids| && (ids0[x] != 0 || x !in nodes) ==> ids[x] == ids0[x]) &&
    (forall j :: k <= j < |nodes| ==> ids[nodes[j]] == ids0[nodes[j]]) &&
    (forall j :: 0 <= j < k && ids0[nodes[j]] == 0 ==> ids[nodes[j]] == c0 + Unassigned(ids0, nodes, j + 1)) &&
    (forall j :: 0 <= j < k ==> ids[nodes[j]] != 0)
  }

  /** The ids and the counter after `d.id || (d.id = ++i)` on node `x`. */
  function KeyOnce(ids: seq<nat>, counter: nat, x: Handle): (seq<nat>, nat)
    requires x < |ids|
  {
    if ids[x] == 0 then (ids[x := counter + 1], counter + 1) else (ids, counter)
  }

  /** Keying one more node of a list without repeats extends the keyed prefix. */
  lemma KeyStep(ids0: seq<nat>, c0: nat, nodes: seq<Handle>, k: nat, ids: seq<nat>, counter: nat)
    requires Distinct(nodes) && k < |nodes| && KeyedPrefix(ids0, c0, nodes, k, ids, counter)
    ensures var r := KeyOnce(ids, counter, nodes[k]);
            KeyedPrefix(ids0, c0, nodes, k + 1, r.0, r.1)
  {
  }

  /**
    Once the whole list is keyed: the counter has advanced once per node that
    had no id, those nodes hold the counter values in list order, rising
    strictly, every listed node has an id, and nothing else changed.
   */
  lemma KeyedInOrder(ids0: seq<nat>, c0: nat, nodes: seq<Handle>, ids: seq<nat>, counter: nat)
    requires KeyedPrefix(ids0, c0, nodes, |nodes|, ids, counter)
    ensures counter == c0 + Unassigned(ids0, nodes, |nodes|)
    ensures forall x :: 0 <= x < |ids| && (ids0[x] != 0 || x !in nodes) ==> ids[x] == ids0[x]
    ensures forall k :: 0 <= k < |nodes| && ids0[nodes[k]] == 0 ==>
              ids[nodes[k]] == c0 + Unassigned(ids0, nodes, k + 1)
    ensures forall k :: 0 <= k < |nodes| ==> ids[nodes[k]] != 0
    ensures forall j, k :: 0 <= j < k < |nodes| && ids0[nodes[j]] == 0 && ids0[nodes[k]] == 0 ==>
              ids[nodes[j]] < ids[nodes[k]]
  {
    forall j, k | 0 <= j < k < |nodes| && ids0[nodes[j]] == 0 && ids0[nodes[k]] == 0
      ensures ids[nodes[j]] < ids[nodes[k]]
    {
      IdsFollowListOrder(ids0, nodes, j, k);
    }
  }

  /** Each handle occurs at most once. */
  predicate Distinct(l: seq<Handle>) {
    forall j, k :: 0 <= j < k < |l| ==> l[j] != l[k]
  }

  // ---------------------------------------------------------------------------
  // The view object

  class View {
    /** The tool data of every node, as loaded. */
    const tools: seq<Tool>
    /** The root of the tree, `root` in the source. */
    const root: Handle
    /** The `children` / `_children` slots of every node. */
    var slots: seq<Slots>
    /** `d.id`, 0 while unassigned. */
    var ids: seq<nat>
    /** The running counter `i`. */
    var counter: nat
    /** `d.y`, the horizontal position of every node. */
    var column: seq<int>
    /** The `<title>` of every node. */
    var tips: seq<Tip>

    /** The node graph is well formed: one slot pair per tool, every edge forward. */
    ghost predicate Shaped()
      reads this
    {
      |slots| == |tools| && root < |tools| && Forward(slots)
    }

    ghost predicate Valid()
      reads this
    {
      Shaped() && |ids| == |column| == |tips| == |tools| &&
      (forall x :: 0 <= x < |slots| ==> SingleSlot(slots[x])) &&
      IdsValid(ids, counter)
    }

    /** `root = json`: the dataset as loaded, every node drawn with its initial tooltip. */
    constructor (tools: seq<Tool>, kids: seq<Kids>)
      requires 0 < |tools| == |kids|
      requires forall x, c :: 0 <= x < |kids| && c in Listed(kids[x]) ==> x < c < |kids|
      ensures Valid() && Fresh(slots)
      ensures this.tools == tools && root == 0 && counter == 0
      ensures forall x :: 0 <= x < |tools| ==>
                slots[x] == Slots(kids[x], None) && ids[x] == 0 && tips[x] == InitialTip(tools[x])
    {
      this.tools := tools;
      root := 0;
      slots := seq(|kids|, x requires 0 <= x < |kids| => Slots(kids[x], None));
      ids := seq(|kids|, x => 0);
      counter := 0;
      column := seq(|kids|, x => 0);
      tips := seq(|tools|, x requires 0 <= x < |tools| => InitialTip(tools[x]));
    }

    /** `collapse(d)`: fold every node of the visible subtree of `d`. */
    method Collapse(d: Handle)
      requires Shaped() && d < |slots|
      modifies this`slots
      ensures Shaped()
      ensures slots == CollapsedOver(old(slots), Reach(old(slots), d, false))
      decreases |tools| - d, 1
    {
      ghost var g := slots;
      var s := slots[d];
      if s.children.Some? {
        var cs := s.children.value;
        forall k | 0 <= k < |cs|
          ensures d < cs[k] < |slots|
        {
          assert Succ(g, d, false) == cs;
        }
        slots := slots[d := Slots(s.children, s.children)];
        ghost var g1 := slots;
        CollapseEach(cs, d);
        slots := slots[d := Slots(None, s.children)];
        BelowIgnoresAncestor(g, g1, cs, d);
        assert Succ(g, d, false) == cs;
        assert Reach(g, d, false) == {d} + Below(g, cs, d, false);
        assert slots == CollapsedOver(g, Reach(g, d, false));
      } else {
        assert Succ(g, d, false) == [];
        assert Reach(g, d, false) == {d};
        assert slots == CollapsedOver(g, Reach(g, d, false));
      }
    }

    /** `cs.forEach(collapse)` for children `cs` of node `p`. */
    method CollapseEach(cs: seq<Handle>, ghost p: Handle)
      requires Shaped() && forall k :: 0 <= k < |cs| ==> p < cs[k] < |slots|
      modifies this`slots
      ensures Shaped()
      ensures slots == CollapsedOver(old(slots), Below(old(slots), cs, p, false))
      decreases |tools| - p, 0
    {
      ghost var g := slots;
      var k := 0;
      while k < |cs|
        invariant 0 <= k <= |cs|
        invariant Shaped() && |slots| == |g|
        invariant slots == CollapsedOver(g, Below(g, cs[..k], p, false))
      {
        FoldStep(g, cs, p, k);
        Collapse(cs[k]);
        k := k + 1;
      }
      assert cs[..|cs|] == cs;
    }

    /**
      The load step `root.children.forEach(collapse)`. It fails, changing
      nothing, when the root has no children array (the callback then throws).
     */
    method Load() returns (ok: bool)
      requires Valid()
      modifies this`slots
      ensures Valid()
      ensures ok <==> old(slots[root]).children.Some?
      ensures !ok ==> slots == old(slots)
      ensures ok ==> forall k :: 0 <= k < |old(slots[root]).children.value| ==>
                       root < old(slots[root]).children.value[k] < |slots|
      ensures ok ==> slots == CollapsedOver(old(slots), Below(old(slots), old(slots[root]).children.value, root, false))
    {
      ok := slots[root].children.Some?;
      if ok {
        var cs := slots[root].children.value;
        ghost var g := slots;
        forall k | 0 <= k < |cs|
          ensures root < cs[k] < |slots|
        {
          assert Succ(g, root, false) == cs;
        }
        CollapseEach(cs, root);
      }
    }

    /** `toggle(d)`: the node's slots are swapped as `Toggled` says, nothing else changes. */
    method Toggle(d: Handle)
      requires Valid() && d < |slots|
      modifies this`slots
      ensures Valid()
      ensures slots == old(slots)[d := Toggled(old(slots[d]))]
    {
      var s := slots[d];
      if s.children.Some? {
        slots := slots[d := Slots(None, s.children)];
      } else {
        slots := slots[d := Slots(s.hidden, None)];
      }
      assert forall c :: c in Listed(slots[d].children) || c in Listed(slots[d].hidden) ==> c in Kin(s);
      assert forall c :: c in Kin(s) ==> c in Listed(s.children) || c in Listed(s.hidden);
    }

    /** `nodes.forEach(d => { d.y = d.depth * 180; })` over the laid-out nodes. */
    method PlaceColumns(nodes: seq<Handle>, depths: seq<nat>)
      requires Valid() && |nodes| == |depths| && Distinct(nodes)
      requires forall k :: 0 <= k < |nodes| ==> nodes[k] < |tools|
      modifies this`column
      ensures Valid()
      ensures forall k :: 0 <= k < |nodes| ==> column[nodes[k]] == Column(depths[k])
      ensures forall x :: 0 <= x < |column| && x !in nodes ==> column[x] == old(column[x])
      ensures |column| == old(|column|)
    {
      var k := 0;
      while k < |nodes|
        invariant 0 <= k <= |nodes| && |column| == old(|column|)
        invariant forall j :: 0 <= j < k ==> column[nodes[j]] == Column(depths[j])
        invariant forall x :: 0 <= x < |column| && x !in nodes[..k] ==> column[x] == old(column[x])
      {
        column := column[nodes[k] := Column(depths[k])];
        k := k + 1;
      }
      assert nodes[..k] == nodes;
    }

    /** The data-join key `d => d.id || (d.id = ++i)` of one node. */
    method Key(x: Handle) returns (id: nat)
      requires Valid() && x < |tools|
      modifies this`ids, this`counter
      ensures Valid() && id == ids[x] && id != 0
      ensures (ids, counter) == KeyOnce(old(ids), old(counter), x)
      ensures old(ids[x]) != 0 ==> ids == old(ids) && counter == old(counter)
      ensures old(ids[x]) == 0 ==> counter == old(counter) + 1 && ids == old(ids)[x := counter]
    {
      if ids[x] == 0 {
        NextIdKeepsValid(ids, counter, x);
        counter := counter + 1;
        ids := ids[x := counter];
      }
      id := ids[x];
    }

    /**
      The data-join key `d => d.id || (d.id = ++i)` applied to the laid-out
      nodes in order: existing ids stay, each node without one gets the next
      counter value.
     */
    method AssignIds(nodes: seq<Handle>)
      requires Valid() && Distinct(nodes)
      requires forall k :: 0 <= k < |nodes| ==> nodes[k] < |tools|
      modifies this`ids, this`counter
      ensures Valid()
      ensures counter == old(counter) + Unassigned(old(ids), nodes, |nodes|)
      ensures forall x :: 0 <= x < |ids| && (old(ids[x]) != 0 || x !in nodes) ==> ids[x] == old(ids[x])
      ensures forall k :: 0 <= k < |nodes| && old(ids[nodes[k]]) == 0 ==>
                ids[nodes[k]] == old(counter) + Unassigned(old(ids), nodes, k + 1)
      ensures forall k :: 0 <= k < |nodes| ==> ids[nodes[k]] != 0
      ensures forall j, k :: 0 <= j < k < |nodes| && old(ids[nodes[j]]) == 0 && old(ids[nodes[k]]) == 0 ==>
                ids[nodes[j]] < ids[nodes[k]]
    {
      ghost var ids0, c0 := ids, counter;
      KeyEach(nodes);
      KeyedInOrder(ids0, c0, nodes, ids, counter);
    }

    /** The key function applied to each of `nodes` in turn. */
    method KeyEach(nodes: seq<Handle>)
      requires Valid() && Distinct(nodes)
      requires forall k :: 0 <= k < |nodes| ==> nodes[k] < |tools|
      modifies this`ids, this`counter
      ensures Valid() && KeyedPrefix(old(ids), old(counter), nodes, |nodes|, ids, counter)
    {
      ghost var ids0, c0 := ids, counter;
      var k := 0;
      while k < |nodes|
        invariant Valid() && KeyedPrefix(ids0, c0, nodes, k, ids, counter)
      {
        KeyStep(ids0, c0, nodes, k, ids, counter);
        var _ := Key(nodes[k]);
        k := k + 1;
      }
    }

    /** `update(source)`, without the drawing: columns, then ids, of the laid-out nodes. */
    method Update(nodes: seq<Handle>, depths: seq<nat>)
      requires Valid() && |nodes| == |depths| && Distinct(nodes)
      requires forall k :: 0 <= k < |nodes| ==> nodes[k] < |tools|
      modifies this`column, this`ids, this`counter
      ensures Valid()
      ensures forall k :: 0 <= k < |nodes| ==> column[nodes[k]] == Column(depths[k]) && ids[nodes[k]] != 0
      ensures forall x :: 0 <= x < |column| && x !in nodes ==> column[x] == old(column[x])
      ensures |column| == old(|column|)
      ensures counter == old(counter) + Unassigned(old(ids), nodes, |nodes|)
      ensures forall x :: 0 <= x < |ids| && (old(ids[x]) != 0 || x !in nodes) ==> ids[x] == old(ids[x])
      ensures forall k :: 0 <= k < |nodes| && old(ids[nodes[k]]) == 0 ==>
                ids[nodes[k]] == old(counter) + Unassigned(old(ids), nodes, k + 1)
      ensures forall j, k :: 0 <= j < k < |nodes| && old(ids[nodes[j]]) == 0 && old(ids[nodes[k]]) == 0 ==>
                ids[nodes[j]] < ids[nodes[k]]
    {
      PlaceColumns(nodes, depths);
      AssignIds(nodes);
    }

    /** The click handler `toggle(d); update(d)`, given the new layout. */
    method Click(d: Handle, nodes: seq<Handle>, depths: seq<nat>)
      requires Valid() && d < |tools| && |nodes| == |depths| && Distinct(nodes)
      requires forall k :: 0 <= k < |nodes| ==> nodes[k] < |tools|
      modifies this`slots, this`column, this`ids, this`counter
      ensures slots == old(slots)[d := Toggled(old(slots[d]))]
      ensures Valid()
      ensures forall k :: 0 <= k < |nodes| ==> column[nodes[k]] == Column(depths[k]) && ids[nodes[k]] != 0
      ensures forall x :: 0 <= x < |column| && x !in nodes ==> column[x] == old(column[x])
      ensures |column| == old(|column|)
      ensures counter == old(counter) + Unassigned(old(ids), nodes, |nodes|)
      ensures forall x :: 0 <= x < |ids| && (old(ids[x]) != 0 || x !in nodes) ==> ids[x] == old(ids[x])
      ensures forall k :: 0 <= k < |nodes| && old(ids[nodes[k]]) == 0 ==>
                ids[nodes[k]] == old(counter) + Unassigned(old(ids), nodes, k + 1)
      ensures forall j, k :: 0 <= j < k < |nodes| && old(ids[nodes[j]]) == 0 && old(ids[nodes[k]]) == 0 ==>
                ids[nodes[j]] < ids[nodes[k]]
    {
      Toggle(d);
      Update(nodes, depths);
    }

    /**
      The synchronous part of the mouseover handler: the guards and the
      placeholder. Returns the tool name a request is issued for, if any.
     */
    method BeginMouseOver(d: Handle) returns (request: Option<string>)
      requires Valid() && d < |tools|
      modifies this`tips
      ensures Valid()
      ensures var b := BeginHover(tools[d], old(tips[d]));
              tips == old(tips)[d := b.tip] && (request.Some? <==> b.fetch)
      ensures request.Some? ==> request.value == tools[d].name
    {
      var b := BeginHover(tools[d], tips[d]);
      tips := tips[d := b.tip];
      request := if b.fetch then Some(tools[d].name) else None;
    }

    /** The continuation of a request for node `d` once it settles with `o`. */
    method ResponseArrives(d: Handle, o: FetchOutcome)
      requires Valid() && d < |tools|
      modifies this`tips
      ensures Valid()
      ensures tips == old(tips)[d := SettleHover(tools[d], old(tips[d]), o)]
    {
      tips := tips[d := SettleHover(tools[d], tips[d], o)];
    }

    /** A hover whose request, if any, settles with `o` before the next event. */
    method MouseOver(d: Handle, o: FetchOutcome) returns (request: Option<string>)
      requires Valid() && d < |tools|
      modifies this`tips
      ensures Valid()
      ensures var h := HoverOnce(tools[d], old(tips[d]), o);
              tips == old(tips)[d := h.tip] && (request.Some? <==> h.fetched)
      ensures request.Some? ==> request.value == tools[d].name
    {
      request := BeginMouseOver(d);
      if request.Some? {
        ResponseArrives(d, o);
      }
    }
  }

  /**
    The two-tool dataset `ToolA` with child `ToolB`, run through the page:
    loading leaves the root expanded, so its circle is hollow, and a successful
    hover over the root shows the oracle's text exactly.
   */
  method TwoToolScenario() returns (fill: string, tip: Tip)
    ensures fill == Hollow
    ensures tip == Tip("X marks the spot", true)
  {
    var a := Tool("ToolA", None, None);
    var b := Tool("ToolB", None, None);
    var v := new View([a, b], [Some([1]), None]);
    ghost var g := v.slots;
    assert g == [Slots(Some([1]), None), Slots(None, None)];
    var ok := v.Load();
    assert Succ(g, 1, false) == [];
    assert Reach(g, 1, false) == {1};
    assert [1][..0] == [];
    assert Below(g, [1], 0, false) == {1};
    fill := Fill(v.slots[0]);
    var _ := v.MouseOver(0, Fetched(Some("X marks the spot")));
    tip := v.tips[0];
  }
}
