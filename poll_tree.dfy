/** What the polling sources build in the value tree: a node of their own under
    the parent they are given, leaves under it, and below it one node per
    monitored object. The facts here relate each step a source takes on the
    heap to the value of the parent it polls into. */
module PollTree {
  import opened CText
  import opened ValueNode

  // ---------------------------------------------------------------------------
  // A source's node, on values

  /** The value a node has after the leaves ps are added under it in order
      (value_node_add, so a repeated name is not added twice). */
  function Grown(t: Tree, ps: seq<(string, string)>): (r: Tree)
    ensures r.name == t.name && r.value == t.value && r.idx == t.idx
  {
    if |ps| == 0 then t
    else
      var last := ps[|ps| - 1];
      TAdd(Grown(t, ps[..|ps| - 1]), last.0, Some(last.1))
  }

  /** A valueless node named `name` with the leaves ps added under it. */
  function Subtree(name: string, ps: seq<(string, string)>): Tree {
    Grown(Leaf(name, None), ps)
  }

  /** A node gets one leaf per pair, in order, when the leaf names are distinct. */
  lemma {:induction false} SubtreeLeaves(name: string, ps: seq<(string, string)>)
    requires forall i, j :: 0 <= i < j < |ps| ==> ps[i].0 != ps[j].0
    ensures Subtree(name, ps) ==
      Tree(name, None, None, seq(|ps|, i requires 0 <= i < |ps| => Leaf(ps[i].0, Some(ps[i].1))))
  {
    if |ps| > 0 {
      var n := |ps| - 1;
      SubtreeLeaves(name, ps[..n]);
      var t := Subtree(name, ps[..n]);
      assert forall j :: 0 <= j < |t.children| ==> t.children[j].name != ps[n].0 by {
        forall j | 0 <= j < |t.children| ensures t.children[j].name != ps[n].0 {
          assert t.children[j].name == ps[j].0;
        }
      }
      assert TFirstNamed(t.children, ps[n].0).None?;
    }
  }

  /** Grafting a source's node onto its parent's value. */
  lemma GraftShows(p0: Tree, name: string, ps: seq<(string, string)>)
    ensures TFirstNamed(p0.children, name).None? ==>
      TGraft(p0, Subtree(name, ps)) == p0.(children := p0.children + [Subtree(name, ps)])
    ensures TFirstNamed(p0.children, name).Some? ==> TGraft(p0, Subtree(name, ps)) == p0
  {
  }

  // ---------------------------------------------------------------------------
  // A source's node, on the heap

  /** The node c is the last child of parent, whose value is p0 with the value u
      of c appended. */
  ghost predicate ParentShows(h: Heap, next: nat, parent: NodeRef, c: NodeRef, p0: Tree, u: Tree) {
    WellFormed(h, next) && parent in h && c in h &&
    |p0.children| < |h[parent].children| && h[parent].children[|p0.children|] == c &&
    View(h, next, c) == u && View(h, next, parent) == p0.(children := p0.children + [u])
  }

  /** A change to c's own record shows in the parent through c's value. */
  lemma ChildShows(h: Heap, next: nat, h': Heap, next': nat, parent: NodeRef, c: NodeRef, p0: Tree, u: Tree)
    requires ParentShows(h, next, parent, c, p0, u)
    requires WellFormed(h', next') && Touched(h, h', c) && forall x :: x in h' && x !in h ==> x >= next
    ensures ParentShows(h', next', parent, c, p0, View(h', next', c))
  {
    var k := |p0.children|;
    TouchedChild(h, next, h', next', parent, k);
    assert h'[parent] == h[parent];
  }

  /** Adding one more leaf under c keeps ParentShows. */
  lemma LeafShows(h: Heap, next: nat, h': Heap, next': nat, parent: NodeRef, c: NodeRef,
                  p0: Tree, name: string, ps: seq<(string, string)>, q: (string, string))
    requires ParentShows(h, next, parent, c, p0, Subtree(name, ps))
    requires WellFormed(h', next') && Touched(h, h', c) && forall x :: x in h' && x !in h ==> x >= next
    requires View(h', next', c) == TAdd(View(h, next, c), q.0, Some(q.1))
    ensures ParentShows(h', next', parent, c, p0, Subtree(name, ps + [q]))
  {
    ChildShows(h, next, h', next', parent, c, p0, Subtree(name, ps));
    assert (ps + [q])[..|ps|] == ps;
  }

  /** A change to the record of c's k-th child g shows in the parent through c's
      value at position k, and leaves c's own record as it was. */
  lemma GrandchildShows(h: Heap, next: nat, h': Heap, next': nat, parent: NodeRef, c: NodeRef,
                        k: nat, p0: Tree, u: Tree)
    requires ParentShows(h, next, parent, c, p0, u) && k < |h[c].children|
    requires WellFormed(h', next') && Touched(h, h', h[c].children[k]) && forall x :: x in h' && x !in h ==> x >= next
    ensures h'[c] == h[c] && h[c].children[k] in h'
    ensures ParentShows(h', next', parent, c, p0, TAtChild(u, k, View(h', next', h[c].children[k])))
  {
    var g := h[c].children[k];
    var kc := |p0.children|;
    ChildFacts(h, next, parent, kc);
    ChildFacts(h, next, c, k);
    TouchedChild(h, next, h', next', c, k);
    ReachBounds(h, next, g);
    assert g in Reach(h, next, c);
    assert ChildChanged(h, next, h', parent, kc);
    ChildChangedView(h, next, h', next', parent, kc);
    var u' := TAtChild(u, k, View(h', next', g));
    assert View(h', next', parent).children == (p0.children + [u])[kc := u'];
    assert (p0.children + [u])[kc := u'] == p0.children + [u'];
  }

  // ---------------------------------------------------------------------------
  // The steps a source takes

  /** The value_node_add of a source's own node under the parent, whose value is
      p0: when the name is free the new node is the parent's last child. */
  method AddSubtreeNode(t: ValueTree, parent: NodeRef, name: string, ghost p0: Tree) returns (vn: Option<NodeRef>)
    requires t.Valid() && parent in t.nodes && t.ViewOf(parent) == p0
    modifies t
    ensures t.Valid() && parent in t.nodes
    ensures t.ViewOf(parent) == TGraft(p0, Leaf(name, None))
    ensures vn.Some? ==>
      ParentShows(t.nodes, t.next, parent, vn.value, p0, Subtree(name, [])) && TFirstNamed(p0.children, name).None?
    ensures vn.None? ==> t.ViewOf(parent) == p0 && TFirstNamed(p0.children, name).Some?
  {
    vn := t.Add(Some(parent), name, None);
    assert vn.Some? ==> t.nodes[parent].children[|p0.children|] == vn.value;
  }

  /** The value_node_add of one leaf under a source's node vn, or into a detached
      node when there is no vn (value_node_add with a NULL parent). */
  method AddSubtreeLeaf(t: ValueTree, parent: NodeRef, vn: Option<NodeRef>, ghost p0: Tree, ghost name: string,
                        ghost ps: seq<(string, string)>, v: string, value: string)
    requires t.Valid() && parent in t.nodes
    requires vn.Some? ==> ParentShows(t.nodes, t.next, parent, vn.value, p0, Subtree(name, ps))
    requires vn.None? ==> t.ViewOf(parent) == p0
    modifies t
    ensures t.Valid() && parent in t.nodes
    ensures vn.Some? ==> ParentShows(t.nodes, t.next, parent, vn.value, p0, Subtree(name, ps + [(v, value)]))
    ensures vn.None? ==> t.ViewOf(parent) == p0
  {
    ghost var h, n := t.nodes, t.next;
    if vn.Some? {
      var _ := t.Add(vn, v, Some(value));
      LeafShows(h, n, t.nodes, t.next, parent, vn.value, p0, name, ps, (v, value));
    } else {
      var _ := t.Add(None, v, Some(value));
      UntouchedView(h, n, t.nodes, t.next, parent);
    }
  }

  /** value_node_find_or_add under a source's node c: c's value u becomes
      TFindOrAdd(u, name), and the node found or made is c's k-th child. */
  method FindOrAddUnder(t: ValueTree, parent: NodeRef, c: NodeRef, ghost p0: Tree, ghost u: Tree, name: string)
    returns (r: NodeRef, ghost k: nat)
    requires t.Valid() && ParentShows(t.nodes, t.next, parent, c, p0, u)
    modifies t
    ensures t.Valid() && ParentShows(t.nodes, t.next, parent, c, p0, TFindOrAdd(u, name))
    ensures k == TFirstNamed(TFindOrAdd(u, name).children, name).value
    ensures k < |t.nodes[c].children| && r == t.nodes[c].children[k]
  {
    ghost var h, n := t.nodes, t.next;
    r := t.FindOrAdd(c, name);
    k := TFirstNamed(t.ViewOf(c).children, name).value;
    ChildShows(h, n, t.nodes, t.next, parent, c, p0, u);
  }

  /** Setting the key of g, c's k-th child. */
  method SetIdxUnder(t: ValueTree, parent: NodeRef, c: NodeRef, g: NodeRef, ghost k: nat, ghost p0: Tree, ghost u: Tree, i: int)
    requires t.Valid() && ParentShows(t.nodes, t.next, parent, c, p0, u)
    requires k < |t.nodes[c].children| && g == t.nodes[c].children[k]
    modifies t
    ensures t.Valid() && ParentShows(t.nodes, t.next, parent, c, p0, TAtChild(u, k, u.children[k].(idx := Some(i))))
    ensures t.nodes[c] == old(t.nodes[c])
  {
    ghost var h, n := t.nodes, t.next;
    ChildFacts(h, n, c, k);
    t.SetIdx(g, i);
    GrandchildShows(h, n, t.nodes, t.next, parent, c, k, p0, u);
  }

  /** The value_node_add of a leaf under g, c's k-th child. */
  method AddUnder(t: ValueTree, parent: NodeRef, c: NodeRef, g: NodeRef, ghost k: nat, ghost p0: Tree, ghost u: Tree,
                  name: string, value: string)
    requires t.Valid() && ParentShows(t.nodes, t.next, parent, c, p0, u)
    requires k < |t.nodes[c].children| && g == t.nodes[c].children[k]
    modifies t
    ensures t.Valid() && ParentShows(t.nodes, t.next, parent, c, p0, TAtChild(u, k, TAdd(u.children[k], name, Some(value))))
    ensures t.nodes[c] == old(t.nodes[c])
  {
    ghost var h, n := t.nodes, t.next;
    ChildFacts(h, n, c, k);
    var _ := t.Add(Some(g), name, Some(value));
    GrandchildShows(h, n, t.nodes, t.next, parent, c, k, p0, u);
  }

  /** Two changes to the same child: the second wins. */
  lemma AtChildTwice(u: Tree, k: nat, a: Tree, b: Tree)
    requires k < |u.children|
    ensures TAtChild(TAtChild(u, k, a), k, b) == TAtChild(u, k, b)
  {
  }

  /** g is the k-th child of a source's node c, whose value is u with that child's
      value replaced by a. */
  ghost predicate GrandchildIs(t: ValueTree, parent: NodeRef, c: NodeRef, g: NodeRef, k: nat, p0: Tree, u: Tree, a: Tree)
    reads t
  {
    t.Valid() && k < |u.children| && ParentShows(t.nodes, t.next, parent, c, p0, TAtChild(u, k, a)) &&
    k < |t.nodes[c].children| && g == t.nodes[c].children[k]
  }

  /** The value_node_add of a leaf under the grandchild g. */
  method AddLeafAt(t: ValueTree, parent: NodeRef, c: NodeRef, g: NodeRef, ghost k: nat, ghost p0: Tree,
                   ghost u: Tree, ghost a: Tree, name: string, value: string)
    requires GrandchildIs(t, parent, c, g, k, p0, u, a)
    modifies t
    ensures GrandchildIs(t, parent, c, g, k, p0, u, TAdd(a, name, Some(value)))
  {
    AddUnder(t, parent, c, g, k, p0, TAtChild(u, k, a), name, value);
    AtChildTwice(u, k, a, TAdd(a, name, Some(value)));
  }

  /** Setting the key of the grandchild g. */
  method SetIdxAt(t: ValueTree, parent: NodeRef, c: NodeRef, g: NodeRef, ghost k: nat, ghost p0: Tree,
                  ghost u: Tree, ghost a: Tree, i: int)
    requires GrandchildIs(t, parent, c, g, k, p0, u, a)
    modifies t
    ensures GrandchildIs(t, parent, c, g, k, p0, u, a.(idx := Some(i)))
  {
    SetIdxUnder(t, parent, c, g, k, p0, TAtChild(u, k, a), i);
    AtChildTwice(u, k, a, a.(idx := Some(i)));
  }
}
