/** The report tree: an ordered name/value tree whose nodes own their children.

    The nodes live in a heap (the talloc context of the tree), modelled as a map
    from node references to the node records; a reference plays the part of a
    `struct value_node *`. References are handed out in allocation order, so a
    child's reference is always larger than its parent's: this keeps the
    structure acyclic and gives every traversal its termination measure. */
module ValueNode {
  import opened CText

  type NodeRef = nat

  /** One `struct value_node`: its display name, its optional value, its children
      in list order, its owner, and the correlation key `idx`. */
  datatype NodeData = NodeData(
    name: string,
    value: Option<string>,
    children: seq<NodeRef>,
    parent: Option<NodeRef>,
    idx: Option<int>)

  type Heap = map<NodeRef, NodeData>

  /** A finished subtree as a value: what the renderer sees. */
  datatype Tree = Tree(name: string, value: Option<string>, idx: Option<int>, children: seq<Tree>)

  predicate ChildrenIn(h: Heap, cs: seq<NodeRef>) {
    forall c :: c in cs ==> c in h
  }

  /** No two of the nodes cs carry the same name. */
  predicate UniqueNames(h: Heap, cs: seq<NodeRef>)
    requires ChildrenIn(h, cs)
  {
    forall i, j :: 0 <= i < j < |cs| ==> h[cs[i]].name != h[cs[j]].name
  }

  /** The heap invariant: references below `next`, child references larger than
      the parent's and pointing back to it, every owner listing the node it owns,
      and sibling names unique. */
  ghost predicate WellFormed(h: Heap, next: nat) {
    (forall x :: x in h ==> x < next) &&
    (forall x, c {:trigger c in h[x].children} :: x in h && c in h[x].children ==>
       c in h && x < c && h[c].parent == Some(x)) &&
    (forall x {:trigger h[x].parent} :: x in h && h[x].parent.Some? ==>
       h[x].parent.value in h && x in h[h[x].parent.value].children) &&
    (forall x {:trigger h[x].children} :: x in h ==>
       ChildrenIn(h, h[x].children) && UniqueNames(h, h[x].children))
  }

  /** What the heap invariant says of the k-th child of r. */
  lemma ChildFacts(h: Heap, next: nat, r: NodeRef, k: nat)
    requires WellFormed(h, next) && r in h && k < |h[r].children|
    ensures h[r].children[k] in h && r < h[r].children[k] < next
    ensures h[h[r].children[k]].parent == Some(r)
  {
    assert h[r].children[k] in h[r].children;
  }

  /** The value of the subtree rooted at r. */
  function View(h: Heap, next: nat, r: NodeRef): (t: Tree)
    requires WellFormed(h, next) && r in h
    ensures t.name == h[r].name && t.value == h[r].value && t.idx == h[r].idx
    ensures |t.children| == |h[r].children|
    decreases next - r
  {
    var cs := h[r].children;
    Tree(h[r].name, h[r].value, h[r].idx,
         seq(|cs|, k requires 0 <= k < |cs| => View(h, next, cs[k])))
  }

  /** The references of the subtree rooted at r: what talloc_free(r) releases. */
  function Reach(h: Heap, next: nat, r: NodeRef): set<NodeRef>
    requires WellFormed(h, next) && r in h
    decreases next - r
  {
    var cs := h[r].children;
    {r} + (set k, y | 0 <= k < |cs| && y in Reach(h, next, cs[k]) :: y)
  }

  /** The first of the nodes cs named `name`, by position. */
  function FirstNamed(h: Heap, cs: seq<NodeRef>, name: string): (r: Option<nat>)
    requires ChildrenIn(h, cs)
    ensures r.Some? ==> r.value < |cs| && h[cs[r.value]].name == name
    ensures r.Some? ==> forall j :: 0 <= j < r.value ==> h[cs[j]].name != name
    ensures r.None? <==> forall j :: 0 <= j < |cs| ==> h[cs[j]].name != name
  {
    if |cs| == 0 then None
    else if h[cs[0]].name == name then Some(0)
    else match FirstNamed(h, cs[1..], name)
      case None => None
      case Some(i) => Some(i + 1)
  }

  /** The child of p named `name`, if any. */
  function ChildNamed(h: Heap, next: nat, p: NodeRef, name: string): (r: Option<NodeRef>)
    requires WellFormed(h, next) && p in h
    ensures r.Some? ==> r.value in h[p].children && h[r.value].name == name
    ensures r.None? <==> forall c :: c in h[p].children ==> h[c].name != name
  {
    var cs := h[p].children;
    match FirstNamed(h, cs, name)
    case None => None
    case Some(k) => Some(cs[k])
  }

  /** The first of the nodes cs tagged with the key i, by position. */
  function FirstIndexed(h: Heap, cs: seq<NodeRef>, i: int): (r: Option<nat>)
    requires ChildrenIn(h, cs)
    ensures r.Some? ==> r.value < |cs| && h[cs[r.value]].idx == Some(i)
    ensures r.Some? ==> forall j :: 0 <= j < r.value ==> h[cs[j]].idx != Some(i)
    ensures r.None? <==> forall j :: 0 <= j < |cs| ==> h[cs[j]].idx != Some(i)
  {
    if |cs| == 0 then None
    else if h[cs[0]].idx == Some(i) then Some(0)
    else match FirstIndexed(h, cs[1..], i)
      case None => None
      case Some(j) => Some(j + 1)
  }

  function IndexOf(cs: seq<NodeRef>, x: NodeRef): (k: nat)
    requires x in cs
    ensures k < |cs| && cs[k] == x
    ensures forall j :: 0 <= j < k ==> cs[j] != x
  {
    if cs[0] == x then 0 else 1 + IndexOf(cs[1..], x)
  }

  /** A node without children: what value_node_add creates. */
  function Leaf(name: string, value: Option<string>): Tree {
    Tree(name, value, None, [])
  }

  /** The first of the trees ts named `name`, by position. */
  function TFirstNamed(ts: seq<Tree>, name: string): (r: Option<nat>)
    ensures r.Some? ==> r.value < |ts| && ts[r.value].name == name
    ensures r.Some? ==> forall j :: 0 <= j < r.value ==> ts[j].name != name
    ensures r.None? <==> forall j :: 0 <= j < |ts| ==> ts[j].name != name
  {
    if |ts| == 0 then None
    else if ts[0].name == name then Some(0)
    else match TFirstNamed(ts[1..], name)
      case None => None
      case Some(i) => Some(i + 1)
  }

  /** The value t of a node after a child whose value is u is added under it:
      nothing changes when a child of u's name exists, otherwise u is the new last
      child. */
  function TGraft(t: Tree, u: Tree): Tree {
    if TFirstNamed(t.children, u.name).Some? then t
    else t.(children := t.children + [u])
  }

  /** What value_node_add(p, name, value) does to the value t of p. */
  function TAdd(t: Tree, name: string, value: Option<string>): Tree {
    TGraft(t, Leaf(name, value))
  }

  /** What value_node_find_or_add(p, name) does to the value t of p. */
  function TFindOrAdd(t: Tree, name: string): (r: Tree)
    ensures TFirstNamed(r.children, name).Some?
  {
    if TFirstNamed(t.children, name).Some? then t
    else
      var r := t.(children := t.children + [Leaf(name, None)]);
      assert r.children[|t.children|].name == name;
      r
  }

  /** t with its k-th child replaced by u. */
  function TAtChild(t: Tree, k: nat, u: Tree): (r: Tree)
    requires k < |t.children|
    ensures |r.children| == |t.children| && r.children[k] == u
  {
    t.(children := t.children[k := u])
  }

  // ---------------------------------------------------------------------------
  // Facts about the heap

  /** Every node reachable from r is in the heap and was allocated no earlier than r. */
  lemma {:induction false} ReachBounds(h: Heap, next: nat, r: NodeRef)
    requires WellFormed(h, next) && r in h
    ensures r in Reach(h, next, r)
    ensures forall y :: y in Reach(h, next, r) ==> y in h && r <= y
    decreases next - r
  {
    var cs := h[r].children;
    forall k | 0 <= k < |cs|
      ensures forall y :: y in Reach(h, next, cs[k]) ==> y in h && r <= y
    {
      ChildFacts(h, next, r, k);
      ReachBounds(h, next, cs[k]);
    }
  }

  /** The subtree of r contains the children of each of its nodes. */
  lemma {:induction false} ReachClosed(h: Heap, next: nat, r: NodeRef, q: NodeRef, c: NodeRef)
    requires WellFormed(h, next) && r in h
    requires q in Reach(h, next, r) && q in h && c in h[q].children
    ensures c in Reach(h, next, r)
    decreases next - r
  {
    var cs := h[r].children;
    if q == r {
      var k :| 0 <= k < |cs| && cs[k] == c;
      ReachBounds(h, next, c);
    } else {
      var k, y :| 0 <= k < |cs| && y in Reach(h, next, cs[k]) && y == q;
      ChildFacts(h, next, r, k);
      ReachClosed(h, next, cs[k], q, c);
    }
  }

  /** A node of the subtree of r other than r is owned by a node of that subtree. */
  lemma {:induction false} ReachOwner(h: Heap, next: nat, r: NodeRef, y: NodeRef)
    requires WellFormed(h, next) && r in h
    requires y in Reach(h, next, r) && y != r
    ensures y in h && h[y].parent.Some? && h[y].parent.value in Reach(h, next, r)
    decreases next - r
  {
    var cs := h[r].children;
    var k, z :| 0 <= k < |cs| && z in Reach(h, next, cs[k]) && z == y;
    ChildFacts(h, next, r, k);
    ReachBounds(h, next, cs[k]);
    if y == cs[k] {
      ReachBounds(h, next, r);
    } else {
      ReachOwner(h, next, cs[k], y);
      var q := h[y].parent.value;
      assert q in Reach(h, next, r);
    }
  }

  /** Two siblings' subtrees do not contain each other. */
  lemma SiblingsApart(h: Heap, next: nat, p: NodeRef, a: NodeRef, b: NodeRef)
    requires WellFormed(h, next) && p in h
    requires a in h[p].children && b in h[p].children && a != b
    ensures a !in Reach(h, next, b)
  {
    if a in Reach(h, next, b) {
      ReachOwner(h, next, b, a);
      ReachBounds(h, next, b);
    }
  }

  /** A subtree's value depends only on the records of its own nodes. */
  lemma {:induction false} ViewFrame(h: Heap, next: nat, h': Heap, next': nat, r: NodeRef)
    requires WellFormed(h, next) && WellFormed(h', next') && r in h
    requires forall y :: y in Reach(h, next, r) ==> y in h && y in h' && h'[y] == h[y]
    ensures r in h' && View(h', next', r) == View(h, next, r)
    decreases next - r
  {
    ReachBounds(h, next, r);
    var cs := h[r].children;
    forall k | 0 <= k < |cs|
      ensures View(h', next', cs[k]) == View(h, next, cs[k])
    {
      ChildFacts(h, next, r, k);
      ReachBounds(h, next, cs[k]);
      ViewFrame(h, next, h', next', cs[k]);
    }
  }

  /** p's record changed only by the children appended to it, every other old node
      kept, and the appended nodes new. */
  ghost predicate AppendedTo(h: Heap, h': Heap, p: NodeRef, added: seq<NodeRef>)
    requires p in h
  {
    p in h' &&
    h'[p] == h[p].(children := h[p].children + added) &&
    (forall x :: x in h && x != p ==> x in h' && h'[x] == h[x]) &&
    (forall a :: a in added ==> a !in h)
  }

  /** Appending children to p appends their subtrees to p's value and keeps the
      rest of p's value. */
  lemma AppendedView(h: Heap, next: nat, h': Heap, next': nat, p: NodeRef, added: seq<NodeRef>)
    requires WellFormed(h, next) && WellFormed(h', next') && p in h
    requires AppendedTo(h, h', p, added)
    ensures View(h', next', p) ==
      View(h, next, p).(children := View(h, next, p).children +
        seq(|added|, k requires 0 <= k < |added| => View(h', next', added[k])))
  {
    var cs := h[p].children;
    var ds := cs + added;
    assert h'[p].children == ds;
    var v, v' := View(h, next, p), View(h', next', p);
    var tail := seq(|added|, k requires 0 <= k < |added| => View(h', next', added[k]));
    forall k | 0 <= k < |ds|
      ensures v'.children[k] == (v.children + tail)[k]
    {
      if k < |cs| {
        ChildFacts(h, next, p, k);
        ReachBounds(h, next, cs[k]);
        ViewFrame(h, next, h', next', cs[k]);
        assert ds[k] == cs[k];
      } else {
        assert ds[k] == added[k - |cs|];
      }
    }
    assert v'.children == v.children + tail;
  }

  /** p's record unchanged, and of the old nodes only its k-th child's subtree
      touched. */
  ghost predicate ChildChanged(h: Heap, next: nat, h': Heap, p: NodeRef, k: nat)
    requires WellFormed(h, next) && p in h
  {
    k < |h[p].children| && p in h' && h'[p] == h[p] &&
    (forall x :: x in h && x !in Reach(h, next, h[p].children[k]) ==> x in h' && h'[x] == h[x])
  }

  /** Changing the subtree of p's k-th child changes p's value at that child only. */
  lemma ChildChangedView(h: Heap, next: nat, h': Heap, next': nat, p: NodeRef, k: nat)
    requires WellFormed(h, next) && WellFormed(h', next') && p in h
    requires ChildChanged(h, next, h', p, k)
    ensures h[p].children[k] in h'
    ensures View(h', next', p) ==
      View(h, next, p).(children := View(h, next, p).children[k := View(h', next', h[p].children[k])])
  {
    var cs := h[p].children;
    forall j | 0 <= j < |cs| && j != k
      ensures View(h', next', cs[j]) == View(h, next, cs[j])
    {
      ChildFacts(h, next, p, j);
      forall y | y in Reach(h, next, cs[j]) ensures y in h && y in h' && h'[y] == h[y] {
        ReachBounds(h, next, cs[j]);
        if y in Reach(h, next, cs[k]) {
          TreeApart(h, next, p, cs[j], cs[k], y);
        }
      }
      ViewFrame(h, next, h', next', cs[j]);
    }
  }

  /** The subtrees of two siblings share no node. */
  lemma {:induction false} TreeApart(h: Heap, next: nat, p: NodeRef, a: NodeRef, b: NodeRef, y: NodeRef)
    requires WellFormed(h, next) && p in h
    requires a in h[p].children && b in h[p].children && a != b
    requires y in Reach(h, next, a) && y in Reach(h, next, b)
    ensures false
    decreases y
  {
    if y == a {
      SiblingsApart(h, next, p, a, b);
    } else if y == b {
      SiblingsApart(h, next, p, b, a);
    } else {
      ReachOwner(h, next, a, y);
      ReachOwner(h, next, b, y);
      var q := h[y].parent.value;
      assert y in h[q].children;
      TreeApart(h, next, p, a, b, q);
    }
  }

  /** Of the nodes of h only q's record may differ in h'; new nodes may appear. */
  ghost predicate Touched(h: Heap, h': Heap, q: NodeRef) {
    q in h' && forall x :: x in h && x != q ==> x in h' && h'[x] == h[x]
  }

  /** No node of h differs in h'; new nodes may appear. */
  ghost predicate Untouched(h: Heap, h': Heap) {
    forall x :: x in h ==> x in h' && h'[x] == h[x]
  }

  /** A change to the record of p's k-th child q shows in p's value at that child
      only. */
  lemma TouchedChild(h: Heap, next: nat, h': Heap, next': nat, p: NodeRef, k: nat)
    requires WellFormed(h, next) && WellFormed(h', next') && p in h && k < |h[p].children|
    requires Touched(h, h', h[p].children[k]) && forall x :: x in h' && x !in h ==> x >= next
    ensures View(h', next', p) == TAtChild(View(h, next, p), k, View(h', next', h[p].children[k]))
  {
    var q := h[p].children[k];
    ChildFacts(h, next, p, k);
    ReachBounds(h, next, q);
    assert ChildChanged(h, next, h', p, k);
    ChildChangedView(h, next, h', next', p, k);
  }

  /** A node whose subtree does not contain q keeps its value. */
  lemma TouchedElsewhere(h: Heap, next: nat, h': Heap, next': nat, q: NodeRef, s: NodeRef)
    requires WellFormed(h, next) && WellFormed(h', next') && s in h
    requires Touched(h, h', q) && q !in Reach(h, next, s)
    ensures s in h' && View(h', next', s) == View(h, next, s)
  {
    ReachBounds(h, next, s);
    ViewFrame(h, next, h', next', s);
  }

  /** A node whose subtree is untouched keeps its value. */
  lemma UntouchedView(h: Heap, next: nat, h': Heap, next': nat, s: NodeRef)
    requires WellFormed(h, next) && WellFormed(h', next') && s in h && Untouched(h, h')
    ensures s in h' && View(h', next', s) == View(h, next, s)
  {
    ReachBounds(h, next, s);
    ViewFrame(h, next, h', next', s);
  }

  /** Touching only nodes created since h0 keeps what was appended to p. */
  lemma KeepAppended(h0: Heap, h: Heap, h': Heap, p: NodeRef, added: seq<NodeRef>, q: NodeRef)
    requires p in h0 && AppendedTo(h0, h, p, added) && Touched(h, h', q) && q !in h0
    ensures AppendedTo(h0, h', p, added)
  {
  }

  /** The names of the nodes cs and of the trees ts agree position by position. */
  lemma {:induction false} FirstNamedAgree(h: Heap, cs: seq<NodeRef>, ts: seq<Tree>, name: string)
    requires ChildrenIn(h, cs) && |cs| == |ts|
    requires forall i :: 0 <= i < |cs| ==> h[cs[i]].name == ts[i].name
    ensures FirstNamed(h, cs, name) == TFirstNamed(ts, name)
  {
    if |cs| > 0 && h[cs[0]].name != name {
      FirstNamedAgree(h, cs[1..], ts[1..], name);
    }
  }

  /** value_node_find on the heap is the search by name on the value. */
  lemma ChildNamedView(h: Heap, next: nat, p: NodeRef, name: string)
    requires WellFormed(h, next) && p in h
    ensures var k := TFirstNamed(View(h, next, p).children, name);
      (ChildNamed(h, next, p, name).None? <==> k.None?) &&
      (k.Some? ==> ChildNamed(h, next, p, name) == Some(h[p].children[k.value]))
  {
    var cs := h[p].children;
    forall i | 0 <= i < |cs| ensures h[cs[i]].name == View(h, next, p).children[i].name {
      ChildFacts(h, next, p, i);
    }
    FirstNamedAgree(h, cs, View(h, next, p).children, name);
  }

  /** The first of the trees ts tagged with the key i, by position. */
  function TFirstIndexed(ts: seq<Tree>, i: int): (r: Option<nat>)
    ensures r.Some? ==> r.value < |ts| && ts[r.value].idx == Some(i)
    ensures r.Some? ==> forall j :: 0 <= j < r.value ==> ts[j].idx != Some(i)
    ensures r.None? <==> forall j :: 0 <= j < |ts| ==> ts[j].idx != Some(i)
  {
    if |ts| == 0 then None
    else if ts[0].idx == Some(i) then Some(0)
    else match TFirstIndexed(ts[1..], i)
      case None => None
      case Some(j) => Some(j + 1)
  }

  /** value_node_find_by_idx on the heap is the search by key on the value. */
  lemma ChildIndexedView(h: Heap, next: nat, p: NodeRef, i: int)
    requires WellFormed(h, next) && p in h
    ensures FirstIndexed(h, h[p].children, i) == TFirstIndexed(View(h, next, p).children, i)
  {
    var cs := h[p].children;
    var ts := View(h, next, p).children;
    forall j | 0 <= j < |cs| ensures h[cs[j]].idx == ts[j].idx {
      ChildFacts(h, next, p, j);
    }
  }

  /** Setting a node's key keeps the heap invariant. */
  lemma SetIdxValid(h: Heap, next: nat, n: NodeRef, i: int)
    requires WellFormed(h, next) && n in h
    ensures WellFormed(h[n := h[n].(idx := Some(i))], next)
  {
    var h' := h[n := h[n].(idx := Some(i))];
    forall x | x in h' ensures h'[x].children == h[x].children && h'[x].parent == h[x].parent && h'[x].name == h[x].name {
    }
    forall x | x in h' ensures ChildrenIn(h', h'[x].children) && UniqueNames(h', h'[x].children) {
      assert ChildrenIn(h, h[x].children) && UniqueNames(h, h[x].children);
    }
  }

  /** Setting a node's key changes its value only in the key. */
  lemma SetIdxView(h: Heap, next: nat, n: NodeRef, i: int)
    requires WellFormed(h, next) && n in h
    ensures WellFormed(h[n := h[n].(idx := Some(i))], next)
    ensures View(h[n := h[n].(idx := Some(i))], next, n) == View(h, next, n).(idx := Some(i))
  {
    var h' := h[n := h[n].(idx := Some(i))];
    SetIdxValid(h, next, n, i);
    var cs := h[n].children;
    forall k | 0 <= k < |cs| ensures View(h', next, cs[k]) == View(h, next, cs[k]) {
      ChildFacts(h, next, n, k);
      ReachBounds(h, next, cs[k]);
      ViewFrame(h, next, h', next, cs[k]);
    }
    assert View(h', next, n).children == View(h, next, n).children;
  }

  // ---------------------------------------------------------------------------
  // The tree operations

  class ValueTree {
    var nodes: Heap
    var next: nat

    ghost predicate Valid()
      reads this
    {
      WellFormed(nodes, next)
    }

    /** An empty heap. */
    constructor ()
      ensures Valid() && nodes == map[]
    {
      nodes, next := map[], 0;
    }

    /** The value of the subtree rooted at r. */
    function ViewOf(r: NodeRef): Tree
      reads this
      requires Valid() && r in nodes
    {
      View(nodes, next, r)
    }

    /** value_node_find: scan p's immediate children for the first one named
        `name`. */
    method Find(p: NodeRef, name: string) returns (r: Option<NodeRef>)
      requires Valid() && p in nodes
      ensures r.Some? ==> r.value in nodes[p].children && nodes[r.value].name == name
      ensures r.None? <==> forall c :: c in nodes[p].children ==> nodes[c].name != name
      ensures r == ChildNamed(nodes, next, p, name)
    {
      var cs := nodes[p].children;
      var i := 0;
      while i < |cs|
        invariant 0 <= i <= |cs|
        invariant forall j :: 0 <= j < i ==> nodes[cs[j]].name != name
      {
        if nodes[cs[i]].name == name {
          return Some(cs[i]);
        }
        i := i + 1;
      }
      return None;
    }

    /** value_node_add: with a parent, fail if it already has a child of that name
        and otherwise append a new node at the tail of its children; without a
        parent, make a detached root. The new node holds a copy of the value, no
        children and no key. */
    method Add(p: Option<NodeRef>, name: string, value: Option<string>) returns (r: Option<NodeRef>)
      requires Valid()
      requires p.Some? ==> p.value in nodes
      modifies this
      ensures Valid()
      ensures p.Some? && ChildNamed(old(nodes), old(next), p.value, name).Some? ==>
        r.None? && nodes == old(nodes) && next == old(next)
      ensures (p.None? || ChildNamed(old(nodes), old(next), p.value, name).None?) ==>
        r == Some(old(next)) && next == old(next) + 1 &&
        nodes == Attach(old(nodes), p, old(next))[old(next) := NodeData(name, value, [], p, None)]
      ensures p.Some? ==> Touched(old(nodes), nodes, p.value)
      ensures p.None? ==> Untouched(old(nodes), nodes)
      ensures forall x :: x in nodes && x !in old(nodes) ==> x >= old(next)
      ensures p.Some? ==> View(nodes, next, p.value) == TAdd(old(View(nodes, next, p.value)), name, value)
      ensures p.Some? ==> (r.None? <==> TFirstNamed(old(View(nodes, next, p.value)).children, name).Some?)
      ensures r.Some? ==> r.value in nodes && View(nodes, next, r.value) == Leaf(name, value)
    {
      if p.Some? {
        var found := Find(p.value, name);
        if found.Some? {
          ChildNamedView(nodes, next, p.value, name);
          assert TAdd(View(nodes, next, p.value), name, value) == View(nodes, next, p.value);
          return None;
        }
      }
      r := Append(p, name, value);
    }

    /** The successful half of value_node_add: a new node at the tail of p's
        children, or a detached root. */
    method Append(p: Option<NodeRef>, name: string, value: Option<string>) returns (r: Option<NodeRef>)
      requires Valid()
      requires p.Some? ==> p.value in nodes && ChildNamed(nodes, next, p.value, name).None?
      modifies this
      ensures Valid()
      ensures r == Some(old(next)) && next == old(next) + 1 &&
        nodes == Attach(old(nodes), p, old(next))[old(next) := NodeData(name, value, [], p, None)]
      ensures p.Some? ==> Touched(old(nodes), nodes, p.value)
      ensures p.None? ==> Untouched(old(nodes), nodes)
      ensures forall x :: x in nodes && x !in old(nodes) ==> x >= old(next)
      ensures p.Some? ==> View(nodes, next, p.value) == TAdd(old(View(nodes, next, p.value)), name, value)
      ensures p.Some? ==> TFirstNamed(old(View(nodes, next, p.value)).children, name).None?
      ensures r.value in nodes && View(nodes, next, r.value) == Leaf(name, value)
    {
      ghost var h, n := nodes, next;
      if p.Some? {
        ChildNamedView(h, n, p.value, name);
      }
      var c := next;
      nodes := Attach(nodes, p, c)[c := NodeData(name, value, [], p, None)];
      next := next + 1;
      AddEffect(h, n, p, name, value);
      r := Some(c);
    }

    /** value_node_find_or_add: the child named `name` if there is one, otherwise a
        new valueless child appended at the tail. */
    method FindOrAdd(p: NodeRef, name: string) returns (r: NodeRef)
      requires Valid() && p in nodes
      modifies this
      ensures Valid()
      ensures ChildNamed(old(nodes), old(next), p, name).Some? ==>
        r == ChildNamed(old(nodes), old(next), p, name).value && nodes == old(nodes) && next == old(next)
      ensures ChildNamed(old(nodes), old(next), p, name).None? ==>
        r == old(next) && next == old(next) + 1 &&
        nodes == Attach(old(nodes), Some(p), old(next))[old(next) := NodeData(name, None, [], Some(p), None)]
      ensures r in nodes[p].children && nodes[r].name == name
      ensures Touched(old(nodes), nodes, p)
      ensures forall x :: x in nodes && x !in old(nodes) ==> x >= old(next)
      ensures View(nodes, next, p) == TFindOrAdd(old(View(nodes, next, p)), name)
      ensures r == nodes[p].children[TFirstNamed(View(nodes, next, p).children, name).value]
    {
      ChildNamedView(nodes, next, p, name);
      var found := Find(p, name);
      if found.Some? {
        return found.value;
      }
      var added := Add(Some(p), name, None);
      r := added.value;
      ChildNamedView(nodes, next, p, name);
    }

    /** Setting the correlation key of one node (`vn->idx = ...`). */
    method SetIdx(n: NodeRef, i: int)
      requires Valid() && n in nodes
      modifies this
      ensures Valid() && next == old(next)
      ensures nodes == old(nodes)[n := old(nodes)[n].(idx := Some(i))]
      ensures Touched(old(nodes), nodes, n) && nodes.Keys == old(nodes).Keys
      ensures View(nodes, next, n) == old(View(nodes, next, n)).(idx := Some(i))
    {
      SetIdxView(nodes, next, n, i);
      nodes := nodes[n := nodes[n].(idx := Some(i))];
    }

    /** value_node_find_by_idx: scan p's immediate children for the first one
        tagged with the key i. */
    method FindByIdx(p: NodeRef, i: int) returns (r: Option<NodeRef>)
      requires Valid() && p in nodes
      ensures r.Some? ==> r.value in nodes[p].children && nodes[r.value].idx == Some(i)
      ensures r.None? <==> forall c :: c in nodes[p].children ==> nodes[c].idx != Some(i)
      ensures r.Some? ==> r.value == nodes[p].children[FirstIndexed(nodes, nodes[p].children, i).value]
    {
      var cs := nodes[p].children;
      var j := 0;
      while j < |cs|
        invariant 0 <= j <= |cs|
        invariant forall k :: 0 <= k < j ==> nodes[cs[k]].idx != Some(i)
      {
        if nodes[cs[j]].idx == Some(i) {
          return Some(cs[j]);
        }
        j := j + 1;
      }
      return None;
    }

    /** value_node_del: unlink the node from its parent's children and release it
        with its whole subtree. */
    method Del(n: NodeRef)
      requires Valid() && n in nodes
      modifies this
      ensures Valid() && next == old(next)
      ensures nodes == Freed(old(nodes), old(next), n)
      ensures nodes.Keys == old(nodes).Keys - Reach(old(nodes), old(next), n)
      ensures forall x :: x in nodes && Some(x) != old(nodes)[n].parent ==> nodes[x] == old(nodes)[x]
      ensures old(nodes)[n].parent.Some? ==>
        var p := old(nodes)[n].parent.value;
        var cs := old(nodes)[p].children;
        var k := IndexOf(cs, n);
        p in nodes && nodes[p] == old(nodes)[p].(children := Without(cs, k))
    {
      ghost var h := nodes;
      var gone := Reach(nodes, next, n);
      var unlinked := Detach(nodes, n);
      nodes := map x | x in unlinked && x !in gone :: unlinked[x];
      assert nodes == Freed(h, next, n);
      FreedShape(h, next, n);
      FreedValid(h, next, n, nodes);
    }
  }

  /** The heap with c appended to the children of p (when there is a p). */
  function Attach(h: Heap, p: Option<NodeRef>, c: NodeRef): Heap
    requires p.Some? ==> p.value in h
  {
    if p.Some? then h[p.value := h[p.value].(children := h[p.value].children + [c])] else h
  }

  /** The heap with n unlinked from its parent's children. */
  function Detach(h: Heap, n: NodeRef): Heap
    requires n in h
    requires h[n].parent.Some? ==> h[n].parent.value in h && n in h[h[n].parent.value].children
  {
    match h[n].parent
    case None => h
    case Some(p) =>
      var cs := h[p].children;
      var k := IndexOf(cs, n);
      h[p := h[p].(children := Without(cs, k))]
  }

  lemma AttachValid(h: Heap, c: NodeRef, p: Option<NodeRef>, name: string, value: Option<string>)
    requires WellFormed(h, c)
    requires p.Some? ==> p.value in h && ChildNamed(h, c, p.value, name).None?
    ensures WellFormed(Attach(h, p, c)[c := NodeData(name, value, [], p, None)], c + 1)
  {
    var h' := Attach(h, p, c)[c := NodeData(name, value, [], p, None)];
    AttachEdges(h, c, p, name, value, h');
    AttachOwners(h, c, p, name, value, h');
    AttachNames(h, c, p, name, value, h');
  }

  /** AttachValid for the child links. */
  lemma AttachEdges(h: Heap, c: NodeRef, p: Option<NodeRef>, name: string, value: Option<string>, h': Heap)
    requires WellFormed(h, c) && (p.Some? ==> p.value in h)
    requires h' == Attach(h, p, c)[c := NodeData(name, value, [], p, None)]
    ensures forall x, d {:trigger d in h'[x].children} :: x in h' && d in h'[x].children ==>
      d in h' && x < d && h'[d].parent == Some(x)
  {
    forall x, d | x in h' && d in h'[x].children ensures d in h' && x < d && h'[d].parent == Some(x) {
      if x != c && d != c {
        assert d in h[x].children;
      }
    }
  }

  /** AttachValid for the owner links. */
  lemma AttachOwners(h: Heap, c: NodeRef, p: Option<NodeRef>, name: string, value: Option<string>, h': Heap)
    requires WellFormed(h, c) && (p.Some? ==> p.value in h)
    requires h' == Attach(h, p, c)[c := NodeData(name, value, [], p, None)]
    ensures forall x {:trigger h'[x].parent} :: x in h' && h'[x].parent.Some? ==>
      h'[x].parent.value in h' && x in h'[h'[x].parent.value].children
  {
    forall x | x in h' && h'[x].parent.Some? ensures h'[x].parent.value in h' && x in h'[h'[x].parent.value].children {
      if x != c {
        assert x in h[h[x].parent.value].children;
      }
    }
  }

  /** AttachValid for the sibling names. */
  lemma AttachNames(h: Heap, c: NodeRef, p: Option<NodeRef>, name: string, value: Option<string>, h': Heap)
    requires WellFormed(h, c) && (p.Some? ==> p.value in h && ChildNamed(h, c, p.value, name).None?)
    requires h' == Attach(h, p, c)[c := NodeData(name, value, [], p, None)]
    ensures forall x {:trigger h'[x].children} :: x in h' ==>
      ChildrenIn(h', h'[x].children) && UniqueNames(h', h'[x].children)
  {
    assert forall y :: y in h ==> y in h' && h'[y].name == h[y].name;
    forall x | x in h' ensures ChildrenIn(h', h'[x].children) && UniqueNames(h', h'[x].children) {
      if x != c && p.Some? && x == p.value {
        AppendedUnique(h, c, x, name, value, h');
      } else if x != c {
        assert h'[x].children == h[x].children;
        KeptUnique(h, h', h[x].children);
      }
    }
  }

  /** Uniquely named nodes stay so in a heap that keeps their records. */
  lemma KeptUnique(h: Heap, h': Heap, cs: seq<NodeRef>)
    requires ChildrenIn(h, cs) && UniqueNames(h, cs)
    requires forall c :: c in cs ==> c in h' && h'[c].name == h[c].name
    ensures ChildrenIn(h', cs) && UniqueNames(h', cs)
  {
  }

  /** The owner of the new node still has uniquely named children. */
  lemma AppendedUnique(h: Heap, c: NodeRef, x: NodeRef, name: string, value: Option<string>, h': Heap)
    requires WellFormed(h, c) && x in h && ChildNamed(h, c, x, name).None?
    requires h' == Attach(h, Some(x), c)[c := NodeData(name, value, [], Some(x), None)]
    ensures ChildrenIn(h', h'[x].children) && UniqueNames(h', h'[x].children)
  {
    var cs := h[x].children;
    assert h'[x].children == cs + [c];
    forall i, j | 0 <= i < j < |cs| + 1 ensures h'[(cs + [c])[i]].name != h'[(cs + [c])[j]].name {
      if j == |cs| {
        assert cs[i] in h[x].children;
      }
    }
  }

  /** The heap after value_node_del(n). */
  function Freed(h: Heap, next: nat, n: NodeRef): Heap
    requires WellFormed(h, next) && n in h
  {
    var gone := Reach(h, next, n);
    var u := Detach(h, n);
    map x | x in u && x !in gone :: u[x]
  }

  /** cs without the entry at k. */
  function Without<T>(cs: seq<T>, k: nat): (ds: seq<T>)
    requires k < |cs|
    ensures |ds| == |cs| - 1
    ensures forall j :: 0 <= j < |ds| ==> ds[j] == (if j < k then cs[j] else cs[j + 1])
  {
    cs[..k] + cs[k + 1..]
  }

  /** h' is h with the subtree of n released and n unlinked from its owner. */
  ghost predicate FreedFrom(h: Heap, next: nat, n: NodeRef, h': Heap)
    requires WellFormed(h, next) && n in h
  {
    (forall x :: x in h' <==> x in h && x !in Reach(h, next, n)) &&
    (forall x :: x in h' && Some(x) != h[n].parent ==> h'[x] == h[x]) &&
    (h[n].parent.Some? ==>
      var p := h[n].parent.value;
      p in h && n in h[p].children &&
      p in h' && h'[p] == h[p].(children := Without(h[p].children, IndexOf(h[p].children, n))))
  }

  /** Which records the deletion keeps, and how it changes the parent's. */
  lemma FreedShape(h: Heap, next: nat, n: NodeRef)
    requires WellFormed(h, next) && n in h
    ensures FreedFrom(h, next, n, Freed(h, next, n))
  {
    ReachBounds(h, next, n);
    if h[n].parent.Some? {
      var p := h[n].parent.value;
      assert n in h[p].children;
      assert p < n;
    }
  }

  /** After the deletion the heap invariant holds again. */
  lemma FreedValid(h: Heap, next: nat, n: NodeRef, h': Heap)
    requires WellFormed(h, next) && n in h && FreedFrom(h, next, n, h')
    ensures WellFormed(h', next)
  {
    FreedEdges(h, next, n, h');
    FreedOwners(h, next, n, h');
    FreedNames(h, next, n, h');
  }

  /** After the deletion every child link still points to a kept node that links back. */
  lemma FreedEdges(h: Heap, next: nat, n: NodeRef, h': Heap)
    requires WellFormed(h, next) && n in h && FreedFrom(h, next, n, h')
    ensures forall x, c {:trigger c in h'[x].children} :: x in h' && c in h'[x].children ==>
      c in h' && x < c && h'[c].parent == Some(x)
  {
    forall x, c | x in h' && c in h'[x].children
      ensures c in h' && x < c && h'[c].parent == Some(x)
    {
      FreedEdge(h, next, n, h', x, c);
    }
  }

  /** One child link after the deletion. */
  lemma FreedEdge(h: Heap, next: nat, n: NodeRef, h': Heap, x: NodeRef, c: NodeRef)
    requires WellFormed(h, next) && n in h && FreedFrom(h, next, n, h')
    requires x in h' && c in h'[x].children
    ensures c in h' && x < c && h'[c].parent == Some(x)
  {
    var cs := h[x].children;
    if h[n].parent == Some(x) {
      var k := IndexOf(cs, n);
      var ds := Without(cs, k);
      var j :| 0 <= j < |ds| && ds[j] == c;
      if j < k { assert cs[j] == c; } else { assert cs[j + 1] == c; }
    }
    assert c in cs;
    if c !in h' && c != n {
      ReachOwner(h, next, n, c);
    }
  }

  /** After the deletion every kept owner is kept and still lists its child. */
  lemma FreedOwners(h: Heap, next: nat, n: NodeRef, h': Heap)
    requires WellFormed(h, next) && n in h && FreedFrom(h, next, n, h')
    ensures forall x {:trigger h'[x].parent} :: x in h' && h'[x].parent.Some? ==>
      h'[x].parent.value in h' && x in h'[h'[x].parent.value].children
  {
    ReachBounds(h, next, n);
    forall x | x in h' && h'[x].parent.Some?
      ensures h'[x].parent.value in h' && x in h'[h'[x].parent.value].children
    {
      var q := h[x].parent.value;
      assert x in h[q].children;
      if q !in h' {
        ReachClosed(h, next, n, q, x);
      }
      if h[n].parent == Some(q) {
        var cs := h[q].children;
        var k := IndexOf(cs, n);
        var j :| 0 <= j < |cs| && cs[j] == x;
        if j < k { assert Without(cs, k)[j] == x; }
        else { assert Without(cs, k)[j - 1] == x; }
      }
    }
  }

  /** After the deletion sibling names are still unique. */
  lemma FreedNames(h: Heap, next: nat, n: NodeRef, h': Heap)
    requires WellFormed(h, next) && n in h && FreedFrom(h, next, n, h')
    ensures forall x :: x in h' ==> x < next
    ensures forall x {:trigger h'[x].children} :: x in h' ==>
      ChildrenIn(h', h'[x].children) && UniqueNames(h', h'[x].children)
  {
    FreedEdges(h, next, n, h');
    forall x | x in h' ensures ChildrenIn(h', h'[x].children) && UniqueNames(h', h'[x].children) {
      FreedNamesAt(h, next, n, h', x);
    }
  }

  /** FreedNames at one surviving node x. */
  lemma FreedNamesAt(h: Heap, next: nat, n: NodeRef, h': Heap, x: NodeRef)
    requires WellFormed(h, next) && n in h && FreedFrom(h, next, n, h') && x in h'
    requires forall y, c {:trigger c in h'[y].children} :: y in h' && c in h'[y].children ==> c in h'
    ensures ChildrenIn(h', h'[x].children) && UniqueNames(h', h'[x].children)
  {
    var cs := h[x].children;
    var ds := h'[x].children;
    forall c | c in ds ensures c in h' {
      assert c in h'[x].children;
    }
    forall y | y in h' ensures y in h && h'[y].name == h[y].name {
    }
    assert ChildrenIn(h, cs) && UniqueNames(h, cs);
    if h[n].parent == Some(x) {
      var k := IndexOf(cs, n);
      assert ds == Without(cs, k);
      UniqueWithout(h, h', cs, k);
    } else {
      assert ds == cs;
    }
  }

  /** Dropping the k-th of uniquely named nodes, whose names h' keeps, leaves them
      uniquely named. */
  lemma UniqueWithout(h: Heap, h': Heap, cs: seq<NodeRef>, k: nat)
    requires ChildrenIn(h, cs) && UniqueNames(h, cs) && k < |cs|
    requires ChildrenIn(h', Without(cs, k))
    requires forall c :: c in h' ==> c in h && h'[c].name == h[c].name
    ensures UniqueNames(h', Without(cs, k))
  {
    var ds := Without(cs, k);
    forall i, j | 0 <= i < j < |ds| ensures h'[ds[i]].name != h'[ds[j]].name {
      var i' := if i < k then i else i + 1;
      var j' := if j < k then j else j + 1;
      assert ds[i] == cs[i'] && ds[j] == cs[j'];
    }
  }

  // ---------------------------------------------------------------------------
  // What the operations do to the values of the subtrees

  /** The heap after a successful value_node_add under p. */
  function Added(h: Heap, next: nat, p: NodeRef, name: string, value: Option<string>): Heap
    requires p in h
  {
    Attach(h, Some(p), next)[next := NodeData(name, value, [], Some(p), None)]
  }

  /** What a successful add does, seen from the values of the nodes. */
  lemma AddEffect(h: Heap, next: nat, p: Option<NodeRef>, name: string, value: Option<string>)
    requires WellFormed(h, next)
    requires p.Some? ==> p.value in h && ChildNamed(h, next, p.value, name).None?
    ensures var h' := Attach(h, p, next)[next := NodeData(name, value, [], p, None)];
      WellFormed(h', next + 1) &&
      (p.Some? ==>
         Touched(h, h', p.value) &&
         View(h', next + 1, p.value) == TAdd(View(h, next, p.value), name, value)) &&
      (p.None? ==> Untouched(h, h')) &&
      (forall x :: x in h' && x !in h ==> x >= next) &&
      View(h', next + 1, next) == Leaf(name, value)
  {
    var h' := Attach(h, p, next)[next := NodeData(name, value, [], p, None)];
    AttachValid(h, next, p, name, value);
    if p.Some? {
      ChildNamedView(h, next, p.value, name);
      AddView(h, next, p.value, name, value);
    }
  }

  /** A successful add extends p's value by one childless leaf at the tail and keeps
      the children p had, in their order. */
  lemma AddView(h: Heap, next: nat, p: NodeRef, name: string, value: Option<string>)
    requires WellFormed(h, next) && p in h && ChildNamed(h, next, p, name).None?
    ensures WellFormed(Added(h, next, p, name, value), next + 1)
    ensures View(Added(h, next, p, name, value), next + 1, p) ==
      View(h, next, p).(children := View(h, next, p).children + [Tree(name, value, None, [])])
  {
    var h' := Added(h, next, p, name, value);
    AttachValid(h, next, Some(p), name, value);
    assert AppendedTo(h, h', p, [next]);
    AppendedView(h, next, h', next + 1, p, [next]);
    assert View(h', next + 1, next) == Tree(name, value, None, []);
  }

  /** After a successful add the new node is the child of p with that name, so a
      second value_node_find_or_add returns it again. */
  lemma AddThenFind(h: Heap, next: nat, p: NodeRef, name: string, value: Option<string>)
    requires WellFormed(h, next) && p in h && ChildNamed(h, next, p, name).None?
    ensures WellFormed(Added(h, next, p, name, value), next + 1)
    ensures ChildNamed(Added(h, next, p, name, value), next + 1, p, name) == Some(next)
  {
    var h' := Added(h, next, p, name, value);
    AttachValid(h, next, Some(p), name, value);
    var cs := h[p].children;
    assert h'[p].children == cs + [next];
    forall j | 0 <= j < |cs| ensures h'[(cs + [next])[j]].name != name {
      assert cs[j] in h[p].children;
    }
    assert (cs + [next])[|cs|] == next && h'[next].name == name;
  }

  /** Deleting a child of p removes exactly that child's value from p's value and
      keeps the other children in order. */
  lemma DelView(h: Heap, next: nat, n: NodeRef, h': Heap)
    requires WellFormed(h, next) && n in h && FreedFrom(h, next, n, h') && h[n].parent.Some?
    ensures WellFormed(h', next)
    ensures var p := h[n].parent.value;
      var k := IndexOf(h[p].children, n);
      p in h' && View(h', next, p) == View(h, next, p).(children := Without(View(h, next, p).children, k))
  {
    FreedValid(h, next, n, h');
    var p := h[n].parent.value;
    var cs := h[p].children;
    var k := IndexOf(cs, n);
    var ds := Without(cs, k);
    assert h'[p].children == ds;
    var v, v' := View(h, next, p), View(h', next, p);
    forall j | 0 <= j < |ds| ensures v'.children[j] == Without(v.children, k)[j] {
      var j' := if j < k then j else j + 1;
      assert ds[j] == cs[j'];
      SiblingKept(h, next, n, h', j');
    }
    assert v'.children == Without(v.children, k);
  }

  /** The deletion of n keeps the value of each sibling of n. */
  lemma SiblingKept(h: Heap, next: nat, n: NodeRef, h': Heap, j: nat)
    requires WellFormed(h, next) && WellFormed(h', next) && n in h && FreedFrom(h, next, n, h')
    requires h[n].parent.Some? && j < |h[h[n].parent.value].children|
    requires h[h[n].parent.value].children[j] != n
    ensures var c := h[h[n].parent.value].children[j];
      c in h && c in h' && View(h', next, c) == View(h, next, c)
  {
    var p := h[n].parent.value;
    var c := h[p].children[j];
    ChildFacts(h, next, p, j);
    assert n in h[p].children;
    forall y | y in Reach(h, next, c) ensures y in h && y in h' && h'[y] == h[y] {
      ReachBounds(h, next, c);
      if y in Reach(h, next, n) {
        TreeApart(h, next, p, c, n, y);
      }
    }
    ViewFrame(h, next, h', next, c);
  }

}
