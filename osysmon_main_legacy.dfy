/** The first form of the program (osysmon_main.c at the top of the repository):
    each cycle builds a detached "root", lets only sysinfo and ctrl fill it, and
    prints the nodes that carry a value, one "name: value" line each, without
    indentation and without the names of the nodes above them. */
module OsysmonMainLegacy {
  import opened CText
  import opened ValueNode
  import opened OsysmonCtrl
  import opened OsysmonSysinfo
  import opened OsysmonMain

  // ---------------------------------------------------------------------------
  // The printer

  /** The line print_node writes for a node with a value. */
  function ValueLine(t: Tree): string
    requires t.value.Some?
  {
    t.name + ": " + t.value.value + "\n"
  }

  /** print_node: a node with a value prints its line and is not descended into;
      a node without one prints nothing itself, then its children in list order. */
  function PrintValues(t: Tree): (lines: seq<string>)
    decreases t, |t.children| + 1
  {
    if t.value.Some? then [ValueLine(t)] else PrintValuesBelow(t, |t.children|)
  }

  /** The lines of the first k children of t. */
  function PrintValuesBelow(t: Tree, k: nat): seq<string>
    requires k <= |t.children|
    decreases t, k
  {
    if k == 0 then [] else PrintValuesBelow(t, k - 1) + PrintValues(t.children[k - 1])
  }

  /** The lines of the visits that reach a node with a value, in order; the other
      visits contribute nothing. */
  function Valued(vs: seq<Visit>): (ls: seq<string>)
    ensures |ls| <= |vs|
  {
    if |vs| == 0 then []
    else
      var v := vs[|vs| - 1];
      Valued(vs[..|vs| - 1]) + (if v.node.value.Some? then [ValueLine(v.node)] else [])
  }

  lemma {:induction false} ValuedAppend(a: seq<Visit>, b: seq<Visit>)
    ensures Valued(a + b) == Valued(a) + Valued(b)
    decreases |b|
  {
    if |b| == 0 {
      assert a + b == a;
    } else {
      var n := |b| - 1;
      assert (a + b)[..|a + b| - 1] == a + b[..n];
      assert (a + b)[|a + b| - 1] == b[n];
      ValuedAppend(a, b[..n]);
    }
  }

  /** print_node walks the tree the way the later printer does (Visits) and writes
      a line exactly for the nodes of that walk that carry a value, in the walk's
      order: the leaves of the tree in pre-order. */
  lemma {:induction false} PrintValuesWalks(t: Tree, indent: nat)
    ensures PrintValues(t) == Valued(Visits(t, indent))
    decreases t, |t.children| + 1
  {
    var own := [Visit(indent, t)];
    assert own[..0] == [];
    if t.value.None? {
      PrintValuesBelowWalks(t, |t.children|, indent + 2);
      ValuedAppend(own, VisitsBelow(t, |t.children|, indent + 2));
    } else {
      assert Visits(t, indent) == own;
    }
  }

  lemma {:induction false} PrintValuesBelowWalks(t: Tree, k: nat, indent: nat)
    requires k <= |t.children|
    ensures PrintValuesBelow(t, k) == Valued(VisitsBelow(t, k, indent))
    decreases t, k
  {
    if k > 0 {
      PrintValuesBelowWalks(t, k - 1, indent);
      PrintValuesWalks(t.children[k - 1], indent);
      ValuedAppend(VisitsBelow(t, k - 1, indent), Visits(t.children[k - 1], indent));
    }
  }

  /** A line is among the valued visits' lines exactly when one of the visits
      reaches a node with a value and that node's line is the line. */
  lemma {:induction false} ValuedHas(vs: seq<Visit>, l: string)
    ensures l in Valued(vs) <==>
      exists k :: 0 <= k < |vs| && vs[k].node.value.Some? && l == ValueLine(vs[k].node)
    decreases |vs|
  {
    if |vs| > 0 {
      var n := |vs| - 1;
      ValuedHas(vs[..n], l);
      if exists k :: 0 <= k < n && vs[..n][k].node.value.Some? && l == ValueLine(vs[..n][k].node) {
        var k :| 0 <= k < n && vs[..n][k].node.value.Some? && l == ValueLine(vs[..n][k].node);
        assert vs[k] == vs[..n][k];
      }
      if exists k :: 0 <= k < |vs| && vs[k].node.value.Some? && l == ValueLine(vs[k].node) {
        var k :| 0 <= k < |vs| && vs[k].node.value.Some? && l == ValueLine(vs[k].node);
        if k < n {
          assert vs[..n][k] == vs[k];
        }
      }
    }
  }

  /** display_update: the report of a cycle, the valued nodes' lines in walk order. */
  function LegacyDisplay(root: Tree): (lines: seq<string>)
    ensures lines == Valued(Visits(root, 0))
  {
    PrintValuesWalks(root, 0);
    PrintValues(root)
  }

  /** Only nodes with a value produce output, and every one the walk reaches does:
      a line is in the report exactly when it is "name: value" of such a node. */
  lemma LegacyShowsValues(root: Tree, l: string)
    ensures l in LegacyDisplay(root) ==>
      exists k :: 0 <= k < |Visits(root, 0)| && Visits(root, 0)[k].node.value.Some? && l == ValueLine(Visits(root, 0)[k].node)
    ensures (exists k :: 0 <= k < |Visits(root, 0)| && Visits(root, 0)[k].node.value.Some? && l == ValueLine(Visits(root, 0)[k].node)) ==>
      l in LegacyDisplay(root)
  {
    var vs := Visits(root, 0);
    ValuedHas(vs, l);
    assert LegacyDisplay(root) == Valued(vs);
  }

  /** The later printer writes the same line for a node with a value, after the
      indent: the first form's report is the later one's valued lines, unindented. */
  lemma LegacyLineIsUnindented(vs: seq<Visit>, k: nat)
    requires k < |vs| && vs[k].node.value.Some?
    ensures Lines(vs)[k] == Spaces(vs[k].indent) + ValueLine(vs[k].node)
  {
    LinesAt(vs, k);
    var v := vs[k];
    NodeLineValued(v.node, v.indent);
  }

  lemma NodeLineValued(t: Tree, indent: nat)
    requires t.value.Some?
    ensures NodeLine(t, indent) == Spaces(indent) + ValueLine(t)
  {
    var sp := Spaces(indent);
    assert NodeLine(t, indent) == sp + t.name + (": " + t.value.value) + "\n";
  }

  // ---------------------------------------------------------------------------
  // The poll cycle, on values

  /** One turn of the first main's loop: sysinfo, then ctrl into the fresh root.
      Only the CTRL clients change; the network devices, the netlink socket and
      the files are not polled at all. */
  function LegacyPoll(s: Sources, x: CycleInput): (r: (Sources, Tree))
    requires Fits(s, x)
    ensures r.0 == s.(ctrl := r.0.ctrl) && |r.0.ctrl| == |s.ctrl|
  {
    var c := PollAll(s.ctrl, x.atts, AfterSysinfo(s, x));
    (s.(ctrl := c.0), c.1)
  }

  /** The root of a first-form cycle is named "root" and has no value; it holds the
      "sysinfo" node first when sysinfo is enabled, then the CTRL clients' nodes. */
  lemma LegacyOrder(s: Sources, x: CycleInput)
    requires Fits(s, x)
    ensures var t1 := AfterSysinfo(s, x); var r := LegacyPoll(s, x).1;
      r.name == "root" && r.value.None? && r.idx.None? && t1.children <= r.children &&
      (s.sysinfo ==> |r.children| > 0 && r.children[0].name == "sysinfo")
  {
    var t1 := AfterSysinfo(s, x);
    SysinfoStage(s, x);
    PollAllKeeps(s.ctrl, x.atts, t1);
    if s.sysinfo {
      assert t1.children[0] == LegacyPoll(s, x).1.children[..|t1.children|][0];
    }
  }

  /** The later cycle with no network device and no file configured is the first
      one: rtnl and file leave the root and the sources as they were. */
  lemma LaterCycleExtends(s: Sources, x: CycleInput)
    requires Fits(s, x) && |s.netdevs| == 0 && |s.files| == 0
    ensures PollCycle(s, x) == LegacyPoll(s, x)
  {
    var t2 := CtrlOn(s, x, AfterSysinfo(s, x));
    RtnlKeeps(s.netdevs, OpenAfter(s, x), x.links, x.addrs, t2);
    assert RestOn(s, x, AfterSysinfo(s, x)) == t2;
  }

  /** With sysinfo disabled and no CTRL client the first form prints nothing at
      all, where the later one prints the root's name. */
  lemma LegacyQuiet(s: Sources, x: CycleInput)
    requires Fits(s, x) && !s.sysinfo && |s.ctrl| == 0
    ensures LegacyDisplay(LegacyPoll(s, x).1) == []
    ensures DisplayUpdate(PollCycle(s, x).1) != []
  {
    SysinfoStage(s, x);
    assert LegacyPoll(s, x).1 == Root();
  }

  /** One turn of the first main's loop, on values: the sources afterwards and the
      report. Inputs that do not fit the sources change nothing and print nothing. */
  function LegacyTurn(s: Sources, x: CycleInput): (r: (Sources, seq<string>))
    ensures r.0 == s.(ctrl := r.0.ctrl) && |r.0.ctrl| == |s.ctrl|
  {
    if Fits(s, x) then
      var c := LegacyPoll(s, x);
      (c.0, LegacyDisplay(c.1))
    else (s, [])
  }

  /** The first main's loop run for |xs| cycles. */
  function LegacyRun(s: Sources, xs: seq<CycleInput>): (r: (Sources, seq<seq<string>>))
    requires AllFit(s, xs)
    ensures |r.1| == |xs|
  {
    Loop(LegacyTurn, s, xs)
  }

  /** However many cycles run, only the CTRL clients change, and their number stays. */
  lemma LegacyRunKeeps(s: Sources, xs: seq<CycleInput>)
    ensures var r := Loop(LegacyTurn, s, xs).0;
      r == s.(ctrl := r.ctrl) && |r.ctrl| == |s.ctrl|
  {
    var same := (a: Sources) => a == s.(ctrl := a.ctrl) && |a.ctrl| == |s.ctrl|;
    LoopKeeps(LegacyTurn, same, s, xs);
  }

  /** Cycle k of the first main's loop prints the valued lines of the root that
      sysinfo and ctrl built from the clients the first k cycles left. */
  lemma LegacyRunReports(s: Sources, xs: seq<CycleInput>, k: nat)
    requires AllFit(s, xs) && k < |xs|
    ensures var before := Loop(LegacyTurn, s, xs[..k]).0;
      Fits(before, xs[k]) &&
      LegacyRun(s, xs).1[k] == Valued(Visits(LegacyPoll(before, xs[k]).1, 0))
  {
    LoopAt(LegacyTurn, s, xs, k);
    LegacyRunKeeps(s, xs[..k]);
  }

  // ---------------------------------------------------------------------------
  // The cycle on the heap

  /** The body of the first main's loop: a detached "root", sysinfo and ctrl into
      it, the report, and the root freed with everything below it. */
  method LegacyCycle(t: ValueTree, sys: Sysinfo, ctrl: CtrlClients, x: CycleInput, ghost s0: Sources)
    returns (report: seq<string>)
    requires t.Valid() && ctrl.Valid() && Fits(s0, x)
    requires sys.enabled == s0.sysinfo && ctrl.States() == s0.ctrl
    modifies t, (set c | c in ctrl.clients), Conns(ctrl.clients)
    ensures t.Valid() && ctrl.Valid() && ctrl.clients == old(ctrl.clients)
    ensures sys.enabled == s0.sysinfo && ctrl.States() == LegacyPoll(s0, x).0.ctrl
    ensures report == LegacyDisplay(LegacyPoll(s0, x).1)
    ensures old(t.next) !in t.nodes
  {
    NotAConn(ctrl.clients, t);
    var added := t.Add(None, "root", None);
    var root := added.value;
    PollSysinfo(t, root, sys, ctrl, x, s0.sysinfo, s0.ctrl);
    LegacyPollCtrl(t, root, sys, ctrl, x, s0);
    report := LegacyDisplay(t.ViewOf(root));
    LegacyFree(t, root, sys, ctrl);
  }

  /** ctrl, into the root that sysinfo left; sysinfo's switch does not change. */
  method LegacyPollCtrl(t: ValueTree, root: NodeRef, sys: Sysinfo, ctrl: CtrlClients, x: CycleInput, ghost s0: Sources)
    requires t.Valid() && ctrl.Valid() && root in t.nodes && Fits(s0, x)
    requires t.ViewOf(root) == AfterSysinfo(s0, x) && ctrl.States() == s0.ctrl && sys.enabled == s0.sysinfo
    modifies t, (set c | c in ctrl.clients), Conns(ctrl.clients)
    ensures t.Valid() && ctrl.Valid() && ctrl.clients == old(ctrl.clients) && root in t.nodes
    ensures (ctrl.States(), t.ViewOf(root)) == PollAll(s0.ctrl, x.atts, AfterSysinfo(s0, x))
    ensures sys.enabled == s0.sysinfo
  {
    NotAConn(ctrl.clients, sys);
    var _ := ctrl.PollAllClients(t, root, x.atts);
  }

  /** value_node_del of the root: the clients and sysinfo's switch do not change. */
  method LegacyFree(t: ValueTree, root: NodeRef, sys: Sysinfo, ctrl: CtrlClients)
    requires t.Valid() && root in t.nodes && ctrl.Valid()
    modifies t
    ensures t.Valid() && t.next == old(t.next) && root !in t.nodes && ctrl.Valid()
    ensures ctrl.States() == old(ctrl.States()) && sys.enabled == old(sys.enabled)
  {
    NotAConn(ctrl.clients, t);
    t.Del(root);
  }
}
