/** The program around the sources (src/osysmon_main.c): the shell hooks, the
    report printer and the poll cycle, which builds a fresh "root" node, lets
    sysinfo, ctrl, rtnl and file fill it in that order, prints it and frees it. */
module OsysmonMain {
  import opened CText
  import opened ValueNode
  import opened PollTree
  import opened OsysmonCtrl
  import opened OsysmonSysinfo
  import opened OsysmonRtnl
  import opened OsysmonFile

  // ---------------------------------------------------------------------------
  // The shell hooks

  /** osysmon_go_parent: the CTRL client and variable nodes are handed to the ctrl
      source's go-parent; every other node stays where it is. Both ways the answer
      is what the ctrl source's own rule gives. */
  function OsysmonGoParent(v: Vty): (r: Vty)
    requires v.node == CtrlClientGetvarNode ==> v.index.GetVarIndex?
    ensures r == GoParent(v)
    ensures v.node != CtrlClientNode && v.node != CtrlClientGetvarNode ==> r == v
    ensures r != v ==> v.node == CtrlClientNode || v.node == CtrlClientGetvarNode
  {
    match v.node
    case CtrlClientNode => GoParent(v)
    case CtrlClientGetvarNode => GoParent(v)
    case _ => v
  }

  /** osysmon_is_config_node: there are no other than configuration nodes. */
  function IsConfigNode(v: Vty, node: VtyNode): (r: bool)
    ensures r
  {
    true
  }

  // ---------------------------------------------------------------------------
  // The walk both printers make

  /** One node reached by the printer, with the indent it is reached at. */
  datatype Visit = Visit(indent: nat, node: Tree)

  /** The nodes print_node reaches from t, in the order it reaches them: t itself,
      then, when t has no value, the walks of its children in list order, two
      columns further in. A node with a value is not descended into. */
  function Visits(t: Tree, indent: nat): (vs: seq<Visit>)
    ensures |vs| > 0 && vs[0] == Visit(indent, t)
    decreases t, |t.children| + 1
  {
    [Visit(indent, t)] + (if t.value.Some? then [] else VisitsBelow(t, |t.children|, indent + 2))
  }

  /** The walks of the first k children of t, one after the other. */
  function VisitsBelow(t: Tree, k: nat, indent: nat): seq<Visit>
    requires k <= |t.children|
    decreases t, k
  {
    if k == 0 then [] else VisitsBelow(t, k - 1, indent) + Visits(t.children[k - 1], indent)
  }

  /** Every node reached is at least as far in as the start, by an even number of
      columns. */
  lemma {:induction false} VisitsIndent(t: Tree, indent: nat)
    ensures forall v :: v in Visits(t, indent) ==> v.indent >= indent && (v.indent - indent) % 2 == 0
    decreases t, |t.children| + 1
  {
    if t.value.None? {
      VisitsBelowIndent(t, |t.children|, indent + 2);
    }
  }

  lemma {:induction false} VisitsBelowIndent(t: Tree, k: nat, indent: nat)
    requires k <= |t.children|
    ensures forall v :: v in VisitsBelow(t, k, indent) ==> v.indent >= indent && (v.indent - indent) % 2 == 0
    decreases t, k
  {
    if k > 0 {
      VisitsBelowIndent(t, k - 1, indent);
      VisitsIndent(t.children[k - 1], indent);
    }
  }

  // ---------------------------------------------------------------------------
  // The printer

  /** indent blanks: the fputc(' ') loop. */
  function Spaces(n: nat): (s: string)
    ensures |s| == n && forall i :: 0 <= i < n ==> s[i] == ' '
  {
    seq(n, _ => ' ')
  }

  /** What print_node writes for one node: the indent, the name, and ": value"
      when the node has a value, then a newline. */
  function NodeLine(t: Tree, indent: nat): string {
    Spaces(indent) + t.name + (if t.value.Some? then ": " + t.value.value else "") + "\n"
  }

  /** print_node(node, indent): the lines written, the node's own first and then,
      when it has no value, its children's at indent + 2, in list order. */
  function PrintNode(t: Tree, indent: nat): (lines: seq<string>)
    decreases t, |t.children| + 1
  {
    [NodeLine(t, indent)] + (if t.value.Some? then [] else PrintBelow(t, |t.children|, indent + 2))
  }

  /** The lines of the first k children of t, printed at indent. */
  function PrintBelow(t: Tree, k: nat, indent: nat): seq<string>
    requires k <= |t.children|
    decreases t, k
  {
    if k == 0 then [] else PrintBelow(t, k - 1, indent) + PrintNode(t.children[k - 1], indent)
  }

  /** display_update: the report of a cycle, printed from the root at indent 0. */
  function DisplayUpdate(root: Tree): (lines: seq<string>)
    ensures lines == Lines(Visits(root, 0))
    ensures |lines| > 0 && lines[0] == root.name + (if root.value.Some? then ": " + root.value.value else "") + "\n"
  {
    PrintNodeWalks(root, 0);
    assert Spaces(0) == "";
    PrintNode(root, 0)
  }

  /** The line of each visit, in order. */
  function Lines(vs: seq<Visit>): (ls: seq<string>)
    ensures |ls| == |vs|
  {
    if |vs| == 0 then [] else Lines(vs[..|vs| - 1]) + [NodeLine(vs[|vs| - 1].node, vs[|vs| - 1].indent)]
  }

  lemma {:induction false} LinesAppend(a: seq<Visit>, b: seq<Visit>)
    ensures Lines(a + b) == Lines(a) + Lines(b)
    decreases |b|
  {
    if |b| == 0 {
      assert a + b == a;
    } else {
      var n := |b| - 1;
      assert (a + b)[..|a + b| - 1] == a + b[..n];
      assert (a + b)[|a + b| - 1] == b[n];
      LinesAppend(a, b[..n]);
    }
  }

  /** print_node writes exactly one line per node of the walk, in the walk's order:
      pre-order, each node at its visit's indent. */
  lemma {:induction false} PrintNodeWalks(t: Tree, indent: nat)
    ensures PrintNode(t, indent) == Lines(Visits(t, indent))
    decreases t, |t.children| + 1
  {
    var own := [Visit(indent, t)];
    assert Lines(own) == [NodeLine(t, indent)] by {
      assert own[..0] == [];
    }
    if t.value.None? {
      PrintBelowWalks(t, |t.children|, indent + 2);
      LinesAppend(own, VisitsBelow(t, |t.children|, indent + 2));
    } else {
      assert Visits(t, indent) == own;
    }
  }

  lemma {:induction false} PrintBelowWalks(t: Tree, k: nat, indent: nat)
    requires k <= |t.children|
    ensures PrintBelow(t, k, indent) == Lines(VisitsBelow(t, k, indent))
    decreases t, k
  {
    if k > 0 {
      PrintBelowWalks(t, k - 1, indent);
      PrintNodeWalks(t.children[k - 1], indent);
      LinesAppend(VisitsBelow(t, k - 1, indent), Visits(t.children[k - 1], indent));
    }
  }

  /** Every line print_node writes starts with at least `indent` blanks and ends
      with a newline. */
  lemma PrintNodeIndented(t: Tree, indent: nat)
    ensures forall l :: l in PrintNode(t, indent) ==> |l| > indent && l[..indent] == Spaces(indent) && l[|l| - 1] == '\n'
  {
    var vs := Visits(t, indent);
    PrintNodeWalks(t, indent);
    VisitsIndent(t, indent);
    forall l | l in PrintNode(t, indent)
      ensures |l| > indent && l[..indent] == Spaces(indent) && l[|l| - 1] == '\n'
    {
      var k :| 0 <= k < |Lines(vs)| && Lines(vs)[k] == l;
      LinesAt(vs, k);
      assert vs[k] in vs;
    }
  }

  /** The k-th line is the line of the k-th visit. */
  lemma {:induction false} LinesAt(vs: seq<Visit>, k: nat)
    requires k < |vs|
    ensures Lines(vs)[k] == NodeLine(vs[k].node, vs[k].indent)
    decreases |vs|
  {
    if k < |vs| - 1 {
      LinesAt(vs[..|vs| - 1], k);
    }
  }

  // ---------------------------------------------------------------------------
  // The poll cycle, on values

  /** What the sources keep from one cycle to the next: whether sysinfo is
      enabled, the CTRL clients, the configured network devices and whether the
      netlink socket is open, and the watched files. */
  datatype Sources = Sources(sysinfo: bool, ctrl: seq<ClientState>, netdevs: seq<string>, open: bool,
                             files: seq<FileWatch>)

  /** What the system answers during one cycle: the sysinfo(2) call, how each CTRL
      client's connection attempt turns out, whether the netlink socket opens,
      the link and address dumps, and the files. */
  datatype CycleInput = CycleInput(call: SysinfoCall, atts: seq<Attempt>, initOk: bool,
                                   links: seq<LinkMsg>, addrs: seq<AddrMsg>, fs: FileSystem)

  /** An input the sources can take: a usable sysinfo answer and one attempt per
      CTRL client. */
  predicate Fits(s: Sources, x: CycleInput) {
    GoodCall(x.call) && |x.atts| == |s.ctrl|
  }

  /** No CTRL client carries the name n. */
  predicate NoClientNamed(cs: seq<ClientState>, n: string) {
    forall i :: 0 <= i < |cs| ==> cs[i].name != n
  }

  /** The detached node each cycle starts from: value_node_add(NULL, "root", NULL). */
  function Root(): Tree {
    Leaf("root", None)
  }

  /** The root after sysinfo. */
  function AfterSysinfo(s: Sources, x: CycleInput): Tree
    requires Fits(s, x)
  {
    SysinfoPoll(s.sysinfo, x.call, Root()).1
  }

  /** What sysinfo leaves of the root: nothing added when disabled, otherwise a
      single "sysinfo" node. */
  lemma SysinfoStage(s: Sources, x: CycleInput)
    requires Fits(s, x)
    ensures var t1 := AfterSysinfo(s, x);
      t1.name == "root" && t1.value.None? && t1.idx.None? &&
      (!s.sysinfo ==> t1 == Root()) &&
      (s.sysinfo ==> |t1.children| == 1 && t1.children[0].name == "sysinfo")
  {
  }

  /** Whether the netlink socket is open once rtnl has polled. */
  function OpenAfter(s: Sources, x: CycleInput): bool {
    s.open || (|s.netdevs| > 0 && x.initOk)
  }

  /** The root t1 after ctrl. */
  function CtrlOn(s: Sources, x: CycleInput, t1: Tree): Tree
    requires Fits(s, x)
  {
    PollAll(s.ctrl, x.atts, t1).1
  }

  /** The root t2 after rtnl. */
  function RtnlOn(s: Sources, x: CycleInput, t2: Tree): Tree {
    RtnlPoll(s.netdevs, OpenAfter(s, x), x.links, x.addrs, t2).1
  }

  /** The root t1 after ctrl, rtnl and file. */
  function RestOn(s: Sources, x: CycleInput, t1: Tree): Tree
    requires Fits(s, x)
  {
    FilePoll(s.files, x.fs, RtnlOn(s, x, CtrlOn(s, x, t1)))
  }

  /** One turn of main's loop: the sources afterwards and the root once sysinfo,
      ctrl, rtnl and file have polled into it, in that order, whatever each of
      them returns. The configuration stays as it was. */
  function PollCycle(s: Sources, x: CycleInput): (r: (Sources, Tree))
    requires Fits(s, x)
    ensures r.0.sysinfo == s.sysinfo && r.0.netdevs == s.netdevs && r.0.files == s.files
    ensures |r.0.ctrl| == |s.ctrl|
  {
    (s.(ctrl := PollAll(s.ctrl, x.atts, AfterSysinfo(s, x)).0, open := OpenAfter(s, x)),
     RestOn(s, x, AfterSysinfo(s, x)))
  }

  /** The last client's poll comes after the others'. */
  lemma PollAllLast(cs: seq<ClientState>, atts: seq<Attempt>, t: Tree)
    requires |atts| == |cs| && |cs| > 0
    ensures var n := |cs| - 1; var rest := PollAll(cs[..n], atts[..n], t);
      var p := PollLink(cs[n].link, cs[n].vars, atts[n]);
      PollAll(cs, atts, t) == (rest.0 + [cs[n].(link := p.1)], TGraft(rest.1, Subtree(cs[n].name, p.2)))
  {
  }

  /** A parent without a child named x keeps it that way through the CTRL clients'
      polls when no client has that name. */
  lemma {:induction false} PollAllAvoids(cs: seq<ClientState>, atts: seq<Attempt>, t: Tree, name: string)
    requires |atts| == |cs| && TFirstNamed(t.children, name).None? && NoClientNamed(cs, name)
    ensures TFirstNamed(PollAll(cs, atts, t).1.children, name).None?
  {
    if |cs| > 0 {
      var n := |cs| - 1;
      PollAllAvoids(cs[..n], atts[..n], t, name);
      PollAllLast(cs, atts, t);
    }
  }

  /** Grafting keeps the children there were and appends the new one when its
      name is free. */
  lemma GraftKeeps(t: Tree, u: Tree)
    ensures var r := TGraft(t, u);
      r.name == t.name && r.value == t.value && r.idx == t.idx && t.children <= r.children &&
      (TFirstNamed(t.children, u.name).None? ==> r.children == t.children + [u])
  {
  }

  /** The rtnl poll keeps the children there were and, with devices and no
      "netdev" node yet, appends one. */
  lemma RtnlKeeps(netdevs: seq<string>, open: bool, links: seq<LinkMsg>, addrs: seq<AddrMsg>, p: Tree)
    ensures var r := RtnlPoll(netdevs, open, links, addrs, p).1;
      r.name == p.name && r.value == p.value && r.idx == p.idx && p.children <= r.children &&
      (|netdevs| == 0 ==> r == p) &&
      (|netdevs| > 0 && TFirstNamed(p.children, "netdev").None? ==>
         |r.children| == |p.children| + 1 && r.children[|p.children|].name == "netdev")
  {
    var u := if !open then Leaf("netdev", None) else Addrs(Links(netdevs, Leaf("netdev", None), links), addrs);
    if |netdevs| > 0 {
      assert RtnlPoll(netdevs, open, links, addrs, p).1 == TGraft(p, u);
      GraftKeeps(p, u);
    }
  }

  /** The file poll keeps the children there were and, with watchers and no "file"
      node yet, appends the "file" node with the readings. */
  lemma FileKeeps(ws: seq<FileWatch>, fs: FileSystem, p: Tree)
    ensures var r := FilePoll(ws, fs, p);
      r.name == p.name && r.value == p.value && r.idx == p.idx && p.children <= r.children &&
      (|ws| > 0 && TFirstNamed(p.children, "file").None? ==>
         r.children == p.children + [Subtree("file", Readings(ws, fs))])
  {
    if |ws| > 0 {
      GraftKeeps(p, Subtree("file", Readings(ws, fs)));
    }
  }

  /** After sysinfo, each source's nodes come after those of the sources polled
      before it, and the root keeps its name. */
  lemma RestOrder(s: Sources, x: CycleInput, t1: Tree)
    requires Fits(s, x)
    ensures var t2 := CtrlOn(s, x, t1); var t3 := RtnlOn(s, x, t2); var r := RestOn(s, x, t1);
      r.name == t1.name && r.value == t1.value && r.idx == t1.idx &&
      t1.children <= t2.children && t2.children <= t3.children && t3.children <= r.children
  {
    PollAllKeeps(s.ctrl, x.atts, t1);
    RtnlKeeps(s.netdevs, OpenAfter(s, x), x.links, x.addrs, CtrlOn(s, x, t1));
    FileKeeps(s.files, x.fs, RtnlOn(s, x, CtrlOn(s, x, t1)));
  }

  /** The root of each cycle is named "root", has no value, and holds the
      sources' nodes in poll order: those of sysinfo first, then each source's
      after those of the sources polled before it. With sysinfo enabled its node
      is the root's first child; disabled, it adds nothing. */
  lemma CycleOrder(s: Sources, x: CycleInput)
    requires Fits(s, x)
    ensures var t1 := AfterSysinfo(s, x); var t2 := CtrlOn(s, x, t1); var t3 := RtnlOn(s, x, t2);
      var r := PollCycle(s, x).1;
      r.name == "root" && r.value.None? && r.idx.None? &&
      t1.children <= t2.children && t2.children <= t3.children && t3.children <= r.children &&
      (!s.sysinfo ==> t1 == Root()) &&
      (s.sysinfo ==> |t1.children| == 1 && |r.children| > 0 && r.children[0].name == "sysinfo")
  {
    var t1 := AfterSysinfo(s, x);
    SysinfoStage(s, x);
    RestOrder(s, x, t1);
    if s.sysinfo {
      assert t1.children <= RestOn(s, x, t1).children;
      assert t1.children[0] == RestOn(s, x, t1).children[0];
    }
  }

  /** With devices configured, the "netdev" node comes right after the CTRL
      clients' nodes, unless a CTRL client or an earlier source has already taken
      the name. */
  lemma NetdevAfterCtrl(s: Sources, x: CycleInput, t1: Tree)
    requires Fits(s, x) && |s.netdevs| > 0 && NoClientNamed(s.ctrl, "netdev") && TFirstNamed(t1.children, "netdev").None?
    ensures var k := |CtrlOn(s, x, t1).children|;
      k < |RestOn(s, x, t1).children| && RestOn(s, x, t1).children[k].name == "netdev"
  {
    var t2 := CtrlOn(s, x, t1);
    PollAllAvoids(s.ctrl, x.atts, t1, "netdev");
    RtnlKeeps(s.netdevs, OpenAfter(s, x), x.links, x.addrs, t2);
    FileKeeps(s.files, x.fs, RtnlOn(s, x, t2));
    assert RtnlOn(s, x, t2).children <= RestOn(s, x, t1).children;
  }

  /** With files watched, the "file" node is the root's last child, whether or not
      rtnl failed, unless a CTRL client or an earlier source has already taken the
      name. */
  lemma FileLast(s: Sources, x: CycleInput, t1: Tree)
    requires Fits(s, x) && |s.files| > 0 && NoClientNamed(s.ctrl, "file") && TFirstNamed(t1.children, "file").None?
    ensures var cs := RestOn(s, x, t1).children;
      |cs| > 0 && cs[|cs| - 1] == Subtree("file", Readings(s.files, x.fs))
  {
    var t2 := CtrlOn(s, x, t1);
    var t3 := RtnlOn(s, x, t2);
    PollAllAvoids(s.ctrl, x.atts, t1, "file");
    RtnlKeeps(s.netdevs, OpenAfter(s, x), x.links, x.addrs, t2);
    assert TFirstNamed(t3.children, "file").None? by {
      if |s.netdevs| > 0 && TFirstNamed(t2.children, "netdev").None? {
        assert t3.children == t2.children + [t3.children[|t2.children|]];
      } else {
        assert t3.children == t2.children;
      }
    }
    FileKeeps(s.files, x.fs, t3);
  }

  /** The cycle's own root meets what NetdevAfterCtrl and FileLast ask of the root
      after sysinfo: it has no "netdev" and no "file" node. */
  lemma CycleNames(s: Sources, x: CycleInput)
    requires Fits(s, x)
    ensures TFirstNamed(AfterSysinfo(s, x).children, "netdev").None?
    ensures TFirstNamed(AfterSysinfo(s, x).children, "file").None?
  {
    SysinfoStage(s, x);
  }

  /** Two values of a node with the same number of children, the same children
      from position k on, and before k children of the same names. */
  predicate AgreeFrom(t: Tree, u: Tree, k: nat) {
    |t.children| == |u.children| && k <= |t.children| && t.children[k..] == u.children[k..] &&
    forall j :: 0 <= j < k ==> t.children[j].name == u.children[j].name
  }

  /** Children whose names agree position by position have the same first child
      of any name. */
  lemma FirstNamedByNames(ts: seq<Tree>, us: seq<Tree>, name: string)
    requires |ts| == |us| && forall j :: 0 <= j < |ts| ==> ts[j].name == us[j].name
    ensures TFirstNamed(ts, name) == TFirstNamed(us, name)
  {
  }

  /** Grafting the same node keeps two agreeing values agreeing. */
  lemma GraftAgrees(t: Tree, u: Tree, k: nat, c: Tree)
    requires AgreeFrom(t, u, k)
    ensures AgreeFrom(TGraft(t, c), TGraft(u, c), k)
  {
    forall j | 0 <= j < |t.children| ensures t.children[j].name == u.children[j].name {
      if j >= k {
        assert t.children[k..][j - k] == u.children[k..][j - k];
      }
    }
    FirstNamedByNames(t.children, u.children, c.name);
    if TFirstNamed(t.children, c.name).None? {
      assert (t.children + [c])[k..] == t.children[k..] + [c];
      assert (u.children + [c])[k..] == u.children[k..] + [c];
    }
  }

  /** The CTRL clients' polls do the same to two agreeing values, and leave the
      clients the same whatever the parent holds. */
  lemma {:induction false} PollAllAgrees(cs: seq<ClientState>, atts: seq<Attempt>, t: Tree, u: Tree, k: nat)
    requires |atts| == |cs| && AgreeFrom(t, u, k)
    ensures PollAll(cs, atts, t).0 == PollAll(cs, atts, u).0
    ensures AgreeFrom(PollAll(cs, atts, t).1, PollAll(cs, atts, u).1, k)
  {
    if |cs| > 0 {
      var n := |cs| - 1;
      PollAllAgrees(cs[..n], atts[..n], t, u, k);
      PollAllLast(cs, atts, t);
      PollAllLast(cs, atts, u);
      var p := PollLink(cs[n].link, cs[n].vars, atts[n]);
      GraftAgrees(PollAll(cs[..n], atts[..n], t).1, PollAll(cs[..n], atts[..n], u).1, k, Subtree(cs[n].name, p.2));
    }
  }

  /** ctrl, rtnl and file do the same to two agreeing values of the root. */
  lemma RestAgrees(s: Sources, x: CycleInput, t: Tree, u: Tree, k: nat)
    requires Fits(s, x) && AgreeFrom(t, u, k)
    ensures AgreeFrom(RestOn(s, x, t), RestOn(s, x, u), k)
  {
    PollAllAgrees(s.ctrl, x.atts, t, u, k);
    var t2, u2 := CtrlOn(s, x, t), CtrlOn(s, x, u);
    var nd := if !OpenAfter(s, x) then Leaf("netdev", None)
      else Addrs(Links(s.netdevs, Leaf("netdev", None), x.links), x.addrs);
    if |s.netdevs| > 0 {
      GraftAgrees(t2, u2, k, nd);
    }
    if |s.files| > 0 {
      GraftAgrees(RtnlOn(s, x, t2), RtnlOn(s, x, u2), k, Subtree("file", Readings(s.files, x.fs)));
    }
  }

  /** However the sysinfo call turns out, the root after sysinfo has the same
      children from the "sysinfo" node on, and a "sysinfo" node either way. */
  lemma SysinfoAgrees(s: Sources, x: CycleInput, y: CycleInput)
    requires Fits(s, x) && Fits(s, y)
    ensures AgreeFrom(AfterSysinfo(s, x), AfterSysinfo(s, y), if s.sysinfo then 1 else 0)
  {
    SysinfoStage(s, x);
    SysinfoStage(s, y);
  }

  /** Source results are ignored: however the sysinfo call turns out, the CTRL
      clients, the netlink socket and every node after the "sysinfo" node come
      out of the cycle the same. */
  lemma FailuresIgnored(s: Sources, x: CycleInput, call: SysinfoCall)
    requires Fits(s, x) && GoodCall(call)
    ensures var y := x.(call := call);
      PollCycle(s, x).0 == PollCycle(s, y).0 &&
      AgreeFrom(PollCycle(s, x).1, PollCycle(s, y).1, if s.sysinfo then 1 else 0)
  {
    var y := x.(call := call);
    var t, u := AfterSysinfo(s, x), AfterSysinfo(s, y);
    var k := if s.sysinfo then 1 else 0;
    SysinfoAgrees(s, x, y);
    PollAllAgrees(s.ctrl, x.atts, t, u, k);
    RestAgrees(s, x, t, u, k);
    assert RestOn(s, y, u) == RestOn(s, x, u);
  }

  // ---------------------------------------------------------------------------
  // Several cycles, on values

  /** Inputs for n cycles that the sources can take, cycle after cycle: the number
      of CTRL clients never changes. */
  predicate AllFit(s: Sources, xs: seq<CycleInput>) {
    forall k :: 0 <= k < |xs| ==> Fits(s, xs[k])
  }

  /** Every cycle's report starts with the root's line. */
  lemma CycleReport(s: Sources, x: CycleInput)
    requires Fits(s, x)
    ensures |DisplayUpdate(PollCycle(s, x).1)| > 0 && DisplayUpdate(PollCycle(s, x).1)[0] == "root\n"
  {
    CycleOrder(s, x);
  }

  /** One turn of main's loop, on values: the sources afterwards and the report.
      Inputs that do not fit the sources change nothing and print nothing; main
      never meets them. */
  function Turn(s: Sources, x: CycleInput): (r: (Sources, seq<string>))
    ensures r.0.sysinfo == s.sysinfo && r.0.netdevs == s.netdevs && r.0.files == s.files
    ensures |r.0.ctrl| == |s.ctrl|
    ensures Fits(s, x) ==> |r.1| > 0 && r.1[0] == "root\n"
  {
    if Fits(s, x) then
      CycleReport(s, x);
      var c := PollCycle(s, x);
      (c.0, DisplayUpdate(c.1))
    else (s, [])
  }

  /** |xs| turns of a loop from the state s: the state afterwards and what each
      turn printed. */
  function Loop(turn: (Sources, CycleInput) -> (Sources, seq<string>), s: Sources, xs: seq<CycleInput>): (r: (Sources, seq<seq<string>>))
    ensures |r.1| == |xs|
    decreases |xs|
  {
    if |xs| == 0 then (s, [])
    else
      var n := |xs| - 1;
      var prev := Loop(turn, s, xs[..n]);
      var c := turn(prev.0, xs[n]);
      (c.0, prev.1 + [c.1])
  }

  /** What the first m turns print does not depend on the inputs of later turns. */
  lemma {:induction false} LoopPrefix(turn: (Sources, CycleInput) -> (Sources, seq<string>), s: Sources, xs: seq<CycleInput>, m: nat)
    requires m <= |xs|
    ensures Loop(turn, s, xs[..m]).1 == Loop(turn, s, xs).1[..m]
    decreases |xs|
  {
    if m < |xs| {
      var n := |xs| - 1;
      LoopPrefix(turn, s, xs[..n], m);
      assert xs[..n][..m] == xs[..m];
    } else {
      assert xs[..m] == xs;
    }
  }

  /** Turn k prints what turn says from the state the first k turns left. */
  lemma LoopAt(turn: (Sources, CycleInput) -> (Sources, seq<string>), s: Sources, xs: seq<CycleInput>, k: nat)
    requires k < |xs|
    ensures Loop(turn, s, xs).1[k] == turn(Loop(turn, s, xs[..k]).0, xs[k]).1
  {
    LoopPrefix(turn, s, xs, k + 1);
    assert xs[..k + 1][..k] == xs[..k];
  }

  /** A property of the state that every turn keeps holds after any number of turns. */
  lemma {:induction false} LoopKeeps(turn: (Sources, CycleInput) -> (Sources, seq<string>), inv: Sources -> bool, s: Sources, xs: seq<CycleInput>)
    requires inv(s) && forall a, x :: inv(a) ==> inv(turn(a, x).0)
    ensures inv(Loop(turn, s, xs).0)
    decreases |xs|
  {
    if |xs| > 0 {
      var prev := Loop(turn, s, xs[..|xs| - 1]);
      LoopKeeps(turn, inv, s, xs[..|xs| - 1]);
      assert Loop(turn, s, xs).0 == turn(prev.0, xs[|xs| - 1]).0;
    }
  }

  /** main's loop run for |xs| cycles: the sources afterwards and the report each
      cycle prints. */
  function Run(s: Sources, xs: seq<CycleInput>): (r: (Sources, seq<seq<string>>))
    requires AllFit(s, xs)
    ensures |r.1| == |xs|
  {
    Loop(Turn, s, xs)
  }

  /** The sources keep their configuration and their CTRL clients however many
      cycles run. */
  lemma RunKeeps(s: Sources, xs: seq<CycleInput>)
    ensures var r := Loop(Turn, s, xs).0;
      r.sysinfo == s.sysinfo && r.netdevs == s.netdevs && r.files == s.files && |r.ctrl| == |s.ctrl|
  {
    var same := (a: Sources) =>
      a.sysinfo == s.sysinfo && a.netdevs == s.netdevs && a.files == s.files && |a.ctrl| == |s.ctrl|;
    LoopKeeps(Turn, same, s, xs);
  }

  /** Every cycle prints a report that starts with the root's line, whatever its
      sources returned in it or in earlier cycles. */
  lemma RunReportsRoot(s: Sources, xs: seq<CycleInput>)
    requires AllFit(s, xs)
    ensures forall k :: 0 <= k < |xs| ==> |Run(s, xs).1[k]| > 0 && Run(s, xs).1[k][0] == "root\n"
  {
    forall k | 0 <= k < |xs| ensures |Run(s, xs).1[k]| > 0 && Run(s, xs).1[k][0] == "root\n" {
      LoopAt(Turn, s, xs, k);
      RunKeeps(s, xs[..k]);
      assert Fits(Loop(Turn, s, xs[..k]).0, xs[k]);
    }
  }

  // ---------------------------------------------------------------------------
  // The cycle on the heap

  /** The sources as the cycle sees them. */
  function Snapshot(sys: Sysinfo, ctrl: CtrlClients, rtnl: Rtnl, files: FileWatchers): Sources
    reads sys, ctrl, (set c | c in ctrl.clients), Conns(ctrl.clients), rtnl, files
  {
    Sources(sys.enabled, ctrl.States(), rtnl.netdevs, rtnl.open, files.files)
  }

  /** The body of main's loop: a detached "root", the four polls into it in their
      order, the report, and the root freed with everything below it. */
  method Cycle(t: ValueTree, sys: Sysinfo, ctrl: CtrlClients, rtnl: Rtnl, files: FileWatchers, x: CycleInput,
               ghost s0: Sources)
    returns (report: seq<string>)
    requires t.Valid() && ctrl.Valid() && rtnl.Valid()
    requires Snapshot(sys, ctrl, rtnl, files) == s0 && Fits(s0, x)
    requires forall c :: c in ctrl.clients ==> c.name != "netdev"
    modifies t, (set c | c in ctrl.clients), Conns(ctrl.clients), rtnl
    ensures t.Valid() && ctrl.Valid() && rtnl.Valid() && ctrl.clients == old(ctrl.clients)
    ensures Snapshot(sys, ctrl, rtnl, files) == PollCycle(s0, x).0
    ensures report == DisplayUpdate(PollCycle(s0, x).1)
    ensures old(t.next) !in t.nodes
  {
    NotAConn(ctrl.clients, t);
    var added := t.Add(None, "root", None);
    var root := added.value;
    PollSources(t, root, sys, ctrl, rtnl, files, x, s0);
    report := DisplayUpdate(t.ViewOf(root));
    Free(t, root, sys, ctrl, rtnl, files);
  }

  /** value_node_del of the root: the sources do not change. */
  method Free(t: ValueTree, root: NodeRef, sys: Sysinfo, ctrl: CtrlClients, rtnl: Rtnl, files: FileWatchers)
    requires t.Valid() && root in t.nodes && ctrl.Valid() && rtnl.Valid()
    modifies t
    ensures t.Valid() && t.next == old(t.next) && root !in t.nodes && ctrl.Valid() && rtnl.Valid()
    ensures Snapshot(sys, ctrl, rtnl, files) == old(Snapshot(sys, ctrl, rtnl, files))
  {
    NotAConn(ctrl.clients, t);
    t.Del(root);
  }

  /** The four polls of a cycle into the fresh root. */
  method PollSources(t: ValueTree, root: NodeRef, sys: Sysinfo, ctrl: CtrlClients, rtnl: Rtnl, files: FileWatchers,
                     x: CycleInput, ghost s0: Sources)
    requires t.Valid() && ctrl.Valid() && rtnl.Valid() && root in t.nodes && t.ViewOf(root) == Root()
    requires Snapshot(sys, ctrl, rtnl, files) == s0 && Fits(s0, x)
    requires forall c :: c in ctrl.clients ==> c.name != "netdev"
    modifies t, (set c | c in ctrl.clients), Conns(ctrl.clients), rtnl
    ensures t.Valid() && ctrl.Valid() && rtnl.Valid() && ctrl.clients == old(ctrl.clients) && root in t.nodes
    ensures Snapshot(sys, ctrl, rtnl, files) == PollCycle(s0, x).0 && t.ViewOf(root) == PollCycle(s0, x).1
  {
    assert NoClientNamed(s0.ctrl, "netdev") by {
      forall i | 0 <= i < |s0.ctrl| ensures s0.ctrl[i].name != "netdev" {
        assert ctrl.clients[i] in ctrl.clients;
      }
    }
    PollSysinfo(t, root, sys, ctrl, x, s0.sysinfo, s0.ctrl);
    PollCtrl(t, root, sys, ctrl, rtnl, files, x, s0);
    ghost var t2 := t.ViewOf(root);
    PollRest(t, root, sys, ctrl, rtnl, files, x, s0, t2);
  }

  /** sysinfo into the fresh root; the CTRL clients do not change. */
  method PollSysinfo(t: ValueTree, root: NodeRef, sys: Sysinfo, ctrl: CtrlClients, x: CycleInput,
                     ghost enabled: bool, ghost s0: seq<ClientState>)
    requires t.Valid() && ctrl.Valid() && root in t.nodes && t.ViewOf(root) == Root() && GoodCall(x.call)
    requires sys.enabled == enabled && ctrl.States() == s0
    modifies t
    ensures t.Valid() && ctrl.Valid() && root in t.nodes && ctrl.States() == s0
    ensures t.ViewOf(root) == SysinfoPoll(enabled, x.call, Root()).1
  {
    NotAConn(ctrl.clients, t);
    var _ := sys.Poll(t, root, x.call);
  }

  /** ctrl, into the root that sysinfo left: no "netdev" node when no CTRL client
      is named so; the other sources do not change. */
  method PollCtrl(t: ValueTree, root: NodeRef, sys: Sysinfo, ctrl: CtrlClients, rtnl: Rtnl, files: FileWatchers,
                  x: CycleInput, ghost s0: Sources)
    requires t.Valid() && ctrl.Valid() && root in t.nodes && Fits(s0, x)
    requires t.ViewOf(root) == AfterSysinfo(s0, x) && ctrl.States() == s0.ctrl && NoClientNamed(s0.ctrl, "netdev")
    requires sys.enabled == s0.sysinfo && rtnl.netdevs == s0.netdevs && rtnl.open == s0.open && files.files == s0.files
    modifies t, (set c | c in ctrl.clients), Conns(ctrl.clients)
    ensures t.Valid() && ctrl.Valid() && ctrl.clients == old(ctrl.clients) && root in t.nodes
    ensures (ctrl.States(), t.ViewOf(root)) == PollAll(s0.ctrl, x.atts, AfterSysinfo(s0, x))
    ensures TFirstNamed(t.ViewOf(root).children, "netdev").None?
    ensures sys.enabled == s0.sysinfo && rtnl.netdevs == s0.netdevs && rtnl.open == s0.open && files.files == s0.files
  {
    CycleNames(s0, x);
    PollAllAvoids(s0.ctrl, x.atts, AfterSysinfo(s0, x), "netdev");
    NotAConn(ctrl.clients, sys);
    NotAConn(ctrl.clients, rtnl);
    NotAConn(ctrl.clients, files);
    var _ := ctrl.PollAllClients(t, root, x.atts);
  }

  /** rtnl and file, into the root t2 that sysinfo and ctrl left; the CTRL clients
      do not change. */
  method PollRest(t: ValueTree, root: NodeRef, sys: Sysinfo, ctrl: CtrlClients, rtnl: Rtnl, files: FileWatchers,
                  x: CycleInput, ghost s: Sources, ghost t2: Tree)
    requires t.Valid() && ctrl.Valid() && rtnl.Valid() && root in t.nodes && t.ViewOf(root) == t2
    requires TFirstNamed(t2.children, "netdev").None?
    requires s.netdevs == rtnl.netdevs && s.open == rtnl.open && s.files == files.files
    modifies t, rtnl
    ensures t.Valid() && ctrl.Valid() && rtnl.Valid() && root in t.nodes
    ensures rtnl.netdevs == s.netdevs && rtnl.open == OpenAfter(s, x) && files.files == s.files
    ensures ctrl.States() == old(ctrl.States()) && sys.enabled == old(sys.enabled)
    ensures t.ViewOf(root) == FilePoll(s.files, x.fs, RtnlOn(s, x, t2))
  {
    NotAConn(ctrl.clients, t);
    NotAConn(ctrl.clients, rtnl);
    PollLast(t, root, rtnl, files, x, s, t2);
  }

  /** rtnl and file, into the root t2 that sysinfo and ctrl left. */
  method PollLast(t: ValueTree, root: NodeRef, rtnl: Rtnl, files: FileWatchers, x: CycleInput,
                  ghost s: Sources, ghost t2: Tree)
    requires t.Valid() && rtnl.Valid() && root in t.nodes && t.ViewOf(root) == t2
    requires TFirstNamed(t2.children, "netdev").None?
    requires s.netdevs == rtnl.netdevs && s.open == rtnl.open && s.files == files.files
    modifies t, rtnl
    ensures t.Valid() && rtnl.Valid() && root in t.nodes && rtnl.netdevs == s.netdevs
    ensures rtnl.open == OpenAfter(s, x)
    ensures t.ViewOf(root) == FilePoll(s.files, x.fs, RtnlOn(s, x, t2))
  {
    var _ := rtnl.Poll(t, root, x.initOk, x.links, x.addrs);
    var _ := files.Poll(t, root, x.fs);
  }
}
