/** The CTRL polling source: a registry of CTRL clients, each with the list of
    variables to GET, the configuration commands that fill it, and the poll that
    fetches every variable of every client into the value tree once per cycle,
    reconnecting lazily and dropping the connection on the first failure. */
module OsysmonCtrl {
  import opened CText
  import opened ValueNode
  import opened SimpleCtrl
  import opened PollTree
  import opened Registry

  /** The connect timeout of a reconnection made by a poll, in milliseconds. */
  const RECONNECT_TOUT: uint32 := 1000

  // ---------------------------------------------------------------------------
  // What a poll does, on values

  /** How the connection attempt a poll may make turns out, and the traffic the new
      connection then carries. */
  datatype Attempt = Attempt(outcome: ConnectOutcome, io: Io)

  /** An open connection: the traffic still to come on its socket, the id of its
      next request and its timeout. */
  datatype Link = Link(io: Io, nextId: uint32, tout: uint32)

  /** A client as a poll sees it: its name, its variables and its connection. */
  datatype ClientState = ClientState(name: string, vars: seq<CString>, link: Option<Link>)

  /** What a successful poll leaves of a link: the ids advanced by one per request. */
  function Advanced(l: Link, n: nat): (r: Link)
    ensures r.tout == l.tout
    ensures r.nextId as int == (l.nextId as int + n) % 0x1_0000_0000
  {
    if n == 0 then l
    else
      var m := Advanced(l, n - 1);
      m.(nextId := Inc(m.nextId))
  }

  /** One simple_ctrl_get on the connection l: the value, if any, and the connection
      afterwards, whose id has moved on by one. */
  function GetOn(l: Link, v: CString): (r: (Option<string>, Link))
    ensures r.0.Some? ==> Word(r.0.value)
    ensures r.1.nextId == Inc(l.nextId) && r.1.tout == l.tout
  {
    var g := GetSpec(l.io, Timed(l.tout), l.nextId, v);
    (g.0, Link(g.1, Inc(l.nextId), l.tout))
  }

  /** GET the variables one after the other on l, stopping at the first that fails,
      which loses the connection. The variables fetched, each with its value. */
  function Fetch(l: Link, vars: seq<CString>): (r: (Option<Link>, seq<(string, string)>))
    decreases |vars|
  {
    if |vars| == 0 then (Some(l), [])
    else
      var g := GetOn(l, vars[0]);
      if g.0.None? then (None, [])
      else
        var rest := Fetch(g.1, vars[1..]);
        (rest.0, [(vars[0], g.0.value)] + rest.1)
  }

  /** Fetch returns a prefix of the variables, the whole list exactly when the
      connection survives. */
  lemma {:induction false} FetchPrefix(l: Link, vars: seq<CString>)
    ensures var r := Fetch(l, vars);
      |r.1| <= |vars| && (r.0.Some? <==> |r.1| == |vars|) &&
      forall i :: 0 <= i < |r.1| ==> r.1[i].0 == vars[i]
    decreases |vars|
  {
    if |vars| > 0 {
      var g := GetOn(l, vars[0]);
      if g.0.Some? {
        var rest := Fetch(g.1, vars[1..]);
        FetchPrefix(g.1, vars[1..]);
        var ps := [(vars[0], g.0.value)] + rest.1;
        assert Fetch(l, vars) == (rest.0, ps);
        forall i | 0 <= i < |ps| ensures ps[i].0 == vars[i] {
          if i > 0 {
            assert ps[i] == rest.1[i - 1];
            assert vars[1..][i - 1] == vars[i];
          }
        }
      } else {
        assert Fetch(l, vars) == (None, []);
      }
    }
  }

  /** Every value Fetch returns is one word. */
  lemma {:induction false} FetchWords(l: Link, vars: seq<CString>)
    ensures forall i :: 0 <= i < |Fetch(l, vars).1| ==> Word(Fetch(l, vars).1[i].1)
    decreases |vars|
  {
    if |vars| > 0 {
      var g := GetOn(l, vars[0]);
      if g.0.Some? {
        var rest := Fetch(g.1, vars[1..]);
        FetchWords(g.1, vars[1..]);
        var ps := [(vars[0], g.0.value)] + rest.1;
        assert Fetch(l, vars) == (rest.0, ps);
        forall i | 0 <= i < |ps| ensures Word(ps[i].1) {
          if i > 0 {
            assert ps[i] == rest.1[i - 1];
          }
        }
      } else {
        assert Fetch(l, vars) == (None, []);
      }
    }
  }

  /** A connection that survives a Fetch has used one id per variable. */
  lemma {:induction false} FetchIds(l: Link, vars: seq<CString>)
    ensures var r := Fetch(l, vars);
      r.0.Some? ==> r.0.value.nextId == Advanced(l, |vars|).nextId && r.0.value.tout == l.tout
    decreases |vars|
  {
    if |vars| > 0 {
      var g := GetOn(l, vars[0]);
      if g.0.Some? {
        var rest := Fetch(g.1, vars[1..]);
        assert Fetch(l, vars).0 == rest.0;
        FetchIds(g.1, vars[1..]);
        assert g.1 == Link(g.1.io, Inc(l.nextId), l.tout);
        AdvancedStep(l, g.1.io, |vars| - 1);
      }
    }
  }

  /** Advancing after one request is advancing one further. */
  lemma {:induction false} AdvancedStep(l: Link, io: Io, n: nat)
    ensures Advanced(Link(io, Inc(l.nextId), l.tout), n).nextId == Advanced(l, n + 1).nextId
  {
  }

  /** ctrl_client_poll under a parent whose value is t: the result, the client
      afterwards and the parent's value afterwards. The client's node is added
      first; without a connection one is opened with a one-second timeout, and a
      failure there ends the poll with -1. */
  function PollClient(c: ClientState, a: Attempt, t: Tree): (r: (int, ClientState, Tree))
    ensures r.0 == -1 || r.0 == 0
    ensures r.1.name == c.name && r.1.vars == c.vars
    ensures r.0 == -1 <==> c.link.None? && a.outcome != Connected
    ensures r.0 == -1 ==> r.1.link.None? && r.2 == TGraft(t, Leaf(c.name, None))
  {
    var p := PollLink(c.link, c.vars, a);
    (p.0, c.(link := p.1), TGraft(t, Subtree(c.name, p.2)))
  }

  /** The part of ctrl_client_poll that concerns the connection: the result, the
      connection afterwards and the values fetched. */
  function PollLink(link: Option<Link>, vars: seq<CString>, a: Attempt): (r: (int, Option<Link>, seq<(string, string)>))
    ensures r.0 == -1 <==> link.None? && a.outcome != Connected
    ensures r.0 == -1 ==> r.1.None? && r.2 == []
    ensures r.0 != -1 ==> r.0 == 0
  {
    var l0 :=
      if link.Some? then link
      else if a.outcome == Connected then Some(Link(a.io, 0, RECONNECT_TOUT))
      else None;
    match l0
    case None => (-1, None, [])
    case Some(l) =>
      var f := Fetch(l, vars);
      (0, f.0, f.1)
  }

  /** osysmon_ctrl_poll: every client polled in list order under the same parent,
      whatever the others' results. The clients afterwards and the parent's value. */
  function PollAll(cs: seq<ClientState>, atts: seq<Attempt>, t: Tree): (r: (seq<ClientState>, Tree))
    requires |atts| == |cs|
    ensures |r.0| == |cs|
  {
    if |cs| == 0 then ([], t)
    else
      var n := |cs| - 1;
      var rest := PollAll(cs[..n], atts[..n], t);
      var last := PollClient(cs[n], atts[n], rest.1);
      (rest.0 + [last.1], last.2)
  }

  // ---------------------------------------------------------------------------
  // Properties of a poll

  /** With a connection that answers every GET, the values arrive in the order of
      the variables, one per variable. */
  lemma FetchAll(l: Link, vars: seq<CString>)
    requires Fetch(l, vars).0.Some?
    ensures |Fetch(l, vars).1| == |vars|
    ensures forall i :: 0 <= i < |vars| ==> Fetch(l, vars).1[i].0 == vars[i]
  {
    FetchPrefix(l, vars);
  }

  /** Each client ends up as its own poll leaves it, whatever is polled before it:
      the result of one client never stops the next. */
  lemma {:induction false} PollAllEach(cs: seq<ClientState>, atts: seq<Attempt>, t: Tree, i: nat)
    requires |atts| == |cs| && i < |cs|
    ensures PollAll(cs, atts, t).0[i] == cs[i].(link := PollLink(cs[i].link, cs[i].vars, atts[i]).1)
  {
    var n := |cs| - 1;
    var rest := PollAll(cs[..n], atts[..n], t);
    var last := PollClient(cs[n], atts[n], rest.1);
    assert PollAll(cs, atts, t).0 == rest.0 + [last.1];
    assert last.1 == cs[n].(link := PollLink(cs[n].link, cs[n].vars, atts[n]).1);
    if i < n {
      assert cs[..n][i] == cs[i] && atts[..n][i] == atts[i];
      PollAllEach(cs[..n], atts[..n], t, i);
    }
  }

  /** The parent keeps the children it had before the poll, in their order. */
  lemma {:induction false} PollAllKeeps(cs: seq<ClientState>, atts: seq<Attempt>, t: Tree)
    requires |atts| == |cs|
    ensures var u := PollAll(cs, atts, t).1;
      u.name == t.name && u.value == t.value && u.idx == t.idx &&
      |t.children| <= |u.children| && u.children[..|t.children|] == t.children
  {
    if |cs| > 0 {
      var n := |cs| - 1;
      PollAllKeeps(cs[..n], atts[..n], t);
    }
  }

  // ---------------------------------------------------------------------------
  // The clients

  /** struct ctrl_client: its configuration, the variables to GET and the handle of
      its connection, if one is open. */
  class CtrlClient {
    const name: string
    const host: string
    const port: uint16
    var getVars: seq<CString>
    var sch: CtrlHandle?

    /** ctrl_client_create's new record: no variables and no connection. */
    constructor (name: string, host: string, port: uint16)
      ensures this.name == name && this.host == host && this.port == port
      ensures getVars == [] && sch == null
    {
      this.name, this.host, this.port := name, host, port;
      getVars, sch := [], null;
    }

    /** The objects of the open connection. */
    function Conn(): set<object>
      reads this
    {
      if sch == null then {} else {sch, sch.sock}
    }

    /** The client as a poll sees it. */
    function State(): ClientState
      reads this, Conn()
    {
      ClientState(name, getVars, if sch == null then None else Some(LinkOf(sch)))
    }

    /** ctrl_client_get_var_find_or_create: the position of the variable named v,
        appended at the tail when there is none. */
    method FindOrCreateVar(v: CString) returns (k: nat)
      modifies this
      ensures sch == old(sch)
      ensures k < |getVars| && getVars[k] == v
      ensures v in old(getVars) ==> getVars == old(getVars) && forall j :: 0 <= j < k ==> getVars[j] != v
      ensures v !in old(getVars) ==> getVars == old(getVars) + [v] && k == |old(getVars)|
    {
      var i := 0;
      while i < |getVars|
        invariant 0 <= i <= |getVars|
        invariant forall j :: 0 <= j < i ==> getVars[j] != v
      {
        if getVars[i] == v {
          return i;
        }
        i := i + 1;
      }
      getVars := getVars + [v];
      k := i;
    }

    /** ctrl_client_poll under `parent`: the client's node first, then a connection
        if there is none, then one leaf per variable until a GET fails. The parent
        and the client change as PollClient says. */
    method Poll(t: ValueTree, parent: NodeRef, a: Attempt) returns (rc: int)
      requires t.Valid() && parent in t.nodes
      modifies this, t, Conn()
      ensures t.Valid() && parent in t.nodes && getVars == old(getVars)
      ensures (rc, State(), t.ViewOf(parent)) == PollClient(old(State()), a, old(t.ViewOf(parent)))
      ensures sch != null ==> sch == old(sch) || (fresh(sch) && fresh(sch.sock))
      ensures old(sch) != null && sch == null ==> old(sch).sock.closed
    {
      ghost var s0 := State();
      ghost var p0 := t.ViewOf(parent);
      var vn := AddSubtreeNode(t, parent, name, p0);
      Reconnect(a);
      if sch == null {
        PollRefused(s0, a, p0);
        assert State() == s0;
        assert t.ViewOf(parent) == TGraft(p0, Leaf(name, None));
        return -1;
      }
      ghost var l0 := LinkOf(sch);
      PollFetches(s0, a, p0, l0);
      ghost var f := Fetch(l0, getVars);
      rc := FetchVars(t, parent, vn, p0);
      assert getVars == s0.vars && name == s0.name;
      assert State() == ClientState(name, getVars, if sch == null then None else Some(LinkOf(sch)));
      assert (if sch == null then None else Some(LinkOf(sch))) == f.0;
      assert t.ViewOf(parent) == TGraft(p0, Subtree(name, f.1));
    }

    /** The start of ctrl_client_poll's connection handling: without a handle, open
        one with a one-second timeout. */
    method Reconnect(a: Attempt)
      modifies this
      ensures getVars == old(getVars)
      ensures old(sch) != null ==> sch == old(sch)
      ensures old(sch) == null ==>
        (sch != null <==> a.outcome == Connected) &&
        (sch != null ==> fresh(sch) && fresh(sch.sock) && LinkOf(sch) == Link(a.io, 0, RECONNECT_TOUT))
    {
      if sch == null {
        var h, _ := Open(a.outcome, RECONNECT_TOUT, a.io);
        sch := h;
      }
    }

    /** The variable loop of ctrl_client_poll: GET each variable in turn and add its
        value under the client's node vn (a detached node when vn is none); the first
        failure closes and drops the connection. */
    method FetchVars(t: ValueTree, parent: NodeRef, vn: Option<NodeRef>, ghost p0: Tree) returns (rc: int)
      requires sch != null && t.Valid() && parent in t.nodes
      requires vn.Some? ==>
        ParentShows(t.nodes, t.next, parent, vn.value, p0, Subtree(name, [])) &&
        TFirstNamed(p0.children, name).None?
      requires vn.None? ==> t.ViewOf(parent) == p0 && TFirstNamed(p0.children, name).Some?
      modifies this, t, sch, sch.sock
      ensures rc == 0 && t.Valid() && parent in t.nodes && getVars == old(getVars)
      ensures var f := Fetch(old(LinkOf(sch)), getVars);
        (sch == null <==> f.0.None?) && (sch != null ==> sch == old(sch) && LinkOf(sch) == f.0.value) &&
        t.ViewOf(parent) == TGraft(p0, Subtree(name, f.1))
      ensures sch == null ==> old(sch).sock.closed
    {
      ghost var l0 := LinkOf(sch);
      ghost var ps: seq<(string, string)> := [];
      assert getVars[0..] == getVars;
      assert [] + Fetch(l0, getVars).1 == Fetch(l0, getVars).1;
      var i := 0;
      while i < |getVars|
        invariant 0 <= i <= |getVars| && sch == old(sch) && getVars == old(getVars)
        invariant Fetch(l0, getVars).0 == Fetch(LinkOf(sch), getVars[i..]).0
        invariant Fetch(l0, getVars).1 == ps + Fetch(LinkOf(sch), getVars[i..]).1
        invariant t.Valid() && parent in t.nodes
        invariant vn.Some? ==> ParentShows(t.nodes, t.next, parent, vn.value, p0, Subtree(name, ps))
        invariant vn.None? ==> t.ViewOf(parent) == p0
      {
        var more;
        more, ps := FetchOne(t, parent, vn, p0, l0, ps, i);
        if !more {
          return 0;
        }
        i := i + 1;
      }
      assert getVars[i..] == [];
      assert Fetch(LinkOf(sch), getVars[i..]) == (Some(LinkOf(sch)), []);
      assert ps + [] == ps;
      assert Fetch(l0, getVars) == (Some(LinkOf(sch)), ps);
      GraftShows(p0, name, ps);
      assert t.ViewOf(parent) == TGraft(p0, Subtree(name, ps));
      rc := 0;
    }

    /** One turn of the variable loop of ctrl_client_poll: GET the i-th variable
        and add its value, or close and drop the connection when the GET fails. */
    method FetchOne(t: ValueTree, parent: NodeRef, vn: Option<NodeRef>, ghost p0: Tree, ghost l0: Link,
                    ghost ps: seq<(string, string)>, i: nat) returns (more: bool, ghost ps': seq<(string, string)>)
      requires sch != null && i < |getVars| && t.Valid() && parent in t.nodes
      requires Fetch(l0, getVars).0 == Fetch(LinkOf(sch), getVars[i..]).0
      requires Fetch(l0, getVars).1 == ps + Fetch(LinkOf(sch), getVars[i..]).1
      requires vn.Some? ==>
        ParentShows(t.nodes, t.next, parent, vn.value, p0, Subtree(name, ps)) && TFirstNamed(p0.children, name).None?
      requires vn.None? ==> t.ViewOf(parent) == p0 && TFirstNamed(p0.children, name).Some?
      modifies this, t, sch, sch.sock
      ensures t.Valid() && parent in t.nodes && getVars == old(getVars)
      ensures more ==> (sch == old(sch) &&
        Fetch(l0, getVars).0 == Fetch(LinkOf(sch), getVars[i + 1..]).0 &&
        Fetch(l0, getVars).1 == ps' + Fetch(LinkOf(sch), getVars[i + 1..]).1 &&
        (vn.Some? ==> ParentShows(t.nodes, t.next, parent, vn.value, p0, Subtree(name, ps'))) &&
        (vn.None? ==> t.ViewOf(parent) == p0))
      ensures !more ==> (sch == null && old(sch).sock.closed &&
        Fetch(l0, getVars) == (None, ps) && t.ViewOf(parent) == TGraft(p0, Subtree(name, ps)))
    {
      ghost var lcur := LinkOf(sch);
      var value := GetVar(i);
      FetchAdvance(l0, getVars, i, ps, lcur, value, LinkOf(sch));
      if value.None? {
        Disconnect();
        GraftShows(p0, name, ps);
        return false, ps;
      }
      AddSubtreeLeaf(t, parent, vn, p0, name, ps, getVars[i], value.value);
      more, ps' := true, ps + [(getVars[i], value.value)];
    }

    /** The failed GET's end of the connection: the socket closed, the handle gone. */
    method Disconnect()
      requires sch != null
      modifies this, sch.sock
      ensures sch == null && old(sch).sock.closed && getVars == old(getVars)
    {
      sch.Close();
      sch := null;
    }

    /** The GET of the i-th variable over the open connection. */
    method GetVar(i: nat) returns (value: Option<string>)
      requires sch != null && i < |getVars|
      modifies sch, sch.sock
      ensures (value, LinkOf(sch)) == GetOn(old(LinkOf(sch)), getVars[i])
      ensures sch.sock.closed == old(sch.sock.closed)
    {
      ghost var lcur := LinkOf(sch);
      value := sch.Get(getVars[i]);
      assert GetOn(lcur, getVars[i]) == (value, LinkOf(sch));
    }
  }

  /** The variable loop's invariant after one more GET: a failure ends the fetch
      with the values so far, a success moves one variable on. */
  lemma FetchAdvance(l0: Link, vars: seq<CString>, i: nat, ps: seq<(string, string)>,
                     lcur: Link, value: Option<string>, lnext: Link)
    requires i < |vars|
    requires Fetch(l0, vars).0 == Fetch(lcur, vars[i..]).0
    requires Fetch(l0, vars).1 == ps + Fetch(lcur, vars[i..]).1
    requires GetOn(lcur, vars[i]) == (value, lnext)
    ensures value.None? ==> Fetch(l0, vars) == (None, ps)
    ensures value.Some? ==>
      Fetch(l0, vars).0 == Fetch(lnext, vars[i + 1..]).0 &&
      Fetch(l0, vars).1 == (ps + [(vars[i], value.value)]) + Fetch(lnext, vars[i + 1..]).1
  {
    FetchStep(lcur, vars[i..]);
    assert vars[i..][1..] == vars[i + 1..];
    if value.None? {
      assert ps + [] == ps;
    } else {
      var rest := Fetch(lnext, vars[i + 1..]);
      assert ps + ([(vars[i], value.value)] + rest.1) == (ps + [(vars[i], value.value)]) + rest.1;
    }
  }

  /** A poll that cannot connect leaves the client without a connection and adds
      only the client's empty node. */
  lemma PollRefused(c: ClientState, a: Attempt, t: Tree)
    requires c.link.None? && a.outcome != Connected
    ensures PollClient(c, a, t) == (-1, c, TGraft(t, Leaf(c.name, None)))
  {
  }

  /** A poll with a connection l, kept or newly opened, fetches the client's
      variables on l. */
  lemma PollFetches(c: ClientState, a: Attempt, t: Tree, l: Link)
    requires c.link.Some? ==> l == c.link.value
    requires c.link.None? ==> a.outcome == Connected && l == Link(a.io, 0, RECONNECT_TOUT)
    ensures var f := Fetch(l, c.vars);
      PollClient(c, a, t) == (0, c.(link := f.0), TGraft(t, Subtree(c.name, f.1)))
  {
  }

  /** One step of Fetch. */
  lemma FetchStep(l: Link, vars: seq<CString>)
    requires |vars| > 0
    ensures var g := GetOn(l, vars[0]);
      Fetch(l, vars) ==
        if g.0.None? then (None, [])
        else (Fetch(g.1, vars[1..]).0, [(vars[0], g.0.value)] + Fetch(g.1, vars[1..]).1)
  {
  }

  /** The link an open handle stands for. */
  function LinkOf(h: CtrlHandle): Link
    reads h, h.sock
  {
    Link(h.sock.io, h.nextId, h.toutMsec)
  }

  // ---------------------------------------------------------------------------
  // The configuration shell's position

  /** The configuration nodes of the shell this module takes part in: CONFIG_NODE,
      the nodes enum osysmon_vty_node adds after the library's own, and any other
      node of the library, by its number. */
  datatype VtyNode = ConfigNode | CtrlClientNode | CtrlClientGetvarNode | NetdevNode | PingNode | LibraryNode(code: int)

  /** What vty->index points to: nothing, a CTRL client, or one variable of a
      client (a ctrl_client_get_var, reached through its back-link). */
  datatype VtyIndex = NoIndex | ClientIndex(cc: CtrlClient) | GetVarIndex(owner: CtrlClient, varName: CString)

  /** The part of struct vty the configuration commands change. */
  datatype Vty = Vty(node: VtyNode, index: VtyIndex)

  /** osysmon_ctrl_go_parent: from a variable to the client that owns it, from a
      client to the configuration level with no index; any other node stays. At a
      variable node the index is a variable, which the code dereferences. */
  function GoParent(v: Vty): (r: Vty)
    requires v.node == CtrlClientGetvarNode ==> v.index.GetVarIndex?
    ensures v.node == CtrlClientGetvarNode ==> r == Vty(CtrlClientNode, ClientIndex(v.index.owner))
    ensures v.node == CtrlClientNode ==> r == Vty(ConfigNode, NoIndex)
    ensures v.node != CtrlClientGetvarNode && v.node != CtrlClientNode ==> r == v
  {
    match v.node
    case CtrlClientNode => Vty(ConfigNode, NoIndex)
    case CtrlClientGetvarNode => Vty(CtrlClientNode, ClientIndex(v.index.owner))
    case _ => v
  }

  /** The "get-variable NAME" command, given inside a client: find or create the
      variable and enter it. */
  method CfgGetVar(v: Vty, name: CString) returns (res: CmdResult, v': Vty)
    requires v.node == CtrlClientNode && v.index.ClientIndex?
    modifies v.index.cc
    ensures res == CmdSuccess && v' == Vty(CtrlClientGetvarNode, GetVarIndex(v.index.cc, name))
    ensures v.index.cc.sch == old(v.index.cc.sch) && name in v.index.cc.getVars
    ensures name in old(v.index.cc.getVars) ==> v.index.cc.getVars == old(v.index.cc.getVars)
    ensures name !in old(v.index.cc.getVars) ==> v.index.cc.getVars == old(v.index.cc.getVars) + [name]
  {
    var _ := v.index.cc.FindOrCreateVar(name);
    res, v' := CmdSuccess, Vty(CtrlClientGetvarNode, GetVarIndex(v.index.cc, name));
  }

  /** Leaving the node a "get-variable" command entered goes back to the client it
      was given in, and leaving that goes back to the configuration level. */
  lemma GetVarThenUp(cc: CtrlClient, name: CString)
    ensures GoParent(Vty(CtrlClientGetvarNode, GetVarIndex(cc, name))) == Vty(CtrlClientNode, ClientIndex(cc))
    ensures GoParent(GoParent(Vty(CtrlClientGetvarNode, GetVarIndex(cc, name)))) == Vty(ConfigNode, NoIndex)
  {
  }

  // ---------------------------------------------------------------------------
  // The registry of clients: osysmon_state's ctrl_clients list

  /** The connection objects of the clients cs. */
  function Conns(cs: seq<CtrlClient>): set<object>
    reads set c | c in cs
  {
    (set c, o | c in cs && o in c.Conn() :: o)
  }

  /** The k-th client's connection objects are among the clients' ones. */
  lemma ConnsHas(cs: seq<CtrlClient>, k: nat)
    requires k < |cs|
    ensures cs[k].Conn() <= Conns(cs)
  {
    forall o | o in cs[k].Conn() ensures o in Conns(cs) {
      assert cs[k] in cs;
    }
  }

  /** Only handles and their sockets are connection objects. */
  lemma NotAConn(cs: seq<CtrlClient>, o: object)
    requires !(o is CtrlHandle) && !(o is Socket)
    ensures o !in Conns(cs)
  {
  }

  /** Pairwise distinct clients with distinct names, none sharing a connection. */
  ghost predicate Distinct(cs: seq<CtrlClient>)
    reads set c | c in cs
  {
    (forall i, j :: 0 <= i < j < |cs| ==> cs[i] != cs[j] && cs[i].name != cs[j].name) &&
    (forall i, j :: 0 <= i < |cs| && 0 <= j < |cs| && i != j && cs[i].sch != null && cs[j].sch != null ==>
       cs[i].sch != cs[j].sch && cs[i].sch.sock != cs[j].sch.sock)
  }

  /** The position of the client named `name` in cs, if any. */
  function ClientIndexOf(cs: seq<CtrlClient>, name: string): (r: Option<nat>)
    reads set c | c in cs
    ensures r.Some? ==> r.value < |cs| && cs[r.value].name == name
    ensures r.Some? ==> forall j :: 0 <= j < r.value ==> cs[j].name != name
    ensures r.None? <==> forall j :: 0 <= j < |cs| ==> cs[j].name != name
  {
    IndexOfKey(cs, ClientName, name)
  }

  /** The key ctrl_client_find compares: the client's configured name. */
  function ClientName(c: CtrlClient): string {
    c.name
  }

  /** What a configuration command reports. */
  datatype CmdResult = CmdSuccess | CmdWarning

  class CtrlClients {
    var clients: seq<CtrlClient>

    ghost predicate Valid()
      reads this, set c | c in clients
    {
      Distinct(clients)
    }

    /** The empty list INIT_LLIST_HEAD makes at start-up. */
    constructor ()
      ensures Valid() && clients == []
    {
      clients := [];
    }

    /** The clients as a poll sees them, in list order. */
    function States(): (r: seq<ClientState>)
      reads this, (set c | c in clients), Conns(clients)
      ensures |r| == |clients|
    {
      seq(|clients|, i reads this, (set c | c in clients), Conns(clients) requires 0 <= i < |clients| =>
        StateIn(clients, i))
    }

    /** ctrl_client_find: the first client named `name`. */
    method Find(name: string) returns (r: Option<nat>)
      ensures r == ClientIndexOf(clients, name)
    {
      var i := 0;
      while i < |clients|
        invariant 0 <= i <= |clients|
        invariant forall j :: 0 <= j < i ==> clients[j].name != name
      {
        if clients[i].name == name {
          ClientIndexOfFirst(clients, i, name);
          return Some(i);
        }
        i := i + 1;
      }
      return None;
    }

    /** ctrl_client_create: none when a client of that name exists, otherwise a new
        client without variables or connection, appended at the tail. */
    method Create(name: string, host: string, port: uint16) returns (cc: CtrlClient?)
      requires Valid()
      modifies this
      ensures Valid()
      ensures ClientIndexOf(old(clients), name).Some? ==> cc == null && clients == old(clients)
      ensures ClientIndexOf(old(clients), name).None? ==>
        cc != null && fresh(cc) && clients == old(clients) + [cc] &&
        cc.name == name && cc.host == host && cc.port == port && cc.getVars == [] && cc.sch == null
    {
      var found := Find(name);
      if found.Some? {
        return null;
      }
      cc := new CtrlClient(name, host, port);
      clients := clients + [cc];
    }

    /** ctrl_client_destroy: unlink the client at position k from the list. */
    method Destroy(k: nat)
      requires Valid() && k < |clients|
      modifies this
      ensures Valid()
      ensures clients == old(clients[..k] + clients[k + 1..])
    {
      clients := clients[..k] + clients[k + 1..];
    }

    /** The "ctrl-client NAME HOST PORT" command: enter the client of that name,
        creating it when there is none; a client of that name with another host or
        port is refused with a warning and left as it is. `port` is atoi of the
        port argument. */
    method CfgCtrlClient(v: Vty, name: string, host: string, port: int) returns (res: CmdResult, v': Vty)
      requires Valid()
      modifies this
      ensures Valid()
      ensures var k := ClientIndexOf(old(clients), name);
        k.Some? && (old(clients)[k.value].host != host || old(clients)[k.value].port as int != port) ==>
          res == CmdWarning && v' == v && clients == old(clients)
      ensures var k := ClientIndexOf(old(clients), name);
        k.Some? && old(clients)[k.value].host == host && old(clients)[k.value].port as int == port ==>
          res == CmdSuccess && v' == Vty(CtrlClientNode, ClientIndex(old(clients)[k.value])) &&
          clients == old(clients)
      ensures ClientIndexOf(old(clients), name).None? ==>
        res == CmdSuccess && |clients| == |old(clients)| + 1 && clients[..|old(clients)|] == old(clients) &&
        var cc := clients[|old(clients)|];
        fresh(cc) && cc.name == name && cc.host == host && cc.port == ToUint16(port) &&
        cc.getVars == [] && cc.sch == null && v' == Vty(CtrlClientNode, ClientIndex(cc))
    {
      var k := Find(name);
      var cc: CtrlClient;
      if k.Some? {
        cc := clients[k.value];
        if cc.host != host || cc.port as int != port {
          return CmdWarning, v;
        }
      } else {
        var made := Create(name, host, ToUint16(port));
        cc := made;
      }
      res, v' := CmdSuccess, Vty(CtrlClientNode, ClientIndex(cc));
    }

    /** The "no ctrl-client NAME" command: remove the client of that name, or warn
        and change nothing when there is none. */
    method CfgNoCtrlClient(name: string) returns (res: CmdResult)
      requires Valid()
      modifies this
      ensures Valid()
      ensures var k := ClientIndexOf(old(clients), name);
        (k.None? ==> res == CmdWarning && clients == old(clients)) &&
        (k.Some? ==> res == CmdSuccess && clients == old(clients[..k.value] + clients[k.value + 1..]))
    {
      var k := Find(name);
      if k.None? {
        return CmdWarning;
      }
      Destroy(k.value);
      res := CmdSuccess;
    }

    /** osysmon_ctrl_poll: poll every client in list order under `parent`, ignoring
        what each poll returns; the i-th client's connection attempt, if it makes
        one, turns out as atts[i] says. The clients and the parent end up as PollAll
        says, and the result is always 0. */
    method PollAllClients(t: ValueTree, parent: NodeRef, atts: seq<Attempt>) returns (rc: int)
      requires Valid() && t.Valid() && parent in t.nodes && |atts| == |clients|
      modifies t, (set c | c in clients), Conns(clients)
      ensures Valid() && clients == old(clients) && t.Valid() && parent in t.nodes
      ensures rc == 0
      ensures (States(), t.ViewOf(parent)) == PollAll(old(States()), atts, old(t.ViewOf(parent)))
    {
      ghost var s0 := States();
      ghost var p0 := t.ViewOf(parent);
      ghost var conns := Conns(clients);
      NotAConn(clients, this);
      NotAConn(clients, t);
      ghost var schs := seq(|clients|, j reads this, (set c | c in clients) requires 0 <= j < |clients| => clients[j].sch);
      forall j | 0 <= j < |clients| ensures clients[j].Conn() <= conns {
        ConnsHas(clients, j);
      }
      var i := 0;
      assert s0[..0] == [] && atts[..0] == [];
      while i < |clients|
        invariant 0 <= i <= |clients| && Valid() && t.Valid() && parent in t.nodes
        invariant forall j :: i <= j < |clients| ==> clients[j].sch == schs[j]
        invariant forall j :: 0 <= j < |clients| && clients[j].sch != null ==>
          clients[j].sch == old(clients[j].sch) || (fresh(clients[j].sch) && fresh(clients[j].sch.sock))
        invariant Progress(t, parent, i, s0, atts, p0)
      {
        var cc := clients[i];
        assert cc.Conn() <= conns;
        var _ := PollStep(t, parent, i, s0, atts, p0);
        i := i + 1;
      }
      ProgressDone(t, parent, s0, atts, p0);
      rc := 0;
    }

    /** After the last client the loop has computed PollAll of all of them. */
    ghost method ProgressDone(t: ValueTree, parent: NodeRef, s0: seq<ClientState>, atts: seq<Attempt>, p0: Tree)
      requires Valid() && Progress(t, parent, |clients|, s0, atts, p0)
      ensures (States(), t.ViewOf(parent)) == PollAll(s0, atts, p0)
    {
      assert s0[..|clients|] == s0 && atts[..|clients|] == atts;
      ghost var fin := PollAll(s0, atts, p0);
      forall j | 0 <= j < |clients| ensures States()[j] == fin.0[j] {
      }
      assert States() == fin.0;
    }

    /** The loop of osysmon_ctrl_poll after i clients: the parent and the first i
        clients as PollAll of them says, the rest as they were (s0). */
    ghost predicate Progress(t: ValueTree, parent: NodeRef, i: nat, s0: seq<ClientState>, atts: seq<Attempt>, p0: Tree)
      reads this, t, (set c | c in clients), Conns(clients)
    {
      t.Valid() && parent in t.nodes && i <= |clients| == |s0| == |atts| &&
      var cur := PollAll(s0[..i], atts[..i], p0);
      t.ViewOf(parent) == cur.1 &&
      (forall j :: 0 <= j < i ==> StateIn(clients, j) == cur.0[j]) &&
      (forall j :: i <= j < |clients| ==> StateIn(clients, j) == s0[j])
    }

    /** One turn of the loop of osysmon_ctrl_poll, seen against PollAll. */
    method PollStep(t: ValueTree, parent: NodeRef, i: nat,
                    ghost s0: seq<ClientState>, atts: seq<Attempt>, ghost p0: Tree) returns (rc: int)
      requires Valid() && i < |clients| && Progress(t, parent, i, s0, atts, p0)
      modifies t, clients[i], clients[i].Conn()
      ensures Valid() && t.Valid() && parent in t.nodes && clients == old(clients)
      ensures forall j :: 0 <= j < |clients| && j != i ==> clients[j].sch == old(clients[j].sch)
      ensures clients[i].sch != null ==>
        clients[i].sch == old(clients[i].sch) || (fresh(clients[i].sch) && fresh(clients[i].sch.sock))
      ensures Progress(t, parent, i + 1, s0, atts, p0)
    {
      ghost var cur := PollAll(s0[..i], atts[..i], p0);
      StatesIn(clients);
      rc := PollOne(t, parent, i, atts[i]);
      PollAllStep(s0, atts, p0, i);
      StatesIn(clients);
    }

    /** One step of osysmon_ctrl_poll: ctrl_client_poll of the i-th client, which
        leaves every other client as it was. */
    method PollOne(t: ValueTree, parent: NodeRef, i: nat, a: Attempt) returns (rc: int)
      requires Valid() && t.Valid() && parent in t.nodes && i < |clients|
      modifies t, clients[i], clients[i].Conn()
      ensures Valid() && t.Valid() && parent in t.nodes && clients == old(clients)
      ensures forall j :: 0 <= j < |clients| && j != i ==>
        clients[j].sch == old(clients[j].sch) && clients[j].State() == old(clients[j].State())
      ensures clients[i].sch != null ==>
        clients[i].sch == old(clients[i].sch) || (fresh(clients[i].sch) && fresh(clients[i].sch.sock))
      ensures (rc, clients[i].State(), t.ViewOf(parent)) == PollClient(old(clients[i].State()), a, old(t.ViewOf(parent)))
    {
      var cc := clients[i];
      rc := PollAmong(cc, t, parent, a, clients, i);
    }
  }

  /** ctrl_client_poll of cc, the i-th of the clients cs, which leaves the other
      clients and their connections alone and keeps the clients Distinct. */
  method PollAmong(cc: CtrlClient, t: ValueTree, parent: NodeRef, a: Attempt,
                   ghost cs: seq<CtrlClient>, ghost i: nat) returns (rc: int)
    requires t.Valid() && parent in t.nodes
    requires i < |cs| && cs[i] == cc && Distinct(cs)
    modifies cc, t, cc.Conn()
    ensures t.Valid() && parent in t.nodes && Distinct(cs)
    ensures (rc, cc.State(), t.ViewOf(parent)) == PollClient(old(cc.State()), a, old(t.ViewOf(parent)))
    ensures cc.sch != null ==> cc.sch == old(cc.sch) || (fresh(cc.sch) && fresh(cc.sch.sock))
    ensures forall j :: 0 <= j < |cs| && j != i ==> cs[j].sch == old(cs[j].sch) && cs[j].State() == old(cs[j].State())
  {
    ghost var schs := Handles(cs);
    ghost var others := OthersOf(cs, i);
    OthersApart(cs, i);
    DistinctParts(cs);
    rc := PollApart(cc, t, parent, a, others);
    forall j | 0 <= j < |cs| && j != i ensures cs[j].sch == schs[j] && cs[j].State() == old(cs[j].State()) {
      assert cs[j] in others && old(cs[j].Conn()) <= others;
    }
    if cc.sch != null && cc.sch != schs[i] {
      forall j | 0 <= j < |cs| && j != i && schs[j] != null ensures cc.sch != schs[j] && cc.sch.sock != schs[j].sock {
        assert old(allocated(schs[j])) && old(allocated(schs[j].sock));
      }
    }
    DistinctAgain(cs, i, schs);
  }

  /** Distinct, stated on the clients and on their handles as values. */
  lemma DistinctParts(cs: seq<CtrlClient>)
    requires Distinct(cs)
    ensures forall x, y :: 0 <= x < y < |cs| ==> cs[x] != cs[y] && cs[x].name != cs[y].name
    ensures var schs := Handles(cs);
      forall x, y :: 0 <= x < |cs| && 0 <= y < |cs| && x != y && schs[x] != null && schs[y] != null ==>
        schs[x] != schs[y] && schs[x].sock != schs[y].sock
  {
  }

  /** The clients are still Distinct when only the i-th one's handle changed, and
      changed to one no other client has. */
  lemma DistinctAgain(cs: seq<CtrlClient>, i: nat, schs: seq<CtrlHandle?>)
    requires i < |cs| == |schs|
    requires forall x, y :: 0 <= x < y < |cs| ==> cs[x] != cs[y] && cs[x].name != cs[y].name
    requires forall x, y :: 0 <= x < |cs| && 0 <= y < |cs| && x != y && schs[x] != null && schs[y] != null ==>
      schs[x] != schs[y] && schs[x].sock != schs[y].sock
    requires forall j :: 0 <= j < |cs| && j != i ==> cs[j].sch == schs[j]
    requires cs[i].sch != null && cs[i].sch != schs[i] ==>
      forall j :: 0 <= j < |cs| && j != i && schs[j] != null ==> cs[i].sch != schs[j] && cs[i].sch.sock != schs[j].sock
    ensures Distinct(cs)
  {
  }

  /** ctrl_client_poll of cc, which leaves the objects `others` alone when they are
      neither cc, the tree nor cc's connection. */
  method PollApart(cc: CtrlClient, t: ValueTree, parent: NodeRef, a: Attempt, ghost others: set<object>) returns (rc: int)
    requires t.Valid() && parent in t.nodes
    requires cc !in others && t !in others && cc.Conn() !! others
    modifies cc, t, cc.Conn()
    ensures t.Valid() && parent in t.nodes && cc.getVars == old(cc.getVars)
    ensures (rc, cc.State(), t.ViewOf(parent)) == PollClient(old(cc.State()), a, old(t.ViewOf(parent)))
    ensures cc.sch != null ==> cc.sch == old(cc.sch) || (fresh(cc.sch) && fresh(cc.sch.sock))
    ensures unchanged(others)
  {
    rc := cc.Poll(t, parent, a);
  }

  /** The clients of cs other than the i-th, and their connections. */
  function OthersOf(cs: seq<CtrlClient>, i: nat): set<object>
    reads set c | c in cs
  {
    (set j | 0 <= j < |cs| && j != i :: cs[j] as object) +
    (set j, o | 0 <= j < |cs| && j != i && o in cs[j].Conn() :: o)
  }

  /** Distinct clients share nothing with the i-th one. */
  lemma OthersApart(cs: seq<CtrlClient>, i: nat)
    requires i < |cs| && Distinct(cs)
    ensures cs[i] !in OthersOf(cs, i) && cs[i].Conn() !! OthersOf(cs, i)
    ensures forall j :: 0 <= j < |cs| && j != i ==> cs[j] in OthersOf(cs, i) && cs[j].Conn() <= OthersOf(cs, i)
  {
    var others := OthersOf(cs, i);
    forall o | o in others ensures o != cs[i] && o !in cs[i].Conn() {
      if j :| 0 <= j < |cs| && j != i && o == cs[j] {
        OtherClient(cs, i, j);
      } else {
        var j, o' :| 0 <= j < |cs| && j != i && o' in cs[j].Conn() && o == o';
        OtherClient(cs, i, j);
      }
    }
  }

  /** The connection handles of the clients cs, position by position. */
  function Handles(cs: seq<CtrlClient>): (r: seq<CtrlHandle?>)
    reads set c | c in cs
    ensures |r| == |cs| && forall j :: 0 <= j < |cs| ==> r[j] == cs[j].sch
  {
    if |cs| == 0 then [] else [cs[0].sch] + Handles(cs[1..])
  }

  /** What Distinct says of two different positions. */
  lemma OtherClient(cs: seq<CtrlClient>, x: nat, y: nat)
    requires Distinct(cs) && x < |cs| && y < |cs| && x != y
    ensures cs[x] != cs[y] && cs[x].name != cs[y].name
    ensures cs[x].sch != null && cs[y].sch != null ==> cs[x].sch != cs[y].sch && cs[x].sch.sock != cs[y].sch.sock
  {
    if y < x {
      assert cs[y] != cs[x] && cs[y].name != cs[x].name;
    }
  }

  /** The clients one more poll has gone through. */
  lemma PollAllStep(cs: seq<ClientState>, atts: seq<Attempt>, t: Tree, i: nat)
    requires i < |cs| == |atts|
    ensures var cur := PollAll(cs[..i], atts[..i], t);
      var last := PollClient(cs[i], atts[i], cur.1);
      PollAll(cs[..i + 1], atts[..i + 1], t) == (cur.0 + [last.1], last.2)
  {
    assert cs[..i + 1][..i] == cs[..i] && atts[..i + 1][..i] == atts[..i];
  }

  /** StateIn is each client's own State. */
  lemma StatesIn(cs: seq<CtrlClient>)
    ensures forall k :: 0 <= k < |cs| ==> StateIn(cs, k) == cs[k].State()
  {
  }

  /** The state of the k-th of the clients cs. */
  function StateIn(cs: seq<CtrlClient>, k: nat): ClientState
    reads (set c | c in cs), Conns(cs)
    requires k < |cs|
  {
    assert cs[k].Conn() <= Conns(cs);
    cs[k].State()
  }

  /** The first client named `name` is the one ClientIndexOf finds. */
  lemma ClientIndexOfFirst(cs: seq<CtrlClient>, i: nat, name: string)
    requires i < |cs| && cs[i].name == name
    requires forall j :: 0 <= j < i ==> cs[j].name != name
    ensures ClientIndexOf(cs, name) == Some(i)
  {
    IndexOfKeyAt(cs, ClientName, name, i);
  }
}
