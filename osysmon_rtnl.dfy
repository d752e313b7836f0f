/** The network-device source: a list of configured interface names, and a poll
    that dumps the kernel's links and IPv4 addresses over rtnetlink and adds a
    "netdev" node with one node per configured interface the dump mentions. */
module OsysmonRtnl {
  import opened CText
  import opened ValueNode
  import opened PollTree
  import opened Registry
  import opened OsysmonCtrl

  /** Interface flags of <net/if.h>. */
  const IFF_UP: bv32 := 0x1
  const IFF_RUNNING: bv32 := 0x40

  /** The IPv4 address family. */
  const AF_INET: int := 2

  /** The sizes of the text buffers of data_cb and inet_data_cb
      (INET_ADDRSTRLEN + 32). */
  const HW_BUF: nat := 32
  const IP_BUF: nat := 48

  function NetdevName(name: string): string {
    name
  }

  // ---------------------------------------------------------------------------
  // The messages of a dump

  /** One RTM_NEWLINK message as data_cb sees it: the IFLA_IFNAME attribute, if
      any, the interface index and flags, and the IFLA_ADDRESS payload, if any. */
  datatype LinkMsg = LinkMsg(ifname: Option<string>, index: int, flags: uint32, address: Option<seq<byte>>)

  /** An IPv4 address, its bytes in network order. */
  datatype Ipv4 = Ipv4(a: byte, b: byte, c: byte, d: byte)

  /** One RTM_NEWADDR message as inet_data_cb sees it: the interface index, the
      address family, the IFA_ADDRESS attribute, if any, and the prefix length. */
  datatype AddrMsg = AddrMsg(index: int, family: int, address: Option<Ipv4>, prefixlen: byte)

  // ---------------------------------------------------------------------------
  // The texts of the leaves

  /** "%02x:%02x:%02x:%02x:%02x:%02x" of a hardware address. */
  function HwaddrText(hw: seq<byte>): string
    requires |hw| == 6
  {
    Join(seq(6, i requires 0 <= i < 6 => Hex2(hw[i])), ':')
  }

  /** inet_ntoa of the address, then "/" and the prefix length. */
  function IpText(ip: Ipv4, prefixlen: byte): string {
    Join(Quads(ip), '.') + "/" + Decimal(prefixlen as nat)
  }

  function Quads(ip: Ipv4): seq<string> {
    [Decimal(ip.a as nat), Decimal(ip.b as nat), Decimal(ip.c as nat), Decimal(ip.d as nat)]
  }

  /** "true" when the flag is set in flags, "false" otherwise. */
  function FlagText(flags: uint32, flag: bv32): (r: string)
    ensures r == "true" <==> flags as bv32 & flag != 0
    ensures r == "true" || r == "false"
  {
    if flags as bv32 & flag != 0 then "true" else "false"
  }

  /** Joined words no longer than n each are no longer than |ws| * (n + 1) - 1. */
  lemma {:induction false} JoinLength(ws: seq<string>, c: char, n: nat)
    requires |ws| > 0 && forall i :: 0 <= i < |ws| ==> |ws[i]| <= n
    ensures |Join(ws, c)| <= |ws| * (n + 1) - 1
  {
    if |ws| > 1 {
      JoinLength(ws[..|ws| - 1], c, n);
    }
  }

  /** A character that is neither the separator nor in any word is not in the
      joined text. */
  lemma {:induction false} JoinAvoids(ws: seq<string>, c: char, x: char)
    requires x != c && forall i :: 0 <= i < |ws| ==> x !in ws[i]
    ensures x !in Join(ws, c)
  {
    if |ws| > 1 {
      JoinAvoids(ws[..|ws| - 1], c, x);
    }
  }

  /** The hardware address fits its buffer, and split at its colons it gives each
      byte's two hex digits in order, which read back as the six bytes. */
  lemma HwaddrShows(hw: seq<byte>)
    requires |hw| == 6
    ensures Snprintf(HwaddrText(hw), HW_BUF) == HwaddrText(hw)
    ensures Split(HwaddrText(hw), ':') == seq(6, i requires 0 <= i < 6 => Hex2(hw[i]))
    ensures var parts := Split(HwaddrText(hw), ':');
      |parts| == 6 && forall i :: 0 <= i < 6 ==> |parts[i]| == 2 && AllHex(parts[i]) && HexValue(parts[i]) == hw[i] as nat
  {
    var ws := seq(6, i requires 0 <= i < 6 => Hex2(hw[i]));
    JoinLength(ws, ':', 2);
    forall i | 0 <= i < 6 ensures ':' !in ws[i] {
      assert AllHex(ws[i]);
    }
    JoinSplits(ws, ':');
  }

  /** A decimal holds neither '.' nor '/'. */
  lemma DecimalPlain(n: nat)
    ensures '.' !in Decimal(n) && '/' !in Decimal(n)
  {
    var d := Decimal(n);
    forall i | 0 <= i < |d| ensures d[i] != '.' && d[i] != '/' {
      assert IsDigit(d[i]);
    }
  }

  /** The address text fits its buffer, and split at "/" and then at the dots it
      gives the four bytes and the prefix length back. */
  lemma IpShows(ip: Ipv4, prefixlen: byte)
    ensures Snprintf(IpText(ip, prefixlen), IP_BUF) == IpText(ip, prefixlen)
    ensures var parts := Split(IpText(ip, prefixlen), '/');
      |parts| == 2 && Split(parts[0], '.') == Quads(ip) && parts[1] == Decimal(prefixlen as nat)
    ensures var q := Quads(ip);
      DigitsValue(q[0]) == ip.a as nat && DigitsValue(q[1]) == ip.b as nat &&
      DigitsValue(q[2]) == ip.c as nat && DigitsValue(q[3]) == ip.d as nat &&
      DigitsValue(Decimal(prefixlen as nat)) == prefixlen as nat
  {
    var q := Quads(ip);
    var dotted := Join(q, '.');
    forall i | 0 <= i < 4 ensures |q[i]| <= 3 && '.' !in q[i] && '/' !in q[i] {
      DecimalLength([ip.a, ip.b, ip.c, ip.d][i] as nat, 3);
      DecimalPlain([ip.a, ip.b, ip.c, ip.d][i] as nat);
    }
    JoinLength(q, '.', 3);
    DecimalLength(prefixlen as nat, 3);
    JoinSplits(q, '.');
    JoinAvoids(q, '.', '/');
    DecimalPlain(prefixlen as nat);
    JoinSplits([dotted, Decimal(prefixlen as nat)], '/');
    assert Join([dotted, Decimal(prefixlen as nat)], '/') == IpText(ip, prefixlen);
    DecimalRoundTrip(ip.a as nat);
    DecimalRoundTrip(ip.b as nat);
    DecimalRoundTrip(ip.c as nat);
    DecimalRoundTrip(ip.d as nat);
    DecimalRoundTrip(prefixlen as nat);
  }

  // ---------------------------------------------------------------------------
  // The poll, on values

  /** Whether data_cb adds a "hwaddr" leaf: an IFLA_ADDRESS of six bytes. */
  predicate HasHwaddr(m: LinkMsg) {
    m.address.Some? && |m.address.value| == 6
  }

  /** The "hwaddr" leaf's value, when data_cb adds one. */
  function HwaddrOf(m: LinkMsg): Option<string> {
    if HasHwaddr(m) then Some(HwaddrText(m.address.value)) else None
  }

  /** An interface's node c after its index is set and the hardware address, if
      any, "running" and "up" are added under it. */
  function Filled(c: Tree, index: int, hw: Option<string>, running: string, up: string): Tree {
    var c1 := c.(idx := Some(index));
    var c2 := if hw.Some? then TAdd(c1, "hwaddr", hw) else c1;
    TAdd(TAdd(c2, "running", Some(running)), "up", Some(up))
  }

  /** What data_cb does to an interface's node c. */
  function Interface(c: Tree, m: LinkMsg): Tree {
    Filled(c, m.index, HwaddrOf(m), FlagText(m.flags, IFF_RUNNING), FlagText(m.flags, IFF_UP))
  }

  /** data_cb on the "netdev" node u: a message for a configured interface finds
      or adds that interface's node; any other message changes nothing. */
  function LinkEffect(netdevs: seq<string>, u: Tree, m: LinkMsg): Tree {
    if m.ifname.None? || IndexOfKey(netdevs, NetdevName, m.ifname.value).None? then u
    else
      var u1 := TFindOrAdd(u, m.ifname.value);
      var k := TFirstNamed(u1.children, m.ifname.value).value;
      TAtChild(u1, k, Interface(u1.children[k], m))
  }

  /** The link dump, message by message. */
  function Links(netdevs: seq<string>, u: Tree, ms: seq<LinkMsg>): (r: Tree)
    ensures r.name == u.name
  {
    if |ms| == 0 then u
    else LinkEffect(netdevs, Links(netdevs, u, ms[..|ms| - 1]), ms[|ms| - 1])
  }

  /** inet_data_cb on the "netdev" node u: an IPv4 address with an IFA_ADDRESS
      for an interface whose node carries its index is added to the first such
      node as "ip"; any other message changes nothing. */
  function AddrEffect(u: Tree, m: AddrMsg): Tree {
    match TFirstIndexed(u.children, m.index)
    case None => u
    case Some(k) =>
      if m.family != AF_INET || m.address.None? then u
      else TAtChild(u, k, TAdd(u.children[k], "ip", Some(IpText(m.address.value, m.prefixlen))))
  }

  /** The address dump, message by message. */
  function Addrs(u: Tree, ms: seq<AddrMsg>): (r: Tree)
    ensures r.name == u.name
  {
    if |ms| == 0 then u
    else AddrEffect(Addrs(u, ms[..|ms| - 1]), ms[|ms| - 1])
  }

  /** osysmon_rtnl_poll under a parent whose value is p, with `open` telling
      whether the netlink socket is open once the poll has tried to open it: nothing
      without configured devices; a bare "netdev" node and -1 without a socket;
      otherwise the "netdev" node after the link dump and then the address dump. */
  function RtnlPoll(netdevs: seq<string>, open: bool, links: seq<LinkMsg>, addrs: seq<AddrMsg>, p: Tree): (int, Tree) {
    if |netdevs| == 0 then (0, p)
    else if !open then (-1, TGraft(p, Leaf("netdev", None)))
    else (0, TGraft(p, Addrs(Links(netdevs, Leaf("netdev", None), links), addrs)))
  }

  // ---------------------------------------------------------------------------
  // What the poll shows

  /** A link message for a configured interface not shown yet adds its node, keyed
      by the index, with the hardware address when it has one of six bytes and
      the running and up flags; a message without a name or for an interface not
      configured changes nothing. */
  lemma LinkShows(netdevs: seq<string>, u: Tree, m: LinkMsg)
    ensures m.ifname.None? || m.ifname.value !in netdevs ==> LinkEffect(netdevs, u, m) == u
    ensures m.ifname.Some? && m.ifname.value in netdevs && TFirstNamed(u.children, m.ifname.value).None? ==>
      LinkEffect(netdevs, u, m) == u.(children := u.children + [Tree(m.ifname.value, None, Some(m.index),
        (if HasHwaddr(m) then [Leaf("hwaddr", Some(HwaddrText(m.address.value)))] else []) +
        [Leaf("running", Some(FlagText(m.flags, IFF_RUNNING))), Leaf("up", Some(FlagText(m.flags, IFF_UP)))])])
  {
    if m.ifname.Some? {
      var name := m.ifname.value;
      if name !in netdevs {
        assert IndexOfKey(netdevs, NetdevName, name).None?;
      } else {
        var j :| 0 <= j < |netdevs| && netdevs[j] == name;
        assert NetdevName(netdevs[j]) == name;
        if TFirstNamed(u.children, name).None? {
          var u1 := TFindOrAdd(u, name);
          assert u1.children == u.children + [Leaf(name, None)];
          assert TFirstNamed(u1.children, name) == Some(|u.children|);
          FreshInterface(name, m);
          assert u1.children[|u.children| := Interface(Leaf(name, None), m)] ==
            u.children + [Interface(Leaf(name, None), m)];
        }
      }
    }
  }

  /** data_cb on a node it has just added. */
  lemma FreshInterface(name: string, m: LinkMsg)
    ensures Interface(Leaf(name, None), m) == Tree(name, None, Some(m.index),
        (if HasHwaddr(m) then [Leaf("hwaddr", Some(HwaddrText(m.address.value)))] else []) +
        [Leaf("running", Some(FlagText(m.flags, IFF_RUNNING))), Leaf("up", Some(FlagText(m.flags, IFF_UP)))])
  {
    var c1 := Leaf(name, None).(idx := Some(m.index));
    var hs := if HasHwaddr(m) then [Leaf("hwaddr", Some(HwaddrText(m.address.value)))] else [];
    var c2 := if HasHwaddr(m) then TAdd(c1, "hwaddr", HwaddrOf(m)) else c1;
    assert c2.children == hs;
    var running := Leaf("running", Some(FlagText(m.flags, IFF_RUNNING)));
    assert TFirstNamed(hs, "running").None?;
    assert TFirstNamed(hs + [running], "up").None?;
  }

  /** An address message for the interface of the k-th node adds its "ip" leaf
      when that node has none; a second IPv4 address for the same interface is not
      shown, because value_node_add refuses a second "ip". */
  lemma AddrShows(u: Tree, m: AddrMsg, k: nat)
    requires TFirstIndexed(u.children, m.index) == Some(k) && m.family == AF_INET && m.address.Some?
    ensures TFirstNamed(u.children[k].children, "ip").None? ==>
      AddrEffect(u, m) == u.(children := u.children[k := u.children[k].(children :=
        u.children[k].children + [Leaf("ip", Some(IpText(m.address.value, m.prefixlen)))])])
    ensures TFirstNamed(u.children[k].children, "ip").Some? ==> AddrEffect(u, m) == u
  {
    if TFirstNamed(u.children[k].children, "ip").Some? {
      assert u.children[k := u.children[k]] == u.children;
    }
  }

  /** An address message for an index no node carries, of another family, or
      without an address changes nothing. */
  lemma AddrIgnored(u: Tree, m: AddrMsg)
    requires TFirstIndexed(u.children, m.index).None? || m.family != AF_INET || m.address.None?
    ensures AddrEffect(u, m) == u
  {
  }

  /** The "netdev" node lists configured interfaces only: the dumps keep every
      node under it named after a configured device. */
  lemma {:induction false} OnlyConfigured(netdevs: seq<string>, links: seq<LinkMsg>, addrs: seq<AddrMsg>)
    ensures forall c :: c in Addrs(Links(netdevs, Leaf("netdev", None), links), addrs).children ==> c.name in netdevs
  {
    LinksConfigured(netdevs, Leaf("netdev", None), links);
    AddrsKeepNames(Links(netdevs, Leaf("netdev", None), links), addrs);
  }

  lemma {:induction false} LinksConfigured(netdevs: seq<string>, u: Tree, ms: seq<LinkMsg>)
    requires forall c :: c in u.children ==> c.name in netdevs
    ensures forall c :: c in Links(netdevs, u, ms).children ==> c.name in netdevs
  {
    if |ms| > 0 {
      LinksConfigured(netdevs, u, ms[..|ms| - 1]);
      var v := Links(netdevs, u, ms[..|ms| - 1]);
      var m := ms[|ms| - 1];
      if m.ifname.Some? && IndexOfKey(netdevs, NetdevName, m.ifname.value).Some? {
        var name := m.ifname.value;
        var i := IndexOfKey(netdevs, NetdevName, name).value;
        assert netdevs[i] == name;
        var v1 := TFindOrAdd(v, name);
        assert forall c :: c in v1.children ==> c.name in netdevs;
        var k := TFirstNamed(v1.children, name).value;
        var w := LinkEffect(netdevs, v, m);
        forall c | c in w.children ensures c.name in netdevs {
          var j :| 0 <= j < |w.children| && w.children[j] == c;
          if j != k {
            assert c == v1.children[j];
          }
        }
      }
    }
  }

  lemma {:induction false} AddrsKeepNames(u: Tree, ms: seq<AddrMsg>)
    ensures |Addrs(u, ms).children| == |u.children|
    ensures forall j :: 0 <= j < |u.children| ==> Addrs(u, ms).children[j].name == u.children[j].name
  {
    if |ms| > 0 {
      AddrsKeepNames(u, ms[..|ms| - 1]);
    }
  }

  // ---------------------------------------------------------------------------
  // The source

  /** The configured network devices and the rtnetlink client state of
      osysmon_state. */
  class Rtnl {
    var netdevs: seq<string>
    /** Whether g_oss->rcs holds an open, bound netlink socket. */
    var open: bool

    ghost predicate Valid()
      reads this
    {
      UniqueKeys(netdevs, NetdevName)
    }

    constructor ()
      ensures Valid() && netdevs == [] && !open
    {
      netdevs := [];
      open := false;
    }

    /** netdev_find: the first device named `name`. */
    method Find(name: string) returns (r: Option<nat>)
      ensures r == IndexOfKey(netdevs, NetdevName, name)
    {
      var i := 0;
      while i < |netdevs|
        invariant 0 <= i <= |netdevs|
        invariant forall j :: 0 <= j < i ==> NetdevName(netdevs[j]) != name
      {
        if netdevs[i] == name {
          IndexOfKeyAt(netdevs, NetdevName, name, i);
          return Some(i);
        }
        i := i + 1;
      }
      return None;
    }

    /** netdev_create: refused when a device of that name exists, otherwise a new
        device at the tail. */
    method Create(name: string) returns (created: bool)
      requires Valid()
      modifies this
      ensures Valid() && open == old(open)
      ensures created <==> IndexOfKey(old(netdevs), NetdevName, name).None?
      ensures netdevs == if created then old(netdevs) + [name] else old(netdevs)
    {
      var found := Find(name);
      if found.Some? {
        return false;
      }
      UniqueAppend(netdevs, NetdevName, name);
      netdevs := netdevs + [name];
      created := true;
    }

    /** netdev_destroy: unlink the k-th device. */
    method Destroy(k: nat)
      requires Valid() && k < |netdevs|
      modifies this
      ensures Valid() && open == old(open) && netdevs == old(netdevs[..k] + netdevs[k + 1..])
      ensures IndexOfKey(netdevs, NetdevName, old(netdevs[k])).None?
    {
      UniqueRemove(netdevs, NetdevName, k);
      netdevs := netdevs[..k] + netdevs[k + 1..];
    }

    /** The "netdev NAME" command: configure the device unless it is configured
        already; it always succeeds. */
    method CfgNetdev(name: string) returns (res: CmdResult)
      requires Valid()
      modifies this
      ensures Valid() && res == CmdSuccess && open == old(open)
      ensures netdevs == if name in old(netdevs) then old(netdevs) else old(netdevs) + [name]
      ensures IndexOfKey(netdevs, NetdevName, name).Some?
    {
      var found := Find(name);
      if found.None? {
        var _ := Create(name);
        IndexOfKeyAt(netdevs, NetdevName, name, |netdevs| - 1);
      } else {
        assert netdevs[found.value] == name;
      }
      res := CmdSuccess;
    }

    /** The "no netdev NAME" command: remove the device of that name, warning when
        there is none. */
    method CfgNoNetdev(name: string) returns (res: CmdResult)
      requires Valid()
      modifies this
      ensures Valid() && open == old(open)
      ensures var k := IndexOfKey(old(netdevs), NetdevName, name);
        (k.None? ==> res == CmdWarning && netdevs == old(netdevs)) &&
        (k.Some? ==> res == CmdSuccess && netdevs == old(netdevs[..k.value] + netdevs[k.value + 1..]))
      ensures IndexOfKey(netdevs, NetdevName, name).None?
    {
      var k := Find(name);
      if k.None? {
        return CmdWarning;
      }
      Destroy(k.value);
      res := CmdSuccess;
    }

    /** osysmon_rtnl_poll: with devices configured, open the socket unless it is
        open (initOk tells whether rtnl_init succeeds), add the "netdev" node, and,
        with a socket, dump the links and then the addresses into it. The dumps
        are the messages the kernel answers with, in order. The parent must not
        have a "netdev" node yet when the dumps run: with one, value_node_add
        returns NULL and the callbacks would look up children of a NULL node. */
    method Poll(t: ValueTree, parent: NodeRef, initOk: bool, links: seq<LinkMsg>, addrs: seq<AddrMsg>) returns (rc: int)
      requires Valid() && t.Valid() && parent in t.nodes
      requires |netdevs| == 0 || !(open || initOk) || TFirstNamed(t.ViewOf(parent).children, "netdev").None?
      modifies this, t
      ensures Valid() && t.Valid() && parent in t.nodes && netdevs == old(netdevs)
      ensures open == (old(open) || (|netdevs| > 0 && initOk))
      ensures (rc, t.ViewOf(parent)) == RtnlPoll(netdevs, open, links, addrs, old(t.ViewOf(parent)))
    {
      if |netdevs| == 0 {
        return 0;
      }
      if !open {
        open := initOk;
      }
      ghost var p0 := t.ViewOf(parent);
      var vn := AddSubtreeNode(t, parent, "netdev", p0);
      assert Subtree("netdev", []) == Leaf("netdev", None);
      if !open {
        return -1;
      }
      LinkDump(t, parent, vn.value, p0, links);
      AddrDump(t, parent, vn.value, p0, Links(netdevs, Leaf("netdev", None), links), addrs);
      rc := 0;
    }

    /** rtnl_update_link: data_cb for each message of the link dump, in order. */
    method LinkDump(t: ValueTree, parent: NodeRef, c: NodeRef, ghost p0: Tree, links: seq<LinkMsg>)
      requires t.Valid() && ParentShows(t.nodes, t.next, parent, c, p0, Leaf("netdev", None))
      modifies t
      ensures t.Valid() && ParentShows(t.nodes, t.next, parent, c, p0, Links(netdevs, Leaf("netdev", None), links))
    {
      var i := 0;
      while i < |links|
        invariant 0 <= i <= |links| && t.Valid()
        invariant ParentShows(t.nodes, t.next, parent, c, p0, Links(netdevs, Leaf("netdev", None), links[..i]))
      {
        LinkOne(t, parent, c, p0, Links(netdevs, Leaf("netdev", None), links[..i]), links[i]);
        assert links[..i + 1][..i] == links[..i];
        i := i + 1;
      }
      assert links[..|links|] == links;
    }

    /** data_cb for one link message, into the "netdev" node c, whose value is u. */
    method LinkOne(t: ValueTree, parent: NodeRef, c: NodeRef, ghost p0: Tree, ghost u: Tree, m: LinkMsg)
      requires t.Valid() && ParentShows(t.nodes, t.next, parent, c, p0, u)
      modifies t
      ensures t.Valid() && ParentShows(t.nodes, t.next, parent, c, p0, LinkEffect(netdevs, u, m))
    {
      if m.ifname.None? {
        return;
      }
      var name := m.ifname.value;
      var found := Find(name);
      if found.None? {
        return;
      }
      var vnIf, k := FindOrAddUnder(t, parent, c, p0, u, name);
      ghost var u1 := TFindOrAdd(u, name);
      assert u1.children[k := u1.children[k]] == u1.children;
      var hw: Option<string> := None;
      if HasHwaddr(m) {
        hw := Some(Snprintf(HwaddrText(m.address.value), HW_BUF));
        HwaddrShows(m.address.value);
      }
      FillInterface(t, parent, c, vnIf, k, p0, u1, u1.children[k], m.index,
                    hw, FlagText(m.flags, IFF_RUNNING), FlagText(m.flags, IFF_UP));
    }
  }

  /** The rest of data_cb, on the interface's node g, the k-th child of the
      "netdev" node c. */
  method FillInterface(t: ValueTree, parent: NodeRef, c: NodeRef, g: NodeRef, ghost k: nat, ghost p0: Tree,
                       ghost u: Tree, ghost a: Tree, index: int, hw: Option<string>, running: string, up: string)
    requires GrandchildIs(t, parent, c, g, k, p0, u, a)
    modifies t
    ensures GrandchildIs(t, parent, c, g, k, p0, u, Filled(a, index, hw, running, up))
  {
    SetIdxAt(t, parent, c, g, k, p0, u, a, index);
    ghost var a1 := a.(idx := Some(index));
    if hw.Some? {
      AddLeafAt(t, parent, c, g, k, p0, u, a1, "hwaddr", hw.value);
      a1 := TAdd(a1, "hwaddr", hw);
    }
    AddLeafAt(t, parent, c, g, k, p0, u, a1, "running", running);
    AddLeafAt(t, parent, c, g, k, p0, u, TAdd(a1, "running", Some(running)), "up", up);
  }

  /** rtnl_update_addr: inet_data_cb for each message of the address dump, in
      order. */
  method AddrDump(t: ValueTree, parent: NodeRef, c: NodeRef, ghost p0: Tree, ghost u: Tree, addrs: seq<AddrMsg>)
    requires t.Valid() && ParentShows(t.nodes, t.next, parent, c, p0, u)
    modifies t
    ensures t.Valid() && ParentShows(t.nodes, t.next, parent, c, p0, Addrs(u, addrs))
  {
    var i := 0;
    while i < |addrs|
      invariant 0 <= i <= |addrs| && t.Valid()
      invariant ParentShows(t.nodes, t.next, parent, c, p0, Addrs(u, addrs[..i]))
    {
      AddrOne(t, parent, c, p0, Addrs(u, addrs[..i]), addrs[i]);
      assert addrs[..i + 1][..i] == addrs[..i];
      i := i + 1;
    }
    assert addrs[..|addrs|] == addrs;
  }

  /** inet_data_cb for one address message, into the "netdev" node c, whose value
      is u. */
  method AddrOne(t: ValueTree, parent: NodeRef, c: NodeRef, ghost p0: Tree, ghost u: Tree, m: AddrMsg)
    requires t.Valid() && ParentShows(t.nodes, t.next, parent, c, p0, u)
    modifies t
    ensures t.Valid() && ParentShows(t.nodes, t.next, parent, c, p0, AddrEffect(u, m))
  {
    var vnIf := t.FindByIdx(c, m.index);
    if vnIf.None? {
      ChildIndexedView(t.nodes, t.next, c, m.index);
      return;
    }
    if m.family != AF_INET || m.address.None? {
      return;
    }
    var out := Snprintf(IpText(m.address.value, m.prefixlen), IP_BUF);
    IpShows(m.address.value, m.prefixlen);
    ChildIndexedView(t.nodes, t.next, c, m.index);
    ghost var k := FirstIndexed(t.nodes, t.nodes[c].children, m.index).value;
    AddUnder(t, parent, c, vnIf.value, k, p0, u, "ip", out);
  }

  /** osysmon_netdev_go_parent: from a device's node back to the configuration
      node, with no object selected; any other node stays. */
  function NetdevGoParent(v: Vty): (r: Vty)
    ensures v.node == NetdevNode ==> r == Vty(ConfigNode, NoIndex)
    ensures v.node != NetdevNode ==> r == v
  {
    match v.node
    case NetdevNode => Vty(ConfigNode, NoIndex)
    case _ => v
  }
}
