/** The OpenVPN source: clients of OpenVPN management interfaces, each keeping
    what the last "state" answer said, and a poll that adds an "OpenVPN" node with
    one node per client, named by the management interface's "host:port". */
module OsysmonOpenvpn {
  import opened CText
  import opened ValueNode
  import opened PollTree
  import opened Client
  import opened OsysmonCtrl

  /** The most fields of a "state" answer that parse_state looks at. */
  const MAX_RESP_COMPONENTS: nat := 6

  /** The size of parse_state's copy of the message, its terminator included. */
  const STATE_BUF: nat := 128

  const CONNECTING: string := "connecting to openvpn management socket"
  const CONNECTED: string := "connected to openvpn management socket"
  const DISCONNECTED: string := "disconnected from openvpn management socket"
  const ALLOC_FAILURE: string := "memory allocation failure"

  /** The command a poll sends to a connected management interface. */
  const STATE_CMD: string := "state\n"

  // ---------------------------------------------------------------------------
  // strtok(s, ",")

  predicate NotComma(c: char) {
    c != ','
  }

  /** s without its leading commas. */
  function SkipCommas(s: string): (r: string)
    ensures |r| <= |s| && r == s[|s| - |r|..]
    ensures |r| > 0 ==> r[0] != ','
    ensures forall i :: 0 <= i < |s| - |r| ==> s[i] == ','
  {
    if |s| > 0 && s[0] == ',' then SkipCommas(s[1..]) else s
  }

  /** The tokens strtok returns on s with the delimiter ',', in order: the maximal
      runs of other characters, so that empty fields vanish. */
  function Tokens(s: string): seq<string>
    decreases |s|
  {
    var t := SkipCommas(s);
    if |t| == 0 then []
    else
      FirstToken(t);
      var tok := TakeWhile(t, NotComma);
      [tok] + Tokens(t[|tok|..])
  }

  /** The first token of a text that does not start with a comma is not empty. */
  lemma FirstToken(t: string)
    requires |t| > 0 && t[0] != ','
    ensures |TakeWhile(t, NotComma)| > 0
  {
  }

  /** The words of ws that are not empty, in order. */
  function NonEmpty(ws: seq<string>): seq<string> {
    if |ws| == 0 then []
    else NonEmpty(ws[..|ws| - 1]) + (if |ws[|ws| - 1]| == 0 then [] else [ws[|ws| - 1]])
  }

  lemma {:induction false} SkipCommasAll(a: string, b: string)
    requires forall i :: 0 <= i < |a| ==> a[i] == ','
    ensures SkipCommas(a + b) == SkipCommas(b)
    decreases |a|
  {
    if |a| > 0 {
      assert (a + b)[0] == ',' && (a + b)[1..] == a[1..] + b;
      SkipCommasAll(a[1..], b);
    } else {
      assert a + b == b;
    }
  }

  lemma {:induction false} SkipCommasSome(a: string, b: string)
    requires |SkipCommas(a)| > 0
    ensures SkipCommas(a + b) == SkipCommas(a) + b
    decreases |a|
  {
    if a[0] == ',' {
      assert (a + b)[1..] == a[1..] + b;
      SkipCommasSome(a[1..], b);
    }
  }

  /** Text before a comma and text from that comma on tokenize apart. */
  lemma {:induction false} TokensConcat(a: string, y: string)
    requires |y| > 0 && y[0] == ','
    ensures Tokens(a + y) == Tokens(a) + Tokens(y[1..])
    decreases |a|
  {
    if |SkipCommas(a)| == 0 {
      SkipCommasAll(a, y);
      TokensSame(a + y, y[1..]);
    } else {
      var a' := TokensRest(a, y);
      TokensConcat(a', y);
      Regroup(Tokens(a), Tokens(a)[..1], Tokens(a'), Tokens(y[1..]), Tokens(a' + y), Tokens(a + y));
    }
  }

  /** The step of TokensConcat: the first token of a, which ends before y, and
      the part of a after it. */
  lemma TokensRest(a: string, y: string) returns (a': string)
    requires |SkipCommas(a)| > 0 && |y| > 0 && y[0] == ','
    ensures |a'| < |a|
    ensures Tokens(a) == Tokens(a)[..1] + Tokens(a')
    ensures Tokens(a + y) == Tokens(a)[..1] + Tokens(a' + y)
  {
    var t := SkipCommas(a);
    SkipCommasSome(a, y);
    var tok := TakeWhile(t, NotComma);
    TakeWhileStop(t, y, NotComma);
    TokensStep(a);
    TokensStep(a + y);
    a' := t[|tok|..];
    SliceAppend(t, y, |tok|);
  }

  lemma Regroup<T>(whole: seq<T>, first: seq<T>, rest: seq<T>, after: seq<T>, restAfter: seq<T>, x: seq<T>)
    requires whole == first + rest && restAfter == rest + after && x == first + restAfter
    ensures x == whole + after
  {
  }

  lemma SliceAppend(t: string, y: string, k: nat)
    requires k <= |t|
    ensures (t + y)[k..] == t[k..] + y
  {
  }

  /** Texts that agree after their leading commas tokenize alike. */
  lemma TokensSame(s1: string, s2: string)
    requires SkipCommas(s1) == SkipCommas(s2)
    ensures Tokens(s1) == Tokens(s2)
  {
  }

  /** The first token of s, and the tokens of what follows it. */
  lemma TokensStep(s: string)
    requires |SkipCommas(s)| > 0
    ensures var t := SkipCommas(s); var tok := TakeWhile(t, NotComma);
      |tok| > 0 && Tokens(s) == [tok] + Tokens(t[|tok|..])
  {
    FirstToken(SkipCommas(s));
  }

  /** When the tokens of s are the tokens of a line from the i-th on and s holds one
      more, that one is the i-th. */
  lemma TokenAt(toks: seq<string>, s: string, i: nat)
    requires i <= |toks| && Tokens(s) == toks[i..] && |SkipCommas(s)| > 0
    ensures var t := SkipCommas(s); var tok := TakeWhile(t, NotComma);
      i < |toks| && toks[i] == tok && toks[i + 1..] == Tokens(t[|tok|..])
  {
    TokensStep(s);
    var t := SkipCommas(s);
    var tok := TakeWhile(t, NotComma);
    assert toks[i..] == [tok] + Tokens(t[|tok|..]);
    assert toks[i..][1..] == toks[i + 1..];
  }

  /** A word without commas is its own only token, unless it is empty. */
  lemma TokensWord(w: string)
    requires ',' !in w
    ensures Tokens(w) == if |w| == 0 then [] else [w]
  {
    if |w| > 0 {
      assert SkipCommas(w) == w;
      TakeWhileRun(w, "", NotComma);
      assert w + "" == w;
      assert w[|w|..] == "";
    }
  }

  /** strtok on a comma-separated line gives back its fields, the empty ones
      dropped. */
  lemma {:induction false} TokensOfLine(ws: seq<string>)
    requires forall i :: 0 <= i < |ws| ==> ',' !in ws[i]
    ensures Tokens(Join(ws, ',')) == NonEmpty(ws)
  {
    if |ws| == 1 {
      TokensWord(ws[0]);
      assert ws[..0] == [];
    } else if |ws| > 1 {
      var init := ws[..|ws| - 1];
      TokensOfLine(init);
      var w := ws[|ws| - 1];
      assert Join(init, ',') + [','] + w == Join(init, ',') + ([','] + w);
      TokensConcat(Join(init, ','), [','] + w);
      assert ([','] + w)[1..] == w;
      TokensWord(w);
    }
  }

  // ---------------------------------------------------------------------------
  // parse_state, on values

  /** What the i-th token of a "state" answer sets: token 1 the status, token 3
      the tunnel address, token 4 the remote host and token 5 the remote port (by
      atoi, cut to 16 bits); the others nothing. */
  function ApplyToken(rem: HostCfg, tun: Option<string>, i: nat, tok: string): (HostCfg, Option<string>) {
    if i == 1 then (rem.(name := Some(tok)), tun)
    else if i == 3 then (rem, Some(tok))
    else if i == 4 then (rem.(remoteHost := Some(tok)), tun)
    else if i == 5 then (rem.(remotePort := ToUint16(Atoi(tok))), tun)
    else (rem, tun)
  }

  /** The tokens applied in order, the i-th as token i. */
  function ApplyTokens(rem: HostCfg, tun: Option<string>, toks: seq<string>): (HostCfg, Option<string>) {
    if |toks| == 0 then (rem, tun)
    else
      var r := ApplyTokens(rem, tun, toks[..|toks| - 1]);
      ApplyToken(r.0, r.1, |toks| - 1, toks[|toks| - 1])
  }

  /** The first i + 1 tokens are the first i and then the i-th. */
  lemma ApplyTokensLast(rem: HostCfg, tun: Option<string>, toks: seq<string>, i: nat)
    requires i < |toks|
    ensures var r := ApplyTokens(rem, tun, toks[..i]);
      ApplyTokens(rem, tun, toks[..i + 1]) == ApplyToken(r.0, r.1, i, toks[i])
  {
    assert toks[..i + 1][..i] == toks[..i];
  }

  function Min(a: nat, b: nat): nat {
    if a < b then a else b
  }

  /** The text parse_state looks at: the first 127 bytes as a C string. */
  function StateText(msg: seq<byte>): string {
    CStr(Text(msg[..Min(STATE_BUF - 1, |msg|)]))
  }

  /** Whether parse_state looks at the message at all: not empty, and starting
      with a decimal digit (greetings and other lines do not). */
  predicate IsStateAnswer(msg: seq<byte>) {
    |msg| > 0 && IsDigit(msg[0] as int as char)
  }

  /** parse_state on the remote configuration rem and tunnel address tun: the first
      six tokens applied, or nothing for a message that is not a state answer. */
  function ParseEffect(rem: HostCfg, tun: Option<string>, msg: seq<byte>): (HostCfg, Option<string>) {
    if !IsStateAnswer(msg) then (rem, tun)
    else
      var toks := Tokens(StateText(msg));
      ApplyTokens(rem, tun, toks[..Min(MAX_RESP_COMPONENTS, |toks|)])
  }

  /** A "state" answer whose fields are all present sets the status to the state
      name (field 1), the tunnel to the local address (field 3), and the remote
      end to the remote address and port (fields 4 and 5); the fields after the
      sixth are ignored. */
  lemma StateAnswer(rem: HostCfg, tun: Option<string>, ws: seq<string>)
    requires |ws| >= MAX_RESP_COMPONENTS
    requires forall i :: 0 <= i < |ws| ==> |ws[i]| > 0 && ',' !in ws[i]
    requires IsDigit(ws[0][0])
    requires var line := Join(ws, ','); |line| < STATE_BUF && IsByteText(line) && NUL !in line
    ensures ParseEffect(rem, tun, Bytes(Join(ws, ','))) ==
      (rem.(name := Some(ws[1]), remoteHost := Some(ws[4]), remotePort := ToUint16(Atoi(ws[5]))), Some(ws[3]))
  {
    var line := Join(ws, ',');
    JoinStarts(ws, ',');
    ParseLine(rem, tun, line);
    TokensOfLine(ws);
    NonEmptyKeeps(ws);
    ApplySix(rem, tun, ws);
  }

  /** A line short enough for parse_state's buffer, in bytes and without a NUL, is
      parsed whole. */
  lemma ParseLine(rem: HostCfg, tun: Option<string>, line: string)
    requires |line| > 0 && IsDigit(line[0])
    requires |line| < STATE_BUF && IsByteText(line) && NUL !in line
    ensures var toks := Tokens(line);
      ParseEffect(rem, tun, Bytes(line)) == ApplyTokens(rem, tun, toks[..Min(MAX_RESP_COMPONENTS, |toks|)])
  {
    var msg := Bytes(line);
    TextOfBytes(line);
    CStrOfPlain(line);
    assert msg[..Min(STATE_BUF - 1, |msg|)] == msg;
    assert msg[0] as int == line[0] as int;
  }

  /** The first five tokens set the status, the tunnel and the remote host. */
  lemma ApplyFive(rem: HostCfg, tun: Option<string>, toks: seq<string>)
    requires |toks| >= 5
    ensures ApplyTokens(rem, tun, toks[..5]) ==
      (rem.(name := Some(toks[1]), remoteHost := Some(toks[4])), Some(toks[3]))
  {
    assert toks[..5][..4] == toks[..4] && toks[..4][..3] == toks[..3];
    assert toks[..3][..2] == toks[..2] && toks[..2][..1] == toks[..1];
    var none: seq<string> := [];
    assert ApplyTokens(rem, tun, none) == (rem, tun);
    assert toks[..1][..0] == none;
    assert ApplyTokens(rem, tun, toks[..1]) == (rem, tun);
    var r2 := ApplyTokens(rem, tun, toks[..2]);
    assert r2 == (rem.(name := Some(toks[1])), tun);
    assert ApplyTokens(rem, tun, toks[..3]) == r2;
    assert ApplyTokens(rem, tun, toks[..4]) == (r2.0, Some(toks[3]));
  }

  /** The first six tokens set the status, the tunnel and the remote end. */
  lemma ApplySix(rem: HostCfg, tun: Option<string>, toks: seq<string>)
    requires |toks| >= MAX_RESP_COMPONENTS
    ensures ApplyTokens(rem, tun, toks[..MAX_RESP_COMPONENTS]) ==
      (rem.(name := Some(toks[1]), remoteHost := Some(toks[4]), remotePort := ToUint16(Atoi(toks[5]))), Some(toks[3]))
  {
    ApplyFive(rem, tun, toks);
    assert toks[..6][..5] == toks[..5];
  }

  /** A text that starts a line keeps its first character. */
  lemma {:induction false} JoinStarts(ws: seq<string>, c: char)
    requires |ws| > 0 && |ws[0]| > 0
    ensures |Join(ws, c)| > 0 && Join(ws, c)[0] == ws[0][0]
  {
    if |ws| > 1 {
      JoinStarts(ws[..|ws| - 1], c);
    }
  }

  /** Words none of which is empty are kept as they are. */
  lemma {:induction false} NonEmptyKeeps(ws: seq<string>)
    requires forall i :: 0 <= i < |ws| ==> |ws[i]| > 0
    ensures NonEmpty(ws) == ws
  {
    if |ws| > 0 {
      NonEmptyKeeps(ws[..|ws| - 1]);
    }
  }

  /** An empty field does not count as a field: with the description (field 2)
      empty, the local address is taken as token 2 and ignored, the remote
      address (field 4) becomes the tunnel address, the remote port (field 5)
      the remote host, and the remote port is left as it was. */
  lemma EmptyFieldShifts(rem: HostCfg, tun: Option<string>, ws: seq<string>)
    requires |ws| == MAX_RESP_COMPONENTS && |ws[2]| == 0
    requires forall i :: 0 <= i < |ws| && i != 2 ==> |ws[i]| > 0
    requires forall i :: 0 <= i < |ws| ==> ',' !in ws[i]
    requires IsDigit(ws[0][0])
    requires var line := Join(ws, ','); |line| < STATE_BUF && IsByteText(line) && NUL !in line
    ensures ParseEffect(rem, tun, Bytes(Join(ws, ','))) ==
      (rem.(name := Some(ws[1]), remoteHost := Some(ws[5])), Some(ws[4]))
  {
    var line := Join(ws, ',');
    JoinStarts(ws, ',');
    ParseLine(rem, tun, line);
    TokensOfLine(ws);
    NonEmptyGap(ws);
    var toks := [ws[0], ws[1], ws[3], ws[4], ws[5]];
    ApplyFive(rem, tun, toks);
    assert toks[..5] == toks;
  }

  /** The fields of a line with an empty third field, that one dropped. */
  lemma NonEmptyGap(ws: seq<string>)
    requires |ws| == MAX_RESP_COMPONENTS && |ws[2]| == 0
    requires forall i :: 0 <= i < |ws| && i != 2 ==> |ws[i]| > 0
    ensures NonEmpty(ws) == [ws[0], ws[1], ws[3], ws[4], ws[5]]
  {
    assert ws == ws[..2] + ([ws[2]] + ws[3..]);
    NonEmptyAppend(ws[..2], [ws[2]] + ws[3..]);
    NonEmptyAppend([ws[2]], ws[3..]);
    NonEmptyKeeps(ws[..2]);
    NonEmptyKeeps(ws[3..]);
    assert [ws[2]][..0] == [];
  }

  /** The non-empty words of a concatenation are those of each part. */
  lemma {:induction false} NonEmptyAppend(a: seq<string>, b: seq<string>)
    ensures NonEmpty(a + b) == NonEmpty(a) + NonEmpty(b)
    decreases |b|
  {
    if |b| == 0 {
      assert a + b == a;
    } else {
      var init := b[..|b| - 1];
      assert (a + b)[..|a + b| - 1] == a + init;
      NonEmptyAppend(a, init);
    }
  }

  // ---------------------------------------------------------------------------
  // The poll, on values

  /** What a poll knows of a client: the management interface it talks to, what
      the interface reported last (the status as the name, the remote end), the
      tunnel address, and whether the connection is up. */
  datatype VpnView = VpnView(cfg: HostCfg, remCfg: HostCfg, tunIp: Option<string>, connected: bool)

  /** A configuration a client can be looked up by: both its name and its host
      are set. */
  predicate Configured(cfg: HostCfg) {
    cfg.name.Some? && cfg.remoteHost.Some?
  }

  predicate AllConfigured(vs: seq<VpnView>) {
    forall i :: 0 <= i < |vs| ==> Configured(vs[i].cfg)
  }

  /** The name of a client's node: the "host:port" of its management interface. */
  function HostName(v: VpnView): string
    requires Configured(v.cfg)
  {
    MakeAuthority(v.cfg).value
  }

  /** What openvpn_client_poll adds under the client's node a: only a "msgb"
      leaf when the state command cannot be allocated; otherwise "status",
      "tunnel" and "remote", each when there is something to show. */
  function HostLeaves(a: Tree, v: VpnView, allocOk: bool): Tree {
    if !allocOk then TAdd(a, "msgb", Some(ALLOC_FAILURE))
    else
      var a1 := if v.remCfg.name.Some? then TAdd(a, "status", v.remCfg.name) else a;
      var a2 := if v.tunIp.Some? then TAdd(a1, "tunnel", v.tunIp) else a1;
      var remote := MakeAuthority(v.remCfg);
      if remote.Some? then TAdd(a2, "remote", remote) else a2
  }

  /** openvpn_client_poll on the "OpenVPN" node u: find or add the client's node,
      then add its leaves. */
  function ClientEffect(u: Tree, v: VpnView, allocOk: bool): Tree
    requires Configured(v.cfg)
  {
    var host := HostName(v);
    var u1 := TFindOrAdd(u, host);
    var k := TFirstNamed(u1.children, host).value;
    TAtChild(u1, k, HostLeaves(u1.children[k], v, allocOk))
  }

  /** The clients polled in list order; the i-th allocation of the state command
      succeeds as allocs[i] says. */
  function ClientsEffect(u: Tree, vs: seq<VpnView>, allocs: seq<bool>): (r: Tree)
    requires AllConfigured(vs) && |allocs| == |vs|
    ensures r.name == u.name
  {
    if |vs| == 0 then u
    else
      ClientEffect(ClientsEffect(u, vs[..|vs| - 1], allocs[..|vs| - 1]), vs[|vs| - 1], allocs[|vs| - 1])
  }

  /** osysmon_openvpn_poll under a parent whose value is p: nothing without
      clients; otherwise an "OpenVPN" node with the clients polled into it. The
      result is the number of clients. */
  function OpenvpnPoll(vs: seq<VpnView>, allocs: seq<bool>, p: Tree): (int, Tree)
    requires AllConfigured(vs) && |allocs| == |vs|
  {
    if |vs| == 0 then (0, p)
    else (|vs|, TGraft(p, ClientsEffect(Leaf("OpenVPN", None), vs, allocs)))
  }

  /** What connect_cb makes of a client. */
  function OnConnect(v: VpnView): VpnView {
    v.(remCfg := v.remCfg.(name := Some(CONNECTED)), connected := true)
  }

  /** What disconnect_cb makes of a client: the tunnel and the remote host are
      forgotten. */
  function OnDisconnect(v: VpnView): VpnView {
    v.(remCfg := v.remCfg.(name := Some(DISCONNECTED), remoteHost := None), tunIp := None, connected := false)
  }

  // ---------------------------------------------------------------------------
  // What the poll shows

  /** The leaves of a client's node, listed. */
  function LeafList(v: VpnView, allocOk: bool): seq<Tree> {
    if !allocOk then [Leaf("msgb", Some(ALLOC_FAILURE))]
    else
      (if v.remCfg.name.Some? then [Leaf("status", v.remCfg.name)] else []) +
      (if v.tunIp.Some? then [Leaf("tunnel", v.tunIp)] else []) +
      (if v.remCfg.remoteHost.Some? then [Leaf("remote", MakeAuthority(v.remCfg))] else [])
  }

  /** A new client's node holds exactly the listed leaves. */
  lemma FreshLeaves(name: string, v: VpnView, allocOk: bool)
    ensures HostLeaves(Leaf(name, None), v, allocOk) == Tree(name, None, None, LeafList(v, allocOk))
  {
    if allocOk {
      var a := Leaf(name, None);
      var s: seq<Tree> := if v.remCfg.name.Some? then [Leaf("status", v.remCfg.name)] else [];
      var a1 := if v.remCfg.name.Some? then TAdd(a, "status", v.remCfg.name) else a;
      AddFresh(a, "status", v.remCfg.name);
      assert a1 == a.(children := s);
      var tn: seq<Tree> := if v.tunIp.Some? then [Leaf("tunnel", v.tunIp)] else [];
      var a2 := if v.tunIp.Some? then TAdd(a1, "tunnel", v.tunIp) else a1;
      AddFresh(a1, "tunnel", v.tunIp);
      assert a2 == a.(children := s + tn);
      AddFresh(a2, "remote", MakeAuthority(v.remCfg));
    }
  }

  /** value_node_add under a node none of whose children has that name appends a
      leaf. */
  lemma AddFresh(t: Tree, name: string, value: Option<string>)
    requires forall j :: 0 <= j < |t.children| ==> t.children[j].name != name
    ensures TAdd(t, name, value) == t.(children := t.children + [Leaf(name, value)])
  {
  }

  /** A client whose "host:port" has no node yet gets a new node at the end, with
      the listed leaves. */
  lemma ClientShows(u: Tree, v: VpnView, allocOk: bool)
    requires Configured(v.cfg) && TFirstNamed(u.children, HostName(v)).None?
    ensures ClientEffect(u, v, allocOk) ==
      u.(children := u.children + [Tree(HostName(v), None, None, LeafList(v, allocOk))])
  {
    var host := HostName(v);
    var u1 := TFindOrAdd(u, host);
    assert u1.children == u.children + [Leaf(host, None)];
    assert TFirstNamed(u1.children, host) == Some(|u.children|);
    FreshLeaves(host, v, allocOk);
  }

  /** Clients at different management interfaces get different node names: the
      name splits back into the host and the port. */
  lemma HostNameInjective(v: VpnView, w: VpnView)
    requires Configured(v.cfg) && Configured(w.cfg) && HostName(v) == HostName(w)
    ensures v.cfg.remoteHost == w.cfg.remoteHost && v.cfg.remotePort == w.cfg.remotePort
  {
    AuthoritySplits(v.cfg);
    AuthoritySplits(w.cfg);
  }

  /** No two clients talk to the same management interface. */
  predicate DistinctInterfaces(vs: seq<VpnView>) {
    forall i, j :: 0 <= i < j < |vs| ==>
      vs[i].cfg.remoteHost != vs[j].cfg.remoteHost || vs[i].cfg.remotePort != vs[j].cfg.remotePort
  }

  /** With distinct management interfaces, each client has a node of its own,
      in list order, holding the listed leaves. */
  lemma {:induction false} ClientsShow(vs: seq<VpnView>, allocs: seq<bool>)
    requires AllConfigured(vs) && |allocs| == |vs| && DistinctInterfaces(vs)
    ensures var r := ClientsEffect(Leaf("OpenVPN", None), vs, allocs);
      r.value.None? && r.idx.None? && |r.children| == |vs| &&
      forall i :: 0 <= i < |vs| ==> r.children[i] == Tree(HostName(vs[i]), None, None, LeafList(vs[i], allocs[i]))
  {
    if |vs| > 0 {
      var n := |vs| - 1;
      var init, ainit := vs[..n], allocs[..n];
      ClientsShow(init, ainit);
      var u := ClientsEffect(Leaf("OpenVPN", None), init, ainit);
      ClientsStep(u, vs, allocs);
    }
  }

  /** The last client of vs polled into u, the node the others made. */
  lemma ClientsStep(u: Tree, vs: seq<VpnView>, allocs: seq<bool>)
    requires AllConfigured(vs) && |allocs| == |vs| > 0 && DistinctInterfaces(vs)
    requires |u.children| == |vs| - 1
    requires forall i :: 0 <= i < |vs| - 1 ==> u.children[i] == Tree(HostName(vs[i]), None, None, LeafList(vs[i], allocs[i]))
    ensures var n := |vs| - 1; var r := ClientEffect(u, vs[n], allocs[n]);
      |r.children| == |vs| &&
      forall i :: 0 <= i < |vs| ==> r.children[i] == Tree(HostName(vs[i]), None, None, LeafList(vs[i], allocs[i]))
  {
    var n := |vs| - 1;
    forall j | 0 <= j < n ensures u.children[j].name != HostName(vs[n]) {
      if HostName(vs[j]) == HostName(vs[n]) {
        HostNameInjective(vs[j], vs[n]);
      }
    }
    ClientShows(u, vs[n], allocs[n]);
  }

  /** Polling the first i + 1 clients is polling the first i, then the i-th. */
  lemma ClientsSnoc(u: Tree, vs: seq<VpnView>, allocs: seq<bool>, i: nat)
    requires AllConfigured(vs) && |allocs| == |vs| && i < |vs|
    ensures AllConfigured(vs[..i]) && AllConfigured(vs[..i + 1])
    ensures ClientsEffect(u, vs[..i + 1], allocs[..i + 1]) ==
      ClientEffect(ClientsEffect(u, vs[..i], allocs[..i]), vs[i], allocs[i])
  {
    assert vs[..i + 1][..i] == vs[..i] && allocs[..i + 1][..i] == allocs[..i];
  }

  /** One more client's state command, sent or not. */
  lemma SentStep(vs: seq<VpnView>, allocs: seq<bool>, sent: seq<bool>, s: bool)
    requires |sent| < |vs| == |allocs| && s == (allocs[|sent|] && vs[|sent|].connected)
    requires forall j :: 0 <= j < |sent| ==> sent[j] == (allocs[j] && vs[j].connected)
    ensures forall j :: 0 <= j < |sent| + 1 ==> (sent + [s])[j] == (allocs[j] && vs[j].connected)
  {
  }

  /** osysmon_openvpn_poll with clients at distinct management interfaces, under a
      parent without an "OpenVPN" node: the count of clients, and a new "OpenVPN"
      node at the end with one node per client, in list order. */
  lemma OpenvpnShows(vs: seq<VpnView>, allocs: seq<bool>, p: Tree)
    requires AllConfigured(vs) && |allocs| == |vs| && DistinctInterfaces(vs)
    requires |vs| > 0 && TFirstNamed(p.children, "OpenVPN").None?
    ensures var r := OpenvpnPoll(vs, allocs, p);
      r.0 == |vs| && |r.1.children| == |p.children| + 1 && r.1.children[..|p.children|] == p.children &&
      var o := r.1.children[|p.children|];
      o.name == "OpenVPN" && o.value.None? && |o.children| == |vs| &&
      forall i :: 0 <= i < |vs| ==> o.children[i] == Tree(HostName(vs[i]), None, None, LeafList(vs[i], allocs[i]))
  {
    ClientsShow(vs, allocs);
  }

  /** Once the connection is lost, a poll shows only the status: the tunnel and
      the remote end are gone. */
  lemma DisconnectedShows(v: VpnView)
    ensures LeafList(OnDisconnect(v), true) == [Leaf("status", Some(DISCONNECTED))]
    ensures !OnDisconnect(v).connected
  {
  }

  /** Once connected, a poll shows the status as connected, first. */
  lemma ConnectedShows(v: VpnView)
    ensures var ls := LeafList(OnConnect(v), true); |ls| > 0 && ls[0] == Leaf("status", Some(CONNECTED))
    ensures OnConnect(v).connected && OnConnect(v).tunIp == v.tunIp
  {
  }

  // ---------------------------------------------------------------------------
  // The source

  /** One OpenVPN management interface client. */
  class OpenVpnClient {
    /** The management interface: name, host and port. */
    const cfg: HostCfg
    /** What the interface reported: the status as the name, and the remote end. */
    var remCfg: HostCfg
    var tunIp: Option<string>
    var connected: bool

    /** The parts openvpn_client_create sets up: the configuration, and the
        status "connecting" with no remote end yet. */
    constructor (name: string, host: string, port: uint16)
      ensures cfg == HostCfgAlloc(Some(name), Some(host), port)
      ensures remCfg == HostCfgAlloc(Some(CONNECTING), None, 0) && tunIp.None? && !connected
    {
      cfg := HostCfgAlloc(Some(name), Some(host), port);
      remCfg := HostCfgAlloc(Some(CONNECTING), None, 0);
      tunIp := None;
      connected := false;
    }

    function View(): VpnView
      reads this
    {
      VpnView(cfg, remCfg, tunIp, connected)
    }

    /** connect_cb. */
    method ConnectCb()
      modifies this
      ensures View() == OnConnect(old(View()))
    {
      remCfg := remCfg.(name := Some(CONNECTED));
      connected := true;
    }

    /** disconnect_cb. */
    method DisconnectCb()
      modifies this
      ensures View() == OnDisconnect(old(View()))
    {
      remCfg := remCfg.(name := Some(DISCONNECTED));
      connected := false;
      tunIp := None;
      remCfg := remCfg.(remoteHost := None);
    }

    /** read_cb: parse what was received, unless the receive buffer could not be
        allocated (allocOk) or the read failed (recv is None). */
    method ReadCb(allocOk: bool, recv: Option<seq<byte>>)
      modifies this
      ensures connected == old(connected)
      ensures (remCfg, tunIp) ==
        if allocOk && recv.Some? then ParseEffect(old(remCfg), old(tunIp), recv.value) else old((remCfg, tunIp))
    {
      if !allocOk || recv.None? {
        return;
      }
      ParseState(recv.value);
    }

    /** parse_state: strtok over the first 127 bytes of msg as a C string, applying
        at most six tokens. */
    method ParseState(msg: seq<byte>)
      modifies this
      ensures connected == old(connected)
      ensures (remCfg, tunIp) == ParseEffect(old(remCfg), old(tunIp), msg)
    {
      if |msg| == 0 || !IsDigit(msg[0] as int as char) {
        return;
      }
      var truncated := Min(STATE_BUF - 1, |msg|);
      var tmp := CStr(Text(msg[..truncated]));
      ghost var toks := Tokens(tmp);
      ParseTokens(tmp, toks);
    }

    /** The loop of parse_state over the text tmp, whose tokens are toks. */
    method ParseTokens(tmp: string, ghost toks: seq<string>)
      requires toks == Tokens(tmp)
      modifies this
      ensures connected == old(connected)
      ensures (remCfg, tunIp) == ApplyTokens(old(remCfg), old(tunIp), toks[..Min(MAX_RESP_COMPONENTS, |toks|)])
    {
      ghost var r0, t0 := remCfg, tunIp;
      var rest := tmp;
      var i := 0;
      assert toks[..0] == [];
      while i < MAX_RESP_COMPONENTS
        invariant Parsing(toks, rest, i, r0, t0) && connected == old(connected)
      {
        var more;
        rest, more := ParseStep(rest, i, toks, r0, t0);
        if !more {
          break;
        }
        i := i + 1;
      }
      assert i == Min(MAX_RESP_COMPONENTS, |toks|);
    }

    /** parse_state's loop after i tokens: the rest of the text holds the tokens
        from the i-th on, and the first i are applied to r0 and t0. */
    ghost predicate Parsing(toks: seq<string>, rest: string, i: nat, r0: HostCfg, t0: Option<string>)
      reads this
    {
      i <= MAX_RESP_COMPONENTS && i <= |toks| && Tokens(rest) == toks[i..] &&
      (remCfg, tunIp) == ApplyTokens(r0, t0, toks[..i])
    }

    /** One strtok call of parse_state's loop and, when it finds a token, the
        switch on it. */
    method ParseStep(rest: string, i: nat, ghost toks: seq<string>, ghost r0: HostCfg, ghost t0: Option<string>)
      returns (rest': string, more: bool)
      requires Parsing(toks, rest, i, r0, t0) && i < MAX_RESP_COMPONENTS
      modifies this
      ensures connected == old(connected)
      ensures more ==> Parsing(toks, rest', i + 1, r0, t0)
      ensures !more ==> rest' == rest && Parsing(toks, rest, i, r0, t0) && i == |toks|
    {
      var s := SkipCommas(rest);
      if |s| == 0 {
        assert Tokens(rest) == [];
        return rest, false;
      }
      var tok := TakeWhile(s, NotComma);
      TokenAt(toks, rest, i);
      rest' := s[|tok|..];
      ApplyTokensLast(r0, t0, toks, i);
      ApplyOne(i, tok);
      more := true;
    }

    /** The switch of parse_state's loop, for the i-th token. */
    method ApplyOne(i: nat, tok: string)
      modifies this
      ensures connected == old(connected)
      ensures (remCfg, tunIp) == ApplyToken(old(remCfg), old(tunIp), i, tok)
    {
      if i == 1 {
        remCfg := remCfg.(name := Some(tok));
      } else if i == 3 {
        tunIp := Some(tok);
      } else if i == 4 {
        remCfg := remCfg.(remoteHost := Some(tok));
      } else if i == 5 {
        remCfg := remCfg.(remotePort := ToUint16(Atoi(tok)));
      }
    }

    /** openvpn_client_poll into the "OpenVPN" node c, whose value is u; whether a
        state command goes out (it does when it could be allocated and the
        connection is up). */
    method Poll(t: ValueTree, parent: NodeRef, c: NodeRef, ghost p0: Tree, ghost u: Tree, allocOk: bool)
      returns (sent: bool)
      requires Configured(cfg) && t.Valid() && ParentShows(t.nodes, t.next, parent, c, p0, u)
      modifies t
      ensures t.Valid() && ParentShows(t.nodes, t.next, parent, c, p0, ClientEffect(u, old(View()), allocOk))
      ensures sent == (allocOk && old(connected))
    {
      var remote := MakeAuthority(remCfg);
      var host := MakeAuthority(cfg).value;
      var g, k := FindOrAddUnder(t, parent, c, p0, u, host);
      ghost var u1 := TFindOrAdd(u, host);
      assert u1.children[k := u1.children[k]] == u1.children;
      ghost var a := u1.children[k];
      if !allocOk {
        AddLeafAt(t, parent, c, g, k, p0, u1, a, "msgb", ALLOC_FAILURE);
        return false;
      }
      if remCfg.name.Some? {
        AddLeafAt(t, parent, c, g, k, p0, u1, a, "status", remCfg.name.value);
        a := TAdd(a, "status", remCfg.name);
      }
      if tunIp.Some? {
        AddLeafAt(t, parent, c, g, k, p0, u1, a, "tunnel", tunIp.value);
        a := TAdd(a, "tunnel", tunIp);
      }
      if remote.Some? {
        AddLeafAt(t, parent, c, g, k, p0, u1, a, "remote", remote.value);
      }
      sent := connected;
    }
  }

  /** Whether a client's management interface is host at port: match_config by
      host, and the same port. */
  predicate IsAt(cfg: HostCfg, host: string, port: uint16)
    requires Configured(cfg)
  {
    MatchConfig(cfg, host, MATCH_HOST) && cfg.remotePort == port
  }

  /** The position of the first client whose management interface is host at
      port, if any. */
  function IndexOfInterface(cs: seq<OpenVpnClient>, host: string, port: uint16): (r: Option<nat>)
    requires forall i :: 0 <= i < |cs| ==> Configured(cs[i].cfg)
    ensures r.Some? ==> r.value < |cs| && IsAt(cs[r.value].cfg, host, port)
    ensures r.Some? ==> forall j :: 0 <= j < r.value ==> !IsAt(cs[j].cfg, host, port)
    ensures r.None? <==> forall j :: 0 <= j < |cs| ==> !IsAt(cs[j].cfg, host, port)
  {
    if |cs| == 0 then None
    else if IsAt(cs[0].cfg, host, port) then Some(0)
    else match IndexOfInterface(cs[1..], host, port)
      case None => None
      case Some(i) => Some(i + 1)
  }

  /** The first client at host and port is the i-th when no earlier one is. */
  lemma {:induction false} IndexOfInterfaceAt(cs: seq<OpenVpnClient>, host: string, port: uint16, i: nat)
    requires forall j :: 0 <= j < |cs| ==> Configured(cs[j].cfg)
    requires i < |cs| && IsAt(cs[i].cfg, host, port)
    requires forall j :: 0 <= j < i ==> !IsAt(cs[j].cfg, host, port)
    ensures IndexOfInterface(cs, host, port) == Some(i)
  {
    if i > 0 {
      IndexOfInterfaceAt(cs[1..], host, port, i - 1);
    }
  }

  /** The OpenVPN clients of osysmon_state, in list order. */
  class OpenVpnClients {
    var clients: seq<OpenVpnClient>

    /** Every client has a name and a host, and no two share a management
        interface (openvpn_client_create makes none for an interface that has
        one). */
    ghost predicate Valid()
      reads this
    {
      (forall i :: 0 <= i < |clients| ==> Configured(clients[i].cfg)) &&
      forall i, j :: 0 <= i < j < |clients| ==>
        clients[i].cfg.remoteHost != clients[j].cfg.remoteHost || clients[i].cfg.remotePort != clients[j].cfg.remotePort
    }

    constructor ()
      ensures Valid() && clients == []
    {
      clients := [];
    }

    /** The clients as a poll sees them. */
    function Views(): (r: seq<VpnView>)
      reads this, set c | c in clients
      ensures |r| == |clients| && forall i :: 0 <= i < |clients| ==> r[i] == clients[i].View()
    {
      seq(|clients|, i reads this, set c | c in clients requires 0 <= i < |clients| => clients[i].View())
    }

    /** openvpn_client_find_or_make: the first client at host and port. */
    method FindOrMake(host: string, port: uint16) returns (r: Option<nat>)
      requires Valid()
      ensures r == IndexOfInterface(clients, host, port)
    {
      var i := 0;
      while i < |clients|
        invariant 0 <= i <= |clients|
        invariant forall j :: 0 <= j < i ==> !IsAt(clients[j].cfg, host, port)
      {
        if MatchConfig(clients[i].cfg, host, MATCH_HOST) && clients[i].cfg.remotePort == port {
          IndexOfInterfaceAt(clients, host, port, i);
          return Some(i);
        }
        i := i + 1;
      }
      return None;
    }

    /** openvpn_client_create: true at once when a client at host and port exists;
        otherwise a new client at the tail, when the allocations, the TCP client
        and its first connection attempt all succeed (startOk), and false when one
        of them fails. */
    method Create(name: string, host: string, port: uint16, startOk: bool) returns (ok: bool)
      requires Valid()
      modifies this
      ensures Valid()
      ensures IndexOfInterface(old(clients), host, port).Some? ==> ok && clients == old(clients)
      ensures IndexOfInterface(old(clients), host, port).None? && !startOk ==> !ok && clients == old(clients)
      ensures IndexOfInterface(old(clients), host, port).None? && startOk ==>
        ok && |clients| == |old(clients)| + 1 && clients[..|old(clients)|] == old(clients) &&
        fresh(clients[|old(clients)|]) &&
        clients[|old(clients)|].View() ==
          VpnView(HostCfgAlloc(Some(name), Some(host), port), HostCfgAlloc(Some(CONNECTING), None, 0), None, false)
    {
      var found := FindOrMake(host, port);
      if found.Some? {
        return true;
      }
      if !startOk {
        return false;
      }
      var vpn := new OpenVpnClient(name, host, port);
      clients := clients + [vpn];
      assert clients[..|old(clients)|] == old(clients);
      ok := true;
    }

    /** openvpn_client_destroy: unlink the k-th client. */
    method Destroy(k: nat)
      requires Valid() && k < |clients|
      modifies this
      ensures Valid() && clients == old(clients[..k] + clients[k + 1..])
    {
      clients := clients[..k] + clients[k + 1..];
    }

    /** The "openvpn HOST PORT" command: a client named "OpenVPN" for the management
        interface at host and port (atoi of the argument, cut to 16 bits), with a
        warning when it cannot be made. */
    method CfgOpenvpn(host: string, portArg: int, startOk: bool) returns (res: CmdResult)
      requires Valid()
      modifies this
      ensures Valid()
      ensures var k := IndexOfInterface(old(clients), host, ToUint16(portArg));
        (k.Some? ==> res == CmdSuccess && clients == old(clients)) &&
        (k.None? && !startOk ==> res == CmdWarning && clients == old(clients)) &&
        (k.None? && startOk ==> res == CmdSuccess && IndexOfInterface(clients, host, ToUint16(portArg)) == Some(|old(clients)|))
    {
      var port := ToUint16(portArg);
      var ok := Create("OpenVPN", host, port, startOk);
      if ok && IndexOfInterface(old(clients), host, port).None? {
        AllocMatchesItself("OpenVPN", host, port);
        assert forall j :: 0 <= j < |old(clients)| ==> clients[j] == old(clients)[j];
        IndexOfInterfaceAt(clients, host, port, |old(clients)|);
      }
      res := if ok then CmdSuccess else CmdWarning;
    }

    /** The "no openvpn HOST PORT" command: remove the client at host and port, or
        warn and change nothing when there is none. */
    method CfgNoOpenvpn(host: string, portArg: int) returns (res: CmdResult)
      requires Valid()
      modifies this
      ensures Valid()
      ensures var k := IndexOfInterface(old(clients), host, ToUint16(portArg));
        (k.None? ==> res == CmdWarning && clients == old(clients)) &&
        (k.Some? ==> res == CmdSuccess && clients == old(clients[..k.value] + clients[k.value + 1..]))
      ensures IndexOfInterface(clients, host, ToUint16(portArg)).None?
    {
      var port := ToUint16(portArg);
      var k := FindOrMake(host, port);
      if k.None? {
        return CmdWarning;
      }
      ghost var cs := clients;
      Destroy(k.value);
      forall j | 0 <= j < |clients| ensures !IsAt(clients[j].cfg, host, port) {
        var i := if j < k.value then j else j + 1;
        assert clients[j] == cs[i];
      }
      res := CmdSuccess;
    }

    /** osysmon_openvpn_poll: with clients, add the "OpenVPN" node and poll each
        client into it in list order; the i-th state command is allocated as
        allocs[i] says, and goes out as sent[i] says. The parent must not have an
        "OpenVPN" node yet: with one, value_node_add returns NULL and the clients
        would be polled into a NULL node. */
    method Poll(t: ValueTree, parent: NodeRef, allocs: seq<bool>) returns (n: int, sent: seq<bool>)
      requires Valid() && t.Valid() && parent in t.nodes && |allocs| == |clients|
      requires |clients| == 0 || TFirstNamed(t.ViewOf(parent).children, "OpenVPN").None?
      modifies t
      ensures t.Valid() && parent in t.nodes
      ensures AllConfigured(old(Views())) && DistinctInterfaces(old(Views())) &&
        (n, t.ViewOf(parent)) == OpenvpnPoll(old(Views()), allocs, old(t.ViewOf(parent)))
      ensures |sent| == |clients| && forall i :: 0 <= i < |clients| ==> sent[i] == (allocs[i] && old(clients[i].connected))
    {
      ghost var vs := Views();
      n := |clients|;
      sent := [];
      if n == 0 {
        return;
      }
      ghost var p0 := t.ViewOf(parent);
      var vn := AddSubtreeNode(t, parent, "OpenVPN", p0);
      assert Subtree("OpenVPN", []) == Leaf("OpenVPN", None);
      sent := PollClients(t, parent, vn.value, p0, vs, allocs);
    }

    /** The loop of osysmon_openvpn_poll over the clients, whose views are vs, into
        the "OpenVPN" node c. */
    method PollClients(t: ValueTree, parent: NodeRef, c: NodeRef, ghost p0: Tree, ghost vs: seq<VpnView>, allocs: seq<bool>)
      returns (sent: seq<bool>)
      requires |clients| == |vs| == |allocs| && AllConfigured(vs)
      requires forall j :: 0 <= j < |clients| ==> vs[j] == clients[j].View()
      requires t.Valid() && ParentShows(t.nodes, t.next, parent, c, p0, Leaf("OpenVPN", None))
      modifies t
      ensures t.Valid() && ParentShows(t.nodes, t.next, parent, c, p0, ClientsEffect(Leaf("OpenVPN", None), vs, allocs))
      ensures |sent| == |clients| && forall j :: 0 <= j < |clients| ==> sent[j] == (allocs[j] && vs[j].connected)
    {
      sent := [];
      var i := 0;
      assert vs[..0] == [] && allocs[..0] == [];
      while i < |clients|
        invariant 0 <= i <= |clients| && Polled(t, parent, c, p0, vs, allocs, i, sent)
      {
        var s := PollStep(t, parent, c, p0, vs, allocs, i, sent);
        sent := sent + [s];
        i := i + 1;
      }
      assert vs[..i] == vs && allocs[..i] == allocs;
    }

    /** osysmon_openvpn_poll's loop after i clients: the "OpenVPN" node c shows them
        polled, and sent says which sent a state command. */
    ghost predicate Polled(t: ValueTree, parent: NodeRef, c: NodeRef, p0: Tree, vs: seq<VpnView>, allocs: seq<bool>,
                           i: nat, sent: seq<bool>)
      reads t
      requires i <= |vs| == |allocs| && AllConfigured(vs)
    {
      t.Valid() && ParentShows(t.nodes, t.next, parent, c, p0, ClientsEffect(Leaf("OpenVPN", None), vs[..i], allocs[..i])) &&
      |sent| == i && forall j :: 0 <= j < i ==> sent[j] == (allocs[j] && vs[j].connected)
    }

    /** openvpn_client_poll of the i-th client, after the first i. */
    method PollStep(t: ValueTree, parent: NodeRef, c: NodeRef, ghost p0: Tree, ghost vs: seq<VpnView>,
                    allocs: seq<bool>, i: nat, ghost sent: seq<bool>) returns (s: bool)
      requires i < |clients| && i < |vs| == |allocs| && AllConfigured(vs) && vs[i] == clients[i].View()
      requires Polled(t, parent, c, p0, vs, allocs, i, sent)
      modifies t
      ensures Polled(t, parent, c, p0, vs, allocs, i + 1, sent + [s])
    {
      ghost var u := ClientsEffect(Leaf("OpenVPN", None), vs[..i], allocs[..i]);
      ClientsSnoc(Leaf("OpenVPN", None), vs, allocs, i);
      s := clients[i].Poll(t, parent, c, p0, u, allocs[i]);
      SentStep(vs, allocs, sent, s);
    }
  }
}
