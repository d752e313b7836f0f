/** The sysinfo polling source: when enabled, a "sysinfo" node with the load
    averages, the RAM figures in megabytes and the uptime, as the kernel's
    sysinfo(2) reports them. */
module OsysmonSysinfo {
  import opened CText
  import opened ValueNode
  import opened PollTree
  import opened OsysmonCtrl

  const SECS_PER_MIN: nat := 60
  const MINS_PER_HOUR: nat := 60
  const HOURS_PER_DAY: nat := 24

  /** The size of the formatting buffer of osysmon_sysinfo_poll. */
  const BUF_SIZE: nat := 32

  /** One mebibyte: the 1024*1024 of to_mbytes. */
  const MIB: nat := 1024 * 1024

  // ---------------------------------------------------------------------------
  // Conversions

  /** to_days: whole days in a number of seconds. */
  function ToDays(s: uint64): nat {
    s as nat / (SECS_PER_MIN * MINS_PER_HOUR * HOURS_PER_DAY)
  }

  /** to_hours: the hours past the last whole day. */
  function ToHours(s: uint64): nat {
    (s as nat / (SECS_PER_MIN * MINS_PER_HOUR)) % HOURS_PER_DAY
  }

  /** to_minutes: the minutes past the last whole hour. */
  function ToMinutes(s: uint64): nat {
    (s as nat / SECS_PER_MIN) % MINS_PER_HOUR
  }

  /** to_seconds: the seconds past the last whole minute. */
  function ToSeconds(s: uint64): nat {
    s as nat % SECS_PER_MIN
  }

  /** The four parts are a clock reading: each below its unit's range, and
      together exactly the seconds they came from. */
  lemma UptimeSplits(s: uint64)
    ensures ToHours(s) < 24 && ToMinutes(s) < 60 && ToSeconds(s) < 60
    ensures ToDays(s) * 86400 + ToHours(s) * 3600 + ToMinutes(s) * 60 + ToSeconds(s) == s as nat
  {
    var n := s as nat;
    var m := n / 60;
    var h := m / 60;
    assert n == m * 60 + n % 60;
    assert m == h * 60 + m % 60;
    assert h == (h / 24) * 24 + h % 24;
    assert h / 24 == n / 86400 by {
      DivDiv(n, 60, 60);
      DivDiv(n, 3600, 24);
    }
  }

  /** Dividing twice is dividing by the product. */
  lemma DivDiv(n: nat, a: nat, b: nat)
    requires a > 0 && b > 0
    ensures n / a / b == n / (a * b)
  {
    var q := n / a / b;
    var r := n / a % b;
    assert n / a == q * b + r;
    assert n == (q * b + r) * a + n % a;
    assert n == q * (a * b) + (r * a + n % a);
    assert r * a + n % a < a * b by {
      assert r * a <= (b - 1) * a;
    }
    DivUnique(n, a * b, q);
  }

  /** The quotient is the only q with q * d <= n < (q + 1) * d. */
  lemma DivUnique(n: nat, d: nat, q: nat)
    requires d > 0 && q * d <= n < q * d + d
    ensures n / d == q
  {
    var q' := n / d;
    assert q' * d <= n < q' * d + d;
    if q' < q {
      MulLe(q' + 1, q, d);
    } else if q < q' {
      MulLe(q + 1, q', d);
    }
  }

  lemma MulLe(a: nat, b: nat, d: nat)
    requires a <= b
    ensures a * d <= b * d
  {
  }

  /** to_mbytes: an amount counted in units of mem_unit bytes, in megabytes. The
      divisor is computed first, so a unit larger than a megabyte divides by zero
      and is excluded. */
  function ToMbytes(v: uint64, memUnit: uint32): nat
    requires 0 < memUnit as nat <= MIB
  {
    v as nat / (MIB / memUnit as nat)
  }

  /** When the unit divides a megabyte (the kernel's units are powers of two), the
      result is the number of whole megabytes in v units. */
  lemma ToMbytesRoundsDown(v: uint64, memUnit: uint32)
    requires 0 < memUnit as nat <= MIB && MIB % memUnit as nat == 0
    ensures ToMbytes(v, memUnit) == (v as nat * memUnit as nat) / MIB
  {
    var u := memUnit as nat;
    var d := MIB / u;
    assert d * u == MIB;
    var q := v as nat / d;
    var r := v as nat % d;
    assert v as nat == q * d + r;
    assert v as nat * u == q * MIB + r * u by {
      assert v as nat * u == (q * d + r) * u;
    }
    assert r * u < MIB by {
      assert r * u <= (d - 1) * u;
    }
    DivUnique(v as nat * u, MIB, q);
  }

  // ---------------------------------------------------------------------------
  // The texts

  /** The "%lud %02lu:%02lu:%02lu" of the uptime, before the buffer's cut. */
  function UptimeFormat(s: uint64): string {
    Decimal(ToDays(s)) + "d " + Pad2(ToHours(s)) + ":" + Pad2(ToMinutes(s)) + ":" + Pad2(ToSeconds(s))
  }

  /** The uptime leaf's value. */
  function UptimeText(s: uint64): string {
    Snprintf(UptimeFormat(s), BUF_SIZE)
  }

  /** A number below 100 prints in exactly two digits under "%02lu". */
  lemma Pad2Two(n: nat)
    requires n < 100
    ensures |Pad2(n)| == 2
  {
    if n >= 10 {
      DecimalLength(n, 2);
    }
  }

  /** The uptime always fits the buffer: a 64-bit count of seconds has at most 15
      digits of days. */
  lemma UptimeFits(s: uint64)
    ensures |UptimeFormat(s)| <= 25 && UptimeText(s) == UptimeFormat(s)
  {
    UptimeSplits(s);
    Pad2Two(ToHours(s));
    Pad2Two(ToMinutes(s));
    Pad2Two(ToSeconds(s));
    assert ToDays(s) < Pow10(15) by {
      assert Pow10(15) == 1000000000000000;
    }
    DecimalLength(ToDays(s), 15);
  }

  /** Reading an uptime text back: the days before "d ", then three two-digit
      fields separated by ':'. */
  function ParseUptime(t: string): Option<nat> {
    var n := |t|;
    if n < 11 || t[n - 10..n - 8] != "d " || t[n - 6] != ':' || t[n - 3] != ':' then None
    else
      var d, hh, mm, ss := t[..n - 10], t[n - 8..n - 6], t[n - 5..n - 3], t[n - 2..];
      if !(AllDigits(d) && AllDigits(hh) && AllDigits(mm) && AllDigits(ss)) then None
      else Some(DigitsValue(d) * 86400 + DigitsValue(hh) * 3600 + DigitsValue(mm) * 60 + DigitsValue(ss))
  }

  /** The uptime text holds the uptime to the second. */
  lemma UptimeRoundTrip(s: uint64)
    ensures ParseUptime(UptimeText(s)) == Some(s as nat)
  {
    UptimeFits(s);
    UptimeSplits(s);
    UptimeLayout(s);
    DecimalRoundTrip(ToDays(s));
  }

  /** Where the fields of the uptime text sit, counted from its end. */
  lemma UptimeLayout(s: uint64)
    ensures var t := UptimeFormat(s); var n := |t|;
      n == |Decimal(ToDays(s))| + 10 && t[..n - 10] == Decimal(ToDays(s)) && t[n - 10..n - 8] == "d " &&
      t[n - 8..n - 6] == Pad2(ToHours(s)) && t[n - 6] == ':' && t[n - 5..n - 3] == Pad2(ToMinutes(s)) &&
      t[n - 3] == ':' && t[n - 2..] == Pad2(ToSeconds(s))
  {
    UptimeSplits(s);
    Pad2Two(ToHours(s));
    Pad2Two(ToMinutes(s));
    Pad2Two(ToSeconds(s));
    var d := Decimal(ToDays(s));
    var hh, mm, ss := Pad2(ToHours(s)), Pad2(ToMinutes(s)), Pad2(ToSeconds(s));
    var t := UptimeFormat(s);
    var n := |t|;
    assert t == d + "d " + hh + ":" + mm + ":" + ss;
    assert n == |d| + 10;
    assert t[..n - 10] == d;
    assert t[n - 10..n - 8] == "d ";
    assert t[n - 8..n - 6] == hh;
    assert t[n - 5..n - 3] == mm;
    assert t[n - 2..] == ss;
  }

  /** A sysinfo(2) result: the load averages as the text "%.2f/%.2f/%.2f" makes of
      them, the RAM figures in units of memUnit bytes, and the uptime in seconds. */
  datatype SysInfo = SysInfo(
    loadText: string,
    totalram: uint64,
    freeram: uint64,
    sharedram: uint64,
    memUnit: uint32,
    uptime: uint64)

  /** A mem_unit that to_mbytes can divide by. */
  predicate GoodUnit(si: SysInfo) {
    0 < si.memUnit as nat <= MIB
  }

  /** The RAM leaf's value: total/free/shared in megabytes, cut to the buffer. */
  function RamText(si: SysInfo): (r: string)
    requires GoodUnit(si)
    ensures |r| < BUF_SIZE
  {
    Snprintf(Decimal(ToMbytes(si.totalram, si.memUnit)) + "/" +
             Decimal(ToMbytes(si.freeram, si.memUnit)) + "/" +
             Decimal(ToMbytes(si.sharedram, si.memUnit)), BUF_SIZE)
  }

  /** The RAM text is cut only when the three numbers need more than 29 digits. */
  lemma RamTextWhole(si: SysInfo)
    requires GoodUnit(si)
    requires |Decimal(ToMbytes(si.totalram, si.memUnit))| + |Decimal(ToMbytes(si.freeram, si.memUnit))| +
             |Decimal(ToMbytes(si.sharedram, si.memUnit))| <= 29
    ensures RamText(si) == Decimal(ToMbytes(si.totalram, si.memUnit)) + "/" +
      Decimal(ToMbytes(si.freeram, si.memUnit)) + "/" + Decimal(ToMbytes(si.sharedram, si.memUnit))
  {
  }

  /** What the sysinfo(2) call gives: a negative result or the figures. */
  datatype SysinfoCall = SysinfoFailed(rc: int) | SysinfoOk(info: SysInfo)

  /** A call the poll can use: failures are negative, and mem_unit is usable. */
  predicate GoodCall(call: SysinfoCall) {
    match call
    case SysinfoFailed(rc) => rc < 0
    case SysinfoOk(si) => GoodUnit(si)
  }

  /** The leaves of the sysinfo node, in the order they are added. */
  function SysinfoLeaves(si: SysInfo): seq<(string, string)>
    requires GoodUnit(si)
  {
    [("load", Snprintf(si.loadText, BUF_SIZE)), ("ram", RamText(si)), ("uptime", UptimeText(si.uptime))]
  }

  /** osysmon_sysinfo_poll under a parent whose value is p: the result and the
      parent's value afterwards. */
  function SysinfoPoll(enabled: bool, call: SysinfoCall, p: Tree): (int, Tree)
    requires GoodCall(call)
  {
    if !enabled then (0, p)
    else match call
      case SysinfoFailed(rc) => (rc, TGraft(p, Leaf("sysinfo", None)))
      case SysinfoOk(si) => (0, TGraft(p, Subtree("sysinfo", SysinfoLeaves(si))))
  }

  /** A disabled source adds nothing and reports success; a failing call leaves an
      empty "sysinfo" node and passes the failure on; otherwise the node holds
      the figures and the result is 0. */
  lemma SysinfoReport(enabled: bool, call: SysinfoCall, p: Tree)
    requires GoodCall(call)
    ensures !enabled ==> SysinfoPoll(enabled, call, p) == (0, p)
    ensures enabled && call.SysinfoFailed? ==>
      SysinfoPoll(enabled, call, p).0 < 0 && SysinfoPoll(enabled, call, p).1 == TAdd(p, "sysinfo", None)
    ensures enabled && call.SysinfoOk? && TFirstNamed(p.children, "sysinfo").None? ==>
      SysinfoPoll(enabled, call, p) == (0, p.(children := p.children + [SysinfoNode(call.info)]))
  {
    if enabled && call.SysinfoOk? {
      SysinfoNodeLeaves(call.info);
      GraftShows(p, "sysinfo", SysinfoLeaves(call.info));
    }
  }

  /** The "sysinfo" node of a successful poll: load, ram and uptime, in that
      order, the uptime whole. */
  function SysinfoNode(si: SysInfo): Tree
    requires GoodUnit(si)
  {
    Tree("sysinfo", None, None, [
      Leaf("load", Some(Snprintf(si.loadText, BUF_SIZE))),
      Leaf("ram", Some(RamText(si))),
      Leaf("uptime", Some(UptimeFormat(si.uptime)))])
  }

  /** The leaves added under the "sysinfo" node make SysinfoNode. */
  lemma SysinfoNodeLeaves(si: SysInfo)
    requires GoodUnit(si)
    ensures Subtree("sysinfo", SysinfoLeaves(si)) == SysinfoNode(si)
  {
    var ps := SysinfoLeaves(si);
    SubtreeLeaves("sysinfo", ps);
    UptimeFits(si.uptime);
    assert seq(|ps|, i requires 0 <= i < |ps| => Leaf(ps[i].0, Some(ps[i].1))) == SysinfoNode(si).children;
  }

  // ---------------------------------------------------------------------------
  // The source

  /** The source's one setting, sysinfo_enabled. */
  class Sysinfo {
    var enabled: bool

    /** The setting starts enabled. */
    constructor ()
      ensures enabled
    {
      enabled := true;
    }

    /** The "sysinfo" command. */
    method CfgSysinfo() returns (res: CmdResult)
      modifies this
      ensures enabled && res == CmdSuccess
    {
      enabled := true;
      res := CmdSuccess;
    }

    /** The "no sysinfo" command. */
    method CfgNoSysinfo() returns (res: CmdResult)
      modifies this
      ensures !enabled && res == CmdSuccess
    {
      enabled := false;
      res := CmdSuccess;
    }

    /** osysmon_sysinfo_poll: nothing when disabled; otherwise the "sysinfo" node
        first, then the call, then one leaf per figure. When the node exists
        already the leaves go to a detached node. */
    method Poll(t: ValueTree, parent: NodeRef, call: SysinfoCall) returns (rc: int)
      requires t.Valid() && parent in t.nodes && GoodCall(call)
      modifies t
      ensures t.Valid() && parent in t.nodes
      ensures (rc, t.ViewOf(parent)) == SysinfoPoll(enabled, call, old(t.ViewOf(parent)))
    {
      if !enabled {
        return 0;
      }
      ghost var p0 := t.ViewOf(parent);
      var vn := AddSubtreeNode(t, parent, "sysinfo", p0);
      match call {
        case SysinfoFailed(r) =>
          rc := r;
        case SysinfoOk(si) =>
          var load, ram, up := Snprintf(si.loadText, BUF_SIZE), RamText(si), UptimeText(si.uptime);
          AddFigures(t, parent, vn, p0, load, ram, up);
          assert [("load", load), ("ram", ram), ("uptime", up)] == SysinfoLeaves(si);
          rc := 0;
      }
    }
  }

  /** The three value_node_add calls of a successful poll, under the "sysinfo"
      node vn or, when there is none, into a detached node. */
  method AddFigures(t: ValueTree, parent: NodeRef, vn: Option<NodeRef>, ghost p0: Tree,
                    load: string, ram: string, up: string)
    requires t.Valid() && parent in t.nodes
    requires vn.Some? ==>
      ParentShows(t.nodes, t.next, parent, vn.value, p0, Subtree("sysinfo", [])) && TFirstNamed(p0.children, "sysinfo").None?
    requires vn.None? ==> t.ViewOf(parent) == p0 && TFirstNamed(p0.children, "sysinfo").Some?
    modifies t
    ensures t.Valid() && parent in t.nodes
    ensures t.ViewOf(parent) == TGraft(p0, Subtree("sysinfo", [("load", load), ("ram", ram), ("uptime", up)]))
  {
    ghost var ps := [("load", load), ("ram", ram), ("uptime", up)];
    assert [] + [ps[0]] == ps[..1] && ps[..1] + [ps[1]] == ps[..2] && ps[..2] + [ps[2]] == ps;
    AddSubtreeLeaf(t, parent, vn, p0, "sysinfo", [], "load", load);
    AddSubtreeLeaf(t, parent, vn, p0, "sysinfo", ps[..1], "ram", ram);
    AddSubtreeLeaf(t, parent, vn, p0, "sysinfo", ps[..2], "uptime", up);
    GraftShows(p0, "sysinfo", ps);
  }
}
