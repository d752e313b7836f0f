/** The shell-command source: a list of named commands, and a poll that adds a
    "shellcmd" node with, for each command, a leaf holding what it printed. */
module OsysmonShellcmd {
  import opened CText
  import opened ValueNode
  import opened PollTree
  import opened Registry
  import opened OsysmonCtrl

  /** The size of the output buffer of osysmon_shellcmd_run. */
  const OUT_BUF: nat := 512

  const NEWLINE: byte := 10

  /** One command: the leaf's name and the shell command line. */
  datatype ShellCmd = ShellCmd(name: string, cmd: string)

  function CmdName(c: ShellCmd): string {
    c.name
  }

  /** What running a command gives: popen fails with an errno, or the command's
      standard output is read to its end. */
  datatype Run = PopenFailed(errno: int) | Ran(output: seq<byte>)

  // ---------------------------------------------------------------------------
  // Running a command

  /** fread(p, 1, want, f) on a pipe whose output is `data`, `off` bytes of which
      are already read: up to `want` more bytes, fewer only at the end. */
  function Fread(data: seq<byte>, off: nat, want: nat): (r: seq<byte>)
    requires off <= |data|
    ensures |r| <= want && off + |r| <= |data| && r == data[off..off + |r|]
    ensures |r| == want || off + |r| == |data|
  {
    if |data| - off <= want then data[off..] else data[off..off + want]
  }

  /** The bytes osysmon_shellcmd_run collects: the output up to the buffer's 511. */
  function Collected(output: seq<byte>): (got: seq<byte>)
    ensures |got| < OUT_BUF && |got| <= |output| && got == output[..|got|]
    ensures |got| < OUT_BUF - 1 ==> got == output
  {
    if |output| < OUT_BUF then output else output[..OUT_BUF - 1]
  }

  /** The leaf value for a run: the popen failure with its errno; "<EMPTY>" when the
      command printed nothing; otherwise what was collected less one final newline,
      as a C string. */
  function RunValue(run: Run): string {
    match run
    case PopenFailed(e) => Snprintf("<popen failed (" + SignedDecimal(e) + ")>", OUT_BUF)
    case Ran(output) =>
      var got := Collected(output);
      if |got| == 0 then "<EMPTY>"
      else if got[|got| - 1] == NEWLINE then CStr(Text(got[..|got| - 1]))
      else CStr(Text(got))
  }

  /** osysmon_shellcmd_run, without the value_node_add: read the pipe until fread
      returns nothing or the buffer is full, then drop one trailing newline. */
  method RunCommand(run: Run) returns (value: string)
    ensures value == RunValue(run)
  {
    if run.PopenFailed? {
      return Snprintf("<popen failed (" + SignedDecimal(run.errno) + ")>", OUT_BUF);
    }
    var output := run.output;
    var buf: seq<byte> := [];
    while true
      invariant |buf| <= OUT_BUF - 1 && |buf| <= |output| && buf == output[..|buf|]
      decreases OUT_BUF - |buf|
    {
      var chunk := Fread(output, |buf|, OUT_BUF - 1 - |buf|);
      if |chunk| == 0 {
        break;
      }
      buf := buf + chunk;
    }
    assert buf == Collected(output);
    if |buf| > 0 {
      if buf[|buf| - 1] == NEWLINE {
        buf := buf[..|buf| - 1];
      }
      value := CStr(Text(buf));
    } else {
      value := "<EMPTY>";
    }
  }

  /** Output text o that fits the buffer and holds no NUL shows as o when the
      command prints it with a final newline. */
  lemma RunShowsLine(o: string)
    requires IsByteText(o) && NUL !in o && |o| < OUT_BUF - 1
    ensures RunValue(Ran(Bytes(o) + [NEWLINE])) == o
  {
    var b := Bytes(o) + [NEWLINE];
    assert Collected(b) == b;
    assert b[..|b| - 1] == Bytes(o);
    TextOfBytes(o);
    CStrOfPlain(o);
  }

  /** ... and when it prints it without one, if o is not empty and does not end
      in a newline of its own. */
  lemma RunShowsText(o: string)
    requires IsByteText(o) && NUL !in o && 0 < |o| < OUT_BUF - 1 && o[|o| - 1] != '\n'
    ensures RunValue(Ran(Bytes(o))) == o
  {
    var b := Bytes(o);
    assert Collected(b) == b;
    assert b[|b| - 1] != NEWLINE;
    TextOfBytes(o);
    CStrOfPlain(o);
  }

  /** A command that prints nothing shows as "<EMPTY>"; one that prints a lone
      newline shows as the empty string. */
  lemma RunEmpty()
    ensures RunValue(Ran([])) == "<EMPTY>"
    ensures RunValue(Ran([NEWLINE])) == ""
  {
    assert [NEWLINE][..0] == [];
  }

  /** Whatever the run, the value fits the buffer. */
  lemma RunValueBounded(run: Run)
    ensures |RunValue(run)| < OUT_BUF
  {
  }

  // ---------------------------------------------------------------------------
  // The poll, on values

  /** The leaves the poll adds: one per command in list order, the i-th run as
      runs[i]. */
  function Outputs(cs: seq<ShellCmd>, runs: seq<Run>): (ps: seq<(string, string)>)
    requires |runs| == |cs|
    ensures |ps| == |cs|
    ensures forall i :: 0 <= i < |cs| ==> ps[i] == (cs[i].name, RunValue(runs[i]))
  {
    seq(|cs|, i requires 0 <= i < |cs| => (cs[i].name, RunValue(runs[i])))
  }

  /** The outputs of one more command. */
  lemma OutputsSnoc(cs: seq<ShellCmd>, runs: seq<Run>, i: nat)
    requires i < |cs| == |runs|
    ensures Outputs(cs[..i + 1], runs[..i + 1]) == Outputs(cs[..i], runs[..i]) + [(cs[i].name, RunValue(runs[i]))]
  {
    var a := Outputs(cs[..i + 1], runs[..i + 1]);
    var b := Outputs(cs[..i], runs[..i]) + [(cs[i].name, RunValue(runs[i]))];
    assert forall j :: 0 <= j < |a| ==> a[j] == b[j];
  }

  /** osysmon_shellcmd_poll under a parent whose value is p: a "shellcmd" node with
      the outputs, even when there is no command. */
  function ShellcmdPoll(cs: seq<ShellCmd>, runs: seq<Run>, p: Tree): Tree
    requires |runs| == |cs|
  {
    TGraft(p, Subtree("shellcmd", Outputs(cs, runs)))
  }

  /** With commands of distinct names and no "shellcmd" node yet, the parent gains a
      "shellcmd" node holding one leaf per command, in order. */
  lemma ShellcmdPollReport(cs: seq<ShellCmd>, runs: seq<Run>, p: Tree)
    requires |runs| == |cs| && UniqueKeys(cs, CmdName) && TFirstNamed(p.children, "shellcmd").None?
    ensures ShellcmdPoll(cs, runs, p) == p.(children := p.children + [Tree("shellcmd", None, None,
      seq(|cs|, i requires 0 <= i < |cs| => Leaf(cs[i].name, Some(RunValue(runs[i])))))])
  {
    var ps := Outputs(cs, runs);
    assert forall i, j :: 0 <= i < j < |ps| ==> ps[i].0 != ps[j].0 by {
      forall i, j | 0 <= i < j < |ps| ensures ps[i].0 != ps[j].0 {
        assert CmdName(cs[i]) != CmdName(cs[j]);
      }
    }
    SubtreeLeaves("shellcmd", ps);
    assert seq(|ps|, i requires 0 <= i < |ps| => Leaf(ps[i].0, Some(ps[i].1))) ==
      seq(|cs|, i requires 0 <= i < |cs| => Leaf(cs[i].name, Some(RunValue(runs[i]))));
    GraftShows(p, "shellcmd", ps);
  }

  // ---------------------------------------------------------------------------
  // The command line of "shellcmd NAME .TEXT"

  /** argv_concat(argv, argc, 1): the words after the name, joined by single spaces. */
  function CommandLine(words: seq<string>): (r: string)
    ensures |words| == 1 ==> r == words[0]
  {
    Join(words, ' ')
  }

  /** The command line keeps the words: split at its spaces it gives them back,
      when no word holds a space. */
  lemma CommandLineWords(words: seq<string>)
    requires |words| > 0 && forall i :: 0 <= i < |words| ==> ' ' !in words[i]
    ensures Split(CommandLine(words), ' ') == words
  {
    JoinSplits(words, ' ');
  }

  // ---------------------------------------------------------------------------
  // The source

  /** The commands of osysmon_state, in list order. */
  class ShellCmds {
    var cmds: seq<ShellCmd>

    ghost predicate Valid()
      reads this
    {
      UniqueKeys(cmds, CmdName)
    }

    constructor ()
      ensures Valid() && cmds == []
    {
      cmds := [];
    }

    /** osysmon_shellcmd_find: the first command named `name`. */
    method Find(name: string) returns (r: Option<nat>)
      ensures r == IndexOfKey(cmds, CmdName, name)
    {
      var i := 0;
      while i < |cmds|
        invariant 0 <= i <= |cmds|
        invariant forall j :: 0 <= j < i ==> CmdName(cmds[j]) != name
      {
        if cmds[i].name == name {
          IndexOfKeyAt(cmds, CmdName, name, i);
          return Some(i);
        }
        i := i + 1;
      }
      return None;
    }

    /** osysmon_shellcmd_add: refused when a command of that name exists, otherwise
        a new command at the tail. */
    method Add(name: string, cmd: string) returns (added: bool)
      requires Valid()
      modifies this
      ensures Valid()
      ensures added <==> IndexOfKey(old(cmds), CmdName, name).None?
      ensures cmds == if added then old(cmds) + [ShellCmd(name, cmd)] else old(cmds)
    {
      var found := Find(name);
      if found.Some? {
        return false;
      }
      UniqueAppend(cmds, CmdName, ShellCmd(name, cmd));
      cmds := cmds + [ShellCmd(name, cmd)];
      added := true;
    }

    /** osysmon_shellcmd_destroy: unlink the k-th command. */
    method Destroy(k: nat)
      requires Valid() && k < |cmds|
      modifies this
      ensures Valid() && cmds == old(cmds[..k] + cmds[k + 1..])
      ensures IndexOfKey(cmds, CmdName, old(cmds[k].name)).None?
    {
      UniqueRemove(cmds, CmdName, k);
      cmds := cmds[..k] + cmds[k + 1..];
    }

    /** The "shellcmd NAME .TEXT" command: add a command whose line is the words
        after the name joined by spaces, warning when the name is taken. */
    method CfgShellcmd(name: string, words: seq<string>) returns (res: CmdResult)
      requires Valid()
      modifies this
      ensures Valid()
      ensures IndexOfKey(old(cmds), CmdName, name).Some? ==> res == CmdWarning && cmds == old(cmds)
      ensures IndexOfKey(old(cmds), CmdName, name).None? ==>
        res == CmdSuccess && cmds == old(cmds) + [ShellCmd(name, CommandLine(words))]
    {
      var line := CommandLine(words);
      var added := Add(name, line);
      res := if added then CmdSuccess else CmdWarning;
    }

    /** The "no shellcmd NAME" command: remove the command of that name, warning
        when there is none. */
    method CfgNoShellcmd(name: string) returns (res: CmdResult)
      requires Valid()
      modifies this
      ensures Valid()
      ensures var k := IndexOfKey(old(cmds), CmdName, name);
        (k.None? ==> res == CmdWarning && cmds == old(cmds)) &&
        (k.Some? ==> res == CmdSuccess && cmds == old(cmds[..k.value] + cmds[k.value + 1..]))
      ensures IndexOfKey(cmds, CmdName, name).None?
    {
      var k := Find(name);
      if k.None? {
        return CmdWarning;
      }
      Destroy(k.value);
      res := CmdSuccess;
    }

    /** osysmon_shellcmd_poll: the "shellcmd" node, then one run per command in list
        order (into a detached node when the parent has a "shellcmd" node already);
        the i-th command runs as runs[i] says. */
    method Poll(t: ValueTree, parent: NodeRef, runs: seq<Run>) returns (rc: int)
      requires t.Valid() && parent in t.nodes && |runs| == |cmds|
      modifies t
      ensures t.Valid() && parent in t.nodes && rc == 0
      ensures t.ViewOf(parent) == ShellcmdPoll(cmds, runs, old(t.ViewOf(parent)))
    {
      ghost var p0 := t.ViewOf(parent);
      var vn := AddSubtreeNode(t, parent, "shellcmd", p0);
      var i := 0;
      while i < |cmds|
        invariant 0 <= i <= |cmds|
        invariant Running(t, parent, vn, p0, Outputs(cmds[..i], runs[..i]))
      {
        RunOne(t, parent, vn, p0, runs, i);
        i := i + 1;
      }
      assert cmds[..|cmds|] == cmds && runs[..|runs|] == runs;
      GraftShows(p0, "shellcmd", Outputs(cmds, runs));
      rc := 0;
    }

    /** One round of the poll's loop: run the i-th command and add its leaf. */
    method RunOne(t: ValueTree, parent: NodeRef, vn: Option<NodeRef>, ghost p0: Tree, runs: seq<Run>, i: nat)
      requires i < |cmds| == |runs| && Running(t, parent, vn, p0, Outputs(cmds[..i], runs[..i]))
      modifies t
      ensures Running(t, parent, vn, p0, Outputs(cmds[..i + 1], runs[..i + 1]))
    {
      var value := RunCommand(runs[i]);
      ghost var ps := Outputs(cmds[..i], runs[..i]);
      AddSubtreeLeaf(t, parent, vn, p0, "shellcmd", ps, cmds[i].name, value);
      OutputsSnoc(cmds, runs, i);
    }
  }

  /** Where the poll stands: the "shellcmd" node vn shows the outputs ps, or, when
      the parent had a "shellcmd" node, the parent is as it was. */
  ghost predicate Running(t: ValueTree, parent: NodeRef, vn: Option<NodeRef>, p0: Tree, ps: seq<(string, string)>)
    reads t
  {
    t.Valid() && parent in t.nodes &&
    (vn.Some? ==> ParentShows(t.nodes, t.next, parent, vn.value, p0, Subtree("shellcmd", ps)) &&
                  TFirstNamed(p0.children, "shellcmd").None?) &&
    (vn.None? ==> t.ViewOf(parent) == p0 && TFirstNamed(p0.children, "shellcmd").Some?)
  }
}
