/** The file-watching source: a list of named files, and a poll that adds a
    "file" node with, for each file, a leaf holding its first line. */
module OsysmonFile {
  import opened CText
  import opened ValueNode
  import opened PollTree
  import opened Registry
  import opened OsysmonCtrl

  /** The size of the line buffer of osysmon_file_read. */
  const LINE_BUF: nat := 512

  const NEWLINE: byte := 10

  /** One watcher: the leaf's name and the file's path. */
  datatype FileWatch = FileWatch(name: string, path: string)

  function WatchName(w: FileWatch): string {
    w.name
  }

  /** The files the poll can see: the contents of each path fopen can open for
      reading; a path not in the map cannot be opened. */
  type FileSystem = map<string, seq<byte>>

  // ---------------------------------------------------------------------------
  // Reading a file

  /** fgets(buf, n + 1, f) on a file holding data: the bytes up to and including the
      first newline, at most n of them. Empty exactly when the file is empty, when
      fgets returns NULL. */
  function Fgets(data: seq<byte>, n: nat): (r: seq<byte>)
    ensures |r| <= n && |r| <= |data| && r == data[..|r|]
    ensures |r| == 0 <==> n == 0 || |data| == 0
    ensures forall i :: 0 <= i < |r| - 1 ==> r[i] != NEWLINE
    ensures |r| < n && |r| < |data| ==> r[|r| - 1] == NEWLINE
  {
    if n == 0 || |data| == 0 then []
    else if data[0] == NEWLINE then [NEWLINE]
    else [data[0]] + Fgets(data[1..], n - 1)
  }

  predicate NotNewline(c: char) {
    c != '\n'
  }

  /** The leaf value osysmon_file_read gives a file at path: "<NOTFOUND>" when it
      cannot be opened, "<EMPTY>" when it is empty, otherwise its first line (at
      most 511 bytes, as a C string) with the newlines cut off. */
  function FileValue(fs: FileSystem, path: string): string {
    if path !in fs then "<NOTFOUND>"
    else
      var line := Fgets(fs[path], LINE_BUF - 1);
      if |line| == 0 then "<EMPTY>"
      else TakeWhile(CStr(Text(line)), NotNewline)
  }

  /** osysmon_file_read, without the value_node_add: open, read one line, close,
      then cut the line at its last newline for as long as it has one. */
  method ReadFile(w: FileWatch, fs: FileSystem) returns (value: string)
    ensures value == FileValue(fs, w.path)
  {
    if w.path !in fs {
      return "<NOTFOUND>";
    }
    var line := Fgets(fs[w.path], LINE_BUF - 1);
    if |line| == 0 {
      return "<EMPTY>";
    }
    var buf := CStr(Text(line));
    ghost var whole := buf;
    while '\n' in buf
      invariant TakeWhile(buf, NotNewline) == TakeWhile(whole, NotNewline)
      decreases |buf|
    {
      var nl := StrRChr(buf, '\n').value;
      TakeWhileCut(buf, nl, NotNewline);
      buf := buf[..nl];
    }
    assert TakeWhile(buf, NotNewline) == buf;
    value := buf;
  }

  /** A file whose first line is l, with or without a newline after it, shows as l
      when l fits the buffer and holds no NUL. */
  lemma FileShowsFirstLine(fs: FileSystem, path: string, l: string, rest: seq<byte>)
    requires path in fs && fs[path] == Bytes(l) + rest
    requires 0 < |l| < LINE_BUF - 1 && IsByteText(l) && NUL !in l && '\n' !in l
    requires |rest| == 0 || rest[0] == NEWLINE
    ensures FileValue(fs, path) == l
  {
    var data := fs[path];
    var line := Fgets(data, LINE_BUF - 1);
    FgetsLine(Bytes(l), rest, LINE_BUF - 1);
    TextOfBytes(l);
    if |rest| == 0 {
      assert line == Bytes(l);
      CStrOfPlain(l);
    } else {
      assert line == Bytes(l) + [NEWLINE];
      assert Text(line) == l + "\n";
      CStrNewline(l);
      TakeWhileRun(l, "\n", NotNewline);
    }
  }

  /** fgets reads a line without newline and its terminator, when it fits. */
  lemma {:induction false} FgetsLine(b: seq<byte>, rest: seq<byte>, n: nat)
    requires |b| < n && NEWLINE !in b
    requires |rest| == 0 || rest[0] == NEWLINE
    ensures Fgets(b + rest, n) == b + (if |rest| == 0 then [] else [NEWLINE])
  {
    if |b| == 0 {
      assert b + rest == rest;
    } else {
      assert (b + rest)[1..] == b[1..] + rest;
      FgetsLine(b[1..], rest, n - 1);
    }
  }

  /** A line followed by a newline is its own C string. */
  lemma CStrNewline(l: string)
    requires NUL !in l
    ensures CStr(l + "\n") == l + "\n"
  {
    CStrOfPlain(l + "\n");
  }

  /** Whatever the file, the leaf value has no newline and fits the buffer. */
  lemma FileValueBounded(fs: FileSystem, path: string)
    ensures |FileValue(fs, path)| < LINE_BUF && '\n' !in FileValue(fs, path)
  {
  }

  // ---------------------------------------------------------------------------
  // The poll, on values

  /** The leaves the poll adds, one per watcher in list order. */
  function Readings(ws: seq<FileWatch>, fs: FileSystem): (ps: seq<(string, string)>)
    ensures |ps| == |ws|
    ensures forall i :: 0 <= i < |ws| ==> ps[i] == (ws[i].name, FileValue(fs, ws[i].path))
  {
    seq(|ws|, i requires 0 <= i < |ws| => (ws[i].name, FileValue(fs, ws[i].path)))
  }

  /** osysmon_file_poll under a parent whose value is p: nothing without watchers,
      otherwise a "file" node with the readings. */
  function FilePoll(ws: seq<FileWatch>, fs: FileSystem, p: Tree): Tree {
    if |ws| == 0 then p else TGraft(p, Subtree("file", Readings(ws, fs)))
  }

  /** With watchers of distinct names and no "file" node yet, the parent gains a
      "file" node holding one leaf per watcher, in order, valued as FileValue says. */
  lemma FilePollReport(ws: seq<FileWatch>, fs: FileSystem, p: Tree)
    requires |ws| > 0 && UniqueKeys(ws, WatchName) && TFirstNamed(p.children, "file").None?
    ensures FilePoll(ws, fs, p) == p.(children := p.children + [Tree("file", None, None,
      seq(|ws|, i requires 0 <= i < |ws| => Leaf(ws[i].name, Some(FileValue(fs, ws[i].path)))))])
  {
    var ps := Readings(ws, fs);
    assert forall i, j :: 0 <= i < j < |ps| ==> ps[i].0 != ps[j].0 by {
      forall i, j | 0 <= i < j < |ps| ensures ps[i].0 != ps[j].0 {
        assert WatchName(ws[i]) != WatchName(ws[j]);
      }
    }
    SubtreeLeaves("file", ps);
    assert seq(|ps|, i requires 0 <= i < |ps| => Leaf(ps[i].0, Some(ps[i].1))) ==
      seq(|ws|, i requires 0 <= i < |ws| => Leaf(ws[i].name, Some(FileValue(fs, ws[i].path))));
    GraftShows(p, "file", ps);
  }

  // ---------------------------------------------------------------------------
  // The source

  /** The watchers of osysmon_state, in list order. */
  class FileWatchers {
    var files: seq<FileWatch>

    ghost predicate Valid()
      reads this
    {
      UniqueKeys(files, WatchName)
    }

    constructor ()
      ensures Valid() && files == []
    {
      files := [];
    }

    /** osysmon_file_find: the first watcher named `name`. */
    method Find(name: string) returns (r: Option<nat>)
      ensures r == IndexOfKey(files, WatchName, name)
    {
      var i := 0;
      while i < |files|
        invariant 0 <= i <= |files|
        invariant forall j :: 0 <= j < i ==> WatchName(files[j]) != name
      {
        if files[i].name == name {
          IndexOfKeyAt(files, WatchName, name, i);
          return Some(i);
        }
        i := i + 1;
      }
      return None;
    }

    /** osysmon_file_add: refused when a watcher of that name exists, otherwise a
        new watcher at the tail. */
    method Add(name: string, path: string) returns (added: bool)
      requires Valid()
      modifies this
      ensures Valid()
      ensures added <==> IndexOfKey(old(files), WatchName, name).None?
      ensures files == if added then old(files) + [FileWatch(name, path)] else old(files)
    {
      var found := Find(name);
      if found.Some? {
        return false;
      }
      UniqueAppend(files, WatchName, FileWatch(name, path));
      files := files + [FileWatch(name, path)];
      added := true;
    }

    /** osysmon_file_destroy: unlink the k-th watcher. */
    method Destroy(k: nat)
      requires Valid() && k < |files|
      modifies this
      ensures Valid() && files == old(files[..k] + files[k + 1..])
      ensures IndexOfKey(files, WatchName, old(files[k].name)).None?
    {
      UniqueRemove(files, WatchName, k);
      files := files[..k] + files[k + 1..];
    }

    /** The "file NAME PATH" command: add a watcher, warning when the name is
        taken. */
    method CfgFile(name: string, path: string) returns (res: CmdResult)
      requires Valid()
      modifies this
      ensures Valid()
      ensures IndexOfKey(old(files), WatchName, name).Some? ==> res == CmdWarning && files == old(files)
      ensures IndexOfKey(old(files), WatchName, name).None? ==>
        res == CmdSuccess && files == old(files) + [FileWatch(name, path)]
    {
      var added := Add(name, path);
      res := if added then CmdSuccess else CmdWarning;
    }

    /** The "no file NAME" command: remove the watcher of that name, warning when
        there is none. */
    method CfgNoFile(name: string) returns (res: CmdResult)
      requires Valid()
      modifies this
      ensures Valid()
      ensures var k := IndexOfKey(old(files), WatchName, name);
        (k.None? ==> res == CmdWarning && files == old(files)) &&
        (k.Some? ==> res == CmdSuccess && files == old(files[..k.value] + files[k.value + 1..]))
      ensures IndexOfKey(files, WatchName, name).None?
    {
      var k := Find(name);
      if k.None? {
        return CmdWarning;
      }
      Destroy(k.value);
      res := CmdSuccess;
    }

    /** osysmon_file_poll: nothing without watchers; otherwise the "file" node,
        then one reading per watcher in list order (into a detached node when the
        parent has a "file" node already). */
    method Poll(t: ValueTree, parent: NodeRef, fs: FileSystem) returns (rc: int)
      requires t.Valid() && parent in t.nodes
      modifies t
      ensures t.Valid() && parent in t.nodes && rc == 0
      ensures t.ViewOf(parent) == FilePoll(files, fs, old(t.ViewOf(parent)))
    {
      if |files| == 0 {
        return 0;
      }
      ghost var p0 := t.ViewOf(parent);
      var vn := AddSubtreeNode(t, parent, "file", p0);
      var i := 0;
      while i < |files|
        invariant 0 <= i <= |files|
        invariant Reading(t, parent, vn, p0, Readings(files[..i], fs))
      {
        ReadOne(t, parent, vn, p0, fs, i);
        i := i + 1;
      }
      assert files[..|files|] == files;
      GraftShows(p0, "file", Readings(files, fs));
      rc := 0;
    }

    /** One round of the poll's loop: read the i-th file and add its leaf. */
    method ReadOne(t: ValueTree, parent: NodeRef, vn: Option<NodeRef>, ghost p0: Tree, fs: FileSystem, i: nat)
      requires i < |files| && Reading(t, parent, vn, p0, Readings(files[..i], fs))
      modifies t
      ensures Reading(t, parent, vn, p0, Readings(files[..i + 1], fs))
    {
      var value := ReadFile(files[i], fs);
      AddSubtreeLeaf(t, parent, vn, p0, "file", Readings(files[..i], fs), files[i].name, value);
      assert Readings(files[..i + 1], fs) == Readings(files[..i], fs) + [(files[i].name, value)];
    }
  }

  /** Where the poll stands: the "file" node vn shows the readings ps, or, when the
      parent had a "file" node, the parent is as it was. */
  ghost predicate Reading(t: ValueTree, parent: NodeRef, vn: Option<NodeRef>, p0: Tree, ps: seq<(string, string)>)
    reads t
  {
    t.Valid() && parent in t.nodes &&
    (vn.Some? ==> ParentShows(t.nodes, t.next, parent, vn.value, p0, Subtree("file", ps)) &&
                  TFirstNamed(p0.children, "file").None?) &&
    (vn.None? ==> t.ViewOf(parent) == p0 && TFirstNamed(p0.children, "file").Some?)
  }
}
