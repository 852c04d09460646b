/** A record of what every file in a workspace was, and the check of what has changed
    since: by inode and status-change time where they settle it, by content elsewhere. */
module FileRecords {
  import Names

  // ----- the disk

  datatype Kind = File | Symlink | Special

  /** body is a file's bytes or the text a link points to. */
  datatype Inode = Inode(kind: Kind, perm: nat, body: string, ctime: int)

  /** names leads from paths to inode numbers. clock is the last status-change time the
      kernel gave out; known is whether the platform says what an inode is. */
  datatype Disk = Disk(names: map<string, nat>, inodes: map<nat, Inode>, clock: int, known: bool)

  ghost predicate Valid(d: Disk) {
    (forall p :: p in d.names ==> d.names[p] in d.inodes && d.names[p] > 0)
    && forall n :: n in d.inodes ==> d.inodes[n].ctime <= d.clock
  }

  /** What a check compares: a path's kind, mode and contents. A path that is not there,
      and one that is neither file nor link, are alike. The digest of a file stands for
      its bytes. */
  datatype Content = Absent | FileOf(perm: nat, digest: string) | LinkTo(target: string)

  function Seen(i: Inode): Content {
    match i.kind
    case File => FileOf(i.perm, i.body)
    case Symlink => LinkTo(i.body)
    case Special => Absent
  }

  function View(d: Disk, path: string): Content {
    if path in d.names && d.names[path] in d.inodes then Seen(d.inodes[d.names[path]]) else Absent
  }

  // ----- what tells two paths apart

  datatype Option<T> = None | Some(value: T)

  /** The file or link path leads to; something else is as good as nothing. */
  function Held(d: Disk, path: string): Option<Inode> {
    if path in d.names && d.names[path] in d.inodes && d.inodes[d.names[path]].kind != Special
    then Some(d.inodes[d.names[path]])
    else None
  }

  /** Between d and e path came, went, became another kind of thing, or changed its bytes,
      the text it points to, or, of a file, its permissions. */
  predicate Differs(d: Disk, e: Disk, path: string) {
    match (Held(d, path), Held(e, path))
    case (None, None) => false
    case (Some(i), Some(j)) => i.kind != j.kind || i.body != j.body || (i.kind == File && i.perm != j.perm)
    case _ => true
  }

  /** And that is exactly what a check tells apart. */
  lemma ViewsTellApart(d: Disk, e: Disk, path: string)
    ensures View(d, path) != View(e, path) <==> Differs(d, e, path)
    ensures View(d, path) == Absent <==> Held(d, path) == None
  {
  }

  // ----- what happens to a disk

  datatype Op =
    | Write(path: string, body: string)
    | Chmod(path: string, perm: nat)
    | Touch(path: string)
    | Create(path: string, number: nat, kind: Kind, perm: nat, body: string)
    | Link(path: string, other: string)
    | Unlink(path: string)
    | Rename(path: string, other: string, stamped: bool)

  /** number names no inode now; it may have named one before. */
  predicate Possible(d: Disk, op: Op) {
    match op
    case Create(path, number, _, _, _) => path !in d.names && number !in d.inodes && number > 0
    case Link(path, other) => path in d.names && other !in d.names
    case Rename(path, other, _) => path in d.names
    case _ => op.path in d.names
  }

  /** The inode at path becomes i, at the next status-change time. */
  function Stamped(d: Disk, number: nat, i: Inode): Disk {
    d.(inodes := d.inodes[number := i.(ctime := d.clock + 1)], clock := d.clock + 1)
  }

  /** An inode no name leads to is gone, and its number free. */
  function Swept(d: Disk): Disk {
    d.(inodes := map n | n in d.inodes && n in d.names.Values :: d.inodes[n])
  }

  function Do(d: Disk, op: Op): Disk
    requires Valid(d) && Possible(d, op)
  {
    match op
    case Write(path, body) => Stamped(d, d.names[path], d.inodes[d.names[path]].(body := body))
    case Chmod(path, perm) => Stamped(d, d.names[path], d.inodes[d.names[path]].(perm := perm))
    case Touch(path) => Stamped(d, d.names[path], d.inodes[d.names[path]])
    case Create(path, number, kind, perm, body) =>
      Stamped(d.(names := d.names[path := number]), number, Inode(kind, perm, body, 0))
    case Link(path, other) =>
      Stamped(d.(names := d.names[other := d.names[path]]), d.names[path], d.inodes[d.names[path]])
    case Unlink(path) =>
      Swept(Stamped(d.(names := d.names - {path}), d.names[path], d.inodes[d.names[path]]))
    case Rename(path, other, stamped) =>
      var moved := d.(names := (d.names - {path})[other := d.names[path]]);
      Swept(if stamped then Stamped(moved, d.names[path], d.inodes[d.names[path]]) else moved)
  }

  /** Between d and e no inode changed without a later status-change time. */
  ghost predicate Evolved(d: Disk, e: Disk) {
    d.clock <= e.clock && d.known == e.known
    && forall n :: n in e.inodes ==> e.inodes[n].ctime > d.clock || (n in d.inodes && e.inodes[n] == d.inodes[n])
  }

  /** Whatever op does, the disk stays a disk, and what it changes it stamps. */
  lemma OpEvolves(d: Disk, op: Op)
    requires Valid(d) && Possible(d, op)
    ensures Valid(Do(d, op)) && Evolved(d, Do(d, op))
  {
    match op
    case Unlink(path) =>
      UnlinkEvolves(d, path);
    case Rename(path, other, stamped) =>
      RenameEvolves(d, path, other, stamped);
    case _ =>
  }

  lemma UnlinkEvolves(d: Disk, path: string)
    requires Valid(d) && path in d.names
    ensures var e := Do(d, Unlink(path)); Valid(e) && Evolved(d, e)
  {
    SweptIsValid(Stamped(d.(names := d.names - {path}), d.names[path], d.inodes[d.names[path]]));
  }

  lemma RenameEvolves(d: Disk, path: string, other: string, stamped: bool)
    requires Valid(d) && path in d.names
    ensures var e := Do(d, Rename(path, other, stamped)); Valid(e) && Evolved(d, e)
  {
    var moved := d.(names := (d.names - {path})[other := d.names[path]]);
    SweptIsValid(if stamped then Stamped(moved, d.names[path], d.inodes[d.names[path]]) else moved);
  }

  lemma SweptIsValid(d: Disk)
    requires Valid(d)
    ensures Valid(Swept(d))
  {
    forall p | p in d.names ensures d.names[p] in d.names.Values {
    }
  }

  function After(d: Disk, ops: seq<Op>): Disk
    requires Valid(d) && Legal(d, ops)
    ensures Valid(After(d, ops))
    decreases ops, 1
  {
    if ops == [] then d else
      OpEvolves(After(d, ops[..|ops| - 1]), ops[|ops| - 1]);
      Do(After(d, ops[..|ops| - 1]), ops[|ops| - 1])
  }

  predicate Legal(d: Disk, ops: seq<Op>)
    requires Valid(d)
    decreases ops, 0
  {
    ops != [] ==> Legal(d, ops[..|ops| - 1]) && Possible(After(d, ops[..|ops| - 1]), ops[|ops| - 1])
  }

  lemma {:induction false} RunEvolves(d: Disk, ops: seq<Op>)
    requires Valid(d) && Legal(d, ops)
    ensures Evolved(d, After(d, ops))
    decreases |ops|
  {
    if ops != [] {
      RunEvolves(d, ops[..|ops| - 1]);
      OpEvolves(After(d, ops[..|ops| - 1]), ops[|ops| - 1]);
    }
  }

  // ----- the record

  /** content, with the inode number and status-change time it was read at, or zeros. */
  datatype Entry = Entry(content: Content, inode: nat, ctime: int)

  datatype Record = Record(scheme: string, complete: bool, entries: map<string, Entry>)

  datatype Answer = Paths(changed: seq<string>) | WrongScheme

  const SCHEME := "files1"

  function Identity(d: Disk, i: nat): (nat, int) {
    if d.known && i in d.inodes then (i, d.inodes[i].ctime) else (0, 0)
  }

  /** What read records of a path: nothing when it is not a file or a link. */
  function Read(d: Disk, path: string): Option<Entry> {
    if View(d, path) == Absent then None
    else
      var (inode, ctime) := Identity(d, d.names[path]);
      Some(Entry(View(d, path), inode, ctime))
  }

  /** Whether path passes through a .git, or is or is in .belay at the top. */
  predicate Hidden(path: string) {
    var first := Segment(path, 0);
    first == ".belay" || HasGit(path, 0)
  }

  /** The path segment that starts at i. */
  function Segment(path: string, i: nat): string
    requires i <= |path|
    decreases |path| - i
  {
    if i == |path| || path[i] == '/' then "" else [path[i]] + Segment(path, i + 1)
  }

  /** A segment of path from i on is .git; i is where a segment starts. */
  predicate HasGit(path: string, i: nat)
    requires i <= |path|
    decreases |path| - i
  {
    Segment(path, i) == ".git"
    || exists j :: i < j <= |path| && path[j - 1] == '/' && Segment(path, j) == ".git"
  }

  /** name is a whole segment of path, and starts at i. */
  predicate SegmentAt(path: string, i: int, name: string) {
    0 <= i && i + |name| <= |path| && path[i..i + |name|] == name
    && (i == 0 || path[i - 1] == '/') && (i + |name| == |path| || path[i + |name|] == '/')
  }

  lemma {:induction false} SegmentIs(path: string, i: nat, name: string)
    requires i <= |path| && '/' !in name
    ensures Segment(path, i) == name <==>
            i + |name| <= |path| && path[i..i + |name|] == name
            && (i + |name| == |path| || path[i + |name|] == '/')
    decreases |name|
  {
    if i < |path| && path[i] != '/' && name != "" && name[0] == path[i] {
      SegmentIs(path, i + 1, name[1..]);
      assert name == [name[0]] + name[1..];
      SegmentTail(path, i, name);
    }
  }

  lemma SegmentTail(path: string, i: nat, name: string)
    requires name != "" && i < |path| && path[i] == name[0]
    ensures i + |name| <= |path| ==> (path[i..i + |name|] == name <==> path[i + 1..i + |name|] == name[1..])
  {
    if i + |name| <= |path| {
      assert path[i..i + |name|] == [path[i]] + path[i + 1..i + |name|];
      assert name == [name[0]] + name[1..];
    }
  }

  lemma GitIsASegment(path: string) returns (i: int)
    requires HasGit(path, 0)
    ensures SegmentAt(path, i, ".git")
  {
    if Segment(path, 0) == ".git" {
      i := 0;
    } else {
      i :| 0 < i <= |path| && path[i - 1] == '/' && Segment(path, i) == ".git";
    }
    SegmentIs(path, i, ".git");
  }

  lemma SegmentIsGit(path: string, i: int)
    requires SegmentAt(path, i, ".git")
    ensures HasGit(path, 0)
  {
    SegmentIs(path, i, ".git");
  }

  /** Hidden are exactly .git and what is in it, at any depth, and .belay and what is in it
      at the top. */
  lemma HiddenExactly(path: string)
    ensures Hidden(path) <==> SegmentAt(path, 0, ".belay") || exists i :: SegmentAt(path, i, ".git")
  {
    SegmentIs(path, 0, ".belay");
    if HasGit(path, 0) {
      var i := GitIsASegment(path);
    }
    if i :| SegmentAt(path, i, ".git") {
      SegmentIsGit(path, i);
    }
  }

  /** The paths a walk of the workspace lists. */
  function Listed(d: Disk): set<string> {
    set p | p in d.names && !Hidden(p) && View(d, p) != Absent
  }

  method Walk(d: Disk) returns (out: seq<string>)
    ensures forall p :: p in out <==> p in Listed(d)
  {
    out := [];
    var left := d.names.Keys;
    while left != {}
      invariant left <= d.names.Keys
      invariant forall p :: p in out <==> p in Listed(d) && p !in left
      decreases left
    {
      var p :| p in left;
      left := left - {p};
      if !Hidden(p) && View(d, p) != Absent {
        out := out + [p];
      }
    }
  }

  /** r holds, for just these paths, what d holds of them. */
  ghost predicate Records(r: Record, d: Disk, paths: set<string>) {
    r.entries.Keys == paths
    && forall p :: p in paths ==>
         r.entries[p] == if Read(d, p).Some? then Read(d, p).value else Entry(Absent, 0, 0)
  }

  /** Records the whole workspace as walked, or just the paths in only. d is the disk the
      files are read from: one the walk listed can be gone by then. */
  method Take(walked: Disk, d: Disk, only: Option<seq<string>>) returns (r: Record)
    ensures r.scheme == SCHEME && r.complete == only.None?
    ensures only.Some? ==> Records(r, d, set p | p in only.value)
    ensures only.None? ==> Records(r, d, set p | p in Listed(walked) && View(d, p) != Absent)
    ensures only.None? && walked == d ==> Records(r, d, Listed(d))
  {
    var paths: seq<string>;
    if only.None? {
      paths := Walk(walked);
    } else {
      paths := only.value;
    }
    var entries: map<string, Entry> := map[];
    for i := 0 to |paths|
      invariant Records(Record(SCHEME, only.None?, entries), d, Taken(d, only, paths[..i]))
    {
      var rel := paths[i];
      assert paths[..i + 1] == paths[..i] + [rel];
      var e := Read(d, rel);
      if e.None? {
        if only.None? {
          continue;
        }
        entries := entries[rel := Entry(Absent, 0, 0)];
      } else {
        entries := entries[rel := e.value];
      }
    }
    assert paths[..|paths|] == paths;
    r := Record(SCHEME, only.None?, entries);
    if only.None? {
      assert Taken(d, only, paths) == set p | p in Listed(walked) && View(d, p) != Absent;
      assert walked == d ==> Taken(d, only, paths) == Listed(d);
    }
  }

  /** The paths among these that get an entry. */
  ghost function Taken(d: Disk, only: Option<seq<string>>, paths: seq<string>): set<string> {
    set p | p in paths && (only.None? ==> View(d, p) != Absent)
  }

  /** The check of one path against its entry. */
  function Unchanged(d: Disk, path: string, was: Entry): bool {
    if path !in d.names || d.names[path] !in d.inodes then was.content == Absent
    else
      var (inode, ctime) := Identity(d, d.names[path]);
      if inode != 0 && inode == was.inode && ctime == was.ctime then true
      else (if Read(d, path).Some? then Read(d, path).value.content else Absent) == was.content
  }

  function EntryOf(r: Record, path: string): Entry {
    if path in r.entries then r.entries[path] else Entry(Absent, 0, 0)
  }

  method Changed(r: Record, d: Disk) returns (a: Answer)
    ensures if r.scheme != SCHEME then a == WrongScheme
            else a.Paths? && Names.Lists(a.changed, set p | p in Candidates(r, d) && !Unchanged(d, p, EntryOf(r, p)))
  {
    if r.scheme != SCHEME {
      return WrongScheme;
    }
    var keys := ListKeys(r.entries);
    var candidates := keys;
    if r.complete {
      var now := Walk(d);
      candidates := candidates + now;
    }
    candidates := Names.SortNames(candidates);
    var changed: seq<string> := [];
    for i := 0 to |candidates|
      invariant Names.Lists(changed, Differing(r, d, candidates[..i]))
    {
      var rel := candidates[i];
      DifferingOneMore(r, d, candidates, i, changed);
      var same := Unchanged(d, rel, EntryOf(r, rel));
      if !same {
        changed := changed + [rel];
      }
    }
    assert candidates[..|candidates|] == candidates;
    assert Differing(r, d, candidates) == set p | p in Candidates(r, d) && !Unchanged(d, p, EntryOf(r, p));
    a := Paths(changed);
  }

  /** Those of paths that are not found unchanged. */
  ghost function Differing(r: Record, d: Disk, paths: seq<string>): set<string> {
    set p | p in paths && !Unchanged(d, p, EntryOf(r, p))
  }

  lemma DifferingOneMore(r: Record, d: Disk, candidates: seq<string>, i: nat, changed: seq<string>)
    requires Names.Sorted(candidates) && i < |candidates| && Names.Lists(changed, Differing(r, d, candidates[..i]))
    ensures var rel := candidates[i];
            Names.Lists(if Unchanged(d, rel, EntryOf(r, rel)) then changed else changed + [rel],
              Differing(r, d, candidates[..i + 1]))
  {
    var rel := candidates[i];
    assert candidates[..i + 1] == candidates[..i] + [rel];
    AppendOne(candidates, i, changed, Differing(r, d, candidates[..i]));
    assert Differing(r, d, candidates[..i + 1])
        == Differing(r, d, candidates[..i]) + if Unchanged(d, rel, EntryOf(r, rel)) then {} else {rel};
  }

  lemma AppendOne(candidates: seq<string>, i: nat, changed: seq<string>, names: set<string>)
    requires Names.Sorted(candidates) && i < |candidates|
    requires Names.Lists(changed, names) && forall x :: x in names ==> x in candidates[..i]
    ensures Names.Lists(changed + [candidates[i]], names + {candidates[i]})
  {
    forall k | 0 <= k < |changed| ensures Names.Less(changed[k], candidates[i]) {
      assert changed[k] in changed;
      var j :| 0 <= j < i && candidates[j] == changed[k];
    }
  }

  method ListKeys(entries: map<string, Entry>) returns (keys: seq<string>)
    ensures forall p :: p in keys <==> p in entries
  {
    keys := [];
    var left := entries.Keys;
    while left != {}
      invariant left <= entries.Keys && forall p :: p in keys <==> p in entries && p !in left
      decreases left
    {
      var p :| p in left;
      left := left - {p};
      keys := keys + [p];
    }
  }

  /** The paths a check looks at. */
  function Candidates(r: Record, d: Disk): set<string> {
    if r.complete then r.entries.Keys + Listed(d) else r.entries.Keys
  }

  // ----- the shortcut agrees with reading everything

  /** A path whose inode and status-change time are as recorded holds what was recorded:
      a check by inode finds what hashing everything would find. */
  lemma ShortcutIsSound(r: Record, d: Disk, e: Disk, paths: set<string>, p: string)
    requires Valid(d) && Valid(e) && Evolved(d, e) && Records(r, d, paths)
    requires p in paths || View(d, p) == Absent
    ensures Unchanged(e, p, EntryOf(r, p)) <==> View(e, p) == View(d, p)
  {
    var was := EntryOf(r, p);
    if p in e.names {
      var n := e.names[p];
      if e.known && n == was.inode && e.inodes[n].ctime == was.ctime {
        assert p in paths && Read(d, p).Some?;
        assert d.inodes[n].ctime <= d.clock;
        assert e.inodes[n] == d.inodes[n];
      }
    }
  }

  /** After any run of writes, mode changes, touches, creations, links, deletions and
      renames, a complete record answers exactly the sorted list of the visible paths
      whose kind, mode or contents differ from when it was taken. */
  lemma CompleteRecordIsExact(d: Disk, ops: seq<Op>, r: Record, changed: seq<string>)
    requires Valid(d) && Legal(d, ops) && r.complete && Records(r, d, Listed(d))
    requires var e := After(d, ops);
             Names.Lists(changed, set p | p in Candidates(r, e) && !Unchanged(e, p, EntryOf(r, p)))
    ensures forall p :: p in changed <==> !Hidden(p) && Differs(d, After(d, ops), p)
    ensures Names.Sorted(changed)
  {
    var e := After(d, ops);
    RunEvolves(d, ops);
    forall p ensures p in changed <==> !Hidden(p) && Differs(d, e, p) {
      ViewsTellApart(d, e, p);
      if p in Candidates(r, e) {
        ShortcutIsSound(r, d, e, Listed(d), p);
      }
    }
  }

  /** A record of some paths answers exactly which of those differ. */
  lemma PartialRecordIsExact(d: Disk, ops: seq<Op>, r: Record, paths: set<string>, changed: seq<string>)
    requires Valid(d) && Legal(d, ops) && !r.complete && Records(r, d, paths)
    requires var e := After(d, ops);
             Names.Lists(changed, set p | p in Candidates(r, e) && !Unchanged(e, p, EntryOf(r, p)))
    ensures forall p :: p in changed <==> p in paths && Differs(d, After(d, ops), p)
    ensures Names.Sorted(changed)
  {
    var e := After(d, ops);
    RunEvolves(d, ops);
    forall p | p in paths ensures Unchanged(e, p, EntryOf(r, p)) <==> !Differs(d, e, p) {
      ViewsTellApart(d, e, p);
      ShortcutIsSound(r, d, e, paths, p);
    }
  }
}
