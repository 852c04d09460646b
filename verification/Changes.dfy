/** What an in-place run in a git checkout changed: what git says differs from the base
    commit, less what the person had changed before, plus what of that has changed
    since. */
module Changes {
  import Names
  import opened FileRecords

  /** What git keeps of a path: of a file's mode, only whether its owner may execute it. */
  function Kept(c: Content): Content {
    match c
    case FileOf(perm, digest) => FileOf(if perm / 64 % 2 == 1 then 493 else 420, digest)
    case _ => c
  }

  /** What git can tell of a path between two disks: that it came or went, its kind, its
      bytes, and of a file's mode whether its owner may execute it. */
  predicate GitTells(d: Disk, e: Disk, p: string) {
    match (Held(d, p), Held(e, p))
    case (None, None) => false
    case (Some(i), Some(j)) =>
      i.kind != j.kind || i.body != j.body || (i.kind == File && OwnerExecutes(i.perm) != OwnerExecutes(j.perm))
    case _ => true
  }

  /** The execute bit for a file's owner, octal 0100. */
  predicate OwnerExecutes(perm: nat) { perm / 64 % 2 == 1 }

  lemma KeptTellsApart(d: Disk, e: Disk, p: string)
    ensures Kept(View(d, p)) != Kept(View(e, p)) <==> GitTells(d, e, p)
  {
  }

  /** The tree of a commit, as git keeps it. */
  type Tree = map<string, Content>

  function InTree(base: Tree, p: string): Content {
    if p in base then base[p] else Absent
  }

  ghost predicate GitDiffers(base: Tree, d: Disk, p: string) {
    Kept(View(d, p)) != InTree(base, p)
  }

  /** answer is git's: the visible paths, of those on disk or in the tree, that differ. */
  ghost predicate GitAnswers(answer: seq<string>, base: Tree, d: Disk, visible: iset<string>) {
    Names.Sorted(answer) && forall p :: p in answer <==> p in visible && GitDiffers(base, d, p)
  }

  /** Where a run's change will be read from. Git: worktree is whether the run works in a
      worktree of its own, and asked whether git can be asked about the workspace now. */
  datatype Source = Unpinned | FromRecord(fanout: bool) | FromGit(worktree: bool, asked: bool)

  /** The record a run pins when it begins. With no git it is of the whole workspace, unless
      the run is a fanout, whose candidates are recorded one by one; in a person's checkout
      it is of the paths git says are changed already, when there are any. */
  method PinChanges(source: Source, walked: Disk, d: Disk, dirty: seq<string>) returns (r: Option<Record>)
    ensures r.None? <==> source.Unpinned? || (source.FromRecord? && source.fanout)
                         || (source.FromGit? && (source.worktree || !source.asked || dirty == []))
    ensures r.Some? ==> r.value.scheme == SCHEME && r.value.complete == source.FromRecord?
    ensures r.Some? && source.FromGit? ==> Records(r.value, d, set p | p in dirty)
    ensures r.Some? && source.FromRecord? ==>
              Records(r.value, d, set p | p in Listed(walked) && View(d, p) != Absent)
              && (walked == d ==> Records(r.value, d, Listed(d)))
  {
    match source {
      case Unpinned =>
      case FromRecord(fanout) =>
        if !fanout {
          var rec := Take(walked, d, None);
          return Some(rec);
        }
      case FromGit(worktree, asked) =>
        if !worktree && asked && |dirty| > 0 {
          var rec := Take(walked, d, Some(dirty));
          return Some(rec);
        }
    }
    return None;
  }

  /** The answer later: git's, with the paths in the record answered for by the record. */
  method GitChanges(changed: seq<string>, r: Option<Record>, d: Disk) returns (a: Answer)
    requires Names.Sorted(changed)
    ensures r.None? ==> a == Paths(changed)
    ensures r.Some? && r.value.scheme != SCHEME ==> a == WrongScheme
    ensures r.Some? && r.value.scheme == SCHEME ==>
              a.Paths? && Names.Lists(a.changed,
                (set p | p in changed && p !in r.value.entries)
                + (set p | p in Candidates(r.value, d) && !Unchanged(d, p, EntryOf(r.value, p))))
  {
    if r.None? {
      return Paths(changed);
    }
    var since := Changed(r.value, d);
    if since.WrongScheme? {
      return WrongScheme;
    }
    var before := ListKeys(r.value.entries);
    var out: seq<string> := [];
    for i := 0 to |changed|
      invariant forall p :: p in out <==> p in changed[..i] && p !in r.value.entries
    {
      assert changed[..i + 1] == changed[..i] + [changed[i]];
      if changed[i] !in before {
        out := out + [changed[i]];
      }
    }
    assert changed[..|changed|] == changed;
    out := out + since.changed;
    return Paths(Names.SortNames(out));
  }

  /** The paths git shows when the run begins, and when it is asked: an ignore file is
      itself a file a run can change. */
  datatype Visible = Visible(start: iset<string>, now: iset<string>)

  /** The person had changed p when the run began. */
  ghost predicate Dirty(base: Tree, start: Disk, visible: Visible, p: string) {
    p in visible.start && GitDiffers(base, start, p)
  }

  /** Whether the answer lists p, in terms of what the run began with. */
  ghost predicate Charged(base: Tree, start: Disk, now: Disk, visible: Visible, p: string) {
    if Dirty(base, start, visible, p) then View(now, p) != View(start, p)
    else if p in visible.start then p in visible.now && Kept(View(now, p)) != Kept(View(start, p))
    else p in visible.now && GitDiffers(base, now, p)
  }

  lemma RecordAnswersFor(start: Disk, ops: seq<Op>, r: Record, dirty: seq<string>, p: string)
    requires Valid(start) && Legal(start, ops) && !r.complete && Records(r, start, set q | q in dirty)
    requires p in dirty
    ensures Unchanged(After(start, ops), p, EntryOf(r, p)) <==> View(After(start, ops), p) == View(start, p)
  {
    RunEvolves(start, ops);
    ShortcutIsSound(r, start, After(start, ops), (set q | q in dirty), p);
  }

  /** dirty is git's answer when the run began and r what PinChanges made of it; changed is
      git's answer after ops, and a what GitChanges made of that. */
  ghost predicate Answered(base: Tree, visible: Visible, start: Disk, ops: seq<Op>,
                           dirty: seq<string>, r: Option<Record>, changed: seq<string>, a: seq<string>)
    requires Valid(start) && Legal(start, ops)
  {
    GitAnswers(dirty, base, start, visible.start)
    && (r.None? <==> dirty == [])
    && (r.Some? ==> !r.value.complete && Records(r.value, start, set p | p in dirty))
    && GitAnswers(changed, base, After(start, ops), visible.now)
    && (r.None? ==> a == changed)
    && (r.Some? ==> Names.Lists(a,
          (set p | p in changed && p !in r.value.entries)
          + (set p | p in Candidates(r.value, After(start, ops))
                     && !Unchanged(After(start, ops), p, EntryOf(r.value, p)))))
  }

  /** Whatever happens to the disk in between, a file put back to what the commit holds and
      a change to what git ignores included, the answer is exact: of the paths the person
      had changed, those that are not as they were; of the others git showed, those it shows
      that differ in what git keeps; and of those it did not show, those it shows now that
      differ from the commit. */
  lemma AnswerIsExact(base: Tree, visible: Visible, start: Disk, ops: seq<Op>,
                      dirty: seq<string>, r: Option<Record>, changed: seq<string>, a: seq<string>)
    requires Valid(start) && Legal(start, ops) && Answered(base, visible, start, ops, dirty, r, changed, a)
    ensures Names.Sorted(a) && forall p :: p in a <==> Charged(base, start, After(start, ops), visible, p)
  {
    var now := After(start, ops);
    forall p ensures p in a <==> Charged(base, start, now, visible, p) {
      if p in dirty {
        RecordAnswersFor(start, ops, r.value, dirty, p);
      }
    }
  }

  /** base is what committing commit would keep. */
  ghost predicate IsTreeOf(base: Tree, commit: Disk) {
    forall p :: InTree(base, p) == Kept(View(commit, p))
  }

  /** Whether the answer is to list p, said of the files themselves: commit holds those of
      the base commit. */
  ghost predicate ToList(commit: Disk, start: Disk, now: Disk, visible: Visible, p: string) {
    if p in visible.start && GitTells(commit, start, p) then Differs(start, now, p)
    else if p in visible.start then p in visible.now && GitTells(start, now, p)
    else p in visible.now && GitTells(commit, now, p)
  }

  /** In terms of the files themselves: a path the person had changed is listed if anything
      about it is otherwise than it was, and any other if git can tell it from the base. */
  lemma AnswerIsOfTheFiles(base: Tree, commit: Disk, visible: Visible, start: Disk, ops: seq<Op>,
                           dirty: seq<string>, r: Option<Record>, changed: seq<string>, a: seq<string>)
    requires Valid(start) && Legal(start, ops) && Answered(base, visible, start, ops, dirty, r, changed, a)
    requires IsTreeOf(base, commit)
    ensures forall p :: p in a <==> ToList(commit, start, After(start, ops), visible, p)
  {
    var now := After(start, ops);
    AnswerIsExact(base, visible, start, ops, dirty, r, changed, a);
    forall p ensures Charged(base, start, now, visible, p) <==> ToList(commit, start, now, visible, p) {
      ChargedIsToList(base, commit, start, now, visible, p);
    }
  }

  lemma ChargedIsToList(base: Tree, commit: Disk, start: Disk, now: Disk, visible: Visible, p: string)
    requires IsTreeOf(base, commit)
    ensures Charged(base, start, now, visible, p) <==> ToList(commit, start, now, visible, p)
  {
    KeptTellsApart(commit, start, p);
    KeptTellsApart(commit, now, p);
    KeptTellsApart(start, now, p);
    ViewsTellApart(start, now, p);
    assert InTree(base, p) == Kept(View(commit, p));
  }

  /** The run changed p, and git showed it at the start or shows it now. */
  ghost predicate ReallyChanged(start: Disk, now: Disk, visible: Visible, p: string) {
    (p in visible.start || p in visible.now) && View(now, p) != View(start, p)
  }

  /** A path the person had not changed, and that differs now only in mode bits git does
      not keep. */
  ghost predicate OnlyModeBits(base: Tree, start: Disk, now: Disk, visible: Visible, p: string) {
    p in visible.start && !Dirty(base, start, visible, p)
    && View(now, p) != View(start, p) && Kept(View(now, p)) == Kept(View(start, p))
  }

  /** One that differs, and that git has stopped showing. */
  ghost predicate HiddenSince(base: Tree, start: Disk, now: Disk, visible: Visible, p: string) {
    p in visible.start && !Dirty(base, start, visible, p) && p !in visible.now
    && Kept(View(now, p)) != Kept(View(start, p))
  }

  /** One git did not show and shows now, that differs from the commit without having
      changed, or has changed to what the commit holds. */
  ghost predicate ShownSince(base: Tree, start: Disk, now: Disk, visible: Visible, p: string) {
    p !in visible.start && p in visible.now && (GitDiffers(base, now, p) <==> View(now, p) == View(start, p))
  }

  /** The answer is what the run changed, no more and no less, if and only if no path
      changed only in mode bits git does not keep, and none whose answer it matters to came
      into or went out of git's sight. */
  lemma AnswerIsTheDifference(base: Tree, visible: Visible, start: Disk, ops: seq<Op>,
                              dirty: seq<string>, r: Option<Record>, changed: seq<string>, a: seq<string>)
    requires Valid(start) && Legal(start, ops) && Answered(base, visible, start, ops, dirty, r, changed, a)
    ensures var now := After(start, ops);
            (forall p :: p in a <==> ReallyChanged(start, now, visible, p))
            <==> (forall p :: !OnlyModeBits(base, start, now, visible, p) && !HiddenSince(base, start, now, visible, p)
                              && !ShownSince(base, start, now, visible, p))
  {
    var now := After(start, ops);
    AnswerIsExact(base, visible, start, ops, dirty, r, changed, a);
    forall p ensures (Charged(base, start, now, visible, p) <==> ReallyChanged(start, now, visible, p))
                     <==> !OnlyModeBits(base, start, now, visible, p) && !HiddenSince(base, start, now, visible, p)
                          && !ShownSince(base, start, now, visible, p) {
    }
  }

  /** Where git shows the same paths throughout, only the mode bits are in the way. */
  lemma SameSightMissesOnlyModes(base: Tree, start: Disk, now: Disk, visible: Visible, p: string)
    requires visible.start == visible.now
    ensures !HiddenSince(base, start, now, visible, p) && !ShownSince(base, start, now, visible, p)
    ensures (Charged(base, start, now, visible, p) <==> ReallyChanged(start, now, visible, p))
            <==> !OnlyModeBits(base, start, now, visible, p)
  {
  }

  /** And not where one did: a clean file made unreadable to others is not charged. */
  lemma ModeOnlyChangeIsMissed()
    ensures exists base, start, now, visible: Visible, p ::
      p in visible.start && p in visible.now && View(now, p) != View(start, p) && !Charged(base, start, now, visible, p)
  {
    var start := Disk(map["f" := 1], map[1 := Inode(File, 420, "", 1)], 1, true);
    var now := Disk(map["f" := 1], map[1 := Inode(File, 384, "", 2)], 2, true);
    var base: Tree := map["f" := FileOf(420, "")];
    var visible := Visible(iset{"f"}, iset{"f"});
    assert View(now, "f") == FileOf(384, "") && View(start, "f") == FileOf(420, "");
    assert "f" in visible.start && !Charged(base, start, now, visible, "f");
  }

  /** A file an ignore rule hides since is not charged either. */
  lemma HiddenChangeIsMissed()
    ensures exists base, start, now, visible: Visible, p ::
      p in visible.start && View(now, p) != View(start, p) && HiddenSince(base, start, now, visible, p)
      && !Charged(base, start, now, visible, p)
  {
    var start := Disk(map[], map[], 1, true);
    var now := Disk(map["f" := 1], map[1 := Inode(File, 420, "", 2)], 2, true);
    var visible := Visible(iset{"f"}, iset{});
    var base: Tree := map[];
    assert View(now, "f") == FileOf(420, "") && View(start, "f") == Absent;
    assert HiddenSince(base, start, now, visible, "f") && !Charged(base, start, now, visible, "f");
  }
}
