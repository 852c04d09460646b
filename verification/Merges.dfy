/** Merging a run's work into a branch as one merge commit, and committing a working tree,
    so that a run killed part way and started again ends where it would have ended. */
module Merges {
  /** The files of a commit, an index or a working tree. Ignored files and .belay at the
      top are in none of them. */
  type Tree = map<string, string>

  datatype Option<T> = None | Some(value: T)

  datatype Commit = Commit(tree: Tree, parents: seq<Commit>, message: string)

  predicate IsAncestor(a: Commit, c: Commit)
    decreases c
  {
    a == c || exists i :: 0 <= i < |c.parents| && IsAncestor(a, c.parents[i])
  }

  lemma {:induction false} AncestorsOfAncestors(a: Commit, b: Commit, c: Commit)
    requires IsAncestor(a, b) && IsAncestor(b, c)
    ensures IsAncestor(a, c)
    decreases c
  {
    if b != c {
      var i :| 0 <= i < |c.parents| && IsAncestor(b, c.parents[i]);
      AncestorsOfAncestors(a, b, c.parents[i]);
    }
  }

  /** p leads from c down to a, each commit on it a parent of the one before. */
  ghost predicate IsPath(p: seq<Commit>, a: Commit, c: Commit) {
    p != [] && p[0] == c && p[|p| - 1] == a
    && forall i :: 0 <= i < |p| - 1 ==> p[i + 1] in p[i].parents
  }

  /** One commit contains another if and only if the parents lead from it to the other. */
  lemma {:induction false} AncestorsAreReachable(a: Commit, c: Commit)
    ensures IsAncestor(a, c) <==> exists p :: IsPath(p, a, c)
    decreases c
  {
    if a == c {
      assert IsPath([c], a, c);
    } else if i :| 0 <= i < |c.parents| && IsAncestor(a, c.parents[i]) {
      AncestorsAreReachable(a, c.parents[i]);
      var p :| IsPath(p, a, c.parents[i]);
      PathGrows(p, a, c, i);
    }
    if p: seq<Commit> :| IsPath(p, a, c) {
      if a != c {
        assert p[1] in p[0].parents;
        var i :| 0 <= i < |c.parents| && c.parents[i] == p[1];
        assert IsPath(p[1..], a, c.parents[i]);
        AncestorsAreReachable(a, c.parents[i]);
      }
    }
  }

  lemma PathGrows(p: seq<Commit>, a: Commit, c: Commit, i: nat)
    requires i < |c.parents| && IsPath(p, a, c.parents[i])
    ensures IsPath([c] + p, a, c)
  {
  }

  /** What merge-tree prints: the tree, and the files that conflict. */
  datatype Merged = Merged(tree: Tree, conflicts: seq<string>)

  /** Git's merge: two commits decide it. */
  type Merger = (Commit, Commit) -> Merged

  /** A repository as one working tree sees it. made lists the merge commits belay has
      made in it. */
  datatype Repo = Repo(head: Commit, index: Tree, files: Tree, mergeHead: Option<Commit>, made: seq<Commit>)

  /** What stops an attempt to integrate. A half-done abort or merge leaves any index and
      files at all, the first with MERGE_HEAD still there and the second with none yet. */
  datatype Fate =
    | Through
    | StopFirst
    | StopInAbort(index: Tree, files: Tree)
    | StopBeforeMerge
    | MergeRefuses
    | StopInMerge(index: Tree, files: Tree)
    | StopMerging
    | MergeFails
    | StopAfterMerge

  datatype Report =
    | Stopped
    | MergeInProgress
    | DirtyTarget
    | Conflicts(tip: Commit, conflicts: seq<string>)
    | Failed
    | Tip(tip: Commit)

  // ----- the specification

  /** The merge in progress still holds exactly tree, with nothing on top of it. */
  predicate Untouched(s: Repo, tree: Tree) {
    s.index == tree && s.files == s.index
  }

  /** What status would list something for. */
  predicate Dirty(s: Repo) {
    s.index != s.head.tree || s.files != s.index
  }

  datatype Finding = NoMerge | SomebodyElses | Ours

  /** Whose a MERGE_HEAD found before a merge starts is. */
  function FindingOf(merge: Merger, s: Repo, source: Commit): Finding {
    if s.mergeHead == None then NoMerge
    else if s.mergeHead != Some(source) || merge(s.head, source).conflicts != [] then SomebodyElses
    else if Untouched(s, merge(s.head, source).tree) then Ours
    else SomebodyElses
  }

  /** A merge undone over a working tree with nothing on top of its index. */
  function Aborted(s: Repo): Repo {
    s.(index := s.head.tree, files := s.head.tree, mergeHead := None)
  }

  function Entry(t: Tree, path: string): Option<string> {
    if path in t then Some(t[path]) else None
  }

  /** The merge changed this path. */
  predicate MergeTouched(s: Repo, path: string) {
    Entry(s.index, path) != Entry(s.head.tree, path)
  }

  /** Git undoes a merge only where no path it changed has been edited since. */
  predicate Abortable(s: Repo) {
    forall path :: path in s.files.Keys + s.index.Keys + s.head.tree.Keys && MergeTouched(s, path) ==>
      Entry(s.files, path) == Entry(s.index, path)
  }

  /** What the merge changed is put back, and edits to other paths are kept. */
  function AbortedFiles(s: Repo): Tree {
    map path | path in s.files.Keys + s.head.tree.Keys
               && path in (if MergeTouched(s, path) then s.head.tree else s.files)
      :: if MergeTouched(s, path) then s.head.tree[path] else s.files[path]
  }

  function GitAborted(s: Repo): Repo {
    s.(index := s.head.tree, files := AbortedFiles(s), mergeHead := None)
  }

  /** Undoing a merge leaves HEAD's version of what the merge changed, and every edit to
      anything else. */
  lemma AbortKeepsOtherEdits(s: Repo, path: string)
    ensures Entry(GitAborted(s).files, path) ==
            if Entry(s.index, path) == Entry(s.head.tree, path) then Entry(s.files, path) else Entry(s.head.tree, path)
    ensures GitAborted(s).index == s.head.tree && GitAborted(s).head == s.head && GitAborted(s).mergeHead == None
  {
  }

  /** Where git undoes a merge, no file is lost but one just as the merge left it; where it
      refuses, there is an edit to a file the merge changed. */
  lemma AbortLosesNoEdit(s: Repo)
    ensures Abortable(s) ==>
              forall path :: Entry(GitAborted(s).files, path) == Entry(s.files, path)
                             || Entry(s.files, path) == Entry(s.index, path)
    ensures !Abortable(s) ==>
              exists path :: Entry(s.index, path) != Entry(s.head.tree, path)
                             && Entry(s.files, path) != Entry(s.index, path)
  {
    forall path ensures Entry(GitAborted(s).files, path) ==
                        if MergeTouched(s, path) then Entry(s.head.tree, path) else Entry(s.files, path)
    {
      AbortKeepsOtherEdits(s, path);
    }
  }

  lemma AbortOfUntouched(s: Repo)
    requires s.files == s.index
    ensures Abortable(s) && GitAborted(s) == Aborted(s)
  {
    forall path ensures Entry(AbortedFiles(s), path) == Entry(s.head.tree, path) {
      assert Entry(s.files, path) == Entry(s.index, path);
    }
    SameEntries(AbortedFiles(s), s.head.tree);
  }

  lemma SameEntries(t: Tree, u: Tree)
    requires forall path :: Entry(t, path) == Entry(u, path)
    ensures t == u
  {
    forall path ensures path in t <==> path in u {
      assert Entry(t, path) == Entry(u, path);
    }
    forall path | path in t ensures t[path] == u[path] {
      assert Entry(t, path) == Entry(u, path);
    }
  }

  /** git merge, up to the commit. */
  function Merging(merge: Merger, s: Repo, source: Commit): Repo {
    var tree := merge(s.head, source).tree;
    s.(index := tree, files := tree, mergeHead := Some(source))
  }

  function MergeCommit(merge: Merger, s: Repo, source: Commit, message: string): Commit {
    Commit(merge(s.head, source).tree, [s.head, source], message)
  }

  function WithMerge(merge: Merger, s: Repo, source: Commit, message: string): Repo {
    var c := MergeCommit(merge, s, source, message);
    Repo(c, c.tree, c.tree, None, s.made + [c])
  }

  function Integrated(merge: Merger, s: Repo, source: Commit, message: string, fate: Fate): (Repo, Report) {
    if fate == StopFirst then (s, Stopped)
    else
      match FindingOf(merge, s, source)
      case SomebodyElses => (s, MergeInProgress)
      case NoMerge => FromRest(merge, s, source, message, fate)
      case Ours =>
        if fate.StopInAbort? then (s.(index := fate.index, files := fate.files), Stopped)
        else FromRest(merge, Aborted(s), source, message, fate)
  }

  /** The part after MERGE_HEAD has been dealt with. */
  function FromRest(merge: Merger, s: Repo, source: Commit, message: string, fate: Fate): (Repo, Report) {
    if fate == StopBeforeMerge then (s, Stopped)
    else if IsAncestor(source, s.head) then (s, Tip(s.head))
    else if Dirty(s) then (s, DirtyTarget)
    else if merge(s.head, source).conflicts != [] then (s, Conflicts(s.head, merge(s.head, source).conflicts))
    else
      match fate
      case MergeRefuses => (s, Failed)
      case StopInMerge(index, files) => (s.(index := index, files := files), Stopped)
      case StopMerging => (Merging(merge, s, source), Stopped)
      case MergeFails => (Aborted(Merging(merge, s, source)), Failed)
      case StopAfterMerge => (WithMerge(merge, s, source, message), Stopped)
      case _ => (WithMerge(merge, s, source, message), Tip(MergeCommit(merge, s, source, message)))
  }

  /** How far an attempt to commit gets. */
  datatype Reach = Finished | ToNothing | ToAdded | ToCommitted

  /** The commit of everything in the working tree, when that is not what HEAD has. */
  function Committed(s: Repo, message: string, reach: Reach): Repo {
    if reach == ToNothing then s
    else
      var added := s.(index := s.files);
      if reach == ToAdded || added.index == s.head.tree then added
      else
        var parents := if s.mergeHead == None then [s.head] else [s.head, s.mergeHead.value];
        added.(head := Commit(s.files, parents, message), mergeHead := None)
  }

  // ----- the working tree

  class Repository {
    var head: Commit
    var index: Tree
    var files: Tree
    var mergeHead: Option<Commit>
    var made: seq<Commit>

    function State(): Repo
      reads this
    {
      Repo(head, index, files, mergeHead, made)
    }

    constructor (s: Repo)
      ensures State() == s
    {
      head, index, files, mergeHead, made := s.head, s.index, s.files, s.mergeHead, s.made;
    }

    /** Undoes a merge in progress, if there is one; not where that would lose an edit. */
    method AbortMerge() returns (ok: bool)
      modifies this
      ensures ok <==> old(mergeHead).None? || Abortable(old(State()))
      ensures State() == if old(mergeHead).Some? && ok then GitAborted(old(State())) else old(State())
    {
      if mergeHead == None {
        return true;
      }
      if !Abortable(State()) {
        return false;
      }
      files := AbortedFiles(State());
      index, mergeHead := head.tree, None;
      return true;
    }

    /** go is false when the attempt ends here, with report. */
    method ResolveInterruptedMerge(merge: Merger, source: Commit, fate: Fate) returns (go: bool, report: Report)
      modifies this
      ensures match FindingOf(merge, old(State()), source)
              case NoMerge => go && State() == old(State())
              case SomebodyElses => !go && report == MergeInProgress && State() == old(State())
              case Ours =>
                if fate.StopInAbort?
                then !go && report == Stopped && State() == old(State()).(index := fate.index, files := fate.files)
                else go && State() == Aborted(old(State()))
    {
      go, report := true, Stopped;
      if mergeHead == None {
        return;
      }
      if mergeHead != Some(source) {
        return false, MergeInProgress;
      }
      var predicted := merge(head, source);
      if predicted.conflicts != [] {
        return false, MergeInProgress;
      }
      if index != predicted.tree || files != index {
        return false, MergeInProgress;
      }
      if fate.StopInAbort? {
        index, files := fate.index, fate.files;
        return false, Stopped;
      }
      AbortOfUntouched(State());
      go := AbortMerge();
      report := Failed;
    }

    /** Merges source into the branch checked out here. */
    method Integrate(merge: Merger, source: Commit, message: string, fate: Fate) returns (report: Report)
      modifies this
      ensures (State(), report) == Integrated(merge, old(State()), source, message, fate)
    {
      if fate == StopFirst {
        return Stopped;
      }
      var go;
      go, report := ResolveInterruptedMerge(merge, source, fate);
      if !go {
        return;
      }
      if fate == StopBeforeMerge {
        return Stopped;
      }
      if IsAncestor(source, head) {
        return Tip(head);
      }
      if index != head.tree || files != index {
        return DirtyTarget;
      }
      var predicted := merge(head, source);
      if predicted.conflicts != [] {
        return Conflicts(head, predicted.conflicts);
      }
      report := GitMerge(predicted.tree, source, message, fate);
    }

    /** Commits everything, and answers the tip; with nothing to commit, the tip there is. */
    method CommitAll(message: string, reach: Reach) returns (tip: Option<Commit>)
      modifies this
      ensures State() == Committed(old(State()), message, reach)
      ensures tip == if reach == Finished then Some(head) else None
    {
      if reach == ToNothing {
        return None;
      }
      index := files;
      if reach == ToAdded {
        return None;
      }
      if index != head.tree {
        var parents := if mergeHead == None then [head] else [head, mergeHead.value];
        head, mergeHead := Commit(index, parents, message), None;
      }
      tip := if reach == Finished then Some(head) else None;
    }

    /** git merge --no-ff, and the abort that follows when it fails. */
    method GitMerge(tree: Tree, source: Commit, message: string, fate: Fate) returns (report: Report)
      requires mergeHead == None
      modifies this
      ensures match fate
              case MergeRefuses => State() == old(State()) && report == Failed
              case StopInMerge(i, f) => State() == old(State()).(index := i, files := f) && report == Stopped
              case StopMerging =>
                State() == old(State()).(index := tree, files := tree, mergeHead := Some(source)) && report == Stopped
              case MergeFails => State() == Aborted(old(State())) && report == Failed
              case _ =>
                var c := Commit(tree, [old(head), source], message);
                State() == Repo(c, tree, tree, None, old(made) + [c])
                && report == if fate == StopAfterMerge then Stopped else Tip(c)
    {
      match fate {
        case MergeRefuses =>
          var nothing := AbortMerge();
          return Failed;
        case StopInMerge(i, f) =>
          index, files := i, f;
          return Stopped;
        case _ =>
      }
      index, files, mergeHead := tree, tree, Some(source);
      if fate == StopMerging {
        return Stopped;
      }
      if fate == MergeFails {
        AbortOfUntouched(State());
        var undone := AbortMerge();
        return Failed;
      }
      head, mergeHead := Commit(tree, [head, source], message), None;
      made := made + [head];
      return if fate == StopAfterMerge then Stopped else Tip(head);
    }
  }

  // ----- one attempt

  /** A merge found in progress is source's, merged without conflicts and left exactly so. */
  predicate Resumes(merge: Merger, s: Repo, source: Commit) {
    s.mergeHead == Some(source) && s.index == s.files == merge(s.head, source).tree
    && merge(s.head, source).conflicts == []
  }

  /** An attempt nothing stops answers a tip if and only if no merge but its own untouched
      one is in progress, and HEAD contains the source or there is nothing uncommitted and
      no conflict. It refuses anything else for the reason there is, and never fails. */
  lemma ThroughReportsExactly(merge: Merger, s: Repo, source: Commit, message: string)
    ensures var report := Integrated(merge, s, source, message, Through).1;
            var free := s.mergeHead == None || Resumes(merge, s, source);
            var clean := s.mergeHead == Some(source) || s.files == s.index == s.head.tree;
            var conflicts := merge(s.head, source).conflicts;
            && (report.Tip? <==> free && (IsAncestor(source, s.head) || (clean && conflicts == [])))
            && (report.MergeInProgress? <==> !free)
            && (report.DirtyTarget? <==> free && !IsAncestor(source, s.head) && !clean)
            && (report.Conflicts? <==> free && !IsAncestor(source, s.head) && clean && conflicts != [])
            && !report.Failed? && !report.Stopped?
  {
  }

  /** Where it answers a tip, the tree is clean at that tip, which is HEAD if HEAD contained
      the source and otherwise one commit of the merged tree on HEAD and the source. */
  lemma ThroughMergesOrHasMerged(merge: Merger, s: Repo, source: Commit, message: string)
    requires Integrated(merge, s, source, message, Through).1.Tip?
    ensures var (after, report) := Integrated(merge, s, source, message, Through);
            && report.tip == after.head && after.mergeHead == None
            && after.head == (if IsAncestor(source, s.head) then s.head
                              else Commit(merge(s.head, source).tree, [s.head, source], message))
            && after.made == (if IsAncestor(source, s.head) then s.made else s.made + [after.head])
            && (s.mergeHead.Some? || !IsAncestor(source, s.head) ==> after.index == after.files == after.head.tree)
            && (s.mergeHead == None && IsAncestor(source, s.head) ==> after == s)
  {
  }

  /** An attempt reports failure only where git itself failed: the merge refused, or failed
      and was undone; and the branch and its files are then as they were before it. */
  lemma FailsOnlyWithGit(merge: Merger, s: Repo, source: Commit, message: string, fate: Fate)
    requires Integrated(merge, s, source, message, fate).1.Failed?
    ensures fate.MergeRefuses? || fate.MergeFails?
    ensures var after := Integrated(merge, s, source, message, fate).0;
            after == s.(index := s.head.tree, files := s.head.tree, mergeHead := None)
    ensures Integrated(merge, s, source, message, Through).1.Tip? && !IsAncestor(source, s.head)
  {
  }

  /** A conflict report leaves everything as it was found, a merge in progress included. */
  lemma ConflictTouchesNothing(merge: Merger, s: Repo, source: Commit, message: string, fate: Fate)
    requires Integrated(merge, s, source, message, fate).1.Conflicts?
    ensures var (after, report) := Integrated(merge, s, source, message, fate);
            after == s && report.tip == s.head && report.conflicts == merge(s.head, source).conflicts != []
  {
    assert Aborted(s).head == s.head;
  }

  /** Whatever stops it, an attempt that changes anything changes a working tree that was
      clean, or one that held exactly what merging HEAD and the source gives: nothing in
      it was a person's. */
  lemma OnlyTheRecomputableIsDiscarded(merge: Merger, s: Repo, source: Commit, message: string, fate: Fate)
    requires Integrated(merge, s, source, message, fate).0 != s
    ensures s.files == s.index && merge(s.head, source).conflicts == []
    ensures s.index == if s.mergeHead == None then s.head.tree else merge(s.head, source).tree
    ensures s.mergeHead == None || s.mergeHead == Some(source)
  {
  }

  /** The branch only moves forward, and by no more than one merge commit. */
  lemma AttemptAddsOneMerge(merge: Merger, s: Repo, source: Commit, message: string, fate: Fate)
    ensures var after := Integrated(merge, s, source, message, fate).0;
            if after.head == s.head then after.made == s.made
            else !IsAncestor(source, s.head)
                 && after.head == MergeCommit(merge, s, source, message) && after.made == s.made + [after.head]
    ensures IsAncestor(s.head, Integrated(merge, s, source, message, fate).0.head)
  {
    var c := MergeCommit(merge, s, source, message);
    assert c.parents[0] == s.head && IsAncestor(s.head, c.parents[0]);
    assert c.tree == Commit(c.tree, c.parents, message).tree;
    NotItsOwnParent(merge, s, source, message);
  }

  /** A tip reported is the branch's, and contains the source. */
  lemma TipContainsSource(merge: Merger, s: Repo, source: Commit, message: string, fate: Fate)
    requires Integrated(merge, s, source, message, fate).1.Tip?
    ensures var (after, report) := Integrated(merge, s, source, message, fate);
            report.tip == after.head && IsAncestor(source, after.head)
  {
    var c := MergeCommit(merge, s, source, message);
    assert c.parents[1] == source && IsAncestor(source, c.parents[1]);
  }

  lemma NotItsOwnParent(merge: Merger, s: Repo, source: Commit, message: string)
    ensures MergeCommit(merge, s, source, message) != s.head
  {
    var c := MergeCommit(merge, s, source, message);
    assert c.parents[0] < c;
  }

  // ----- every run of attempts, with people at work in between

  /** Person is anything people do between two attempts, to any part of the working tree
      and in a merge or out of one, that does not move the branch back. */
  datatype Step =
    | Attempt(source: Commit, message: string, fate: Fate)
    | Person(head: Commit, index: Tree, files: Tree, mergeHead: Option<Commit>)

  function Do(merge: Merger, s: Repo, step: Step): Repo {
    match step
    case Attempt(source, message, fate) => Integrated(merge, s, source, message, fate).0
    case Person(head, index, files, mergeHead) => Repo(head, index, files, mergeHead, s.made)
  }

  function After(merge: Merger, s: Repo, steps: seq<Step>): Repo {
    if steps == [] then s else Do(merge, After(merge, s, steps[..|steps| - 1]), steps[|steps| - 1])
  }

  predicate Legal(merge: Merger, s: Repo, steps: seq<Step>) {
    steps != [] ==>
      Legal(merge, s, steps[..|steps| - 1])
      && (steps[|steps| - 1].Person? ==>
            IsAncestor(After(merge, s, steps[..|steps| - 1]).head, steps[|steps| - 1].head))
  }

  /** A merge belay made: of a parent and a source, and with the tree merging them gives. */
  ghost predicate IsMerge(merge: Merger, c: Commit) {
    |c.parents| == 2
    && merge(c.parents[0], c.parents[1]) == Merged(c.tree, [])
    && !IsAncestor(c.parents[1], c.parents[0])
  }

  /** Every merge belay has made is one, and is in the branch. */
  ghost predicate Contained(merge: Merger, s: Repo) {
    forall i :: 0 <= i < |s.made| ==> IsMerge(merge, s.made[i]) && IsAncestor(s.made[i], s.head)
  }

  /** No source is merged twice. */
  ghost predicate OncePerSource(made: seq<Commit>) {
    (forall i :: 0 <= i < |made| ==> |made[i].parents| == 2)
    && forall i, j :: 0 <= i < j < |made| ==> made[i].parents[1] != made[j].parents[1]
  }

  lemma MergeIsMerge(merge: Merger, s: Repo, source: Commit, message: string, fate: Fate)
    requires Integrated(merge, s, source, message, fate).0.head != s.head
    ensures IsMerge(merge, MergeCommit(merge, s, source, message))
  {
    assert merge(s.head, source).conflicts == [];
  }

  lemma StepKeeps(merge: Merger, s: Repo, step: Step)
    requires Contained(merge, s) && OncePerSource(s.made)
    requires step.Person? ==> IsAncestor(s.head, step.head)
    ensures Contained(merge, Do(merge, s, step)) && OncePerSource(Do(merge, s, step).made)
  {
    var after := Do(merge, s, step);
    if step.Attempt? {
      AttemptAddsOneMerge(merge, s, step.source, step.message, step.fate);
      if after.head != s.head {
        MergeIsMerge(merge, s, step.source, step.message, step.fate);
        forall i | 0 <= i < |s.made| ensures s.made[i].parents[1] != step.source {
          SourceIsIn(merge, s, i);
        }
      }
    }
    forall i | 0 <= i < |after.made| ensures IsMerge(merge, after.made[i]) && IsAncestor(after.made[i], after.head) {
      if i < |s.made| {
        assert after.made[i] == s.made[i];
        AncestorsOfAncestors(s.made[i], s.head, after.head);
      }
    }
  }

  lemma SourceIsIn(merge: Merger, s: Repo, i: nat)
    requires Contained(merge, s) && i < |s.made|
    ensures IsAncestor(s.made[i].parents[1], s.head)
  {
    var c := s.made[i];
    assert IsAncestor(c.parents[1], c.parents[1]);
    AncestorsOfAncestors(c.parents[1], c, s.head);
  }

  /** Over every run of attempts, of any sources and stopped anywhere, between which people
      do anything but move the branch back: belay makes at most one merge commit of each
      source, its tree is what merging its two parents gives with no uncommitted work in
      it, and the branch still contains it. */
  lemma {:induction false} EachSourceIsMergedOnce(merge: Merger, s: Repo, steps: seq<Step>)
    requires s.made == [] && Legal(merge, s, steps)
    ensures Contained(merge, After(merge, s, steps)) && OncePerSource(After(merge, s, steps).made)
    decreases |steps|
  {
    if steps != [] {
      EachSourceIsMergedOnce(merge, s, steps[..|steps| - 1]);
      StepKeeps(merge, After(merge, s, steps[..|steps| - 1]), steps[|steps| - 1]);
    }
  }

  // ----- a re-run ends where one run would have

  /** The attempt stopped between two of git's steps, not in the middle of one. */
  predicate BetweenSteps(fate: Fate) {
    !fate.StopInAbort? && !fate.StopInMerge?
  }

  lemma OneStopConverges(merge: Merger, s: Repo, source: Commit, message: string, fate: Fate)
    requires BetweenSteps(fate)
    ensures Integrated(merge, Integrated(merge, s, source, message, fate).0, source, message, Through)
         == Integrated(merge, s, source, message, Through)
  {
    match FindingOf(merge, s, source)
    case SomebodyElses =>
    case NoMerge =>
      StopFromRestConverges(merge, s, source, message, fate);
    case Ours =>
      StopFromRestConverges(merge, Aborted(s), source, message, fate);
  }

  lemma StopFromRestConverges(merge: Merger, s: Repo, source: Commit, message: string, fate: Fate)
    requires BetweenSteps(fate) && s.mergeHead == None
    ensures Integrated(merge, FromRest(merge, s, source, message, fate).0, source, message, Through)
         == FromRest(merge, s, source, message, Through)
  {
    var after := FromRest(merge, s, source, message, fate).0;
    NotItsOwnParent(merge, s, source, message);
    if after.head != s.head {
      assert after.head.parents[1] == source && IsAncestor(source, after.head.parents[1]);
    } else if after != s {
      assert after == Merging(merge, s, source) || after == Aborted(Merging(merge, s, source));
    }
  }

  function Stops(source: Commit, message: string, fates: seq<Fate>): seq<Step> {
    seq(|fates|, i requires 0 <= i < |fates| => Attempt(source, message, fates[i]))
  }

  /** From any state whatever, attempts stopped between git's steps any number of times and
      then left alone end in the same state, and report the same, as one left alone. */
  lemma {:induction false} ReRunsConverge(merge: Merger, s: Repo, source: Commit, message: string, fates: seq<Fate>)
    requires forall i :: 0 <= i < |fates| ==> BetweenSteps(fates[i])
    ensures Integrated(merge, After(merge, s, Stops(source, message, fates)), source, message, Through)
         == Integrated(merge, s, source, message, Through)
    decreases |fates|
  {
    if fates != [] {
      var front, last := fates[..|fates| - 1], fates[|fates| - 1];
      var steps := Stops(source, message, fates);
      assert steps[..|steps| - 1] == Stops(source, message, front);
      ReRunsConverge(merge, s, source, message, front);
      OneStopConverges(merge, After(merge, s, Stops(source, message, front)), source, message, last);
    }
  }

  // ----- committing

  function CommittedAfter(s: Repo, message: string, reached: seq<Reach>): Repo {
    if reached == [] then s
    else Committed(CommittedAfter(s, message, reached[..|reached| - 1]), message, reached[|reached| - 1])
  }

  /** Attempts to commit stopped anywhere, any number of times, and then left alone end as
      one left alone: with one commit of exactly the files there are, or with none when
      HEAD had them. */
  lemma {:induction false} CommitsConverge(s: Repo, message: string, reached: seq<Reach>)
    ensures var after := Committed(CommittedAfter(s, message, reached), message, Finished);
            after == Committed(s, message, Finished)
            && after.files == s.files && after.index == s.files && after.head.tree == s.files
            && (after.head == s.head <==> s.files == s.head.tree)
            && (after.head != s.head ==>
                  after.head.parents == (match s.mergeHead case None => [s.head] case Some(m) => [s.head, m])
                  && after.head.message == message && after.mergeHead == None)
            && (after.head == s.head ==> after.mergeHead == s.mergeHead)
    decreases |reached|
  {
    if reached == [] {
    } else {
      CommitsConverge(s, message, reached[..|reached| - 1]);
      var before := CommittedAfter(s, message, reached[..|reached| - 1]);
      assert Committed(Committed(before, message, reached[|reached| - 1]), message, Finished)
          == Committed(before, message, Finished);
    }
  }
}
