/** Making a run: its state, then the branch and worktree it works in, then the manifest
    that makes it a run; with every step able to fail or be the last, and other people's
    git between any two. */
module RunCreation {
  datatype Option<T> = None | Some(value: T)

  datatype Worktree = Worktree(branch: string, locked: bool)

  /** The run's own two files, and the repository's branches and worktrees: tips by
      branch name, and what is checked out by path. */
  datatype World = World(state: Option<string>, manifest: Option<Plan>, branches: map<string, int>,
                         trees: map<string, Worktree>)

  /** What is to be made. A run that is not branched works in place. main is the path of
      the main working tree. */
  datatype Plan = Plan(goal: string, branched: bool, branch: string, base: int, workTree: string, main: string)

  /** What one step meets with. Late: it is done, and then reported as failed. */
  datatype Luck = Works | Fails | FailsLate | DiesBefore | DiesAfter

  datatype Reply = Ok | Error | Dead

  function Said(luck: Luck): Reply {
    match luck
    case Works => Ok
    case Fails => Error
    case FailsLate => Error
    case _ => Dead
  }

  predicate Done(luck: Luck) {
    luck != Fails && luck != DiesBefore
  }

  datatype Report = RunExists | Failed | Killed | Created

  /** The step an attempt is about to take. created: this attempt made the branch. */
  datatype Pc =
    | Looking
    | MakingDirectory
    | SavingState
    | SyncingState
    | FindingBranch
    | MakingBranch
    | ListingTrees(created: bool)
    | AddingTree(created: bool)
    | UndoingBranch
    | PinningChanges
    | PinningPolicy
    | SavingManifest
    | SyncingManifest
    | RemovingTree
    | RemovingBranch
    | Ended(report: Report)

  datatype Machine = Machine(world: World, pc: Pc)

  // ----- git

  /** A branch that cannot exist beside this one, because refs are stored as paths. */
  predicate RefConflict(w: World, branch: string) {
    exists b :: b in w.branches && (branch + "/" <= b || b + "/" <= branch)
  }

  predicate CheckedOut(w: World, branch: string) {
    exists p :: p in w.trees && w.trees[p].branch == branch
  }

  predicate CanMakeBranch(w: World, branch: string) {
    branch !in w.branches && !RefConflict(w, branch)
  }

  predicate CanAddTree(w: World, path: string, branch: string) {
    branch in w.branches && path !in w.trees && !CheckedOut(w, branch)
  }

  predicate CanRemoveTree(w: World, plan: Plan) {
    plan.workTree in w.trees ==> plan.workTree != plan.main && !w.trees[plan.workTree].locked
  }

  predicate CanDeleteBranch(w: World, plan: Plan) {
    !CheckedOut(w, plan.branch) && (plan.branch in w.branches ==> w.branches[plan.branch] == plan.base)
  }

  function WithBranch(w: World, plan: Plan): World {
    w.(branches := w.branches[plan.branch := plan.base])
  }

  function WithTree(w: World, plan: Plan): World {
    w.(trees := w.trees[plan.workTree := Worktree(plan.branch, false)])
  }

  function WithoutTree(w: World, plan: Plan): World {
    w.(trees := w.trees - {plan.workTree})
  }

  function WithoutBranch(w: World, plan: Plan): World {
    w.(branches := w.branches - {plan.branch})
  }

  // ----- the steps of an attempt

  /** after when the step is done, and on to ok, to error, or to the end. */
  function Then(before: World, after: World, luck: Luck, ok: Pc, error: Pc): Machine {
    Machine(if Done(luck) then after else before,
      match Said(luck)
      case Ok => ok
      case Error => error
      case Dead => Ended(Killed))
  }

  /** A rename puts a file in place or does not: it never does so and reports a failure. */
  function Renaming(luck: Luck): Luck {
    if luck == FailsLate then Fails else luck
  }

  /** What follows when the worktree cannot be claimed. */
  function GiveUp(created: bool): Pc {
    if created then UndoingBranch else Ended(Failed)
  }

  /** What follows when the run cannot be made once it has a branch and a worktree. */
  function Unwind(plan: Plan): Pc {
    if plan.branched then RemovingTree else Ended(Failed)
  }

  function Step(plan: Plan, m: Machine, luck: Luck): Machine {
    var w := m.world;
    match m.pc
    case Looking => Then(w, w, luck, if w.manifest.Some? then Ended(RunExists) else MakingDirectory, Ended(Failed))
    case MakingDirectory => Then(w, w, luck, SavingState, Ended(Failed))
    case SavingState => Then(w, w.(state := Some(plan.goal)), Renaming(luck), SyncingState, Ended(Failed))
    case SyncingState => Then(w, w, luck, if plan.branched then FindingBranch else PinningChanges, Ended(Failed))
    case FindingBranch =>
      Then(w, w, luck,
        if plan.branch !in w.branches then MakingBranch
        else if w.branches[plan.branch] == plan.base then ListingTrees(false)
        else Ended(Failed),
        Ended(Failed))
    case MakingBranch =>
      if CanMakeBranch(w, plan.branch) then Then(w, WithBranch(w, plan), luck, ListingTrees(true), Ended(Failed))
      else Then(w, w, luck, Ended(Failed), Ended(Failed))
    case ListingTrees(created) =>
      Then(w, w, luck,
        if plan.workTree !in w.trees then AddingTree(created)
        else if w.trees[plan.workTree].branch == plan.branch then PinningChanges
        else GiveUp(created),
        GiveUp(created))
    case AddingTree(created) =>
      if CanAddTree(w, plan.workTree, plan.branch) then
        Then(w, WithTree(w, plan), luck, PinningChanges, GiveUp(created))
      else Then(w, w, luck, GiveUp(created), GiveUp(created))
    case PinningChanges => Then(w, w, luck, PinningPolicy, Unwind(plan))
    case PinningPolicy => Then(w, w, luck, SavingManifest, Unwind(plan))
    case SavingManifest => Then(w, w.(manifest := Some(plan)), Renaming(luck), SyncingManifest, Unwind(plan))
    case SyncingManifest => Then(w, w, luck, Ended(Created), Unwind(plan))
    case RemovingTree =>
      if CanRemoveTree(w, plan) then Then(w, WithoutTree(w, plan), luck, RemovingBranch, Ended(Failed))
      else Then(w, w, luck, Ended(Failed), Ended(Failed))
    case UndoingBranch =>
      Then(w, if CanDeleteBranch(w, plan) then WithoutBranch(w, plan) else w, luck, Ended(Failed), Ended(Failed))
    case RemovingBranch =>
      Then(w, if CanDeleteBranch(w, plan) then WithoutBranch(w, plan) else w, luck, Ended(Failed), Ended(Failed))
    case Ended(_) => m
  }

  // ----- an attempt nobody disturbs

  /** What each step of an attempt meets with. */
  datatype Fortune = Fortune(look: Luck, directory: Luck, state: Luck, stateSync: Luck, find: Luck, make: Luck,
                             list: Luck, add: Luck, undo: Luck, changes: Luck, policy: Luck,
                             manifest: Luck, manifestSync: Luck, remove: Luck, delete: Luck)

  function LuckAt(f: Fortune, pc: Pc): Luck {
    match pc
    case Looking => f.look
    case MakingDirectory => f.directory
    case SavingState => f.state
    case SyncingState => f.stateSync
    case FindingBranch => f.find
    case MakingBranch => f.make
    case ListingTrees(_) => f.list
    case AddingTree(_) => f.add
    case UndoingBranch => f.undo
    case PinningChanges => f.changes
    case PinningPolicy => f.policy
    case SavingManifest => f.manifest
    case SyncingManifest => f.manifestSync
    case RemovingTree => f.remove
    case RemovingBranch => f.delete
    case Ended(_) => Works
  }

  function StepsLeft(pc: Pc): nat {
    match pc
    case Looking => 13
    case MakingDirectory => 12
    case SavingState => 11
    case SyncingState => 10
    case FindingBranch => 9
    case MakingBranch => 8
    case ListingTrees(_) => 7
    case AddingTree(_) => 6
    case PinningChanges => 5
    case PinningPolicy => 4
    case SavingManifest => 3
    case SyncingManifest => 2
    case RemovingTree => 1
    case UndoingBranch => 0
    case RemovingBranch => 0
    case Ended(_) => 0
  }

  /** Where an attempt ends that goes on from m. */
  function Ends(plan: Plan, m: Machine, f: Fortune): Machine
    decreases !m.pc.Ended?, StepsLeft(m.pc)
  {
    if m.pc.Ended? then m else Ends(plan, Step(plan, m, LuckAt(f, m.pc)), f)
  }

  lemma OneStep(plan: Plan, w: World, pc: Pc, f: Fortune)
    requires !pc.Ended?
    ensures Ends(plan, Machine(w, pc), f) == Ends(plan, Step(plan, Machine(w, pc), LuckAt(f, pc)), f)
  {
  }

  /** From w the attempt goes on to next. */
  lemma Goes(plan: Plan, w: World, pc: Pc, f: Fortune, next: Machine)
    requires !pc.Ended? && Step(plan, Machine(w, pc), LuckAt(f, pc)) == next
    ensures Ends(plan, Machine(w, pc), f) == Ends(plan, next, f)
  {
    OneStep(plan, w, pc, f);
  }

  // ----- the attempt as it is written

  class Repository {
    var state: Option<string>
    var manifest: Option<Plan>
    var branches: map<string, int>
    var trees: map<string, Worktree>

    function Now(): World
      reads this
    {
      World(state, manifest, branches, trees)
    }

    constructor (w: World)
      ensures Now() == w
    {
      state, manifest, branches, trees := w.state, w.manifest, w.branches, w.trees;
    }

    /** Deletes the branch where it still points at the base. A branch that is gone is no
        error. */
    method DeleteBranch(plan: Plan, luck: Luck)
      modifies this
      ensures Now() == if Done(luck) && CanDeleteBranch(old(Now()), plan) then WithoutBranch(old(Now()), plan)
                       else old(Now())
    {
      if CheckedOut(Now(), plan.branch) {
        return;
      }
      if plan.branch in branches && branches[plan.branch] == plan.base && Done(luck) {
        branches := branches - {plan.branch};
      }
      assert plan.branch !in old(branches) ==> old(branches) - {plan.branch} == old(branches);
    }

    method UnwindWorkspace(plan: Plan, f: Fortune) returns (r: Reply)
      modifies this
      ensures Ends(plan, Machine(old(Now()), Unwind(plan)), f)
           == Machine(Now(), Ended(if r == Dead then Killed else Failed))
    {
      if !plan.branched {
        return Ok;
      }
      OneStep(plan, Now(), RemovingTree, f);
      if plan.workTree in trees && (plan.workTree == plan.main || trees[plan.workTree].locked) {
        return if Said(f.remove) == Dead then Dead else Error;
      }
      if Done(f.remove) {
        trees := trees - {plan.workTree};
      }
      if Said(f.remove) != Ok {
        return Said(f.remove);
      }
      OneStep(plan, Now(), RemovingBranch, f);
      DeleteBranch(plan, f.delete);
      r := Said(f.delete);
    }

    method ClaimBranch(plan: Plan, f: Fortune) returns (r: Reply, created: bool)
      modifies this
      ensures Ends(plan, Machine(old(Now()), FindingBranch), f)
           == Ends(plan, Then(Now(), Now(), SaidBy(r), ListingTrees(created), Ended(Failed)), f)
    {
      r, created := Said(f.find), false;
      if r != Ok {
        return;
      }
      if plan.branch in branches {
        return if branches[plan.branch] == plan.base then Ok else Error, false;
      }
      if RefConflict(Now(), plan.branch) {
        return if Said(f.make) == Dead then Dead else Error, false;
      }
      if Done(f.make) {
        branches := branches[plan.branch := plan.base];
      }
      return Said(f.make), true;
    }

    method ClaimWorkTree(plan: Plan, f: Fortune, created: bool) returns (r: Reply)
      modifies this
      ensures Ends(plan, Machine(old(Now()), ListingTrees(created)), f)
           == Ends(plan, Then(Now(), Now(), SaidBy(r), PinningChanges, GiveUp(created)), f)
    {
      r := Said(f.list);
      if r != Ok {
        return;
      }
      if plan.workTree in trees {
        return if trees[plan.workTree].branch == plan.branch then Ok else Error;
      }
      if !CanAddTree(Now(), plan.workTree, plan.branch) {
        return if Said(f.add) == Dead then Dead else Error;
      }
      if Done(f.add) {
        trees := trees[plan.workTree := Worktree(plan.branch, false)];
      }
      r := Said(f.add);
    }

    method PrepareWorkspace(plan: Plan, f: Fortune) returns (r: Reply)
      requires plan.branched
      modifies this
      ensures Ends(plan, Machine(old(Now()), FindingBranch), f)
           == Ends(plan, Then(Now(), Now(), SaidBy(r), PinningChanges, Ended(Failed)), f)
    {
      var created;
      r, created := ClaimBranch(plan, f);
      if r != Ok {
        return;
      }
      r := ClaimWorkTree(plan, f, created);
      if r == Error && created {
        DeleteBranch(plan, f.undo);
        if Said(f.undo) == Dead {
          r := Dead;
        }
      }
    }

    method CreateRun(plan: Plan, f: Fortune) returns (report: Report)
      modifies this
      ensures Ends(plan, Machine(old(Now()), Looking), f) == Machine(Now(), Ended(report))
    {
      OneStep(plan, Now(), Looking, f);
      if Said(f.look) != Ok {
        return Of(Said(f.look));
      }
      if manifest.Some? {
        return RunExists;
      }
      OneStep(plan, Now(), MakingDirectory, f);
      if Said(f.directory) != Ok {
        return Of(Said(f.directory));
      }
      var saved := SaveState(plan, f);
      if saved != Ok {
        return Of(saved);
      }
      if plan.branched {
        var r := PrepareWorkspace(plan, f);
        if r != Ok {
          return Of(r);
        }
      }
      report := Publish(plan, f);
    }

    /** The state is put in place by a rename, and then its directory synced. */
    method SaveState(plan: Plan, f: Fortune) returns (r: Reply)
      modifies this
      ensures Ends(plan, Machine(old(Now()), SavingState), f)
           == Ends(plan,
                   Then(Now(), Now(), SaidBy(r), if plan.branched then FindingBranch else PinningChanges,
                        Ended(Failed)),
                   f)
    {
      OneStep(plan, Now(), SavingState, f);
      if Done(Renaming(f.state)) {
        state := Some(plan.goal);
      }
      if Said(f.state) != Ok {
        return Said(f.state);
      }
      OneStep(plan, Now(), SyncingState, f);
      r := Said(f.stateSync);
    }

    /** So is the manifest: a failure of the sync comes when it is in place. */
    method SaveManifest(plan: Plan, f: Fortune) returns (r: Reply)
      modifies this
      ensures Ends(plan, Machine(old(Now()), SavingManifest), f)
           == Ends(plan, Then(Now(), Now(), SaidBy(r), Ended(Created), Unwind(plan)), f)
    {
      OneStep(plan, Now(), SavingManifest, f);
      if Done(Renaming(f.manifest)) {
        manifest := Some(plan);
      }
      if Said(f.manifest) != Ok {
        return Said(f.manifest);
      }
      OneStep(plan, Now(), SyncingManifest, f);
      r := Said(f.manifestSync);
    }

    /** The pins and the manifest, and the unwinding of what cannot be finished. */
    method Publish(plan: Plan, f: Fortune) returns (report: Report)
      modifies this
      ensures Ends(plan, Machine(old(Now()), PinningChanges), f) == Machine(Now(), Ended(report))
    {
      OneStep(plan, Now(), PinningChanges, f);
      var r := Said(f.changes);
      if r == Ok {
        OneStep(plan, Now(), PinningPolicy, f);
        r := Said(f.policy);
      }
      if r == Ok {
        r := SaveManifest(plan, f);
        if r == Ok {
          return Created;
        }
      }
      if r == Dead {
        return Killed;
      }
      r := UnwindWorkspace(plan, f);
      return if r == Dead then Killed else Failed;
    }
  }

  function SaidBy(r: Reply): Luck {
    match r
    case Ok => Works
    case Error => FailsLate
    case Dead => DiesAfter
  }

  function Of(r: Reply): Report {
    if r == Dead then Killed else Failed
  }

  // ----- every run of attempts, with other people's git in between

  /** Others is anything other people do to branches and worktrees. One attempt is made at
      a time. */
  datatype Event = Begin | Belay(luck: Luck) | Others(branches: map<string, int>, trees: map<string, Worktree>)

  predicate Enabled(m: Machine, e: Event) {
    match e
    case Begin => m.pc.Ended?
    case Belay(_) => !m.pc.Ended?
    case Others(_, _) => true
  }

  function Do(plan: Plan, m: Machine, e: Event): Machine {
    match e
    case Begin => Machine(m.world, Looking)
    case Belay(luck) => Step(plan, m, luck)
    case Others(branches, trees) => m.(world := m.world.(branches := branches, trees := trees))
  }

  function After(plan: Plan, w: World, events: seq<Event>): Machine {
    if events == [] then Machine(w, Ended(Killed))
    else Do(plan, After(plan, w, events[..|events| - 1]), events[|events| - 1])
  }

  predicate Legal(plan: Plan, w: World, events: seq<Event>) {
    events != [] ==>
      Legal(plan, w, events[..|events| - 1]) && Enabled(After(plan, w, events[..|events| - 1]), events[|events| - 1])
  }

  /** All that a step can do to the world. */
  datatype Change = Nothing | StateWritten | ManifestWritten | BranchMade | BranchDeleted | TreeAdded | TreeRemoved

  predicate Possible(plan: Plan, w: World, c: Change) {
    match c
    case BranchMade => CanMakeBranch(w, plan.branch)
    case BranchDeleted => CanDeleteBranch(w, plan)
    case TreeAdded => CanAddTree(w, plan.workTree, plan.branch)
    case TreeRemoved => CanRemoveTree(w, plan)
    case _ => true
  }

  function Changed(plan: Plan, w: World, c: Change): World {
    match c
    case Nothing => w
    case StateWritten => w.(state := Some(plan.goal))
    case ManifestWritten => w.(manifest := Some(plan))
    case BranchMade => WithBranch(w, plan)
    case BranchDeleted => WithoutBranch(w, plan)
    case TreeAdded => WithTree(w, plan)
    case TreeRemoved => WithoutTree(w, plan)
  }

  lemma StepChanges(plan: Plan, m: Machine, luck: Luck) returns (c: Change)
    ensures Possible(plan, m.world, c) && Step(plan, m, luck).world == Changed(plan, m.world, c)
  {
    if Step(plan, m, luck).world == m.world {
      return Nothing;
    }
    match m.pc
    case SavingState => return StateWritten;
    case SavingManifest => return ManifestWritten;
    case MakingBranch => return BranchMade;
    case AddingTree(_) => return TreeAdded;
    case RemovingTree => return TreeRemoved;
    case UndoingBranch => return BranchDeleted;
    case RemovingBranch => return BranchDeleted;
    case _ => return Nothing;
  }

  /** What one step can do to branches and worktrees: no branch is moved; none is deleted
      but the run's own, where it is at its base and nowhere checked out; no other
      worktree is touched. */
  lemma StepSparesBranches(plan: Plan, m: Machine, luck: Luck, name: string)
    ensures var before, after := m.world.branches, Step(plan, m, luck).world.branches;
            (name in before && name in after ==> after[name] == before[name])
            && (name in before && name !in after ==>
                  name == plan.branch && before[name] == plan.base && !CheckedOut(m.world, name))
            && (name !in before && name in after ==> name == plan.branch && after[name] == plan.base)
    ensures Step(plan, m, luck).world.trees - {plan.workTree} == m.world.trees - {plan.workTree}
  {
    var c := StepChanges(plan, m, luck);
    match c
    case TreeAdded => assert WithTree(m.world, plan).trees - {plan.workTree} == m.world.trees - {plan.workTree};
    case TreeRemoved => assert WithoutTree(m.world, plan).trees - {plan.workTree} == m.world.trees - {plan.workTree};
    case _ =>
  }

  /** Nobody else moves or deletes this branch. */
  ghost predicate LeftAlone(events: seq<Event>, name: string, tip: int) {
    forall i :: 0 <= i < |events| && events[i].Others? ==>
      name in events[i].branches && events[i].branches[name] == tip
  }

  /** Over every run of attempts and interference, from any moment on, a branch that may
      hold somebody's work, which is any but the run's own at its base, stays where it is
      until somebody else moves it. */
  lemma {:induction false} WorkIsSafe(plan: Plan, w: World, events: seq<Event>, k: nat, name: string, tip: int)
    requires Legal(plan, w, events) && k <= |events| && LeftAlone(events[k..], name, tip)
    requires var was := After(plan, w, events[..k]).world;
             name in was.branches && was.branches[name] == tip
    requires name != plan.branch || tip != plan.base
    ensures var now := After(plan, w, events).world; name in now.branches && now.branches[name] == tip
    decreases |events|
  {
    if k == |events| {
      assert events[..k] == events;
    } else {
      var front, last := events[..|events| - 1], events[|events| - 1];
      assert front[..k] == events[..k] && events[k..] == front[k..] + [last];
      assert forall i :: 0 <= i < |front[k..]| ==> front[k..][i] == events[k..][i];
      assert events[k..][|events[k..]| - 1] == last;
      WorkIsSafe(plan, w, front, k, name, tip);
      if last.Belay? {
        StepSparesBranches(plan, After(plan, w, front), last.luck, name);
      }
    }
  }

  /** And to worktrees: none is changed in place; none is removed but the run's own, and that
      not where it is locked or the main working tree; none is added but that. */
  lemma StepSparesTrees(plan: Plan, m: Machine, luck: Luck, path: string)
    ensures var before, after := m.world.trees, Step(plan, m, luck).world.trees;
            (path in before && path in after ==> after[path] == before[path])
            && (path in before && path !in after ==>
                  path == plan.workTree && path != plan.main && !before[path].locked)
            && (path !in before && path in after ==>
                  path == plan.workTree && after[path] == Worktree(plan.branch, false))
  {
    var c := StepChanges(plan, m, luck);
  }

  /** Nobody else removes or changes this worktree. */
  ghost predicate TreeLeftAlone(events: seq<Event>, path: string, tree: Worktree) {
    forall i :: 0 <= i < |events| && events[i].Others? ==> path in events[i].trees && events[i].trees[path] == tree
  }

  /** Over every such run, from any moment on, a worktree that is locked, or the main one, or
      at any path but the run's own, stays as it is until somebody else changes it. */
  lemma {:induction false} TreesAreSafe(plan: Plan, w: World, events: seq<Event>, k: nat, path: string, tree: Worktree)
    requires Legal(plan, w, events) && k <= |events| && TreeLeftAlone(events[k..], path, tree)
    requires var was := After(plan, w, events[..k]).world; path in was.trees && was.trees[path] == tree
    requires tree.locked || path == plan.main || path != plan.workTree
    ensures var now := After(plan, w, events).world; path in now.trees && now.trees[path] == tree
    decreases |events|
  {
    if k == |events| {
      assert events[..k] == events;
    } else {
      var front, last := events[..|events| - 1], events[|events| - 1];
      assert front[..k] == events[..k] && events[k..] == front[k..] + [last];
      assert forall i :: 0 <= i < |front[k..]| ==> front[k..][i] == events[k..][i];
      assert events[k..][|events[k..]| - 1] == last;
      TreesAreSafe(plan, w, front, k, path, tree);
      if last.Belay? {
        StepSparesTrees(plan, After(plan, w, front), last.luck, path);
      }
    }
  }

  /** The attempt has begun and its manifest is not written yet. */
  predicate Before(pc: Pc) {
    !pc.Ended? && pc != Looking && pc != SyncingManifest && pc != RemovingTree && pc != RemovingBranch
  }

  /** The attempt is past writing the state. */
  predicate PastState(pc: Pc) {
    !pc.Ended? && pc != Looking && pc != MakingDirectory && pc != SavingState
  }

  /** There is no manifest until there is a state, and none while an attempt makes its
      run. */
  ghost predicate Ordered(plan: Plan, m: Machine) {
    (m.world.manifest.Some? ==> m.world.manifest == Some(plan) && m.world.state == Some(plan.goal))
    && (Before(m.pc) ==> m.world.manifest == None)
    && (m.pc == SyncingManifest ==> m.world.manifest == Some(plan))
    && (PastState(m.pc) ==> m.world.state == Some(plan.goal))
  }

  lemma StepIsOrdered(plan: Plan, m: Machine, e: Event)
    requires Ordered(plan, m) && Enabled(m, e)
    ensures Ordered(plan, Do(plan, m, e))
    ensures m.world.manifest.Some? ==>
              Do(plan, m, e).world.manifest == m.world.manifest && Do(plan, m, e).world.state == m.world.state
  {
  }

  lemma {:induction false} RunsAreOrdered(plan: Plan, w: World, events: seq<Event>)
    requires w.manifest == None && Legal(plan, w, events)
    ensures Ordered(plan, After(plan, w, events))
  {
    if events != [] {
      RunsAreOrdered(plan, w, events[..|events| - 1]);
      StepIsOrdered(plan, After(plan, w, events[..|events| - 1]), events[|events| - 1]);
    }
  }

  /** A run once made is never made again: whatever follows, no attempt writes its manifest
      or its state. */
  lemma {:induction false} RunsAreMadeOnce(plan: Plan, w: World, events: seq<Event>, k: nat)
    requires w.manifest == None && Legal(plan, w, events) && k <= |events|
    requires After(plan, w, events[..k]).world.manifest.Some?
    ensures var made, later := After(plan, w, events[..k]).world, After(plan, w, events).world;
            later.manifest == made.manifest && later.state == made.state == Some(plan.goal)
    decreases |events|
  {
    RunsAreOrdered(plan, w, events);
    if k == |events| {
      assert events[..k] == events;
    } else {
      var front := events[..|events| - 1];
      assert front[..k] == events[..k];
      RunsAreMadeOnce(plan, w, front, k);
      RunsAreOrdered(plan, w, front);
      StepIsOrdered(plan, After(plan, w, front), events[|events| - 1]);
    }
  }

  // ----- what a manifest is written over

  predicate AtBase(plan: Plan, w: World) {
    plan.branch in w.branches && w.branches[plan.branch] == plan.base
  }

  predicate OnBranch(plan: Plan, w: World) {
    plan.workTree in w.trees && w.trees[plan.workTree].branch == plan.branch
  }

  /** Since the last attempt began, the branch has been at the run's base. */
  predicate SawBranch(plan: Plan, w: World, events: seq<Event>) {
    events != [] && !events[|events| - 1].Begin?
    && (SawBranch(plan, w, events[..|events| - 1]) || AtBase(plan, After(plan, w, events).world))
  }

  /** And since then, the worktree has been registered on the branch. */
  predicate SawTree(plan: Plan, w: World, events: seq<Event>) {
    events != [] && !events[|events| - 1].Begin?
    && (SawTree(plan, w, events[..|events| - 1])
        || (SawBranch(plan, w, events) && OnBranch(plan, After(plan, w, events).world)))
  }

  /** Nobody has done anything since the last attempt began. */
  predicate Undisturbed(events: seq<Event>) {
    events != [] && !events[|events| - 1].Others?
    && (events[|events| - 1].Begin? || Undisturbed(events[..|events| - 1]))
  }

  predicate HasBranch(pc: Pc) {
    pc.ListingTrees? || pc.AddingTree?
  }

  predicate HasTree(pc: Pc) {
    pc == PinningChanges || pc == PinningPolicy || pc == SavingManifest
  }

  /** What a machine stands on, given what was seen since its attempt began and whether
      anybody else has done anything since. */
  predicate Claims(plan: Plan, m: Machine, branch: bool, tree: bool, alone: bool) {
    (HasBranch(m.pc) ==> branch)
    && (HasTree(m.pc) ==> tree)
    && (alone && (HasBranch(m.pc) || HasTree(m.pc)) ==> AtBase(plan, m.world))
    && (alone && HasTree(m.pc) ==> OnBranch(plan, m.world))
  }

  lemma StepClaims(plan: Plan, m: Machine, e: Event, branch: bool, tree: bool, alone: bool)
    requires plan.branched && Enabled(m, e) && Claims(plan, m, branch, tree, alone)
    ensures var now := Do(plan, m, e);
            var branch' := !e.Begin? && (branch || AtBase(plan, now.world));
            var tree' := !e.Begin? && (tree || (branch' && OnBranch(plan, now.world)));
            Claims(plan, now, branch', tree', !e.Others? && (e.Begin? || alone))
  {
  }

  lemma {:induction false} ClaimsWereSeen(plan: Plan, w: World, events: seq<Event>)
    requires plan.branched && Legal(plan, w, events)
    ensures Claims(plan, After(plan, w, events), SawBranch(plan, w, events), SawTree(plan, w, events),
                   Undisturbed(events))
    decreases |events|
  {
    if events != [] {
      var front := events[..|events| - 1];
      ClaimsWereSeen(plan, w, front);
      StepClaims(plan, After(plan, w, front), events[|events| - 1], SawBranch(plan, w, front), SawTree(plan, w, front),
                 Undisturbed(front));
    }
  }

  /** When a branch run's manifest is written, by an attempt that may have been interfered
      with at any step: its state was written, and while that attempt was under way the
      branch was at the run's base, and the worktree then registered on it. Where nobody
      interfered, both hold as it is written. */
  lemma ManifestIsEarned(plan: Plan, w: World, events: seq<Event>)
    requires plan.branched && w.manifest == None && events != [] && Legal(plan, w, events)
    requires After(plan, w, events[..|events| - 1]).world.manifest == None
    requires After(plan, w, events).world.manifest.Some?
    ensures var now := After(plan, w, events).world;
            now.state == Some(plan.goal) && SawTree(plan, w, events)
            && (Undisturbed(events) ==> AtBase(plan, now) && OnBranch(plan, now))
  {
    var front := events[..|events| - 1];
    RunsAreOrdered(plan, w, events);
    ClaimsWereSeen(plan, w, front);
    assert After(plan, w, front).pc == SavingManifest;
  }

  // ----- what is undone

  /** In the last attempt, syncing the directory failed once the manifest was in place. */
  predicate SyncFailed(plan: Plan, w: World, events: seq<Event>) {
    events != [] && !events[|events| - 1].Begin?
    && (SyncFailed(plan, w, events[..|events| - 1])
        || (events[|events| - 1].Belay? && Said(events[|events| - 1].luck) == Error
            && After(plan, w, events[..|events| - 1]).pc == SyncingManifest))
  }

  /** An attempt that undoes its branch and worktree takes them from a run that has been
      made if and only if the directory sync after its manifest's rename failed. */
  lemma {:induction false} UndoSparesRunsExactly(plan: Plan, w: World, events: seq<Event>)
    requires w.manifest == None && Legal(plan, w, events)
    ensures var m := After(plan, w, events);
            (m.pc == RemovingTree || m.pc == RemovingBranch ==>
               (m.world.manifest.Some? <==> SyncFailed(plan, w, events)))
            && (Before(m.pc) ==> m.world.manifest == None && !SyncFailed(plan, w, events))
            && (m.pc == SyncingManifest ==> m.world.manifest.Some? && !SyncFailed(plan, w, events))
            && (m.pc == Looking ==> !SyncFailed(plan, w, events))
    decreases |events|
  {
    if events != [] {
      UndoSparesRunsExactly(plan, w, events[..|events| - 1]);
    }
  }

  const LUCKY := Fortune(Works, Works, Works, Works, Works, Works, Works, Works, Works, Works, Works, Works,
                         Works, Works, Works)

  /** Nothing goes wrong before the manifest. */
  predicate Smooth(f: Fortune) {
    f.look == f.directory == f.state == f.stateSync == f.find == f.make == f.list == f.add == f.changes
    == f.policy == Works
  }

  /** Where nothing else goes wrong, the run there is a manifest for has its worktree on its
      branch at its base if and only if the sync after the manifest's rename did not fail. */
  lemma RunKeepsItsTree(plan: Plan, w: World, luck: Luck)
    requires plan.branched && w.manifest == None && Ready(plan, w) && CanRemoveTree(w, plan)
    requires plan.workTree != plan.main
    ensures var now := Ends(plan, Machine(w, Looking), LUCKY.(manifestSync := luck)).world;
            (now.manifest.Some? ==> AtBase(plan, now) && OnBranch(plan, now)) <==> Said(luck) != Error
  {
    var f := LUCKY.(manifestSync := luck);
    var r := Readied(plan, w, f);
    Pinned(plan, r, f);
    SyncDecides(plan, r.(manifest := Some(plan)), f);
  }

  lemma SyncDecides(plan: Plan, w: World, f: Fortune)
    requires plan.branched && AtBase(plan, w) && OnBranch(plan, w) && CanRemoveTree(w, plan)
    requires w.manifest.Some? && f.remove == Works
    ensures var now := Ends(plan, Machine(w, SyncingManifest), f).world;
            (now.manifest.Some? ==> AtBase(plan, now) && OnBranch(plan, now)) <==> Said(f.manifestSync) != Error
  {
    OneStep(plan, w, SyncingManifest, f);
    if Said(f.manifestSync) == Error {
      Unwound(plan, w, f);
    }
  }

  lemma Pinned(plan: Plan, w: World, f: Fortune)
    requires f.changes == Works && f.policy == Works && f.manifest == Works
    ensures var made := w.(manifest := Some(plan));
            Ends(plan, Machine(w, PinningChanges), f) == Ends(plan, Machine(made, SyncingManifest), f)
  {
    Goes(plan, w, PinningChanges, f, Machine(w, PinningPolicy));
    Goes(plan, w, PinningPolicy, f, Machine(w, SavingManifest));
    ManifestSaved(plan, w, f);
  }

  lemma ManifestSaved(plan: Plan, w: World, f: Fortune)
    requires f.manifest == Works
    ensures var made := w.(manifest := Some(plan));
            Ends(plan, Machine(w, SavingManifest), f) == Ends(plan, Machine(made, SyncingManifest), f)
  {
    Goes(plan, w, SavingManifest, f, Machine(w.(manifest := Some(plan)), SyncingManifest));
  }

  lemma Unwound(plan: Plan, w: World, f: Fortune)
    requires plan.workTree in w.trees && CanRemoveTree(w, plan) && f.remove == Works
    ensures var now := Ends(plan, Machine(w, RemovingTree), f).world;
            now.manifest == w.manifest && plan.workTree !in now.trees
  {
    Goes(plan, w, RemovingTree, f, Machine(WithoutTree(w, plan), RemovingBranch));
    OneStep(plan, WithoutTree(w, plan), RemovingBranch, f);
  }

  // ----- a later attempt succeeds

  /** The branch is at the base or can be made, and the worktree on it or can be added. */
  predicate Ready(plan: Plan, w: World) {
    (if plan.branch in w.branches then AtBase(plan, w) else !RefConflict(w, plan.branch))
    && (if plan.workTree in w.trees then OnBranch(plan, w) else !CheckedOut(w, plan.branch))
  }

  /** The world as an attempt finds it when it comes to pin things. */
  lemma Readied(plan: Plan, w: World, f: Fortune) returns (r: World)
    requires plan.branched && w.manifest == None && Ready(plan, w)
    requires Smooth(f)
    ensures Ends(plan, Machine(w, Looking), f) == Ends(plan, Machine(r, PinningChanges), f)
    ensures AtBase(plan, r) && OnBranch(plan, r) && r.state == Some(plan.goal) && r.manifest == None
    ensures r.trees == w.trees || r.trees == WithTree(w, plan).trees
  {
    var s := w.(state := Some(plan.goal));
    Begun(plan, w, f);
    if plan.branch in w.branches {
      Goes(plan, s, FindingBranch, f, Machine(s, ListingTrees(false)));
      r := Treed(plan, s, f, false);
    } else {
      Goes(plan, s, FindingBranch, f, Machine(s, MakingBranch));
      Goes(plan, s, MakingBranch, f, Machine(WithBranch(s, plan), ListingTrees(true)));
      r := Treed(plan, WithBranch(s, plan), f, true);
    }
  }

  /** The state is written first. */
  lemma Begun(plan: Plan, w: World, f: Fortune)
    requires w.manifest == None && Smooth(f)
    ensures Ends(plan, Machine(w, Looking), f)
         == Ends(plan,
                 Machine(w.(state := Some(plan.goal)), if plan.branched then FindingBranch else PinningChanges),
                 f)
  {
    var s := w.(state := Some(plan.goal));
    Goes(plan, w, Looking, f, Machine(w, MakingDirectory));
    Goes(plan, w, MakingDirectory, f, Machine(w, SavingState));
    Goes(plan, w, SavingState, f, Machine(s, SyncingState));
    Goes(plan, s, SyncingState, f, Machine(s, if plan.branched then FindingBranch else PinningChanges));
  }

  lemma Treed(plan: Plan, w: World, f: Fortune, created: bool) returns (r: World)
    requires AtBase(plan, w) && Smooth(f)
    requires if plan.workTree in w.trees then OnBranch(plan, w) else !CheckedOut(w, plan.branch)
    ensures Ends(plan, Machine(w, ListingTrees(created)), f) == Ends(plan, Machine(r, PinningChanges), f)
    ensures AtBase(plan, r) && OnBranch(plan, r) && r.state == w.state && r.manifest == w.manifest
    ensures r.trees == w.trees || r.trees == WithTree(w, plan).trees
  {
    if plan.workTree in w.trees {
      r := w;
      Goes(plan, w, ListingTrees(created), f, Machine(r, PinningChanges));
    } else {
      r := WithTree(w, plan);
      Goes(plan, w, ListingTrees(created), f, Machine(w, AddingTree(created)));
      Goes(plan, w, AddingTree(created), f, Machine(r, PinningChanges));
    }
  }

  /** An attempt nobody disturbs and nothing fails makes the run if and only if there is no
      such run, and git can give it its branch and its worktree. */
  lemma SucceedsExactly(plan: Plan, w: World)
    ensures Ends(plan, Machine(w, Looking), LUCKY).pc == Ended(Created)
            <==> w.manifest == None && (plan.branched ==> Ready(plan, w))
  {
    if w.manifest.Some? {
      OneStep(plan, w, Looking, LUCKY);
    } else if plan.branched && Ready(plan, w) {
      var r := Readied(plan, w, LUCKY);
      Publishes(plan, r);
    } else {
      var s := w.(state := Some(plan.goal));
      Begun(plan, w, LUCKY);
      if plan.branched {
        Refuses(plan, w, s);
      } else {
        Publishes(plan, s);
      }
    }
  }

  lemma Publishes(plan: Plan, w: World)
    ensures Ends(plan, Machine(w, PinningChanges), LUCKY) == Machine(w.(manifest := Some(plan)), Ended(Created))
  {
    Pinned(plan, w, LUCKY);
    Goes(plan, w.(manifest := Some(plan)), SyncingManifest, LUCKY, Machine(w.(manifest := Some(plan)), Ended(Created)));
  }

  lemma Refuses(plan: Plan, w: World, s: World)
    requires !Ready(plan, w) && s.branches == w.branches && s.trees == w.trees
    ensures Ends(plan, Machine(s, FindingBranch), LUCKY).pc == Ended(Failed)
  {
    if plan.branch !in w.branches {
      Goes(plan, s, FindingBranch, LUCKY, Machine(s, MakingBranch));
      OneStep(plan, s, MakingBranch, LUCKY);
      if !RefConflict(w, plan.branch) {
        RefusesTree(plan, WithBranch(s, plan), true);
      }
    } else if AtBase(plan, w) {
      Goes(plan, s, FindingBranch, LUCKY, Machine(s, ListingTrees(false)));
      RefusesTree(plan, s, false);
    } else {
      Goes(plan, s, FindingBranch, LUCKY, Machine(s, Ended(Failed)));
    }
  }

  lemma RefusesTree(plan: Plan, w: World, created: bool)
    requires if plan.workTree in w.trees then !OnBranch(plan, w) else CheckedOut(w, plan.branch)
    ensures Ends(plan, Machine(w, ListingTrees(created)), LUCKY).pc == Ended(Failed)
  {
    OneStep(plan, w, ListingTrees(created), LUCKY);
    if plan.workTree !in w.trees {
      OneStep(plan, w, AddingTree(created), LUCKY);
    }
    if created {
      OneStep(plan, w, UndoingBranch, LUCKY);
    }
  }

  /** Nothing of this run's is anywhere but where an attempt puts it. */
  ghost predicate Tidy(plan: Plan, w: World) {
    !RefConflict(w, plan.branch)
    && (plan.branch in w.branches ==> AtBase(plan, w))
    && forall p :: p in w.trees ==> (p == plan.workTree <==> w.trees[p].branch == plan.branch)
  }

  lemma StepKeepsTidy(plan: Plan, m: Machine, luck: Luck)
    requires Tidy(plan, m.world)
    ensures Tidy(plan, Step(plan, m, luck).world)
  {
    var c := StepChanges(plan, m, luck);
    match c
    case BranchMade => BranchKeepsTidy(plan, m.world);
    case BranchDeleted => NoBranchKeepsTidy(plan, m.world);
    case TreeAdded => TreeKeepsTidy(plan, m.world);
    case TreeRemoved => TreeKeepsTidy(plan, m.world);
    case _ => assert Tidy(plan, Changed(plan, m.world, c));
  }

  lemma BranchKeepsTidy(plan: Plan, w: World)
    requires Tidy(plan, w)
    ensures Tidy(plan, WithBranch(w, plan))
  {
    forall b | b in WithBranch(w, plan).branches ensures !(plan.branch + "/" <= b) && !(b + "/" <= plan.branch) {
      if b !in w.branches {
        assert |b + "/"| > |plan.branch|;
      }
    }
  }

  lemma NoBranchKeepsTidy(plan: Plan, w: World)
    requires Tidy(plan, w)
    ensures Tidy(plan, WithoutBranch(w, plan))
  {
    forall b | b in WithoutBranch(w, plan).branches ensures !(plan.branch + "/" <= b) && !(b + "/" <= plan.branch) {
      assert b in w.branches;
    }
  }

  lemma TreeKeepsTidy(plan: Plan, w: World)
    requires Tidy(plan, w)
    ensures Tidy(plan, WithTree(w, plan)) && Tidy(plan, WithoutTree(w, plan))
  {
  }

  lemma {:induction false} AttemptsLeaveItTidy(plan: Plan, w: World, events: seq<Event>)
    requires Tidy(plan, w) && Legal(plan, w, events) && forall i :: 0 <= i < |events| ==> !events[i].Others?
    ensures Tidy(plan, After(plan, w, events).world)
    decreases |events|
  {
    if events != [] {
      AttemptsLeaveItTidy(plan, w, events[..|events| - 1]);
      if events[|events| - 1].Belay? {
        StepKeepsTidy(plan, After(plan, w, events[..|events| - 1]), events[|events| - 1].luck);
      }
    }
  }

  /** After any number of attempts, each failing or killed at any step, the run either has
      been made or is made by the next attempt that nothing stops. */
  lemma AttemptsConverge(plan: Plan, w: World, events: seq<Event>)
    requires Legal(plan, w, events) && forall i :: 0 <= i < |events| ==> !events[i].Others?
    requires plan.branched ==> Tidy(plan, w)
    ensures var now := After(plan, w, events).world;
            Ends(plan, Machine(now, Looking), LUCKY).pc
              == Ended(if now.manifest.Some? then RunExists else Created)
  {
    var now := After(plan, w, events).world;
    if plan.branched {
      AttemptsLeaveItTidy(plan, w, events);
    }
    SucceedsExactly(plan, now);
    OneStep(plan, now, Looking, LUCKY);
  }

  // ----- a failure leaves nothing behind

  /** now's branches and worktrees are w's, with these added. */
  predicate Has(plan: Plan, w: World, now: World, branch: bool, tree: bool) {
    now.branches == (if branch then WithBranch(w, plan) else w).branches
    && now.trees == (if tree then WithTree(w, plan) else w).trees
  }

  /** What an attempt that found neither branch nor worktree has added to w by each step. */
  predicate Added(plan: Plan, w: World, m: Machine) {
    match m.pc
    case ListingTrees(created) => created && Has(plan, w, m.world, true, false)
    case AddingTree(created) => created && Has(plan, w, m.world, true, false)
    case UndoingBranch => Has(plan, w, m.world, true, false)
    case RemovingBranch => Has(plan, w, m.world, true, false)
    case Ended(report) => report == Failed ==> Has(plan, w, m.world, false, false)
    case _ => Has(plan, w, m.world, 1 <= StepsLeft(m.pc) <= 5, 1 <= StepsLeft(m.pc) <= 5)
  }

  /** Neither the branch nor the worktree is there, and git can make both. */
  predicate Bare(plan: Plan, w: World) {
    plan.branched && plan.branch !in w.branches && plan.workTree !in w.trees && !CheckedOut(w, plan.branch)
    && plan.workTree != plan.main
  }

  /** A git command that makes something and fails makes nothing; and what is to be undone
      can be. */
  predicate Clean(f: Fortune) {
    f.make != FailsLate && f.add != FailsLate && f.undo == Works && f.remove == Works && f.delete == Works
  }

  lemma StepAdds(plan: Plan, w: World, m: Machine, f: Fortune)
    requires Bare(plan, w) && Clean(f) && Added(plan, w, m)
    ensures Added(plan, w, Step(plan, m, LuckAt(f, m.pc)))
  {
    if StepsLeft(m.pc) > 8 {
      StepFirst(plan, w, m, f);
    } else if StepsLeft(m.pc) > 6 {
      StepMakes(plan, w, m, f);
    } else if StepsLeft(m.pc) == 6 {
      StepAddsTree(plan, w, m, f);
    } else if StepsLeft(m.pc) > 1 {
      StepFinishes(plan, w, m, f);
    } else if StepsLeft(m.pc) == 1 {
      StepRemovesTree(plan, w, m, f);
    } else {
      StepTakesBack(plan, w, m, f);
    }
  }

  lemma StepFirst(plan: Plan, w: World, m: Machine, f: Fortune)
    requires Bare(plan, w) && Clean(f) && Added(plan, w, m) && StepsLeft(m.pc) > 8
    ensures Added(plan, w, Step(plan, m, LuckAt(f, m.pc)))
  {
  }

  lemma StepMakes(plan: Plan, w: World, m: Machine, f: Fortune)
    requires Bare(plan, w) && Clean(f) && Added(plan, w, m) && 6 < StepsLeft(m.pc) <= 8
    ensures Added(plan, w, Step(plan, m, LuckAt(f, m.pc)))
  {
  }

  lemma StepAddsTree(plan: Plan, w: World, m: Machine, f: Fortune)
    requires Bare(plan, w) && Clean(f) && Added(plan, w, m) && StepsLeft(m.pc) == 6
    ensures Added(plan, w, Step(plan, m, LuckAt(f, m.pc)))
  {
  }

  lemma StepFinishes(plan: Plan, w: World, m: Machine, f: Fortune)
    requires Bare(plan, w) && Clean(f) && Added(plan, w, m) && 1 < StepsLeft(m.pc) <= 5
    ensures Added(plan, w, Step(plan, m, LuckAt(f, m.pc)))
  {
  }

  lemma StepRemovesTree(plan: Plan, w: World, m: Machine, f: Fortune)
    requires Bare(plan, w) && Clean(f) && Added(plan, w, m) && StepsLeft(m.pc) == 1
    ensures Added(plan, w, Step(plan, m, LuckAt(f, m.pc)))
  {
    assert WithoutTree(WithTree(w, plan), plan).trees == w.trees;
  }

  lemma StepTakesBack(plan: Plan, w: World, m: Machine, f: Fortune)
    requires Bare(plan, w) && Clean(f) && Added(plan, w, m) && StepsLeft(m.pc) == 0
    ensures Added(plan, w, Step(plan, m, LuckAt(f, m.pc)))
  {
    assert WithoutBranch(WithBranch(w, plan), plan).branches == w.branches;
  }

  lemma StepGoesOn(plan: Plan, m: Machine, luck: Luck)
    requires !m.pc.Ended?
    ensures GoesOn(m.pc, Step(plan, m, luck).pc)
  {
    if StepsLeft(m.pc) > 8 {
      FirstStepsGoOn(plan, m, luck);
    } else if StepsLeft(m.pc) > 5 {
      MakingGoesOn(plan, m, luck);
    }
  }

  predicate GoesOn(pc: Pc, next: Pc) {
    next.Ended? || StepsLeft(next) < StepsLeft(pc)
  }

  lemma FirstStepsGoOn(plan: Plan, m: Machine, luck: Luck)
    requires StepsLeft(m.pc) > 8
    ensures GoesOn(m.pc, Step(plan, m, luck).pc)
  {
  }

  lemma MakingGoesOn(plan: Plan, m: Machine, luck: Luck)
    requires 5 < StepsLeft(m.pc) <= 8
    ensures GoesOn(m.pc, Step(plan, m, luck).pc)
  {
  }

  /** The steps that every attempt has to get through from pc on to make a run worked. */
  predicate NothingFailed(pc: Pc, f: Fortune) {
    (StepsLeft(pc) >= 13 ==> f.look == Works) && (StepsLeft(pc) >= 12 ==> f.directory == Works)
    && (StepsLeft(pc) >= 11 ==> f.state == Works) && (StepsLeft(pc) >= 10 ==> f.stateSync == Works)
    && (StepsLeft(pc) >= 5 ==> f.changes == Works) && (StepsLeft(pc) >= 4 ==> f.policy == Works)
    && StepsLeft(pc) >= 3 && Done(Renaming(f.manifest))
  }

  /** Where an attempt leaves a manifest there was none of, the run's directory, its state,
      and both its pins were made on the way, whatever else it met with. */
  lemma {:induction false} NoRunWithoutItsPins(plan: Plan, m: Machine, f: Fortune)
    requires m.world.manifest == None && Ends(plan, m, f).world.manifest.Some?
    ensures NothingFailed(m.pc, f)
    decreases !m.pc.Ended?, StepsLeft(m.pc)
  {
    var next := Step(plan, m, LuckAt(f, m.pc));
    StepGoesOn(plan, m, LuckAt(f, m.pc));
    if next.world.manifest == None {
      NoRunWithoutItsPins(plan, next, f);
      StepNeeds(plan, m, f);
    } else {
      assert m.pc == SavingManifest;
    }
  }

  lemma StepNeeds(plan: Plan, m: Machine, f: Fortune)
    requires !m.pc.Ended? && NothingFailed(Step(plan, m, LuckAt(f, m.pc)).pc, f)
    ensures NothingFailed(m.pc, f)
  {
  }

  lemma {:induction false} EndAdds(plan: Plan, w: World, m: Machine, f: Fortune)
    requires Bare(plan, w) && Clean(f) && Added(plan, w, m)
    ensures Added(plan, w, Ends(plan, m, f))
    decreases !m.pc.Ended?, StepsLeft(m.pc)
  {
    if !m.pc.Ended? {
      StepAdds(plan, w, m, f);
      StepGoesOn(plan, m, LuckAt(f, m.pc));
      EndAdds(plan, w, Step(plan, m, LuckAt(f, m.pc)), f);
    }
  }

  /** An attempt that found neither and fails, at whichever step, leaves the repository's
      branches and worktrees as they were. */
  lemma FailureLeavesNothing(plan: Plan, w: World, f: Fortune)
    requires Bare(plan, w) && Clean(f) && Ends(plan, Machine(w, Looking), f).pc == Ended(Failed)
    ensures Ends(plan, Machine(w, Looking), f).world.branches == w.branches
    ensures Ends(plan, Machine(w, Looking), f).world.trees == w.trees
  {
    EndAdds(plan, w, Machine(w, Looking), f);
  }
}
