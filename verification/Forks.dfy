/** What a fork inherits: the history before the visit it re-runs, without the spending,
    and one figure for what that history cost whoever paid for it. */
module Forks {

  datatype Usage = Usage(micros: int, estimated: bool)

  datatype Option<T> = None | Some(value: T)

  datatype Event = RunStarted | NodeStarted | NodeFinished

  datatype Record = Record(number: nat, event: Event, usage: Option<Usage>)

  /** startSeq is where the fork's own history begins. */
  datatype Origin = Origin(startSeq: nat, inherited: int, estimated: bool)

  /** A run on disk: its journal, the visits it kept a snapshot of, and where it was
      forked from. */
  datatype Run = Run(journal: seq<Record>, snapshots: set<nat>, origin: Option<Origin>)

  datatype Error = NoSnapshot

  datatype Outcome = Forked(run: Run) | Refused(error: Error)

  function Strip(r: Record): Record { r.(usage := None) }

  function Cost(records: seq<Record>): int {
    if records == [] then 0
    else Cost(records[..|records| - 1]) + (match records[|records| - 1].usage case None => 0 case Some(u) => u.micros)
  }

  ghost predicate Estimated(records: seq<Record>) {
    exists i :: 0 <= i < |records| && records[i].usage.Some? && records[i].usage.value.estimated
  }

  ghost predicate Increasing(records: seq<Record>) {
    forall i, j :: 0 <= i < j < |records| ==> records[i].number < records[j].number
  }

  function StripAll(records: seq<Record>): (r: seq<Record>)
    ensures |r| == |records| && forall i :: 0 <= i < |r| ==> r[i] == Strip(records[i])
  {
    seq(|records|, i requires 0 <= i < |records| => Strip(records[i]))
  }

  /** How many records come before the first numbered startSeq or later. */
  function Before(records: seq<Record>, startSeq: nat): (n: nat)
    ensures n <= |records| && (n < |records| ==> startSeq <= records[n].number)
    ensures forall i :: 0 <= i < n ==> records[i].number < startSeq
  {
    if records == [] || records[0].number >= startSeq then 0 else 1 + Before(records[1..], startSeq)
  }

  method Inherit(records: seq<Record>, startSeq: nat) returns (prefix: seq<Record>, micros: int, estimated: bool)
    ensures var mine := records[..Before(records, startSeq)];
            prefix == StripAll(mine) && micros == Cost(mine) && estimated == Estimated(mine)
  {
    prefix, micros, estimated := [], 0, false;
    for i := 0 to |records|
      invariant i <= Before(records, startSeq)
      invariant prefix == StripAll(records[..i]) && micros == Cost(records[..i]) && estimated == Estimated(records[..i])
    {
      var r := records[i];
      if r.number >= startSeq {
        return;
      }
      InheritedOneMore(records, i);
      match r.usage {
        case None =>
        case Some(u) =>
          micros := micros + u.micros;
          estimated := estimated || u.estimated;
          r := Strip(r);
      }
      prefix := prefix + [r];
    }
    assert records[..|records|] == records;
  }

  lemma InheritedOneMore(records: seq<Record>, i: nat)
    requires i < |records|
    ensures var front, more, r := records[..i], records[..i + 1], records[i];
            StripAll(more) == StripAll(front) + [Strip(r)]
            && Cost(more) == Cost(front) + (match r.usage case None => 0 case Some(u) => u.micros)
            && (Estimated(more) <==> Estimated(front) || (r.usage.Some? && r.usage.value.estimated))
  {
    assert records[..i + 1] == records[..i] + [records[i]];
    EstimatedOneMore(records[..i], records[i]);
  }

  lemma EstimatedOneMore(front: seq<Record>, r: Record)
    ensures Estimated(front + [r]) <==> Estimated(front) || (r.usage.Some? && r.usage.value.estimated)
  {
    var all := front + [r];
    if Estimated(front) {
      var i :| 0 <= i < |front| && front[i].usage.Some? && front[i].usage.value.estimated;
      assert all[i] == front[i];
    }
    assert all[|front|] == r;
  }

  /** A fork of source that re-runs the visit which began at startSeq. */
  method Make(source: Run, startSeq: nat) returns (f: Outcome)
    ensures f == ForkOf(source, startSeq)
  {
    if startSeq !in source.snapshots {
      return Refused(NoSnapshot);
    }
    var inherited, micros, estimated := Inherit(source.journal, startSeq);
    if source.origin.Some? {
      micros := micros + source.origin.value.inherited;
      estimated := estimated || source.origin.value.estimated;
    }
    var boundary := Record(startSeq, RunStarted, None);
    f := Forked(Run(inherited + [boundary], {}, Some(Origin(startSeq, micros, estimated))));
  }

  ghost function ForkOf(source: Run, startSeq: nat): Outcome {
    if startSeq !in source.snapshots then Refused(NoSnapshot) else Forked(ForkAt(source, startSeq))
  }

  /** The fork itself, whether or not the source holds the visit's snapshot. */
  ghost function ForkAt(source: Run, startSeq: nat): Run {
    var mine := source.journal[..Before(source.journal, startSeq)];
    var cost := Cost(mine) + if source.origin.Some? then source.origin.value.inherited else 0;
    var estimated := Estimated(mine) || (source.origin.Some? && source.origin.value.estimated);
    Run(StripAll(mine) + [Record(startSeq, RunStarted, None)], {}, Some(Origin(startSeq, cost, estimated)))
  }

  // ----- chains of forks

  /** What a run does, and forking it again. A step of its own is numbered after all
      before it, and only the node_started of a step of its own gets a snapshot. */
  datatype Act = Step(r: Record) | Fork(startSeq: nat)

  ghost predicate Enabled(run: Run, act: Act) {
    match act
    case Step(r) => run.journal == [] || run.journal[|run.journal| - 1].number < r.number
    case Fork(startSeq) => ForkOf(run, startSeq).Forked?
  }

  /** A run with its history as it really was, every cost in it. */
  datatype Chain = Chain(run: Run, full: seq<Record>)

  ghost function Do(c: Chain, act: Act): Chain
    requires Enabled(c.run, act)
  {
    match act
    case Step(r) =>
      Chain(c.run.(journal := c.run.journal + [r],
                   snapshots := if r.event == NodeStarted then c.run.snapshots + {r.number} else c.run.snapshots),
            c.full + [r])
    case Fork(startSeq) =>
      Chain(ForkOf(c.run, startSeq).run, c.full[..Before(c.full, startSeq)] + [Record(startSeq, RunStarted, None)])
  }

  /** Where the run's own records begin in its history. */
  function OwnFrom(run: Run): nat {
    if run.origin.None? then 0 else Before(run.journal, run.origin.value.startSeq)
  }

  /** journal is full with the first k costs taken out, and numbers increase. */
  ghost predicate Aligned(journal: seq<Record>, full: seq<Record>, k: nat) {
    k <= |full| && Increasing(full) && journal == StripAll(full[..k]) + full[k..]
  }

  ghost predicate OwnSnapshots(snapshots: set<nat>, full: seq<Record>, k: nat) {
    forall n :: n in snapshots <==> exists i :: k <= i < |full| && full[i].number == n && full[i].event == NodeStarted
  }

  ghost predicate TrueOrigin(o: Origin, full: seq<Record>, k: nat) {
    k < |full| && full[k] == Record(o.startSeq, RunStarted, None)
    && o.inherited == Cost(full[..k]) && (o.estimated <==> Estimated(full[..k]))
  }

  ghost predicate Sound(c: Chain) {
    var k := OwnFrom(c.run);
    Aligned(c.run.journal, c.full, k) && OwnSnapshots(c.run.snapshots, c.full, k)
    && (c.run.origin.Some? ==> TrueOrigin(c.run.origin.value, c.full, k))
  }

  lemma AlignedNumbers(journal: seq<Record>, full: seq<Record>, k: nat)
    requires Aligned(journal, full, k)
    ensures |journal| == |full| && forall i :: 0 <= i < |full| ==> journal[i].number == full[i].number
    ensures Increasing(journal)
  {
    forall i | 0 <= i < |full| ensures journal[i].number == full[i].number {
      assert journal[i] == if i < k then Strip(full[i]) else full[i];
    }
  }

  lemma {:induction false} CostConcat(a: seq<Record>, b: seq<Record>)
    ensures Cost(a + b) == Cost(a) + Cost(b)
  {
    if b == [] {
      assert a + b == a;
    } else {
      assert (a + b)[..|a + b| - 1] == a + b[..|b| - 1];
      CostConcat(a, b[..|b| - 1]);
    }
  }

  lemma {:induction false} StrippedCostsNothing(records: seq<Record>)
    ensures Cost(StripAll(records)) == 0 && !Estimated(StripAll(records))
  {
    if records != [] {
      assert StripAll(records)[..|records| - 1] == StripAll(records[..|records| - 1]);
      StrippedCostsNothing(records[..|records| - 1]);
    }
  }

  lemma EstimatedConcat(a: seq<Record>, b: seq<Record>)
    ensures Estimated(a + b) <==> Estimated(a) || Estimated(b)
  {
    var all := a + b;
    if Estimated(a) {
      var i :| 0 <= i < |a| && a[i].usage.Some? && a[i].usage.value.estimated;
      assert all[i] == a[i];
    }
    if Estimated(b) {
      var i :| 0 <= i < |b| && b[i].usage.Some? && b[i].usage.value.estimated;
      assert all[|a| + i] == b[i];
    }
    if Estimated(all) {
      var i :| 0 <= i < |all| && all[i].usage.Some? && all[i].usage.value.estimated;
      assert if i < |a| then a[i] == all[i] else b[i - |a|] == all[i];
    }
  }

  lemma {:induction false} BeforeIs(records: seq<Record>, startSeq: nat, n: nat)
    requires n <= |records| && forall i :: 0 <= i < n ==> records[i].number < startSeq
    requires n < |records| ==> startSeq <= records[n].number
    ensures Before(records, startSeq) == n
  {
    if n > 0 {
      BeforeIs(records[1..], startSeq, n - 1);
    }
  }

  lemma AlignedStep(journal: seq<Record>, full: seq<Record>, k: nat, r: Record)
    requires Aligned(journal, full, k) && (full == [] || full[|full| - 1].number < r.number)
    ensures Aligned(journal + [r], full + [r], k) && (full + [r])[..k] == full[..k]
  {
    assert (full + [r])[..k] == full[..k] && (full + [r])[k..] == full[k..] + [r];
  }

  lemma SnapshotsStep(snapshots: set<nat>, full: seq<Record>, k: nat, r: Record)
    requires OwnSnapshots(snapshots, full, k) && k <= |full|
    ensures OwnSnapshots(if r.event == NodeStarted then snapshots + {r.number} else snapshots, full + [r], k)
  {
    var all := full + [r];
    assert all[|full|] == r && forall i :: 0 <= i < |full| ==> all[i] == full[i];
    forall n | n in snapshots ensures exists i :: k <= i < |all| && all[i].number == n && all[i].event == NodeStarted {
      var i :| k <= i < |full| && full[i].number == n && full[i].event == NodeStarted;
      assert all[i] == full[i];
    }
  }

  lemma StepIsSound(c: Chain, r: Record)
    requires Sound(c) && Enabled(c.run, Step(r))
    ensures Sound(Do(c, Step(r)))
  {
    var d, k := Do(c, Step(r)), OwnFrom(c.run);
    AlignedNumbers(c.run.journal, c.full, k);
    AlignedStep(c.run.journal, c.full, k, r);
    SnapshotsStep(c.run.snapshots, c.full, k, r);
    if c.run.origin.Some? {
      AlignedNumbers(d.run.journal, d.full, k);
      assert d.full[k] == c.full[k];
      BeforeIs(d.run.journal, c.run.origin.value.startSeq, k);
    }
  }

  /** The visit a run can be forked at is its own, and its history splits there. */
  lemma ForkPoint(c: Chain, startSeq: nat) returns (i: nat)
    requires Sound(c) && startSeq in c.run.snapshots
    ensures OwnFrom(c.run) <= i < |c.full| && c.full[i].number == startSeq && c.full[i].event == NodeStarted
    ensures Before(c.run.journal, startSeq) == i && Before(c.full, startSeq) == i
  {
    AlignedNumbers(c.run.journal, c.full, OwnFrom(c.run));
    i :| OwnFrom(c.run) <= i < |c.full| && c.full[i].number == startSeq && c.full[i].event == NodeStarted;
    BeforeIs(c.run.journal, startSeq, i);
    BeforeIs(c.full, startSeq, i);
  }

  lemma InheritedCost(c: Chain, i: nat)
    requires Sound(c) && OwnFrom(c.run) <= i <= |c.full|
    ensures |c.run.journal| == |c.full|
    ensures Cost(c.run.journal[..i]) + Inherited(c.run) == Cost(c.full[..i])
    ensures Estimated(c.full[..i]) <==>
            Estimated(c.run.journal[..i]) || (c.run.origin.Some? && c.run.origin.value.estimated)
  {
    var k := OwnFrom(c.run);
    var front, own := c.full[..k], c.full[k..i];
    AlignedNumbers(c.run.journal, c.full, k);
    CutInTwo(c.run.journal, c.full, k, i);
    StrippedFrontCosts(front, own);
    InheritedOrNothing(c, front);
  }

  lemma CutInTwo(journal: seq<Record>, full: seq<Record>, k: nat, i: nat)
    requires Aligned(journal, full, k) && k <= i <= |full| == |journal|
    ensures journal[..i] == StripAll(full[..k]) + full[k..i] && full[..i] == full[..k] + full[k..i]
  {
  }

  lemma InheritedOrNothing(c: Chain, front: seq<Record>)
    requires Sound(c) && front == c.full[..OwnFrom(c.run)]
    ensures Cost(front) == Inherited(c.run)
    ensures Estimated(front) <==> c.run.origin.Some? && c.run.origin.value.estimated
  {
    if c.run.origin.None? {
      assert front == [];
    }
  }

  /** Stripping the front of a history takes out just what the front cost. */
  lemma StrippedFrontCosts(front: seq<Record>, own: seq<Record>)
    ensures Cost(front + own) == Cost(StripAll(front) + own) + Cost(front)
    ensures Estimated(front + own) <==> Estimated(StripAll(front) + own) || Estimated(front)
  {
    CostConcat(StripAll(front), own);
    CostConcat(front, own);
    StrippedCostsNothing(front);
    EstimatedConcat(StripAll(front), own);
    EstimatedConcat(front, own);
  }

  function Inherited(run: Run): int {
    if run.origin.Some? then run.origin.value.inherited else 0
  }

  /** Cut at i and closed with a boundary, a history and its stripped copy are aligned. */
  lemma AlignedFork(journal: seq<Record>, full: seq<Record>, k: nat, i: nat, boundary: Record)
    requires Aligned(journal, full, k) && k <= i < |full| && full[i].number == boundary.number
    ensures |journal| == |full|
    ensures Aligned(StripAll(journal[..i]) + [boundary], full[..i] + [boundary], i)
    ensures (full[..i] + [boundary])[..i] == full[..i]
    ensures Before(StripAll(journal[..i]) + [boundary], boundary.number) == i
  {
    AlignedNumbers(journal, full, k);
    var all := full[..i] + [boundary];
    assert StripAll(journal[..i]) == StripAll(full[..i]);
    assert all[..i] == full[..i] && all[i..] == [boundary];
    BeforeIs(StripAll(journal[..i]) + [boundary], boundary.number, i);
  }

  lemma ForkIsSound(c: Chain, startSeq: nat)
    requires Sound(c) && Enabled(c.run, Fork(startSeq))
    ensures Sound(Do(c, Fork(startSeq)))
  {
    var i := ForkPoint(c, startSeq);
    var boundary := Record(startSeq, RunStarted, None);
    AlignedFork(c.run.journal, c.full, OwnFrom(c.run), i, boundary);
    InheritedCost(c, i);
    ForkedAt(Do(c, Fork(startSeq)), c.full[..i] + [boundary], i);
  }

  /** A run that begins with a boundary at i, with nothing of its own yet. */
  lemma ForkedAt(c: Chain, full: seq<Record>, i: nat)
    requires c.full == full && OwnFrom(c.run) == i && Aligned(c.run.journal, full, i) && c.run.snapshots == {}
    requires c.run.origin.Some? && TrueOrigin(c.run.origin.value, full, i) && |full| == i + 1
    ensures Sound(c)
  {
  }

  const FIRST := Chain(Run([], {}, None), [])

  ghost function After(acts: seq<Act>): Chain
    requires Legal(acts)
    decreases acts, 1
  {
    if acts == [] then FIRST else Do(After(acts[..|acts| - 1]), acts[|acts| - 1])
  }

  ghost predicate Legal(acts: seq<Act>)
    decreases acts, 0
  {
    acts != [] ==> Legal(acts[..|acts| - 1]) && Enabled(After(acts[..|acts| - 1]).run, acts[|acts| - 1])
  }

  lemma {:induction false} ChainsAreSound(acts: seq<Act>)
    requires Legal(acts)
    ensures Sound(After(acts))
  {
    if acts != [] {
      ChainsAreSound(acts[..|acts| - 1]);
      match acts[|acts| - 1]
      case Step(r) => StepIsSound(After(acts[..|acts| - 1]), r);
      case Fork(startSeq) => ForkIsSound(After(acts[..|acts| - 1]), startSeq);
    }
  }

  /** Along any chain of runs, forks and forks of forks: numbers in a journal only ever
      increase, and what a run inherits and what its own journal records add up to what
      its whole history really cost, so each dollar is in exactly one of the two. */
  lemma EachDollarOnce(acts: seq<Act>)
    requires Legal(acts)
    ensures var c := After(acts); Increasing(c.run.journal) && Inherited(c.run) + Cost(c.run.journal) == Cost(c.full)
  {
    ChainsAreSound(acts);
    SoundCost(After(acts));
    SoundNumbers(After(acts));
  }

  lemma SoundCost(c: Chain)
    requires Sound(c)
    ensures Inherited(c.run) + Cost(c.run.journal) == Cost(c.full)
  {
    InheritedCost(c, |c.full|);
    assert c.full[..|c.full|] == c.full && c.run.journal[..|c.full|] == c.run.journal;
  }

  lemma SoundNumbers(c: Chain)
    requires Sound(c)
    ensures Increasing(c.run.journal)
  {
    AlignedNumbers(c.run.journal, c.full, OwnFrom(c.run));
  }

  /** The record at i is a visit of the run's own: one it did not inherit. */
  ghost predicate OwnVisit(c: Chain, i: int) {
    0 <= i < |c.full| && c.full[i].event == NodeStarted
    && (c.run.origin.Some? ==> c.run.origin.value.startSeq <= c.full[i].number)
  }

  lemma OwnVisitIsPastOrigin(c: Chain, i: int)
    requires Sound(c) && 0 <= i < |c.full| && c.full[i].event == NodeStarted
    ensures OwnVisit(c, i) <==> OwnFrom(c.run) <= i
  {
    var k := OwnFrom(c.run);
    if c.run.origin.Some? && k < i {
      assert c.full[k].number < c.full[i].number;
    }
    if c.run.origin.Some? && i < k {
      assert c.full[i].number < c.full[k].number;
    }
  }

  /** Along any chain, forking is answered with a fork if and only if the visit asked for is
      one of the run's own. The fork then starts with a journal that records no cost at all
      and inherits what the whole history before the visit cost, whoever paid. */
  lemma ForksOwnVisitsOnly(acts: seq<Act>, startSeq: nat)
    requires Legal(acts)
    ensures var c, f := After(acts), ForkOf(After(acts).run, startSeq);
            && (f.Forked? <==> exists i :: OwnVisit(c, i) && c.full[i].number == startSeq)
            && (f.Forked? ==> exists i :: OwnVisit(c, i) && c.full[i].number == startSeq
                                          && InheritsAll(f.run, startSeq, c.full[..i]))
  {
    var c := After(acts);
    ChainsAreSound(acts);
    if i :| OwnVisit(c, i) && c.full[i].number == startSeq {
      OwnVisitIsPastOrigin(c, i);
      assert startSeq in c.run.snapshots;
    }
    if ForkOf(c.run, startSeq).Forked? {
      var i := ForkPoint(c, startSeq);
      OwnVisitIsPastOrigin(c, i);
      ForkInheritsAll(c, startSeq, i);
    }
  }

  /** f is history without its costs, and a boundary; it has no snapshot, and inherits all
      that history cost. */
  ghost predicate InheritsAll(f: Run, startSeq: nat, history: seq<Record>) {
    |f.journal| == |history| + 1 && f.journal[|history|] == Record(startSeq, RunStarted, None)
    && (forall i :: 0 <= i < |history| ==> f.journal[i] == Record(history[i].number, history[i].event, None))
    && f.snapshots == {} && Cost(f.journal) == 0
    && f.origin == Some(Origin(startSeq, Cost(history), Estimated(history)))
  }

  lemma ForkInheritsAll(c: Chain, startSeq: nat, i: nat)
    requires Sound(c) && ForkOf(c.run, startSeq).Forked? && OwnFrom(c.run) <= i < |c.full|
    requires Before(c.run.journal, startSeq) == i && Before(c.full, startSeq) == i
    ensures InheritsAll(ForkOf(c.run, startSeq).run, startSeq, c.full[..i])
  {
    var mine, boundary := c.run.journal[..i], Record(startSeq, RunStarted, None);
    InheritedCost(c, i);
    OriginIsWhole(c.run, startSeq, mine, c.full[..i]);
    StrippedHistory(c.run.journal, c.full, OwnFrom(c.run), i, c.full[..i], StripAll(mine));
    BoundaryCostsNothing(mine, boundary);
    InheritsParts(ForkOf(c.run, startSeq).run, startSeq, c.full[..i], StripAll(mine));
  }

  lemma OriginIsWhole(run: Run, startSeq: nat, mine: seq<Record>, history: seq<Record>)
    requires mine == run.journal[..Before(run.journal, startSeq)] && Cost(mine) + Inherited(run) == Cost(history)
    ensures (Estimated(history) <==> Estimated(mine) || (run.origin.Some? && run.origin.value.estimated)) ==>
              ForkAt(run, startSeq).origin == Some(Origin(startSeq, Cost(history), Estimated(history)))
  {
  }

  /** Each of stripped is of history, without its cost. */
  ghost predicate WithoutCosts(stripped: seq<Record>, history: seq<Record>) {
    |stripped| == |history|
    && forall i :: 0 <= i < |history| ==> stripped[i] == Record(history[i].number, history[i].event, None)
  }

  lemma StrippedHistory(journal: seq<Record>, full: seq<Record>, k: nat, n: nat,
                        history: seq<Record>, stripped: seq<Record>)
    requires Aligned(journal, full, k) && n <= |full| == |journal| && history == full[..n]
    requires stripped == StripAll(journal[..n])
    ensures WithoutCosts(stripped, history)
  {
    forall i | 0 <= i < n ensures stripped[i] == Record(history[i].number, history[i].event, None) {
      assert journal[i] == if i < k then Strip(full[i]) else full[i];
    }
  }

  lemma InheritsParts(f: Run, startSeq: nat, history: seq<Record>, stripped: seq<Record>)
    requires f.journal == stripped + [Record(startSeq, RunStarted, None)] && Cost(f.journal) == 0 && f.snapshots == {}
    ensures WithoutCosts(stripped, history)
            && f.origin == Some(Origin(startSeq, Cost(history), Estimated(history))) ==>
              InheritsAll(f, startSeq, history)
  {
  }

  lemma BoundaryCostsNothing(mine: seq<Record>, boundary: Record)
    requires boundary.usage == None
    ensures Cost(StripAll(mine) + [boundary]) == 0
  {
    StrippedCostsNothing(mine);
    CostConcat(StripAll(mine), [boundary]);
    assert [boundary][..0] == [];
  }

  /** A visit a run only inherited, which is numbered before its own records, is refused. */
  lemma InheritedVisitIsRefused(acts: seq<Act>, startSeq: nat)
    requires Legal(acts) && After(acts).run.origin.Some? && startSeq < After(acts).run.origin.value.startSeq
    ensures ForkOf(After(acts).run, startSeq) == Refused(NoSnapshot)
  {
    ForksOwnVisitsOnly(acts, startSeq);
  }

  /** This rests on refusing visits a run only inherited. Forked at one, the figure
      would hold all the run inherited, and not only what came before the visit. */
  lemma InheritedVisitWouldOvercount()
    ensures exists c, startSeq ::
      Sound(c) && startSeq !in c.run.snapshots
      && Inherited(ForkAt(c.run, startSeq)) != Cost(c.full[..Before(c.full, startSeq)])
  {
    var paid := Record(1, NodeFinished, Some(Usage(5, false)));
    var boundary := Record(2, RunStarted, None);
    var c := Chain(Run([Strip(paid), boundary], {}, Some(Origin(2, 5, false))), [paid, boundary]);
    BeforeIs(c.run.journal, 2, 1);
    assert c.full[..1] == [paid] && [paid][..0] == [] && StripAll([paid]) == [Strip(paid)];
    assert c.full[1..] == [boundary];
    assert [paid][0] == paid && Cost([paid]) == Cost([]) + 5;
    assert !Estimated([paid]);
    assert Sound(c);
    OvercountAt(c);
  }

  lemma OvercountAt(c: Chain)
    requires |c.run.journal| == 2 == |c.full| && c.run.journal[0].number == 1 && c.full[0].number == 1
    requires c.run.origin == Some(Origin(2, 5, false))
    ensures Inherited(ForkAt(c.run, 1)) != Cost(c.full[..Before(c.full, 1)])
  {
    BeforeIs(c.run.journal, 1, 0);
    BeforeIs(c.full, 1, 0);
    assert c.run.journal[..0] == [] && c.full[..0] == [];
    assert Inherited(ForkAt(c.run, 1)) == 5;
  }
}
