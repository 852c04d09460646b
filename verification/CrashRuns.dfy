/** A run's money through crashes: the ledger in memory, the journal and the manifest's
    snapshot on disk, with a crash possible between any two writes. */
module CrashRuns {
  import opened Ledgers
  import opened Accounts
  import opened Budgets

  /** How far the charge for the attempt that just ended has come. */
  datatype Half = Settled | JournalOnly(e: Charge) | LedgerOnly(e: Charge)

  /** saved is the snapshot in the manifest; open: an attempt was started and the
      journal holds no charge for it yet. */
  datatype Run = Run(ledger: Book, journal: seq<Charge>, saved: Usage, half: Half, open: bool)

  /** Start passes Check and starts an attempt. Append journals the charge for it, which
      after a crash is an estimate, and Record puts it in the ledger; a dispatcher does
      the one or the other first. Save writes the snapshot. Crash loses the ledger and
      resumes from what is on disk. */
  datatype Step = Start | Append(e: Charge) | Record(e: Charge) | Save | Crash

  predicate Enabled(s: Run, step: Step, cfg: Config) {
    match step
    case Start => s.half == Settled && !s.open && Check(s.ledger, cfg) == Allowed
    case Append(e) => s.open && NonNegative(e.usage) && (s.half == Settled || s.half == LedgerOnly(e))
    case Record(e) => NonNegative(e.usage) && (s.half == JournalOnly(e) || (s.half == Settled && s.open))
    case Save => s.half == Settled
    case Crash => true
  }

  function Do(s: Run, step: Step): Run {
    match step
    case Start => s.(open := true)
    case Append(e) =>
      s.(journal := s.journal + [e], half := if s.half == Settled then JournalOnly(e) else Settled, open := false)
    case Record(e) => s.(ledger := Posted(s.ledger, e), half := if s.half == Settled then LedgerOnly(e) else Settled)
    case Save => s.(saved := s.ledger.total)
    case Crash => s.(ledger := Rebuilt(s.journal, s.saved), half := Settled)
  }

  const FRESH := Run(EMPTY, [], ZERO, Settled, false)

  function After(steps: seq<Step>): Run {
    if steps == [] then FRESH else Do(After(steps[..|steps| - 1]), steps[|steps| - 1])
  }

  /** Every step was possible when it was taken. */
  predicate Legal(steps: seq<Step>, cfg: Config) {
    steps != [] ==>
      Legal(steps[..|steps| - 1], cfg) && Enabled(After(steps[..|steps| - 1]), steps[|steps| - 1], cfg)
  }

  /** The ledger is what the journal says, but for the charge in flight; and no snapshot
      is ahead of the journal. */
  ghost predicate Faithful(s: Run) {
    (forall i :: 0 <= i < |s.journal| ==> NonNegative(s.journal[i].usage))
    && Within(s.saved, Replay(s.journal).total)
    && match s.half
       case Settled => s.ledger == Replay(s.journal)
       case JournalOnly(e) =>
         s.journal != [] && s.journal[|s.journal| - 1] == e && s.ledger == Replay(s.journal[..|s.journal| - 1])
       case LedgerOnly(e) => s.open && s.ledger == Posted(Replay(s.journal), e)
  }

  lemma RebuiltIsReplay(journal: seq<Charge>, floor: Usage)
    requires Within(floor, Replay(journal).total)
    ensures Rebuilt(journal, floor) == Replay(journal)
  {
  }

  lemma StepIsFaithful(s: Run, step: Step, cfg: Config)
    requires Faithful(s) && Enabled(s, step, cfg)
    ensures Faithful(Do(s, step))
  {
    match step
    case Start =>
    case Append(e) =>
      assert (s.journal + [e])[..|s.journal|] == s.journal;
    case Record(e) =>
      if s.half == JournalOnly(e) {
        assert s.journal == s.journal[..|s.journal| - 1] + [e];
      }
    case Save =>
    case Crash =>
      RebuiltIsReplay(s.journal, s.saved);
  }

  lemma {:induction false} RunsAreFaithful(steps: seq<Step>, cfg: Config)
    requires Legal(steps, cfg)
    ensures Faithful(After(steps))
  {
    if steps != [] {
      var front, last := steps[..|steps| - 1], steps[|steps| - 1];
      RunsAreFaithful(front, cfg);
      StepIsFaithful(After(front), last, cfg);
    }
  }

  lemma LastIsPosted(journal: seq<Charge>)
    requires journal != []
    ensures Replay(journal) == Posted(Replay(journal[..|journal| - 1]), journal[|journal| - 1])
  {
  }

  /** What a crash makes of a faithful run's ledger. */
  ghost predicate LosesNothing(s: Run, after: Book) {
    match s.half
    case Settled => after == s.ledger
    case JournalOnly(e) => after == Posted(s.ledger, e)
    case LedgerOnly(e) => s.ledger == Posted(after, e)
  }

  lemma FaithfulLosesNothing(s: Run)
    requires Faithful(s)
    ensures LosesNothing(s, Replay(s.journal))
  {
    if s.half.JournalOnly? {
      LastIsPosted(s.journal);
    }
  }

  /** Whatever has happened, the ledger a crash is resumed with is exactly the one the
      journal records, node by node and in order: the ledger the crash destroyed, with a
      charge that was journalled and not recorded put in, and one that was recorded and
      not journalled left out. */
  lemma CrashLosesNothing(steps: seq<Step>, cfg: Config)
    requires Legal(steps, cfg)
    ensures var s := After(steps);
            var after := Do(s, Crash).ledger;
            after == Replay(s.journal) && Consistent(after) && LosesNothing(s, after)
  {
    RunsAreFaithful(steps, cfg);
    CrashOfFaithful(After(steps));
  }

  lemma CrashOfFaithful(s: Run)
    requires Faithful(s)
    ensures Do(s, Crash).ledger == Replay(s.journal)
    ensures Consistent(Replay(s.journal)) && LosesNothing(s, Replay(s.journal))
  {
    RebuiltIsReplay(s.journal, s.saved);
    ReplayIsConsistent(s.journal);
    FaithfulLosesNothing(s);
  }

  /** How many entries the journal had when the snapshot was last written. */
  function LastSaved(steps: seq<Step>): nat {
    if steps == [] then 0
    else if steps[|steps| - 1].Save? then |After(steps).journal|
    else LastSaved(steps[..|steps| - 1])
  }

  /** The snapshot on disk is the total of the journal as it was when it was last written,
      through whatever has happened since. */
  lemma {:induction false} SnapshotIsOfTheJournal(steps: seq<Step>, cfg: Config)
    requires Legal(steps, cfg)
    ensures var s := After(steps);
            LastSaved(steps) <= |s.journal| && s.saved == Replay(s.journal[..LastSaved(steps)]).total
  {
    if steps != [] {
      var front, last := steps[..|steps| - 1], steps[|steps| - 1];
      SnapshotIsOfTheJournal(front, cfg);
      RunsAreFaithful(front, cfg);
      var s := After(front);
      assert s.journal[..|s.journal|] == s.journal;
      if last.Append? {
        assert (s.journal + [last.e])[..LastSaved(front)] == s.journal[..LastSaved(front)];
      }
    }
  }

  // ----- the ceiling

  predicate Enforced(cfg: Config) {
    cfg.onExceed != Warn
  }

  ghost predicate SingleCalls(journal: seq<Charge>) {
    forall i :: 0 <= i < |journal| ==> !journal[i].sum
  }

  /** No figure that has a ceiling is over it by more than extra's. */
  predicate OverByAtMost(spent: Usage, cfg: Config, extra: Usage) {
    (cfg.maxMicros > 0 ==> spent.micros <= cfg.maxMicros + extra.micros)
    && (cfg.maxTokens > 0 ==>
          spent.inTokens + spent.outTokens <= cfg.maxTokens + extra.inTokens + extra.outTokens)
  }

  /** While an attempt is open the journal is within both ceilings; otherwise it is over by
      no more than its last charge. */
  ghost predicate UnderCeiling(s: Run, cfg: Config) {
    OverByAtMost(Replay(s.journal).total, cfg,
                 if s.open || s.journal == [] then ZERO else s.journal[|s.journal| - 1].usage)
  }

  lemma StepStaysUnderCeiling(s: Run, step: Step, cfg: Config)
    requires Enforced(cfg) && Faithful(s) && Enabled(s, step, cfg) && UnderCeiling(s, cfg)
    ensures UnderCeiling(Do(s, step), cfg)
  {
    match step
    case Start => CheckRefusesExactly(s.ledger, cfg);
    case Append(e) =>
      assert (s.journal + [e])[..|s.journal|] == s.journal;
    case _ =>
  }

  lemma {:induction false} RunsStayUnderCeiling(steps: seq<Step>, cfg: Config)
    requires Enforced(cfg) && Legal(steps, cfg)
    ensures UnderCeiling(After(steps), cfg)
  {
    if steps != [] {
      var front, last := steps[..|steps| - 1], steps[|steps| - 1];
      RunsStayUnderCeiling(front, cfg);
      RunsAreFaithful(front, cfg);
      StepStaysUnderCeiling(After(front), last, cfg);
    }
  }

  /** However often a run crashes and is resumed, the dollars and the tokens its journal
      records stay within their ceilings and the largest single call. */
  lemma SpendIsCeilingPlusOneCall(steps: seq<Step>, cfg: Config)
    requires Enforced(cfg) && Legal(steps, cfg) && SingleCalls(After(steps).journal)
    ensures var spent := Replay(After(steps).journal); OverByAtMost(spent.total, cfg, spent.largest)
  {
    var journal := After(steps).journal;
    RunsStayUnderCeiling(steps, cfg);
    LargestIsNonNegative(journal);
    if journal != [] {
      CallsAreWithinLargest(journal, |journal| - 1);
    }
  }

  /** And a run is never stopped for nothing: with nothing open and every charge settled, it
      can go on if and only if its journal is inside both ceilings, or the policy is to warn. */
  lemma StartsExactlyInside(steps: seq<Step>, cfg: Config)
    requires Legal(steps, cfg) && After(steps).half == Settled && !After(steps).open
    ensures Enabled(After(steps), Start, cfg) <==>
            cfg.onExceed == Warn || InsideBoth(Replay(After(steps).journal).total, cfg)
  {
    RunsAreFaithful(steps, cfg);
    CheckRefusesExactly(After(steps).ledger, cfg);
  }

  lemma {:induction false} LargestIsNonNegative(entries: seq<Charge>)
    ensures NonNegative(Replay(entries).largest)
  {
    if entries != [] {
      LargestIsNonNegative(entries[..|entries| - 1]);
    }
  }
}
