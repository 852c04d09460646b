/** The whole bill of a fanout: a parent divides what it has left among candidates, the
    candidates spend against their envelopes, and the parent is charged what they
    report, any number of times, through any number of crashes, and never twice for the
    same dollar. */
module Fanouts {
  import opened Ledgers
  import opened Accounts
  import opened Budgets

  /** Whether the last charge to the parent is in its journal yet. */
  datatype Half = Settled | Unjournalled(e: Charge)

  /** saved is the snapshot in the parent's manifest; limit is the largest budget.max_usd and
      budget.max_tokens the fanout has been given so far, no tokens meaning that some budget
      had no token ceiling. */
  datatype Fanout = Fanout(parent: Book, journal: seq<Charge>, saved: Usage, half: Half,
                           kids: seq<Book>, envelopes: seq<Envelope>, limit: Envelope)

  /** Spend: candidate i takes a step, having passed Check against its envelope. Report:
      the parent is charged what the candidates it could read have spent in all. Append:
      the charge is journalled. Save: the snapshot is written. Crash: the parent's ledger
      is lost, and rebuilt. Adopt: a resume gives candidate i the share of a ceiling as it
      is now, if that is more. */
  datatype Step =
    | Spend(i: nat, node: string, u: Usage)
    | Report(seen: seq<bool>)
    | Append
    | Save
    | Crash
    | Adopt(i: nat, cfg: Config)

  function KidConfig(e: Envelope): Config { Config(e.micros, e.tokens, Abort) }

  predicate Enabled(s: Fanout, step: Step) {
    match step
    case Spend(i, _, u) =>
      i < |s.kids| && i < |s.envelopes| && NonNegative(u) && Check(s.kids[i], KidConfig(s.envelopes[i])) == Allowed
    case Report(seen) => |seen| == |s.kids| && s.half == Settled
    case Append => s.half.Unjournalled?
    case Save => s.half == Settled
    case Crash => true
    case Adopt(i, _) => i < |s.envelopes|
  }

  function Wider(limit: Envelope, cfg: Config): Envelope {
    Envelope(Max(limit.micros, cfg.maxMicros),
             if limit.tokens <= 0 || cfg.maxTokens <= 0 then 0 else Max(limit.tokens, cfg.maxTokens))
  }

  /** What the candidates marked in seen have spent together. */
  function Cumulative(kids: seq<Book>, seen: seq<bool>): Usage
    requires |kids| == |seen|
  {
    if kids == [] then ZERO
    else
      var front := Cumulative(kids[..|kids| - 1], seen[..|seen| - 1]);
      if seen[|seen| - 1] then Add(front, kids[|kids| - 1].total) else front
  }

  function Do(s: Fanout, step: Step, node: string): Fanout
    requires Enabled(s, step)
  {
    match step
    case Spend(i, n, u) => s.(kids := s.kids[i := Posted(s.kids[i], Charge(n, u, false))])
    case Report(seen) =>
      var e := Charge(node, Increase(Cumulative(s.kids, seen), Of(s.parent, node)), true);
      s.(parent := Posted(s.parent, e), half := Unjournalled(e))
    case Append => s.(journal := s.journal + [s.half.e], half := Settled)
    case Save => s.(saved := s.parent.total)
    case Crash => s.(parent := Rebuilt(s.journal, s.saved), half := Settled)
    case Adopt(i, cfg) =>
      var e := PartitionAtLeast(s.envelopes[i], WithoutNode(s.parent, node).total, cfg, |s.envelopes|);
      s.(envelopes := s.envelopes[i := e], limit := Wider(s.limit, cfg))
  }

  /** A parent as its journal has it, n fresh candidates, and the share of each. */
  function Begin(journal: seq<Charge>, saved: Usage, cfg: Config, n: nat, e: Envelope): Fanout {
    Fanout(Replay(journal), journal, saved, Settled, seq(n, _ => EMPTY), seq(n, _ => e),
           Envelope(cfg.maxMicros, Max(0, cfg.maxTokens)))
  }

  // ----- sums over candidates

  function Sum(xs: seq<int>): int {
    if xs == [] then 0 else Sum(xs[..|xs| - 1]) + xs[|xs| - 1]
  }

  /** One figure of each candidate's total. */
  function Totals(kids: seq<Book>, f: Figure): seq<int> {
    seq(|kids|, i requires 0 <= i < |kids| => Read(kids[i].total, f))
  }

  /** And of each one's largest single step. */
  function Largests(kids: seq<Book>, f: Figure): seq<int> {
    seq(|kids|, i requires 0 <= i < |kids| => Read(kids[i].largest, f))
  }

  function Spent(kids: seq<Book>, f: Figure): int { Sum(Totals(kids, f)) }

  function Largest(kids: seq<Book>, f: Figure): int { Sum(Largests(kids, f)) }

  /** One figure of each candidate's total, where it could be read, and nothing elsewhere. */
  function SeenTotals(kids: seq<Book>, seen: seq<bool>, f: Figure): seq<int>
    requires |kids| == |seen|
  {
    seq(|kids|, i requires 0 <= i < |kids| => if seen[i] then Read(kids[i].total, f) else 0)
  }

  lemma {:induction false} CumulativeIsOfTheSeen(kids: seq<Book>, seen: seq<bool>, f: Figure)
    requires |kids| == |seen|
    ensures Read(Cumulative(kids, seen), f) == Sum(SeenTotals(kids, seen, f))
  {
    if kids != [] {
      var n := |kids| - 1;
      CumulativeIsOfTheSeen(kids[..n], seen[..n], f);
      assert SeenTotals(kids, seen, f)[..n] == SeenTotals(kids[..n], seen[..n], f);
    }
  }

  lemma {:induction false} CumulativeIsPart(kids: seq<Book>, seen: seq<bool>, f: Figure)
    requires |kids| == |seen| && forall i :: 0 <= i < |kids| ==> NonNegative(kids[i].total)
    ensures Read(Cumulative(kids, seen), f) <= Spent(kids, f)
  {
    if kids != [] {
      var n := |kids| - 1;
      CumulativeIsPart(kids[..n], seen[..n], f);
      assert Totals(kids, f)[..n] == Totals(kids[..n], f);
    }
  }

  lemma {:induction false} SumRaised(xs: seq<int>, i: nat, x: int)
    requires i < |xs| && xs[i] <= x
    ensures Sum(xs) <= Sum(xs[i := x])
  {
    var n := |xs| - 1;
    if i == n {
      assert xs[i := x][..n] == xs[..n];
    } else {
      assert xs[i := x][..n] == xs[..n][i := x];
      SumRaised(xs[..n], i, x);
    }
  }

  lemma SpendingRaises(kids: seq<Book>, i: nat, b: Book, f: Figure)
    requires i < |kids| && Read(kids[i].total, f) <= Read(b.total, f)
    ensures Spent(kids, f) <= Spent(kids[i := b], f)
  {
    assert Totals(kids[i := b], f) == Totals(kids, f)[i := Read(b.total, f)];
    SumRaised(Totals(kids, f), i, Read(b.total, f));
  }

  lemma {:induction false} SumWithin(xs: seq<int>, ys: seq<int>, zs: seq<int>)
    requires |xs| == |ys| == |zs| && forall i :: 0 <= i < |xs| ==> xs[i] <= ys[i] + zs[i]
    ensures Sum(xs) <= Sum(ys) + Sum(zs)
  {
    if xs != [] {
      var n := |xs| - 1;
      SumWithin(xs[..n], ys[..n], zs[..n]);
    }
  }

  lemma {:induction false} SumOfSums(xs: seq<int>, ys: seq<int>, zs: seq<int>)
    requires |xs| == |ys| == |zs| && forall i :: 0 <= i < |xs| ==> zs[i] == xs[i] + ys[i]
    ensures Sum(zs) == Sum(xs) + Sum(ys)
  {
    if xs != [] {
      var n := |xs| - 1;
      SumOfSums(xs[..n], ys[..n], zs[..n]);
    }
  }

  lemma {:induction false} SumOfShares(xs: seq<int>, n: nat, room: int)
    requires forall i :: 0 <= i < |xs| ==> n * xs[i] <= room
    ensures n * Sum(xs) <= |xs| * room
  {
    if xs != [] {
      var front, last := xs[..|xs| - 1], xs[|xs| - 1];
      SumOfShares(front, n, room);
      assert n * Sum(xs) == n * Sum(front) + n * last;
      assert |xs| * room == |front| * room + room;
    }
  }

  lemma SharesFitTogether(xs: seq<int>, room: int)
    requires xs != [] && forall i :: 0 <= i < |xs| ==> |xs| * xs[i] <= room
    ensures Sum(xs) <= room
  {
    SumOfShares(xs, |xs|, room);
    CancelFactor(|xs|, Sum(xs), room);
  }

  lemma CancelFactor(n: int, a: int, b: int)
    requires n > 0
    ensures n * a <= n * b ==> a <= b
  {
    if a > b {
      var d := a - b;
      PositiveProduct(n, d);
      assert n * a == n * b + n * d;
    }
  }

  lemma PositiveProduct(n: int, d: int)
    requires n > 0 && d > 0
    ensures n * d > 0
  {
  }

  // ----- the invariant

  /** What the parent had spent before the fanout, estimates aside. */
  predicate SameFigures(u: Usage, v: Usage) {
    u.inTokens == v.inTokens && u.outTokens == v.outTokens && u.micros == v.micros
  }

  /** node is charged no more than the candidates spent, in any figure. */
  ghost predicate ChargedWithin(u: Usage, kids: seq<Book>) {
    forall f :: 0 <= Read(u, f) <= Spent(kids, f)
  }

  /** b is a ledger of the parent's: without node it is what it was before, and node is
      charged no more than the candidates spent. */
  ghost predicate ParentSound(b: Book, node: string, before: Usage, kids: seq<Book>) {
    Consistent(b) && SameFigures(WithoutNode(b, node).total, before) && ChargedWithin(Of(b, node), kids)
  }

  /** A candidate is within its envelope and one step, in dollars and in tokens. */
  ghost predicate WithinEnvelope(kid: Book, e: Envelope) {
    NonNegative(kid.total) && NonNegative(kid.largest)
    && 0 < e.micros && kid.total.micros <= e.micros + kid.largest.micros
    && 0 <= e.tokens
    && (e.tokens > 0 ==> kid.total.inTokens + kid.total.outTokens
                         <= e.tokens + kid.largest.inTokens + kid.largest.outTokens)
  }

  /** n envelopes like e come to no more than limit leaves. */
  ghost predicate Fits(e: Envelope, n: nat, limit: Envelope, before: Usage) {
    n * e.micros <= limit.micros - before.micros
    && (limit.tokens > 0 ==> 0 < e.tokens && n * e.tokens <= limit.tokens - Tokens(before))
  }

  /** Every candidate is within its envelope and one step, and the envelopes fit. */
  ghost predicate KidsSound(kids: seq<Book>, envelopes: seq<Envelope>, limit: Envelope, before: Usage) {
    && |kids| == |envelopes| > 0
    && (forall i :: 0 <= i < |kids| ==> WithinEnvelope(kids[i], envelopes[i]))
    && (forall i :: 0 <= i < |envelopes| ==> Fits(envelopes[i], |envelopes|, limit, before))
  }

  /** The parent's ledger is what its journal says, but for the charge not in it yet. */
  ghost predicate Faithful(parent: Book, journal: seq<Charge>, saved: Usage, half: Half) {
    Within(saved, Replay(journal).total)
    && match half
       case Settled => parent == Replay(journal)
       case Unjournalled(e) => parent == Posted(Replay(journal), e) && NonNegative(e.usage)
  }

  ghost predicate Sound(s: Fanout, node: string, before: Usage) {
    && Faithful(s.parent, s.journal, s.saved, s.half) && KidsSound(s.kids, s.envelopes, s.limit, before)
    && ParentSound(s.parent, node, before, s.kids) && ParentSound(Replay(s.journal), node, before, s.kids)
  }

  lemma SpendIsSound(s: Fanout, i: nat, n: string, u: Usage, node: string, before: Usage)
    requires Sound(s, node, before) && Enabled(s, Spend(i, n, u))
    ensures Sound(Do(s, Spend(i, n, u), node), node, before)
  {
    var b := Posted(s.kids[i], Charge(n, u, false));
    KidSpends(s.kids[i], s.envelopes[i], n, u);
    KidsStaySound(s.kids, s.envelopes, s.limit, before, i, b);
    ParentStaysSound(s.parent, node, before, s.kids, i, b);
    ParentStaysSound(Replay(s.journal), node, before, s.kids, i, b);
    assert Do(s, Spend(i, n, u), node) == s.(kids := s.kids[i := b]);
  }

  lemma KidsStaySound(kids: seq<Book>, envelopes: seq<Envelope>, limit: Envelope, before: Usage, i: nat, b: Book)
    requires KidsSound(kids, envelopes, limit, before) && i < |kids| && WithinEnvelope(b, envelopes[i])
    ensures KidsSound(kids[i := b], envelopes, limit, before)
  {
  }

  lemma ParentStaysSound(parent: Book, node: string, before: Usage, kids: seq<Book>, i: nat, b: Book)
    requires i < |kids| && forall f :: Read(kids[i].total, f) <= Read(b.total, f)
    ensures ParentSound(parent, node, before, kids) ==> ParentSound(parent, node, before, kids[i := b])
  {
    if ParentSound(parent, node, before, kids) {
      ChargedStaysWithin(Of(parent, node), kids, i, b);
    }
  }

  lemma KidSpends(kid: Book, e: Envelope, n: string, u: Usage)
    requires WithinEnvelope(kid, e) && NonNegative(u) && Check(kid, KidConfig(e)) == Allowed
    ensures WithinEnvelope(Posted(kid, Charge(n, u, false)), e)
    ensures forall f :: Read(kid.total, f) <= Read(Posted(kid, Charge(n, u, false)).total, f)
  {
    CheckRefusesExactly(kid, KidConfig(e));
  }

  lemma ChargedStaysWithin(u: Usage, kids: seq<Book>, i: nat, b: Book)
    requires ChargedWithin(u, kids) && i < |kids| && forall f :: Read(kids[i].total, f) <= Read(b.total, f)
    ensures ChargedWithin(u, kids[i := b])
  {
    forall f ensures 0 <= Read(u, f) <= Spent(kids[i := b], f) {
      SpendingRaises(kids, i, b, f);
    }
  }

  /** A charge to node changes nothing of the ledger without node. */
  lemma ChargeLeavesTheRest(b: Book, node: string, u: Usage)
    ensures SameFigures(WithoutNode(Posted(b, Charge(node, u, true)), node).total, WithoutNode(b, node).total)
    ensures Of(Posted(b, Charge(node, u, true)), node) == Add(Of(b, node), u)
  {
  }

  lemma ChargeIsParentSound(b: Book, node: string, before: Usage, kids: seq<Book>, u: Usage)
    requires ParentSound(b, node, before, kids) && ChargedWithin(Add(Of(b, node), u), kids)
    ensures ParentSound(Posted(b, Charge(node, u, true)), node, before, kids)
  {
    PostedIsConsistent(b, Charge(node, u, true));
    ChargeLeavesTheRest(b, node, u);
  }

  /** What charging the increase raises a record to. */
  function Risen(was: Usage, cumulative: Usage): Usage {
    Add(was, Increase(cumulative, was))
  }

  lemma RisenIsTheMost(was: Usage, cumulative: Usage, f: Figure)
    ensures Read(Risen(was, cumulative), f) == Max(Read(was, f), Read(cumulative, f))
  {
  }

  lemma RiseIsWithin(was: Usage, kids: seq<Book>, seen: seq<bool>)
    requires ChargedWithin(was, kids) && |seen| == |kids| && forall i :: 0 <= i < |kids| ==> NonNegative(kids[i].total)
    ensures ChargedWithin(Risen(was, Cumulative(kids, seen)), kids)
  {
    var now := Risen(was, Cumulative(kids, seen));
    forall f ensures 0 <= Read(now, f) <= Spent(kids, f) {
      CumulativeIsPart(kids, seen, f);
      RisenIsTheMost(was, Cumulative(kids, seen), f);
      assert 0 <= Read(was, f) <= Spent(kids, f);
    }
  }

  lemma ReportIsSound(s: Fanout, seen: seq<bool>, node: string, before: Usage)
    requires Sound(s, node, before) && Enabled(s, Report(seen))
    ensures Sound(Do(s, Report(seen), node), node, before)
  {
    RiseIsWithin(Of(s.parent, node), s.kids, seen);
    ChargeIsParentSound(s.parent, node, before, s.kids, Increase(Cumulative(s.kids, seen), Of(s.parent, node)));
  }

  /** A report raises what the parent is charged to what the candidates it could read have
      spent together, and never lowers it. */
  lemma ReportChargesTheSeen(s: Fanout, seen: seq<bool>, node: string, f: Figure)
    requires Enabled(s, Report(seen))
    ensures Read(Of(Do(s, Report(seen), node).parent, node), f)
         == Max(Read(Of(s.parent, node), f), Sum(SeenTotals(s.kids, seen, f)))
  {
    var was, all := Of(s.parent, node), Cumulative(s.kids, seen);
    CumulativeIsOfTheSeen(s.kids, seen, f);
    RisenIsTheMost(was, all, f);
    ChargeLeavesTheRest(s.parent, node, Increase(all, was));
  }

  /** So a report of every candidate leaves the parent charged with exactly what they have
      spent, whatever was reported before. */
  lemma FullReportChargesAll(s: Fanout, seen: seq<bool>, node: string, before: Usage, f: Figure)
    requires Sound(s, node, before) && Enabled(s, Report(seen)) && forall i :: 0 <= i < |seen| ==> seen[i]
    ensures Read(Of(Do(s, Report(seen), node).parent, node), f) == Spent(s.kids, f)
  {
    ReportChargesTheSeen(s, seen, node, f);
    assert SeenTotals(s.kids, seen, f) == Totals(s.kids, f);
    assert Read(Of(s.parent, node), f) <= Spent(s.kids, f);
  }

  lemma AppendIsSound(s: Fanout, node: string, before: Usage)
    requires Sound(s, node, before) && Enabled(s, Append)
    ensures Sound(Do(s, Append, node), node, before)
  {
    AppendIsFaithful(s.parent, s.journal, s.saved, s.half.e);
    var t := Do(s, Append, node);
    assert t.parent == s.parent && Replay(t.journal) == s.parent;
  }

  lemma AppendIsFaithful(parent: Book, journal: seq<Charge>, saved: Usage, e: Charge)
    requires Faithful(parent, journal, saved, Unjournalled(e))
    ensures Faithful(parent, journal + [e], saved, Settled) && Replay(journal + [e]) == parent
  {
    assert (journal + [e])[..|journal|] == journal;
  }

  lemma SaveIsSound(s: Fanout, node: string, before: Usage)
    requires Sound(s, node, before) && Enabled(s, Save)
    ensures Sound(Do(s, Save, node), node, before)
  {
    assert Faithful(s.parent, s.journal, s.parent.total, Settled);
  }

  /** What a crash is resumed with is the ledger the journal records: a charge that was
      not journalled is left out of it, and will be reported again. */
  lemma CrashIsSound(s: Fanout, node: string, before: Usage)
    requires Sound(s, node, before)
    ensures Sound(Do(s, Crash, node), node, before)
  {
    CrashIsFaithful(s.parent, s.journal, s.saved, s.half);
    var b := Replay(s.journal);
    assert Do(s, Crash, node) == s.(parent := b, half := Settled);
    assert Faithful(b, s.journal, s.saved, Settled);
  }

  lemma CrashIsFaithful(parent: Book, journal: seq<Charge>, saved: Usage, half: Half)
    requires Faithful(parent, journal, saved, half)
    ensures Rebuilt(journal, saved) == Replay(journal)
  {
  }

  lemma AdoptIsSound(s: Fanout, i: nat, cfg: Config, node: string, before: Usage)
    requires Sound(s, node, before) && Enabled(s, Adopt(i, cfg))
    ensures Sound(Do(s, Adopt(i, cfg), node), node, before)
  {
    AdoptedEnvelope(s.kids, s.envelopes, s.limit, before, i, WithoutNode(s.parent, node).total, cfg);
  }

  lemma AdoptedEnvelope(kids: seq<Book>, envelopes: seq<Envelope>, limit: Envelope, before: Usage,
                        i: nat, spent: Usage, cfg: Config)
    requires KidsSound(kids, envelopes, limit, before) && i < |envelopes| && SameFigures(spent, before)
    ensures KidsSound(kids, envelopes[i := PartitionAtLeast(envelopes[i], spent, cfg, |envelopes|)],
              Wider(limit, cfg), before)
  {
    var n := |envelopes|;
    var later := envelopes[i := PartitionAtLeast(envelopes[i], spent, cfg, n)];
    if Partition(spent, cfg, n).Shares? {
      SharesFit(spent, cfg, n);
      RaisedFits(envelopes[i], Partition(spent, cfg, n).each, n, limit, cfg, before);
    }
    forall k | 0 <= k < n ensures Fits(later[k], n, Wider(limit, cfg), before) {
      assert Fits(envelopes[k], n, limit, before);
    }
  }

  lemma RaisedFits(e: Envelope, share: Envelope, n: nat, limit: Envelope, cfg: Config, before: Usage)
    requires Fits(e, n, limit, before) && 0 < e.micros && 0 <= e.tokens && 0 < share.micros
    requires n * share.micros <= cfg.maxMicros - before.micros && (share.tokens == 0 <==> cfg.maxTokens <= 0)
    requires cfg.maxTokens > 0 ==> 0 < share.tokens && n * share.tokens <= cfg.maxTokens - Tokens(before)
    ensures Fits(Envelope(Raise(e.micros, share.micros), Raise(e.tokens, share.tokens)), n, Wider(limit, cfg), before)
  {
  }

  function After(s: Fanout, steps: seq<Step>, node: string): Fanout
    requires Legal(s, steps, node)
    decreases steps, 1
  {
    if steps == [] then s else Do(After(s, steps[..|steps| - 1], node), steps[|steps| - 1], node)
  }

  predicate Legal(s: Fanout, steps: seq<Step>, node: string)
    decreases steps, 0
  {
    steps != [] ==>
      Legal(s, steps[..|steps| - 1], node) && Enabled(After(s, steps[..|steps| - 1], node), steps[|steps| - 1])
  }

  lemma StepIsSound(s: Fanout, step: Step, node: string, before: Usage)
    requires Sound(s, node, before) && Enabled(s, step)
    ensures Sound(Do(s, step, node), node, before)
  {
    match step
    case Spend(i, n, u) => SpendIsSound(s, i, n, u, node, before);
    case Report(seen) => ReportIsSound(s, seen, node, before);
    case Append => AppendIsSound(s, node, before);
    case Save => SaveIsSound(s, node, before);
    case Crash => CrashIsSound(s, node, before);
    case Adopt(i, cfg) => AdoptIsSound(s, i, cfg, node, before);
  }

  lemma {:induction false} FanoutsStaySound(s: Fanout, steps: seq<Step>, node: string, before: Usage)
    requires Sound(s, node, before) && Legal(s, steps, node)
    ensures Sound(After(s, steps, node), node, before)
    decreases |steps|
  {
    if steps != [] {
      FanoutsStaySound(s, steps[..|steps| - 1], node, before);
      StepIsSound(After(s, steps[..|steps| - 1], node), steps[|steps| - 1], node, before);
    }
  }

  /** The fanout as it begins, where no snapshot is ahead of the journal. */
  ghost predicate CanBegin(journal: seq<Charge>, saved: Usage, cfg: Config, n: int, node: string) {
    var parent := Replay(journal);
    node !in parent.nodes && Within(saved, parent.total) && Partition(parent.total, cfg, n).Shares?
  }

  lemma BeginIsSound(journal: seq<Charge>, saved: Usage, cfg: Config, n: int, node: string)
    requires CanBegin(journal, saved, cfg, n, node)
    ensures var total := Replay(journal).total;
            Sound(Begin(journal, saved, cfg, n, Partition(total, cfg, n).each), node, total)
  {
    var parent, e := Replay(journal), Partition(Replay(journal).total, cfg, n).each;
    ReplayIsConsistent(journal);
    SharesFit(parent.total, cfg, n);
    FreshKidsAreSound(n, e, Envelope(cfg.maxMicros, Max(0, cfg.maxTokens)), parent.total);
    NothingCharged(parent, node, seq(n, _ => EMPTY));
  }

  lemma FreshKidsAreSound(n: nat, e: Envelope, limit: Envelope, before: Usage)
    requires n > 0 && 0 < e.micros && 0 <= e.tokens && Fits(e, n, limit, before)
    ensures KidsSound(seq(n, _ => EMPTY), seq(n, _ => e), limit, before)
  {
  }

  lemma NothingCharged(parent: Book, node: string, kids: seq<Book>)
    requires Consistent(parent) && node !in parent.nodes && forall i :: 0 <= i < |kids| ==> kids[i] == EMPTY
    ensures ParentSound(parent, node, parent.total, kids)
  {
    forall f ensures Spent(kids, f) == 0 {
      NothingSpent(Totals(kids, f));
    }
  }

  lemma {:induction false} NothingSpent(xs: seq<int>)
    requires forall i :: 0 <= i < |xs| ==> xs[i] == 0
    ensures Sum(xs) == 0
  {
    if xs != [] {
      NothingSpent(xs[..|xs| - 1]);
    }
  }

  // ----- what each candidate did and was given

  /** What candidate i spent, step by step. */
  function ChargesOf(steps: seq<Step>, i: nat): seq<Charge> {
    if steps == [] then []
    else
      var front := ChargesOf(steps[..|steps| - 1], i);
      match steps[|steps| - 1]
      case Spend(j, n, u) => if j == i then front + [Charge(n, u, false)] else front
      case _ => front
  }

  /** The ceilings candidate i was adopted under. */
  function CeilingsOf(steps: seq<Step>, i: nat): seq<Config> {
    if steps == [] then []
    else
      var front := CeilingsOf(steps[..|steps| - 1], i);
      match steps[|steps| - 1]
      case Adopt(j, cfg) => if j == i then front + [cfg] else front
      case _ => front
  }

  /** A candidate's ledger is what it spent, whatever becomes of the parent's. */
  lemma {:induction false} KidsAreTheirSteps(s: Fanout, steps: seq<Step>, node: string, i: nat)
    requires Legal(s, steps, node) && i < |s.kids| && s.kids[i] == EMPTY
    ensures |After(s, steps, node).kids| == |s.kids|
    ensures After(s, steps, node).kids[i] == Replay(ChargesOf(steps, i))
    decreases |steps|
  {
    if steps != [] {
      var front, last := steps[..|steps| - 1], steps[|steps| - 1];
      KidsAreTheirSteps(s, front, node, i);
      var charges := ChargesOf(front, i);
      if last.Spend? && last.i == i {
        var e := Charge(last.node, last.u, false);
        assert (charges + [e])[..|charges|] == charges;
      }
    }
  }

  /** And its envelope is its first share, adopted under each of the ceilings it was given:
      what the parent was charged meanwhile decides nothing. */
  lemma {:induction false} EnvelopesAreAdopted(s: Fanout, steps: seq<Step>, node: string, before: Usage, i: nat)
    requires Sound(s, node, before) && Legal(s, steps, node) && i < |s.envelopes|
    ensures |After(s, steps, node).envelopes| == |s.envelopes|
    ensures After(s, steps, node).envelopes[i]
         == Budgets.Adopt(s.envelopes[i], before, CeilingsOf(steps, i), |s.envelopes|)
    decreases |steps|
  {
    if steps != [] {
      var front, last := steps[..|steps| - 1], steps[|steps| - 1];
      EnvelopesAreAdopted(s, front, node, before, i);
      FanoutsStaySound(s, front, node, before);
      StepAdopts(After(s, front, node), last, node, before, i);
      if last.Adopt? && last.i == i {
        AdoptOneMore(s.envelopes[i], before, CeilingsOf(front, i), last.cfg, |s.envelopes|);
      }
    }
  }

  lemma StepAdopts(s: Fanout, step: Step, node: string, before: Usage, i: nat)
    requires Sound(s, node, before) && Enabled(s, step) && i < |s.envelopes|
    ensures |Do(s, step, node).envelopes| == |s.envelopes|
    ensures Do(s, step, node).envelopes[i] ==
            if step.Adopt? && step.i == i then PartitionAtLeast(s.envelopes[i], before, step.cfg, |s.envelopes|)
            else s.envelopes[i]
  {
    if step.Adopt? {
      SameShare(WithoutNode(s.parent, node).total, before, step.cfg, |s.envelopes|);
    }
  }

  lemma AdoptOneMore(e: Envelope, before: Usage, cfgs: seq<Config>, cfg: Config, n: int)
    ensures Budgets.Adopt(e, before, cfgs + [cfg], n)
         == PartitionAtLeast(Budgets.Adopt(e, before, cfgs, n), before, cfg, n)
  {
    assert (cfgs + [cfg])[..|cfgs|] == cfgs;
  }

  /** The parent's total when its snapshot was last written. */
  ghost function SavedAt(s: Fanout, steps: seq<Step>, node: string): Usage
    requires Legal(s, steps, node)
    decreases |steps|
  {
    if steps == [] then s.saved
    else if steps[|steps| - 1].Save? then Replay(After(s, steps, node).journal).total
    else SavedAt(s, steps[..|steps| - 1], node)
  }

  /** The parent's snapshot is the total of its journal as that was when it was last written. */
  lemma {:induction false} SnapshotIsOfTheJournal(s: Fanout, steps: seq<Step>, node: string, before: Usage)
    requires Sound(s, node, before) && Legal(s, steps, node)
    ensures After(s, steps, node).saved == SavedAt(s, steps, node)
    decreases |steps|
  {
    if steps != [] {
      var front := steps[..|steps| - 1];
      SnapshotIsOfTheJournal(s, front, node, before);
      FanoutsStaySound(s, front, node, before);
      StepSaves(After(s, front, node), steps[|steps| - 1], node, before);
    }
  }

  lemma StepSaves(s: Fanout, step: Step, node: string, before: Usage)
    requires Sound(s, node, before) && Enabled(s, step)
    ensures Do(s, step, node).saved == if step.Save? then Replay(Do(s, step, node).journal).total else s.saved
  {
  }

  lemma SameShare(u: Usage, v: Usage, cfg: Config, n: int)
    requires SameFigures(u, v)
    ensures Partition(u, cfg, n) == Partition(v, cfg, n)
  {
  }

  // ----- the bill

  function TokensSpent(kids: seq<Book>): int { Spent(kids, InTokens) + Spent(kids, OutTokens) }

  function LargestTokens(kids: seq<Book>): int { Largest(kids, InTokens) + Largest(kids, OutTokens) }

  /** The candidates together are within what the envelopes leave and a step of each. */
  lemma EveryoneFits(kids: seq<Book>, envelopes: seq<Envelope>, limit: Envelope, before: Usage)
    requires KidsSound(kids, envelopes, limit, before)
    ensures Spent(kids, Dollars) <= limit.micros - before.micros + Largest(kids, Dollars)
    ensures limit.tokens > 0 ==> TokensSpent(kids) <= limit.tokens - Tokens(before) + LargestTokens(kids)
  {
    var n := |envelopes|;
    var micros := seq(n, i requires 0 <= i < n => envelopes[i].micros);
    SumWithin(Totals(kids, Dollars), micros, Largests(kids, Dollars));
    forall i | 0 <= i < n ensures n * micros[i] <= limit.micros - before.micros {
      assert Fits(envelopes[i], n, limit, before);
    }
    SharesFitTogether(micros, limit.micros - before.micros);
    if limit.tokens > 0 {
      EveryoneFitsTokens(kids, envelopes, limit, before);
    }
  }

  lemma EveryoneFitsTokens(kids: seq<Book>, envelopes: seq<Envelope>, limit: Envelope, before: Usage)
    requires KidsSound(kids, envelopes, limit, before) && limit.tokens > 0
    ensures TokensSpent(kids) <= limit.tokens - Tokens(before) + LargestTokens(kids)
  {
    var n := |envelopes|;
    var tokens := seq(n, i requires 0 <= i < n => envelopes[i].tokens);
    var totals := seq(n, i requires 0 <= i < n => Tokens(kids[i].total));
    var largests := seq(n, i requires 0 <= i < n => Tokens(kids[i].largest));
    forall i | 0 <= i < n
      ensures totals[i] <= tokens[i] + largests[i] && n * tokens[i] <= limit.tokens - Tokens(before)
    {
      assert Fits(envelopes[i], n, limit, before) && WithinEnvelope(kids[i], envelopes[i]);
    }
    SumWithin(totals, tokens, largests);
    SumOfSums(Totals(kids, InTokens), Totals(kids, OutTokens), totals);
    SumOfSums(Largests(kids, InTokens), Largests(kids, OutTokens), largests);
    SharesFitTogether(tokens, limit.tokens - Tokens(before));
  }

  /** Over every interleaving of candidates spending, the parent being charged, journalling,
      saving and crashing, and candidates being adopted under changed ceilings: the parent's
      total never exceeds the largest ceiling used and the largest single step of each
      candidate, in dollars or, while there is a ceiling on them, in tokens; and the figure
      the fanout divides is the parent's spend before it, whenever it is asked. */
  lemma WholeBill(journal: seq<Charge>, saved: Usage, cfg: Config, n: int, node: string, steps: seq<Step>)
    requires CanBegin(journal, saved, cfg, n, node)
    requires Legal(Begin(journal, saved, cfg, n, Partition(Replay(journal).total, cfg, n).each), steps, node)
    ensures var before := Replay(journal).total;
            var s := After(Begin(journal, saved, cfg, n, Partition(before, cfg, n).each), steps, node);
            && s.parent.total.micros <= s.limit.micros + Largest(s.kids, Dollars)
            && (s.limit.tokens > 0 ==> Tokens(s.parent.total) <= s.limit.tokens + LargestTokens(s.kids))
            && SameFigures(WithoutNode(s.parent, node).total, before)
  {
    var before := Replay(journal).total;
    var s0 := Begin(journal, saved, cfg, n, Partition(before, cfg, n).each);
    BeginIsSound(journal, saved, cfg, n, node);
    FanoutsStaySound(s0, steps, node, before);
    var s := After(s0, steps, node);
    EveryoneFits(s.kids, s.envelopes, s.limit, before);
    BillIsKids(s.parent, node, before, s.kids);
  }

  /** The parent's total is what it was before and what node is charged. */
  lemma BillIsKids(b: Book, node: string, before: Usage, kids: seq<Book>)
    requires ParentSound(b, node, before, kids)
    ensures b.total.micros <= before.micros + Spent(kids, Dollars)
    ensures Tokens(b.total) <= Tokens(before) + TokensSpent(kids)
  {
    var u := Of(b, node);
    assert Read(u, Dollars) <= Spent(kids, Dollars);
    assert Read(u, InTokens) <= Spent(kids, InTokens) && Read(u, OutTokens) <= Spent(kids, OutTokens);
  }
}
