/** What a ledger says about the charges it recorded, in whatever order they came,
    and how a running total is charged. */
module Accounts {
  import opened Ledgers

  // ----- the order of charges does not matter

  /** What of a ledger does not depend on order: the total, one node, the largest call. */
  datatype Tally = Tally(total: Usage, node: Usage, largest: Usage)

  function Count(t: Tally, e: Charge, node: string): Tally {
    Tally(Add(t.total, e.usage), if e.node == node then Add(t.node, e.usage) else t.node,
          if e.sum then t.largest else AtLeast(t.largest, e.usage))
  }

  function CountAll(entries: seq<Charge>, node: string): Tally {
    if entries == [] then Tally(ZERO, ZERO, ZERO)
    else Count(CountAll(entries[..|entries| - 1], node), entries[|entries| - 1], node)
  }

  function TallyOf(b: Book, node: string): Tally {
    Tally(b.total, Of(b, node), b.largest)
  }

  lemma {:induction false} ReplayTallies(entries: seq<Charge>, node: string)
    ensures TallyOf(Replay(entries), node) == CountAll(entries, node)
  {
    if entries != [] {
      ReplayTallies(entries[..|entries| - 1], node);
    }
  }

  lemma CountsCommute(t: Tally, e: Charge, f: Charge, node: string)
    ensures Count(Count(t, e, node), f, node) == Count(Count(t, f, node), e, node)
  {
  }

  /** A charge may be moved to the end. */
  lemma {:induction false} MoveToEnd(entries: seq<Charge>, i: nat, node: string)
    requires i < |entries|
    ensures CountAll(entries, node) == Count(CountAll(entries[..i] + entries[i + 1..], node), entries[i], node)
  {
    var n := |entries| - 1;
    var front, without := entries[..n], entries[..i] + entries[i + 1..];
    if i == n {
      assert without == front;
    } else {
      MoveToEnd(front, i, node);
      assert without[..|without| - 1] == front[..i] + front[i + 1..];
      CountsCommute(CountAll(front[..i] + front[i + 1..], node), entries[i], entries[n], node);
    }
  }

  lemma {:induction false} SameChargesSameTally(a: seq<Charge>, b: seq<Charge>, node: string)
    requires multiset(a) == multiset(b)
    ensures CountAll(a, node) == CountAll(b, node)
    decreases |a|
  {
    if a == [] {
      assert |multiset(b)| == 0;
    } else {
      var i := WhereLastIs(a, b);
      SameChargesSameTally(a[..|a| - 1], b[..i] + b[i + 1..], node);
      MoveToEnd(b, i, node);
    }
  }

  lemma WhereLastIs(a: seq<Charge>, b: seq<Charge>) returns (i: nat)
    requires a != [] && multiset(a) == multiset(b)
    ensures i < |b| && b[i] == a[|a| - 1] && multiset(a[..|a| - 1]) == multiset(b[..i] + b[i + 1..])
  {
    var n := |a| - 1;
    assert a == a[..n] + [a[n]];
    assert a[n] in multiset(a);
    assert a[n] in b;
    i :| 0 <= i < |b| && b[i] == a[n];
    assert b == b[..i] + [b[i]] + b[i + 1..];
    assert multiset(b[..i] + b[i + 1..]) == multiset(b) - multiset{b[i]};
    assert multiset(a[..n]) == multiset(a) - multiset{a[n]};
  }

  /** Whatever order candidates report their costs in, the ledger's total, every node's
      total and the largest call come out the same. */
  lemma OrderOfChargesIsIrrelevant(a: seq<Charge>, b: seq<Charge>, node: string)
    requires multiset(a) == multiset(b)
    ensures Replay(a).total == Replay(b).total && Replay(a).largest == Replay(b).largest
    ensures Of(Replay(a), node) == Of(Replay(b), node)
  {
    ReplayTallies(a, node);
    ReplayTallies(b, node);
    SameChargesSameTally(a, b, node);
  }

  // ----- what largest is

  /** Entry i is one call's cost. */
  ghost predicate IsCall(entries: seq<Charge>, i: int) {
    0 <= i < |entries| && !entries[i].sum
  }

  lemma {:induction false} CallsAreWithinLargest(entries: seq<Charge>, i: int)
    requires IsCall(entries, i)
    ensures Within(entries[i].usage, Replay(entries).largest)
  {
    if i < |entries| - 1 {
      CallsAreWithinLargest(entries[..|entries| - 1], i);
    }
  }

  /** largest is the least that every single call is within: in each figure it is some
      call's, or zero when there is none. */
  lemma {:induction false} LargestIsLeast(entries: seq<Charge>, v: Usage)
    requires NonNegative(v) && forall i :: IsCall(entries, i) ==> Within(entries[i].usage, v)
    ensures Within(Replay(entries).largest, v)
  {
    if entries != [] {
      var n := |entries| - 1;
      forall i | IsCall(entries[..n], i) ensures Within(entries[..n][i].usage, v) {
        assert IsCall(entries, i);
      }
      LargestIsLeast(entries[..n], v);
      assert !entries[n].sum ==> IsCall(entries, n);
    }
  }

  // ----- what its estimate flag is

  datatype Figure = InTokens | OutTokens | Dollars

  function Read(u: Usage, f: Figure): int {
    match f
    case InTokens => u.inTokens
    case OutTokens => u.outTokens
    case Dollars => u.micros
  }

  /** The flag is set by any estimated call there has been. */
  lemma {:induction false} FlagIsAnyEstimate(entries: seq<Charge>)
    ensures Replay(entries).largest.estimated <==> exists i :: IsCall(entries, i) && entries[i].usage.estimated
  {
    if entries != [] {
      var n := |entries| - 1;
      FlagIsAnyEstimate(entries[..n]);
      if i :| IsCall(entries[..n], i) && entries[..n][i].usage.estimated {
        assert IsCall(entries, i);
      }
      if i :| IsCall(entries, i) && entries[i].usage.estimated && i < n {
        assert IsCall(entries[..n], i);
      }
      assert !entries[n].sum ==> IsCall(entries, n);
    }
  }

  /** An estimated call is what a figure of largest comes from. */
  ghost predicate EstimateSets(entries: seq<Charge>, f: Figure) {
    exists i :: IsCall(entries, i) && entries[i].usage.estimated && Sets(entries, i, f)
  }

  ghost predicate Sets(entries: seq<Charge>, i: int, f: Figure)
    requires IsCall(entries, i)
  {
    Read(entries[i].usage, f) == Read(Replay(entries).largest, f) > 0
  }

  /** What the flag is documented to say: a call that set one of the figures was an
      estimate. */
  ghost predicate SetByEstimate(entries: seq<Charge>) {
    exists f :: EstimateSets(entries, f)
  }

  /** Whether one more call leaves a figure set by an estimate; marked: it was. */
  predicate Marked(marked: bool, largest: Usage, u: Usage, f: Figure) {
    (marked && Read(u, f) <= Read(largest, f)) || (u.estimated && Read(u, f) >= Read(largest, f) && Read(u, f) > 0)
  }

  /** A mark kept for one figure as calls are recorded: what a ledger would have to hold
      for the flag to say what it is documented to. */
  function Mark(entries: seq<Charge>, f: Figure): bool {
    if entries == [] then false
    else
      var front, last := entries[..|entries| - 1], entries[|entries| - 1];
      if last.sum then Mark(front, f) else Marked(Mark(front, f), Replay(front).largest, last.usage, f)
  }

  lemma {:induction false} MarkIsEstimate(entries: seq<Charge>, f: Figure)
    ensures Mark(entries, f) <==> EstimateSets(entries, f)
  {
    if entries != [] {
      MarkIsEstimate(entries[..|entries| - 1], f);
      SetBefore(entries, f);
      SetNow(entries, f);
    }
  }

  /** A figure set by an earlier estimate, and by none since. */
  lemma SetBefore(entries: seq<Charge>, f: Figure)
    requires entries != []
    ensures var n := |entries| - 1;
            (exists i :: IsCall(entries, i) && i < n && entries[i].usage.estimated && Sets(entries, i, f))
            <==> EstimateSets(entries[..n], f)
                 && Read(Replay(entries).largest, f) == Read(Replay(entries[..n]).largest, f)
  {
    var n := |entries| - 1;
    if EstimateSets(entries[..n], f) {
      var i :| IsCall(entries[..n], i) && entries[..n][i].usage.estimated && Sets(entries[..n], i, f);
      assert IsCall(entries, i) && entries[i] == entries[..n][i];
    }
    if i :| IsCall(entries, i) && i < n && entries[i].usage.estimated && Sets(entries, i, f) {
      StillSet(entries, i, f);
    }
  }

  lemma StillSet(entries: seq<Charge>, i: int, f: Figure)
    requires IsCall(entries, i) && i < |entries| - 1 && entries[i].usage.estimated && Sets(entries, i, f)
    ensures var front := entries[..|entries| - 1];
            EstimateSets(front, f) && Read(Replay(entries).largest, f) == Read(Replay(front).largest, f)
  {
    var front := entries[..|entries| - 1];
    CallsAreWithinLargest(front, i);
    assert IsCall(front, i) && entries[i] == front[i];
  }

  /** The last call, if it is an estimate. */
  lemma SetNow(entries: seq<Charge>, f: Figure)
    requires entries != []
    ensures var n := |entries| - 1;
            EstimateSets(entries, f) <==>
              (exists i :: IsCall(entries, i) && i < n && entries[i].usage.estimated && Sets(entries, i, f))
              || (!entries[n].sum && entries[n].usage.estimated && Sets(entries, n, f))
  {
    var n := |entries| - 1;
    assert !entries[n].sum ==> IsCall(entries, n);
  }

  /** A flag that is documented to be set is set. It says just what it is documented to if
      and only if no call was an estimate, or some figure's mark stands. */
  lemma FlagIsAsDocumentedExactly(entries: seq<Charge>)
    ensures SetByEstimate(entries) ==> Replay(entries).largest.estimated
    ensures (Replay(entries).largest.estimated <==> SetByEstimate(entries)) <==>
            (forall i :: IsCall(entries, i) ==> !entries[i].usage.estimated) || (exists f :: Mark(entries, f))
  {
    FlagIsAnyEstimate(entries);
    MarksAreEstimates(entries);
  }

  lemma MarksAreEstimates(entries: seq<Charge>)
    ensures SetByEstimate(entries) <==> exists f :: Mark(entries, f)
    ensures SetByEstimate(entries) ==> exists i :: IsCall(entries, i) && entries[i].usage.estimated
  {
    if f :| EstimateSets(entries, f) {
      MarkIsEstimate(entries, f);
      var i :| IsCall(entries, i) && entries[i].usage.estimated && Sets(entries, i, f);
    }
    if f :| Mark(entries, f) {
      MarkIsEstimate(entries, f);
    }
  }

  /** After one more call, some figure's mark stands. */
  ghost predicate MarkStands(entries: seq<Charge>, u: Usage) {
    exists f :: Marked(Mark(entries, f), Replay(entries).largest, u, f)
  }

  lemma MarksAfter(entries: seq<Charge>, e: Charge)
    requires !e.sum
    ensures MarkStands(entries, e.usage) <==> SetByEstimate(entries + [e])
    ensures Replay(entries + [e]).largest.estimated == (Replay(entries).largest.estimated || e.usage.estimated)
  {
    var all := entries + [e];
    assert all[..|entries|] == entries;
    if MarkStands(entries, e.usage) {
      var f :| Marked(Mark(entries, f), Replay(entries).largest, e.usage, f);
      assert Mark(all, f);
      MarkIsEstimate(all, f);
    }
    if SetByEstimate(all) {
      var f :| EstimateSets(all, f);
      MarkIsEstimate(all, f);
      assert Marked(Mark(entries, f), Replay(entries).largest, e.usage, f);
    }
  }

  /** From a flag that is as documented, one more call keeps it so if and only if there has
      been no estimate yet, or the call leaves the mark of some figure standing. */
  lemma RecordKeepsFlagExactly(entries: seq<Charge>, e: Charge)
    requires !e.sum && (Replay(entries).largest.estimated <==> SetByEstimate(entries))
    ensures (Replay(entries + [e]).largest.estimated <==> SetByEstimate(entries + [e])) <==>
            (!Replay(entries).largest.estimated && !e.usage.estimated) || MarkStands(entries, e.usage)
  {
    MarksAfter(entries, e);
    FlagIsAsDocumentedExactly(entries + [e]);
  }

  /** The flag outlives the estimate: one that set no figure marks the largest, and so does
      one whose figures a later and dearer exact call displaced. */
  lemma FlagOutlivesItsEstimate()
    ensures var exact := Charge("code", Usage(9, 9, 9, false), false);
            var estimate := Charge("fix", Usage(1, 1, 1, true), false);
            Replay([exact, estimate]).largest == Replay([estimate, exact]).largest == Usage(9, 9, 9, true)
            && !SetByEstimate([exact, estimate]) && !SetByEstimate([estimate, exact])
  {
    var exact, estimate := Charge("code", Usage(9, 9, 9, false), false), Charge("fix", Usage(1, 1, 1, true), false);
    assert [exact, estimate][..1] == [exact] && [estimate, exact][..1] == [estimate];
    assert [exact][..0] == [] && [estimate][..0] == [];
    assert Replay([]) == EMPTY;
    assert Replay([exact]) == Posted(EMPTY, exact) && Replay([estimate]) == Posted(EMPTY, estimate);
    forall f ensures !EstimateSets([exact, estimate], f) && !EstimateSets([estimate, exact], f) {
      MarkIsEstimate([exact, estimate], f);
      MarkIsEstimate([estimate, exact], f);
    }
  }

  /** node is charged among entries before other is. */
  ghost predicate ChargedBefore(entries: seq<Charge>, node: string, other: string) {
    exists p :: 0 <= p < |entries| && entries[p].node == node && forall q :: 0 <= q <= p ==> entries[q].node != other
  }

  ghost predicate Charged(entries: seq<Charge>, x: string) {
    exists i :: 0 <= i < |entries| && entries[i].node == x
  }

  lemma ChargedOneMore(front: seq<Charge>, last: Charge, x: string)
    ensures Charged(front + [last], x) <==> Charged(front, x) || last.node == x
  {
    var all := front + [last];
    if Charged(front, x) {
      var i :| 0 <= i < |front| && front[i].node == x;
      assert all[i].node == x;
    }
    assert all[|front|] == last;
  }

  lemma {:induction false} OrderIsCharged(entries: seq<Charge>, x: string)
    ensures x in Replay(entries).order <==> Charged(entries, x)
  {
    if entries != [] {
      var front, last := entries[..|entries| - 1], entries[|entries| - 1];
      assert entries == front + [last];
      OrderIsCharged(front, x);
      ChargedOneMore(front, last, x);
      ReplayIsConsistent(front);
    }
  }

  lemma ChargedBeforeGrows(entries: seq<Charge>, n: nat, node: string, other: string)
    requires n <= |entries| && ChargedBefore(entries[..n], node, other)
    ensures ChargedBefore(entries, node, other)
  {
    var front := entries[..n];
    var p :| 0 <= p < n && front[p].node == node && forall q :: 0 <= q <= p ==> front[q].node != other;
    assert entries[p].node == node;
    assert forall q :: 0 <= q <= p ==> entries[q] == front[q];
  }

  lemma ChargedBeforeNew(entries: seq<Charge>, n: nat, node: string, other: string)
    requires n <= |entries| && node in Replay(entries[..n]).order && other !in Replay(entries[..n]).order
    ensures ChargedBefore(entries, node, other)
  {
    var front := entries[..n];
    OrderIsCharged(front, node);
    OrderIsCharged(front, other);
    var p :| 0 <= p < n && front[p].node == node;
    assert ChargedBefore(front, node, other);
    ChargedBeforeGrows(entries, n, node, other);
  }

  /** The breakdown lists the charged nodes, each once, in the order of first charge. */
  lemma {:induction false} OrderIsFirstCharged(entries: seq<Charge>, i: nat, j: nat)
    requires i < j < |Replay(entries).order|
    ensures ChargedBefore(entries, Replay(entries).order[i], Replay(entries).order[j])
  {
    var n := |entries| - 1;
    var front, order := entries[..n], Replay(entries).order;
    if j < |Replay(front).order| {
      OrderIsFirstCharged(front, i, j);
      ChargedBeforeGrows(entries, n, order[i], order[j]);
    } else {
      ReplayIsConsistent(front);
      assert order[i] in Replay(front).order;
      ChargedBeforeNew(entries, n, order[i], order[j]);
    }
  }

  // ----- charging a running total

  /** One report of a node's running total: what it adds is charged as a sum. */
  function Reported(b: Book, node: string, report: Usage): Book {
    Posted(b, Charge(node, Increase(report, Of(b, node)), true))
  }

  function AllReported(b: Book, node: string, reports: seq<Usage>): Book {
    if reports == [] then b
    else Reported(AllReported(b, node, reports[..|reports| - 1]), node, reports[|reports| - 1])
  }

  /** The node's record after reports: each figure at the most any of them gave. */
  function Highest(start: Usage, reports: seq<Usage>): Usage {
    if reports == [] then start
    else AtLeast(Highest(start, reports[..|reports| - 1]), reports[|reports| - 1])
  }

  /** However often a running total is reported, and even when a report saw less than
      the last, the node ends at the component-wise most, the run's total rises by just
      what the node's record rose by, and the largest call is not touched. */
  lemma {:induction false} ReportsChargeTheMost(b: Book, node: string, reports: seq<Usage>)
    requires Consistent(b)
    ensures var c := AllReported(b, node, reports);
            Of(c, node) == Highest(Of(b, node), reports)
            && IsSum(c.total, b.total, Usage(Of(c, node).inTokens - Of(b, node).inTokens,
                 Of(c, node).outTokens - Of(b, node).outTokens, Of(c, node).micros - Of(b, node).micros, false))
            && c.largest == b.largest && Consistent(c)
            && (forall n :: n != node ==> Of(c, n) == Of(b, n))
            && WithoutNode(c, node).total.micros == WithoutNode(b, node).total.micros
  {
    if reports != [] {
      var front, last := reports[..|reports| - 1], reports[|reports| - 1];
      ReportsChargeTheMost(b, node, front);
      OneReport(b, AllReported(b, node, front), node, last);
    }
  }

  lemma OneReport(b: Book, mid: Book, node: string, report: Usage)
    requires Consistent(mid)
    requires IsSum(mid.total, b.total, Usage(Of(mid, node).inTokens - Of(b, node).inTokens,
               Of(mid, node).outTokens - Of(b, node).outTokens, Of(mid, node).micros - Of(b, node).micros, false))
    ensures var c := Reported(mid, node, report);
            Of(c, node) == AtLeast(Of(mid, node), report)
            && IsSum(c.total, b.total, Usage(Of(c, node).inTokens - Of(b, node).inTokens,
                 Of(c, node).outTokens - Of(b, node).outTokens, Of(c, node).micros - Of(b, node).micros, false))
            && c.largest == mid.largest && Consistent(c)
  {
    PostedIsConsistent(mid, Charge(node, Increase(report, Of(mid, node)), true));
    IncreaseRaises(Of(mid, node), report);
  }

  lemma IncreaseRaises(t: Usage, report: Usage)
    ensures Add(t, Increase(report, t)) == AtLeast(t, report)
  {
  }

  lemma {:induction false} HighestIsTheMost(start: Usage, reports: seq<Usage>)
    ensures var h := Highest(start, reports);
            Within(start, h) && (forall i :: 0 <= i < |reports| ==> Within(reports[i], h))
            && forall v ::
                 Within(start, v) && (forall i :: 0 <= i < |reports| ==> Within(reports[i], v)) ==> Within(h, v)
  {
    if reports != [] {
      var n := |reports| - 1;
      var front := reports[..n];
      HighestIsTheMost(start, front);
      assert forall i :: 0 <= i < n ==> front[i] == reports[i];
      assert reports[n] == reports[n];
      forall v | Within(start, v) && (forall i :: 0 <= i < |reports| ==> Within(reports[i], v))
        ensures Within(Highest(start, reports), v)
      {
        assert Within(Highest(start, front), v) && Within(reports[n], v);
      }
    }
  }

  /** The dispatcher's charge for one attempt of a supervising node. */
  method ChargeReport(l: Ledger, node: string, report: Usage)
    modifies l
    ensures l.Value() == Reported(old(l.Value()), node, report)
  {
    var u := l.Unrecorded(node, report);
    l.RecordSum(node, u);
  }
}
