/** The ceiling every step is held to, and how what is left under it is divided among
    the candidates of a fanout. */
module Budgets {
  import opened Ledgers

  datatype OnExceed = Abort | Warn | Unknown

  /** maxMicros and maxTokens of zero or less are no cap. */
  datatype Config = Config(maxMicros: int, maxTokens: int, onExceed: OnExceed)

  datatype Verdict = Allowed | BudgetError(spent: int, limit: int)

  function Tokens(u: Usage): int { u.inTokens + u.outTokens }

  predicate Over(spent: Usage, cfg: Config) {
    (cfg.maxMicros > 0 && spent.micros > cfg.maxMicros) || (cfg.maxTokens > 0 && Tokens(spent) > cfg.maxTokens)
  }

  /** Asked before every step. Any policy but warn stops the run. */
  function Check(b: Book, cfg: Config): Verdict {
    if !Over(b.total, cfg) || cfg.onExceed == Warn then Allowed else BudgetError(b.total.micros, cfg.maxMicros)
  }

  /** No figure that has a ceiling is over it. */
  predicate InsideBoth(spent: Usage, cfg: Config) {
    (cfg.maxMicros > 0 ==> spent.micros <= cfg.maxMicros)
    && (cfg.maxTokens > 0 ==> spent.inTokens + spent.outTokens <= cfg.maxTokens)
  }

  /** A step is refused if and only if dollars or tokens are over a ceiling there is for
      them, and the policy is any but to warn; the error says what was spent of how much. */
  lemma CheckRefusesExactly(b: Book, cfg: Config)
    ensures Check(b, cfg) == Allowed <==> cfg.onExceed == Warn || InsideBoth(b.total, cfg)
    ensures Check(b, cfg) != Allowed ==> Check(b, cfg) == BudgetError(b.total.micros, cfg.maxMicros)
  {
  }

  /** Asked before n candidates start. */
  function CanAfford(b: Book, n: int, projected: Usage, cfg: Config): Verdict {
    if n <= 0 then Allowed
    else if cfg.maxMicros > 0 && b.total.micros + projected.micros * n > cfg.maxMicros then
      BudgetError(b.total.micros + projected.micros * n, cfg.maxMicros)
    else if cfg.maxTokens > 0 && Tokens(b.total) + Tokens(projected) * n > cfg.maxTokens then
      BudgetError(b.total.micros, cfg.maxMicros)
    else Allowed
  }

  function PostAll(b: Book, entries: seq<Charge>): Book {
    if entries == [] then b else Posted(PostAll(b, entries[..|entries| - 1]), entries[|entries| - 1])
  }

  lemma OneMore(x: int, n: int)
    ensures x * (n + 1) == x * n + x
  {
  }

  lemma {:induction false} CostsAddUp(b: Book, entries: seq<Charge>, projected: Usage)
    requires forall i :: 0 <= i < |entries| ==>
      entries[i].usage.micros <= projected.micros && Tokens(entries[i].usage) <= Tokens(projected)
    ensures PostAll(b, entries).total.micros <= b.total.micros + projected.micros * |entries|
    ensures Tokens(PostAll(b, entries).total) <= Tokens(b.total) + Tokens(projected) * |entries|
  {
    if entries != [] {
      var n := |entries| - 1;
      CostsAddUp(b, entries[..n], projected);
      OneMore(projected.micros, n);
      OneMore(Tokens(projected), n);
    }
  }

  /** A batch that can be afforded, none of it dearer than projected, leaves the run
      able to take its next step. */
  lemma AffordedBatchPassesCheck(b: Book, entries: seq<Charge>, projected: Usage, cfg: Config)
    requires CanAfford(b, |entries|, projected, cfg) == Allowed && entries != []
    requires forall i :: 0 <= i < |entries| ==>
      entries[i].usage.micros <= projected.micros && Tokens(entries[i].usage) <= Tokens(projected)
    ensures Check(PostAll(b, entries), cfg) == Allowed
  {
    CostsAddUp(b, entries, projected);
  }

  lemma {:induction false} CostsAddUpExactly(b: Book, entries: seq<Charge>, projected: Usage)
    requires forall i :: 0 <= i < |entries| ==> entries[i].usage == projected
    ensures PostAll(b, entries).total.micros == b.total.micros + projected.micros * |entries|
    ensures Tokens(PostAll(b, entries).total) == Tokens(b.total) + Tokens(projected) * |entries|
  {
    if entries != [] {
      var n := |entries| - 1;
      CostsAddUpExactly(b, entries[..n], projected);
      OneMore(projected.micros, n);
      OneMore(Tokens(projected), n);
    }
  }

  /** A batch can be afforded if and only if the run would be inside both ceilings with each
      of it charged as projected, whatever the policy. */
  lemma AffordedExactly(b: Book, entries: seq<Charge>, projected: Usage, cfg: Config)
    requires entries != [] && forall i :: 0 <= i < |entries| ==> entries[i].usage == projected
    ensures CanAfford(b, |entries|, projected, cfg) == Allowed <==> InsideBoth(PostAll(b, entries).total, cfg)
  {
    CostsAddUpExactly(b, entries, projected);
  }

  // ----- dividing what is left

  datatype Error = NoCandidates | NoCeiling | Exhausted(spent: int, limit: int)

  /** What one candidate may spend; no more than zero is no cap. */
  datatype Envelope = Envelope(micros: int, tokens: int)

  datatype Division = Shares(each: Envelope) | Refused(error: Error)

  /** The program's integer division, which drops the fraction toward zero. */
  function Quotient(a: int, n: int): int
    requires n > 0
  {
    if a >= 0 then a / n else -((-a) / n)
  }

  lemma QuotientOf(a: int, n: int)
    requires n > 0
    ensures Quotient(a, n) > 0 <==> a >= n
    ensures a >= 0 ==> n * Quotient(a, n) <= a < n * Quotient(a, n) + n
  {
    if a >= 0 {
      DivisionBounds(a, n, a / n);
    } else {
      DivisionBounds(-a, n, (-a) / n);
    }
  }

  lemma DivisionBounds(a: int, n: int, q: int)
    requires n > 0 && a >= 0 && q == a / n
    ensures q >= 0 && n * q <= a < n * q + n && (q > 0 <==> a >= n)
  {
    if q > 0 {
      assert n * q >= n * 1;
    }
  }

  function Partition(spent: Usage, cfg: Config, n: int): Division {
    if n <= 0 then Refused(NoCandidates)
    else if cfg.maxMicros <= 0 then Refused(NoCeiling)
    else
      var exhausted := Refused(Exhausted(spent.micros, cfg.maxMicros));
      var shareMicros := Quotient(cfg.maxMicros - spent.micros, n);
      if shareMicros <= 0 then exhausted
      else if cfg.maxTokens <= 0 then Shares(Envelope(shareMicros, 0))
      else
        var shareTokens := Quotient(cfg.maxTokens - spent.inTokens - spent.outTokens, n);
        if shareTokens <= 0 then exhausted else Shares(Envelope(shareMicros, shareTokens))
  }

  function Raise(persisted: int, share: int): int {
    if persisted <= 0 || share <= 0 then 0 else Max(persisted, share)
  }

  function PartitionAtLeast(persisted: Envelope, spent: Usage, cfg: Config, n: int): Envelope {
    match Partition(spent, cfg, n)
    case Refused(_) => persisted
    case Shares(share) => Envelope(Raise(persisted.micros, share.micros), Raise(persisted.tokens, share.tokens))
  }

  /** n shares come to what was left, less a remainder there is no unit each of, and no share
      is an uncapped one. */
  lemma SharesFit(spent: Usage, cfg: Config, n: int)
    requires Partition(spent, cfg, n).Shares?
    ensures var e := Partition(spent, cfg, n).each;
            0 < e.micros && n * e.micros <= cfg.maxMicros - spent.micros < n * e.micros + n
            && (e.tokens == 0 <==> cfg.maxTokens <= 0)
            && (cfg.maxTokens > 0 ==>
                  0 < e.tokens && n * e.tokens <= cfg.maxTokens - Tokens(spent) < n * e.tokens + n)
  {
    QuotientOf(cfg.maxMicros - spent.micros, n);
    QuotientOf(cfg.maxTokens - spent.inTokens - spent.outTokens, n);
  }

  /** A division is refused exactly when there is no one to divide among, no ceiling,
      or less than one unit left for each in a capped dimension. */
  lemma RefusedExactly(spent: Usage, cfg: Config, n: int)
    ensures Partition(spent, cfg, n).Refused? <==>
            n <= 0 || cfg.maxMicros <= 0 || cfg.maxMicros - spent.micros < n
            || (cfg.maxTokens > 0 && cfg.maxTokens - Tokens(spent) < n)
    ensures match Partition(spent, cfg, n)
            case Shares(_) => true
            case Refused(NoCandidates) => n <= 0
            case Refused(NoCeiling) => n > 0 && cfg.maxMicros <= 0
            case Refused(Exhausted(was, limit)) =>
              n > 0 && cfg.maxMicros > 0 && was == spent.micros && limit == cfg.maxMicros
  {
    if n > 0 {
      QuotientOf(cfg.maxMicros - spent.micros, n);
      QuotientOf(cfg.maxTokens - spent.inTokens - spent.outTokens, n);
    }
  }

  // ----- envelopes over a run of ceilings

  /** The envelope a candidate holds after adopting it again under each of cfgs. */
  function Adopt(e: Envelope, spent: Usage, cfgs: seq<Config>, n: int): Envelope {
    if cfgs == [] then e
    else PartitionAtLeast(Adopt(e, spent, cfgs[..|cfgs| - 1], n), spent, cfgs[|cfgs| - 1], n)
  }

  /** No figure of e allows less than d's, zero allowing anything. */
  predicate AllowsAll(e: Envelope, d: Envelope) {
    (e.micros == 0 || 0 < d.micros <= e.micros) && (e.tokens == 0 || 0 < d.tokens <= e.tokens)
  }

  predicate Proper(e: Envelope) {
    0 <= e.micros && 0 <= e.tokens
  }

  /** Adopting yields the least envelope that allows what the first one and every share
      on the way allow. */
  lemma {:induction false} AdoptIsLeast(e: Envelope, spent: Usage, cfgs: seq<Config>, n: int)
    requires Proper(e)
    ensures var r := Adopt(e, spent, cfgs, n);
            Proper(r) && AllowsAll(r, e)
            && (forall c :: c in cfgs && Partition(spent, c, n).Shares? ==> AllowsAll(r, Partition(spent, c, n).each))
  {
    if cfgs != [] {
      var front, last := cfgs[..|cfgs| - 1], cfgs[|cfgs| - 1];
      AdoptIsLeast(e, spent, front, n);
      assert forall c :: c in cfgs <==> c in front || c == last by { assert cfgs == front + [last]; }
    }
  }

  lemma {:induction false} AdoptIsLeastOf(e: Envelope, spent: Usage, cfgs: seq<Config>, n: int, v: Envelope)
    requires Proper(e) && Proper(v) && AllowsAll(v, e)
    requires forall c :: c in cfgs && Partition(spent, c, n).Shares? ==> AllowsAll(v, Partition(spent, c, n).each)
    ensures AllowsAll(v, Adopt(e, spent, cfgs, n))
  {
    if cfgs != [] {
      var front, last := cfgs[..|cfgs| - 1], cfgs[|cfgs| - 1];
      assert cfgs == front + [last];
      assert last in cfgs;
      AdoptIsLeastOf(e, spent, front, n, v);
    }
  }

  /** The envelope depends only on which ceilings were in force, not on their order or
      on how often a run was resumed under each. */
  lemma AdoptionOrderIsIrrelevant(e: Envelope, spent: Usage, a: seq<Config>, b: seq<Config>, n: int)
    requires Proper(e) && forall c :: c in a <==> c in b
    ensures Adopt(e, spent, a, n) == Adopt(e, spent, b, n)
  {
    AdoptIsLeast(e, spent, a, n);
    AdoptIsLeast(e, spent, b, n);
    AdoptIsLeastOf(e, spent, a, n, Adopt(e, spent, b, n));
    AdoptIsLeastOf(e, spent, b, n, Adopt(e, spent, a, n));
  }

  /** Starting from a share, n envelopes never come to more dollars than the largest of
      the ceilings used leaves, and never stop being capped. */
  lemma {:induction false} EnvelopesStayInside(spent: Usage, first: Config, cfgs: seq<Config>, n: int, ceiling: int)
    requires Partition(spent, first, n).Shares? && first.maxMicros <= ceiling
    requires forall c :: c in cfgs ==> c.maxMicros <= ceiling
    ensures var e := Adopt(Partition(spent, first, n).each, spent, cfgs, n);
            0 < e.micros && n * e.micros <= ceiling - spent.micros
  {
    SharesFit(spent, first, n);
    if cfgs != [] {
      var front, last := cfgs[..|cfgs| - 1], cfgs[|cfgs| - 1];
      assert cfgs == front + [last];
      assert last in cfgs;
      EnvelopesStayInside(spent, first, front, n, ceiling);
      if Partition(spent, last, n).Shares? {
        SharesFit(spent, last, n);
      }
    }
  }
}
