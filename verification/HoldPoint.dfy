/** Where the writer holds back from, against where its documentation says it does: the
    start of the last white-space-delimited runs, or 0 when there are fewer. */
module HoldPoint {
  import B = Boundaries
  import Scan
  import opened Bytes
  import opened Spans
  import opened Literals
  import opened Redaction

  /** How many white-space-delimited runs b[..i] has. */
  function Runs(b: string, i: nat): nat
    requires i <= |b|
  {
    if i == 0 then 0
    else Runs(b, i - 1) + if !IsSpace(b[i - 1]) && (i == 1 || IsSpace(b[i - 2])) then 1 else 0
  }

  /** The offset of the first of the last runs runs of b[..i], or 0 if it has fewer. */
  function StartOfLast(b: string, i: nat, runs: nat): (h: nat)
    requires i <= |b|
    ensures h <= i
    decreases runs
  {
    if runs == 0 then i else
      var j := Back(b, i, true);
      if j == 0 then 0
      else
        var k := Back(b, j, false);
        if runs == 1 then k else StartOfLast(b, k, runs - 1)
  }

  // ----- runs, counted backwards

  lemma {:induction false} BackOverSpace(b: string, i: nat)
    requires i <= |b|
    ensures Runs(b, Back(b, i, true)) == Runs(b, i)
  {
    if i > 0 && IsSpace(b[i - 1]) {
      BackOverSpace(b, i - 1);
    }
  }

  lemma {:induction false} BackOverRun(b: string, i: nat)
    requires 0 < i <= |b| && !IsSpace(b[i - 1])
    ensures Back(b, i, false) < i && Runs(b, Back(b, i, false)) + 1 == Runs(b, i)
  {
    if i > 1 && !IsSpace(b[i - 2]) {
      BackOverRun(b, i - 1);
    }
  }

  lemma BackIsDone(b: string, k: nat)
    requires k <= |b| && (k > 0 ==> !IsSpace(b[k - 1]))
    ensures Back(b, k, true) == k
  {
  }

  /** b[..k] is empty, or ends in a run. */
  predicate EndsInRun(b: string, k: nat)
    requires k <= |b|
  {
    k > 0 ==> !IsSpace(b[k - 1])
  }

  /** The runs are counted to the start of b just when the documented offset is 0. */
  lemma {:induction false} StartIsZero(b: string, k: nat, runs: nat)
    requires k <= |b| && EndsInRun(b, k) && runs > 0
    ensures StartOfLast(b, k, runs) == 0
            <==> Runs(b, k) < runs || (Runs(b, k) == runs && (k > 0 ==> !IsSpace(b[0])))
    decreases runs
  {
    BackIsDone(b, k);
    if k > 0 {
      BackOverRun(b, k);
      var j := Back(b, k, false);
      NoneBeforeZero(b, j);
      if runs > 1 {
        var k' := Back(b, j, true);
        BackOverSpace(b, j);
        StartIsZero(b, k', runs - 1);
        assert StartOfLast(b, j, runs - 1) == StartOfLast(b, k', runs - 1) by { BackIsDone(b, k'); }
        if k' == 0 && j > 0 {
          assert IsSpace(b[0]);
        }
      }
    }
  }

  /** No run comes before j just when there is nothing there but white space. */
  lemma {:induction false} NoneBeforeZero(b: string, j: nat)
    requires j <= |b|
    ensures Runs(b, j) == 0 <==> Back(b, j, true) == 0
  {
    BackOverSpace(b, j);
    var k := Back(b, j, true);
    if k > 0 {
      BackOverRun(b, k);
    }
  }

  // ----- the hold point against the documented offset

  lemma {:induction false} HoldIsZero(b: string, k: nat, runs: nat)
    requires k <= |b| && EndsInRun(b, k)
    ensures TailHold(b, k, runs) == 0 <==> Runs(b, k) <= runs
    decreases runs
  {
    NoneBeforeZero(b, k);
    BackIsDone(b, k);
    if runs > 0 && k > 0 {
      BackOverRun(b, k);
      var j := Back(b, k, false);
      BackOverSpace(b, j);
      HoldIsZero(b, Back(b, j, true), runs - 1);
    }
  }

  /** In a text that ends in a run, the hold point is before the documented offset. */
  lemma {:induction false} HoldIsBefore(b: string, k: nat, runs: nat)
    requires k <= |b| && EndsInRun(b, k) && runs > 0
    ensures var hold, start := TailHold(b, k, runs), StartOfLast(b, k, runs);
            if start == 0 then hold == 0 else hold < start
    decreases runs
  {
    BackIsDone(b, k);
    if k > 0 && runs > 1 {
      var j := Back(b, k, false);
      var k' := Back(b, j, true);
      BackIsDone(b, k');
      HoldIsBefore(b, k', runs - 1);
      assert StartOfLast(b, j, runs - 1) == StartOfLast(b, k', runs - 1);
    }
  }

  /** And with one run fewer it is after it. */
  lemma {:induction false} HoldIsAfter(b: string, k: nat, runs: nat)
    requires k <= |b| && EndsInRun(b, k) && runs > 0
    ensures var hold, start := TailHold(b, k, runs - 1), StartOfLast(b, k, runs);
            if hold == 0 then start == 0 else start < hold
    decreases runs
  {
    BackIsDone(b, k);
    if k > 0 {
      BackOverRun(b, k);
      if runs > 1 {
        var j := Back(b, k, false);
        var k' := Back(b, j, true);
        BackIsDone(b, k');
        HoldIsAfter(b, k', runs - 1);
        assert StartOfLast(b, j, runs - 1) == StartOfLast(b, k', runs - 1);
      }
    }
  }

  predicate EndsInSpace(b: string) {
    b != "" && IsSpace(b[|b| - 1])
  }

  /** A text that ends in white space is held as if that ended an empty last run. */
  lemma TrailingSpaceIsARun(b: string, runs: nat)
    requires EndsInSpace(b) && runs > 0
    ensures var k := Back(b, |b|, true);
            EndsInRun(b, k) && Runs(b, k) == Runs(b, |b|)
            && TailHold(b, |b|, runs) == TailHold(b, k, runs - 1)
            && StartOfLast(b, |b|, runs) == StartOfLast(b, k, runs)
  {
    var k := Back(b, |b|, true);
    BackOverSpace(b, |b|);
    BackIsDone(b, k);
    if k == 0 {
      HoldIsZero(b, k, runs - 1);
    }
  }

  /** In a text that ends in a run at least as much is held back as documented, and in one
      that ends in white space at most as much. */
  lemma HoldAgainstDocumented(b: string, runs: nat)
    requires runs > 0
    ensures if EndsInSpace(b) then StartOfLast(b, |b|, runs) <= TailHold(b, |b|, runs)
            else TailHold(b, |b|, runs) <= StartOfLast(b, |b|, runs)
  {
    if EndsInSpace(b) {
      TrailingSpaceIsARun(b, runs);
      HoldIsAfter(b, Back(b, |b|, true), runs);
    } else {
      HoldIsBefore(b, |b|, runs);
    }
  }

  /** The hold point is the documented offset if and only if the text has fewer runs than
      are held, or just as many and no white space before or after them. */
  lemma HoldAgreesExactly(b: string, runs: nat)
    requires runs > 0
    ensures TailHold(b, |b|, runs) == StartOfLast(b, |b|, runs)
            <==> Runs(b, |b|) < runs || (Runs(b, |b|) == runs && b != "" && !IsSpace(b[0]) && !EndsInSpace(b))
  {
    if EndsInSpace(b) {
      var k := Back(b, |b|, true);
      TrailingSpaceIsARun(b, runs);
      HoldIsAfter(b, k, runs);
      HoldIsZero(b, k, runs - 1);
    } else {
      HoldIsBefore(b, |b|, runs);
      StartIsZero(b, |b|, runs);
    }
  }

  /** More is held of "x y z" than documented, and less of "x y ". */
  lemma HoldDepartsBothWays()
    ensures TailHold("x y z", 5, HOLD_TOKENS) == 1 && StartOfLast("x y z", 5, HOLD_TOKENS) == 2
    ensures TailHold("x y ", 4, HOLD_TOKENS) == 1 && StartOfLast("x y ", 4, HOLD_TOKENS) == 0
  {
    var b := "x y z";
    assert Back(b, 5, false) == 4 && Back(b, 4, true) == 3 && Back(b, 3, false) == 2 && Back(b, 2, true) == 1;
    assert TailHold(b, 1, 0) == 1 && TailHold(b, 3, 1) == 1;
    assert Back(b, 5, true) == 5 && StartOfLast(b, 4, 1) == 2;
    var c := "x y ";
    assert Back(c, 4, false) == 4 && Back(c, 4, true) == 3 && Back(c, 3, false) == 2 && Back(c, 2, true) == 1;
    assert TailHold(c, 1, 0) == 1 && TailHold(c, 3, 1) == 1;
    assert Back(c, 1, false) == 0 && StartOfLast(c, 2, 1) == 0;
  }

  // ----- and nothing more is held back

  /** Below the cap c bytes of a buffer with no boundary in it may go: none of them is among
      the last overlap, or in the last runs, and no match goes on past them. */
  ghost predicate MayGo(r: Redactor, buf: string, c: int)
    requires Valid(r)
  {
    0 < c <= |buf| - r.overlap && c <= TailHold(buf, |buf|, HOLD_TOKENS) && Safe(SpansOf(r.secrets, buf), c)
  }

  /** What is flushed is as much as may go. */
  lemma FlushIsTheMost(r: Redactor, buf: string, c: int)
    requires Valid(r) && |buf| < MAX_PENDING
    ensures MayGo(r, buf, c) ==> c <= FlushPoint(r, buf, false)
    ensures FlushPoint(r, buf, false) > 0 ==> MayGo(r, buf, FlushPoint(r, buf, false))
  {
  }

  ghost predicate HoldsNone(secrets: seq<Secret>, buf: string) {
    forall s, i :: s in secrets ==> !Scan.OccursAt(buf, s.value, i)
  }

  lemma NoMatchNoSpans(secrets: seq<Secret>, buf: string)
    requires Usable(secrets)
    ensures HoldsNone(secrets, buf) ==> SpansOf(secrets, buf) == []
  {
    if HoldsNone(secrets, buf) {
      RawIsComparable(secrets, buf);
      assert Raw(secrets, buf) == {};
      SortIs({}, []);
    }
  }

  lemma NoSpansFlush(r: Redactor, buf: string)
    requires Valid(r) && |buf| < MAX_PENDING && SpansOf(r.secrets, buf) == []
    ensures FlushPoint(r, buf, false) == |buf| - Kept(|buf|, r.overlap, TailHold(buf, |buf|, HOLD_TOKENS))
  {
    FlushIsTheMost(r, buf, Min(|buf| - r.overlap, TailHold(buf, |buf|, HOLD_TOKENS)));
  }

  lemma KeptIsPastFlush(r: Redactor, buf: string)
    requires Valid(r) && |buf| >= MIN_OVERLAP && B.Find(r.begin, buf) == B.Nowhere
    ensures |Process(r, buf, false, false).buf| == |buf| - FlushPoint(r, buf, false)
  {
  }

  /** So a text that holds no secret, and no key, goes on to its last overlap bytes and its
      last two runs. */
  lemma CleanTextFlows(r: Redactor, buf: string)
    requires Valid(r) && MIN_OVERLAP <= |buf| < MAX_PENDING && B.Find(r.begin, buf) == B.Nowhere
    requires HoldsNone(r.secrets, buf)
    ensures |Process(r, buf, false, false).buf| == Kept(|buf|, r.overlap, TailHold(buf, |buf|, HOLD_TOKENS))
  {
    NoMatchNoSpans(r.secrets, buf);
    NoSpansFlush(r, buf);
    KeptIsPastFlush(r, buf);
  }

  /** Of n bytes the last overlap, or all from hold on if that is more. */
  function Kept(n: nat, overlap: nat, hold: nat): int {
    if overlap >= n then n else Max(overlap, n - hold)
  }
}
