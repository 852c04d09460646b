/** The left-to-right search for one literal value in a buffer, and how that
    search behaves when the buffer is cut or extended.

    Bytes are modelled as characters: nothing here looks at a byte beyond
    comparing it. The scan is written over the set of positions where the value
    occurs, so that its lemmas never look inside the buffer. */
module Scan {

  predicate OccursAt(b: string, v: string, i: int) {
    0 <= i && i + |v| <= |b| && b[i..i + |v|] == v
  }

  /** Where v occurs in b. */
  function Occurrences(b: string, v: string): (at: set<int>)
    ensures forall i :: i in at <==> OccursAt(b, v, i)
  {
    set i | 0 <= i <= |b| && OccursAt(b, v, i)
  }

  /** The first position in [lo, hi) that is in at, or -1. */
  function First(at: set<int>, lo: int, hi: int): (r: int)
    requires 0 <= lo
    ensures r == -1 ==> forall i :: lo <= i < hi ==> i !in at
    ensures r != -1 ==> lo <= r < hi && r in at && forall i :: lo <= i < r ==> i !in at
    decreases hi - lo
  {
    if lo >= hi then -1 else if lo in at then lo else First(at, lo + 1, hi)
  }

  /** The matches of a value w bytes wide that a left-to-right scan from lo
      takes, each one starting no earlier than the last one ended. */
  function Greedy(at: set<int>, w: nat, lo: int, hi: int): (ms: set<int>)
    requires w > 0 && 0 <= lo
    ensures forall m :: m in ms ==> lo <= m < hi && m in at
    decreases hi - lo
  {
    var r := First(at, lo, hi);
    if r == -1 then {} else {r} + Greedy(at, w, r + w, hi)
  }

  lemma GreedyNext(at: set<int>, w: nat, lo: int, hi: int, i: int, all: set<int>, rest: set<int>)
    requires w > 0 && 0 <= lo && i == First(at, lo, hi) != -1
    requires all == Greedy(at, w, lo, hi) && rest == Greedy(at, w, i + w, hi)
    ensures all == {i} + rest && forall m :: m in rest ==> i < m
  {
  }

  /** The matches bytes.Index finds in b for v, searching on from each one's end. */
  function Matches(b: string, v: string): (ms: set<int>)
    requires |v| > 0
    ensures forall m :: m in ms ==> OccursAt(b, v, m)
  {
    Greedy(Occurrences(b, v), |v|, 0, |b| + 1)
  }

  ghost predicate Straddled(ms: set<int>, w: nat, c: int) {
    exists m :: m in ms && m < c < m + w
  }

  lemma FirstIs(at: set<int>, lo: int, hi: int, r: int)
    requires 0 <= lo <= r < hi && r in at && forall i :: lo <= i < r ==> i !in at
    ensures First(at, lo, hi) == r
  {
  }

  lemma FirstIsNone(at: set<int>, lo: int, hi: int)
    requires 0 <= lo && forall i :: lo <= i < hi ==> i !in at
    ensures First(at, lo, hi) == -1
  {
  }

  /** Two matches of one scan never overlap. */
  lemma {:induction false} GreedyDisjoint(at: set<int>, w: nat, lo: int, hi: int, m: int, n: int)
    requires w > 0 && 0 <= lo
    requires m in Greedy(at, w, lo, hi) && n in Greedy(at, w, lo, hi) && m < n
    ensures m + w <= n
    decreases hi - lo
  {
    var r := First(at, lo, hi);
    if m != r {
      GreedyDisjoint(at, w, r + w, hi, m, n);
    }
  }

  /** at' is at, seen from c on. */
  ghost predicate ShiftOf(at: set<int>, at': set<int>, c: int) {
    forall i {:trigger i in at} :: c <= i ==> (i in at <==> i - c in at')
  }

  lemma {:induction false} FirstShift(at: set<int>, at': set<int>, c: nat, lo: int, hi: int)
    requires c <= lo && ShiftOf(at, at', c)
    ensures First(at', lo - c, hi - c) == (var r := First(at, lo, hi); if r == -1 then -1 else r - c)
    decreases hi - lo
  {
    if lo < hi && lo !in at {
      FirstShift(at, at', c, lo + 1, hi);
    }
  }

  /** The scan of a suffix is the rest of the scan, in the suffix's own offsets. */
  lemma {:induction false} GreedyShift(at: set<int>, at': set<int>, w: nat, c: nat, lo: int, hi: int, m: int)
    requires w > 0 && c <= lo
    requires ShiftOf(at, at', c)
    ensures m in Greedy(at, w, lo, hi) <==> m - c in Greedy(at', w, lo - c, hi - c)
    decreases hi - lo
  {
    FirstShift(at, at', c, lo, hi);
    var r := First(at, lo, hi);
    if r != -1 {
      GreedyShift(at, at', w, c, r + w, hi, m);
    }
  }

  /** Starting the scan later changes nothing when nothing occurs in between. */
  lemma GreedySkip(at: set<int>, w: nat, lo: int, lo': int, hi: int)
    requires w > 0 && 0 <= lo <= lo'
    requires forall i :: lo <= i < lo' ==> i !in at
    ensures Greedy(at, w, lo, hi) == Greedy(at, w, lo', hi)
  {
    var r := First(at, lo', hi);
    if r == -1 {
      FirstIsNone(at, lo, hi);
    } else {
      FirstIs(at, lo, hi, r);
    }
  }

  /** at' is at, seen through a buffer that stops at n. */
  ghost predicate CutAt(at: set<int>, at': set<int>, w: nat, n: int) {
    forall i :: i in at' <==> i in at && i + w <= n
  }

  lemma {:induction false} GreedyPrefix(at: set<int>, at': set<int>, w: nat, n: nat, lo: int, hi: int)
    requires w > 0 && 0 <= lo && n < hi && CutAt(at, at', w, n)
    ensures forall m :: m in Greedy(at', w, lo, n + 1) <==> m in Greedy(at, w, lo, hi) && m + w <= n
    decreases hi - lo
  {
    var r := First(at, lo, hi);
    if r == -1 {
      FirstIsNone(at', lo, n + 1);
    } else if r + w <= n {
      FirstIs(at', lo, n + 1, r);
      GreedyPrefix(at, at', w, n, r + w, hi);
    } else {
      FirstIsNone(at', lo, n + 1);
    }
  }

  lemma StraddledLess(all: set<int>, rest: set<int>, i: int, w: nat, c: int)
    requires all == {i} + rest && i < c
    ensures !Straddled(all, w, c) ==> i + w <= c && !Straddled(rest, w, c)
  {
    assert i in all;
  }

  lemma {:induction false} GreedySplit(at: set<int>, w: nat, c: nat, lo: int, hi: int, m: int, all: set<int>)
    requires w > 0 && 0 <= lo <= c <= hi && c <= m
    requires all == Greedy(at, w, lo, hi)
    ensures !Straddled(all, w, c) ==> (m in all <==> m in Greedy(at, w, c, hi))
    decreases hi - lo
  {
    var r := First(at, lo, hi);
    if r == -1 || c <= r {
      GreedySkip(at, w, lo, c, hi);
    } else if r + w <= c {
      var rest := Greedy(at, w, r + w, hi);
      GreedyNext(at, w, lo, hi, r, all, rest);
      StraddledLess(all, rest, r, w, c);
      GreedySplit(at, w, c, r + w, hi, m, rest);
    } else {
      assert r in all;
    }
  }

  lemma {:induction false} GreedyHits(at: set<int>, w: nat, lo: int, hi: int, i: int, all: set<int>) returns (m: int)
    requires w > 0 && 0 <= lo <= i < hi && i in at && all == Greedy(at, w, lo, hi)
    ensures m in all && m <= i < m + w
    decreases hi - lo
  {
    m := First(at, lo, hi);
    var rest := Greedy(at, w, m + w, hi);
    GreedyNext(at, w, lo, hi, m, all, rest);
    if m + w <= i {
      m := GreedyHits(at, w, m + w, hi, i, rest);
    }
  }

  lemma OccursInSuffix(b: string, c: nat, v: string, i: int)
    requires c <= |b| && 0 <= i
    ensures OccursAt(b[c..], v, i) <==> OccursAt(b, v, i + c)
  {
    if i + |v| <= |b[c..]| {
      assert b[c..][i..i + |v|] == b[c + i..c + i + |v|];
    }
  }

  lemma OccursInPrefix(b: string, n: nat, v: string, i: int)
    requires n <= |b|
    ensures OccursAt(b[..n], v, i) <==> OccursAt(b, v, i) && i + |v| <= n
  {
    if 0 <= i && i + |v| <= n {
      assert b[..n][i..i + |v|] == b[i..i + |v|];
    }
  }

  lemma SuffixOccurrences(b: string, c: nat, v: string)
    requires c <= |b|
    ensures ShiftOf(Occurrences(b, v), Occurrences(b[c..], v), c)
  {
    var at, back := Occurrences(b, v), Occurrences(b[c..], v);
    forall i {:trigger i in at} | c <= i ensures i in at <==> i - c in back {
      OccursInSuffix(b, c, v, i - c);
    }
  }

  /** The scan of a prefix finds exactly what the full scan finds inside it. */
  lemma MatchesOfPrefix(b: string, n: nat, v: string)
    requires |v| > 0 && n <= |b|
    ensures forall m :: m in Matches(b[..n], v) <==> m in Matches(b, v) && m + |v| <= n
  {
    var at, front := Occurrences(b, v), Occurrences(b[..n], v);
    assert CutAt(at, front, |v|, n) by {
      forall i ensures i in front <==> i in at && i + |v| <= n { OccursInPrefix(b, n, v, i); }
    }
    GreedyPrefix(at, front, |v|, n, 0, |b| + 1);
  }

  /** At a cut no match straddles, the scan goes on as it would have started
      afresh there. */
  lemma MatchesOfSuffix(b: string, c: nat, v: string, m: int)
    requires |v| > 0 && c <= |b| && c <= m
    requires !Straddled(Matches(b, v), |v|, c)
    ensures m in Matches(b, v) <==> m - c in Matches(b[c..], v)
  {
    SuffixOccurrences(b, c, v);
    RestOfSplit(Occurrences(b, v), Occurrences(b[c..], v), |v|, c, |b| + 1, Matches(b, v), Matches(b[c..], v), m);
  }

  /** The same, of sets of positions. */
  lemma RestOfSplit(at: set<int>, back: set<int>, w: nat, c: nat, hi: int, all: set<int>, rest: set<int>, m: int)
    requires w > 0 && c <= hi && c <= m && ShiftOf(at, back, c)
    requires all == Greedy(at, w, 0, hi) && rest == Greedy(back, w, 0, hi - c) && !Straddled(all, w, c)
    ensures m in all <==> m - c in rest
  {
    GreedySplit(at, w, c, 0, hi, m, all);
    GreedyShift(at, back, w, c, c, hi, m);
  }

  /** Every occurrence begins inside some match of the scan: a scan may step over a
      self-overlapping copy of the value, but never past it. */
  lemma EveryOccurrenceIsHit(b: string, v: string, i: int)
    requires |v| > 0 && OccursAt(b, v, i)
    ensures exists m :: m in Matches(b, v) && m <= i < m + |v|
  {
    var m := GreedyHits(Occurrences(b, v), |v|, 0, |b| + 1, i, Matches(b, v));
  }
}
