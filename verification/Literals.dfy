/** Redacting the seeded literal values in one buffer, as a whole, and how that
    relates to redacting the two halves of a cut buffer. */
module Literals {
  import Scan
  import opened Spans

  /** A literal to look for, and the marker that replaces it. */
  datatype Secret = Secret(mark: string, value: string)

  ghost predicate Distinct(secrets: seq<Secret>) {
    forall i, j :: 0 <= i < j < |secrets| ==> secrets[i].value != secrets[j].value
  }

  ghost predicate Usable(secrets: seq<Secret>) {
    Distinct(secrets) && forall s :: s in secrets ==> |s.value| > 0
  }

  function Hit(s: Secret, m: int): Span {
    Span(m, m + |s.value|, m, m + |s.value|, s.mark)
  }

  /** Every match of every secret, each scanned for on its own. */
  ghost function Raw(secrets: seq<Secret>, b: string): (raw: set<Span>)
    requires Usable(secrets)
  {
    set s, m | s in secrets && m in Scan.Matches(b, s.value) :: Hit(s, m)
  }

  lemma RawIs(secrets: seq<Secret>, b: string, x: Span)
    requires Usable(secrets)
    ensures x in Raw(secrets, b) <==>
            exists s :: s in secrets && x.start in Scan.Matches(b, s.value) && x == Hit(s, x.start)
  {
    if x in Raw(secrets, b) {
      var s, m :| s in secrets && m in Scan.Matches(b, s.value) && x == Hit(s, m);
      assert x == Hit(s, x.start);
    }
  }

  lemma RawFits(secrets: seq<Secret>, b: string, x: Span)
    requires Usable(secrets) && x in Raw(secrets, b)
    ensures WellFormed(x) && x.end <= |b|
  {
  }

  lemma SameValueSameSecret(secrets: seq<Secret>, s: Secret, t: Secret)
    requires Usable(secrets) && s in secrets && t in secrets && s.value == t.value
    ensures s == t
  {
    var i :| 0 <= i < |secrets| && secrets[i] == s;
    var j :| 0 <= j < |secrets| && secrets[j] == t;
  }

  lemma HitsCompare(secrets: seq<Secret>, b: string, s: Secret, m: int, t: Secret, n: int)
    requires Usable(secrets) && s in secrets && t in secrets
    requires Scan.OccursAt(b, s.value, m) && Scan.OccursAt(b, t.value, n)
    ensures Hit(s, m) == Hit(t, n) || Less(Hit(s, m), Hit(t, n)) || Less(Hit(t, n), Hit(s, m))
  {
    if m == n && |s.value| == |t.value| {
      SameValueSameSecret(secrets, s, t);
    }
  }

  /** No two matches share both ends, so the sort has one answer. */
  lemma RawIsComparable(secrets: seq<Secret>, b: string)
    requires Usable(secrets)
    ensures Comparable(Raw(secrets, b))
  {
    forall x, y | x in Raw(secrets, b) && y in Raw(secrets, b) && x != y ensures Less(x, y) || Less(y, x) {
      var s, m :| s in secrets && m in Scan.Matches(b, s.value) && x == Hit(s, m);
      var t, n :| t in secrets && n in Scan.Matches(b, t.value) && y == Hit(t, n);
      HitsCompare(secrets, b, s, m, t, n);
    }
  }

  // ----- the sorted order of a set of spans

  ghost predicate Sorts(s: seq<Span>, raw: set<Span>) {
    Sorted(s) && forall x :: x in s <==> x in raw
  }

  lemma {:induction false} SortExists(raw: set<Span>)
    requires Comparable(raw)
    ensures exists s :: Sorts(s, raw)
  {
    if raw == {} {
      assert Sorts([], raw);
    } else {
      var x :| x in raw;
      SortExists(raw - {x});
      var s :| Sorts(s, raw - {x});
      assert Sorts(Insert(x, s), raw);
    }
  }

  ghost function SortOf(raw: set<Span>): (s: seq<Span>)
    requires Comparable(raw)
    ensures Sorts(s, raw)
  {
    SortExists(raw);
    var s :| Sorts(s, raw);
    s
  }

  lemma SortIs(raw: set<Span>, s: seq<Span>)
    requires Comparable(raw) && Sorts(s, raw)
    ensures SortOf(raw) == s
  {
    SortingIsUnique(SortOf(raw), s);
  }

  // ----- the spans of a buffer

  /** The ranges of b to replace: its matches, sorted and merged. */
  ghost function SpansOf(secrets: seq<Secret>, b: string): seq<Span>
    requires Usable(secrets)
  {
    RawIsComparable(secrets, b);
    Merge(SortOf(Raw(secrets, b)))
  }

  ghost predicate FitIn(s: seq<Span>, n: int) {
    forall i :: 0 <= i < |s| ==> s[i].start < s[i].end <= n
  }

  lemma SpansOfSound(secrets: seq<Secret>, b: string)
    requires Usable(secrets)
    ensures AllWellFormed(SpansOf(secrets, b)) && Disjoint(SpansOf(secrets, b)) && Ranges(SpansOf(secrets, b))
    ensures forall x :: x in Raw(secrets, b) ==> Swallowed(SpansOf(secrets, b), x)
    ensures FitIn(SpansOf(secrets, b), |b|)
  {
    RawIsComparable(secrets, b);
    var s := SortOf(Raw(secrets, b));
    assert forall i :: 0 <= i < |s| ==> s[i] in s;
    forall x | x in s ensures WellFormed(x) && x.end <= |b| { RawFits(secrets, b, x); }
    MergeSound(s);
    var r := SpansOf(secrets, b);
    forall i | 0 <= i < |r| ensures r[i].end <= |b| {
      assert r[i].start <= r[i].end - 1 < r[i].end;
      assert Covers(r, r[i].end - 1);
      var k :| 0 <= k < |s| && s[k].start <= r[i].end - 1 < s[k].end;
    }
  }

  /** No match goes through c. */
  ghost predicate Clear(secrets: seq<Secret>, b: string, c: int)
    requires Usable(secrets)
  {
    forall s :: s in secrets ==> !Scan.Straddled(Scan.Matches(b, s.value), |s.value|, c)
  }

  lemma RawBefore(secrets: seq<Secret>, b: string, n: nat, x: Span)
    requires Usable(secrets) && n <= |b|
    ensures x in Raw(secrets, b[..n]) <==> x in Raw(secrets, b) && x.end <= n
  {
    RawIs(secrets, b[..n], x);
    RawIs(secrets, b, x);
    forall s | s in secrets
      ensures x.start in Scan.Matches(b[..n], s.value) <==>
              x.start in Scan.Matches(b, s.value) && x.start + |s.value| <= n
    {
      Scan.MatchesOfPrefix(b, n, s.value);
    }
  }

  lemma RawAfter(secrets: seq<Secret>, b: string, c: int, x: Span)
    requires Usable(secrets) && 0 <= c <= |b| && Clear(secrets, b, c) && c <= x.start
    ensures x in Raw(secrets, b) <==> Shift(x, -c) in Raw(secrets, b[c..])
  {
    var y := Shift(x, -c);
    RawIs(secrets, b, x);
    RawIs(secrets, b[c..], y);
    forall s | s in secrets
      ensures x.start in Scan.Matches(b, s.value) <==> y.start in Scan.Matches(b[c..], s.value)
      ensures x == Hit(s, x.start) <==> y == Hit(s, y.start)
    {
      OneAfter(s, b, c, x);
    }
  }

  lemma OneAfter(s: Secret, b: string, c: int, x: Span)
    requires |s.value| > 0 && 0 <= c <= |b| && c <= x.start
    requires !Scan.Straddled(Scan.Matches(b, s.value), |s.value|, c)
    ensures x.start in Scan.Matches(b, s.value) <==> Shift(x, -c).start in Scan.Matches(b[c..], s.value)
    ensures x == Hit(s, x.start) <==> Shift(x, -c) == Hit(s, Shift(x, -c).start)
  {
    Scan.MatchesOfSuffix(b, c, s.value, x.start);
  }

  lemma RawEitherSide(secrets: seq<Secret>, b: string, c: nat, x: Span)
    requires Usable(secrets) && Clear(secrets, b, c) && x in Raw(secrets, b)
    ensures x.end <= c || c <= x.start
  {
    RawIs(secrets, b, x);
    var s :| s in secrets && x.start in Scan.Matches(b, s.value) && x == Hit(s, x.start);
    assert !Scan.Straddled(Scan.Matches(b, s.value), |s.value|, c);
  }

  lemma SplitMember(secrets: seq<Secret>, b: string, c: int, s: seq<Span>, t: seq<Span>, x: Span)
    requires Usable(secrets) && 0 <= c <= |b| && Clear(secrets, b, c)
    requires Sorts(s, Raw(secrets, b[..c])) && Sorts(t, Raw(secrets, b[c..]))
    ensures x in s + ShiftAll(t, c) <==> x in Raw(secrets, b)
  {
    var u := ShiftAll(t, c);
    RawBefore(secrets, b, c, x);
    if x in u {
      var i :| 0 <= i < |u| && u[i] == x;
      assert t[i] in t && Shift(x, -c) == t[i];
      RawFits(secrets, b[c..], t[i]);
      RawAfter(secrets, b, c, x);
    }
    if x in Raw(secrets, b) {
      RawEitherSide(secrets, b, c, x);
      if c <= x.start {
        RawAfter(secrets, b, c, x);
        var i :| 0 <= i < |t| && t[i] == Shift(x, -c);
        assert u[i] == x;
      }
    }
  }

  lemma SplitSorted(s: seq<Span>, u: seq<Span>, c: int)
    requires Sorted(s) && Sorted(u)
    requires forall x :: x in s ==> x.start < c
    requires forall x :: x in u ==> c <= x.start
    ensures Sorted(s + u)
  {
    assert forall i :: 0 <= i < |s| ==> s[i] in s;
    assert forall i :: 0 <= i < |u| ==> u[i] in u;
  }

  /** The sorted matches of b are those of its halves, one after the other. */
  lemma SortSplit(secrets: seq<Secret>, b: string, c: nat)
    requires Usable(secrets) && c <= |b| && Clear(secrets, b, c)
    requires Comparable(Raw(secrets, b)) && Comparable(Raw(secrets, b[..c])) && Comparable(Raw(secrets, b[c..]))
    ensures SortOf(Raw(secrets, b)) == SortOf(Raw(secrets, b[..c])) + ShiftAll(SortOf(Raw(secrets, b[c..])), c)
  {
    var s, t := SortOf(Raw(secrets, b[..c])), SortOf(Raw(secrets, b[c..]));
    var u := ShiftAll(t, c);
    forall x | x in s ensures x.start < c {
      RawFits(secrets, b[..c], x);
    }
    forall x | x in u ensures c <= x.start {
      var i :| 0 <= i < |u| && u[i] == x;
      assert t[i] in t;
      RawFits(secrets, b[c..], t[i]);
    }
    SplitSorted(s, u, c);
    forall x ensures x in s + u <==> x in Raw(secrets, b) {
      SplitMember(secrets, b, c, s, t, x);
    }
    SortIs(Raw(secrets, b), s + u);
  }

  lemma SpansSplit(secrets: seq<Secret>, b: string, c: nat)
    requires Usable(secrets) && c <= |b| && Clear(secrets, b, c)
    ensures SpansOf(secrets, b) == SpansOf(secrets, b[..c]) + ShiftAll(SpansOf(secrets, b[c..]), c)
  {
    RawIsComparable(secrets, b);
    RawIsComparable(secrets, b[..c]);
    RawIsComparable(secrets, b[c..]);
    SortSplit(secrets, b, c);
    var s, t := SortOf(Raw(secrets, b[..c])), SortOf(Raw(secrets, b[c..]));
    assert forall i :: 0 <= i < |s| ==> s[i] in s;
    assert forall i :: 0 <= i < |t| ==> t[i] in t;
    forall i | 0 <= i < |s| ensures s[i].end <= c { RawFits(secrets, b[..c], s[i]); }
    forall i | 0 <= i < |t| ensures 0 <= t[i].start { RawFits(secrets, b[c..], t[i]); }
    MergeSplit(s, ShiftAll(t, c), c);
    MergeShift(t, c);
  }

  // ----- redaction

  /** b with every seeded literal replaced. */
  ghost function Redact(secrets: seq<Secret>, b: string): string
    requires Usable(secrets)
  {
    Apply(b, SpansOf(secrets, b))
  }

  /** A buffer cut where no match goes through redacts half by half; and the first
      half may be redacted with the spans of the whole buffer. */
  lemma RedactSplit(secrets: seq<Secret>, b: string, c: nat)
    requires Usable(secrets) && c <= |b| && Clear(secrets, b, c)
    ensures Redact(secrets, b) == Redact(secrets, b[..c]) + Redact(secrets, b[c..])
    ensures Apply(b[..c], SpansOf(secrets, b)) == Redact(secrets, b[..c])
  {
    var s, t := SpansOf(secrets, b[..c]), SpansOf(secrets, b[c..]);
    SpansSplit(secrets, b, c);
    SpansOfSound(secrets, b[..c]);
    SpansOfSound(secrets, b[c..]);
    ApplySplit(b, c, s, t);
    ApplyIgnoresFrom(b[..c], s, ShiftAll(t, c), 0, 0);
  }

  /** A point no guard range has inside it is clear. */
  lemma SafeIsClear(secrets: seq<Secret>, b: string, c: int)
    requires Usable(secrets) && Safe(SpansOf(secrets, b), c)
    ensures Clear(secrets, b, c)
  {
    var found := SpansOf(secrets, b);
    SpansOfSound(secrets, b);
    forall s, m | s in secrets && m in Scan.Matches(b, s.value) ensures !(m < c < m + |s.value|) {
      var x := Hit(s, m);
      RawIs(secrets, b, x);
      assert Swallowed(found, x);
      var i :| 0 <= i < |found| && Swallows(found[i], x);
      assert !Inside(found[i], c);
    }
  }

  /** A cut at least overlap bytes from the end of what has arrived is as clear in
      the text to come as it is now: no longer value can reach back over it. */
  lemma ClearInFuture(secrets: seq<Secret>, x: string, n: nat, t: nat, c: int, overlap: int)
    requires Usable(secrets) && n <= |x| && t <= |x| && c <= n - overlap
    requires forall s :: s in secrets ==> |s.value| < overlap
    requires Clear(secrets, x[..n], c)
    ensures Clear(secrets, x[..t], c)
  {
    forall s, m | s in secrets && m in Scan.Matches(x[..t], s.value) ensures !(m < c < m + |s.value|) {
      Scan.MatchesOfPrefix(x, t, s.value);
      Scan.MatchesOfPrefix(x, n, s.value);
      assert !Scan.Straddled(Scan.Matches(x[..n], s.value), |s.value|, c);
      if m < c { assert m in Scan.Matches(x[..n], s.value); }
    }
  }

  /** Every occurrence of a seeded value begins in a replaced range. */
  lemma OccurrenceIsCovered(secrets: seq<Secret>, b: string, s: Secret, i: int)
    requires Usable(secrets) && s in secrets && Scan.OccursAt(b, s.value, i)
    ensures Covers(SpansOf(secrets, b), i)
  {
    Scan.EveryOccurrenceIsHit(b, s.value, i);
    var m :| m in Scan.Matches(b, s.value) && m <= i < m + |s.value|;
    var x := Hit(s, m);
    RawIs(secrets, b, x);
    SpansOfSound(secrets, b);
    var found := SpansOf(secrets, b);
    var k :| 0 <= k < |found| && Swallows(found[k], x);
    assert found[k].start <= i < found[k].end;
  }
}
