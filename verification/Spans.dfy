/** Ranges of a buffer to be replaced by markers: sorting them, merging the
    overlapping ones, finding where a buffer may be cut, and the replacement
    itself. */
module Spans {

  /** One credential. [start, end) is replaced by mark; [gstart, gend) is the match
      that produced it, and is what a cut must not go through. */
  datatype Span = Span(start: int, end: int, gstart: int, gend: int, mark: string)

  predicate WellFormed(s: Span) {
    0 <= s.gstart <= s.start < s.end <= s.gend
  }

  ghost predicate AllWellFormed(s: seq<Span>) {
    forall i :: 0 <= i < |s| ==> WellFormed(s[i])
  }

  /** The order spans are sorted in: by start, the longest first. */
  predicate Less(a: Span, b: Span) {
    a.start < b.start || (a.start == b.start && a.end > b.end)
  }

  ghost predicate Sorted(s: seq<Span>) {
    forall i, j :: 0 <= i < j < |s| ==> Less(s[i], s[j])
  }

  ghost predicate SortedByStart(s: seq<Span>) {
    forall i, j :: 0 <= i < j < |s| ==> s[i].start <= s[j].start
  }

  /** No two spans of raw compare equal, so it has one sorted order. */
  ghost predicate Comparable(raw: set<Span>) {
    forall a, b :: a in raw && b in raw && a != b ==> Less(a, b) || Less(b, a)
  }

  ghost predicate Disjoint(s: seq<Span>) {
    forall i, j :: 0 <= i < j < |s| ==> s[i].end <= s[j].start
  }

  // ----- sorting

  function Insert(x: Span, s: seq<Span>): (r: seq<Span>)
    requires Sorted(s) && forall y :: y in s ==> Less(x, y) || Less(y, x)
    ensures Sorted(r) && forall y :: y in r <==> y == x || y in s
  {
    if s == [] then [x]
    else if Less(x, s[0]) then [x] + s
    else
      var rest := Insert(x, s[1..]);
      assert forall i :: 0 <= i < |rest| ==> rest[i] in rest;
      assert s[0] in s && forall y :: y in s[1..] ==> exists i :: 0 < i < |s| && s[i] == y;
      [s[0]] + rest
  }

  /** slices.SortFunc on spans no two of which compare equal. */
  function Sort(xs: seq<Span>): (r: seq<Span>)
    requires forall i, j :: 0 <= i < j < |xs| ==> Less(xs[i], xs[j]) || Less(xs[j], xs[i])
    ensures Sorted(r) && forall y :: y in r <==> y in xs
  {
    if xs == [] then [] else
      var rest := Sort(xs[1..]);
      Insert(xs[0], rest)
  }

  lemma {:induction false} SortingIsUnique(s: seq<Span>, t: seq<Span>)
    requires Sorted(s) && Sorted(t) && forall y :: y in s <==> y in t
    ensures s == t
  {
    assert t != [] ==> t[0] in t;
    if s == [] {
    } else {
      FirstIsUnique(s, t);
      forall y ensures y in s[1..] <==> y in t[1..] {
        if y in s[1..] { assert y in t && y != t[0]; }
        if y in t[1..] { assert y in s && y != s[0]; }
      }
      SortingIsUnique(s[1..], t[1..]);
    }
  }

  lemma FirstIsUnique(s: seq<Span>, t: seq<Span>)
    requires Sorted(s) && Sorted(t) && (forall y :: y in s <==> y in t) && s != []
    ensures t != [] && s[0] == t[0]
  {
    forall i | 0 < i < |s| ensures !Less(s[i], s[0]) {
      assert Less(s[0], s[i]);
    }
    assert s[0] in t;
    var j :| 0 <= j < |t| && t[j] == s[0];
    assert t[0] in s;
    var i :| 0 <= i < |s| && s[i] == t[0];
  }

  // ----- merging

  function Max(a: int, b: int): int { if a < b then b else a }

  function Min(a: int, b: int): int { if a < b then a else b }

  function Join(last: Span, s: Span): Span {
    last.(end := Max(last.end, s.end), gstart := Min(last.gstart, s.gstart), gend := Max(last.gend, s.gend))
  }

  function MergeFrom(last: Span, rest: seq<Span>): (r: seq<Span>)
    ensures |r| > 0 && r[0].start == last.start && r[0].mark == last.mark
    decreases |rest|
  {
    if rest == [] then [last]
    else if rest[0].start < last.end then MergeFrom(Join(last, rest[0]), rest[1..])
    else [last] + MergeFrom(rest[0], rest[1..])
  }

  function Merge(s: seq<Span>): seq<Span> {
    if s == [] then [] else MergeFrom(s[0], s[1..])
  }

  /** The in-place compaction: a[..m] is the merge of what a held. */
  method MergeInPlace(a: array<Span>) returns (m: nat)
    modifies a
    ensures m <= a.Length && a[..m] == Merge(old(a[..]))
  {
    if a.Length == 0 {
      return 0;
    }
    ghost var was := a[..];
    m := 1;
    var i := 1;
    while i < a.Length
      invariant 1 <= m <= i <= a.Length
      invariant a[i..] == was[i..]
      invariant Merge(was) == a[..m - 1] + MergeFrom(a[m - 1], was[i..])
    {
      var s := a[i];
      MergeNext(a[..m - 1], a[m - 1], was, i);
      if s.start < a[m - 1].end {
        a[m - 1] := Join(a[m - 1], s);
      } else {
        assert a[..m - 1] + [a[m - 1]] == a[..m];
        a[m] := s;
        m := m + 1;
      }
      i := i + 1;
    }
    assert a[..m] == a[..m - 1] + [a[m - 1]];
  }

  /** One turn of the compaction: front and last are what it has made of was[..i]. */
  lemma MergeNext(front: seq<Span>, last: Span, was: seq<Span>, i: nat)
    requires i < |was|
    ensures front + MergeFrom(last, was[i..]) ==
            if was[i].start < last.end then front + MergeFrom(Join(last, was[i]), was[i + 1..])
            else (front + [last]) + MergeFrom(was[i], was[i + 1..])
  {
    assert was[i..][0] == was[i] && was[i..][1..] == was[i + 1..];
    if was[i].start >= last.end {
      assert front + ([last] + MergeFrom(was[i], was[i + 1..])) == (front + [last]) + MergeFrom(was[i], was[i + 1..]);
    }
  }

  ghost predicate Covers(s: seq<Span>, p: int) {
    exists i :: 0 <= i < |s| && s[i].start <= p < s[i].end
  }

  /** y swallows x whole, its guard included. */
  ghost predicate Swallows(y: Span, x: Span) {
    y.start <= x.start && x.end <= y.end && y.gstart <= x.gstart && x.gend <= y.gend
  }

  ghost predicate Swallowed(s: seq<Span>, x: Span) {
    exists i :: 0 <= i < |s| && Swallows(s[i], x)
  }

  /** What the merge of last and rest goes on with once rest[0] is taken in. */
  function Next(last: Span, rest: seq<Span>): Span
    requires rest != []
  {
    if rest[0].start < last.end then Join(last, rest[0]) else rest[0]
  }

  lemma {:induction false} MergeFromShape(last: Span, rest: seq<Span>)
    requires WellFormed(last) && AllWellFormed(rest) && SortedByStart(rest)
    requires rest != [] ==> last.start <= rest[0].start
    ensures var r := MergeFrom(last, rest);
            AllWellFormed(r) && Disjoint(r) && forall i :: 0 <= i < |r| ==> last.start <= r[i].start
    decreases |rest|
  {
    if rest != [] {
      MergeFromShape(Next(last, rest), rest[1..]);
    }
  }

  lemma {:induction false} MergeFromSwallows(last: Span, rest: seq<Span>, x: Span)
    requires WellFormed(last) && AllWellFormed(rest) && SortedByStart(rest)
    requires rest != [] ==> last.start <= rest[0].start
    requires Swallows(last, x) || x in rest
    ensures Swallowed(MergeFrom(last, rest), x)
    decreases |rest|
  {
    var r := MergeFrom(last, rest);
    if Swallows(last, x) && (rest == [] || rest[0].start >= last.end) {
      assert Swallows(r[0], x);
    } else {
      var next := Next(last, rest);
      var tail := MergeFrom(next, rest[1..]);
      MergeFromSwallows(next, rest[1..], x);
      var k :| 0 <= k < |tail| && Swallows(tail[k], x);
      assert Swallows(r[if rest[0].start < last.end then k else k + 1], x);
    }
  }

  ghost predicate Holds(s: Span, p: int) { s.start <= p < s.end }

  lemma {:induction false} MergeFromInvents(last: Span, rest: seq<Span>, p: int)
    requires WellFormed(last) && AllWellFormed(rest)
    requires rest != [] ==> last.start <= rest[0].start
    requires SortedByStart(rest) && Covers(MergeFrom(last, rest), p)
    ensures Holds(last, p) || Covers(rest, p)
    decreases |rest|
  {
    if rest != [] {
      var r := MergeFrom(last, rest);
      var next := Next(last, rest);
      var tail := MergeFrom(next, rest[1..]);
      var i :| 0 <= i < |r| && r[i].start <= p < r[i].end;
      if rest[0].start < last.end || i > 0 {
        assert tail[if rest[0].start < last.end then i else i - 1] == r[i];
        MergeFromInvents(next, rest[1..], p);
        if Covers(rest[1..], p) {
          var j :| 0 <= j < |rest[1..]| && rest[1..][j].start <= p < rest[1..][j].end;
          assert rest[j + 1] == rest[1..][j];
        } else if !Holds(last, p) {
          assert rest[0].start <= p < rest[0].end;
        }
      }
    }
  }

  /** Merging spans sorted by start yields sorted, pairwise disjoint ranges that
      cover exactly the bytes the spans cover, and every span is swallowed whole
      by one of them. */
  lemma MergeSound(s: seq<Span>)
    requires AllWellFormed(s) && SortedByStart(s)
    ensures AllWellFormed(Merge(s)) && Disjoint(Merge(s))
    ensures forall x :: x in s ==> Swallowed(Merge(s), x)
    ensures forall p :: Covers(Merge(s), p) <==> Covers(s, p)
  {
    if s != [] {
      MergeFromShape(s[0], s[1..]);
      forall x | x in s ensures Swallowed(Merge(s), x) {
        MergeFromSwallows(s[0], s[1..], x);
      }
      forall p ensures Covers(Merge(s), p) <==> Covers(s, p) {
        MergeCovers(s, Merge(s), p);
      }
    }
  }

  lemma MergeCovers(s: seq<Span>, r: seq<Span>, p: int)
    requires s != [] && r == Merge(s) && AllWellFormed(s) && SortedByStart(s)
    requires forall x :: x in s ==> Swallowed(r, x)
    ensures Covers(r, p) <==> Covers(s, p)
  {
    if Covers(s, p) {
      var i :| 0 <= i < |s| && s[i].start <= p < s[i].end;
      assert s[i] in s;
      var k :| 0 <= k < |r| && Swallows(r[k], s[i]);
      assert r[k].start <= p < r[k].end;
    }
    if Covers(r, p) {
      MergeFromInvents(s[0], s[1..], p);
      if Covers(s[1..], p) {
        var j :| 0 <= j < |s[1..]| && s[1..][j].start <= p < s[1..][j].end;
        assert s[j + 1] == s[1..][j];
      }
    }
  }

  /** Spans on either side of a point merge apart. */
  lemma {:induction false} MergeFromSplit(last: Span, s: seq<Span>, t: seq<Span>, c: int)
    requires last.end <= c
    requires forall i :: 0 <= i < |s| ==> s[i].end <= c
    requires forall i :: 0 <= i < |t| ==> c <= t[i].start
    ensures MergeFrom(last, s + t) == MergeFrom(last, s) + Merge(t)
    decreases |s|
  {
    if s == [] {
      assert s + t == t;
    } else {
      assert (s + t)[0] == s[0] && (s + t)[1..] == s[1..] + t;
      MergeFromSplit(if s[0].start < last.end then Join(last, s[0]) else s[0], s[1..], t, c);
    }
  }

  lemma MergeSplit(s: seq<Span>, t: seq<Span>, c: int)
    requires forall i :: 0 <= i < |s| ==> s[i].end <= c
    requires forall i :: 0 <= i < |t| ==> c <= t[i].start
    ensures Merge(s + t) == Merge(s) + Merge(t)
  {
    if s == [] {
      assert s + t == t;
    } else {
      assert (s + t)[0] == s[0] && (s + t)[1..] == s[1..] + t;
      MergeFromSplit(s[0], s[1..], t, c);
    }
  }

  function Shift(s: Span, c: int): Span {
    Span(s.start + c, s.end + c, s.gstart + c, s.gend + c, s.mark)
  }

  function ShiftAll(s: seq<Span>, c: int): (r: seq<Span>)
    ensures |r| == |s| && forall i :: 0 <= i < |s| ==> r[i] == Shift(s[i], c)
  {
    seq(|s|, i requires 0 <= i < |s| => Shift(s[i], c))
  }

  lemma ShiftCons(x: Span, s: seq<Span>, c: int)
    ensures ShiftAll([x] + s, c) == [Shift(x, c)] + ShiftAll(s, c)
  {
  }

  lemma {:induction false} MergeFromShift(last: Span, s: seq<Span>, c: int)
    ensures MergeFrom(Shift(last, c), ShiftAll(s, c)) == ShiftAll(MergeFrom(last, s), c)
    decreases |s|
  {
    if s != [] {
      assert ShiftAll(s, c)[1..] == ShiftAll(s[1..], c);
      var next := if s[0].start < last.end then Join(last, s[0]) else s[0];
      MergeFromShift(next, s[1..], c);
      ShiftCons(last, MergeFrom(next, s[1..]), c);
    }
  }

  lemma MergeShift(s: seq<Span>, c: int)
    ensures Merge(ShiftAll(s, c)) == ShiftAll(Merge(s), c)
  {
    if s != [] {
      assert ShiftAll(s, c)[1..] == ShiftAll(s[1..], c);
      MergeFromShift(s[0], s[1..], c);
    }
  }

  // ----- where a buffer may be cut

  ghost predicate Inside(s: Span, c: int) {
    s.gstart < c < s.gend
  }

  /** No guard range of found has c strictly inside it. */
  ghost predicate Safe(found: seq<Span>, c: int) {
    forall i :: 0 <= i < |found| ==> !Inside(found[i], c)
  }

  /** The greatest cut not above c that no guard range has inside it. */
  ghost function GreatestSafe(found: seq<Span>, c: int): (r: int)
    requires 0 <= c
    ensures 0 <= r <= c && (r > 0 ==> Safe(found, r))
    ensures forall d :: r < d <= c ==> !Safe(found, d)
  {
    if c == 0 || Safe(found, c) then c else GreatestSafe(found, c - 1)
  }

  lemma {:induction false} GreatestSafeIs(found: seq<Span>, c: int, r: int)
    requires 0 <= r <= c && (r > 0 ==> Safe(found, r))
    requires forall d :: r < d <= c ==> !Safe(found, d)
    ensures GreatestSafe(found, c) == r
    decreases c
  {
    if r < c {
      GreatestSafeIs(found, c - 1, r);
    }
  }

  /** Lowers cut past every span it goes through, again and again until none is
      left: a lowered cut can land inside another guard range. */
  method RetreatPastSpans(cut: int, found: seq<Span>) returns (r: int)
    requires 0 <= cut && AllWellFormed(found)
    ensures r == GreatestSafe(found, cut)
  {
    r := cut;
    while r > 0
      invariant 0 <= r <= cut
      invariant forall d :: r < d <= cut ==> !Safe(found, d)
      decreases r
    {
      var lowered := r;
      for i := 0 to |found|
        invariant 0 <= lowered <= r
        invariant forall d :: lowered < d <= cut ==> !Safe(found, d)
        invariant lowered == r ==> forall k :: 0 <= k < i ==> !Inside(found[k], r)
      {
        var s := found[i];
        if s.gstart < lowered && s.gend > lowered {
          forall d | s.gstart < d <= lowered ensures !Safe(found, d) { assert Inside(found[i], d); }
          lowered := s.gstart;
        }
      }
      if lowered == r {
        break;
      }
      r := lowered;
    }
    GreatestSafeIs(found, cut, r);
  }

  // ----- replacing

  /** found is in order and its ranges are pairwise disjoint. */
  ghost predicate Ranges(found: seq<Span>) {
    Disjoint(found) && forall k :: 0 <= k < |found| ==> 0 <= found[k].start < found[k].end
  }

  /** b from prev on, with each of found[i..] replaced by its mark. Max matters only
      for ranges out of order, which Merge never yields; with it the function is
      total. */
  function ApplyFrom(b: string, found: seq<Span>, i: nat, prev: int): string
    requires i <= |found| && 0 <= prev <= |b|
    decreases |found| - i
  {
    if i == |found| || found[i].start >= |b| then b[prev..]
    else
      var piece := b[prev..Max(prev, found[i].start)] + found[i].mark;
      if found[i].end > |b| then piece else piece + ApplyFrom(b, found, i + 1, Max(prev, found[i].end))
  }

  function Apply(b: string, found: seq<Span>): string {
    ApplyFrom(b, found, 0, 0)
  }

  lemma Associate(x: string, y: string, z: string)
    ensures (x + y) + z == x + (y + z)
  {
  }

  /** The loop that replaces each of found in b. */
  method ApplySpans(b: string, found: seq<Span>) returns (out: string)
    requires Ranges(found)
    ensures out == Apply(b, found)
  {
    out := "";
    var prev := 0;
    for i := 0 to |found|
      invariant 0 <= prev <= |b| && (i < |found| ==> prev <= found[i].start)
      invariant Apply(b, found) == out + ApplyFrom(b, found, i, prev)
    {
      var s := found[i];
      if s.start >= |b| {
        break;
      }
      var piece := b[prev..s.start] + s.mark;
      if s.end > |b| {
        return out + piece;
      }
      Associate(out, piece, ApplyFrom(b, found, i + 1, s.end));
      out := out + piece;
      prev := s.end;
    }
    out := out + b[prev..];
  }

  /** Ranges already passed do not matter. */
  lemma {:induction false} ApplyPassed(x: string, s: seq<Span>, t: seq<Span>, j: nat, prev: int)
    requires j <= |t| && 0 <= prev <= |x|
    ensures ApplyFrom(x, s + t, |s| + j, prev) == ApplyFrom(x, t, j, prev)
    decreases |t| - j
  {
    if j < |t| {
      var h, to := t[j], Max(prev, t[j].start);
      assert (s + t)[|s| + j] == h;
      if h.start < |x| {
        if h.end <= |x| {
          ApplyPassed(x, s, t, j + 1, Max(prev, h.end));
        }
        ApplyAt(x, t, j, h, prev, to, After(x, t, j, prev));
        ApplyAt(x, s + t, |s| + j, h, prev, to, After(x, t, j, prev));
      }
    }
  }

  lemma {:induction false} ApplyShift(x: string, c: nat, t: seq<Span>, j: nat, prev: int)
    requires j <= |t| && 0 <= prev && c + prev <= |x|
    ensures ApplyFrom(x, ShiftAll(t, c), j, c + prev) == ApplyFrom(x[c..], t, j, prev)
    decreases |t| - j
  {
    if j < |t| && t[j].start < |x| - c {
      if t[j].end <= |x| - c {
        ApplyShift(x, c, t, j + 1, Max(prev, t[j].end));
      }
      ApplyShiftOne(x, c, ShiftAll(t, c), t, j, prev, After(x[c..], t, j, prev));
    } else {
      assert x[c..][prev..] == x[c + prev..];
    }
  }

  /** What follows the range at j once it is replaced. */
  function After(b: string, found: seq<Span>, j: nat, prev: int): string
    requires j < |found| && 0 <= prev <= |b|
  {
    if found[j].end > |b| then "" else ApplyFrom(b, found, j + 1, Max(prev, found[j].end))
  }

  lemma ApplyAt(b: string, found: seq<Span>, j: nat, h: Span, prev: int, to: int, rest: string)
    requires j < |found| && h == found[j] && 0 <= prev <= |b| && h.start < |b| && to == Max(prev, h.start)
    requires rest == After(b, found, j, prev)
    ensures ApplyFrom(b, found, j, prev) == (b[prev..to] + h.mark) + rest
  {
  }

  lemma ApplyShiftOne(x: string, c: nat, u: seq<Span>, t: seq<Span>, j: nat, prev: int, rest: string)
    requires j < |t| == |u| && u[j] == Shift(t[j], c)
    requires 0 <= prev && c + prev <= |x| && t[j].start < |x| - c
    requires rest == After(x[c..], t, j, prev) && rest == After(x, u, j, c + prev)
    ensures ApplyFrom(x, u, j, c + prev) == ApplyFrom(x[c..], t, j, prev)
  {
    var to, h := Max(prev, t[j].start), u[j];
    SliceOfSuffix(x, c, prev, to);
    ApplyAt(x[c..], t, j, t[j], prev, to, rest);
    ApplyAt(x, u, j, h, c + prev, c + to, rest);
  }

  lemma SliceOfSuffix(x: string, c: nat, lo: int, hi: int)
    requires 0 <= lo <= hi && c + hi <= |x|
    ensures x[c..][lo..hi] == x[c + lo..c + hi]
  {
  }

  /** What comes before the first range is passed on as it is. */
  lemma ApplyJoint(x: string, c: nat, t: seq<Span>, prev: int)
    requires 0 <= prev <= c <= |x| && (t != [] ==> 0 <= t[0].start < t[0].end)
    ensures ApplyFrom(x, ShiftAll(t, c), 0, prev) == x[prev..c] + Apply(x[c..], t)
  {
    var b := x[c..];
    if t == [] || t[0].start >= |b| {
      assert x[prev..] == x[prev..c] + b[0..];
    } else {
      ApplyJointOne(x, c, t, prev);
    }
  }

  lemma ApplyJointOne(x: string, c: nat, t: seq<Span>, prev: int)
    requires 0 <= prev <= c <= |x| && t != [] && 0 <= t[0].start < t[0].end && t[0].start < |x| - c
    ensures ApplyFrom(x, ShiftAll(t, c), 0, prev) == x[prev..c] + Apply(x[c..], t)
  {
    var b, u, h := x[c..], ShiftAll(t, c), Shift(t[0], c);
    var before, lead := x[prev..c], b[0..t[0].start];
    assert x[prev..h.start] == before + lead;
    ApplyAt(b, t, 0, t[0], 0, t[0].start, After(b, t, 0, 0));
    ApplyAt(x, u, 0, h, prev, h.start, After(x, u, 0, prev));
    if t[0].end <= |b| {
      ApplyShift(x, c, t, 1, t[0].end);
    }
    Associate(before, lead, h.mark);
    Associate(before, lead + h.mark, After(b, t, 0, 0));
  }

  /** Spans before c and spans from c on are replaced independently. */
  lemma {:induction false} ApplySplitFrom(x: string, c: nat, s: seq<Span>, t: seq<Span>, all: seq<Span>, i: nat,
                                          prev: int)
    requires i <= |s| && 0 <= prev <= c <= |x| && all == s + ShiftAll(t, c)
    requires forall k :: 0 <= k < |s| ==> s[k].start < s[k].end <= c
    requires t != [] ==> 0 <= t[0].start < t[0].end
    ensures ApplyFrom(x, all, i, prev) == ApplyFrom(x[..c], s, i, prev) + Apply(x[c..], t)
    decreases |s| - i
  {
    if i == |s| {
      ApplyPassed(x, s, ShiftAll(t, c), 0, prev);
      ApplyJoint(x, c, t, prev);
      assert x[..c][prev..] == x[prev..c];
    } else {
      var to := Max(prev, s[i].start);
      assert x[prev..to] == x[..c][prev..to];
      ApplySplitFrom(x, c, s, t, all, i + 1, Max(prev, s[i].end));
      Associate(x[prev..to] + s[i].mark, ApplyFrom(x[..c], s, i + 1, Max(prev, s[i].end)), Apply(x[c..], t));
    }
  }

  lemma ApplySplit(x: string, c: nat, s: seq<Span>, t: seq<Span>)
    requires c <= |x|
    requires forall k :: 0 <= k < |s| ==> s[k].start < s[k].end <= c
    requires t != [] ==> 0 <= t[0].start < t[0].end
    ensures Apply(x, s + ShiftAll(t, c)) == Apply(x[..c], s) + Apply(x[c..], t)
  {
    ApplySplitFrom(x, c, s, t, s + ShiftAll(t, c), 0, 0);
  }

  /** Spans that start past the end of b change nothing. */
  lemma {:induction false} ApplyIgnoresFrom(b: string, s: seq<Span>, t: seq<Span>, i: nat, prev: int)
    requires i <= |s| && 0 <= prev <= |b|
    requires forall k :: 0 <= k < |s| ==> s[k].end <= |b|
    requires forall k :: 0 <= k < |t| ==> |b| <= t[k].start
    ensures ApplyFrom(b, s + t, i, prev) == ApplyFrom(b, s, i, prev)
    decreases |s| - i
  {
    if i < |s| {
      assert (s + t)[i] == s[i];
      ApplyIgnoresFrom(b, s, t, i + 1, Max(prev, s[i].end));
    } else if t != [] {
      assert (s + t)[i] == t[0] && |b| <= t[0].start;
    }
  }
}
