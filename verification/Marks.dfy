/** What is put in a secret's place: each replaced range is a run of overlapping matches,
    and gets the marker of the longest value found where it starts. */
module Marks {
  import B = Boundaries
  import Scan
  import opened Spans
  import opened Literals
  import opened Redaction
  import opened Coverage
  import opened StreamCoverage

  // ----- which bytes are replaced

  /** Some match of a seeded value holds the byte at p. */
  ghost predicate InMatch(secrets: seq<Secret>, b: string, p: int)
    requires Usable(secrets)
  {
    exists s, m :: s in secrets && m in Scan.Matches(b, s.value) && m <= p < m + |s.value|
  }

  /** Exactly the bytes of matches are replaced: nothing else is. */
  lemma ReplacedAreMatches(secrets: seq<Secret>, b: string, p: int)
    requires Usable(secrets)
    ensures Covers(SpansOf(secrets, b), p) <==> InMatch(secrets, b, p)
  {
    var sorted := SortOfRaw(secrets, b);
    MergeSound(sorted);
    if k :| 0 <= k < |sorted| && sorted[k].start <= p < sorted[k].end {
      assert sorted[k] in sorted;
      RawIs(secrets, b, sorted[k]);
    }
    if s, m :| s in secrets && m in Scan.Matches(b, s.value) && m <= p < m + |s.value| {
      RawIs(secrets, b, Hit(s, m));
      assert Hit(s, m) in sorted;
    }
  }

  /** The sorted matches that a buffer's ranges are the merge of. */
  lemma SortOfRaw(secrets: seq<Secret>, b: string) returns (sorted: seq<Span>)
    requires Usable(secrets)
    ensures Sorts(sorted, Raw(secrets, b)) && SpansOf(secrets, b) == Merge(sorted)
    ensures AllWellFormed(sorted) && SortedByStart(sorted)
  {
    RawIsComparable(secrets, b);
    sorted := SortOf(Raw(secrets, b));
    assert forall i :: 0 <= i < |sorted| ==> sorted[i] in sorted;
    forall x | x in sorted ensures WellFormed(x) {
      RawFits(secrets, b, x);
    }
  }

  // ----- and by what

  /** At j, s has the first of its spans that start where it does, and r is marked as it. */
  ghost predicate Leads(s: seq<Span>, j: int, r: Span) {
    0 <= j < |s| && s[j].start == r.start && s[j].mark == r.mark && s[j].end <= r.end
    && forall k :: 0 <= k < j ==> s[k].start < r.start
  }

  lemma {:induction false} MergedLeads(last: Span, rest: seq<Span>, i: nat) returns (j: int)
    requires WellFormed(last) && AllWellFormed(rest) && SortedByStart(rest)
    requires rest != [] ==> last.start <= rest[0].start
    requires 0 < i < |MergeFrom(last, rest)|
    ensures Leads(rest, j, MergeFrom(last, rest)[i]) && last.end <= rest[j].start
    decreases |rest|
  {
    var next := Next(last, rest);
    if rest[0].start < last.end {
      j := MergedLeads(next, rest[1..], i);
      j := j + 1;
    } else if i == 1 {
      j := 0;
      FirstGrows(next, rest[1..]);
    } else {
      j := MergedLeads(next, rest[1..], i - 1);
      j := j + 1;
    }
  }

  lemma {:induction false} FirstGrows(last: Span, rest: seq<Span>)
    ensures MergeFrom(last, rest)[0].end >= last.end
    decreases |rest|
  {
    if rest != [] && rest[0].start < last.end {
      FirstGrows(Join(last, rest[0]), rest[1..]);
    }
  }

  lemma MergeLeads(s: seq<Span>, i: nat) returns (j: int)
    requires AllWellFormed(s) && SortedByStart(s) && i < |Merge(s)|
    ensures Leads(s, j, Merge(s)[i])
  {
    if i == 0 {
      j := 0;
      FirstGrows(s[0], s[1..]);
    } else {
      j := MergedLeads(s[0], s[1..], i);
      j := j + 1;
    }
  }

  /** The range x is marked for s, which is found where it starts, as nothing longer is. */
  ghost predicate MarkedFor(secrets: seq<Secret>, b: string, x: Span, s: Secret)
    requires Usable(secrets)
  {
    s in secrets && x.mark == s.mark && x.start in Scan.Matches(b, s.value) && x.start + |s.value| <= x.end
    && forall t :: t in secrets && x.start in Scan.Matches(b, t.value) ==> |t.value| <= |s.value|
  }

  /** Every range of a buffer starts with a match of a seeded value and is replaced by the
      marker of the longest one that does, and by nothing else. */
  lemma MarkIsTheLongest(secrets: seq<Secret>, b: string, k: nat) returns (s: Secret)
    requires Usable(secrets) && k < |SpansOf(secrets, b)|
    ensures MarkedFor(secrets, b, SpansOf(secrets, b)[k], s)
    ensures Scan.OccursAt(b, s.value, SpansOf(secrets, b)[k].start)
  {
    var sorted := SortOfRaw(secrets, b);
    var x := SpansOf(secrets, b)[k];
    var j := MergeLeads(sorted, k);
    RawIs(secrets, b, sorted[j]);
    assert sorted[j] in sorted;
    s :| s in secrets && sorted[j].start in Scan.Matches(b, s.value) && sorted[j] == Hit(s, sorted[j].start);
    forall t | t in secrets && x.start in Scan.Matches(b, t.value) ensures |t.value| <= |s.value| {
      RawIs(secrets, b, Hit(t, x.start));
      var i :| 0 <= i < |sorted| && sorted[i] == Hit(t, x.start);
    }
  }

  // ----- one value

  /** b with each copy of v that a left-to-right search finds replaced by mark. */
  function ReplaceAll(b: string, v: string, mark: string): string
    requires v != ""
    decreases |b|
  {
    var i := Scan.First(Scan.Occurrences(b, v), 0, |b| + 1);
    if i == -1 then b
    else
      assert Scan.OccursAt(b, v, i);
      b[..i] + mark + ReplaceAll(b[i + |v|..], v, mark)
  }

  lemma AllOfNothing(s: Secret, b: string)
    requires s.value != "" && Scan.First(Scan.Occurrences(b, s.value), 0, |b| + 1) == -1
    ensures Redact([s], b) == b
  {
    var at := Scan.Occurrences(b, s.value);
    forall j ensures !Scan.OccursAt(b, s.value, j) {
      assert j in at <==> Scan.OccursAt(b, s.value, j);
    }
    AbsentIsUntouched([s], b);
  }

  /** The search for v takes i, and nothing that begins before the end of that. */
  ghost predicate TakenFirst(b: string, v: string, i: int)
    requires v != ""
  {
    i in Scan.Matches(b, v) && 0 <= i && i + |v| <= |b|
    && forall m :: m in Scan.Matches(b, v) ==> m == i || i + |v| <= m
  }

  lemma FirstIsTaken(b: string, v: string, i: int)
    requires v != "" && i == Scan.First(Scan.Occurrences(b, v), 0, |b| + 1) != -1
    ensures TakenFirst(b, v, i)
  {
    var at, w, n := Scan.Occurrences(b, v), |v|, |b| + 1;
    assert Scan.OccursAt(b, v, i);
    Scan.GreedyNext(at, w, 0, n, i, Scan.Matches(b, v), Scan.Greedy(at, w, i + w, n));
  }

  lemma SplitAtTaken(s: Secret, b: string, i: int, front: string, rest: string)
    requires s.value != "" && 0 <= i && i + |s.value| <= |b|
    requires front == b[..i + |s.value|] && rest == b[i + |s.value|..]
    ensures TakenFirst(b, s.value, i) ==> Redact([s], b) == Redact([s], front) + Redact([s], rest)
  {
    if TakenFirst(b, s.value, i) {
      assert !Scan.Straddled(Scan.Matches(b, s.value), |s.value|, i + |s.value|);
      RedactSplit([s], b, i + |s.value|);
    }
  }

  lemma OnlyTaken(b: string, v: string, i: int, front: string)
    requires v != "" && 0 <= i && i + |v| <= |b| && front == b[..i + |v|]
    ensures TakenFirst(b, v, i) ==> Scan.Matches(front, v) == {i}
  {
    if TakenFirst(b, v, i) {
      Scan.MatchesOfPrefix(b, i + |v|, v);
      forall m ensures m in Scan.Matches(front, v) <==> m == i {
      }
    }
  }

  /** The first match, and what comes before and after it. */
  lemma FirstOfAll(s: Secret, b: string, i: int, lead: string, rest: string)
    requires s.value != "" && TakenFirst(b, s.value, i) && lead == b[..i] && rest == b[i + |s.value|..]
    ensures Redact([s], b) == lead + s.mark + Redact([s], rest)
  {
    var front := b[..i + |s.value|];
    SplitAtTaken(s, b, i, front, rest);
    OnlyTaken(b, s.value, i, front);
    assert lead == front[..i];
    OneMatchRedacts(s, front, i, lead);
  }

  lemma ReplaceFirst(b: string, v: string, mark: string, i: int, lead: string, rest: string)
    requires v != "" && i == Scan.First(Scan.Occurrences(b, v), 0, |b| + 1) != -1
    requires 0 <= i && i + |v| <= |b| && lead == b[..i] && rest == b[i + |v|..]
    ensures ReplaceAll(b, v, mark) == lead + mark + ReplaceAll(rest, v, mark)
  {
  }

  /** Seeded with one value, a buffer redacts to itself with each copy replaced by the
      value's marker. */
  lemma {:induction false} OneSecretIsReplaceAll(s: Secret, b: string)
    requires s.value != ""
    ensures Redact([s], b) == ReplaceAll(b, s.value, s.mark)
    decreases |b|
  {
    var i := Scan.First(Scan.Occurrences(b, s.value), 0, |b| + 1);
    if i == -1 {
      AllOfNothing(s, b);
    } else {
      FirstIsTaken(b, s.value, i);
      var lead, rest := b[..i], b[i + |s.value|..];
      FirstOfAll(s, b, i, lead, rest);
      OneSecretIsReplaceAll(s, rest);
      ReplaceFirst(b, s.value, s.mark, i, lead, rest);
    }
  }

  lemma OneMatchRedacts(s: Secret, b: string, i: int, lead: string)
    requires s.value != "" && Scan.Matches(b, s.value) == {i} && i + |s.value| == |b|
    requires 0 <= i && lead == b[..i]
    ensures Redact([s], b) == lead + s.mark
  {
    RawIsComparable([s], b);
    var x := Hit(s, i);
    forall y ensures y in Raw([s], b) <==> y == x {
      RawIs([s], b, y);
    }
    SortIs(Raw([s], b), [x]);
    assert SpansOf([s], b) == [x];
    OneRangeAtEnd(b, x, lead);
  }

  lemma OneRangeAtEnd(b: string, x: Span, lead: string)
    requires 0 <= x.start < x.end == |b| && lead == b[..x.start]
    ensures Apply(b, [x]) == lead + x.mark
  {
    assert b[0..x.start] == lead && b[|b|..] == "";
    assert Apply(b, [x]) == (b[0..x.start] + x.mark) + ApplyFrom(b, [x], 1, |b|);
  }

  /** A value on its own redacts to its marker. */
  lemma ValueRedactsToMark(s: Secret)
    requires s.value != ""
    ensures Redact([s], s.value) == s.mark
  {
    var v := s.value;
    assert v[0..|v|] == v && Scan.OccursAt(v, v, 0);
    OneSecretIsReplaceAll(s, v);
    assert v[..0] == "" && v[|v|..] == "";
    var at := Scan.Occurrences("", v);
    assert Scan.First(at, 0, 1) == -1 by {
      assert !Scan.OccursAt("", v, 0);
    }
    assert "" + s.mark + "" == s.mark;
  }

  // ----- a text

  /** A key block, from its BEGIN to its END or to the end of the text, redacts to the key
      marker whatever it holds. */
  lemma KeyBlockRedactsToMark(r: Redactor, block: string, e: int)
    requires Valid(r) && 0 < e <= |block| && B.Find(r.begin, block) == B.Somewhere(0, e)
    requires BlockEnd(r, block, e) == |block|
    ensures Whole(r, block, false) == r.keyMark
  {
    AfterBlock(r, block, e);
    EmptyRedacts(r.secrets);
    assert block[..0] == "" && "" + r.keyMark + "" == r.keyMark;
  }

  /** A text with no key in it and no seeded value goes through as it is. */
  lemma CleanTextIsUntouched(r: Redactor, text: string)
    requires Valid(r) && (forall s, e :: !B.At(r.begin, text, s, e))
    requires forall s, i :: s in r.secrets ==> !Scan.OccursAt(text, s.value, i)
    ensures Whole(r, text, false) == text
  {
    B.FindIsNowhere(r.begin, text);
    AbsentIsUntouched(r.secrets, text);
  }

  // ----- a stream

  /** What can stand for a replaced range: the key marker, a seeded value's, or nothing for
      bytes of a key block whose marker has gone out already. */
  ghost predicate KnownMark(r: Redactor, mark: string) {
    mark == "" || mark == r.keyMark || exists s :: s in r.secrets && mark == s.mark
  }

  ghost predicate KnownMarks(r: Redactor, found: seq<Span>) {
    forall i :: 0 <= i < |found| ==> KnownMark(r, found[i].mark)
  }

  lemma LiteralMarks(r: Redactor, b: string)
    requires Valid(r)
    ensures KnownMarks(r, SpansOf(r.secrets, b))
  {
    forall i | 0 <= i < |SpansOf(r.secrets, b)| ensures KnownMark(r, SpansOf(r.secrets, b)[i].mark) {
      var s := MarkIsTheLongest(r.secrets, b, i);
    }
  }

  lemma ThenMarks(r: Redactor, first: seq<Span>, c: int, later: seq<Span>)
    requires KnownMarks(r, first) && KnownMarks(r, later)
    ensures KnownMarks(r, Then(first, c, later))
  {
  }

  lemma HeadMarks(r: Redactor, text: string, s: int, c: int)
    requires Valid(r) && 0 <= s <= c <= |text|
    ensures KnownMarks(r, Head(r, text, s, c))
  {
    LiteralMarks(r, text[..s]);
  }

  lemma {:induction false} DrainMarks(r: Redactor, buf: string, inKey: bool)
    requires Valid(r)
    ensures KnownMarks(r, DrainReplaced(r, buf, inKey))
    decreases |buf|
  {
    match B.Find(if inKey then r.end else r.begin, buf)
    case Nowhere =>
    case Somewhere(s, e) =>
      B.FindBounds(if inKey then r.end else r.begin, buf);
      DrainMarks(r, buf[e..], !inKey);
      if !inKey {
        HeadMarks(r, buf, s, e);
      }
      ThenMarks(r, if inKey then Gap(e) else Head(r, buf, s, e), e, DrainReplaced(r, buf[e..], !inKey));
  }

  lemma PassMarks(r: Redactor, buf: string, inKey: bool, final: bool)
    requires Valid(r)
    ensures KnownMarks(r, PassReplaced(r, buf, inKey, final))
  {
    var d := Drain(r, buf, inKey);
    DrainMarks(r, buf, inKey);
    LiteralMarks(r, d.buf[..FlushPoint(r, d.buf, final)]);
    ThenMarks(r, DrainReplaced(r, buf, inKey), |buf| - |d.buf|, LeftReplaced(r, d, final));
  }

  /** Whatever goes through a stream, nothing takes the place of what is replaced but the
      key marker and the markers of seeded values. */
  lemma {:induction false} StreamMarks(r: Redactor, chunks: seq<string>, buf: string, inKey: bool)
    requires Valid(r)
    ensures KnownMarks(r, RunReplaced(r, chunks, buf, inKey))
    decreases |chunks|
  {
    if chunks == [] {
      PassMarks(r, buf, inKey, true);
    } else if chunks[0] == "" {
      StreamMarks(r, chunks[1..], buf, inKey);
    } else {
      var now := buf + chunks[0];
      var p := Process(r, now, inKey, false);
      PassMarks(r, now, inKey, false);
      StreamMarks(r, chunks[1..], p.buf, p.inKey);
      ThenMarks(r, PassReplaced(r, now, inKey, false), |now| - |p.buf|, RunReplaced(r, chunks[1..], p.buf, p.inKey));
    }
  }
}
