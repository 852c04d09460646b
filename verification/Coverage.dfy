/** What a redacted text says about the text: the streaming state machine is one
    replacement of disjoint ranges, and those ranges leave no secret whole. And
    where the promise ends: at the cap on the pending buffer. */
module Coverage {
  import B = Boundaries
  import Scan
  import opened Spans
  import opened Literals
  import opened Redaction

  lemma OneRange(b: string, mark: string)
    requires b != ""
    ensures Apply(b, [Span(0, |b|, 0, |b|, mark)]) == mark
  {
    var s := [Span(0, |b|, 0, |b|, mark)];
    assert ApplyFrom(b, s, 1, |b|) == "";
    assert b[0..0] + mark == mark && mark + "" == mark;
  }

  /** The first key block of text and what precedes it. */
  ghost function Head(r: Redactor, text: string, s: int, c: int): seq<Span>
    requires Valid(r) && 0 <= s <= c <= |text|
  {
    SpansOf(r.secrets, text[..s]) + ShiftAll([Span(0, c - s, 0, c - s, r.keyMark)], s)
  }

  lemma HeadSound(r: Redactor, text: string, s: int, c: int)
    requires Valid(r) && 0 <= s < c <= |text|
    ensures Ranges(Head(r, text, s, c)) && FitIn(Head(r, text, s, c), c)
    ensures Apply(text[..c], Head(r, text, s, c)) == Redact(r.secrets, text[..s]) + r.keyMark
  {
    var front, block := SpansOf(r.secrets, text[..s]), [Span(0, c - s, 0, c - s, r.keyMark)];
    SpansOfSound(r.secrets, text[..s]);
    HeadFits(front, s, c, r.keyMark, Head(r, text, s, c));
    assert text[..c][..s] == text[..s];
    HeadApplies(text[..c], s, front, block, r.keyMark);
  }

  lemma HeadFits(front: seq<Span>, s: int, c: int, mark: string, found: seq<Span>)
    requires 0 <= s < c && Ranges(front) && FitIn(front, s)
    requires found == front + ShiftAll([Span(0, c - s, 0, c - s, mark)], s)
    ensures Ranges(found) && FitIn(found, c)
  {
    RangesJoin(front, [Span(0, c - s, 0, c - s, mark)], s);
  }

  lemma HeadApplies(text: string, s: int, front: seq<Span>, block: seq<Span>, mark: string)
    requires 0 <= s < |text| && FitIn(front, s) && block == [Span(0, |text| - s, 0, |text| - s, mark)]
    ensures Apply(text, front + ShiftAll(block, s)) == Apply(text[..s], front) + mark
  {
    ApplySplit(text, s, front, block);
    OneRange(text[s..], mark);
  }

  lemma RangesJoin(s: seq<Span>, t: seq<Span>, c: int)
    requires Ranges(s) && Ranges(t) && FitIn(s, c) && 0 <= c
    ensures Ranges(s + ShiftAll(t, c))
  {
    var u := ShiftAll(t, c);
    forall k | 0 <= k < |u| ensures c <= u[k].start < u[k].end {
      assert 0 <= t[k].start;
    }
    forall i, j | 0 <= i < j < |u| ensures u[i].end <= u[j].start {
      assert t[i].end <= t[j].start;
    }
  }

  /** What Whole makes of the text after a BEGIN is what it makes of the text after
      the whole block. */
  lemma AfterBlock(r: Redactor, text: string, e: int)
    requires Valid(r) && 0 <= e <= |text|
    ensures Whole(r, text[e..], true) ==
            if BlockEnd(r, text, e) == |text| then "" else Whole(r, text[BlockEnd(r, text, e)..], false)
  {
    match B.Find(r.end, text[e..])
    case Nowhere =>
    case Somewhere(_, f) =>
      B.FindBounds(r.end, text[e..]);
      assert text[e..][f..] == text[e + f..];
      if e + f == |text| {
        assert text[e + f..] == "";
        NothingRedacts(r);
      }
  }

  lemma NothingRedacts(r: Redactor)
    requires Valid(r)
    ensures Whole(r, "", false) == ""
  {
    if B.Find(r.begin, "").Somewhere? {
      B.FindBounds(r.begin, "");
    }
    EmptyRedacts(r.secrets);
  }

  lemma HeadAndRest(r: Redactor, text: string, s: int, c: int, rest: seq<Span>, tail: string)
    requires Valid(r) && 0 <= s < c <= |text|
    requires Ranges(rest) && FitIn(rest, |text| - c) && tail == Apply(text[c..], rest)
    ensures var all := Head(r, text, s, c) + ShiftAll(rest, c);
            Apply(text, all) == Redact(r.secrets, text[..s]) + r.keyMark + tail
            && Ranges(all) && FitIn(all, |text|)
  {
    var head := Head(r, text, s, c);
    HeadSound(r, text, s, c);
    RangesJoin(head, rest, c);
    ApplySplit(text, c, head, rest);
  }

  /** Redacting a text, key blocks and all, is replacing the ranges Replaced names:
      they are in order, disjoint and inside the text. */
  lemma {:induction false} WholeIsReplacement(r: Redactor, text: string)
    requires Valid(r)
    ensures Whole(r, text, false) == Apply(text, Replaced(r, text))
    ensures Ranges(Replaced(r, text)) && FitIn(Replaced(r, text), |text|)
    decreases |text|
  {
    match B.Find(r.begin, text)
    case Nowhere =>
      SpansOfSound(r.secrets, text);
    case Somewhere(s, e) =>
      B.FindBounds(r.begin, text);
      var c := BlockEnd(r, text, e);
      var rest := if c == |text| then [] else Replaced(r, text[c..]);
      if c < |text| {
        WholeIsReplacement(r, text[c..]);
      } else {
        NothingLeft(text[c..]);
      }
      AfterBlock(r, text, e);
      HeadAndRest(r, text, s, c, rest, Whole(r, text[e..], true));
  }

  lemma NothingLeft(tail: string)
    requires tail == ""
    ensures Apply(tail, []) == "" && Ranges([]) && FitIn([], 0)
  {
  }

  lemma CoveredOnTheLeft(s: seq<Span>, t: seq<Span>, p: int)
    ensures Covers(s, p) ==> Covers(s + t, p)
  {
    if k :| 0 <= k < |s| && s[k].start <= p < s[k].end {
      assert (s + t)[k] == s[k];
    }
  }

  lemma CoveredOnTheRight(s: seq<Span>, t: seq<Span>, c: int, p: int)
    ensures Covers(t, p) ==> Covers(s + ShiftAll(t, c), p + c)
  {
    if k :| 0 <= k < |t| && t[k].start <= p < t[k].end {
      assert (s + ShiftAll(t, c))[|s| + k] == Shift(t[k], c);
    }
  }

  /** p is in [i, j) and in a replaced range. */
  ghost predicate Hidden(r: Redactor, text: string, i: int, j: int)
    requires Valid(r)
  {
    exists p :: i <= p < j && Covers(Replaced(r, text), p)
  }

  lemma ReplacedIs(r: Redactor, text: string, s: int, e: int)
    requires Valid(r) && 0 <= s < e <= |text| && B.Find(r.begin, text) == B.Somewhere(s, e)
    ensures var c := BlockEnd(r, text, e);
            Replaced(r, text) == Head(r, text, s, c) + ShiftAll(if c == |text| then [] else Replaced(r, text[c..]), c)
  {
  }

  /** A value that begins before the first key block ends has a byte in a range of the
      block, or of what precedes it. */
  lemma HeadHides(r: Redactor, text: string, s: int, c: int, secret: Secret, i: int) returns (p: int)
    requires Valid(r) && secret in r.secrets && Scan.OccursAt(text, secret.value, i) && 0 <= s < c <= |text| && i < c
    ensures i <= p < i + |secret.value| && Covers(Head(r, text, s, c), p)
  {
    var front, block := SpansOf(r.secrets, text[..s]), [Span(0, c - s, 0, c - s, r.keyMark)];
    if i + |secret.value| <= s {
      p := i;
      Scan.OccursInPrefix(text, s, secret.value, i);
      OccurrenceIsCovered(r.secrets, text[..s], secret, i);
      CoveredOnTheLeft(front, ShiftAll(block, s), p);
    } else {
      p := Max(i, s);
      assert block[0].start <= p - s < block[0].end;
      CoveredOnTheRight(front, block, s, p - s);
    }
  }

  /** found is what is replaced of text, and p a byte of the value in a range of it. */
  lemma {:induction false} HiddenAt(r: Redactor, text: string, found: seq<Span>, secret: Secret, i: int)
    returns (p: int)
    requires Valid(r) && secret in r.secrets && Scan.OccursAt(text, secret.value, i) && found == Replaced(r, text)
    ensures i <= p < i + |secret.value| && Covers(found, p)
    decreases |text|
  {
    match B.Find(r.begin, text)
    case Nowhere =>
      p := i;
      OccurrenceIsCovered(r.secrets, text, secret, i);
    case Somewhere(s, e) =>
      B.FindBounds(r.begin, text);
      var c := BlockEnd(r, text, e);
      var head, rest := Head(r, text, s, c), if c == |text| then [] else Replaced(r, text[c..]);
      ReplacedIs(r, text, s, e);
      if i < c {
        p := HeadHides(r, text, s, c, secret, i);
        CoveredOnTheLeft(head, ShiftAll(rest, c), p);
      } else {
        Scan.OccursInSuffix(text, c, secret.value, i - c);
        p := HiddenAt(r, text[c..], rest, secret, i - c);
        CoveredOnTheRight(head, rest, c, p);
        p := p + c;
      }
  }

  /** Wherever a seeded value occurs in the text, some byte of it is in a replaced
      range: no run that is passed on unreplaced holds a whole secret. */
  lemma NoSecretIsLeftWhole(r: Redactor, text: string, secret: Secret, i: int)
    requires Valid(r) && secret in r.secrets && Scan.OccursAt(text, secret.value, i)
    ensures Hidden(r, text, i, i + |secret.value|)
  {
    var p := HiddenAt(r, text, Replaced(r, text), secret, i);
  }

  // ----- the cap is where chunking starts to matter

  ghost predicate Plain(b: string) {
    forall i :: 0 <= i < |b| ==> b[i] != '-'
  }

  lemma PlainHasNoBoundary(k: B.Boundary, b: string)
    requires B.Valid(k) && Plain(b)
    ensures B.Find(k, b) == B.Nowhere && forall s, e :: !B.At(k, b, s, e)
  {
    forall s, e ensures !B.At(k, b, s, e) {
      if B.At(k, b, s, e) {
        B.AtIsFramed(k, b, s, e);
      }
    }
    B.FindIsNowhere(k, b);
  }

  lemma AbsentIsUntouched(secrets: seq<Secret>, b: string)
    requires Usable(secrets) && forall s, i :: s in secrets ==> !Scan.OccursAt(b, s.value, i)
    ensures Redact(secrets, b) == b
  {
    RawIsComparable(secrets, b);
    assert Raw(secrets, b) == {};
    SortIs({}, []);
    assert b[0..] == b;
  }

  /** A secret that occurs leaves its mark in the redacted text. */
  lemma PresentIsMarked(s: Secret, b: string, i: int)
    requires |s.value| > 0 && |s.mark| > 0 && Scan.OccursAt(b, s.value, i) && s.mark[0] !in b
    ensures Redact([s], b) != b
  {
    var secrets := [s];
    RawIsComparable(secrets, b);
    Scan.EveryOccurrenceIsHit(b, s.value, i);
    var m :| m in Scan.Matches(b, s.value) && m <= i < m + |s.value|;
    RawIs(secrets, b, Hit(s, m));
    var sorted := SortOf(Raw(secrets, b));
    assert Hit(s, m) in sorted;
    assert sorted[0] in sorted;
    RawIs(secrets, b, sorted[0]);
    SpansOfSound(secrets, b);
    MarkShows(b, SpansOf(secrets, b), s.mark[0]);
  }

  lemma MarkShows(b: string, found: seq<Span>, c: char)
    requires found != [] && Ranges(found) && FitIn(found, |b|)
    requires |found[0].mark| > 0 && found[0].mark[0] == c && c !in b
    ensures Apply(b, found) != b
  {
    var first := found[0];
    var piece := b[0..first.start] + first.mark;
    assert piece[first.start] == c;
    assert Apply(b, found)[first.start] == c;
    assert b[first.start] in b;
  }

  /** A secret of four different letters, and a blank text of n bytes that holds it
      across the point where the last MIN_OVERLAP bytes begin. */
  function Astride(n: nat): (x: string)
    requires n > 2 * MIN_OVERLAP
    ensures |x| == n
    ensures forall i :: 0 <= i < n ==> x[i] != '-' && x[i] != '!'
    ensures forall i :: 0 <= i < n ==> (x[i] == 'a' <==> i == n - 130) && (x[i] == 'd' <==> i == n - 127)
    ensures x[n - 130..n - 126] == ['a', 'b', 'c', 'd']
  {
    seq(n, i requires 0 <= i < n =>
      if i == n - 130 then 'a' else if i == n - 129 then 'b'
      else if i == n - 128 then 'c' else if i == n - 127 then 'd' else ' ')
  }

  lemma FirstAndLastLetter(b: string, v: string, i: int)
    requires |v| == 4
    ensures Scan.OccursAt(b, v, i) ==> b[i] == v[0] && b[i + 3] == v[3]
  {
    if Scan.OccursAt(b, v, i) {
      assert b[i..i + 4][0] == b[i] && b[i..i + 4][3] == b[i + 3];
    }
  }

  lemma HalvesHoldNoSecret(n: nat, v: string, i: int)
    requires n > 2 * MIN_OVERLAP && v == ['a', 'b', 'c', 'd']
    ensures !Scan.OccursAt(Astride(n)[..n - MIN_OVERLAP], v, i)
    ensures !Scan.OccursAt(Astride(n)[n - MIN_OVERLAP..], v, i)
  {
    FirstAndLastLetter(Astride(n)[..n - MIN_OVERLAP], v, i);
    FirstAndLastLetter(Astride(n)[n - MIN_OVERLAP..], v, i);
  }

  /** A text written at once. */
  lemma RunOfOne(r: Redactor, x: string, p: Pass)
    requires Valid(r) && x != "" && p == Process(r, x, false, false)
    ensures Run(r, [x], "", false) == p.out + Process(r, p.buf, p.inKey, true).out
  {
    assert "" + x == x && [x][1..] == [];
  }

  /** One write of a text at the cap forwards it in two parts, each redacted alone. */
  lemma CapSplits(r: Redactor, x: string, c: nat)
    requires Valid(r) && Plain(x) && |x| >= MAX_PENDING && r.overlap == MIN_OVERLAP && c == |x| - MIN_OVERLAP
    ensures Run(r, [x], "", false) == Redact(r.secrets, x[..c]) + Redact(r.secrets, x[c..])
  {
    FirstPassAtCap(r, x, c);
    LastPassOfPlain(r, x[c..]);
    RunOfOne(r, x, Pass(Redact(r.secrets, x[..c]), x[c..], false));
  }

  lemma FirstPassAtCap(r: Redactor, x: string, c: nat)
    requires Valid(r) && Plain(x) && |x| >= MAX_PENDING && r.overlap == MIN_OVERLAP && c == |x| - MIN_OVERLAP
    ensures Process(r, x, false, false) == Pass(Redact(r.secrets, x[..c]), x[c..], false)
  {
    PlainHasNoBoundary(r.begin, x);
    assert "" + Redact(r.secrets, x[..c]) == Redact(r.secrets, x[..c]);
  }

  lemma LastPassOfPlain(r: Redactor, b: string)
    requires Valid(r) && Plain(b)
    ensures Process(r, b, false, true).out == Redact(r.secrets, b)
  {
    PlainHasNoBoundary(r.begin, b);
    assert b[..|b|] == b && "" + Redact(r.secrets, b) == Redact(r.secrets, b);
  }

  ghost predicate Faithful(r: Redactor, chunks: seq<string>)
    requires Valid(r)
  {
    Run(r, chunks, "", false) == Whole(r, Concat(chunks), false)
  }

  ghost predicate AlwaysFaithful(n: nat, begin: B.Boundary, end: B.Boundary) {
    forall r, chunks ::
      Valid(r) && r.begin == begin && r.end == end && |Concat(chunks)| == n && Bounded(r, Concat(chunks))
      ==> Faithful(r, chunks)
  }

  lemma HalvesAreUntouched(n: nat, s: Secret, x: string, c: int)
    requires n >= MAX_PENDING && s.value == ['a', 'b', 'c', 'd'] && x == Astride(n) && c == n - MIN_OVERLAP
    ensures Redact([s], x[..c]) == x[..c] && Redact([s], x[c..]) == x[c..]
  {
    forall i ensures !Scan.OccursAt(x[..c], s.value, i) && !Scan.OccursAt(x[c..], s.value, i) {
      HalvesHoldNoSecret(n, s.value, i);
    }
    AbsentIsUntouched([s], x[..c]);
    AbsentIsUntouched([s], x[c..]);
  }

  lemma AstridePassesUnredacted(n: nat, s: Secret, r: Redactor)
    requires n >= MAX_PENDING && s.value == ['a', 'b', 'c', 'd']
    requires Valid(r) && r.secrets == [s] && r.overlap == MIN_OVERLAP
    ensures Run(r, [Astride(n)], "", false) == Astride(n)
  {
    var x, c := Astride(n), n - MIN_OVERLAP;
    HalvesAreUntouched(n, s, x, c);
    CapSplits(r, x, c);
    assert x[..c] + x[c..] == x;
  }

  lemma CapBreaksFaith(n: nat, begin: B.Boundary, end: B.Boundary)
    requires B.Valid(begin) && B.Valid(end) && n >= MAX_PENDING
    ensures !AlwaysFaithful(n, begin, end)
  {
    var x := Astride(n);
    var s := Secret("!", ['a', 'b', 'c', 'd']);
    var r := Redactor([s], MIN_OVERLAP, begin, end, "");
    AstridePassesUnredacted(n, s, r);
    PlainHasNoBoundary(begin, x);
    PlainHasNoBoundary(end, x);
    AstrideIsRedacted(n, s);
    assert Whole(r, x, false) == Redact([s], x);
    OneChunk(x);
    assert !Faithful(r, [x]);
  }

  lemma AstrideIsRedacted(n: nat, s: Secret)
    requires n >= MAX_PENDING && s == Secret("!", ['a', 'b', 'c', 'd'])
    ensures Redact([s], Astride(n)) != Astride(n)
  {
    AstrideHolds(n, s.value);
    PresentIsMarked(s, Astride(n), n - 130);
  }

  lemma OneChunk(x: string)
    ensures Concat([x]) == x
  {
    assert [x][1..] == [];
  }

  lemma AstrideHolds(n: nat, v: string)
    requires n >= MAX_PENDING && v == ['a', 'b', 'c', 'd']
    ensures Scan.OccursAt(Astride(n), v, n - 130)
  {
  }

  /** For every length: all texts of that length, under all redactors and however they
      are chunked, redact as they do whole if and only if the length is below the cap. */
  lemma FaithfulExactlyBelowCap(n: nat, begin: B.Boundary, end: B.Boundary)
    requires B.Valid(begin) && B.Valid(end)
    ensures AlwaysFaithful(n, begin, end) <==> n < 256 * 1024
  {
    if n < MAX_PENDING {
      forall r, chunks | Valid(r) && |Concat(chunks)| == n && Bounded(r, Concat(chunks))
        ensures Faithful(r, chunks)
      {
        assert "" + Concat(chunks) == Concat(chunks);
        ShortTextIsCalm(r, chunks, "", false);
        StreamIsWhole(r, chunks, "", false);
      }
    } else {
      CapBreaksFaith(n, begin, end);
    }
  }
}
