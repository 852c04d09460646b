/** How long a key boundary may be: the stream sees one whole while BEGIN is no longer than
    the overlap and one byte, and END than the tail kept of a key and one byte; a byte more
    and there is a text it redacts differently from the whole. */
module Limits {
  import B = Boundaries
  import opened Spans
  import opened Literals
  import opened Bytes
  import opened Redaction
  import opened Seeding
  import opened Coverage

  /** Every text below the cap whose boundaries are within these bounds redacts in a stream
      as it does whole. */
  ghost predicate FaithfulWithin(extra: int, keep: int) {
    forall r, chunks ::
      Valid(r) && r.begin == BeginPrivateKey() && r.end == EndPrivateKey() && |Concat(chunks)| < MAX_PENDING
      && B.AtMost(r.begin, Concat(chunks), r.overlap + extra) && B.AtMost(r.end, Concat(chunks), keep)
      ==> Faithful(r, chunks)
  }

  lemma BoundsSuffice(extra: int, keep: int)
    requires extra <= 1 && keep <= PEM_TAIL_KEEP + 1
    ensures FaithfulWithin(extra, keep)
  {
    forall r, chunks |
      Valid(r) && r.begin == BeginPrivateKey() && r.end == EndPrivateKey() && |Concat(chunks)| < MAX_PENDING
      && B.AtMost(r.begin, Concat(chunks), r.overlap + extra) && B.AtMost(r.end, Concat(chunks), keep)
      ensures Faithful(r, chunks)
    {
      assert "" + Concat(chunks) == Concat(chunks);
      ShortTextIsCalm(r, chunks, "", false);
      StreamIsWhole(r, chunks, "", false);
    }
  }

  // ----- texts with a long boundary in them

  const FILLER := 'x'

  function Repeat(c: char, n: nat): (s: string)
    ensures |s| == n && forall i :: 0 <= i < n ==> s[i] == c
  {
    seq(n, i => c)
  }

  /** A boundary of n bytes between its ends. */
  function Boundary(k: B.Boundary, n: nat): string {
    k.open + Repeat('A', n) + k.close
  }

  lemma BoundaryMatches(k: B.Boundary, n: nat)
    requires B.Valid(k)
    ensures B.Matches(k, Boundary(k, n)) && B.Framed(Boundary(k, n))
    ensures |Boundary(k, n)| == |k.open| + n + |k.close| && Boundary(k, n)[5] == k.open[5]
  {
    var m := Boundary(k, n);
    assert m[..|k.open|] == k.open && m[|m| - |k.close|..] == k.close;
    B.MatchIsFramed(k, m);
  }

  lemma KeyBoundaries()
    ensures B.Valid(BeginPrivateKey()) && B.Valid(EndPrivateKey())
    ensures |BeginPrivateKey().open| == 11 && |BeginPrivateKey().close| == 16 && BeginPrivateKey().open[5] == 'B'
    ensures |EndPrivateKey().open| == 9 && |EndPrivateKey().close| == 16 && EndPrivateKey().open[5] == 'E'
  {
    KeyBoundariesAreValid();
  }

  lemma SliceOfSlice(x: string, s: int, e: int, n: int)
    requires 0 <= s <= e <= |x| && 0 <= n <= e - s
    ensures x[s..e][..n] == x[s..s + n]
  {
  }

  /** A boundary at s starts with its own letter after five dashes. */
  lemma AtShowsLetter(k: B.Boundary, x: string, s: int, e: int)
    requires B.Valid(k) && B.At(k, x, s, e)
    ensures B.FramedAt(x, s, e) && x[s + 5] == k.open[5] != '-'
    ensures x[s] == '-' && x[s + 4] == '-' && x[e - 5] == '-' && x[e - 1] == '-'
  {
    B.AtIsFramed(k, x, s, e);
    SliceOfSlice(x, s, e, |k.open|);
  }

  /** No boundary ends in the first n - 1 bytes of one of n. */
  lemma CutShortIsNone(k: B.Boundary, pre: string, m: string)
    requires B.Valid(k) && B.Framed(m) && Plain(pre)
    ensures B.Find(k, pre + m[..|m| - 1]) == B.Nowhere
  {
    var x := pre + m[..|m| - 1];
    var p, q := |pre|, |x| - 4;
    assert forall i :: 0 <= i < |x| && x[i] == '-' ==> p <= i < p + 5 || q <= i;
    forall s, e ensures !B.At(k, x, s, e) {
      if B.At(k, x, s, e) {
        AtShowsLetter(k, x, s, e);
      }
    }
    B.FindIsNowhere(k, x);
  }

  /** Nor starts in what follows its first byte. */
  lemma StartLostIsNone(k: B.Boundary, m: string, post: string)
    requires B.Valid(k) && B.Framed(m) && Plain(post)
    ensures B.Find(k, m[1..] + post) == B.Nowhere
  {
    var x := m[1..] + post;
    var q := |m| - 1;
    assert forall i :: 0 <= i < |x| && x[i] == '-' ==> i < 4 || q - 5 <= i < q;
    forall s, e ensures !B.At(k, x, s, e) {
      if B.At(k, x, s, e) {
        AtShowsLetter(k, x, s, e);
      }
    }
    B.FindIsNowhere(k, x);
  }

  lemma NoSecretsNoSpans(b: string)
    ensures SpansOf([], b) == [] && Redact([], b) == b
  {
    AbsentIsUntouched([], b);
    RawIsComparable([], b);
    assert Raw([], b) == {};
    SortIs({}, []);
  }

  /** A boundary between texts without a dash is the one that is found, and any boundary in
      the text is it. */
  lemma OnlyOne(k: B.Boundary, pre: string, m: string, post: string, s: int, e: int)
    requires B.Valid(k) && B.Framed(m) && Plain(pre) && Plain(post)
    requires B.At(k, pre + m + post, s, e)
    ensures s == |pre| && e == |pre| + |m| && m[5] == k.open[5]
  {
    var x, p, q := pre + m + post, |pre|, |pre| + |m|;
    assert forall i :: 0 <= i < |x| && x[i] == '-' ==> p <= i < p + 5 || q - 5 <= i < q;
    AtShowsLetter(k, x, s, e);
    assert x[p + 5] == m[5];
  }

  lemma FindOnly(k: B.Boundary, pre: string, m: string, post: string)
    requires B.Valid(k) && B.Matches(k, m) && Plain(pre) && Plain(post)
    ensures B.Find(k, pre + m + post) == B.Somewhere(|pre|, |pre| + |m|)
  {
    var x := pre + m + post;
    B.MatchIsFramed(k, m);
    assert x[|pre|..|pre| + |m|] == m;
    forall s, e | 0 <= s < |pre| ensures !B.At(k, x, s, e) {
      if B.At(k, x, s, e) {
        OnlyOne(k, pre, m, post, s, e);
      }
    }
    B.FindIs(k, x, |pre|, |pre| + |m|);
  }

  // ----- a BEGIN a byte too long

  /** The hold point of a long BEGIN without its last byte is past its first byte. */
  lemma HoldIsPastFirst(b: string, p: nat, q: nat)
    requires 0 < p && p + 1 < q < |b| && !IsSpace(b[0]) && IsSpace(b[p]) && !IsSpace(b[p + 1]) && IsSpace(b[q])
    ensures TailHold(b, |b|, HOLD_TOKENS) >= 1
  {
    var j := Back(b, |b|, false);
    assert j > q;
    var k := Back(b, j, true);
    assert k > p + 1;
    var j' := Back(b, k, false);
    assert j' > p;
    assert Back(b, j', true) >= 1;
    assert TailHold(b, Back(b, j', true), 0) == Back(b, j', true);
    assert TailHold(b, k, 1) == Back(b, j', true);
  }

  function LongBegin(): string { Boundary(BeginPrivateKey(), MIN_OVERLAP + 2 - 27) }

  lemma FirstByteIsFlushed(r: Redactor, b: string)
    requires Valid(r) && r.secrets == [] && r.overlap == MIN_OVERLAP && |b| == MIN_OVERLAP + 1
    requires B.Find(r.begin, b) == B.Nowhere && TailHold(b, |b|, HOLD_TOKENS) >= 1
    ensures Process(r, b, false, false) == Pass(b[..1], b[1..], false)
  {
    NoSecretsNoSpans(b);
    NoSecretsNoSpans(b[..1]);
    GreatestSafeIs([], 1, 1);
    assert "" + b[..1] == b[..1];
  }

  lemma LongBeginShape()
    ensures var m := LongBegin();
            |m| == MIN_OVERLAP + 2 && B.Framed(m) && B.Matches(BeginPrivateKey(), m)
            && m[0] == '-' && m[5] == 'B' && m[10] == ' ' && m[11] == 'A' && m[121] == ' '
  {
    KeyBoundaries();
    BoundaryMatches(BeginPrivateKey(), MIN_OVERLAP + 2 - 27);
  }

  /** The writer for a redactor with nothing seeded. */
  function Plainly(): Redactor { Redactor([], MIN_OVERLAP, BeginPrivateKey(), EndPrivateKey(), "!") }

  lemma PlainlyIsValid()
    ensures Valid(Plainly())
  {
    KeyBoundaries();
  }

  lemma LongBeginStreams()
    ensures Valid(Plainly())
    ensures var m := LongBegin();
            var out := Run(Plainly(), [m[..|m| - 1], m[|m| - 1..]], "", false); out != "" && out[0] == '-'
  {
    PlainlyIsValid();
    LongBeginShape();
    var r, m := Plainly(), LongBegin();
    var front, back := m[..|m| - 1], m[|m| - 1..];
    assert "" + front == front;
    CutShortIsNone(r.begin, "", m);
    HoldIsPastFirst(front, 10, 121);
    FirstByteIsFlushed(r, front);
  }

  lemma LongBeginWhole()
    ensures Valid(Plainly())
    ensures var out := Whole(Plainly(), LongBegin(), false); out != "" && out[0] == '!'
  {
    PlainlyIsValid();
    LongBeginShape();
    var r, m := Plainly(), LongBegin();
    FindOnly(r.begin, "", m, "");
    assert "" + m + "" == m;
    NoSecretsNoSpans(m[..0]);
  }

  lemma LongBeginIsAlone(s: int, e: int)
    ensures !B.At(EndPrivateKey(), LongBegin(), s, e)
    ensures B.At(BeginPrivateKey(), LongBegin(), s, e) ==> e - s == MIN_OVERLAP + 2
  {
    LongBeginShape();
    KeyBoundaries();
    var m := LongBegin();
    assert "" + m + "" == m;
    if B.At(EndPrivateKey(), m, s, e) {
      OnlyOne(EndPrivateKey(), "", m, "", s, e);
    }
    if B.At(BeginPrivateKey(), m, s, e) {
      OnlyOne(BeginPrivateKey(), "", m, "", s, e);
    }
  }

  lemma TwoChunks(x: string, n: nat)
    requires n <= |x|
    ensures Concat([x[..n], x[n..]]) == x
  {
    var a, b := x[..n], x[n..];
    assert [a, b][1..] == [b] && [b][1..] == [];
    assert Concat([b]) == b;
  }

  /** One text that a stream redacts differently is enough. */
  lemma Breaks(r: Redactor, x: string, n: nat, extra: int, keep: int)
    requires Valid(r) && r.begin == BeginPrivateKey() && r.end == EndPrivateKey() && n <= |x| < MAX_PENDING
    requires B.AtMost(r.begin, x, r.overlap + extra) && B.AtMost(r.end, x, keep)
    requires Run(r, [x[..n], x[n..]], "", false) != Whole(r, x, false)
    ensures !FaithfulWithin(extra, keep)
  {
    TwoChunks(x, n);
    assert !Faithful(r, [x[..n], x[n..]]);
  }

  lemma LongBeginBreaksFaith(extra: int, keep: int)
    requires extra > 1
    ensures !FaithfulWithin(extra, keep)
  {
    LongBeginShape();
    LongBeginStreams();
    LongBeginWhole();
    forall s, e ensures !B.At(EndPrivateKey(), LongBegin(), s, e)
                        && (B.At(BeginPrivateKey(), LongBegin(), s, e) ==> e - s <= MIN_OVERLAP + extra) {
      LongBeginIsAlone(s, e);
    }
    Breaks(Plainly(), LongBegin(), MIN_OVERLAP + 1, extra, keep);
  }

  // ----- an END a byte too long

  const KEY_BODY := 60

  function ShortBegin(): string { Boundary(BeginPrivateKey(), 0) }

  function LongEnd(): string { Boundary(EndPrivateKey(), PEM_TAIL_KEEP + 2 - 25) }

  function Body(): string { Repeat(FILLER, KEY_BODY) }

  /** A key whose END is a byte too long, and a byte after it. */
  function LongEnded(): string { ShortBegin() + (Body() + LongEnd() + [FILLER]) }

  lemma LongEndShape()
    ensures var b, m := ShortBegin(), LongEnd();
            |b| == 27 && B.Framed(b) && B.Matches(BeginPrivateKey(), b) && b[5] == 'B'
            && |m| == PEM_TAIL_KEEP + 2 && B.Framed(m) && B.Matches(EndPrivateKey(), m) && m[5] == 'E'
  {
    KeyBoundaries();
    BoundaryMatches(BeginPrivateKey(), 0);
    BoundaryMatches(EndPrivateKey(), PEM_TAIL_KEEP + 2 - 25);
  }

  /** Of two boundaries with a filler between and after them, any boundary is one or the
      other, and is of its own kind. */
  lemma OneOfTwo(k: B.Boundary, m: string, body: string, n: string, s: int, e: int)
    requires B.Valid(k) && B.Framed(m) && B.Framed(n) && body != [] && forall i :: 0 <= i < |body| ==> body[i] == FILLER
    requires B.At(k, m + (body + n + [FILLER]), s, e)
    ensures (s == 0 && e == |m| && k.open[5] == m[5])
            || (s == |m| + |body| && e == |m| + |body| + |n| && k.open[5] == n[5])
  {
    var x, p, q := m + (body + n + [FILLER]), |m| + |body|, |m| + |body| + |n|;
    assert forall i :: 0 <= i < |x| && x[i] == '-' ==>
      i < 5 || |m| - 5 <= i < |m| || p <= i < p + 5 || q - 5 <= i < q;
    AtShowsLetter(k, x, s, e);
    assert x[5] == m[5] && x[|m|] == FILLER && x[p + 5] == n[5] && x[q] == FILLER;
  }

  /** A BEGIN that a text starts with is found. */
  lemma FindFirst(k: B.Boundary, m: string, rest: string)
    requires B.Valid(k) && B.Matches(k, m)
    ensures B.Find(k, m + rest) == B.Somewhere(0, |m|)
  {
    assert (m + rest)[0..|m|] == m;
    B.FindIs(k, m + rest, 0, |m|);
  }

  /** What the first write makes of a key that stops a byte before its END does. */
  lemma KeyIsOpened(r: Redactor, b: string, body: string, m: string)
    requires r == Plainly() && Valid(r) && B.Matches(r.begin, b) && B.Framed(m) && Plain(body)
    requires |m| == PEM_TAIL_KEEP + 2 && |b| + |body| + |m| > MIN_OVERLAP
    ensures Process(r, b + (body + m[..|m| - 1]), false, false) == Pass("!", m[1..|m| - 1], true)
  {
    var rest := body + m[..|m| - 1];
    FindFirst(r.begin, b, rest);
    CutShortIsNone(r.end, body, m);
    assert (b + rest)[|b|..] == rest;
    assert rest[|rest| - PEM_TAIL_KEEP..] == m[1..|m| - 1];
    NoSecretsNoSpans("");
    assert (b + rest)[..0] == "";
    assert Drain(r, rest, true) == Pass("", m[1..|m| - 1], true);
  }

  lemma LongEndStreams()
    ensures Valid(Plainly())
    ensures |LongEnded()| == 27 + KEY_BODY + PEM_TAIL_KEEP + 3
    ensures Run(Plainly(), [LongEnded()[..|LongEnded()| - 2], LongEnded()[|LongEnded()| - 2..]], "", false) == "!"
  {
    PlainlyIsValid();
    LongEndShape();
    var r, b, body, m, x := Plainly(), ShortBegin(), Body(), LongEnd(), LongEnded();
    var front, back := x[..|x| - 2], x[|x| - 2..];
    assert front == b + (body + m[..|m| - 1]) && back == m[|m| - 1..] + [FILLER];
    assert "" + front == front;
    KeyIsOpened(r, b, body, m);
    var left := m[1..] + [FILLER];
    assert m[1..|m| - 1] + back == left;
    StartLostIsNone(r.end, m, [FILLER]);
    TheRestIsDiscarded(r, front, back, m[1..|m| - 1]);
  }

  lemma TheRestIsDiscarded(r: Redactor, front: string, back: string, kept: string)
    requires Valid(r) && front != "" && back != "" && "" + front == front
    requires Process(r, front, false, false) == Pass("!", kept, true)
    requires |kept + back| < MIN_OVERLAP && B.Find(r.end, kept + back) == B.Nowhere
    ensures Run(r, [front, back], "", false) == "!"
  {
    assert [front, back][1..] == [back] && [back][1..] == [];
    assert Process(r, kept + back, true, false) == Pass("", kept + back, true);
    assert Run(r, [], kept + back, true) == "";
    assert Run(r, [back], kept, true) == "";
  }

  lemma LongEndWhole()
    ensures Valid(Plainly()) && Whole(Plainly(), LongEnded(), false) == "!" + [FILLER]
  {
    PlainlyIsValid();
    LongEndShape();
    var r, b, body, m := Plainly(), ShortBegin(), Body(), LongEnd();
    var rest := body + m + [FILLER];
    FindFirst(r.begin, b, rest);
    assert (b + rest)[|b|..] == rest && (b + rest)[..0] == "";
    NoSecretsNoSpans("");
    FindOnly(r.end, body, m, [FILLER]);
    assert rest[|body| + |m|..] == [FILLER];
    PlainHasNoBoundary(r.begin, [FILLER]);
    NoSecretsNoSpans([FILLER]);
  }

  lemma LongEndIsAlone(s: int, e: int)
    ensures B.At(EndPrivateKey(), LongEnded(), s, e) ==> e - s == PEM_TAIL_KEEP + 2
    ensures B.At(BeginPrivateKey(), LongEnded(), s, e) ==> e - s == 27
  {
    LongEndShape();
    KeyBoundaries();
    if B.At(EndPrivateKey(), LongEnded(), s, e) {
      OneOfTwo(EndPrivateKey(), ShortBegin(), Body(), LongEnd(), s, e);
    }
    if B.At(BeginPrivateKey(), LongEnded(), s, e) {
      OneOfTwo(BeginPrivateKey(), ShortBegin(), Body(), LongEnd(), s, e);
    }
  }

  lemma LongEndBreaksFaith(keep: int)
    requires keep > PEM_TAIL_KEEP + 1
    ensures !FaithfulWithin(1, keep)
  {
    LongEndStreams();
    LongEndWhole();
    forall s, e ensures (B.At(EndPrivateKey(), LongEnded(), s, e) ==> e - s <= keep)
                        && (B.At(BeginPrivateKey(), LongEnded(), s, e) ==> e - s <= MIN_OVERLAP + 1) {
      LongEndIsAlone(s, e);
    }
    Breaks(Plainly(), LongEnded(), |LongEnded()| - 2, 1, keep);
  }

  /** Below the cap a stream redacts every text as the whole, however it is chunked, if and
      only if its END boundaries are at most the tail kept of a key and one byte. */
  lemma EndBoundIsExact(keep: int)
    ensures FaithfulWithin(1, keep) <==> keep <= 65
  {
    if keep <= PEM_TAIL_KEEP + 1 {
      BoundsSuffice(1, keep);
    } else {
      LongEndBreaksFaith(keep);
    }
  }

  /** And, with those, if and only if its BEGIN boundaries are at most the overlap and one
      byte. */
  lemma BeginBoundIsExact(extra: int)
    ensures FaithfulWithin(extra, 65) <==> extra <= 1
  {
    if extra <= 1 {
      BoundsSuffice(extra, PEM_TAIL_KEEP + 1);
    } else {
      LongBeginBreaksFaith(extra, PEM_TAIL_KEEP + 1);
    }
  }
}
