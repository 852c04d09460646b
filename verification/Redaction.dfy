/** Streaming redaction: what the whole text redacts to, what one pass over the
    pending buffer forwards and keeps, and why no way of chunking the text makes
    a difference while the buffer stays below its cap. */
module Redaction {
  import B = Boundaries
  import opened Bytes
  import Scan
  import opened Spans
  import opened Literals

  const MIN_SECRET_LEN := 4
  const MIN_OVERLAP := 128
  const MAX_PENDING := 262144
  const PEM_TAIL_KEEP := 64
  const HOLD_TOKENS := 2

  /** secrets are what to look for, overlap how much is always withheld, and
      keyMark what a key block from begin to end is replaced by. */
  datatype Redactor = Redactor(secrets: seq<Secret>, overlap: nat, begin: B.Boundary, end: B.Boundary, keyMark: string)

  ghost predicate Valid(r: Redactor) {
    Usable(r.secrets) && MIN_OVERLAP <= r.overlap
    && (forall s :: s in r.secrets ==> |s.value| < r.overlap)
    && B.Valid(r.begin) && B.Valid(r.end)
  }

  /** No boundary in text is longer than what the stream withholds to see it whole. */
  ghost predicate Bounded(r: Redactor, text: string) {
    B.AtMost(r.begin, text, r.overlap + 1) && B.AtMost(r.end, text, PEM_TAIL_KEEP + 1)
  }

  lemma BoundedSuffix(r: Redactor, text: string, c: nat)
    requires c <= |text| && Bounded(r, text)
    ensures Bounded(r, text[c..])
  {
    B.AtMostOfSuffix(r.begin, text, c, r.overlap + 1);
    B.AtMostOfSuffix(r.end, text, c, PEM_TAIL_KEEP + 1);
  }

  // ----- the whole text

  /** What text redacts to, taken at once. inKey: a key block is open at its start. */
  ghost function Whole(r: Redactor, text: string, inKey: bool): string
    requires Valid(r)
    decreases |text|
  {
    if inKey then
      match B.Find(r.end, text)
      case Nowhere => ""
      case Somewhere(_, e) => B.FindBounds(r.end, text); Whole(r, text[e..], false)
    else
      match B.Find(r.begin, text)
      case Nowhere => Redact(r.secrets, text)
      case Somewhere(s, e) =>
        B.FindBounds(r.begin, text);
        Redact(r.secrets, text[..s]) + r.keyMark + Whole(r, text[e..], true)
  }

  /** The ranges of text that Whole replaces: its literals outside key blocks, and
      each key block, to the end of the text when nothing closes it. */
  ghost function Replaced(r: Redactor, text: string): seq<Span>
    requires Valid(r)
    decreases |text|
  {
    match B.Find(r.begin, text)
    case Nowhere => SpansOf(r.secrets, text)
    case Somewhere(s, e) =>
      B.FindBounds(r.begin, text);
      var c := BlockEnd(r, text, e);
      SpansOf(r.secrets, text[..s]) + ShiftAll([Span(0, c - s, 0, c - s, r.keyMark)], s)
      + ShiftAll(if c == |text| then [] else Replaced(r, text[c..]), c)
  }

  /** Where the key block whose BEGIN ends at e is over. */
  ghost function BlockEnd(r: Redactor, text: string, e: int): (c: int)
    requires Valid(r) && 0 <= e <= |text|
    ensures e <= c <= |text|
  {
    match B.Find(r.end, text[e..])
    case Nowhere => |text|
    case Somewhere(_, f) => B.FindBounds(r.end, text[e..]); e + f
  }

  // ----- one pass over the pending buffer

  datatype Pass = Pass(out: string, buf: string, inKey: bool)

  /** Forwards and drops everything up to the last boundary in buf. */
  ghost function Drain(r: Redactor, buf: string, inKey: bool): (p: Pass)
    requires Valid(r)
    ensures |p.buf| <= |buf|
    decreases |buf|
  {
    if inKey then
      match B.Find(r.end, buf)
      case Nowhere => Pass("", if |buf| > PEM_TAIL_KEEP then buf[|buf| - PEM_TAIL_KEEP..] else buf, true)
      case Somewhere(_, e) => B.FindBounds(r.end, buf); Drain(r, buf[e..], false)
    else
      match B.Find(r.begin, buf)
      case Nowhere => Pass("", buf, false)
      case Somewhere(s, e) =>
        B.FindBounds(r.begin, buf);
        var d := Drain(r, buf[e..], true);
        d.(out := Redact(r.secrets, buf[..s]) + r.keyMark + d.out)
  }

  /** i moved back over bytes that are, or are not, white space. */
  function Back(b: string, i: nat, space: bool): (j: nat)
    requires i <= |b|
    ensures j <= i && (forall k :: j <= k < i ==> IsSpace(b[k]) == space) && (j > 0 ==> IsSpace(b[j - 1]) != space)
  {
    if i > 0 && IsSpace(b[i - 1]) == space then Back(b, i - 1, space) else i
  }

  /** Where the last runs white-space-delimited runs of b[..i] begin, the white
      space in front of them included, or 0. */
  function TailHold(b: string, i: nat, runs: nat): (h: nat)
    requires i <= |b|
    ensures h <= i
    decreases runs
  {
    if runs == 0 then i else
      var j := Back(b, i, false);
      var k := Back(b, j, true);
      if j == 0 || k == 0 then 0 else TailHold(b, k, runs - 1)
  }

  /** How many bytes of a buffer with no boundary in it are forwarded. */
  ghost function FlushPoint(r: Redactor, buf: string, final: bool): (c: int)
    requires Valid(r)
    ensures 0 <= c <= |buf|
  {
    if final then |buf| else
      var limit := |buf| - r.overlap;
      if limit <= 0 then 0
      else if |buf| >= MAX_PENDING then limit
      else GreatestSafe(SpansOf(r.secrets, buf), Min(limit, TailHold(buf, |buf|, HOLD_TOKENS)))
  }

  ghost function Flush(r: Redactor, d: Pass, final: bool): Pass
    requires Valid(r)
  {
    var c := FlushPoint(r, d.buf, final);
    Pass(d.out + Redact(r.secrets, d.buf[..c]), d.buf[c..], false)
  }

  /** A pass over the pending buffer; final when the stream is closed. */
  ghost function Process(r: Redactor, buf: string, inKey: bool, final: bool): Pass
    requires Valid(r)
  {
    if !final && |buf| < MIN_OVERLAP then Pass("", buf, inKey) else
      var d := Drain(r, buf, inKey);
      if d.inKey then d.(buf := if final then "" else d.buf) else Flush(r, d, final)
  }

  // ----- a pass loses nothing, whatever arrives later

  /** Whole, one block at a time. */
  lemma WholeAfterEnd(r: Redactor, x: string, s: int, e: int, rest: string)
    requires Valid(r) && 0 <= e <= |x| && B.Find(r.end, x) == B.Somewhere(s, e) && rest == x[e..]
    ensures Whole(r, x, true) == Whole(r, rest, false)
  {
  }

  lemma WholeToBegin(r: Redactor, x: string, s: int, e: int, front: string, rest: string)
    requires Valid(r) && 0 <= s <= e <= |x| && B.Find(r.begin, x) == B.Somewhere(s, e)
    requires front == x[..s] && rest == x[e..]
    ensures Whole(r, x, false) == Redact(r.secrets, front) + r.keyMark + Whole(r, rest, true)
  {
  }

  lemma WholeOfPlain(r: Redactor, x: string)
    requires Valid(r) && B.Find(r.begin, x) == B.Nowhere
    ensures Whole(r, x, false) == Redact(r.secrets, x)
  {
  }

  lemma DrainKeepsOpenKey(r: Redactor, x: string, n: nat)
    requires Valid(r) && Bounded(r, x) && n <= |x| && B.Find(r.end, x[..n]) == B.Nowhere
    ensures var m := if n > PEM_TAIL_KEEP then n - PEM_TAIL_KEEP else 0;
            Whole(r, x, true) == Whole(r, x[m..], true)
  {
    var m := if n > PEM_TAIL_KEEP then n - PEM_TAIL_KEEP else 0;
    TailStopsBeforeEnd(r, x, n, m);
    B.FindAfterDrop(r.end, x, m);
    match B.Find(r.end, x)
    case Nowhere =>
    case Somewhere(s, e) =>
      EndsAlike(r, x, m, s, e, x[m..]);
  }

  lemma EndsAlike(r: Redactor, x: string, m: nat, s: int, e: int, y: string)
    requires Valid(r) && m <= s < e <= |x| && y == x[m..]
    requires B.Find(r.end, x) == B.Somewhere(s, e) && B.Find(r.end, y) == B.Somewhere(s - m, e - m)
    ensures Whole(r, x, true) == Whole(r, y, true)
  {
    SlicesAfter(x, m, s, e);
    WholeAfterEnd(r, x, s, e, x[e..]);
    WholeAfterEnd(r, y, s - m, e - m, y[e - m..]);
  }

  lemma TailStopsBeforeEnd(r: Redactor, x: string, n: nat, m: nat)
    requires Valid(r) && Bounded(r, x) && n <= |x| && B.Find(r.end, x[..n]) == B.Nowhere
    requires m == if n > PEM_TAIL_KEEP then n - PEM_TAIL_KEEP else 0
    ensures var f := B.Find(r.end, x); f.Somewhere? ==> m <= f.start < f.end <= |x|
  {
    if B.Find(r.end, x).Somewhere? {
      B.FindStartsLate(r.end, x, n, PEM_TAIL_KEEP + 1);
      B.FindBounds(r.end, x);
    }
  }

  /** Dropping the first e bytes of x from what a drain of its first n bytes keeps. */
  lemma SlicesAgree(x: string, n: nat, e: nat, m: nat)
    requires e <= m <= n <= |x|
    ensures x[..n][e..] == x[e..][..n - e]
    ensures x[e..][m - e..] == x[m..] && x[e..][m - e..n - e] == x[m..n]
  {
  }

  /** p, made of the first n bytes of x, loses nothing: it keeps their tail, and what
      it forwarded followed by what the rest redacts to is what x redacts to. */
  ghost predicate Lossless(r: Redactor, x: string, n: nat, inKey: bool, p: Pass)
    requires Valid(r) && n <= |x|
  {
    |p.buf| <= n && p.buf == x[n - |p.buf|..n]
    && Whole(r, x, inKey) == p.out + Whole(r, x[n - |p.buf|..], p.inKey)
  }

  ghost predicate Kept(r: Redactor, x: string, n: nat, inKey: bool, d: Pass)
    requires Valid(r) && n <= |x|
  {
    Lossless(r, x, n, inKey, d) && (!d.inKey ==> B.Find(r.begin, d.buf) == B.Nowhere)
  }

  lemma DrainKeepsFromBegin(r: Redactor, x: string, n: nat, s: int, e: int, d: Pass)
    requires Valid(r) && n <= |x| && 0 <= s < e <= n
    requires B.Find(r.begin, x) == B.Somewhere(s, e) && Kept(r, x[e..], n - e, true, d)
    ensures Kept(r, x, n, false, d.(out := Redact(r.secrets, x[..n][..s]) + r.keyMark + d.out))
  {
    var m := n - |d.buf|;
    SlicesAgree(x, n, e, m);
    assert x[..s] == x[..n][..s];
    Associate(Redact(r.secrets, x[..s]) + r.keyMark, d.out, Whole(r, x[m..], d.inKey));
  }

  lemma DrainKeepsFromEnd(r: Redactor, x: string, n: nat, s: int, e: int, d: Pass)
    requires Valid(r) && n <= |x| && 0 <= s < e <= n
    requires B.Find(r.end, x) == B.Somewhere(s, e) && Kept(r, x[e..], n - e, false, d)
    ensures Kept(r, x, n, true, d)
  {
    SlicesAgree(x, n, e, n - |d.buf|);
  }

  lemma DrainKeepsAll(r: Redactor, x: string, n: nat, inKey: bool)
    requires Valid(r) && Bounded(r, x) && n <= |x|
    requires B.Find(if inKey then r.end else r.begin, x[..n]) == B.Nowhere
    ensures Kept(r, x, n, inKey, Drain(r, x[..n], inKey))
  {
    if inKey {
      DrainKeepsOpenKey(r, x, n);
    }
    assert x[0..] == x && x[0..n] == x[..n];
  }

  /** x is everything still to come through, and its first n bytes are the buffer:
      after a drain, what was forwarded and what the rest will redact to is what x
      redacts to. */
  lemma {:induction false} DrainKeeps(r: Redactor, x: string, n: nat, inKey: bool)
    requires Valid(r) && Bounded(r, x) && n <= |x|
    ensures Kept(r, x, n, inKey, Drain(r, x[..n], inKey))
    decreases n
  {
    var k := if inKey then r.end else r.begin;
    match B.Find(k, x[..n])
    case Nowhere =>
      DrainKeepsAll(r, x, n, inKey);
    case Somewhere(s, e) =>
      B.FindExtends(k, x, n);
      BoundedSuffix(r, x, e);
      assert x[..n][e..] == x[e..][..n - e];
      var d := Drain(r, x[..n][e..], !inKey);
      DrainKeeps(r, x[e..], n - e, !inKey);
      if inKey {
        DrainKeepsFromEnd(r, x, n, s, e, d);
      } else {
        DrainKeepsFromBegin(r, x, n, s, e, d);
      }
  }

  /** The first segment of x, up to its first BEGIN, splits at the flush point. */
  lemma FlushSplits(r: Redactor, x: string, n: nat, t: nat, c: nat)
    requires Valid(r) && n <= |x| && c <= t <= |x|
    requires 0 < c == FlushPoint(r, x[..n], false) && n < MAX_PENDING
    ensures Redact(r.secrets, x[..t]) == Redact(r.secrets, x[..c]) + Redact(r.secrets, x[c..t])
  {
    SafeIsClear(r.secrets, x[..n], c);
    ClearInFuture(r.secrets, x, n, t, c, r.overlap);
    RedactSplit(r.secrets, x[..t], c);
    assert x[..t][..c] == x[..c] && x[..t][c..] == x[c..t];
  }

  /** The rest of a text from c on, when its first key begins at s. */
  lemma WholeFrom(r: Redactor, x: string, c: nat, s: int, e: int, y: string)
    requires Valid(r) && c <= s < e <= |x| && y == x[c..] && B.Find(r.begin, y) == B.Somewhere(s - c, e - c)
    ensures Whole(r, y, false) == Redact(r.secrets, x[c..s]) + r.keyMark + Whole(r, x[e..], true)
  {
    SlicesAfter(x, c, s, e);
    WholeToBegin(r, y, s - c, e - c, y[..s - c], y[e - c..]);
  }

  lemma SlicesAfter(x: string, c: nat, s: int, e: int)
    requires c <= s <= e <= |x|
    ensures x[c..][..s - c] == x[c..s] && x[c..][e - c..] == x[e..]
  {
  }

  lemma FlushKeepsBeforeKey(r: Redactor, x: string, n: nat, c: nat, s: int, e: int)
    requires Valid(r) && n <= |x| && 0 < c == FlushPoint(r, x[..n], false) && n < MAX_PENDING && c <= s < e <= |x|
    requires B.Find(r.begin, x) == B.Somewhere(s, e) && B.Find(r.begin, x[c..]) == B.Somewhere(s - c, e - c)
    ensures Whole(r, x, false) == Redact(r.secrets, x[..c]) + Whole(r, x[c..], false)
  {
    var front, back, rest := Redact(r.secrets, x[..c]), Redact(r.secrets, x[c..s]), Whole(r, x[e..], true);
    FlushSplits(r, x, n, s, c);
    WholeToBegin(r, x, s, e, x[..s], x[e..]);
    WholeFrom(r, x, c, s, e, x[c..]);
    Associate(front, back, r.keyMark);
    Associate(front, back + r.keyMark, rest);
  }

  lemma FlushKeepsPlain(r: Redactor, x: string, n: nat, c: nat)
    requires Valid(r) && n <= |x| && 0 < c == FlushPoint(r, x[..n], false) && n < MAX_PENDING
    requires B.Find(r.begin, x) == B.Nowhere && B.Find(r.begin, x[c..]) == B.Nowhere
    ensures Whole(r, x, false) == Redact(r.secrets, x[..c]) + Whole(r, x[c..], false)
  {
    FlushSplits(r, x, n, |x|, c);
    assert x[..|x|] == x && x[c..|x|] == x[c..];
    WholeOfPlain(r, x);
    WholeOfPlain(r, x[c..]);
  }

  lemma NothingFlushed(r: Redactor, x: string)
    requires Valid(r)
    ensures Whole(r, x, false) == Redact(r.secrets, x[..0]) + Whole(r, x[0..], false)
  {
    EmptyRedacts(r.secrets);
    assert x[..0] == "" && x[0..] == x;
  }

  lemma FlushStopsBeforeKey(r: Redactor, x: string, n: nat, c: nat)
    requires Valid(r) && Bounded(r, x) && n <= |x| && n < MAX_PENDING && 0 < c == FlushPoint(r, x[..n], false)
    requires B.Find(r.begin, x[..n]) == B.Nowhere
    ensures var f := B.Find(r.begin, x); f.Somewhere? ==> c <= f.start < f.end <= |x|
  {
    if B.Find(r.begin, x).Somewhere? {
      B.FindStartsLate(r.begin, x, n, r.overlap + 1);
      B.FindBounds(r.begin, x);
    }
  }

  lemma FlushKeeps(r: Redactor, x: string, n: nat)
    requires Valid(r) && Bounded(r, x) && n <= |x| && n < MAX_PENDING
    requires B.Find(r.begin, x[..n]) == B.Nowhere
    ensures var c := FlushPoint(r, x[..n], false);
            Whole(r, x, false) == Redact(r.secrets, x[..c]) + Whole(r, x[c..], false)
  {
    var c := FlushPoint(r, x[..n], false);
    if c == 0 {
      NothingFlushed(r, x);
    } else {
      FlushStopsBeforeKey(r, x, n, c);
      B.FindAfterDrop(r.begin, x, c);
      match B.Find(r.begin, x)
      case Nowhere =>
        FlushKeepsPlain(r, x, n, c);
      case Somewhere(s, e) =>
        FlushKeepsBeforeKey(r, x, n, c, s, e);
    }
  }

  lemma EmptyRedacts(secrets: seq<Secret>)
    requires Usable(secrets)
    ensures Redact(secrets, "") == ""
  {
    SpansOfSound(secrets, "");
    assert SpansOf(secrets, "") == [];
  }

  /** The buffer a pass looks for a flush point in, once boundaries are out of it. */
  ghost predicate BelowCap(r: Redactor, buf: string, inKey: bool)
    requires Valid(r)
  {
    |Drain(r, buf, inKey).buf| < MAX_PENDING
  }

  lemma FlushSlices(x: string, n: nat, m: nat, c: nat)
    requires m + c <= n <= |x|
    ensures x[m..][..n - m] == x[m..n]
    ensures x[m..][..c] == x[m..n][..c]
    ensures x[m..][c..] == x[m + c..] && x[m..n][c..] == x[m + c..n]
  {
  }

  lemma CutPassKeeps(r: Redactor, x: string, n: nat, inKey: bool, d: Pass, c: nat)
    requires Valid(r) && n <= |x| && Lossless(r, x, n, inKey, d) && !d.inKey && c <= |d.buf|
    requires var y := x[n - |d.buf|..]; Whole(r, y, false) == Redact(r.secrets, y[..c]) + Whole(r, y[c..], false)
    ensures Lossless(r, x, n, inKey, Pass(d.out + Redact(r.secrets, d.buf[..c]), d.buf[c..], false))
  {
    var m := n - |d.buf|;
    FlushSlices(x, n, m, c);
    var front, rest := Redact(r.secrets, d.buf[..c]), Whole(r, x[m + c..], false);
    assert Whole(r, x[m..], false) == front + rest;
    Associate(d.out, front, rest);
    LosslessAt(r, x, n, inKey, Pass(d.out + front, d.buf[c..], false), m + c);
  }

  lemma LosslessAt(r: Redactor, x: string, n: nat, inKey: bool, p: Pass, k: nat)
    requires Valid(r) && k <= n <= |x| && p.buf == x[k..n] && Whole(r, x, inKey) == p.out + Whole(r, x[k..], p.inKey)
    ensures Lossless(r, x, n, inKey, p)
  {
  }

  lemma FlushedPassKeeps(r: Redactor, x: string, n: nat, inKey: bool, d: Pass)
    requires Valid(r) && Bounded(r, x) && n <= |x| && |d.buf| < MAX_PENDING
    requires Kept(r, x, n, inKey, d) && !d.inKey
    ensures Lossless(r, x, n, inKey, Flush(r, d, false))
  {
    var m := n - |d.buf|;
    FlushSlices(x, n, m, 0);
    BoundedSuffix(r, x, m);
    FlushKeeps(r, x[m..], |d.buf|);
    CutPassKeeps(r, x, n, inKey, d, FlushPoint(r, d.buf, false));
  }

  lemma ShortPassKeeps(r: Redactor, x: string, n: nat, inKey: bool)
    requires Valid(r) && n <= |x|
    ensures Lossless(r, x, n, inKey, Pass("", x[..n], inKey))
  {
    assert x[0..n] == x[..n] && x[0..] == x;
  }

  lemma ProcessKeeps(r: Redactor, x: string, n: nat, inKey: bool)
    requires Valid(r) && Bounded(r, x) && n <= |x| && BelowCap(r, x[..n], inKey)
    ensures Lossless(r, x, n, inKey, Process(r, x[..n], inKey, false))
  {
    var d := Drain(r, x[..n], inKey);
    ShortPassKeeps(r, x, n, inKey);
    DrainKeeps(r, x, n, inKey);
    if !d.inKey {
      FlushedPassKeeps(r, x, n, inKey, d);
      assert n >= MIN_OVERLAP ==> Process(r, x[..n], inKey, false) == Flush(r, d, false);
    }
  }

  /** What a drain of all there is leaves to be redacted. */
  lemma DrainedIsRest(r: Redactor, x: string, inKey: bool)
    requires Valid(r) && Bounded(r, x)
    ensures var d := Drain(r, x, inKey);
            Whole(r, x, inKey) == d.out + Whole(r, d.buf, d.inKey)
            && (!d.inKey ==> B.Find(r.begin, d.buf) == B.Nowhere)
  {
    assert x[..|x|] == x;
    DrainKeeps(r, x, |x|, inKey);
    var d := Drain(r, x, inKey);
    assert x[|x| - |d.buf|..|x|] == x[|x| - |d.buf|..];
  }

  lemma FlushFinishes(r: Redactor, d: Pass)
    requires Valid(r) && B.Find(r.begin, d.buf) == B.Nowhere
    ensures Flush(r, d, true) == Pass(d.out + Whole(r, d.buf, false), "", false)
  {
    assert d.buf[..|d.buf|] == d.buf;
  }

  /** The last pass forwards all there is. */
  lemma ProcessFinishes(r: Redactor, x: string, inKey: bool)
    requires Valid(r) && Bounded(r, x)
    ensures Process(r, x, inKey, true).out == Whole(r, x, inKey) && Process(r, x, inKey, true).buf == ""
  {
    var d := Drain(r, x, inKey);
    DrainedIsRest(r, x, inKey);
    if d.inKey {
      DrainedKeyIsOpen(r, x, inKey);
    } else {
      FlushFinishes(r, d);
    }
  }

  lemma {:induction false} DrainedKeyIsOpen(r: Redactor, buf: string, inKey: bool)
    requires Valid(r) && Bounded(r, buf)
    ensures Drain(r, buf, inKey).inKey ==> Whole(r, Drain(r, buf, inKey).buf, true) == ""
    decreases |buf|
  {
    match B.Find(if inKey then r.end else r.begin, buf)
    case Nowhere =>
      if inKey {
        assert buf[..|buf|] == buf;
        DrainKeepsOpenKey(r, buf, |buf|);
      }
    case Somewhere(s, e) =>
      B.FindBounds(if inKey then r.end else r.begin, buf);
      BoundedSuffix(r, buf, e);
      DrainedKeyIsOpen(r, buf[e..], !inKey);
  }

  // ----- runs

  ghost function Concat(chunks: seq<string>): string {
    if chunks == [] then "" else chunks[0] + Concat(chunks[1..])
  }

  /** Everything forwarded by writing chunks one by one and closing. */
  ghost function Run(r: Redactor, chunks: seq<string>, buf: string, inKey: bool): string
    requires Valid(r)
    decreases |chunks|
  {
    if chunks == [] then Process(r, buf, inKey, true).out
    else if chunks[0] == "" then Run(r, chunks[1..], buf, inKey)
    else
      var p := Process(r, buf + chunks[0], inKey, false);
      p.out + Run(r, chunks[1..], p.buf, p.inKey)
  }

  /** The pending buffer stays below its cap on the way. */
  ghost predicate Calm(r: Redactor, chunks: seq<string>, buf: string, inKey: bool)
    requires Valid(r)
    decreases |chunks|
  {
    chunks != [] ==>
      if chunks[0] == "" then Calm(r, chunks[1..], buf, inKey)
      else
        && BelowCap(r, buf + chunks[0], inKey)
        && var p := Process(r, buf + chunks[0], inKey, false); Calm(r, chunks[1..], p.buf, p.inKey)
  }

  lemma WriteKeeps(r: Redactor, now: string, rest: string, inKey: bool)
    requires Valid(r) && Bounded(r, now + rest) && BelowCap(r, now, inKey)
    ensures var p := Process(r, now, inKey, false);
            Whole(r, now + rest, inKey) == p.out + Whole(r, p.buf + rest, p.inKey) && Bounded(r, p.buf + rest)
  {
    var x, p := now + rest, Process(r, now, inKey, false);
    assert x[..|now|] == now;
    ProcessKeeps(r, x, |now|, inKey);
    LosslessWrite(r, x, now, rest, inKey, p, p.buf + rest);
    BoundedSuffix(r, x, |now| - |p.buf|);
  }

  lemma LosslessWrite(r: Redactor, x: string, now: string, rest: string, inKey: bool, p: Pass, back: string)
    requires Valid(r) && x == now + rest && x[..|now|] == now && Lossless(r, x, |now|, inKey, p) && back == p.buf + rest
    ensures x[|now| - |p.buf|..] == back && Whole(r, x, inKey) == p.out + Whole(r, back, p.inKey)
  {
    var k := |now| - |p.buf|;
    assert p.buf == x[k..|now|] == now[k..];
    SuffixOfSum(now, rest, k);
  }

  lemma SuffixOfSum(a: string, b: string, k: nat)
    requires k <= |a|
    ensures (a + b)[k..] == a[k..] + b
  {
  }

  /** However a text is chunked, while the buffer stays below its cap the stream
      forwards exactly what the whole text redacts to. */
  lemma {:induction false} StreamIsWhole(r: Redactor, chunks: seq<string>, buf: string, inKey: bool)
    requires Valid(r) && Bounded(r, buf + Concat(chunks)) && Calm(r, chunks, buf, inKey)
    ensures Run(r, chunks, buf, inKey) == Whole(r, buf + Concat(chunks), inKey)
    decreases |chunks|
  {
    if chunks == [] {
      assert buf + "" == buf;
      ProcessFinishes(r, buf, inKey);
    } else {
      var rest := Concat(chunks[1..]);
      Associate(buf, chunks[0], rest);
      if chunks[0] == "" {
        assert buf + "" == buf;
        StreamIsWhole(r, chunks[1..], buf, inKey);
      } else {
        WriteKeeps(r, buf + chunks[0], rest, inKey);
        var p := Process(r, buf + chunks[0], inKey, false);
        StreamIsWhole(r, chunks[1..], p.buf, p.inKey);
      }
    }
  }

  lemma PassOnlyShrinks(r: Redactor, buf: string, inKey: bool)
    requires Valid(r)
    ensures |Process(r, buf, inKey, false).buf| <= |buf|
  {
  }

  lemma {:induction false} ShortTextIsCalm(r: Redactor, chunks: seq<string>, buf: string, inKey: bool)
    requires Valid(r) && |buf| + |Concat(chunks)| < MAX_PENDING
    ensures Calm(r, chunks, buf, inKey)
    decreases |chunks|
  {
    if chunks != [] {
      if chunks[0] == "" {
        ShortTextIsCalm(r, chunks[1..], buf, inKey);
      } else {
        var p := Process(r, buf + chunks[0], inKey, false);
        PassOnlyShrinks(r, buf + chunks[0], inKey);
        ShortTextIsCalm(r, chunks[1..], p.buf, p.inKey);
      }
    }
  }

  /** The writer never holds back more than its cap, or its overlap if that is more. */
  lemma PendingIsCapped(r: Redactor, buf: string, inKey: bool)
    requires Valid(r)
    ensures |Process(r, buf, inKey, false).buf| <= Max(MAX_PENDING - 1, r.overlap)
  {
    if |buf| >= MIN_OVERLAP {
      DrainedKeyIsShort(r, buf, inKey);
    }
  }

  lemma {:induction false} DrainedKeyIsShort(r: Redactor, buf: string, inKey: bool)
    requires Valid(r)
    ensures Drain(r, buf, inKey).inKey ==> |Drain(r, buf, inKey).buf| <= PEM_TAIL_KEEP
    decreases |buf|
  {
    match B.Find(if inKey then r.end else r.begin, buf)
    case Nowhere =>
    case Somewhere(s, e) =>
      B.FindBounds(if inKey then r.end else r.begin, buf);
      DrainedKeyIsShort(r, buf[e..], !inKey);
  }
}
