/** What a stream says about the text that went through it, with no bound on its key
    boundaries: a run of passes replaces ranges of the text, and below the cap those
    ranges leave no secret whole. */
module StreamCoverage {
  import B = Boundaries
  import Scan
  import opened Spans
  import opened Literals
  import opened Redaction
  import opened Coverage

  // ----- the ranges a run replaces

  /** The first n bytes, dropped with no marker of their own. */
  function Gap(n: nat): seq<Span> {
    if n == 0 then [] else [Span(0, n, 0, n, "")]
  }

  /** The ranges replaced of the first c bytes of a text, and then those of the rest. */
  function Then(first: seq<Span>, c: int, later: seq<Span>): seq<Span> {
    first + ShiftAll(later, c)
  }

  /** The ranges of buf a drain replaces. */
  ghost function DrainReplaced(r: Redactor, buf: string, inKey: bool): seq<Span>
    requires Valid(r)
    decreases |buf|
  {
    if inKey then
      match B.Find(r.end, buf)
      case Nowhere => Gap(|buf| - |Drain(r, buf, true).buf|)
      case Somewhere(_, e) =>
        B.FindBounds(r.end, buf);
        Then(Gap(e), e, DrainReplaced(r, buf[e..], false))
    else
      match B.Find(r.begin, buf)
      case Nowhere => []
      case Somewhere(s, e) =>
        B.FindBounds(r.begin, buf);
        Then(Head(r, buf, s, e), e, DrainReplaced(r, buf[e..], true))
  }

  /** The ranges replaced of what is left of a buffer when its boundaries are out of it. */
  ghost function LeftReplaced(r: Redactor, d: Pass, final: bool): seq<Span>
    requires Valid(r)
  {
    if d.inKey then (if final then Gap(|d.buf|) else [])
    else SpansOf(r.secrets, d.buf[..FlushPoint(r, d.buf, final)])
  }

  ghost function PassReplaced(r: Redactor, buf: string, inKey: bool, final: bool): seq<Span>
    requires Valid(r)
  {
    if !final && |buf| < MIN_OVERLAP then [] else
      var d := Drain(r, buf, inKey);
      Then(DrainReplaced(r, buf, inKey), |buf| - |d.buf|, LeftReplaced(r, d, final))
  }

  /** The ranges of buf and the chunks together that writing them and closing replaces. */
  ghost function RunReplaced(r: Redactor, chunks: seq<string>, buf: string, inKey: bool): seq<Span>
    requires Valid(r)
    decreases |chunks|
  {
    if chunks == [] then PassReplaced(r, buf, inKey, true)
    else if chunks[0] == "" then RunReplaced(r, chunks[1..], buf, inKey)
    else
      var now := buf + chunks[0];
      var p := Process(r, now, inKey, false);
      Then(PassReplaced(r, now, inKey, false), |now| - |p.buf|, RunReplaced(r, chunks[1..], p.buf, p.inKey))
  }

  // ----- what is forwarded is the text with those replaced

  /** found is in order, disjoint and inside text, and replacing it gives out. */
  ghost predicate Replaces(text: string, found: seq<Span>, out: string) {
    Ranges(found) && FitIn(found, |text|) && Apply(text, found) == out
  }

  /** Two texts replaced one after the other. */
  lemma ReplacesJoin(front: string, s: seq<Span>, frontOut: string, back: string, t: seq<Span>, backOut: string,
                     text: string, found: seq<Span>, out: string)
    requires Replaces(front, s, frontOut) && Replaces(back, t, backOut)
    requires text == front + back && found == Then(s, |front|, t) && out == frontOut + backOut
    ensures Replaces(text, found, out)
  {
    assert text[..|front|] == front && text[|front|..] == back;
    RangesJoin(s, t, |front|);
    ApplySplit(text, |front|, s, t);
  }

  lemma GapReplaces(text: string)
    ensures Replaces(text, Gap(|text|), "")
  {
    if text == "" {
      NothingLeft(text);
    } else {
      OneRange(text, "");
    }
  }

  lemma LiteralsReplace(r: Redactor, text: string)
    requires Valid(r)
    ensures Replaces(text, SpansOf(r.secrets, text), Redact(r.secrets, text))
  {
    SpansOfSound(r.secrets, text);
  }

  lemma HeadReplaces(r: Redactor, buf: string, s: int, e: int)
    requires Valid(r) && 0 <= s < e <= |buf|
    ensures Replaces(buf[..e], Head(r, buf, s, e), Redact(r.secrets, buf[..s]) + r.keyMark)
  {
    HeadSound(r, buf, s, e);
  }

  /** A drain leaves the end of the buffer, and what it forwards is what it took, replaced. */
  ghost predicate DrainedAs(r: Redactor, buf: string, inKey: bool, taken: string)
    requires Valid(r)
  {
    var d := Drain(r, buf, inKey);
    buf == taken + d.buf && Replaces(taken, DrainReplaced(r, buf, inKey), d.out)
  }

  lemma {:induction false} DrainReplaces(r: Redactor, buf: string, inKey: bool) returns (taken: string)
    requires Valid(r)
    ensures DrainedAs(r, buf, inKey, taken)
    decreases |buf|
  {
    var k := if inKey then r.end else r.begin;
    match B.Find(k, buf)
    case Nowhere =>
      taken := DrainReplacesLast(r, buf, inKey);
    case Somewhere(s, e) =>
      B.FindBounds(k, buf);
      var later := DrainReplaces(r, buf[e..], !inKey);
      taken := buf[..e] + later;
      Regroup(buf, e, later, Drain(r, buf[e..], !inKey).buf);
      if inKey {
        DrainReplacesEnd(r, buf, s, e, later, taken);
      } else {
        DrainReplacesBegin(r, buf, s, e, later, taken);
      }
  }

  lemma Regroup(buf: string, e: nat, later: string, kept: string)
    requires e <= |buf| && buf[e..] == later + kept
    ensures buf == (buf[..e] + later) + kept
  {
    assert buf == buf[..e] + buf[e..];
  }

  lemma DrainReplacesLast(r: Redactor, buf: string, inKey: bool) returns (taken: string)
    requires Valid(r) && B.Find(if inKey then r.end else r.begin, buf) == B.Nowhere
    ensures DrainedAs(r, buf, inKey, taken)
  {
    var d := Drain(r, buf, inKey);
    taken := buf[..|buf| - |d.buf|];
    assert buf == taken + d.buf;
    GapReplaces(taken);
    assert DrainReplaced(r, buf, inKey) == Gap(|taken|);
  }

  lemma DrainReplacesEnd(r: Redactor, buf: string, s: int, e: int, later: string, taken: string)
    requires Valid(r) && 0 <= s < e <= |buf| && B.Find(r.end, buf) == B.Somewhere(s, e)
    requires DrainedAs(r, buf[e..], false, later)
    requires taken == buf[..e] + later && buf == taken + Drain(r, buf[e..], false).buf
    ensures DrainedAs(r, buf, true, taken)
  {
    var d := Drain(r, buf[e..], false);
    GapReplaces(buf[..e]);
    assert "" + d.out == d.out;
    ReplacesJoin(buf[..e], Gap(e), "", later, DrainReplaced(r, buf[e..], false), d.out,
      taken, DrainReplaced(r, buf, true), d.out);
  }

  lemma DrainReplacesBegin(r: Redactor, buf: string, s: int, e: int, later: string, taken: string)
    requires Valid(r) && 0 <= s < e <= |buf| && B.Find(r.begin, buf) == B.Somewhere(s, e)
    requires DrainedAs(r, buf[e..], true, later)
    requires taken == buf[..e] + later && buf == taken + Drain(r, buf[e..], true).buf
    ensures DrainedAs(r, buf, false, taken)
  {
    var d := Drain(r, buf[e..], true);
    HeadReplaces(r, buf, s, e);
    ReplacesJoin(buf[..e], Head(r, buf, s, e), Redact(r.secrets, buf[..s]) + r.keyMark,
      later, DrainReplaced(r, buf[e..], true), d.out,
      taken, DrainReplaced(r, buf, false), Drain(r, buf, false).out);
  }

  // ----- a pass

  ghost function LeftOut(r: Redactor, d: Pass, final: bool): string
    requires Valid(r)
  {
    if d.inKey then "" else Redact(r.secrets, d.buf[..FlushPoint(r, d.buf, final)])
  }

  /** How much of what a drain left the pass takes. */
  ghost function LeftTaken(r: Redactor, d: Pass, final: bool): (n: nat)
    requires Valid(r)
    ensures n <= |d.buf|
  {
    if d.inKey then (if final then |d.buf| else 0) else FlushPoint(r, d.buf, final)
  }

  lemma LeftReplaces(r: Redactor, d: Pass, final: bool)
    requires Valid(r)
    ensures Replaces(d.buf[..LeftTaken(r, d, final)], LeftReplaced(r, d, final), LeftOut(r, d, final))
  {
    var text := d.buf[..LeftTaken(r, d, final)];
    if d.inKey {
      GapReplaces(text);
    } else {
      LiteralsReplace(r, text);
    }
  }

  /** A pass leaves the end of the buffer, none of it when it is the last, and what it
      forwards is what it took, replaced. */
  ghost predicate PassedAs(r: Redactor, buf: string, inKey: bool, final: bool, taken: string)
    requires Valid(r)
  {
    var p := Process(r, buf, inKey, final);
    buf == taken + p.buf && (final ==> p.buf == "") && Replaces(taken, PassReplaced(r, buf, inKey, final), p.out)
  }

  lemma PassReplaces(r: Redactor, buf: string, inKey: bool, final: bool) returns (taken: string)
    requires Valid(r)
    ensures PassedAs(r, buf, inKey, final, taken)
  {
    if !final && |buf| < MIN_OVERLAP {
      taken := "";
      NothingLeft(taken);
    } else {
      var d, p := Drain(r, buf, inKey), Process(r, buf, inKey, final);
      var drained := DrainReplaces(r, buf, inKey);
      PassIsTwoParts(r, buf, inKey, final, drained);
      taken := drained + d.buf[..LeftTaken(r, d, final)];
      Associate(drained, d.buf[..LeftTaken(r, d, final)], p.buf);
      TwoPartsReplace(r, d, final, drained, DrainReplaced(r, buf, inKey), p.out, PassReplaced(r, buf, inKey, final));
    }
  }

  lemma TwoPartsReplace(r: Redactor, d: Pass, final: bool, drained: string, first: seq<Span>, out: string,
                        found: seq<Span>)
    requires Valid(r) && Replaces(drained, first, d.out) && out == d.out + LeftOut(r, d, final)
    requires found == Then(first, |drained|, LeftReplaced(r, d, final))
    ensures Replaces(drained + d.buf[..LeftTaken(r, d, final)], found, out)
  {
    var left := d.buf[..LeftTaken(r, d, final)];
    LeftReplaces(r, d, final);
    ReplacesJoin(drained, first, d.out, left, LeftReplaced(r, d, final), LeftOut(r, d, final),
                 drained + left, found, out);
  }

  lemma PassIsTwoParts(r: Redactor, buf: string, inKey: bool, final: bool, drained: string)
    requires Valid(r) && (final || |buf| >= MIN_OVERLAP) && buf == drained + Drain(r, buf, inKey).buf
    ensures var d, p := Drain(r, buf, inKey), Process(r, buf, inKey, final);
            p.out == d.out + LeftOut(r, d, final) && d.buf == d.buf[..LeftTaken(r, d, final)] + p.buf
            && (final ==> p.buf == "")
            && PassReplaced(r, buf, inKey, final)
               == Then(DrainReplaced(r, buf, inKey), |drained|, LeftReplaced(r, d, final))
  {
    LeftIsTwoParts(r, Drain(r, buf, inKey), final, Process(r, buf, inKey, final));
  }

  lemma LeftIsTwoParts(r: Redactor, d: Pass, final: bool, p: Pass)
    requires Valid(r) && p == if d.inKey then d.(buf := if final then "" else d.buf) else Flush(r, d, final)
    ensures p.out == d.out + LeftOut(r, d, final) && d.buf == d.buf[..LeftTaken(r, d, final)] + p.buf
    ensures final ==> p.buf == ""
  {
    if d.inKey {
      assert d.out + "" == d.out;
    }
  }

  // ----- a run

  /** However a text is chunked, and whatever boundaries it holds, the stream forwards the
      text with just those ranges replaced: they are in order, disjoint and inside it. */
  lemma {:induction false} StreamIsReplacement(r: Redactor, chunks: seq<string>, buf: string, inKey: bool)
    requires Valid(r)
    ensures Replaces(buf + Concat(chunks), RunReplaced(r, chunks, buf, inKey), Run(r, chunks, buf, inKey))
    decreases |chunks|
  {
    if chunks == [] {
      assert buf + "" == buf;
      var taken := PassReplaces(r, buf, inKey, true);
      assert taken == buf;
    } else {
      var rest := Concat(chunks[1..]);
      Associate(buf, chunks[0], rest);
      if chunks[0] == "" {
        assert buf + "" == buf;
        StreamIsReplacement(r, chunks[1..], buf, inKey);
      } else {
        var now := buf + chunks[0];
        var p := Process(r, now, inKey, false);
        var taken := PassReplaces(r, now, inKey, false);
        StreamIsReplacement(r, chunks[1..], p.buf, p.inKey);
        Associate(taken, p.buf, rest);
        ReplacesJoin(taken, PassReplaced(r, now, inKey, false), p.out,
          p.buf + rest, RunReplaced(r, chunks[1..], p.buf, p.inKey), Run(r, chunks[1..], p.buf, p.inKey),
          buf + Concat(chunks), RunReplaced(r, chunks, buf, inKey), Run(r, chunks, buf, inKey));
      }
    }
  }

  // ----- no secret is left whole

  /** Some position from i up to j is in a range of found. */
  ghost predicate Touches(found: seq<Span>, i: int, j: int) {
    exists p :: i <= p < j && Covers(found, p)
  }

  lemma TouchesOnTheLeft(s: seq<Span>, t: seq<Span>, c: int, i: int, j: int)
    requires Touches(s, i, j)
    ensures Touches(Then(s, c, t), i, j)
  {
    var p :| i <= p < j && Covers(s, p);
    CoveredOnTheLeft(s, ShiftAll(t, c), p);
  }

  lemma TouchesOnTheRight(s: seq<Span>, t: seq<Span>, c: int, i: int, j: int)
    requires Touches(t, i - c, j - c)
    ensures Touches(Then(s, c, t), i, j)
  {
    var p :| i - c <= p < j - c && Covers(t, p);
    CoveredOnTheRight(s, t, c, p);
  }

  lemma GapTouches(n: nat, i: int, j: int)
    requires 0 <= i < n && i < j
    ensures Touches(Gap(n), i, j)
  {
    assert Gap(n)[0].start <= i < Gap(n)[0].end;
    assert Covers(Gap(n), i);
  }

  lemma HeadTouches(r: Redactor, buf: string, more: string, s: int, e: int, secret: Secret, i: int)
    requires Valid(r) && secret in r.secrets && Scan.OccursAt(buf + more, secret.value, i)
    requires 0 <= s < e <= |buf| && i < e
    ensures Touches(Head(r, buf, s, e), i, i + |secret.value|)
  {
    assert (buf + more)[..s] == buf[..s];
    var p := HeadHides(r, buf + more, s, e, secret, i);
  }

  /** Wherever v begins in the first k bytes of text, found touches it. */
  ghost predicate TouchesUpTo(text: string, v: string, found: seq<Span>, k: int) {
    forall i :: i < k && Scan.OccursAt(text, v, i) ==> Touches(found, i, i + |v|)
  }

  lemma GapTouchesAll(text: string, v: string, n: nat)
    requires v != ""
    ensures TouchesUpTo(text, v, Gap(n), n)
  {
    forall i | i < n && Scan.OccursAt(text, v, i) ensures Touches(Gap(n), i, i + |v|) {
      GapTouches(n, i, i + |v|);
    }
  }

  lemma HeadTouchesAll(r: Redactor, buf: string, more: string, s: int, e: int, secret: Secret)
    requires Valid(r) && secret in r.secrets && 0 <= s < e <= |buf|
    ensures TouchesUpTo(buf + more, secret.value, Head(r, buf, s, e), e)
  {
    forall i | i < e && Scan.OccursAt(buf + more, secret.value, i)
      ensures Touches(Head(r, buf, s, e), i, i + |secret.value|)
    {
      HeadTouches(r, buf, more, s, e, secret, i);
    }
  }

  /** A text in two parts: first is replaced of the front, and later of the rest. */
  lemma TouchesJoin(text: string, v: string, front: string, rest: string, first: seq<Span>, later: seq<Span>,
                    found: seq<Span>, k: int, n: int)
    requires text == front + rest && found == Then(first, |front|, later) && n == |front| + k
    requires TouchesUpTo(text, v, first, |front|) && TouchesUpTo(rest, v, later, k)
    ensures TouchesUpTo(text, v, found, n)
  {
    var e := |front|;
    assert text[e..] == rest;
    forall i | i < n && Scan.OccursAt(text, v, i) ensures Touches(found, i, i + |v|) {
      if i < e {
        TouchesOnTheLeft(first, later, e, i, i + |v|);
      } else {
        Scan.OccursInSuffix(text, e, v, i - e);
        TouchesOnTheRight(first, later, e, i, i + |v|);
      }
    }
  }

  /** Values that begin in what a drain takes, and may end in what is still to come. */
  lemma {:induction false} DrainTouches(r: Redactor, buf: string, more: string, inKey: bool, text: string,
                                        found: seq<Span>, n: int, secret: Secret)
    requires Valid(r) && secret in r.secrets && text == buf + more && found == DrainReplaced(r, buf, inKey)
    requires n == |buf| - |Drain(r, buf, inKey).buf|
    ensures TouchesUpTo(text, secret.value, found, n)
    decreases |buf|
  {
    match B.Find(if inKey then r.end else r.begin, buf)
    case Nowhere =>
      if inKey {
        GapTouchesAll(text, secret.value, n);
      }
    case Somewhere(s, e) =>
      B.FindBounds(if inKey then r.end else r.begin, buf);
      if inKey {
        GapTouchesAll(text, secret.value, e);
      } else {
        HeadTouchesAll(r, buf, more, s, e, secret);
      }
      var front, rest := buf[..e], buf[e..];
      var later, k := DrainReplaced(r, rest, !inKey), |rest| - |Drain(r, rest, !inKey).buf|;
      DrainTouches(r, rest, more, !inKey, rest + more, later, k, secret);
      assert front + rest == buf;
      Associate(front, rest, more);
      TouchesJoin(text, secret.value, front, rest + more, if inKey then Gap(e) else Head(r, buf, s, e), later,
                  found, k, n);
  }

  /** A value that begins before a point no match goes through begins in a range that is
      replaced of what comes before that point. */
  lemma ClearCutCovers(secrets: seq<Secret>, b: string, c: nat, secret: Secret, i: int)
    requires Usable(secrets) && secret in secrets && c <= |b| && Clear(secrets, b, c)
    requires Scan.OccursAt(b, secret.value, i) && i < c
    ensures Covers(SpansOf(secrets, b[..c]), i)
  {
    Scan.EveryOccurrenceIsHit(b, secret.value, i);
    var m :| m in Scan.Matches(b, secret.value) && m <= i < m + |secret.value|;
    assert !Scan.Straddled(Scan.Matches(b, secret.value), |secret.value|, c);
    Scan.MatchesOfPrefix(b, c, secret.value);
    MatchCovers(secrets, b[..c], secret, m, i);
  }

  lemma MatchCovers(secrets: seq<Secret>, b: string, secret: Secret, m: int, i: int)
    requires Usable(secrets) && secret in secrets && m in Scan.Matches(b, secret.value) && m <= i < m + |secret.value|
    ensures Covers(SpansOf(secrets, b), i)
  {
    var x, found := Hit(secret, m), SpansOf(secrets, b);
    RawIs(secrets, b, x);
    SpansOfSound(secrets, b);
    var k :| 0 <= k < |found| && Swallows(found[k], x);
    assert found[k].start <= i < found[k].end;
  }

  /** A value that begins in what is flushed of a buffer below the cap. */
  lemma FlushTouches(r: Redactor, b: string, more: string, final: bool, secret: Secret, i: int)
    requires Valid(r) && secret in r.secrets && Scan.OccursAt(b + more, secret.value, i)
    requires i < FlushPoint(r, b, final) && (if final then more == "" else |b| < MAX_PENDING)
    ensures Touches(SpansOf(r.secrets, b[..FlushPoint(r, b, final)]), i, i + |secret.value|)
  {
    var c := FlushPoint(r, b, final);
    assert i + |secret.value| <= |b|;
    assert (b + more)[..|b|] == b;
    Scan.OccursInPrefix(b + more, |b|, secret.value, i);
    if final {
      assert b[..c] == b;
      OccurrenceIsCovered(r.secrets, b, secret, i);
    } else {
      SafeIsClear(r.secrets, b, c);
      ClearCutCovers(r.secrets, b, c, secret, i);
    }
  }

  /** Values that begin in what a pass takes of what a drain left. */
  lemma LeftTouches(r: Redactor, d: Pass, more: string, final: bool, secret: Secret)
    requires Valid(r) && secret in r.secrets && (if final then more == "" else |d.buf| < MAX_PENDING)
    ensures TouchesUpTo(d.buf + more, secret.value, LeftReplaced(r, d, final), LeftTaken(r, d, final))
  {
    if d.inKey {
      GapTouchesAll(d.buf + more, secret.value, LeftTaken(r, d, final));
    } else {
      var found := LeftReplaced(r, d, final);
      forall i | i < LeftTaken(r, d, final) && Scan.OccursAt(d.buf + more, secret.value, i)
        ensures Touches(found, i, i + |secret.value|)
      {
        FlushTouches(r, d.buf, more, final, secret, i);
      }
    }
  }

  /** Values that begin in what a pass takes. */
  lemma PassTouches(r: Redactor, buf: string, more: string, inKey: bool, final: bool, text: string,
                    found: seq<Span>, n: int, secret: Secret)
    requires Valid(r) && secret in r.secrets && (if final then more == "" else BelowCap(r, buf, inKey))
    requires text == buf + more && found == PassReplaced(r, buf, inKey, final)
    requires n == |buf| - |Process(r, buf, inKey, final).buf|
    ensures TouchesUpTo(text, secret.value, found, n)
  {
    if final || |buf| >= MIN_OVERLAP {
      var d := Drain(r, buf, inKey);
      var first, later := DrainReplaced(r, buf, inKey), LeftReplaced(r, d, final);
      var drained := DrainReplaces(r, buf, inKey);
      PassIsTwoParts(r, buf, inKey, final, drained);
      DrainTouches(r, buf, more, inKey, text, first, |drained|, secret);
      LeftTouches(r, d, more, final, secret);
      Associate(drained, d.buf, more);
      TouchesJoin(text, secret.value, drained, d.buf + more, first, later, found, LeftTaken(r, d, final), n);
    }
  }

  lemma PassTakes(r: Redactor, buf: string, inKey: bool, p: Pass) returns (taken: string)
    requires Valid(r) && p == Process(r, buf, inKey, false)
    ensures buf == taken + p.buf
  {
    taken := PassReplaces(r, buf, inKey, false);
  }

  /** text is what is pending with what is still to be written, and found what a run
      replaces of it. */
  lemma {:induction false} RunTouches(r: Redactor, chunks: seq<string>, buf: string, inKey: bool,
                                      text: string, found: seq<Span>, secret: Secret)
    requires Valid(r) && Calm(r, chunks, buf, inKey) && secret in r.secrets
    requires text == buf + Concat(chunks) && found == RunReplaced(r, chunks, buf, inKey)
    ensures TouchesUpTo(text, secret.value, found, |text|)
    decreases |chunks|
  {
    if chunks == [] {
      LastPassTouches(r, buf, inKey, secret);
      assert text == buf;
    } else if chunks[0] == "" {
      ConcatSkips(chunks);
      RunTouches(r, chunks[1..], buf, inKey, text, found, secret);
    } else {
      var now, later := buf + chunks[0], Concat(chunks[1..]);
      var p := Process(r, now, inKey, false);
      Associate(buf, chunks[0], later);
      var taken := PassTakes(r, now, inKey, p);
      Associate(taken, p.buf, later);
      var first, last := PassReplaced(r, now, inKey, false), RunReplaced(r, chunks[1..], p.buf, p.inKey);
      PassTouches(r, now, later, inKey, false, text, first, |taken|, secret);
      RunTouches(r, chunks[1..], p.buf, p.inKey, p.buf + later, last, secret);
      TouchesJoin(text, secret.value, taken, p.buf + later, first, last, found, |p.buf + later|, |text|);
    }
  }

  lemma ConcatSkips(chunks: seq<string>)
    requires chunks != [] && chunks[0] == ""
    ensures Concat(chunks) == Concat(chunks[1..])
  {
  }

  lemma LastPassTouches(r: Redactor, buf: string, inKey: bool, secret: Secret)
    requires Valid(r) && secret in r.secrets
    ensures TouchesUpTo(buf, secret.value, PassReplaced(r, buf, inKey, true), |buf|)
  {
    var taken := PassReplaces(r, buf, inKey, true);
    assert buf + "" == buf;
    PassTouches(r, buf, "", inKey, true, buf, PassReplaced(r, buf, inKey, true), |buf|, secret);
  }

  /** Below the cap, however a text is chunked and whatever boundaries it holds, wherever a
      seeded value occurs in it some byte of it is in a range the stream replaces. */
  lemma NoSecretIsStreamedWhole(r: Redactor, chunks: seq<string>, secret: Secret, i: int)
    requires Valid(r) && Calm(r, chunks, "", false)
    requires secret in r.secrets && Scan.OccursAt(Concat(chunks), secret.value, i)
    ensures Touches(RunReplaced(r, chunks, "", false), i, i + |secret.value|)
  {
    var text := Concat(chunks);
    assert "" + text == text;
    RunTouches(r, chunks, "", false, text, RunReplaced(r, chunks, "", false), secret);
  }

  // ----- and exactly below the cap

  /** The stream replaces some byte of every seeded value that occurs. */
  ghost predicate HidesAll(r: Redactor, chunks: seq<string>)
    requires Valid(r)
  {
    forall secret, i :: secret in r.secrets && Scan.OccursAt(Concat(chunks), secret.value, i) ==>
      Touches(RunReplaced(r, chunks, "", false), i, i + |secret.value|)
  }

  ghost predicate AlwaysHides(n: nat, begin: B.Boundary, end: B.Boundary) {
    forall r, chunks :: Valid(r) && r.begin == begin && r.end == end && |Concat(chunks)| == n ==> HidesAll(r, chunks)
  }

  lemma AbsentHasNoSpans(s: Secret, b: string)
    requires |s.value| > 0 && forall i :: !Scan.OccursAt(b, s.value, i)
    ensures SpansOf([s], b) == []
  {
    RawIsComparable([s], b);
    assert Raw([s], b) == {};
    SortIs({}, []);
  }

  /** Neither half of a text across the flush point holds the value or a boundary. */
  lemma HalvesArePlain(n: nat, s: Secret, begin: B.Boundary, x: string, c: int)
    requires n >= MAX_PENDING && s.value == ['a', 'b', 'c', 'd'] && x == Astride(n) && c == n - MIN_OVERLAP
    requires B.Valid(begin)
    ensures SpansOf([s], x[..c]) == SpansOf([s], x[c..]) == []
    ensures B.Find(begin, x) == B.Find(begin, x[c..]) == B.Nowhere
  {
    forall i ensures !Scan.OccursAt(x[..c], s.value, i) && !Scan.OccursAt(x[c..], s.value, i) {
      HalvesHoldNoSecret(n, s.value, i);
    }
    AbsentHasNoSpans(s, x[..c]);
    AbsentHasNoSpans(s, x[c..]);
    PlainHasNoBoundary(begin, x);
    PlainHasNoBoundary(begin, x[c..]);
  }

  /** At the cap a value across the flush point has no byte replaced. */
  lemma AstrideIsNotTouched(n: nat, s: Secret, r: Redactor, x: string)
    requires n >= MAX_PENDING && s.value == ['a', 'b', 'c', 'd'] && x == Astride(n)
    requires Valid(r) && r.secrets == [s] && r.overlap == MIN_OVERLAP
    ensures RunReplaced(r, [x], "", false) == []
  {
    var c := n - MIN_OVERLAP;
    HalvesArePlain(n, s, r.begin, x, c);
    FirstWriteAtCap(r, x, c);
    LastPassFindsNothing(r, x[c..]);
    assert [x][1..] == [] && "" + x == x;
  }

  lemma LastPassFindsNothing(r: Redactor, b: string)
    requires Valid(r) && B.Find(r.begin, b) == B.Nowhere && SpansOf(r.secrets, b) == []
    ensures PassReplaced(r, b, false, true) == []
  {
    assert b[..|b|] == b;
  }

  lemma FirstWriteAtCap(r: Redactor, x: string, c: nat)
    requires Valid(r) && |x| >= MAX_PENDING && r.overlap == MIN_OVERLAP && c == |x| - MIN_OVERLAP
    requires B.Find(r.begin, x) == B.Nowhere && SpansOf(r.secrets, x[..c]) == []
    ensures PassReplaced(r, x, false, false) == []
    ensures Process(r, x, false, false).buf == x[c..] && !Process(r, x, false, false).inKey
  {
  }

  lemma Escapes(r: Redactor, x: string, s: Secret, i: int)
    requires Valid(r) && s in r.secrets
    ensures Scan.OccursAt(x, s.value, i) && RunReplaced(r, [x], "", false) == [] ==> !HidesAll(r, [x])
  {
    OneChunk(x);
    assert !Touches([], i, i + |s.value|);
  }

  /** At the cap one value passes whole. */
  lemma CapLeavesOneWhole(n: nat, s: Secret, r: Redactor, x: string)
    requires n >= MAX_PENDING && s.value == ['a', 'b', 'c', 'd'] && x == Astride(n)
    requires Valid(r) && r.secrets == [s] && r.overlap == MIN_OVERLAP
    ensures !HidesAll(r, [x]) && |Concat([x])| == n
  {
    AstrideHolds(n, s.value);
    AstrideIsNotTouched(n, s, r, x);
    Escapes(r, x, s, n - 130);
    OneChunk(x);
  }

  lemma OneEscapeIsEnough(n: nat, begin: B.Boundary, end: B.Boundary, r: Redactor, chunks: seq<string>)
    requires Valid(r) && r.begin == begin && r.end == end && |Concat(chunks)| == n
    ensures AlwaysHides(n, begin, end) ==> HidesAll(r, chunks)
  {
  }

  lemma ShortHides(r: Redactor, chunks: seq<string>)
    requires Valid(r) && |Concat(chunks)| < MAX_PENDING
    ensures HidesAll(r, chunks)
  {
    ShortTextIsCalm(r, chunks, "", false);
    forall secret, i | secret in r.secrets && Scan.OccursAt(Concat(chunks), secret.value, i)
      ensures Touches(RunReplaced(r, chunks, "", false), i, i + |secret.value|)
    {
      NoSecretIsStreamedWhole(r, chunks, secret, i);
    }
  }

  /** For every length: in all texts of that length, however they are chunked and whatever
      boundaries they hold, every seeded value has a byte replaced if and only if the length
      is below the cap. */
  lemma HidesExactlyBelowCap(n: nat, begin: B.Boundary, end: B.Boundary)
    requires B.Valid(begin) && B.Valid(end)
    ensures AlwaysHides(n, begin, end) <==> n < 256 * 1024
  {
    if n < MAX_PENDING {
      forall r, chunks | Valid(r) && |Concat(chunks)| == n ensures HidesAll(r, chunks) {
        ShortHides(r, chunks);
      }
    } else {
      var s := Secret("!", ['a', 'b', 'c', 'd']);
      var r := Redactor([s], MIN_OVERLAP, begin, end, "");
      CapLeavesOneWhole(n, s, r, Astride(n));
      OneEscapeIsEnough(n, begin, end, r, [Astride(n)]);
    }
  }
}
