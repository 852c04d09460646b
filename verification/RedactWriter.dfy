/** The streaming redactor as the program runs it: a writer with a pending buffer, in
    front of a bounded capture and behind the sink a child process writes to. Every
    method is proved to do what the functions of Redaction say. */
module RedactWriter {
  import B = Boundaries
  import Scan
  import opened Spans
  import opened Literals
  import opened Bytes
  import opened Redaction

  // ----- finding the spans of a buffer

  /** ms are the hits at these positions. */
  ghost predicate Hits(ms: seq<Span>, at: set<int>, s: Secret) {
    forall x :: x in ms <==> x.start in at && x == Hit(s, x.start)
  }

  /** Every position in at leaves room for w bytes before n. */
  ghost predicate Room(at: set<int>, w: nat, n: nat) {
    forall i :: i in at ==> i + w <= n
  }

  /** The matches a scan from off takes, in the order it takes them, of a secret that is
      at these positions of n bytes. */
  function HitsFrom(at: set<int>, n: nat, s: Secret, off: int): seq<Span>
    requires |s.value| > 0 && 0 <= off
    decreases n + 1 - off
  {
    var i := Scan.First(at, off, n + 1);
    if i == -1 then [] else [Hit(s, i)] + HitsFrom(at, n, s, i + |s.value|)
  }

  lemma {:induction false} HitsFromAre(at: set<int>, n: nat, s: Secret, off: int, hits: seq<Span>, taken: set<int>)
    requires |s.value| > 0 && 0 <= off
    requires hits == HitsFrom(at, n, s, off) && taken == Scan.Greedy(at, |s.value|, off, n + 1)
    ensures Sorted(hits) && Hits(hits, taken, s)
    decreases n + 1 - off
  {
    var i := Scan.First(at, off, n + 1);
    if i != -1 {
      var next := i + |s.value|;
      var rest, later := HitsFrom(at, n, s, next), Scan.Greedy(at, |s.value|, next, n + 1);
      HitsFromAre(at, n, s, next, rest, later);
      HitFirst(s, i, rest, later, hits, taken);
    }
  }

  lemma HitFirst(s: Secret, i: int, rest: seq<Span>, at: set<int>, hits: seq<Span>, taken: set<int>)
    requires Sorted(rest) && Hits(rest, at, s) && forall m :: m in at ==> i < m
    requires hits == [Hit(s, i)] + rest && taken == {i} + at
    ensures Sorted(hits) && Hits(hits, taken, s)
  {
    FirstIsLess(Hit(s, i), rest);
  }

  lemma FirstIsLess(h: Span, rest: seq<Span>)
    requires Sorted(rest) && forall x :: x in rest ==> h.start < x.start
    ensures Sorted([h] + rest)
  {
    assert forall k :: 0 <= k < |rest| ==> rest[k] in rest;
  }

  /** The matches of one secret. */
  method ScanFor(b: string, s: Secret) returns (ms: seq<Span>)
    requires |s.value| > 0
    ensures Sorted(ms) && Hits(ms, Scan.Matches(b, s.value), s)
  {
    var at := Scan.Occurrences(b, s.value);
    ms := ScanAt(at, |b|, s);
    HitsFromAre(at, |b|, s, 0, ms, Scan.Greedy(at, |s.value|, 0, |b| + 1));
  }

  lemma AppendMoves(ms: seq<Span>, h: Span, rest: seq<Span>, left: seq<Span>)
    requires left == [h] + rest
    ensures (ms + [h]) + rest == ms + left
  {
  }

  /** The loop of the scan; bytes.Index answers the first position from off on. */
  method ScanAt(at: set<int>, n: nat, s: Secret) returns (ms: seq<Span>)
    requires |s.value| > 0 && Room(at, |s.value|, n)
    ensures ms == HitsFrom(at, n, s, 0)
  {
    ms := [];
    var off := 0;
    while off <= n - |s.value|
      invariant 0 <= off && ms + HitsFrom(at, n, s, off) == HitsFrom(at, n, s, 0)
      decreases n + 1 - off
    {
      var i := Scan.First(at, off, n + 1);
      if i == -1 {
        break;
      }
      ghost var rest := HitsFrom(at, n, s, i + |s.value|);
      AppendMoves(ms, Hit(s, i), rest, HitsFrom(at, n, s, off));
      ms := ms + [Hit(s, i)];
      off := i + |s.value|;
    }
    assert HitsFrom(at, n, s, off) == [];
  }

  /** Every match of every secret, sorted, and merged in place. */
  method SpansIn(secrets: seq<Secret>, b: string) returns (found: seq<Span>)
    requires Usable(secrets)
    ensures found == SpansOf(secrets, b)
  {
    var out: seq<Span> := [];
    for i := 0 to |secrets|
      invariant Usable(secrets[..i]) && forall x :: x in out <==> x in Raw(secrets[..i], b)
      invariant forall j, k :: 0 <= j < k < |out| ==> out[j] != out[k]
    {
      var ms := ScanFor(b, secrets[i]);
      OneMoreSecret(secrets, i, b, out, ms);
      out := out + ms;
    }
    assert secrets[..|secrets|] == secrets;
    RawIsComparable(secrets, b);
    assert forall k :: 0 <= k < |out| ==> out[k] in out;
    var sorted := Sort(out);
    SortIs(Raw(secrets, b), sorted);
    var a := new Span[|sorted|](i requires 0 <= i < |sorted| => sorted[i]);
    assert a[..] == sorted;
    var m := MergeInPlace(a);
    found := a[..m];
  }

  lemma OneMoreSecret(secrets: seq<Secret>, i: nat, b: string, out: seq<Span>, ms: seq<Span>)
    requires Usable(secrets) && i < |secrets|
    requires Usable(secrets[..i]) && forall x :: x in out <==> x in Raw(secrets[..i], b)
    requires forall j, k :: 0 <= j < k < |out| ==> out[j] != out[k]
    requires Sorted(ms)
    requires Hits(ms, Scan.Matches(b, secrets[i].value), secrets[i])
    ensures Usable(secrets[..i + 1]) && forall x :: x in out + ms <==> x in Raw(secrets[..i + 1], b)
    ensures forall j, k :: 0 <= j < k < |out + ms| ==> (out + ms)[j] != (out + ms)[k]
  {
    assert secrets[..i + 1] == secrets[..i] + [secrets[i]];
    forall x ensures x in out + ms <==> x in Raw(secrets[..i + 1], b) {
      RawIs(secrets[..i], b, x);
      RawIs(secrets[..i + 1], b, x);
    }
    forall x, y | x in out && y in ms ensures x != y {
      RawIs(secrets[..i], b, x);
      var s :| s in secrets[..i] && x.start in Scan.Matches(b, s.value) && x == Hit(s, x.start);
      SameHitSameValue(b, s, secrets[i], x.start);
    }
    forall j, k | 0 <= j < k < |out + ms| ensures (out + ms)[j] != (out + ms)[k] {
      if j < |out| <= k {
        assert out[j] in out && ms[k - |out|] in ms;
      }
    }
  }

  lemma SameHitSameValue(b: string, s: Secret, t: Secret, m: int)
    requires Scan.OccursAt(b, s.value, m)
    ensures Scan.OccursAt(b, t.value, m) && s.value != t.value ==> Hit(s, m) != Hit(t, m)
  {
  }

  method RedactBytes(secrets: seq<Secret>, b: string) returns (out: string)
    requires Usable(secrets)
    ensures out == Redact(secrets, b)
  {
    var found := SpansIn(secrets, b);
    SpansOfSound(secrets, b);
    out := ApplySpans(b, found);
  }

  /** Walks back over the last runs white-space-delimited runs of b. */
  method TailHoldStart(b: string, runs: nat) returns (i: nat)
    ensures i == TailHold(b, |b|, runs)
  {
    i := |b|;
    for n := 0 to runs
      invariant i <= |b| && TailHold(b, |b|, runs) == TailHold(b, i, runs - n)
    {
      ghost var was := i;
      while i > 0 && !IsSpace(b[i - 1])
        invariant 0 <= i <= |b| && Back(b, i, false) == Back(b, was, false)
      {
        i := i - 1;
      }
      if i == 0 {
        return 0;
      }
      ghost var mid := i;
      while i > 0 && IsSpace(b[i - 1])
        invariant 0 <= i <= |b| && Back(b, i, true) == Back(b, mid, true)
      {
        i := i - 1;
      }
      if i == 0 {
        return 0;
      }
    }
  }

  // ----- the bounded capture

  /** Output up to a byte cap, counting what is dropped. A negative limit is no cap. */
  class Capture {
    const limit: int
    var buf: string
    var written: int
    var dropped: int
    /** Everything written here, and how many bytes were dropped without being. */
    ghost var offered: string
    ghost var unscanned: nat

    ghost predicate Valid()
      reads this
    {
      written == |buf| && dropped == |offered| - |buf| + unscanned
      && buf == if limit < 0 then offered else offered[..Min(limit, |offered|)]
    }

    constructor (limit: int)
      ensures Valid() && this.limit == limit && offered == "" && unscanned == 0
    {
      this.limit := limit;
      buf, written, dropped := "", 0, 0;
      offered, unscanned := "", 0;
    }

    method Write(p: string)
      requires Valid()
      modifies this
      ensures Valid() && offered == old(offered) + p && unscanned == old(unscanned)
    {
      offered := offered + p;
      if limit < 0 {
        buf := buf + p;
        written := written + |p|;
        return;
      }
      var room := limit - written;
      if room > |p| {
        room := |p|;
      }
      if room > 0 {
        buf := buf + p[..room];
        written := written + room;
      } else {
        room := 0;
      }
      dropped := dropped + |p| - room;
    }

    method Saturated() returns (full: bool)
      requires Valid()
      ensures full <==> 0 <= limit <= |offered|
    {
      full := limit >= 0 && written >= limit;
    }

    method Drop(n: nat)
      requires Valid()
      modifies this
      ensures Valid() && offered == old(offered) && unscanned == old(unscanned) + n
    {
      dropped := dropped + n;
      unscanned := unscanned + n;
    }

    method Truncated() returns (cut: bool)
      requires Valid()
      ensures cut <==> unscanned > 0 || 0 <= limit < |offered|
    {
      cut := dropped > 0;
    }
  }

  // ----- the writer

  /** d is what a drain comes to that has sent this much and has buf left to go through. */
  ghost predicate LeftToDrain(r: Redactor, d: Pass, sent: string, buf: string, inKey: bool)
    requires Redaction.Valid(r)
  {
    var e := Drain(r, buf, inKey);
    d.out == sent + e.out && d.buf == e.buf && d.inKey == e.inKey
  }

  lemma LeftAfterBegin(r: Redactor, d: Pass, sent: string, buf: string)
    requires Redaction.Valid(r) && LeftToDrain(r, d, sent, buf, false) && B.Find(r.begin, buf).Somewhere?
    ensures var loc := B.Find(r.begin, buf);
            0 <= loc.start < loc.end <= |buf|
            && LeftToDrain(r, d, sent + (Redact(r.secrets, buf[..loc.start]) + r.keyMark), buf[loc.end..], true)
  {
    B.FindBounds(r.begin, buf);
    var loc := B.Find(r.begin, buf);
    Associate(sent, Redact(r.secrets, buf[..loc.start]) + r.keyMark, Drain(r, buf[loc.end..], true).out);
  }

  lemma LeftAfterEnd(r: Redactor, d: Pass, sent: string, buf: string)
    requires Redaction.Valid(r) && LeftToDrain(r, d, sent, buf, true) && B.Find(r.end, buf).Somewhere?
    ensures var loc := B.Find(r.end, buf);
            0 <= loc.start < loc.end <= |buf| && LeftToDrain(r, d, sent, buf[loc.end..], false)
  {
    B.FindBounds(r.end, buf);
  }

  lemma LeftInKey(r: Redactor, d: Pass, sent: string, buf: string)
    requires Redaction.Valid(r) && LeftToDrain(r, d, sent, buf, true) && B.Find(r.end, buf).Nowhere?
    ensures d == Pass(sent, if |buf| > PEM_TAIL_KEEP then buf[|buf| - PEM_TAIL_KEEP..] else buf, true)
  {
  }

  lemma LeftOutside(r: Redactor, d: Pass, sent: string, buf: string)
    requires Redaction.Valid(r) && LeftToDrain(r, d, sent, buf, false) && B.Find(r.begin, buf).Nowhere?
    ensures d == Pass(sent, buf, false)
  {
  }

  class Writer {
    const r: Redactor
    const dst: Capture
    var buf: string
    var inKey: bool

    ghost predicate Ready()
      reads this, dst
    {
      Redaction.Valid(r) && dst.Valid()
    }

    constructor (r: Redactor, dst: Capture)
      requires Redaction.Valid(r)
      ensures this.r == r && this.dst == dst && buf == "" && !inKey
    {
      this.r, this.dst := r, dst;
      buf, inKey := "", false;
    }

    method Emit(b: string)
      requires Ready()
      modifies dst
      ensures Ready() && dst.offered == old(dst.offered) + b && dst.unscanned == old(dst.unscanned)
    {
      if |b| == 0 {
        assert old(dst.offered) + b == old(dst.offered);
        return;
      }
      dst.Write(b);
    }

    method DropFront(n: nat)
      modifies this`buf
      ensures buf == if n >= |old(buf)| then "" else old(buf)[n..]
    {
      if n >= |buf| {
        buf := "";
        return;
      }
      buf := buf[n..];
    }

    /** Forwards what comes before a BEGIN that lies from s to e, and the block's marker. */
    method PassBegin(s: nat, e: nat)
      requires Ready() && s <= e <= |buf|
      modifies this`buf, this`inKey, dst
      ensures Ready() && dst.unscanned == old(dst.unscanned)
      ensures dst.offered == old(dst.offered) + (Redact(r.secrets, old(buf)[..s]) + r.keyMark)
      ensures buf == old(buf)[e..] && inKey
    {
      var clear := RedactBytes(r.secrets, buf[..s]);
      Emit(clear);
      Emit(r.keyMark);
      Associate(old(dst.offered), clear, r.keyMark);
      DropFront(e);
      inKey := true;
    }

    /** Drops a key block up to the end of its END. */
    method PassEnd(e: nat)
      requires e <= |buf|
      modifies this`buf, this`inKey
      ensures buf == old(buf)[e..] && !inKey
    {
      DropFront(e);
      inKey := false;
    }

    /** Drops the body of a key block that is still open, but for its tail. */
    method KeepTail(final: bool)
      modifies this`buf
      ensures var b := old(buf);
              buf == if final then "" else if |b| > PEM_TAIL_KEEP then b[|b| - PEM_TAIL_KEEP..] else b
    {
      if |buf| > PEM_TAIL_KEEP {
        DropFront(|buf| - PEM_TAIL_KEEP);
      }
      if final {
        buf := "";
      }
    }

    /** One turn of the loop that takes key blocks out of the buffer; more: there was a
        boundary. sent is what the loop has forwarded of d, and is added to. */
    method DrainOne(final: bool, ghost d: Pass, ghost before: string, ghost sent: string)
      returns (more: bool, done: bool, ghost now: string)
      requires Ready() && LeftToDrain(r, d, sent, buf, inKey) && dst.offered == before + sent
      modifies this, dst
      ensures Ready() && dst.unscanned == old(dst.unscanned) && dst.offered == before + now
      ensures more ==> |buf| < |old(buf)| && LeftToDrain(r, d, now, buf, inKey)
      ensures !more ==> d.out == now && inKey == d.inKey == done && buf == if d.inKey && final then "" else d.buf
    {
      now := sent;
      if inKey {
        var loc := B.Find(r.end, buf);
        if loc.Somewhere? {
          LeftAfterEnd(r, d, sent, buf);
          PassEnd(loc.end);
          return true, false, now;
        }
        LeftInKey(r, d, sent, buf);
        KeepTail(final);
        return false, true, now;
      }
      var loc := B.Find(r.begin, buf);
      if loc.Nowhere? {
        LeftOutside(r, d, sent, buf);
        return false, false, now;
      }
      LeftAfterBegin(r, d, sent, buf);
      ghost var clear := Redact(r.secrets, buf[..loc.start]);
      PassBegin(loc.start, loc.end);
      Associate(before, sent, clear + r.keyMark);
      now := sent + (clear + r.keyMark);
      return true, false, now;
    }

    /** The loop that takes key blocks out of the buffer; done: the pass ends here. */
    method DrainKeys(final: bool) returns (done: bool)
      requires Ready()
      modifies this, dst
      ensures Ready() && dst.unscanned == old(dst.unscanned)
      ensures var d := Drain(r, old(buf), old(inKey));
              dst.offered == old(dst.offered) + d.out && inKey == d.inKey && done == d.inKey
              && buf == if d.inKey && final then "" else d.buf
    {
      ghost var d, before, sent := Drain(r, buf, inKey), dst.offered, "";
      assert before + "" == before && "" + d.out == d.out;
      var more := true;
      done := false;
      while more
        invariant Ready() && dst.unscanned == old(dst.unscanned)
        invariant dst.offered == before + sent
        invariant more ==> LeftToDrain(r, d, sent, buf, inKey)
        invariant !more ==> d.out == sent && inKey == d.inKey == done && buf == if d.inKey && final then "" else d.buf
        decreases more, |buf|
      {
        more, done, sent := DrainOne(final, d, before, sent);
      }
    }

    /** How much of a buffer with no boundary in it to forward; computed: found holds
        its spans, and the cut goes through none of them. */
    method Cut(final: bool) returns (cut: int, found: seq<Span>, computed: bool)
      requires Ready()
      ensures Max(cut, 0) == FlushPoint(r, buf, final)
      ensures computed && cut > 0 ==> found == SpansOf(r.secrets, buf) && Safe(found, cut)
    {
      found, computed := [], false;
      cut := |buf|;
      if !final {
        cut := cut - r.overlap;
        if cut > 0 && |buf| < MAX_PENDING {
          var h := TailHoldStart(buf, HOLD_TOKENS);
          if h < cut {
            cut := h;
          }
          SpansOfSound(r.secrets, buf);
          if cut > 0 {
            found := SpansIn(r.secrets, buf);
            computed := true;
            cut := RetreatPastSpans(cut, found);
          }
        }
      }
    }

    /** Forwards a buffer with no boundary in it up to its flush point. */
    method Forward(final: bool)
      requires Ready()
      modifies this`buf, dst
      ensures Ready() && dst.unscanned == old(dst.unscanned)
      ensures var c := FlushPoint(r, old(buf), final);
              dst.offered == old(dst.offered) + Redact(r.secrets, old(buf)[..c]) && buf == old(buf)[c..]
    {
      var cut, found, computed := Cut(final);
      if cut <= 0 {
        EmptyRedacts(r.secrets);
        assert buf[..0] == "" && buf[0..] == buf && dst.offered + "" == dst.offered;
        return;
      }
      var out := buf[..cut];
      if computed {
        SafeIsClear(r.secrets, buf, cut);
        RedactSplit(r.secrets, buf, cut);
        SpansOfSound(r.secrets, buf);
        out := ApplySpans(out, found);
      } else {
        out := RedactBytes(r.secrets, out);
      }
      Emit(out);
      DropFront(cut);
    }

    /** Forwards what is safe to forward and keeps the rest. */
    method ProcessBuffer(final: bool)
      requires Ready()
      modifies this, dst
      ensures Ready() && dst.unscanned == old(dst.unscanned)
      ensures var p := Process(r, old(buf), old(inKey), final);
              dst.offered == old(dst.offered) + p.out && buf == p.buf && inKey == p.inKey
    {
      assert old(dst.offered) + "" == old(dst.offered);
      if !final && |buf| < MIN_OVERLAP {
        return;
      }
      var done := DrainKeys(final);
      if done {
        return;
      }
      ghost var d := Drain(r, old(buf), old(inKey));
      Forward(final);
      Associate(old(dst.offered), d.out, Redact(r.secrets, d.buf[..FlushPoint(r, d.buf, final)]));
    }

    method Write(p: string)
      requires Ready()
      modifies this, dst
      ensures Ready() && dst.unscanned == old(dst.unscanned)
      ensures var q := if p == "" then Redaction.Pass.Pass("", old(buf), old(inKey))
                       else Process(r, old(buf) + p, old(inKey), false);
              dst.offered == old(dst.offered) + q.out && buf == q.buf && inKey == q.inKey
    {
      assert old(dst.offered) + "" == old(dst.offered);
      if |p| == 0 {
        return;
      }
      buf := buf + p;
      ProcessBuffer(false);
    }

    method Close()
      requires Ready()
      modifies this, dst
      ensures Ready() && dst.unscanned == old(dst.unscanned)
      ensures var q := Process(r, old(buf), old(inKey), true);
              dst.offered == old(dst.offered) + q.out && buf == q.buf && inKey == q.inKey
    {
      ProcessBuffer(true);
    }
  }

  // ----- the child's end

  class Sink {
    const cap: Capture
    const red: Writer

    ghost predicate Ready()
      reads this, cap, red
    {
      red.dst == cap && red.Ready()
    }

    constructor (cap: Capture, red: Writer)
      ensures this.cap == cap && this.red == red
    {
      this.cap, this.red := cap, red;
    }

    /** Redacts p into the capture, or drops it unscanned once the capture is full. */
    method Write(p: string)
      requires Ready()
      modifies cap, red
      ensures Ready()
      ensures if 0 <= cap.limit <= |old(cap.offered)|
              then cap.offered == old(cap.offered) && cap.unscanned == old(cap.unscanned) + |p|
                   && red.buf == old(red.buf) && red.inKey == old(red.inKey)
              else var q := if p == "" then Redaction.Pass.Pass("", old(red.buf), old(red.inKey))
                            else Process(red.r, old(red.buf) + p, old(red.inKey), false);
                   cap.offered == old(cap.offered) + q.out && cap.unscanned == old(cap.unscanned)
                   && red.buf == q.buf && red.inKey == q.inKey
    {
      var full := cap.Saturated();
      if full {
        cap.Drop(|p|);
        return;
      }
      red.Write(p);
    }
  }

  // ----- a string, and a captured stream

  lemma StringIsWhole(r: Redactor, s: string)
    requires Redaction.Valid(r)
    ensures Bounded(r, s) && |s| < MAX_PENDING ==>
              (if s == "" then "" else Run(r, [s], "", false)) == Whole(r, s, false)
  {
    assert Concat([s]) == s + Concat([]) == s && "" + s == s;
    if Bounded(r, s) && |s| < MAX_PENDING {
      ShortTextIsCalm(r, [s], "", false);
      StreamIsWhole(r, [s], "", false);
      ProcessFinishes(r, s, false);
    }
    assert s == "" ==> Run(r, [s], "", false) == Run(r, [], "", false) by { assert [s][1..] == []; }
    EmptyFinishes(r);
  }

  lemma EmptyFinishes(r: Redactor)
    requires Redaction.Valid(r)
    ensures Process(r, "", false, true).out == ""
  {
    if B.Find(r.begin, "").Somewhere? {
      B.FindBounds(r.begin, "");
    }
    EmptyRedacts(r.secrets);
  }

  /** Everything still to be redacted once the first i chunks have been fed. */
  ghost predicate Feeding(r: Redactor, chunks: seq<string>, i: nat, buf: string, inKey: bool, offered: string)
    requires Redaction.Valid(r) && i <= |chunks|
  {
    var rest := buf + Concat(chunks[i..]);
    Calm(r, chunks[i..], buf, inKey) && Bounded(r, rest)
    && offered + Whole(r, rest, inKey) == Whole(r, Concat(chunks), false)
  }

  lemma FeedOne(r: Redactor, chunks: seq<string>, i: nat, buf: string, inKey: bool, offered: string)
    requires Redaction.Valid(r) && i < |chunks| && Feeding(r, chunks, i, buf, inKey, offered)
    ensures if chunks[i] == "" then Feeding(r, chunks, i + 1, buf, inKey, offered)
            else var p := Process(r, buf + chunks[i], inKey, false);
                 Feeding(r, chunks, i + 1, p.buf, p.inKey, offered + p.out)
  {
    var c, rest := chunks[i], Concat(chunks[i + 1..]);
    assert chunks[i..][0] == c && chunks[i..][1..] == chunks[i + 1..];
    Associate(buf, c, rest);
    if c == "" {
      assert buf + "" == buf;
    } else {
      WriteKeeps(r, buf + c, rest, inKey);
      var p := Process(r, buf + c, inKey, false);
      Associate(offered, p.out, Whole(r, p.buf + rest, p.inKey));
    }
  }

  lemma FeedLast(r: Redactor, chunks: seq<string>, buf: string, inKey: bool, offered: string)
    requires Redaction.Valid(r) && Feeding(r, chunks, |chunks|, buf, inKey, offered)
    ensures offered + Process(r, buf, inKey, true).out == Whole(r, Concat(chunks), false)
  {
    assert chunks[|chunks|..] == [] && buf + "" == buf;
    ProcessFinishes(r, buf, inKey);
  }

  /** How far the capture has come: either every byte so far was fed to the writer, or
      the capture is full and holds the start of the whole redaction. */
  ghost predicate Progress(r: Redactor, chunks: seq<string>, i: nat, limit: int,
                           buf: string, inKey: bool, offered: string, unscanned: nat)
    requires Redaction.Valid(r) && i <= |chunks|
  {
    if unscanned == 0 then Feeding(r, chunks, i, buf, inKey, offered)
    else Full(limit, offered, Whole(r, Concat(chunks), false))
  }

  ghost predicate Full(limit: int, offered: string, w: string) {
    0 <= limit <= |offered| && limit <= |w| && offered[..limit] == w[..limit]
  }

  lemma DropOne(r: Redactor, chunks: seq<string>, i: nat, limit: int, buf: string, inKey: bool, offered: string,
                unscanned: nat)
    requires Redaction.Valid(r) && i < |chunks| && Progress(r, chunks, i, limit, buf, inKey, offered, unscanned)
    requires 0 <= limit <= |offered|
    ensures Progress(r, chunks, i + 1, limit, buf, inKey, offered, unscanned + |chunks[i]|)
  {
    if unscanned == 0 {
      FeedOne(r, chunks, i, buf, inKey, offered);
      var w := Whole(r, Concat(chunks), false);
      assert Full(limit, offered, w) by {
        assert offered <= w;
        assert w[..|offered|] == offered;
      }
    }
  }

  /** One chunk through the sink. */
  method SinkOne(sink: Sink, ghost chunks: seq<string>, ghost i: nat, chunk: string)
    requires sink.Ready() && i < |chunks| && chunk == chunks[i]
    requires sink.cap.unscanned > 0 ==> 0 <= sink.cap.limit <= |sink.cap.offered|
    requires Progress(sink.red.r, chunks, i, sink.cap.limit, sink.red.buf, sink.red.inKey,
                      sink.cap.offered, sink.cap.unscanned)
    modifies sink.cap, sink.red
    ensures sink.Ready() && (sink.cap.unscanned > 0 ==> 0 <= sink.cap.limit <= |sink.cap.offered|)
    ensures Progress(sink.red.r, chunks, i + 1, sink.cap.limit, sink.red.buf, sink.red.inKey,
                     sink.cap.offered, sink.cap.unscanned)
  {
    ghost var offered, buf, inKey := sink.cap.offered, sink.red.buf, sink.red.inKey;
    if 0 <= sink.cap.limit <= |offered| {
      DropOne(sink.red.r, chunks, i, sink.cap.limit, buf, inKey, offered, sink.cap.unscanned);
    } else {
      FeedOne(sink.red.r, chunks, i, buf, inKey, offered);
      assert offered + "" == offered;
    }
    sink.Write(chunk);
  }

  lemma StartFeeding(r: Redactor, chunks: seq<string>)
    requires Redaction.Valid(r) && Bounded(r, Concat(chunks)) && Calm(r, chunks, "", false)
    ensures Feeding(r, chunks, 0, "", false, "")
  {
    assert chunks[0..] == chunks && "" + Concat(chunks) == Concat(chunks);
    assert "" + Whole(r, Concat(chunks), false) == Whole(r, Concat(chunks), false);
  }

  /** What the final pass writes completes what has to be captured. */
  lemma CapturedAll(r: Redactor, chunks: seq<string>, limit: int, buf: string, inKey: bool,
                    offered: string, unscanned: nat)
    requires Redaction.Valid(r) && Progress(r, chunks, |chunks|, limit, buf, inKey, offered, unscanned)
    ensures var all, w := offered + Process(r, buf, inKey, true).out, Whole(r, Concat(chunks), false);
            if unscanned == 0 then all == w else Full(limit, all, w)
  {
    if unscanned == 0 {
      FeedLast(r, chunks, buf, inKey, offered);
    } else {
      FullStays(limit, offered, Process(r, buf, inKey, true).out, Whole(r, Concat(chunks), false));
    }
  }

  lemma FullStays(limit: int, offered: string, more: string, w: string)
    requires Full(limit, offered, w)
    ensures Full(limit, offered + more, w)
  {
    assert (offered + more)[..limit] == offered[..limit];
  }

  /** Captures a child's output through a sink. What is captured is exactly as much of
      the whole stream's redaction as fits, though a full capture stops redacting; and
      when nothing was counted as dropped it is all of it. */
  method CaptureStream(r: Redactor, limit: int, chunks: seq<string>) returns (captured: string, dropped: int)
    requires Redaction.Valid(r) && Bounded(r, Concat(chunks)) && Calm(r, chunks, "", false)
    ensures var w := Whole(r, Concat(chunks), false);
            captured == (if limit < 0 then w else w[..Min(limit, |w|)])
            && (dropped == 0 ==> captured == w)
  {
    var cap := new Capture(limit);
    var red := new Writer(r, cap);
    var sink := new Sink(cap, red);
    StartFeeding(r, chunks);
    for i := 0 to |chunks|
      invariant fresh(cap) && fresh(red) && sink.Ready() && sink.cap == cap && sink.red == red
      invariant red.r == r && cap.limit == limit
      invariant cap.unscanned > 0 ==> 0 <= cap.limit <= |cap.offered|
      invariant Progress(r, chunks, i, limit, red.buf, red.inKey, cap.offered, cap.unscanned)
    {
      SinkOne(sink, chunks, i, chunks[i]);
    }
    CapturedAll(r, chunks, limit, red.buf, red.inKey, cap.offered, cap.unscanned);
    red.Close();
    captured, dropped := cap.buf, cap.dropped;
  }

  /** Redacts a string through the same state machine as a stream. */
  method RedactString(r: Redactor, s: string) returns (out: string)
    requires Redaction.Valid(r)
    ensures out == if s == "" then "" else Run(r, [s], "", false)
    ensures Bounded(r, s) && |s| < MAX_PENDING ==> out == Whole(r, s, false)
  {
    StringIsWhole(r, s);
    if s == "" {
      return "";
    }
    RunOnce(r, s);
    var sb := new Capture(-1);
    var w := new Writer(r, sb);
    w.Write(s);
    w.Close();
    out := sb.buf;
  }

  lemma RunOnce(r: Redactor, s: string)
    requires Redaction.Valid(r) && s != ""
    ensures var p := Process(r, "" + s, false, false);
            Run(r, [s], "", false) == "" + p.out + Process(r, p.buf, p.inKey, true).out
  {
    assert [s][1..] == [];
    assert "" + Process(r, "" + s, false, false).out == Process(r, "" + s, false, false).out;
  }
}
