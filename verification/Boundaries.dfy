/** The encapsulation boundaries of a private key, as section 2 of RFC 7468
    writes them, and where the first one in a buffer is. */
module Boundaries {

  /** A boundary is open, then any number of [A-Z0-9 ], then close. */
  datatype Boundary = Boundary(open: string, close: string)

  datatype Found = Nowhere | Somewhere(start: int, end: int)

  predicate InClass(c: char) {
    'A' <= c <= 'Z' || '0' <= c <= '9' || c == ' '
  }

  /** Five dashes, class characters, five dashes: no dash but those at the ends. */
  ghost predicate Framed(m: string) {
    |m| > 10
    && (forall i :: 0 <= i < |m| ==> if i < 5 || |m| - 5 <= i then m[i] == '-' else InClass(m[i]))
  }

  predicate Matches(k: Boundary, m: string) {
    |k.open| + |k.close| <= |m|
    && m[..|k.open|] == k.open
    && m[|m| - |k.close|..] == k.close
    && forall i :: |k.open| <= i < |m| - |k.close| ==> InClass(m[i])
  }

  /** The shape of both boundaries: everything they match is framed by dashes. */
  ghost predicate Valid(k: Boundary) {
    |k.open| > 5 && |k.close| > 5
    && (forall i :: 0 <= i < |k.open| ==> if i < 5 then k.open[i] == '-' else InClass(k.open[i]))
    && (forall i :: 0 <= i < |k.close| ==> if i < |k.close| - 5 then InClass(k.close[i]) else k.close[i] == '-')
  }

  predicate At(k: Boundary, b: string, s: int, e: int) {
    0 <= s <= e <= |b| && Matches(k, b[s..e])
  }

  /** The end of the boundary that starts at s, looking no earlier than e, or -1. */
  function EndFrom(k: Boundary, b: string, s: int, e: int): int
    decreases |b| - e
  {
    if e > |b| then -1 else if At(k, b, s, e) then e else EndFrom(k, b, s, e + 1)
  }

  function FindFrom(k: Boundary, b: string, s: nat): Found
    decreases |b| - s
  {
    if s > |b| then Nowhere else
      var e := EndFrom(k, b, s, s);
      if e != -1 then Somewhere(s, e) else FindFrom(k, b, s + 1)
  }

  /** The leftmost boundary in b, as FindIndex of the pattern reports it. */
  function Find(k: Boundary, b: string): Found {
    FindFrom(k, b, 0)
  }

  /** No boundary in b is longer than w. */
  ghost predicate AtMost(k: Boundary, b: string, w: int) {
    forall s, e :: At(k, b, s, e) ==> e - s <= w
  }

  // ----- matches are framed, so a start has one end and later starts end later

  lemma MatchIsFramed(k: Boundary, m: string)
    requires Valid(k) && Matches(k, m)
    ensures Framed(m)
  {
    var n, c := |m|, |m| - |k.close|;
    forall i | 0 <= i < n
      ensures if i < 5 || n - 5 <= i then m[i] == '-' else InClass(m[i])
    {
      if i < |k.open| { assert m[i] == m[..|k.open|][i]; }
      if c <= i { assert m[i] == m[c..][i - c]; }
    }
  }

  ghost predicate FramedAt(b: string, s: int, e: int) {
    0 <= s && e <= |b| && s + 10 < e
    && (forall i :: s <= i < s + 5 ==> b[i] == '-')
    && (forall i :: e - 5 <= i < e ==> b[i] == '-')
    && (forall i :: s + 5 <= i < e - 5 ==> b[i] != '-')
  }

  lemma AtIsFramed(k: Boundary, b: string, s: int, e: int)
    requires Valid(k) && At(k, b, s, e)
    ensures FramedAt(b, s, e) && b[s] == '-'
  {
    var m := b[s..e];
    MatchIsFramed(k, m);
    forall i | s <= i < e ensures if i < s + 5 || e - 5 <= i then b[i] == '-' else b[i] != '-' {
      assert b[i] == m[i - s];
    }
  }

  lemma FramesEndInOrder(b: string, s: int, e: int, s': int, e': int)
    requires FramedAt(b, s, e) && FramedAt(b, s', e') && s <= s'
    ensures s == s' ==> e == e'
    ensures s < s' ==> e < e'
  {
    assert b[e - 5] == '-' && b[e' - 5] == '-';
    assert b[s' + 4] == '-' && b[s' + 5] != '-';
  }

  lemma AtInOrder(k: Boundary, b: string, s: int, e: int, s': int, e': int)
    requires Valid(k) && At(k, b, s, e) && At(k, b, s', e') && s <= s'
    ensures s == s' ==> e == e'
    ensures s < s' ==> e < e'
  {
    AtIsFramed(k, b, s, e);
    AtIsFramed(k, b, s', e');
    FramesEndInOrder(b, s, e, s', e');
  }

  // ----- what Find returns

  lemma {:induction false} EndFromSound(k: Boundary, b: string, s: int, e: int)
    requires 0 <= s <= e
    ensures var r := EndFrom(k, b, s, e);
            if r == -1 then forall x :: e <= x ==> !At(k, b, s, x) else At(k, b, s, r)
    decreases |b| - e
  {
    if e <= |b| && !At(k, b, s, e) {
      EndFromSound(k, b, s, e + 1);
    }
  }

  ghost predicate NoneBefore(k: Boundary, b: string, s: int) {
    forall x, y :: At(k, b, x, y) ==> s <= x
  }

  lemma {:induction false} FindFromSound(k: Boundary, b: string, s: nat)
    requires NoneBefore(k, b, s)
    ensures match FindFrom(k, b, s)
            case Nowhere => forall x, y :: !At(k, b, x, y)
            case Somewhere(x, y) => At(k, b, x, y) && NoneBefore(k, b, x)
    decreases |b| - s
  {
    if s <= |b| {
      EndFromSound(k, b, s, s);
      if EndFrom(k, b, s, s) == -1 {
        assert forall y :: !At(k, b, s, y);
        assert NoneBefore(k, b, s + 1);
        FindFromSound(k, b, s + 1);
      }
    }
  }

  lemma FindSound(k: Boundary, b: string)
    ensures match Find(k, b)
            case Nowhere => forall x, y :: !At(k, b, x, y)
            case Somewhere(x, y) => At(k, b, x, y) && NoneBefore(k, b, x)
  {
    FindFromSound(k, b, 0);
  }

  lemma FindIs(k: Boundary, b: string, s: int, e: int)
    requires Valid(k) && At(k, b, s, e) && NoneBefore(k, b, s)
    ensures Find(k, b) == Somewhere(s, e)
  {
    FindSound(k, b);
    var f := Find(k, b);
    AtInOrder(k, b, s, e, f.start, f.end);
  }

  lemma FindIsNowhere(k: Boundary, b: string)
    requires forall x, y :: !At(k, b, x, y)
    ensures Find(k, b) == Nowhere
  {
    FindSound(k, b);
  }

  lemma AtInPrefix(k: Boundary, x: string, n: nat, s: int, e: int)
    requires n <= |x|
    ensures At(k, x[..n], s, e) <==> At(k, x, s, e) && e <= n
  {
    if 0 <= s <= e <= n {
      assert x[..n][s..e] == x[s..e];
    }
  }

  lemma AtInSuffix(k: Boundary, x: string, c: nat, s: int, e: int)
    requires c <= |x| && 0 <= s
    ensures At(k, x[c..], s, e) <==> At(k, x, s + c, e + c)
  {
    if s <= e <= |x| - c {
      assert x[c..][s..e] == x[s + c..e + c];
    }
  }

  // ----- Find, as the buffer grows and is cut

  /** A boundary found in a buffer is still the first one when more arrives. */
  lemma FindExtends(k: Boundary, x: string, n: nat)
    requires Valid(k) && n <= |x| && Find(k, x[..n]).Somewhere?
    ensures Find(k, x) == Find(k, x[..n])
    ensures var f := Find(k, x[..n]); 0 <= f.start < f.end <= n
  {
    var f := Find(k, x[..n]);
    FindSound(k, x[..n]);
    AtInPrefix(k, x, n, f.start, f.end);
    AtIsFramed(k, x, f.start, f.end);
    forall s, e | At(k, x, s, e) ensures f.start <= s {
      if s < f.start {
        AtInOrder(k, x, s, e, f.start, f.end);
        AtInPrefix(k, x, n, s, e);
      }
    }
    FindIs(k, x, f.start, f.end);
  }

  /** A boundary not yet complete in the first n bytes starts within its last w - 1. */
  lemma FindStartsLate(k: Boundary, x: string, n: nat, w: nat)
    requires n <= |x| && AtMost(k, x, w) && Find(k, x[..n]) == Nowhere && Find(k, x).Somewhere?
    ensures n - w < Find(k, x).start
  {
    var f := Find(k, x);
    FindSound(k, x);
    FindSound(k, x[..n]);
    AtInPrefix(k, x, n, f.start, f.end);
    assert !At(k, x[..n], f.start, f.end);
  }

  /** Dropping bytes no boundary starts in moves what Find returns and nothing else. */
  lemma FindAfterDrop(k: Boundary, x: string, c: nat)
    requires Valid(k) && c <= |x|
    requires Find(k, x).Somewhere? ==> c <= Find(k, x).start
    ensures Find(k, x[c..]) ==
            match Find(k, x) case Nowhere => Nowhere case Somewhere(s, e) => Somewhere(s - c, e - c)
  {
    match Find(k, x)
    case Nowhere =>
      NowhereAfterDrop(k, x, c);
    case Somewhere(f, g) =>
      SomewhereAfterDrop(k, x, c, f, g);
  }

  lemma NowhereAfterDrop(k: Boundary, x: string, c: nat)
    requires Valid(k) && c <= |x| && Find(k, x) == Nowhere
    ensures Find(k, x[c..]) == Nowhere
  {
    FindSound(k, x);
    forall s, e ensures !At(k, x[c..], s, e) {
      if 0 <= s { AtInSuffix(k, x, c, s, e); }
    }
    FindIsNowhere(k, x[c..]);
  }

  lemma SomewhereAfterDrop(k: Boundary, x: string, c: nat, f: int, g: int)
    requires Valid(k) && c <= |x| && Find(k, x) == Somewhere(f, g) && c <= f
    ensures Find(k, x[c..]) == Somewhere(f - c, g - c)
  {
    var y := x[c..];
    FindSound(k, x);
    AtInSuffix(k, x, c, f - c, g - c);
    NoneEarlierAfterDrop(k, x, c, f, y);
    FindIsFirst(k, y, f - c, g - c);
  }

  lemma FindIsFirst(k: Boundary, b: string, s: int, e: int)
    requires Valid(k)
    ensures At(k, b, s, e) && NoneBefore(k, b, s) ==> Find(k, b) == Somewhere(s, e)
  {
    if At(k, b, s, e) && NoneBefore(k, b, s) {
      FindIs(k, b, s, e);
    }
  }

  lemma NoneEarlierAfterDrop(k: Boundary, x: string, c: nat, f: int, y: string)
    requires c <= |x| && y == x[c..]
    ensures NoneBefore(k, x, f) ==> NoneBefore(k, y, f - c)
  {
    if NoneBefore(k, x, f) {
      forall s, e | At(k, y, s, e) ensures f - c <= s {
        AtInSuffix(k, x, c, s, e);
        assert At(k, x, s + c, e + c);
      }
    }
  }

  lemma FindBounds(k: Boundary, b: string)
    requires Valid(k) && Find(k, b).Somewhere?
    ensures 0 <= Find(k, b).start < Find(k, b).end <= |b|
  {
    FindSound(k, b);
    AtIsFramed(k, b, Find(k, b).start, Find(k, b).end);
  }

  lemma AtMostOfSuffix(k: Boundary, x: string, c: nat, w: int)
    requires c <= |x| && AtMost(k, x, w)
    ensures AtMost(k, x[c..], w)
  {
    forall s, e | At(k, x[c..], s, e) ensures e - s <= w {
      AtInSuffix(k, x, c, s, e);
      assert At(k, x, s + c, e + c);
    }
  }
}
