/** Planting defects in a file: each Find text is located once, the byte ranges are
    checked for overlap, and all are replaced in one pass. */
module Edits {
  import Scan

  datatype Defect = Defect(find: string, replace: string)

  /** One defect resolved to the bytes [start, end) of the file. */
  datatype Edit = Edit(start: int, end: int, replace: string)

  datatype Error = NotFound(k: nat) | Ambiguous(k: nat, count: nat) | Overlapping

  datatype Plan = Planned(edits: seq<Edit>) | Refused(error: Error)

  /** How often find occurs in content, overlapping copies not counted. */
  function Count(content: string, find: string): nat {
    if find == "" then |content| + 1 else |Scan.Matches(content, find)|
  }

  function Locate(content: string, d: Defect): Edit {
    var start := Scan.First(Scan.Occurrences(content, d.find), 0, |content| + 1);
    Edit(start, start + |d.find|, d.replace)
  }

  lemma LocatedOnce(content: string, d: Defect)
    requires Count(content, d.find) == 1
    ensures var e := Locate(content, d);
            0 <= e.start <= e.end <= |content| && content[e.start..e.end] == d.find && e.replace == d.replace
  {
    if d.find == "" {
      assert Scan.OccursAt(content, "", 0);
    } else {
      var ms := Scan.Matches(content, d.find);
      assert |ms| == 1;
      var m :| m in ms;
      assert Scan.OccursAt(content, d.find, m);
    }
  }

  /** Find text counts as found once exactly when it occurs and every occurrence starts
      inside the first: copies that overlap the first are not counted, so once is not
      quite only once. */
  lemma CountedOnceExactly(content: string, find: string)
    requires find != ""
    ensures Count(content, find) == 1 <==>
            exists first :: Scan.OccursAt(content, find, first)
                            && forall i :: Scan.OccursAt(content, find, i) ==> first <= i < first + |find|
  {
    var at, w, n := Scan.Occurrences(content, find), |find|, |content| + 1;
    var r := Scan.First(at, 0, n);
    var ms := Scan.Matches(content, find);
    if r == -1 {
      assert ms == {};
      assert forall i :: Scan.OccursAt(content, find, i) ==> i in at && 0 <= i < n;
    } else {
      var rest := Scan.Greedy(at, w, r + w, n);
      assert ms == {r} + rest && r !in rest && |ms| == 1 + |rest|;
      var next := Scan.First(at, r + w, n);
      assert rest == {} <==> next == -1 by { if next != -1 { assert next in rest; } }
      assert |rest| == 0 <==> rest == {};
      assert Scan.OccursAt(content, find, r) && forall i :: Scan.OccursAt(content, find, i) ==> r <= i < n;
      if next != -1 {
        assert Scan.OccursAt(content, find, next);
      }
    }
  }

  /** It counts as not found exactly when it occurs nowhere; and no text at all is found once
      in an empty file only, since it is counted at every place. */
  lemma CountedNever(content: string, find: string)
    ensures Count(content, find) == 0 <==> forall i :: !Scan.OccursAt(content, find, i)
    ensures find == "" ==> (Count(content, find) == 1 <==> content == "")
  {
    if find == "" {
      assert Scan.OccursAt(content, find, 0);
    } else {
      var ms := Scan.Matches(content, find);
      assert |ms| == 0 <==> ms == {};
      if i :| Scan.OccursAt(content, find, i) {
        Scan.EveryOccurrenceIsHit(content, find, i);
      }
      if m :| m in ms {
        assert Scan.OccursAt(content, find, m);
      }
    }
  }

  // ----- planning

  /** A copy that overlaps the first is not counted: "aa" is found once in "aaa", where it
      occurs twice. */
  lemma OverlapIsCountedOnce()
    ensures Scan.OccursAt("aaa", "aa", 0) && Scan.OccursAt("aaa", "aa", 1) && Count("aaa", "aa") == 1
  {
    var content, find := "aaa", "aa";
    assert content[0..2] == find && content[1..3] == find;
    CountedOnceExactly(content, find);
    assert forall i :: Scan.OccursAt(content, find, i) ==> 0 <= i < 2;
  }

  ghost predicate WellPlaced(content: string, es: seq<Edit>) {
    forall i :: 0 <= i < |es| ==> 0 <= es[i].start <= es[i].end <= |content|
  }

  /** Sorted, with each range ending before the next begins. */
  ghost predicate AdjacentDisjoint(es: seq<Edit>) {
    forall i :: 0 < i < |es| ==> es[i - 1].end <= es[i].start
  }

  ghost predicate Disjoint(es: seq<Edit>) {
    forall i, j :: 0 <= i < j < |es| ==> es[i].end <= es[j].start
  }

  ghost predicate SortedByStart(es: seq<Edit>) {
    forall i, j :: 0 <= i < j < |es| ==> es[i].start <= es[j].start
  }

  /** Checking neighbours is enough. */
  lemma {:induction false} NeighboursSuffice(content: string, es: seq<Edit>, i: nat, j: nat)
    requires WellPlaced(content, es) && AdjacentDisjoint(es) && i < j < |es|
    ensures es[i].end <= es[j].start
    decreases j
  {
    if i < j - 1 {
      NeighboursSuffice(content, es, i, j - 1);
      assert es[j - 1].end <= es[j].start;
    }
  }

  function Insert(e: Edit, es: seq<Edit>): (r: seq<Edit>)
    requires SortedByStart(es)
    ensures SortedByStart(r) && r != [] && (r[0] == e || (es != [] && r[0] == es[0]))
  {
    if es == [] || e.start <= es[0].start then [e] + es
    else [es[0]] + Insert(e, es[1..])
  }

  /** The library's sort. */
  function Sort(es: seq<Edit>): (r: seq<Edit>)
    ensures SortedByStart(r)
  {
    if es == [] then [] else Insert(es[0], Sort(es[1..]))
  }

  lemma {:induction false} InsertPermutes(e: Edit, es: seq<Edit>)
    requires SortedByStart(es)
    ensures multiset(Insert(e, es)) == multiset(es) + multiset{e}
  {
    if es == [] || e.start <= es[0].start {
    } else {
      InsertPermutes(e, es[1..]);
      assert es == [es[0]] + es[1..];
    }
  }

  lemma {:induction false} SortPermutes(es: seq<Edit>)
    ensures multiset(Sort(es)) == multiset(es)
  {
    if es != [] {
      SortPermutes(es[1..]);
      InsertPermutes(es[0], Sort(es[1..]));
      FirstAndRest(es);
    }
  }

  lemma FirstAndRest(es: seq<Edit>)
    requires es != []
    ensures multiset(es) == multiset(es[1..]) + multiset{es[0]}
  {
    assert es == [es[0]] + es[1..];
  }

  function LocateAll(content: string, ds: seq<Defect>): seq<Edit> {
    seq(|ds|, k requires 0 <= k < |ds| => Locate(content, ds[k]))
  }

  ghost predicate AllOnce(content: string, ds: seq<Defect>, n: nat)
    requires n <= |ds|
  {
    forall k :: 0 <= k < n ==> Count(content, ds[k].find) == 1
  }

  /** Locates each defect, in turn. */
  method LocateEach(content: string, ds: seq<Defect>) returns (r: Plan)
    ensures match r
            case Refused(NotFound(k)) => k < |ds| && AllOnce(content, ds, k) && Count(content, ds[k].find) == 0
            case Refused(Ambiguous(k, n)) => k < |ds| && AllOnce(content, ds, k) && n == Count(content, ds[k].find) > 1
            case Refused(Overlapping) => false
            case Planned(es) => AllOnce(content, ds, |ds|) && es == LocateAll(content, ds) && WellPlaced(content, es)
  {
    var found: seq<Edit> := [];
    for k := 0 to |ds|
      invariant AllOnce(content, ds, k) && LocatedTo(content, ds, found, k)
    {
      var n := Count(content, ds[k].find);
      if n == 0 {
        return Refused(NotFound(k));
      } else if n > 1 {
        return Refused(Ambiguous(k, n));
      }
      LocatedOneMore(content, ds, found, k);
      found := found + [Locate(content, ds[k])];
    }
    AllLocated(content, ds, found);
    AllPlaced(content, ds);
    return Planned(found);
  }

  ghost predicate LocatedTo(content: string, ds: seq<Defect>, found: seq<Edit>, k: nat)
    requires k <= |ds|
  {
    |found| == k && forall j :: 0 <= j < k ==> found[j] == Locate(content, ds[j])
  }

  lemma LocatedOneMore(content: string, ds: seq<Defect>, found: seq<Edit>, k: nat)
    requires k < |ds| && LocatedTo(content, ds, found, k) && AllOnce(content, ds, k) && Count(content, ds[k].find) == 1
    ensures LocatedTo(content, ds, found + [Locate(content, ds[k])], k + 1) && AllOnce(content, ds, k + 1)
  {
  }

  lemma AllLocated(content: string, ds: seq<Defect>, found: seq<Edit>)
    requires LocatedTo(content, ds, found, |ds|)
    ensures found == LocateAll(content, ds)
  {
  }

  lemma AllPlaced(content: string, ds: seq<Defect>)
    requires AllOnce(content, ds, |ds|)
    ensures WellPlaced(content, LocateAll(content, ds))
  {
    forall k | 0 <= k < |ds| ensures var e := Locate(content, ds[k]); 0 <= e.start <= e.end <= |content| {
      LocatedOnce(content, ds[k]);
    }
  }

  /** Locates every defect and refuses two that touch the same bytes. */
  method PlanEdits(content: string, ds: seq<Defect>) returns (r: Plan)
    ensures match r
            case Refused(NotFound(k)) => k < |ds| && AllOnce(content, ds, k) && Count(content, ds[k].find) == 0
            case Refused(Ambiguous(k, n)) => k < |ds| && AllOnce(content, ds, k) && n == Count(content, ds[k].find) > 1
            case Refused(Overlapping) => AllOnce(content, ds, |ds|) && !Disjoint(Sort(LocateAll(content, ds)))
            case Planned(es) => AllOnce(content, ds, |ds|) && es == Sort(LocateAll(content, ds))
                                && WellPlaced(content, es) && Disjoint(es)
  {
    r := LocateEach(content, ds);
    if r.Refused? {
      return;
    }
    SortKeepsPlaces(content, r.edits);
    var es := Sort(r.edits);
    for i := 1 to (if |es| == 0 then 1 else |es|)
      invariant forall j :: 0 < j < i && j < |es| ==> es[j - 1].end <= es[j].start
    {
      if es[i].start < es[i - 1].end {
        return Refused(Overlapping);
      }
    }
    forall i, j | 0 <= i < j < |es| ensures es[i].end <= es[j].start {
      NeighboursSuffice(content, es, i, j);
    }
    return Planned(es);
  }

  lemma SortKeepsPlaces(content: string, es: seq<Edit>)
    requires WellPlaced(content, es)
    ensures WellPlaced(content, Sort(es))
  {
    var r := Sort(es);
    SortPermutes(es);
    forall i | 0 <= i < |r| ensures 0 <= r[i].start <= r[i].end <= |content| {
      assert r[i] in multiset(r);
      assert r[i] in es;
    }
  }

  /** e puts d's Replace in the place of its Find. */
  ghost predicate Plants(content: string, e: Edit, d: Defect) {
    0 <= e.start <= e.end <= |content| && content[e.start..e.end] == d.find && e.replace == d.replace
  }

  /** An accepted plan plants every defect, and nothing that is not one, as many edits as
      there are defects. */
  lemma PlanPlantsEach(content: string, ds: seq<Defect>)
    requires AllOnce(content, ds, |ds|)
    ensures var es := Sort(LocateAll(content, ds));
            && |es| == |ds|
            && (forall d :: d in ds ==> exists e :: e in es && Plants(content, e, d))
            && (forall e :: e in es ==> exists d :: d in ds && Plants(content, e, d))
  {
    var found, es := LocateAll(content, ds), Sort(LocateAll(content, ds));
    SortPermutes(found);
    assert |es| == |multiset(es)| == |multiset(found)| == |found|;
    forall d | d in ds ensures exists e :: e in es && Plants(content, e, d) {
      var k :| 0 <= k < |ds| && ds[k] == d;
      LocatedOnce(content, d);
      assert found[k] in multiset(es);
      assert Plants(content, found[k], d);
    }
    forall e | e in es ensures exists d :: d in ds && Plants(content, e, d) {
      assert e in multiset(found);
      var k :| 0 <= k < |found| && found[k] == e;
      LocatedOnce(content, ds[k]);
      assert Plants(content, e, ds[k]);
    }
  }

  // ----- applying

  ghost predicate Applicable(content: string, es: seq<Edit>) {
    WellPlaced(content, es) && Disjoint(es)
  }

  /** content from prev on, with each of es[i..] replaced. */
  function SpliceFrom(content: string, es: seq<Edit>, i: nat, prev: int): string
    requires Applicable(content, es) && i <= |es| && 0 <= prev <= |content| && (i < |es| ==> prev <= es[i].start)
    decreases |es| - i
  {
    if i == |es| then content[prev..]
    else content[prev..es[i].start] + (es[i].replace + SpliceFrom(content, es, i + 1, es[i].end))
  }

  function Splice(content: string, es: seq<Edit>): string
    requires Applicable(content, es)
  {
    SpliceFrom(content, es, 0, 0)
  }

  /** The single pass over the file. */
  method ApplyEdits(content: string, edits: seq<Edit>) returns (out: string)
    requires Applicable(content, Sort(edits))
    ensures out == Splice(content, Sort(edits))
  {
    var es := Sort(edits);
    out := "";
    var prev := 0;
    for i := 0 to |es|
      invariant 0 <= prev <= |content| && (i < |es| ==> prev <= es[i].start)
      invariant Splice(content, es) == out + SpliceFrom(content, es, i, prev)
    {
      var e := es[i];
      Regroup(out, content[prev..e.start], e.replace, SpliceFrom(content, es, i + 1, e.end));
      out := out + content[prev..e.start];
      out := out + e.replace;
      prev := e.end;
    }
    out := out + content[prev..];
  }

  /** One edit on its own. */
  function Patch(content: string, e: Edit): string
    requires 0 <= e.start <= e.end <= |content|
  {
    content[..e.start] + e.replace + content[e.end..]
  }

  lemma {:induction false} LastFirst(content: string, es: seq<Edit>, i: nat, prev: int)
    requires Applicable(content, es) && es != [] && i < |es| && 0 <= prev <= es[i].start
    ensures var n := |es| - 1;
            var patched := Patch(content, es[n]);
            Applicable(patched, es[..n])
            && SpliceFrom(content, es, i, prev) == SpliceFrom(patched, es[..n], i, prev)
    decreases |es| - i
  {
    var n := |es| - 1;
    FrontApplies(content, es);
    if i == n {
      PatchTail(content, es[n], prev);
    } else {
      PatchHead(content, es[n], prev, es[i].start);
      LastFirst(content, es, i + 1, es[i].end);
    }
  }

  lemma FrontApplies(content: string, es: seq<Edit>)
    requires Applicable(content, es) && es != []
    ensures Applicable(Patch(content, es[|es| - 1]), es[..|es| - 1])
    ensures forall k :: 0 <= k < |es| - 1 ==> es[k].end <= es[|es| - 1].start
  {
  }

  lemma PatchHead(content: string, e: Edit, prev: int, to: int)
    requires 0 <= prev <= to <= e.start <= e.end <= |content|
    ensures Patch(content, e)[prev..to] == content[prev..to]
  {
  }

  lemma PatchTail(content: string, e: Edit, prev: int)
    requires 0 <= prev <= e.start <= e.end <= |content|
    ensures Patch(content, e)[prev..] == content[prev..e.start] + (e.replace + content[e.end..])
  {
  }

  ghost function OneByOne(content: string, es: seq<Edit>): string
    requires Applicable(content, es)
    decreases |es|
  {
    if es == [] then content
    else
      LastFirst(content, es, 0, 0);
      OneByOne(Patch(content, es[|es| - 1]), es[..|es| - 1])
  }

  /** The single pass is the same as making the edits one at a time from the highest
      offset down, each at the offset it was located at. */
  lemma {:induction false} OnePassIsOneByOne(content: string, es: seq<Edit>)
    requires Applicable(content, es)
    ensures Splice(content, es) == OneByOne(content, es)
    decreases |es|
  {
    if es == [] {
      assert content[0..] == content;
    } else {
      LastFirst(content, es, 0, 0);
      OnePassIsOneByOne(Patch(content, es[|es| - 1]), es[..|es| - 1]);
    }
  }

  ghost predicate NonEmpty(es: seq<Edit>) {
    forall i :: 0 <= i < |es| ==> es[i].start < es[i].end
  }

  lemma SameFirst(a: seq<Edit>, b: seq<Edit>)
    requires SortedByStart(a) && SortedByStart(b) && multiset(a) == multiset(b) && a != []
    requires Disjoint(a) && NonEmpty(a)
    ensures b != [] && a[0] == b[0]
  {
    forall j | 0 < j < |a| ensures a[0].start < a[j].start {
      assert a[0].end <= a[j].start;
    }
    assert a[0] in multiset(b);
    var k :| 0 <= k < |b| && b[k] == a[0];
    assert b[0] in multiset(a);
    var j :| 0 <= j < |a| && a[j] == b[0];
  }

  lemma SameRest(a: seq<Edit>, b: seq<Edit>)
    requires a != [] && b != [] && a[0] == b[0] && multiset(a) == multiset(b)
    ensures multiset(a[1..]) == multiset(b[1..])
  {
    assert a == [a[0]] + a[1..] && b == [b[0]] + b[1..];
    assert multiset(a[1..]) == multiset(a) - multiset{a[0]};
    assert multiset(b[1..]) == multiset(b) - multiset{b[0]};
  }

  lemma {:induction false} SortIsUnique(a: seq<Edit>, b: seq<Edit>)
    requires SortedByStart(a) && SortedByStart(b) && multiset(a) == multiset(b)
    requires Disjoint(a) && NonEmpty(a)
    ensures a == b
    decreases |a|
  {
    if a == [] {
      assert |multiset(b)| == 0;
    } else {
      SameFirst(a, b);
      SameRest(a, b);
      SortIsUnique(a[1..], b[1..]);
      assert a == [a[0]] + a[1..] && b == [b[0]] + b[1..];
    }
  }

  /** In whatever order the edits of a plan are listed, the result is the same. */
  lemma ListingOrderIsIrrelevant(content: string, planned: seq<Edit>, listed: seq<Edit>)
    requires Applicable(content, planned) && NonEmpty(planned) && multiset(listed) == multiset(planned)
    ensures Applicable(content, Sort(listed)) && Splice(content, Sort(listed)) == Splice(content, planned)
  {
    SortPermutes(listed);
    SortIsUnique(planned, Sort(listed));
  }

  // ----- undoing

  /** How far the first i edits move what comes after them. */
  function Drift(es: seq<Edit>, i: nat): int
    requires i <= |es|
  {
    if i == 0 then 0 else Drift(es, i - 1) + |es[i - 1].replace| - (es[i - 1].end - es[i - 1].start)
  }

  function Undo(content: string, es: seq<Edit>, i: nat): Edit
    requires WellPlaced(content, es) && i < |es|
  {
    var start := es[i].start + Drift(es, i);
    Edit(start, start + |es[i].replace|, content[es[i].start..es[i].end])
  }

  /** The edits that put back what es replaced, where it now is. */
  function Inverse(content: string, es: seq<Edit>): seq<Edit>
    requires WellPlaced(content, es)
  {
    seq(|es|, i requires 0 <= i < |es| => Undo(content, es, i))
  }

  lemma {:induction false} DriftInOrder(content: string, es: seq<Edit>, i: nat, j: nat)
    requires Applicable(content, es) && i < j < |es|
    ensures Undo(content, es, i).end <= Undo(content, es, j).start
    decreases j
  {
    if i < j - 1 {
      DriftInOrder(content, es, i, j - 1);
    }
    assert es[j - 1].end <= es[j].start;
  }

  lemma {:induction false} UndoInside(content: string, es: seq<Edit>, i: nat, prev: int, out: string)
    requires Applicable(content, es) && i <= |es| && 0 <= prev <= |content| && (i < |es| ==> prev <= es[i].start)
    requires out == SpliceFrom(content, es, i, prev)
    ensures |out| == |content| - prev + Drift(es, |es|) - Drift(es, i)
    decreases |es| - i
  {
    if i < |es| {
      UndoInside(content, es, i + 1, es[i].end, SpliceFrom(content, es, i + 1, es[i].end));
    }
  }

  lemma {:induction false} DriftBounded(content: string, es: seq<Edit>, i: nat)
    requires Applicable(content, es) && i < |es|
    ensures 0 <= Undo(content, es, i).start && Undo(content, es, i).end <= |Splice(content, es)|
  {
    UndoInside(content, es, 0, 0, Splice(content, es));
    UndoInside(content, es, i + 1, es[i].end, SpliceFrom(content, es, i + 1, es[i].end));
    if i > 0 {
      DriftBounded(content, es, i - 1);
      assert es[i - 1].end <= es[i].start;
    }
  }

  lemma InverseApplies(content: string, es: seq<Edit>)
    requires Applicable(content, es)
    ensures Applicable(Splice(content, es), Inverse(content, es))
  {
    var inv := Inverse(content, es);
    forall i | 0 <= i < |inv| ensures 0 <= inv[i].start <= inv[i].end <= |Splice(content, es)| {
      DriftBounded(content, es, i);
    }
    forall i, j | 0 <= i < j < |inv| ensures inv[i].end <= inv[j].start {
      DriftInOrder(content, es, i, j);
    }
  }

  /** out is p followed by what es[i..] make of content[prev..]; inv puts it back. */
  lemma {:induction false} UndoFrom(content: string, es: seq<Edit>, inv: seq<Edit>, i: nat, prev: int,
                                    p: string, out: string)
    requires Applicable(content, es) && i <= |es| && 0 <= prev <= |content| && (i < |es| ==> prev <= es[i].start)
    requires |p| == prev + Drift(es, i) && out == p + SpliceFrom(content, es, i, prev)
    requires inv == Inverse(content, es) && Applicable(out, inv)
    ensures i < |es| ==> |p| <= inv[i].start
    ensures SpliceFrom(out, inv, i, |p|) == content[prev..]
    decreases |es| - i
  {
    if i == |es| {
      assert out[|p|..] == content[prev..];
    } else {
      var p' := UndoPrefix(content, es, i, prev, p, out);
      InOrder(content, es, i);
      UndoFrom(content, es, inv, i + 1, es[i].end, p', out);
      UndoOne(content, es[i], inv, i, prev, |p|, out);
    }
  }

  lemma InOrder(content: string, es: seq<Edit>, i: nat)
    requires Applicable(content, es) && i < |es|
    ensures 0 <= es[i].start <= es[i].end <= |content| && (i + 1 < |es| ==> es[i].end <= es[i + 1].start)
  {
  }

  /** out seen as what comes up to the end of edit i, and the rest. */
  lemma UndoPrefix(content: string, es: seq<Edit>, i: nat, prev: int, p: string, out: string) returns (p': string)
    requires Applicable(content, es) && i < |es| && 0 <= prev <= es[i].start
    requires |p| == prev + Drift(es, i) && out == p + SpliceFrom(content, es, i, prev)
    ensures out == p' + SpliceFrom(content, es, i + 1, es[i].end)
    ensures |p'| == es[i].end + Drift(es, i + 1) == Undo(content, es, i).end
    ensures |p| + es[i].start - prev <= |out| && out[|p|..|p| + es[i].start - prev] == content[prev..es[i].start]
  {
    var e, rest := es[i], SpliceFrom(content, es, i + 1, es[i].end);
    var lead := content[prev..e.start];
    assert out == p + (lead + (e.replace + rest));
    UndoEnds(content, es, i);
    p' := PrefixOf(p, lead, e.replace, rest, out);
  }

  lemma UndoEnds(content: string, es: seq<Edit>, i: nat)
    requires WellPlaced(content, es) && i < |es|
    ensures Undo(content, es, i).end == es[i].end + Drift(es, i + 1) == es[i].start + Drift(es, i) + |es[i].replace|
  {
  }

  lemma PrefixOf(p: string, a: string, b: string, c: string, out: string) returns (p': string)
    requires out == p + (a + (b + c))
    ensures out == p' + c && |p'| == |p| + |a| + |b|
    ensures |p| + |a| <= |out| && out[|p|..|p| + |a|] == a
  {
    Regroup(p, a, b, c);
    MiddleOf(out, p, a, b + c);
    p' := p + a + b;
  }

  /** Undoing e, at i of inv, puts back what lay between the edit before it and its end. */
  lemma UndoOne(content: string, e: Edit, inv: seq<Edit>, i: nat, prev: int, q: int, out: string)
    requires 0 <= prev <= e.start <= e.end <= |content| && 0 <= q && i < |inv| && Applicable(out, inv)
    requires inv[i].start == q + (e.start - prev) && inv[i].replace == content[e.start..e.end]
    requires inv[i].end <= |out| && (i + 1 < |inv| ==> inv[i].end <= inv[i + 1].start)
    requires inv[i].start <= |out| && out[q..inv[i].start] == content[prev..e.start]
    requires SpliceFrom(out, inv, i + 1, inv[i].end) == content[e.end..]
    ensures SpliceFrom(out, inv, i, q) == content[prev..]
  {
    SlicesJoin(content, prev, e.start, e.end);
  }

  lemma Regroup(p: string, a: string, b: string, c: string)
    ensures p + (a + (b + c)) == (p + a + b) + c
  {
  }

  lemma MiddleOf(out: string, p: string, a: string, b: string)
    requires out == p + (a + b)
    ensures out[|p|..|p| + |a|] == a
  {
  }

  lemma SlicesJoin(s: string, a: int, b: int, c: int)
    requires 0 <= a <= b <= c <= |s|
    ensures s[a..b] + (s[b..c] + s[c..]) == s[a..]
  {
  }

  /** Applying the inverse edits to the edited file restores it. */
  lemma UndoRestores(content: string, es: seq<Edit>)
    requires Applicable(content, es)
    ensures Applicable(Splice(content, es), Inverse(content, es))
    ensures Splice(Splice(content, es), Inverse(content, es)) == content
  {
    InverseApplies(content, es);
    assert "" + Splice(content, es) == Splice(content, es);
    UndoFrom(content, es, Inverse(content, es), 0, 0, "", Splice(content, es));
    assert content[0..] == content;
  }
}
