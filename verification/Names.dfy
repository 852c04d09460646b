/** The order names are sorted in, and the one sorted list of a set of names. */
module Names {

  /** Byte order. */
  predicate Less(a: string, b: string) {
    b != "" && (a == "" || a[0] < b[0] || (a[0] == b[0] && Less(a[1..], b[1..])))
  }

  /** At i the two first differ: a ends there, or has the lesser byte. */
  predicate DifferAt(a: string, b: string, i: int) {
    0 <= i <= |a| && i < |b| && a[..i] == b[..i] && (i == |a| || a[i] < b[i])
  }

  /** One name comes before another if and only if it is the start of it or has the lesser
      byte where they first differ. */
  lemma {:induction false} LessIsByteOrder(a: string, b: string)
    ensures Less(a, b) <==> exists i :: DifferAt(a, b, i)
    decreases |a|
  {
    if a == "" || b == "" || a[0] != b[0] {
      assert b != "" && (a == "" || a[0] < b[0]) ==> DifferAt(a, b, 0);
    } else {
      LessIsByteOrder(a[1..], b[1..]);
      if i :| DifferAt(a[1..], b[1..], i) {
        DifferLater(a, b, i);
      }
      if i :| DifferAt(a, b, i) {
        assert i > 0;
        DifferLater(a, b, i - 1);
      }
    }
  }

  lemma DifferLater(a: string, b: string, i: int)
    requires a != "" && b != "" && a[0] == b[0] && i >= 0
    ensures DifferAt(a[1..], b[1..], i) <==> DifferAt(a, b, i + 1)
  {
    if i < |a| && i < |b| {
      assert a[..i + 1] == [a[0]] + a[1..][..i] && b[..i + 1] == [b[0]] + b[1..][..i];
      assert a[1..][..i] == a[..i + 1][1..] && b[1..][..i] == b[..i + 1][1..];
    }
  }

  lemma {:induction false} LessTransitive(a: string, b: string, c: string)
    requires Less(a, b) && Less(b, c)
    ensures Less(a, c)
    decreases |a|
  {
    if a != "" && a[0] == b[0] && b[0] == c[0] {
      LessTransitive(a[1..], b[1..], c[1..]);
    }
  }

  lemma {:induction false} LessTotal(a: string, b: string)
    ensures Less(a, b) || a == b || Less(b, a)
    decreases |a|
  {
    if a != "" && b != "" && a[0] == b[0] {
      LessTotal(a[1..], b[1..]);
      assert a == [a[0]] + a[1..] && b == [b[0]] + b[1..];
    }
  }

  lemma {:induction false} LessIrreflexive(a: string, b: string)
    requires Less(a, b)
    ensures a != b && !Less(b, a)
    decreases |a|
  {
    if a != "" && a[0] == b[0] {
      LessIrreflexive(a[1..], b[1..]);
    }
  }

  /** Sorted, and so without repeats. */
  ghost predicate Sorted(s: seq<string>) {
    forall i, j :: 0 <= i < j < |s| ==> Less(s[i], s[j])
  }

  ghost predicate Lists(s: seq<string>, names: set<string>) {
    Sorted(s) && forall x :: x in s <==> x in names
  }

  lemma FirstIsLeast(s: seq<string>, x: string)
    requires Sorted(s) && x in s
    ensures x == s[0] || Less(s[0], x)
  {
  }

  /** A set of names has one sorted list. */
  lemma {:induction false} ListingIsUnique(s: seq<string>, t: seq<string>, names: set<string>)
    requires Lists(s, names) && Lists(t, names)
    ensures s == t
    decreases |s|
  {
    assert forall i :: 0 <= i < |s| ==> s[i] in s;
    assert t != [] ==> t[0] in t && t[0] in s;
    if s == [] {
    } else {
      assert s[0] in t && t != [];
      FirstIsLeast(s, t[0]);
      FirstIsLeast(t, s[0]);
      if s[0] != t[0] { LessIrreflexive(s[0], t[0]); }
      RestLists(s, names);
      RestLists(t, names);
      ListingIsUnique(s[1..], t[1..], names - {s[0]});
    }
  }

  lemma RestLists(s: seq<string>, names: set<string>)
    requires Lists(s, names) && s != []
    ensures Lists(s[1..], names - {s[0]})
  {
    forall x ensures x in s[1..] <==> x in names && x != s[0] {
      if x in s[1..] {
        var i :| 0 <= i < |s[1..]| && s[1..][i] == x;
        assert s[i + 1] == x;
        LessIrreflexive(s[0], x);
      }
    }
  }

  /** name put where it belongs in a sorted list, unless it is there. */
  function Insert(name: string, s: seq<string>): (r: seq<string>)
    requires Sorted(s)
    ensures Sorted(r) && forall x :: x in r <==> x == name || x in s
  {
    if s == [] then [name]
    else
      LessTotal(name, s[0]);
      if name == s[0] then s
      else if Less(name, s[0]) then
        LessAll(name, s);
        [name] + s
      else
        var rest := Insert(name, s[1..]);
        LessFirst(s, name, rest);
        [s[0]] + rest
  }

  lemma LessAll(name: string, s: seq<string>)
    requires Sorted(s) && s != [] && Less(name, s[0])
    ensures Sorted([name] + s)
  {
    forall i | 0 <= i < |s| ensures Less(name, s[i]) {
      if i > 0 { LessTransitive(name, s[0], s[i]); }
    }
  }

  lemma LessFirst(s: seq<string>, name: string, rest: seq<string>)
    requires Sorted(s) && s != [] && Less(s[0], name)
    requires Sorted(rest) && forall x :: x in rest <==> x == name || x in s[1..]
    ensures Sorted([s[0]] + rest)
    ensures forall x :: x in [s[0]] + rest <==> x == name || x in s
  {
    forall i | 0 <= i < |rest| ensures Less(s[0], rest[i]) {
      assert rest[i] in rest;
      if rest[i] != name {
        var j :| 0 <= j < |s[1..]| && s[1..][j] == rest[i];
        assert s[j + 1] == rest[i];
      }
    }
    assert s == [s[0]] + s[1..];
  }

  /** Sorted and compacted: each name once. */
  function SortNames(s: seq<string>): (r: seq<string>)
    ensures Sorted(r) && forall x :: x in r <==> x in s
  {
    if s == [] then [] else
      assert s == [s[0]] + s[1..];
      Insert(s[0], SortNames(s[1..]))
  }
}
