/** Building a redactor from the values a caller seeds it with. */
module Seeding {
  import B = Boundaries
  import Scan
  import opened Spans
  import opened Literals
  import opened Redaction
  import opened Trimming

  /** A value to redact, as the caller gives it. */
  datatype Seed = Seed(name: string, value: string)

  function Sanitize(name: string): string {
    if name == "" then "SECRET" else
      seq(|name|, i requires 0 <= i < |name| =>
        var c := name[i];
        if 'a' <= c <= 'z' then (c as int - 32) as char
        else if 'A' <= c <= 'Z' || '0' <= c <= '9' || c == '_' then c
        else '_')
  }

  /** What a label's character is written as: capitals, digits and underscores as they are,
      small letters as capitals, and the rest as underscores. */
  predicate WrittenAs(c: char, d: char) {
    if 'a' <= c <= 'z' then 'A' <= d <= 'Z' && d as int - 'A' as int == c as int - 'a' as int
    else d == if 'A' <= c <= 'Z' || '0' <= c <= '9' then c else '_'
  }

  /** A label is written one character for one, and one so written is left as it is. */
  lemma LabelsAreSanitized(name: string)
    ensures name == "" ==> Sanitize(name) == "SECRET"
    ensures name != "" ==> |Sanitize(name)| == |name|
                           && forall i :: 0 <= i < |name| ==> WrittenAs(name[i], Sanitize(name)[i])
    ensures Sanitize(Sanitize(name)) == Sanitize(name)
  {
  }

  /** Two labels have the same marker only where they are written the same. */
  lemma MarkersNameTheLabel(name: string, other: string)
    ensures Marker(Sanitize(name)) == ['['] + "REDACTED:" + Sanitize(name) + [']']
    ensures Marker(Sanitize(name)) == Marker(Sanitize(other)) ==> Sanitize(name) == Sanitize(other)
  {
    var m, o := Marker(Sanitize(name)), Marker(Sanitize(other));
    assert m[10..|m| - 1] == Sanitize(name) && o[10..|o| - 1] == Sanitize(other);
  }

  function Marker(name: string): string {
    "[REDACTED:" + name + "]"
  }

  function SecretOf(seed: Seed): Secret {
    Secret(Marker(Sanitize(seed.name)), TrimSpace(seed.value))
  }

  ghost predicate Descending(xs: seq<Secret>) {
    forall i, j :: 0 <= i < j < |xs| ==> |xs[i].value| >= |xs[j].value|
  }

  /** One step of sorting by length, the longest first. */
  method InsertByLength(s: Secret, xs: seq<Secret>) returns (r: seq<Secret>)
    requires Descending(xs) && Distinct(xs) && forall x :: x in xs ==> x.value != s.value
    ensures Descending(r) && Distinct(r) && forall x :: x in r <==> x == s || x in xs
  {
    var i := 0;
    while i < |xs| && |xs[i].value| > |s.value|
      invariant 0 <= i <= |xs| && forall k :: 0 <= k < i ==> |xs[k].value| > |s.value|
    {
      i := i + 1;
    }
    r := xs[..i] + [s] + xs[i..];
    Inserted(s, xs, i, r);
  }

  lemma Inserted(s: Secret, xs: seq<Secret>, i: nat, r: seq<Secret>)
    requires Descending(xs) && Distinct(xs) && forall x :: x in xs ==> x.value != s.value
    requires i <= |xs| && r == xs[..i] + [s] + xs[i..]
    requires (forall k :: 0 <= k < i ==> |xs[k].value| > |s.value|) && (i < |xs| ==> |xs[i].value| <= |s.value|)
    ensures Descending(r) && Distinct(r) && forall x :: x in r <==> x == s || x in xs
  {
    forall j, k | 0 <= j < k < |r| ensures |r[j].value| >= |r[k].value| && r[j].value != r[k].value {
      InsertedAt(s, xs, i, j);
      InsertedAt(s, xs, i, k);
    }
    assert xs == xs[..i] + xs[i..];
  }

  /** Where the element at k of xs[..i] + [s] + xs[i..] comes from, and how it compares
      with s. */
  lemma InsertedAt(s: Secret, xs: seq<Secret>, i: nat, k: nat)
    requires Descending(xs) && forall x :: x in xs ==> x.value != s.value
    requires i <= |xs| && k <= |xs|
    requires (forall k :: 0 <= k < i ==> |xs[k].value| > |s.value|) && (i < |xs| ==> |xs[i].value| <= |s.value|)
    ensures (xs[..i] + [s] + xs[i..])[k] == if k < i then xs[k] else if k == i then s else xs[k - 1]
    ensures k < i ==> |xs[k].value| > |s.value| && xs[k].value != s.value
    ensures k > i ==> |xs[k - 1].value| <= |s.value| && xs[k - 1].value != s.value
  {
    if k < i {
      assert xs[k] in xs;
    } else if k > i {
      assert xs[k - 1] in xs;
    }
  }

  /** seeds[k] is the first to give its value, and the value is long enough to use. */
  ghost predicate Counts(seeds: seq<Seed>, k: nat)
    requires k < |seeds|
  {
    |TrimSpace(seeds[k].value)| >= 4
    && forall j :: 0 <= j < k ==> TrimSpace(seeds[j].value) != TrimSpace(seeds[k].value)
  }

  /** The secrets are the seeds that count, each under its first name. */
  ghost predicate Seeded(secrets: seq<Secret>, seeds: seq<Seed>, n: nat)
    requires n <= |seeds|
  {
    forall s :: s in secrets <==> From(seeds, n, s)
  }

  ghost predicate Gives(seeds: seq<Seed>, k: nat, s: Secret)
    requires k < |seeds|
  {
    Counts(seeds, k) && s.value == TrimSpace(seeds[k].value)
    && s.mark == "[REDACTED:" + Sanitize(seeds[k].name) + "]"
  }

  ghost predicate From(seeds: seq<Seed>, n: nat, s: Secret)
    requires n <= |seeds|
  {
    exists k :: 0 <= k < n && Gives(seeds, k, s)
  }

  lemma FromOneMore(seeds: seq<Seed>, k: nat, s: Secret)
    requires k < |seeds|
    ensures From(seeds, k + 1, s) <==> From(seeds, k, s) || Gives(seeds, k, s)
  {
    if From(seeds, k, s) {
      var j :| 0 <= j < k && Gives(seeds, j, s);
      assert Gives(seeds, j, s);
    }
  }

  /** The seeds that count, each once, the longest value first. */
  method Collect(seeds: seq<Seed>) returns (secrets: seq<Secret>)
    ensures Seeded(secrets, seeds, |seeds|) && Descending(secrets) && Distinct(secrets)
    ensures forall s :: s in secrets ==> |s.value| >= MIN_SECRET_LEN
  {
    secrets := [];
    var seen: set<string> := {};
    for k := 0 to |seeds|
      invariant forall s :: s in secrets ==> s.value in seen && |s.value| >= MIN_SECRET_LEN
      invariant Descending(secrets) && Distinct(secrets) && Seeded(secrets, seeds, k)
      invariant SeenIs(seen, seeds, k)
    {
      var s := SecretOf(seeds[k]);
      if |s.value| < MIN_SECRET_LEN || s.value in seen {
        SeededAlready(secrets, seen, seeds, k);
      } else {
        ghost var was := secrets;
        secrets := InsertByLength(s, secrets);
        SeededByOneMore(was, secrets, seen, seeds, k);
        SeenOneMore(seen, seeds, k);
        seen := seen + {s.value};
      }
    }
  }

  /** seen holds the usable values of the first n seeds. */
  ghost predicate SeenIs(seen: set<string>, seeds: seq<Seed>, n: nat)
    requires n <= |seeds|
  {
    forall v :: v in seen <==> exists j :: 0 <= j < n && v == TrimSpace(seeds[j].value) && |v| >= MIN_SECRET_LEN
  }

  function BeginPrivateKey(): B.Boundary { B.Boundary("-----BEGIN ", "PRIVATE KEY-----") }

  function EndPrivateKey(): B.Boundary { B.Boundary("-----END ", "PRIVATE KEY-----") }

  /** A line is a boundary of a private key if and only if what stands between the words is
      capitals, digits and spaces, or nothing. */
  lemma KeyLinesMatch(name: string)
    ensures B.Matches(BeginPrivateKey(), "-----BEGIN " + name + "PRIVATE KEY-----") <==> IsKind(name)
    ensures B.Matches(EndPrivateKey(), "-----END " + name + "PRIVATE KEY-----") <==> IsKind(name)
  {
    Between("-----BEGIN ", name, "PRIVATE KEY-----");
    Between("-----END ", name, "PRIVATE KEY-----");
  }

  predicate IsKind(name: string) {
    forall i :: 0 <= i < |name| ==> 'A' <= name[i] <= 'Z' || '0' <= name[i] <= '9' || name[i] == ' '
  }

  lemma Between(open: string, name: string, close: string)
    ensures B.Matches(B.Boundary(open, close), open + name + close) <==> IsKind(name)
  {
    var m := open + name + close;
    assert m[..|open|] == open && m[|m| - |close|..] == close;
    assert forall i :: 0 <= i < |name| ==> m[|open| + i] == name[i];
    if B.Matches(B.Boundary(open, close), m) {
      forall i | 0 <= i < |name| ensures B.InClass(name[i]) {
        assert B.InClass(m[|open| + i]);
      }
    }
  }

  lemma KeyBoundariesAreValid()
    ensures B.Valid(BeginPrivateKey()) && B.Valid(EndPrivateKey())
  {
  }

  method NewRedactor(seeds: seq<Seed>) returns (r: Redactor)
    ensures Valid(r) && Seeded(r.secrets, seeds, |seeds|) && Descending(r.secrets)
    ensures r.begin == BeginPrivateKey() && r.end == EndPrivateKey() && r.keyMark == Marker("PRIVATE_KEY")
    ensures r.overlap == if r.secrets == [] then 128 else Max(128, |r.secrets[0].value| + 1)
  {
    var secrets := Collect(seeds);
    var overlap := MIN_OVERLAP;
    if secrets != [] && |secrets[0].value| + 1 > overlap {
      overlap := |secrets[0].value| + 1;
    }
    KeyBoundariesAreValid();
    r := Redactor(secrets, overlap, BeginPrivateKey(), EndPrivateKey(), Marker("PRIVATE_KEY"));
  }

  lemma SeededByOneMore(was: seq<Secret>, secrets: seq<Secret>, seen: set<string>, seeds: seq<Seed>, k: nat)
    requires k < |seeds| && Seeded(was, seeds, k) && SeenIs(seen, seeds, k)
    requires var v := TrimSpace(seeds[k].value); |v| >= MIN_SECRET_LEN && v !in seen
    requires forall x :: x in secrets <==> x == SecretOf(seeds[k]) || x in was
    ensures Seeded(secrets, seeds, k + 1)
  {
    assert Counts(seeds, k);
    forall s ensures s in secrets <==> From(seeds, k + 1, s) {
      FromOneMore(seeds, k, s);
    }
  }

  lemma SeenOneMore(seen: set<string>, seeds: seq<Seed>, k: nat)
    requires k < |seeds| && SeenIs(seen, seeds, k) && |TrimSpace(seeds[k].value)| >= MIN_SECRET_LEN
    ensures SeenIs(seen + {TrimSpace(seeds[k].value)}, seeds, k + 1)
  {
  }

  lemma SeededAlready(secrets: seq<Secret>, seen: set<string>, seeds: seq<Seed>, k: nat)
    requires k < |seeds| && Seeded(secrets, seeds, k) && SeenIs(seen, seeds, k)
    requires var v := TrimSpace(seeds[k].value); |v| < MIN_SECRET_LEN || v in seen
    ensures Seeded(secrets, seeds, k + 1) && SeenIs(seen, seeds, k + 1)
  {
    assert !Counts(seeds, k);
    forall s ensures s in secrets <==> From(seeds, k + 1, s) {
      FromOneMore(seeds, k, s);
    }
  }

  /** The order secrets of equal length are left in by the sort does not matter: what a
      buffer redacts to depends only on which secrets there are. */
  lemma OrderIsIrrelevant(xs: seq<Secret>, ys: seq<Secret>, b: string)
    requires Usable(xs) && Usable(ys) && forall s :: s in xs <==> s in ys
    ensures Redact(xs, b) == Redact(ys, b)
  {
    assert Raw(xs, b) == Raw(ys, b);
  }
}
