/** Which keys the canonical text of a snapshot can be confused over: exactly those that
    spell whole settings before a last plain key. */
module CanonicalKeys {
  import Names
  import opened Canonical

  // ----- the end of a text

  /** Every quote in s has a backslash before it. */
  ghost predicate Escaped(s: string) {
    forall i :: 0 <= i < |s| && s[i] == '"' ==> i > 0 && s[i - 1] == '\\'
  }

  lemma HexHasNoQuote(n: nat, digits: nat)
    ensures forall i :: 0 <= i < digits ==> Hex(n, digits)[i] != '"'
  {
    if digits > 0 {
      HexHasNoQuote(n / 16, digits - 1);
    }
  }

  lemma EscapeIsEscaped(c: char, printable: set<char>)
    ensures Escaped(Escape(c, printable))
  {
    HexHasNoQuote(c as int, 2);
    HexHasNoQuote(c as int, 4);
    HexHasNoQuote(c as int, 8);
  }

  lemma {:induction false} EscapeAllIsEscaped(v: string, printable: set<char>)
    ensures Escaped(EscapeAll(v, printable))
    decreases |v|
  {
    if v != "" {
      EscapeIsEscaped(v[0], printable);
      EscapeAllIsEscaped(v[1..], printable);
      EscapedJoin(Escape(v[0], printable), EscapeAll(v[1..], printable));
    }
  }

  lemma EscapedJoin(a: string, b: string)
    requires Escaped(a) && Escaped(b)
    ensures Escaped(a + b)
  {
  }

  function Setting(key: string, escaped: string): string {
    key + (['=', '"'] + (escaped + ['"', '\n']))
  }

  lemma LineIsSetting(key: string, value: string, printable: set<char>)
    ensures Line(key, value, printable) == Setting(key, EscapeAll(value, printable))
  {
    Regroup(key, EscapeAll(value, printable));
  }

  lemma Regroup(key: string, escaped: string)
    ensures key + ['='] + (['"'] + escaped + ['"']) + ['\n'] == Setting(key, escaped)
  {
  }

  /** The last setting of a text is read from its end in one way. */
  lemma LastSettingIsUnique(a: string, x: string, b: string, y: string)
    requires Escaped(x) && Escaped(y) && Setting(a, x) == Setting(b, y)
    ensures a == b && x == y
  {
    NotLonger(a, x, b, y);
    NotLonger(b, y, a, x);
    var t := Setting(a, x);
    assert a == t[..|a|] && b == t[..|b|];
    assert x == t[|a| + 2..|t| - 2] && y == t[|b| + 2..|t| - 2];
  }

  lemma NotLonger(a: string, x: string, b: string, y: string)
    requires Escaped(y) && Setting(a, x) == Setting(b, y)
    ensures |y| <= |x|
  {
    var t := Setting(a, x);
    assert t[|a|] == '=' && t[|a| + 1] == '"';
    forall j | |b| + 2 <= j < |t| - 2 && t[j] == '"' ensures j > 0 && t[j - 1] == '\\' {
      assert t[j] == y[j - (|b| + 2)];
    }
  }

  lemma SameEscapedSameValue(v: string, w: string, printable: set<char>)
    requires EscapeAll(v, printable) == EscapeAll(w, printable)
    ensures v == w
  {
    QuoteReadsBack(v, printable, []);
    QuoteReadsBack(w, printable, []);
  }

  // ----- lists of lines

  lemma {:induction false} LinesAppend(front: seq<string>, last: string, s: Snapshot, printable: set<char>)
    requires last in s && forall k :: k in front ==> k in s
    ensures Lines(front + [last], s, printable) == Lines(front, s, printable) + Line(last, s[last], printable)
    decreases |front|
  {
    var all := front + [last];
    if front == [] {
      OneLine(last, s, printable);
    } else {
      assert all[1..] == front[1..] + [last];
      LinesAppend(front[1..], last, s, printable);
      Associate(Line(front[0], s[front[0]], printable), Lines(front[1..], s, printable),
                Line(last, s[last], printable));
    }
  }

  lemma {:induction false} LinesDependOnKeys(keys: seq<string>, s: Snapshot, t: Snapshot, printable: set<char>)
    requires forall k :: k in keys ==> k in s && k in t && s[k] == t[k]
    ensures Lines(keys, s, printable) == Lines(keys, t, printable)
    decreases |keys|
  {
    if keys != [] {
      LinesDependOnKeys(keys[1..], s, t, printable);
    }
  }

  // ----- keys that spell other settings

  /** key is the text of the settings named in keys, and then a later key. */
  ghost predicate SpelledBy(key: string, keys: seq<string>, p: Snapshot, last: string, printable: set<char>) {
    PlainKeys(p) && Names.Lists(keys, p.Keys) && keys != []
    && Names.Less(keys[|keys| - 1], last) && '=' !in last
    && key == Lines(keys, p, printable) + last
  }

  ghost predicate Spells(key: string, printable: set<char>) {
    exists keys, p, last :: SpelledBy(key, keys, p, last, printable)
  }

  /** t is another snapshot, of plain keys, with the text of the one setting. */
  ghost predicate Collides(key: string, value: string, keys: seq<string>, t: Snapshot, printable: set<char>) {
    PlainKeys(t) && Names.Lists(keys, t.Keys) && t != map[key := value]
    && Lines(keys, t, printable) == Line(key, value, printable)
  }

  /** A setting has the text of another snapshot of plain keys if and only if its key
      spells whole settings before a last key. */
  lemma CollidesExactly(key: string, value: string, printable: set<char>)
    ensures (exists keys, t :: Collides(key, value, keys, t, printable)) <==> Spells(key, printable)
  {
    if keys, t :| Collides(key, value, keys, t, printable) {
      ColliderIsSpelled(key, value, keys, t, printable);
    }
    if Spells(key, printable) {
      var keys, p, last :| SpelledBy(key, keys, p, last, printable);
      SpelledCollides(key, value, keys, p, last, printable);
    }
  }

  /** A text with a last line is a setting whose key is the lines before and that key. */
  lemma TextIsSetting(front: seq<string>, last: string, t: Snapshot, printable: set<char>)
    requires last in t && forall k :: k in front ==> k in t
    ensures Lines(front + [last], t, printable) ==
            Setting(Lines(front, t, printable) + last, EscapeAll(t[last], printable))
  {
    LinesAppend(front, last, t, printable);
    LineIsSetting(last, t[last], printable);
    LastOfLines(Lines(front, t, printable), last, EscapeAll(t[last], printable));
  }

  lemma SettingIsLast(key: string, value: string, front: seq<string>, last: string, t: Snapshot, printable: set<char>)
    requires last in t && forall k :: k in front ==> k in t
    requires Lines(front + [last], t, printable) == Line(key, value, printable)
    ensures key == Lines(front, t, printable) + last && value == t[last]
  {
    TextIsSetting(front, last, t, printable);
    LineIsSetting(key, value, printable);
    EscapeAllIsEscaped(value, printable);
    EscapeAllIsEscaped(t[last], printable);
    LastSettingIsUnique(key, EscapeAll(value, printable),
                        Lines(front, t, printable) + last, EscapeAll(t[last], printable));
    SameEscapedSameValue(value, t[last], printable);
  }

  lemma ColliderIsSpelled(key: string, value: string, keys: seq<string>, t: Snapshot, printable: set<char>)
    requires Collides(key, value, keys, t, printable)
    ensures Spells(key, printable)
  {
    assert keys != [];
    var n := |keys| - 1;
    var front, last := keys[..n], keys[n];
    assert keys == front + [last] && last in keys;
    SettingIsLast(key, value, front, last, t, printable);
    if front == [] {
      assert Lines(front, t, printable) == "" && "" + last == last;
      OnlySetting(key, value, keys, t);
    } else {
      WithoutLast(keys, t);
      LinesDependOnKeys(front, t, t - {last}, printable);
      SpelledSpells(key, front, t - {last}, last, printable);
    }
  }

  lemma SpelledSpells(key: string, keys: seq<string>, p: Snapshot, last: string, printable: set<char>)
    ensures SpelledBy(key, keys, p, last, printable) ==> Spells(key, printable)
  {
  }

  lemma LastOfLines(front: string, last: string, escaped: string)
    ensures front + Setting(last, escaped) == Setting(front + last, escaped)
  {
  }

  lemma OnlySetting(key: string, value: string, keys: seq<string>, t: Snapshot)
    requires keys == [key] && Names.Lists(keys, t.Keys) && t[key] == value
    ensures t == map[key := value]
  {
  }

  lemma WithoutLast(keys: seq<string>, t: Snapshot)
    requires Names.Lists(keys, t.Keys) && |keys| > 1
    ensures var n := |keys| - 1;
            Names.Lists(keys[..n], (t - {keys[n]}).Keys) && Names.Less(keys[n - 1], keys[n])
  {
    var n := |keys| - 1;
    forall k | k in keys[..n] ensures k in keys && k != keys[n] {
      var i :| 0 <= i < n && keys[i] == k;
      Names.LessIrreflexive(keys[i], keys[n]);
    }
    assert keys == keys[..n] + [keys[n]];
  }

  lemma SpelledCollides(key: string, value: string, keys: seq<string>, p: Snapshot, last: string, printable: set<char>)
    requires SpelledBy(key, keys, p, last, printable)
    ensures Collides(key, value, keys + [last], p[last := value], printable)
  {
    var t, all := p[last := value], keys + [last];
    WithLast(keys, p, last, value);
    LinesAppend(keys, last, t, printable);
    LinesDependOnKeys(keys, p, t, printable);
    LineIsSetting(key, value, printable);
    LineIsSetting(last, value, printable);
    LastOfLines(Lines(keys, p, printable), last, EscapeAll(value, printable));
    EqualsInLines(keys, p, printable);
    assert '=' in key && key in map[key := value] && key !in t;
  }

  lemma WithLast(keys: seq<string>, p: Snapshot, last: string, value: string)
    requires Names.Lists(keys, p.Keys) && keys != [] && Names.Less(keys[|keys| - 1], last)
    ensures Names.Lists(keys + [last], p[last := value].Keys) && forall k :: k in keys ==> k != last
  {
    forall i | 0 <= i < |keys| ensures Names.Less(keys[i], last) {
      if i < |keys| - 1 {
        Names.LessTransitive(keys[i], keys[|keys| - 1], last);
      }
    }
    forall k | k in keys ensures k != last {
      Names.LessIrreflexive(k, last);
    }
  }

  lemma EqualsInLines(keys: seq<string>, p: Snapshot, printable: set<char>)
    requires keys != [] && forall k :: k in keys ==> k in p
    ensures '=' in Lines(keys, p, printable)
  {
    var key := keys[0];
    LineIsSetting(key, p[key], printable);
    assert Line(key, p[key], printable)[|key|] == '=';
    assert Lines(keys, p, printable)[|key|] == '=';
  }

  /** Such a key: it spells a and its value before b. */
  lemma EqualsInAKeyCollides(printable: set<char>)
    ensures Lines(["a=\"x\"\nb"], map["a=\"x\"\nb" := "y"], printable) ==
            Lines(["a", "b"], map["a" := "x", "b" := "y"], printable)
  {
    var y, tail, one := ['y'], ['=', '"', 'y', '"', '\n'], "a=\"x\"\nb";
    var m := map["a" := "x", "b" := "y"];
    PlainLine("a", 'x', printable);
    PlainLine("b", 'y', printable);
    PlainLine(one, 'y', printable);
    OneLine(one, map[one := "y"], printable);
    OneLine("b", m, printable);
    TwoLines("a", "b", m, printable);
    assert one + tail == "a=\"x\"\n" + ("b" + tail);
  }

  lemma PlainLine(key: string, c: char, printable: set<char>)
    requires c == 'x' || c == 'y'
    ensures Line(key, [c], printable) == key + ['=', '"', c, '"', '\n']
  {
    assert [c][1..] == [];
    assert EscapeAll([], printable) == [] && EscapeAll([c], printable) == [c];
  }

  lemma OneLine(key: string, s: Snapshot, printable: set<char>)
    requires key in s
    ensures Lines([key], s, printable) == Line(key, s[key], printable)
  {
    assert [key][1..] == [];
  }

  lemma TwoLines(a: string, b: string, s: Snapshot, printable: set<char>)
    requires a in s && b in s
    ensures Lines([a, b], s, printable) == Line(a, s[a], printable) + Lines([b], s, printable)
  {
    assert [a, b][1..] == [b];
  }
}
