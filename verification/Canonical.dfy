/** The canonical text of a configuration snapshot, and the reader that shows it
    determines the snapshot. */
module Canonical {
  import Names

  type Snapshot = map<string, string>

  // ----- quoting one character

  function HexDigit(n: int): char
    requires 0 <= n < 16
  {
    if n < 10 then (n + 48) as char else (n + 87) as char
  }

  function Hex(n: nat, digits: nat): (s: string)
    ensures |s| == digits
  {
    if digits == 0 then "" else Hex(n / 16, digits - 1) + [HexDigit(n % 16)]
  }

  /** The letter that names a control character after a backslash, if it has one. */
  function Named(c: char): char {
    var n := c as int;
    if n == 7 then 'a' else if n == 8 then 'b' else if n == 12 then 'f' else if n == 10 then 'n'
    else if n == 13 then 'r' else if n == 9 then 't' else if n == 11 then 'v' else ' '
  }

  /** c inside double quotes. printable are the characters past ASCII the library
      prints as they are. */
  function Escape(c: char, printable: set<char>): string {
    var n := c as int;
    if c == '"' || c == '\\' then ['\\', c]
    else if 32 <= n < 127 || (n >= 128 && c in printable) then [c]
    else if Named(c) != ' ' then ['\\', Named(c)]
    else if n < 32 || n == 127 then ['\\', 'x'] + Hex(n, 2)
    else if n < 0x10000 then ['\\', 'u'] + Hex(n, 4)
    else ['\\', 'U'] + Hex(n, 8)
  }

  function EscapeAll(v: string, printable: set<char>): string {
    if v == "" then "" else Escape(v[0], printable) + EscapeAll(v[1..], printable)
  }

  function Quote(v: string, printable: set<char>): string {
    ['"'] + EscapeAll(v, printable) + ['"']
  }

  // ----- the text

  function Line(key: string, value: string, printable: set<char>): string {
    key + ['='] + Quote(value, printable) + ['\n']
  }

  function Lines(keys: seq<string>, s: Snapshot, printable: set<char>): string
    requires forall k :: k in keys ==> k in s
  {
    if keys == [] then "" else Line(keys[0], s[keys[0]], printable) + Lines(keys[1..], s, printable)
  }

  lemma Associate(a: string, b: string, c: string)
    ensures a + (b + c) == a + b + c
  {
  }

  /** The keys of s, in any order. */
  method KeysOf(s: Snapshot) returns (listed: seq<string>)
    ensures forall k :: k in listed <==> k in s
  {
    var left := s.Keys;
    listed := [];
    while left != {}
      invariant left <= s.Keys && forall k :: k in listed <==> k in s.Keys - left
      decreases left
    {
      var k :| k in left;
      left := left - {k};
      listed := listed + [k];
    }
  }

  /** Renders s, ranging over its keys in any order and sorting them. */
  method Render(s: Snapshot, printable: set<char>) returns (text: string)
    ensures exists keys :: Names.Lists(keys, s.Keys) && text == Lines(keys, s, printable)
    ensures PlainKeys(s) ==> Decode(text) == Some(s)
  {
    var listed := KeysOf(s);
    var keys := Names.SortNames(listed);
    text := "";
    assert keys[0..] == keys;
    for i := 0 to |keys|
      invariant forall k :: k in keys[i..] ==> k in s
      invariant Lines(keys, s, printable) == text + Lines(keys[i..], s, printable)
    {
      var key := keys[i];
      assert keys[i..][0] == key && keys[i..][1..] == keys[i + 1..];
      var line := Line(key, s[key], printable);
      Associate(text, line, Lines(keys[i..][1..], s, printable));
      text := text + line;
    }
    TextReadsBack(s, keys, printable, text);
  }

  lemma TextReadsBack(s: Snapshot, keys: seq<string>, printable: set<char>, text: string)
    requires Names.Lists(keys, s.Keys) && text == Lines(keys, s, printable)
    ensures PlainKeys(s) ==> Decode(text) == Some(s)
  {
    if PlainKeys(s) {
      CanonicalReadsBack(s, keys, printable);
    }
  }

  // ----- how it is written

  /** Printable ASCII, quotes and backslashes aside. */
  predicate AsIs(c: char) { ' ' <= c <= '~' && c != '"' && c != '\\' }

  /** A value of plain characters is written as it is, between quotes. */
  lemma {:induction false} PlainValueIsItself(key: string, v: string, printable: set<char>)
    requires forall i :: 0 <= i < |v| ==> AsIs(v[i])
    ensures Line(key, v, printable) == key + "=\"" + v + "\"\n"
  {
    PlainIsItself(v, printable);
  }

  lemma {:induction false} PlainIsItself(v: string, printable: set<char>)
    requires forall i :: 0 <= i < |v| ==> AsIs(v[i])
    ensures EscapeAll(v, printable) == v
  {
    if v != "" {
      assert v == [v[0]] + v[1..];
      PlainIsItself(v[1..], printable);
    }
  }

  /** What is not plain is written with a backslash: a quote or a backslash as itself, the
      seven control characters that have a letter by it, and any other that does not print
      by its number, in two, four or eight digits of base 16. */
  lemma EscapesAre(c: char, printable: set<char>)
    ensures !AsIs(c) && (c < 128 as char || c !in printable) ==>
            Escape(c, printable) ==
            if c == '"' || c == '\\' then ['\\', c]
            else if 7 <= c as int <= 13 then ['\\', "abtnvfr"[c as int - 7]]
            else if c < 128 as char then "\\x" + Hex(c as int, 2)
            else if c as int < 0x10000 then "\\u" + Hex(c as int, 4) else "\\U" + Hex(c as int, 8)
    ensures c >= 128 as char && c in printable ==> Escape(c, printable) == [c]
  {
  }

  // ----- reading it back

  datatype Option<T> = None | Some(value: T)

  function HexValue(c: char): int {
    if '0' <= c <= '9' then c as int - 48 else if 'a' <= c <= 'f' then c as int - 87 else -1
  }

  /** The number s spells in hexadecimal, or -1. */
  function ReadHex(s: string): int {
    if s == "" then 0 else
      var front, d := ReadHex(s[..|s| - 1]), HexValue(s[|s| - 1]);
      if front < 0 || d < 0 then -1 else front * 16 + d
  }

  function AsChar(n: int): Option<char> {
    if 0 <= n < 0xD800 || 0xE000 <= n < 0x11_0000 then Some(n as char) else None
  }

  function Unnamed(c: char): Option<char> {
    if c == '"' || c == '\\' then Some(c)
    else if c == 'a' then Some(7 as char) else if c == 'b' then Some(8 as char) else if c == 'f' then Some(12 as char)
    else if c == 'n' then Some(10 as char) else if c == 'r' then Some(13 as char) else if c == 't' then Some(9 as char)
    else if c == 'v' then Some(11 as char) else None
  }

  /** How many hexadecimal digits follow c after a backslash. */
  function Width(c: char): nat {
    if c == 'x' then 2 else if c == 'u' then 4 else if c == 'U' then 8 else 0
  }

  datatype Char = Bad | Read(c: char, rest: string)

  /** The first character t spells, and what follows it. */
  function ReadChar(t: string): (r: Char)
    ensures r.Read? ==> |r.rest| < |t|
  {
    if t == "" then Bad
    else if t[0] != '\\' then Read(t[0], t[1..])
    else if |t| < 2 then Bad
    else if Unnamed(t[1]).Some? then Read(Unnamed(t[1]).value, t[2..])
    else
      var w := Width(t[1]);
      if w == 0 || |t| < 2 + w then Bad else
        var c := AsChar(ReadHex(t[2..2 + w]));
        if c.None? then Bad else Read(c.value, t[2 + w..])
  }

  datatype Text = Broken | Whole(value: string, rest: string)

  /** What is spelled up to the closing quote, and what follows it. */
  function ReadQuoted(t: string): (r: Text)
    ensures r.Whole? ==> |r.rest| < |t|
    decreases |t|
  {
    if t == "" then Broken
    else if t[0] == '"' then Whole("", t[1..])
    else
      match ReadChar(t)
      case Bad => Broken
      case Read(c, rest) =>
        match ReadQuoted(rest)
        case Broken => Broken
        case Whole(v, after) => Whole([c] + v, after)
  }

  /** What comes before the first '=', and what comes after it. */
  function ReadKey(t: string): (r: Text)
    ensures r.Whole? ==> |r.rest| < |t|
  {
    if t == "" then Broken
    else if t[0] == '=' then Whole("", t[1..])
    else
      match ReadKey(t[1..])
      case Broken => Broken
      case Whole(k, rest) => Whole([t[0]] + k, rest)
  }

  function Decode(t: string): Option<Snapshot>
    decreases |t|
  {
    if t == "" then Some(map[])
    else
      match ReadKey(t)
      case Broken => None
      case Whole(key, quoted) =>
        if quoted == "" || quoted[0] != '"' then None
        else
          match ReadQuoted(quoted[1..])
          case Broken => None
          case Whole(v, after) =>
            if after == "" || after[0] != '\n' then None
            else
              match Decode(after[1..])
              case None => None
              case Some(rest) => if key in rest then None else Some(rest[key := v])
  }

  // ----- the reader inverts the writer

  function Power(digits: nat): nat {
    if digits == 0 then 1 else 16 * Power(digits - 1)
  }

  lemma {:induction false} HexReadsBack(n: nat, digits: nat)
    requires n < Power(digits)
    ensures ReadHex(Hex(n, digits)) == n
  {
    if digits > 0 {
      var s := Hex(n, digits);
      HexReadsBack(n / 16, digits - 1);
      assert s[..|s| - 1] == Hex(n / 16, digits - 1);
    }
  }

  lemma Powers()
    ensures Power(2) == 256 && Power(4) == 0x10000 && Power(8) == 0x1_0000_0000
  {
    assert Power(1) == 16;
    assert Power(3) == 4096;
    assert Power(5) == 0x10_0000;
    assert Power(6) == 0x100_0000;
    assert Power(7) == 0x1000_0000;
  }

  lemma HexEscapeReadsBack(c: char, letter: char, rest: string)
    requires Width(letter) > 0 && c as int < Power(Width(letter)) && Unnamed(letter).None?
    ensures ReadChar(['\\', letter] + Hex(c as int, Width(letter)) + rest) == Read(c, rest)
  {
    var w, n := Width(letter), c as int;
    var t := ['\\', letter] + Hex(n, w) + rest;
    HexReadsBack(n, w);
    assert t[2..2 + w] == Hex(n, w) && t[2 + w..] == rest;
  }

  lemma EscapeReadsBack(c: char, printable: set<char>, rest: string)
    ensures Escape(c, printable) != "" && Escape(c, printable)[0] != '"'
    ensures ReadChar(Escape(c, printable) + rest) == Read(c, rest)
  {
    var n := c as int;
    var t := Escape(c, printable) + rest;
    Powers();
    if c == '"' || c == '\\' {
      assert t[2..] == rest;
    } else if 32 <= n < 127 || (n >= 128 && c in printable) {
      assert t[1..] == rest;
    } else if Named(c) != ' ' {
      assert t[2..] == rest && t[1] == Named(c);
    } else if n < 32 || n == 127 {
      HexEscapeReadsBack(c, 'x', rest);
    } else if n < 0x10000 {
      HexEscapeReadsBack(c, 'u', rest);
    } else {
      HexEscapeReadsBack(c, 'U', rest);
    }
  }

  lemma {:induction false} QuoteReadsBack(v: string, printable: set<char>, rest: string)
    ensures ReadQuoted(EscapeAll(v, printable) + ['"'] + rest) == Whole(v, rest)
    decreases |v|
  {
    var t := EscapeAll(v, printable) + ['"'] + rest;
    if v == "" {
      assert t[1..] == rest;
    } else {
      var tail := EscapeAll(v[1..], printable) + ['"'] + rest;
      assert t == Escape(v[0], printable) + tail;
      EscapeReadsBack(v[0], printable, tail);
      QuoteReadsBack(v[1..], printable, rest);
      assert [v[0]] + v[1..] == v;
    }
  }

  lemma {:induction false} KeyReadsBack(key: string, rest: string)
    requires '=' !in key
    ensures ReadKey(key + ['='] + rest) == Whole(key, rest)
    decreases |key|
  {
    var t := key + ['='] + rest;
    if key == "" {
      assert t[1..] == rest;
    } else {
      assert t[1..] == key[1..] + ['='] + rest;
      KeyReadsBack(key[1..], rest);
      assert [key[0]] + key[1..] == key;
    }
  }

  /** The settings of s named in keys. */
  ghost function Part(keys: seq<string>, s: Snapshot): Snapshot
    requires forall k :: k in keys ==> k in s
  {
    map k | k in keys :: s[k]
  }

  lemma LineReadsBack(key: string, value: string, printable: set<char>, rest: string)
    requires '=' !in key
    ensures Decode(Line(key, value, printable) + rest) ==
            match Decode(rest) case None => None case Some(m) => if key in m then None else Some(m[key := value])
  {
    var after := ['\n'] + rest;
    var quoted := EscapeAll(value, printable) + ['"'] + after;
    var t := Line(key, value, printable) + rest;
    LineIsKeyThenQuote(key, value, printable, rest, quoted);
    KeyReadsBack(key, ['"'] + quoted);
    QuoteReadsBack(value, printable, after);
    DecodeLine(t, key, quoted, value, rest);
  }

  lemma LineIsKeyThenQuote(key: string, value: string, printable: set<char>, rest: string, quoted: string)
    requires quoted == EscapeAll(value, printable) + ['"'] + (['\n'] + rest)
    ensures Line(key, value, printable) + rest == key + ['='] + (['"'] + quoted)
  {
  }

  lemma DecodeLine(t: string, key: string, quoted: string, value: string, rest: string)
    requires t != "" && ReadKey(t) == Whole(key, ['"'] + quoted)
    requires ReadQuoted(quoted) == Whole(value, ['\n'] + rest)
    ensures Decode(t) ==
            match Decode(rest) case None => None case Some(m) => if key in m then None else Some(m[key := value])
  {
    assert (['"'] + quoted)[1..] == quoted && (['\n'] + rest)[1..] == rest;
  }

  lemma {:induction false} LinesReadBack(keys: seq<string>, s: Snapshot, printable: set<char>)
    requires Names.Sorted(keys) && forall k :: k in keys ==> k in s && '=' !in k
    ensures Decode(Lines(keys, s, printable)) == Some(Part(keys, s))
    decreases |keys|
  {
    if keys != [] {
      LinesReadBack(keys[1..], s, printable);
      LineReadsBack(keys[0], s[keys[0]], printable, Lines(keys[1..], s, printable));
      forall i | 0 < i < |keys| ensures keys[i] != keys[0] {
        Names.LessIrreflexive(keys[0], keys[i]);
      }
      assert keys[0] !in keys[1..];
      PartIsOneMore(keys, s);
    } else {
      assert Part(keys, s) == map[];
    }
  }

  lemma PartIsOneMore(keys: seq<string>, s: Snapshot)
    requires keys != [] && forall k :: k in keys ==> k in s
    ensures Part(keys, s) == Part(keys[1..], s)[keys[0] := s[keys[0]]]
  {
    assert keys == [keys[0]] + keys[1..];
  }

  ghost predicate PlainKeys(s: Snapshot) {
    forall k :: k in s ==> '=' !in k
  }

  /** The text of a snapshot, whatever its values hold, reads back as that snapshot. */
  lemma CanonicalReadsBack(s: Snapshot, keys: seq<string>, printable: set<char>)
    requires PlainKeys(s) && Names.Lists(keys, s.Keys)
    ensures Decode(Lines(keys, s, printable)) == Some(s)
  {
    LinesReadBack(keys, s, printable);
    assert Part(keys, s) == s;
  }

  /** Two snapshots have the same text if and only if they are the same, in whatever
      order each one's keys were ranged over. */
  lemma SameTextSameSnapshot(s: Snapshot, skeys: seq<string>, t: Snapshot, tkeys: seq<string>, printable: set<char>)
    requires PlainKeys(s) && PlainKeys(t) && Names.Lists(skeys, s.Keys) && Names.Lists(tkeys, t.Keys)
    ensures Lines(skeys, s, printable) == Lines(tkeys, t, printable) <==> s == t
  {
    CanonicalReadsBack(s, skeys, printable);
    CanonicalReadsBack(t, tkeys, printable);
    if s == t {
      Names.ListingIsUnique(skeys, tkeys, s.Keys);
    }
  }
}
