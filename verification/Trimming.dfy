/** Trimming the white space, as Unicode has it and UTF-8 writes it, around a value. */
module Trimming {
  import opened Bytes

  /** b[i..] starts with these bytes. */
  predicate HasAt(b: string, i: int, bytes: seq<int>) {
    0 <= i && i + |bytes| <= |b| && forall k :: 0 <= k < |bytes| ==> b[i + k] as int == bytes[k]
  }

  /** How many bytes of white space v has from i on, at most w of them. */
  function SpaceAt(v: string, i: int, w: nat): (n: nat)
    ensures n <= w && (n > 0 ==> 0 <= i && i + n <= |v|)
  {
    if 0 <= i < |v| && w >= 1 && IsSpace(v[i]) then 1
    else if w >= 2 && (HasAt(v, i, [0xC2, 0x85]) || HasAt(v, i, [0xC2, 0xA0])) then 2
    else if w >= 3 && (HasAt(v, i, [0xE1, 0x9A, 0x80]) || HasAt(v, i, [0xE2, 0x81, 0x9F])
                       || HasAt(v, i, [0xE3, 0x80, 0x80])
                       || (HasAt(v, i, [0xE2, 0x80]) && i + 2 < |v| && GeneralSpace(v[i + 2] as int))) then 3
    else 0
  }

  /** The spaces and separators among the characters that begin with the bytes E2 80. */
  predicate GeneralSpace(last: int) {
    0x80 <= last <= 0x8A || last == 0xA8 || last == 0xA9 || last == 0xAF
  }

  function SpaceAtStart(v: string): (n: nat)
    ensures n <= |v|
  {
    SpaceAt(v, 0, 3)
  }

  function SpaceAtEnd(v: string): (n: nat)
    ensures n <= |v|
  {
    if SpaceAt(v, |v| - 1, 1) == 1 then 1
    else if SpaceAt(v, |v| - 2, 2) == 2 then 2
    else if SpaceAt(v, |v| - 3, 3) == 3 then 3
    else 0
  }

  /** v without the white space around it. */
  function TrimSpace(v: string): (t: string)
    ensures SpaceAtStart(t) == 0 && SpaceAtEnd(t) == 0
  {
    TrimRight(TrimLeft(v))
  }

  function TrimLeft(v: string): (t: string)
    ensures SpaceAtStart(t) == 0
    decreases |v|
  {
    if SpaceAtStart(v) == 0 then v else TrimLeft(v[SpaceAtStart(v)..])
  }

  function TrimRight(v: string): (t: string)
    ensures SpaceAtEnd(t) == 0 && (SpaceAtStart(v) == 0 ==> SpaceAtStart(t) == 0)
    decreases |v|
  {
    if SpaceAtEnd(v) == 0 then v else TrimRight(v[..|v| - SpaceAtEnd(v)])
  }

  // ----- white space as Unicode has it

  /** The characters Unicode calls white space. */
  predicate WhiteSpace(c: int) {
    9 <= c <= 13 || c == 0x20 || c == 0x85 || c == 0xA0 || c == 0x1680 || 0x2000 <= c <= 0x200A
    || c == 0x2028 || c == 0x2029 || c == 0x202F || c == 0x205F || c == 0x3000
  }

  /** A character as UTF-8 writes it (section 3 of RFC 3629), up to three bytes. */
  function Utf8(c: int): (u: string)
    requires 0 <= c < 0x10000
    ensures 1 <= |u| <= 3
  {
    if c < 0x80 then [c as char]
    else if c < 0x800 then [(0xC0 + c / 64) as char, (0x80 + c % 64) as char]
    else [(0xE0 + c / 4096) as char, (0x80 + c / 64 % 64) as char, (0x80 + c % 64) as char]
  }

  predicate AllWhite(cs: seq<int>) {
    forall k :: 0 <= k < |cs| ==> WhiteSpace(cs[k])
  }

  function Written(cs: seq<int>): string
    requires AllWhite(cs)
  {
    if cs == [] then "" else Utf8(cs[0]) + Written(cs[1..])
  }

  lemma {:induction false} WrittenJoins(a: seq<int>, b: seq<int>)
    requires AllWhite(a) && AllWhite(b)
    ensures Written(a + b) == Written(a) + Written(b)
  {
    if a == [] {
      assert a + b == b;
    } else {
      assert (a + b)[1..] == a[1..] + b;
      WrittenJoins(a[1..], b);
    }
  }

  lemma HasSlice(v: string, i: int, bytes: seq<int>, u: string)
    requires |u| == |bytes| && forall k :: 0 <= k < |u| ==> u[k] as int == bytes[k]
    ensures HasAt(v, i, bytes) <==> 0 <= i && i + |u| <= |v| && v[i..i + |u|] == u
  {
    if 0 <= i && i + |u| <= |v| {
      var s := v[i..i + |u|];
      assert forall k :: 0 <= k < |u| ==> s[k] == v[i + k];
      if HasAt(v, i, bytes) {
        assert forall k :: 0 <= k < |u| ==> s[k] as int == u[k] as int;
      }
    }
  }

  lemma FirstByte(v: string, i: int, bytes: seq<int>)
    requires bytes != [] && 0 <= i < |v|
    ensures HasAt(v, i, bytes) ==> v[i] as int == bytes[0]
  {
    assert HasAt(v, i, bytes) ==> v[i + 0] as int == bytes[0];
  }

  /** The general spaces and separators are those written E2 80 and one byte more. */
  lemma GeneralIsWritten(c: int)
    requires 0x2000 <= c < 0x2040
    ensures |Utf8(c)| == 3 && Utf8(c)[0] as int == 0xE2 && Utf8(c)[1] as int == 0x80
    ensures Utf8(c)[2] as int == 0x80 + (c - 0x2000)
    ensures WhiteSpace(c) <==> GeneralSpace(Utf8(c)[2] as int)
  {
    assert c / 4096 == 2 && c / 64 % 64 == 0;
  }

  /** The character that the white space found at i writes. */
  lemma SpaceIsCharacter(v: string, i: int, w: nat) returns (c: int)
    requires SpaceAt(v, i, w) > 0
    ensures WhiteSpace(c) && |Utf8(c)| == SpaceAt(v, i, w) && v[i..i + |Utf8(c)|] == Utf8(c)
  {
    if IsSpace(v[i]) {
      c := v[i] as int;
    } else if w >= 2 && HasAt(v, i, [0xC2, 0x85]) {
      c := 0x85;
      HasSlice(v, i, [0xC2, 0x85], Utf8(c));
    } else if w >= 2 && HasAt(v, i, [0xC2, 0xA0]) {
      c := 0xA0;
      HasSlice(v, i, [0xC2, 0xA0], Utf8(c));
    } else {
      c := LongSpaceIsCharacter(v, i);
    }
  }

  lemma LongSpaceIsCharacter(v: string, i: int) returns (c: int)
    requires SpaceAt(v, i, 3) == 3
    ensures WhiteSpace(c) && |Utf8(c)| == 3 && v[i..i + 3] == Utf8(c)
  {
    HasSlice(v, i, [0xE1, 0x9A, 0x80], Utf8(0x1680));
    HasSlice(v, i, [0xE2, 0x81, 0x9F], Utf8(0x205F));
    HasSlice(v, i, [0xE3, 0x80, 0x80], Utf8(0x3000));
    if v[i..i + 3] == Utf8(0x1680) {
      c := 0x1680;
    } else if v[i..i + 3] == Utf8(0x205F) {
      c := 0x205F;
    } else if v[i..i + 3] == Utf8(0x3000) {
      c := 0x3000;
    } else {
      c := GeneralCharacter(v, i);
    }
  }

  lemma GeneralCharacter(v: string, i: int) returns (c: int)
    requires HasAt(v, i, [0xE2, 0x80]) && i + 2 < |v| && GeneralSpace(v[i + 2] as int)
    ensures WhiteSpace(c) && |Utf8(c)| == 3 && v[i..i + 3] == Utf8(c)
  {
    c := 0x2000 + (v[i + 2] as int - 0x80);
    GeneralIsWritten(c);
    var bytes := [0xE2, 0x80, v[i + 2] as int];
    assert v[i] as int == [0xE2, 0x80][0] && v[i + 1] as int == [0xE2, 0x80][1];
    HasSlice(v, i, bytes, Utf8(c));
  }

  /** v[i..] starts with the character, and so with white space. */
  lemma CharacterIsSpace(v: string, i: int, c: int)
    requires WhiteSpace(c) && 0 <= i && i + |Utf8(c)| <= |v| && v[i..i + |Utf8(c)|] == Utf8(c)
    ensures SpaceAt(v, i, |Utf8(c)|) == |Utf8(c)| == SpaceAt(v, i, 3)
  {
    var u := Utf8(c);
    var s := v[i..i + |u|];
    assert forall k :: 0 <= k < |u| ==> s[k] == v[i + k];
    assert s[0] == v[i];
    if c >= 0x800 {
      FirstByte(v, i, [0xC2, 0x85]);
      FirstByte(v, i, [0xC2, 0xA0]);
    }
    if c >= 0x80 {
      if c < 0x800 {
        HasSlice(v, i, [0xC2, c - 0x80 + 0x80], u);
      } else if 0x2000 <= c < 0x2040 {
        GeneralIsWritten(c);
        assert s[1] == u[1] && s[2] == u[2];
        assert v[i + 1] == u[1] && v[i + 2] == u[2];
        assert HasAt(v, i, [0xE2, 0x80]);
      } else {
        LongCharacterIsSpace(v, i, c);
      }
    }
  }

  lemma LongCharacterIsSpace(v: string, i: int, c: int)
    requires (c == 0x1680 || c == 0x205F || c == 0x3000)
    requires 0 <= i && i + 3 <= |v| && v[i..i + 3] == Utf8(c) && v[i] == Utf8(c)[0]
    ensures SpaceAt(v, i, 3) == 3
  {
    FirstByte(v, i, [0xC2, 0x85]);
    FirstByte(v, i, [0xC2, 0xA0]);
    if c == 0x1680 {
      HasSlice(v, i, [0xE1, 0x9A, 0x80], Utf8(c));
    } else if c == 0x205F {
      HasSlice(v, i, [0xE2, 0x81, 0x9F], Utf8(c));
    } else {
      HasSlice(v, i, [0xE3, 0x80, 0x80], Utf8(c));
    }
  }

  // ----- what trimming takes

  lemma {:induction false} LeftIsSpace(v: string) returns (cs: seq<int>)
    ensures AllWhite(cs) && v == Written(cs) + TrimLeft(v)
    decreases |v|
  {
    cs := [];
    var n := SpaceAtStart(v);
    if n > 0 {
      var c := SpaceIsCharacter(v, 0, 3);
      var rest := LeftIsSpace(v[n..]);
      WrittenJoins([c], rest);
      OneWritten(c);
      Regroup(v, n, Utf8(c), Written(rest), TrimLeft(v[n..]));
      cs := [c] + rest;
    }
  }

  lemma OneWritten(c: int)
    requires WhiteSpace(c)
    ensures Written([c]) == Utf8(c)
  {
    assert [c][1..] == [];
    assert Utf8(c) + "" == Utf8(c);
  }

  lemma Regroup(v: string, n: nat, a: string, b: string, t: string)
    requires n <= |v| && v[..n] == a && v[n..] == b + t
    ensures v == a + b + t
  {
    assert v == v[..n] + v[n..];
  }

  lemma {:induction false} RightIsSpace(v: string) returns (cs: seq<int>)
    ensures AllWhite(cs) && v == TrimRight(v) + Written(cs)
    decreases |v|
  {
    cs := [];
    var n := SpaceAtEnd(v);
    if n > 0 {
      var m := |v| - n;
      var c := LastCharacter(v, m);
      var front := v[..m];
      var rest := RightIsSpace(front);
      WrittenJoins(rest, [c]);
      OneWritten(c);
      RegroupEnd(v, m, TrimRight(front), Written(rest), Utf8(c));
      cs := rest + [c];
    }
  }

  lemma LastCharacter(v: string, m: nat) returns (c: int)
    requires SpaceAtEnd(v) > 0 && m == |v| - SpaceAtEnd(v)
    ensures WhiteSpace(c) && v[m..] == Utf8(c)
  {
    c := SpaceIsCharacter(v, m, |v| - m);
    assert v[m..] == v[m..m + |Utf8(c)|];
  }

  lemma RegroupEnd(v: string, m: nat, t: string, a: string, b: string)
    requires m <= |v| && v[..m] == t + a && v[m..] == b
    ensures v == t + (a + b)
  {
    assert v == v[..m] + v[m..];
  }

  predicate StartsWith(t: string, u: string) { |u| <= |t| && t[..|u|] == u }

  predicate EndsWith(t: string, u: string) { |u| <= |t| && t[|t| - |u|..] == u }

  lemma NoneAtStart(t: string, c: int)
    requires WhiteSpace(c) && StartsWith(t, Utf8(c))
    ensures SpaceAtStart(t) > 0
  {
    CharacterIsSpace(t, 0, c);
  }

  lemma NoneAtEnd(t: string, c: int)
    requires WhiteSpace(c) && EndsWith(t, Utf8(c))
    ensures SpaceAtEnd(t) > 0
  {
    var n := |Utf8(c)|;
    assert t[|t| - n..|t| - n + n] == t[|t| - n..];
    CharacterIsSpace(t, |t| - n, c);
    EndIsSpace(t, n);
  }

  lemma EndIsSpace(t: string, n: nat)
    requires 1 <= n <= 3 && SpaceAt(t, |t| - n, n) == n
    ensures SpaceAtEnd(t) > 0
  {
  }

  /** Trimming takes white-space characters, and nothing else, from both ends, and all of
      them. */
  lemma TrimTakesJustSpace(v: string) returns (l: seq<int>, r: seq<int>)
    ensures AllWhite(l) && AllWhite(r) && v == Written(l) + TrimSpace(v) + Written(r)
    ensures forall c :: WhiteSpace(c) ==> !StartsWith(TrimSpace(v), Utf8(c)) && !EndsWith(TrimSpace(v), Utf8(c))
  {
    l := LeftIsSpace(v);
    var u := TrimLeft(v);
    r := RightIsSpace(u);
    var t := TrimRight(u);
    Associate(Written(l), t, Written(r));
    forall c | WhiteSpace(c) ensures !StartsWith(t, Utf8(c)) && !EndsWith(t, Utf8(c)) {
      if StartsWith(t, Utf8(c)) { NoneAtStart(t, c); }
      if EndsWith(t, Utf8(c)) { NoneAtEnd(t, c); }
    }
  }

  lemma Associate(a: string, b: string, c: string)
    ensures a + (b + c) == a + b + c
  {
  }
}
