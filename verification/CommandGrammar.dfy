/** What a command line means, as a grammar: the parser accepts exactly the lines it
    spells, and reads each as the arguments it says. */
module CommandGrammar {
  import opened Bytes
  import opened CommandLine

  /** One element between double quotes: a character, or a backslash and what follows it. */
  datatype Inner = Char(c: char) | Backslash(c: char)

  /** One element of a line. */
  datatype Item =
    | Blank(c: char)
    | Literal(c: char)
    | Escaped(c: char)
    | InSingle(text: string)
    | InDouble(inners: seq<Inner>)

  predicate WellFormed(i: Item) {
    match i
    case Blank(c) => IsSpace(c)
    case Literal(c) => !IsSpace(c) && c != '\'' && c != '"' && c != '\\'
    case Escaped(_) => true
    case InSingle(text) => '\'' !in text
    case InDouble(inners) =>
      forall k :: 0 <= k < |inners| && inners[k].Char? ==> inners[k].c != '"' && inners[k].c != '\\'
  }

  predicate AllWellFormed(items: seq<Item>) {
    forall k :: 0 <= k < |items| ==> WellFormed(items[k])
  }

  // ----- how it is written

  function SpellInner(i: Inner): string {
    match i case Char(c) => [c] case Backslash(c) => ['\\', c]
  }

  function SpellInners(inners: seq<Inner>): string {
    if inners == [] then "" else SpellInner(inners[0]) + SpellInners(inners[1..])
  }

  function SpellItem(i: Item): string {
    match i
    case Blank(c) => [c]
    case Literal(c) => [c]
    case Escaped(c) => ['\\', c]
    case InSingle(text) => ['\''] + text + ['\'']
    case InDouble(inners) => ['"'] + SpellInners(inners) + ['"']
  }

  function Spell(items: seq<Item>): string {
    if items == [] then "" else SpellItem(items[0]) + Spell(items[1..])
  }

  // ----- what it means

  /** Between double quotes a backslash escapes a quote or a backslash, and stands for
      itself before anything else. */
  function InnerText(i: Inner): string {
    match i
    case Char(c) => [c]
    case Backslash(c) => if c == '"' || c == '\\' then [c] else ['\\', c]
  }

  function InnersText(inners: seq<Inner>): string {
    if inners == [] then "" else InnerText(inners[0]) + InnersText(inners[1..])
  }

  function Text(i: Item): string {
    match i
    case Blank(_) => ""
    case Literal(c) => [c]
    case Escaped(c) => [c]
    case InSingle(text) => text
    case InDouble(inners) => InnersText(inners)
  }

  /** The arguments of items after those in out and, if open, the one begun with cur: blanks
      end an argument, and an empty pair of quotes is one. */
  function Arguments(items: seq<Item>, out: seq<string>, cur: string, open: bool): seq<string> {
    if items == [] then if open then out + [cur] else out
    else if items[0].Blank? then Arguments(items[1..], if open then out + [cur] else out, "", false)
    else Arguments(items[1..], out, cur + Text(items[0]), true)
  }

  // ----- the parser reads what is spelled

  lemma ScanTwo(st: State, a: char, b: char)
    ensures Scan(st, [a, b]) == Step(Step(st, a), b)
  {
    assert [a, b][1..] == [b];
    assert Scan(st, [a, b]) == Scan(Step(st, a), [b]);
    ScanOne(Step(st, a), b);
  }

  lemma {:induction false} ScanLiterally(st: State, s: string)
    requires st.mode == Single && !st.esc && '\'' !in s
    ensures Scan(st, s) == st.(cur := st.cur + s)
    decreases |s|
  {
    if s == "" {
      assert st.cur + s == st.cur;
    } else {
      assert s == [s[0]] + s[1..];
      ScanLiterally(st.(cur := st.cur + [s[0]]), s[1..]);
      assert st.cur + [s[0]] + s[1..] == st.cur + s;
    }
  }

  lemma ScanInner(st: State, i: Inner)
    requires st.mode == Double && !st.esc && (i.Char? ==> i.c != '"' && i.c != '\\')
    ensures Scan(st, SpellInner(i)) == st.(cur := st.cur + InnerText(i))
  {
    match i
    case Char(c) =>
      ScanOne(st, c);
    case Backslash(c) =>
      ScanTwo(st, '\\', c);
      assert st.cur + ['\\'] + [c] == st.cur + ['\\', c];
  }

  lemma {:induction false} ScanInners(st: State, inners: seq<Inner>)
    requires st.mode == Double && !st.esc && WellFormed(InDouble(inners))
    ensures Scan(st, SpellInners(inners)) == st.(cur := st.cur + InnersText(inners))
    decreases |inners|
  {
    if inners == [] {
      assert st.cur + "" == st.cur;
    } else {
      var first, rest := inners[0], inners[1..];
      ScanConcat(st, SpellInner(first), SpellInners(rest));
      ScanInner(st, first);
      ScanInners(st.(cur := st.cur + InnerText(first)), rest);
      Associate(st.cur, InnerText(first), InnersText(rest));
    }
  }

  lemma Associate(a: string, b: string, c: string)
    ensures a + b + c == a + (b + c)
  {
  }

  /** Between two quotes of a kind. */
  lemma ScanBetween(st: State, quote: char, body: string, text: string, mode: Mode)
    requires st.mode == Bare && !st.esc
    requires (quote == '\'' && mode == Single) || (quote == '"' && mode == Double)
    requires var inside := st.(mode := mode, open := true); Scan(inside, body) == inside.(cur := st.cur + text)
    ensures Scan(st, [quote] + body + [quote]) == st.(cur := st.cur + text, open := true)
  {
    var inside := st.(mode := mode, open := true);
    ScanConcat(st, [quote] + body, [quote]);
    ScanConcat(st, [quote], body);
    ScanOne(st, quote);
    ScanOne(inside.(cur := st.cur + text), quote);
  }

  lemma ScanItem(st: State, i: Item)
    requires st.mode == Bare && !st.esc && WellFormed(i) && !i.Blank?
    ensures Scan(st, SpellItem(i)) == st.(cur := st.cur + Text(i), open := true)
  {
    match i
    case Literal(c) => ScanOne(st, c);
    case Escaped(c) => ScanTwo(st, '\\', c);
    case InSingle(text) =>
      ScanLiterally(st.(mode := Single, open := true), text);
      ScanBetween(st, '\'', text, text, Single);
    case InDouble(inners) =>
      ScanInners(st.(mode := Double, open := true), inners);
      ScanBetween(st, '"', SpellInners(inners), InnersText(inners), Double);
  }

  lemma {:induction false} ScanSpelled(out: seq<string>, cur: string, open: bool, items: seq<Item>)
    requires AllWellFormed(items) && (open || cur == "")
    ensures Finish(Scan(State(out, cur, Bare, open, false), Spell(items))) == Argv(Arguments(items, out, cur, open))
    decreases |items|
  {
    if items != [] {
      var st, first, rest := State(out, cur, Bare, open, false), items[0], items[1..];
      ScanConcat(st, SpellItem(first), Spell(rest));
      if first.Blank? {
        ScanOne(st, first.c);
        ScanSpelled(if open then out + [cur] else out, "", false, rest);
      } else {
        ScanItem(st, first);
        ScanSpelled(out, cur + Text(first), true, rest);
      }
    }
  }

  // ----- and accepts nothing else

  /** What the parser has read of a quotation it is still in, and what it goes on to. */
  lemma {:induction false} CloseSingle(st: State, line: string) returns (text: string, rest: string)
    requires st.mode == Single && !st.esc && Finish(Scan(st, line)).Argv?
    ensures line == text + ['\''] + rest && '\'' !in text
    decreases |line|
  {
    assert line == [line[0]] + line[1..];
    if line[0] == '\'' {
      text, rest := "", line[1..];
    } else {
      text, rest := CloseSingle(Step(st, line[0]), line[1..]);
      text := [line[0]] + text;
    }
  }

  lemma {:induction false} CloseDouble(st: State, line: string) returns (inners: seq<Inner>, rest: string)
    requires st.mode == Double && !st.esc && Finish(Scan(st, line)).Argv?
    ensures line == SpellInners(inners) + ['"'] + rest && WellFormed(InDouble(inners))
    decreases |line|
  {
    assert line == [line[0]] + line[1..];
    if line[0] == '"' {
      inners, rest := [], line[1..];
    } else {
      var first: Inner, after: string;
      first, after := FirstInner(st, line);
      inners, rest := CloseDouble(Scan(st, SpellInner(first)), after);
      SpellOneMore(first, inners);
      inners := [first] + inners;
    }
  }

  lemma SpellOneMore(first: Inner, inners: seq<Inner>)
    ensures SpellInners([first] + inners) == SpellInner(first) + SpellInners(inners)
  {
    assert ([first] + inners)[1..] == inners;
  }

  lemma FirstInner(st: State, line: string) returns (first: Inner, after: string)
    requires st.mode == Double && !st.esc && Finish(Scan(st, line)).Argv? && line != "" && line[0] != '"'
    ensures line == SpellInner(first) + after && (first.Char? ==> first.c != '"' && first.c != '\\')
    ensures var next := Scan(st, SpellInner(first));
            next.mode == Double && !next.esc && Finish(Scan(next, after)).Argv?
  {
    if line[0] == '\\' {
      assert line[1..] != "";
      first, after := Backslash(line[1]), line[2..];
      assert line == ['\\', line[1]] + line[2..];
    } else {
      first, after := Char(line[0]), line[1..];
      assert line == [line[0]] + line[1..];
    }
    ScanInner(st, first);
    ScanConcat(st, SpellInner(first), after);
  }

  /** The first item of a line the parser accepts. */
  lemma FirstItem(st: State, line: string) returns (first: Item, after: string)
    requires st.mode == Bare && !st.esc && Finish(Scan(st, line)).Argv? && line != ""
    ensures line == SpellItem(first) + after && WellFormed(first)
  {
    var c := line[0];
    assert line == [c] + line[1..];
    if c == '\'' {
      var text: string;
      text, after := CloseSingle(Step(st, c), line[1..]);
      first := InSingle(text);
      assert line == [c] + (text + [c] + after);
    } else if c == '"' {
      var inners: seq<Inner>;
      inners, after := CloseDouble(Step(st, c), line[1..]);
      first := InDouble(inners);
      assert line == [c] + (SpellInners(inners) + [c] + after);
    } else if c == '\\' {
      assert line[1..] != "";
      first, after := Escaped(line[1]), line[2..];
      assert line == ['\\', line[1]] + line[2..];
    } else {
      first, after := if IsSpace(c) then Blank(c) else Literal(c), line[1..];
    }
  }

  lemma AfterItem(st: State, first: Item)
    requires st.mode == Bare && !st.esc && WellFormed(first)
    ensures var next := Scan(st, SpellItem(first)); next.mode == Bare && !next.esc
  {
    if first.Blank? {
      ScanOne(st, first.c);
    } else {
      ScanItem(st, first);
    }
  }

  lemma {:induction false} AcceptedIsSpelled(st: State, line: string) returns (items: seq<Item>)
    requires st.mode == Bare && !st.esc && Finish(Scan(st, line)).Argv?
    ensures AllWellFormed(items) && Spell(items) == line
    decreases |line|
  {
    if line == "" {
      items := [];
    } else {
      var first: Item, after: string;
      first, after := FirstItem(st, line);
      AfterItem(st, first);
      ScanConcat(st, SpellItem(first), after);
      items := AcceptedIsSpelled(Scan(st, SpellItem(first)), after);
      items := [first] + items;
      assert items[1..] == items[1..] && Spell(items) == SpellItem(first) + Spell(items[1..]);
    }
  }

  /** A line without a NUL is accepted if and only if it is spelled by some items; the rest
      end inside a quotation or after a backslash, and are refused for that. */
  lemma AcceptsExactlyTheSpelled(line: string)
    requires NUL !in line
    ensures Parse(line).Argv? <==> exists items :: AllWellFormed(items) && Spell(items) == line
    ensures !Parse(line).Argv? ==> Parse(line) == Failed(UnterminatedQuote)
  {
    if Parse(line).Argv? {
      var items := AcceptedIsSpelled(START, line);
    }
    if items :| AllWellFormed(items) && Spell(items) == line {
      ScanSpelled([], "", false, items);
    }
  }

  /** And however it is spelled, its arguments are those the items mean. */
  lemma ReadsAsSpelled(items: seq<Item>)
    requires AllWellFormed(items)
    ensures Parse(Spell(items)) ==
            if NUL in Spell(items) then Failed(NullByte) else Argv(Arguments(items, [], "", false))
  {
    ScanSpelled([], "", false, items);
  }
}
