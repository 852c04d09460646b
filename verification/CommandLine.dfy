/** The quote parser that splits a command string into arguments, and the printer that
    writes an argument so that it reads back unchanged. */
module CommandLine {
  import opened Bytes

  datatype Error = NullByte | UnterminatedQuote

  datatype Result = Argv(args: seq<string>) | Failed(error: Error)

  datatype Mode = Bare | Single | Double

  /** Where the parser is: the arguments so far, the one being read, whether there is
      one at all, and whether the last character was a backslash that escapes. */
  datatype State = State(out: seq<string>, cur: string, mode: Mode, open: bool, esc: bool)

  const NUL := 0 as char

  function Step(st: State, ch: char): State {
    if st.esc then
      var kept := if st.mode == Double && ch != '"' && ch != '\\' then st.cur + ['\\'] else st.cur;
      st.(cur := kept + [ch], esc := false)
    else
      match st.mode
      case Single => if ch == '\'' then st.(mode := Bare) else st.(cur := st.cur + [ch])
      case Double =>
        if ch == '"' then st.(mode := Bare)
        else if ch == '\\' then st.(esc := true)
        else st.(cur := st.cur + [ch])
      case Bare =>
        if ch == '\'' then st.(mode := Single, open := true)
        else if ch == '"' then st.(mode := Double, open := true)
        else if ch == '\\' then st.(esc := true, open := true)
        else if IsSpace(ch) then
          if st.open then st.(out := st.out + [st.cur], cur := "", open := false) else st
        else st.(cur := st.cur + [ch], open := true)
  }

  function Scan(st: State, line: string): State
    decreases |line|
  {
    if line == "" then st else Scan(Step(st, line[0]), line[1..])
  }

  const START := State([], "", Bare, false, false)

  function Finish(st: State): Result {
    if st.esc || st.mode != Bare then Failed(UnterminatedQuote)
    else if st.open then Argv(st.out + [st.cur])
    else Argv(st.out)
  }

  function Parse(line: string): Result {
    if NUL in line then Failed(NullByte) else Finish(Scan(START, line))
  }

  /** The parser's loop. */
  method Tokenize(line: string) returns (r: Result)
    ensures r == Parse(line)
  {
    if NUL in line {
      return Failed(NullByte);
    }
    var out: seq<string>, cur, mode, open, esc := [], "", Bare, false, false;
    for i := 0 to |line|
      invariant Scan(START, line) == Scan(State(out, cur, mode, open, esc), line[i..])
    {
      var ch := line[i];
      assert line[i..][0] == ch && line[i..][1..] == line[i + 1..];
      if esc {
        if mode == Double && ch != '"' && ch != '\\' {
          cur := cur + ['\\'];
        }
        cur := cur + [ch];
        esc := false;
        continue;
      }
      match mode {
        case Single =>
          if ch == '\'' {
            mode := Bare;
            continue;
          }
          cur := cur + [ch];
        case Double =>
          if ch == '"' {
            mode := Bare;
          } else if ch == '\\' {
            esc := true;
          } else {
            cur := cur + [ch];
          }
        case Bare =>
          if ch == '\'' {
            mode, open := Single, true;
          } else if ch == '"' {
            mode, open := Double, true;
          } else if ch == '\\' {
            esc, open := true, true;
          } else if IsSpace(ch) {
            if open {
              out := out + [cur];
              cur, open := "", false;
            }
          } else {
            cur := cur + [ch];
            open := true;
          }
      }
    }
    if esc {
      return Failed(UnterminatedQuote);
    }
    if mode != Bare {
      return Failed(UnterminatedQuote);
    }
    if open {
      out := out + [cur];
    }
    return Argv(out);
  }

  // ----- the printer

  predicate Plain(c: char) {
    'a' <= c <= 'z' || 'A' <= c <= 'Z' || '0' <= c <= '9'
    || c == '_' || c == '.' || c == '/' || c == ':' || c == '@' || c == '%' || c == '+' || c == '=' || c == ','
    || c == '-'
  }

  /** s with each single quote written as a closing quote, an escaped one and an
      opening one. */
  function EscapeQuotes(s: string): string {
    if s == "" then ""
    else (if s[0] == '\'' then ['\'', '\\', '\'', '\''] else [s[0]]) + EscapeQuotes(s[1..])
  }

  function ShellQuote(s: string): string {
    if s != "" && forall i :: 0 <= i < |s| ==> Plain(s[i]) then s
    else ['\''] + EscapeQuotes(s) + ['\'']
  }

  function Join(args: seq<string>): string {
    if args == [] then ""
    else if |args| == 1 then ShellQuote(args[0])
    else ShellQuote(args[0]) + [' '] + Join(args[1..])
  }

  // ----- reading back

  lemma {:induction false} ScanConcat(st: State, a: string, b: string)
    ensures Scan(st, a + b) == Scan(Scan(st, a), b)
    decreases |a|
  {
    if a == "" {
      assert a + b == b;
    } else {
      assert (a + b)[0] == a[0] && (a + b)[1..] == a[1..] + b;
      ScanConcat(Step(st, a[0]), a[1..], b);
    }
  }

  lemma {:induction false} ScanPlain(st: State, s: string)
    requires st.mode == Bare && !st.esc && forall i :: 0 <= i < |s| ==> Plain(s[i])
    ensures Scan(st, s) == if s == "" then st else st.(cur := st.cur + s, open := true)
    decreases |s|
  {
    if s != "" {
      var next := Step(st, s[0]);
      ScanPlain(next, s[1..]);
      assert st.cur + [s[0]] + s[1..] == st.cur + s;
    }
  }

  lemma ScanEscapedQuote(st: State)
    requires st.mode == Single && !st.esc && st.open
    ensures Scan(st, ['\'', '\\', '\'', '\'']) == st.(cur := st.cur + ['\''])
  {
    var q := ['\'', '\\', '\'', '\''];
    var a := Step(st, '\'');
    var b := Step(a, '\\');
    var c := Step(b, '\'');
    var d := Step(c, '\'');
    assert q[1..] == ['\\', '\'', '\''] && q[1..][1..] == ['\'', '\''] && q[1..][1..][1..] == ['\''];
    assert Scan(c, ['\'']) == Scan(d, "") by { assert ['\''][1..] == ""; }
    assert Scan(b, ['\'', '\'']) == Scan(c, ['\'']);
    assert Scan(a, ['\\', '\'', '\'']) == Scan(b, ['\'', '\'']);
  }

  lemma {:induction false} ScanQuoted(st: State, s: string)
    requires st.mode == Single && !st.esc && st.open
    ensures Scan(st, EscapeQuotes(s)) == st.(cur := st.cur + s)
    decreases |s|
  {
    if s == "" {
      assert st.cur + s == st.cur;
    } else {
      var first := if s[0] == '\'' then ['\'', '\\', '\'', '\''] else [s[0]];
      ScanConcat(st, first, EscapeQuotes(s[1..]));
      if s[0] == '\'' {
        ScanEscapedQuote(st);
      } else {
        assert [s[0]][1..] == "" && Scan(st, [s[0]]) == Step(st, s[0]);
      }
      ScanQuoted(st.(cur := st.cur + [s[0]]), s[1..]);
      assert st.cur + [s[0]] + s[1..] == st.cur + s;
    }
  }

  /** A word is written as it is if and only if it has a character, and all of them are
      letters, digits or one of ten that mean nothing to a shell; otherwise it is quoted. */
  lemma QuotesUnlessPlain(s: string)
    ensures ShellQuote(s) == s <==>
            s != "" && forall i :: 0 <= i < |s| ==>
              'a' <= s[i] <= 'z' || 'A' <= s[i] <= 'Z' || '0' <= s[i] <= '9' || s[i] in "_./:@%+=,-"
    ensures ShellQuote(s) != s ==> |ShellQuote(s)| >= |s| + 2 && ShellQuote(s)[0] == '\''
  {
    LongerEscaped(s);
    if s != "" && forall i :: 0 <= i < |s| ==> Plain(s[i]) {
      forall i | 0 <= i < |s| ensures Plain(s[i]) {
      }
    }
  }

  lemma {:induction false} LongerEscaped(s: string)
    ensures |EscapeQuotes(s)| >= |s|
    decreases |s|
  {
    if s != "" {
      LongerEscaped(s[1..]);
    }
  }

  /** Between arguments, a quoted string is read as one open argument holding it. */
  lemma ScanQuote(out: seq<string>, s: string)
    ensures Scan(State(out, "", Bare, false, false), ShellQuote(s)) == State(out, s, Bare, true, false)
  {
    assert "" + s == s;
    if s != "" && forall i :: 0 <= i < |s| ==> Plain(s[i]) {
      ScanPlain(State(out, "", Bare, false, false), s);
    } else {
      ScanSingleQuoted(out, s);
    }
  }

  lemma ScanOne(st: State, c: char)
    ensures Scan(st, [c]) == Step(st, c)
  {
    assert [c][1..] == "";
  }

  lemma ScanSingleQuoted(out: seq<string>, s: string)
    ensures Scan(State(out, "", Bare, false, false), ['\''] + EscapeQuotes(s) + ['\'']) ==
            State(out, s, Bare, true, false)
  {
    var st, body, inside := State(out, "", Bare, false, false), EscapeQuotes(s), State(out, "", Single, true, false);
    assert "" + s == s;
    ScanConcat(st, ['\''] + body, ['\'']);
    ScanConcat(st, ['\''], body);
    ScanOne(st, '\'');
    ScanQuoted(inside, s);
    ScanOne(inside.(cur := s), '\'');
  }

  /** A quoted argument and the space after it are read, and then the rest. */
  lemma ScanFirst(out: seq<string>, arg: string, rest: string)
    ensures Scan(State(out, "", Bare, false, false), ShellQuote(arg) + [' '] + rest)
         == Scan(State(out + [arg], "", Bare, false, false), rest)
  {
    var st, first, read := State(out, "", Bare, false, false), ShellQuote(arg), State(out, arg, Bare, true, false);
    ScanConcat(st, first + [' '], rest);
    ScanConcat(st, first, [' ']);
    ScanQuote(out, arg);
    assert [' '][1..] == "" && Scan(read, [' ']) == Step(read, ' ');
  }

  lemma {:induction false} ScanJoin(out: seq<string>, args: seq<string>)
    ensures Finish(Scan(State(out, "", Bare, false, false), Join(args))) == Argv(out + args)
    decreases |args|
  {
    if args == [] {
      assert out + args == out;
    } else if |args| == 1 {
      ScanQuote(out, args[0]);
      assert args == [args[0]];
    } else {
      ScanFirst(out, args[0], Join(args[1..]));
      ScanJoin(out + [args[0]], args[1..]);
      assert out + [args[0]] + args[1..] == out + args;
    }
  }

  lemma {:induction false} NulInEscaped(s: string)
    ensures NUL in EscapeQuotes(s) <==> NUL in s
    decreases |s|
  {
    if s != "" {
      NulInEscaped(s[1..]);
      assert s == [s[0]] + s[1..];
    }
  }

  lemma {:induction false} NulInJoin(args: seq<string>)
    ensures NUL in Join(args) <==> exists i :: 0 <= i < |args| && NUL in args[i]
    decreases |args|
  {
    if args != [] {
      NulInEscaped(args[0]);
      NulInJoin(args[1..]);
      if NUL in args[0] {
        assert exists i :: 0 <= i < |args| && NUL in args[i];
      }
      assert forall i :: 0 <= i < |args[1..]| ==> args[1..][i] == args[i + 1];
      assert forall i :: 0 < i < |args| ==> args[i] == args[1..][i - 1];
    }
  }

  /** Quoting each argument and joining them with spaces is read back as those very
      arguments, whatever they hold; a NUL anywhere is refused instead. */
  lemma QuotedArgumentsReadBack(args: seq<string>)
    ensures Parse(Join(args)) ==
            if exists i :: 0 <= i < |args| && NUL in args[i] then Failed(NullByte) else Argv(args)
  {
    NulInJoin(args);
    ScanJoin([], args);
    assert [] + args == args;
  }

  /** So two argument lists without a NUL are never written the same way. */
  lemma QuotingIsInjective(a: seq<string>, b: seq<string>)
    requires forall i :: 0 <= i < |a| ==> NUL !in a[i]
    requires forall i :: 0 <= i < |b| ==> NUL !in b[i]
    requires Join(a) == Join(b)
    ensures a == b
  {
    QuotedArgumentsReadBack(a);
    QuotedArgumentsReadBack(b);
  }
}
