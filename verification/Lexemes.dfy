/** Text in its own terms: comments, lines, digits, long names, and how a list is printed. */
module Lexemes {
  import opened Values
  import opened Parser
  import opened Writer
  import opened RoundTripProof

  // ---------- comments and lines ----------

  lemma {:induction false} CommentEnds(text: string, rest: string)
    requires '\n' !in text
    ensures SkipComment(text + "\n" + rest) == "\n" + rest
    ensures SkipComment(text) == ""
    decreases |text|
  {
    var whole := text + "\n" + rest;
    if text == "" {
      assert whole == "\n" + rest;
    } else {
      assert whole[1..] == text[1..] + "\n" + rest;
      CommentEnds(text[1..], rest);
    }
  }

  /** A comment, its newline included, is as if it were not there, but for the line count. */
  lemma CommentSkipped(r: Reader, text: string, rest: string)
    requires '\n' !in text && r.input == ";" + text + "\n" + rest
    ensures ReadToken(r) == ReadToken(r.(input := rest, line := r.line + 1, column := 0))
  {
    CommentEnds(";" + text, rest);
    var after := r.(input := "\n" + rest);
    assert r.input == (";" + text) + "\n" + rest;
    assert ReadToken(r) == ReadToken(after);
    assert after.input[1..] == rest;
  }

  /** A comment that ends with the text leaves nothing. */
  lemma CommentAtEnd(r: Reader, text: string)
    requires '\n' !in text && r.input == ";" + text
    ensures ReadToken(r).0 == Parse(EndOfFile)
  {
    CommentEnds(";" + text, "");
  }

  /** Blanks, and characters that start no token, are skipped. */
  lemma Skipped(r: Reader)
    requires r.input != "" && r.input[0] != '\n' && r.input[0] != ';' && r.input[0] !in {'(', ')', '\'', '#'}
    requires !IsDigit(r.input[0]) && !IsSymbolStart(r.input[0])
    ensures ReadToken(r).0 == ReadToken(Start(r.input[1..])).0
    ensures ReadToken(r).1.input == ReadToken(Start(r.input[1..])).1.input
  {
    hide ReadToken;
    var next := r.(input := r.input[1..]);
    OneSkipped(r);
    TokenAnywhere(next);
    TokenAnywhere(next.(column := r.column + 1));
  }

  lemma OneSkipped(r: Reader)
    requires r.input != "" && r.input[0] != '\n' && r.input[0] != ';' && r.input[0] !in {'(', ')', '\'', '#'}
    requires !IsDigit(r.input[0]) && !IsSymbolStart(r.input[0])
    ensures var next := r.(input := r.input[1..]);
      ReadToken(r) == ReadToken(if IsWhitespace(r.input[0]) then next.(column := r.column + 1) else next)
  {
    hide ReadNumber, ReadName, ReadHash, SkipComment;
  }

  /** Spaces and tabs are skipped and counted. */
  lemma BlankSkipped(r: Reader, rest: string)
    requires r.input == " " + rest || r.input == "\t" + rest || r.input == [11 as char] + rest
    ensures ReadToken(r) == ReadToken(r.(input := rest, column := r.column + 1))
  {
    assert r.input[1..] == rest;
  }

  /** A backslash behind a hash takes the end of the text for a character of 24 set bits. */
  lemma HashAtEnd(r: Reader)
    requires r.input == "#\\"
    ensures ReadToken(r) == (Char(0x100_0000 - 1), r.(input := ""))
  {
  }

  /** After a hash, a character that means nothing there is lost, and the hash is read again. */
  lemma HashStays(r: Reader, c: char, rest: string)
    requires c !in {'t', 'f', '\\'} && r.input == "#" + [c] + rest
    ensures ReadToken(r) == (Parse(Octothorpe), r.(input := "#" + rest))
  {
    hide ReadToken;
    HashToken(r);
    assert r.input[2..] == rest;
  }

  function Lines(s: string): nat {
    if s == "" then 0 else (if s[0] == '\n' then 1 else 0) + Lines(s[1..])
  }

  lemma {:induction false} LinesJoined(a: string, b: string)
    ensures Lines(a + b) == Lines(a) + Lines(b)
  {
    if a == "" {
      assert a + b == b;
    } else {
      assert (a + b)[1..] == a[1..] + b;
      LinesJoined(a[1..], b);
    }
  }

  lemma {:induction false} CommentLines(s: string)
    ensures Lines(SkipComment(s)) == Lines(s)
  {
    if s != "" && s[0] != '\n' { CommentLines(s[1..]); }
  }

  lemma {:induction false} NumberLines(s: string, sum: nat)
    ensures Lines(ReadNumber(s, sum).1) == Lines(s)
    decreases |s|
  {
    if s != "" && IsDigit(s[0]) { NumberLines(s[1..], 10 * sum + (s[0] as nat - '0' as nat)); }
  }

  lemma {:induction false} NameLines(s: string, room: nat)
    ensures Lines(ReadName(s, room).1) == Lines(s)
    decreases |s|
  {
    if s != "" && IsSymbolChar(s[0]) && room > 0 { NameLines(s[1..], room - 1); }
  }

  /** Reading any token but a hash's counts every newline it passes, comments' included: the line number plus the
      newlines ahead stays the same. */
  lemma {:induction false} LinesCounted(r: Reader)
    requires var t := ReadToken(r).0; !t.Char? && !t.Bool? && t != Parse(Octothorpe)
    ensures var p := ReadToken(r); p.1.line + Lines(p.1.input) == r.line + Lines(r.input)
    decreases |r.input|
  {
    if r.input != "" {
      var c, next := r.input[0], r.(input := r.input[1..]);
      if c == '\n' {
        LinesCounted(next.(line := r.line + 1, column := 0));
      } else if c == ';' {
        CommentLines(r.input);
        LinesCounted(r.(input := SkipComment(r.input)));
      } else if IsWhitespace(c) {
        LinesCounted(next.(column := r.column + 1));
      } else if IsDigit(c) {
        NumberLines(r.input, 0);
      } else if IsSymbolStart(c) {
        NameLines(r.input, NAME_LIMIT);
      } else if c !in {'(', ')', '\'', '#'} {
        LinesCounted(next);
      }
    }
  }

  // ---------- numbers and names ----------

  predicate Digits(s: string) { forall c | c in s :: IsDigit(c) }

  function DigitOf(c: char): nat
    requires IsDigit(c)
  {
    c as nat - '0' as nat
  }

  function Tens(k: nat): nat { if k == 0 then 1 else 10 * Tens(k - 1) }

  /** Positional notation. */
  function PlaceValue(s: string): nat
    requires Digits(s)
  {
    if s == "" then 0 else DigitOf(s[0]) * Tens(|s| - 1) + PlaceValue(s[1..])
  }

  lemma Shift(sum: nat, d: nat, t: nat)
    ensures (10 * sum + d) * t == sum * (10 * t) + d * t
  {
  }

  /** Reading digits adds their place value. */
  lemma {:induction false} DigitsRead(s: string, rest: string, sum: nat)
    requires Digits(s) && (rest == "" || !IsDigit(rest[0]))
    ensures ReadNumber(s + rest, sum) == (sum * Tens(|s|) + PlaceValue(s), rest)
    decreases |s|
  {
    if s == "" {
      assert s + rest == rest;
    } else {
      var d := DigitOf(s[0]);
      assert (s + rest)[1..] == s[1..] + rest;
      DigitsRead(s[1..], rest, 10 * sum + d);
      Shift(sum, d, Tens(|s| - 1));
    }
  }

  lemma {:induction false} PlaceOfLast(s: string, c: char)
    requires Digits(s) && IsDigit(c)
    ensures Digits(s + [c]) && PlaceValue(s + [c]) == 10 * PlaceValue(s) + DigitOf(c)
  {
    if s != "" {
      assert (s + [c])[1..] == s[1..] + [c];
      PlaceOfLast(s[1..], c);
      var d := DigitOf(s[0]);
      assert d * Tens(|s|) == 10 * (d * Tens(|s| - 1));
    }
  }

  /** The printer writes a number in the positional notation of ten. */
  lemma {:induction false} DecimalIs(n: nat)
    ensures Digits(Decimal(n)) && PlaceValue(Decimal(n)) == n
  {
    var digit := ('0' as nat + n % 10) as char;
    if n < 10 {
      assert [digit][1..] == "";
    } else {
      DecimalIs(n / 10);
      PlaceOfLast(Decimal(n / 10), digit);
    }
  }

  /** Digits, as many as there are, are one token: their value modulo 2^62. */
  lemma NumberToken(r: Reader, s: string, rest: string)
    requires s != "" && Digits(s) && r.input == s + rest && (rest == "" || !IsDigit(rest[0]))
    ensures ReadToken(r) == (Int(PlaceValue(s) % FIXNUM_LIMIT), r.(input := rest))
  {
    DigitsRead(s, rest, 0);
    assert s[0] in s && r.input[0] == s[0];
  }

  lemma {:induction false} NameCut(s: string, rest: string, room: nat)
    requires |s| == room && forall c | c in s :: IsSymbolChar(c)
    ensures ReadName(s + rest, room) == (s, rest)
    decreases room
  {
    if s == "" {
      assert s + rest == rest;
    } else {
      assert (s + rest)[1..] == s[1..] + rest;
      NameCut(s[1..], rest, room - 1);
      assert [s[0]] + s[1..] == s;
    }
  }

  /** A longer name is cut: its first 31 characters are a symbol, and the next token starts behind them. */
  lemma LongName(r: Reader, s: string, rest: string)
    requires |s| == 31 && IsSymbolStart(s[0]) && (forall c | c in s :: IsSymbolChar(c)) && r.input == s + rest
    ensures ReadToken(r) == (Sym(s), r.(input := rest))
  {
    hide ReadNumber, ReadName, ReadHash, SkipComment;
    NameCut(s, rest, NAME_LIMIT);
  }

  /** The names of the special forms and built-ins can all be read. */
  lemma InitialNames(name: string)
    requires name in {
      "lambda", "define", "define-syntax", "set!", "if", "begin", "quote", "syntax-rules",
      "+", "-", "*", "/", "eq?", "<", ">", "null?", "pair?", "display", "newline", "read", "cons", "car", "cdr"}
    ensures IsLegalName(name)
  {
  }

  lemma Booleans(r: Reader, rest: string)
    ensures r.input == "#t" + rest ==> ReadToken(r) == (Bool(true), r.(input := rest))
    ensures r.input == "#f" + rest ==> ReadToken(r) == (Bool(false), r.(input := rest))
  {
    hide ReadToken;
    if r.input == "#t" + rest || r.input == "#f" + rest {
      HashToken(r);
      assert r.input[2..] == rest;
    }
  }

  // ---------- printed lists ----------

  /** The list of `vs`, ending in `tail`. */
  function ListOf(vs: seq<Value>, tail: Value): Value {
    if vs == [] then tail else Pair(vs[0], ListOf(vs[1..], tail))
  }

  /** Printed forms with one space between them. */
  function Spaced(vs: seq<Value>, shown: nat -> string): string
    requires vs != []
  {
    var last := |vs| - 1;
    if last == 0 then Written(vs[0], shown) else Spaced(vs[..last], shown) + " " + Written(vs[last], shown)
  }

  lemma {:induction false} SpacedFirst(vs: seq<Value>, shown: nat -> string)
    requires |vs| > 1
    ensures Spaced(vs, shown) == Written(vs[0], shown) + " " + Spaced(vs[1..], shown)
    decreases |vs|
  {
    hide Written;
    var last := |vs| - 1;
    assert vs[1..][last - 1] == vs[last];
    if last > 1 {
      SpacedFirst(vs[..last], shown);
      assert vs[..last][1..] == vs[1..][..last - 1];
    } else {
      assert vs[..1] == [vs[0]] && vs[1..] == [vs[1]];
    }
  }

  function TailText(tail: Value, shown: nat -> string): string
  {
    if tail.Null? then "" else " . " + Written(tail, shown)
  }

  lemma {:induction false} ItemsPrinted(vs: seq<Value>, tail: Value, shown: nat -> string)
    requires vs != [] && !tail.Pair?
    ensures ListOf(vs, tail).Pair?
    ensures WrittenItems(ListOf(vs, tail), shown) == Spaced(vs, shown) + TailText(tail, shown)
    decreases |vs|
  {
    hide Written, Spaced, TailText, WrittenItems;
    if |vs| == 1 {
      LastPrinted(vs, tail, shown);
    } else {
      ItemsPrinted(vs[1..], tail, shown);
      SpacedFirst(vs, shown);
      FirstPrinted(vs, tail, shown);
      Joined(Written(vs[0], shown), Spaced(vs[1..], shown), TailText(tail, shown));
    }
  }

  lemma LastPrinted(vs: seq<Value>, tail: Value, shown: nat -> string)
    requires |vs| == 1 && !tail.Pair?
    ensures WrittenItems(ListOf(vs, tail), shown) == Spaced(vs, shown) + TailText(tail, shown)
  {
    hide Written;
    assert ListOf(vs, tail) == Pair(vs[0], tail) by { assert vs[1..] == []; }
    assert WrittenRest(tail, shown) == TailText(tail, shown);
  }

  lemma FirstPrinted(vs: seq<Value>, tail: Value, shown: nat -> string)
    requires |vs| > 1
    ensures ListOf(vs[1..], tail).Pair?
    ensures WrittenItems(ListOf(vs, tail), shown) ==
      Written(vs[0], shown) + (" " + WrittenItems(ListOf(vs[1..], tail), shown))
  {
    hide Written;
  }

  lemma Joined(first: string, more: string, end: string)
    ensures first + (" " + (more + end)) == first + " " + more + end
  {
  }

  /** A list prints as its elements in order between parentheses, one space apart, and a tail other than the empty list
      behind a period. */
  lemma ListPrinted(vs: seq<Value>, tail: Value, shown: nat -> string)
    requires vs != [] && !tail.Pair?
    ensures Written(ListOf(vs, tail), shown) == "(" + (Spaced(vs, shown) + TailText(tail, shown)) + ")"
  {
    hide Spaced, TailText, WrittenItems;
    ItemsPrinted(vs, tail, shown);
  }

  // ---------- lists that are not closed, and tails that are not there ----------

  /** Behind a period the closing parenthesis is the empty tail. */
  lemma NothingBehindPeriod(r: Reader)
    requires NextToken(r).0 == Parse(RightParen)
    ensures ParsePairToken(r) == Parsed(Null, Peeked(r))
  {
  }

  lemma AtEnd(r: Reader)
    requires r.cache == None && r.input == ""
    ensures ParseListTokens(r) == Endless && ParseListTokens(Peeked(r)) == Endless
  {
  }

  /** A list whose text ends before it is closed is never returned, whatever has been read of it. */
  lemma {:induction false} Unclosed(t: Notation, shown: nat -> string, r: Reader)
    requires t.Cons? && IsNotation(t) && ListEnds(t)
    requires r.cache == None && r.input == ShownItems(t, shown)
    ensures ParseListTokens(r) == Endless && NextToken(r).0 != Parse(RightParen)
    decreases t
  {
    hide ReadToken, Shown, NextToken;
    var tail := ShownRest(t.rest, shown);
    assert r.input == Shown(t.first, shown) + tail;
    EndsBefore(t.first, tail);
    NotationReads(t.first, shown, r, tail);
    NoPeriod(t);
    var after := ParseToken(r).rest;
    if t.rest.Cons? {
      var s := ShownItems(t.rest, shown);
      assert tail == " " + s;
      SpaceSkipped(after, s);
      Unclosed(t.rest, shown, after.(input := s, column := after.column + 1));
    } else {
      AtEnd(after);
    }
  }

  /** A proper list. */
  predicate ListEnds(t: Notation) {
    t == Atom(Null) || (t.Cons? && ListEnds(t.rest))
  }

  lemma UnclosedList(t: Notation, shown: nat -> string)
    requires t.Cons? && IsNotation(t) && ListEnds(t)
    ensures ParseExpression(Start("(" + ShownItems(t, shown))) == Endless
    ensures ParseExpression(Start("(")) == Endless
  {
    var r := Start("(" + ShownItems(t, shown));
    var inside := r.(input := ShownItems(t, shown));
    assert r.input[1..] == inside.input;
    Unclosed(t, shown, inside);
    PeekHarmless(inside);
    PeekHarmless(r);
    OpenOnly();
  }

  lemma OpenOnly()
    ensures ParseExpression(Start("(")) == Endless
  {
    var r := Start("(");
    var inside := r.(input := "");
    assert r.input[1..] == "";
    AtEnd(inside);
    PeekHarmless(r);
  }
}
