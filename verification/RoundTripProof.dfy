/** Printing and reading undo each other. */
module RoundTripProof {
  import opened Values
  import opened Parser
  import opened Writer

  /** A name the lexer reads back as one symbol. */
  predicate IsLegalName(name: string) {
    1 <= |name| <= NAME_LIMIT && IsSymbolStart(name[0]) && forall c | c in name :: IsSymbolChar(c)
  }

  /** The values the lexer and the parser have a notation for. */
  predicate IsDatum(v: Value) {
    match v
    case Null => true
    case Int(_) => true
    case Bool(_) => true
    case Char(code) => code < 256
    case Sym(name) => IsLegalName(name)
    case Pair(car, cdr) => IsDatum(car) && IsDatum(cdr)
    case _ => false
  }

  /** No element of a list is the symbol spelled with one period. It may be an improper tail. */
  predicate NoPeriodElement(v: Value) {
    v.Pair? ==> v.car != PERIOD && NoPeriodElement(v.car) && NoPeriodElement(v.cdr)
  }

  /** What may follow the printed form without becoming part of it. */
  predicate Ends(v: Value, rest: string) {
    rest == "" ||
    match v
    case Int(_) => !IsDigit(rest[0])
    case Sym(_) => !IsSymbolChar(rest[0])
    case _ => true
  }

  // ---------- tokens ----------

  lemma {:induction false} DecimalReads(n: nat, s: string, sum: nat)
    requires sum == 0
    ensures ReadNumber(Decimal(n) + s, sum) == ReadNumber(s, n)
    decreases n
  {
    var d := n % 10;
    var digit := ('0' as nat + d) as char;
    if n < 10 {
      assert (Decimal(n) + s)[1..] == s;
    } else {
      assert Decimal(n) + s == Decimal(n / 10) + ([digit] + s);
      DecimalReads(n / 10, [digit] + s, 0);
      assert ([digit] + s)[1..] == s;
    }
  }

  lemma {:induction false} NameReads(name: string, s: string, room: nat)
    requires |name| <= room && (forall c | c in name :: IsSymbolChar(c))
    requires s == "" || !IsSymbolChar(s[0])
    ensures ReadName(name + s, room) == (name, s)
    decreases |name|
  {
    if name == "" {
      assert name + s == s;
    } else {
      assert (name + s)[1..] == name[1..] + s;
      NameReads(name[1..], s, room - 1);
      assert [name[0]] + name[1..] == name;
    }
  }

  lemma IntReads(n: Fixnum, r: Reader, rest: string)
    requires r.input == Decimal(n) + rest && (rest == "" || !IsDigit(rest[0]))
    ensures ReadToken(r) == (Int(n), r.(input := rest))
  {
    DecimalReads(n, rest, 0);
    assert IsDigit(r.input[0]);
  }

  lemma SymReads(name: string, r: Reader, rest: string)
    requires IsLegalName(name) && r.input == name + rest && (rest == "" || !IsSymbolChar(rest[0]))
    ensures ReadToken(r) == (Sym(name), r.(input := rest))
  {
    NameReads(name, rest, NAME_LIMIT);
    assert IsSymbolStart(r.input[0]);
  }

  lemma HashToken(r: Reader)
    requires r.input != "" && r.input[0] == '#'
    ensures ReadToken(r) == (ReadHash(r.input).0, r.(input := ReadHash(r.input).1))
  {
  }

  lemma BoolReads(b: bool, shown: nat -> string, r: Reader, rest: string)
    requires r.input == Written(Bool(b), shown) + rest
    ensures ReadToken(r) == (Bool(b), r.(input := rest))
  {
    hide ReadToken;
    HashToken(r);
    assert r.input[2..] == rest;
  }

  lemma CharReads(c: nat, shown: nat -> string, r: Reader, rest: string)
    requires c < 256 && r.input == Written(Char(c), shown) + rest
    ensures ReadToken(r) == (Char(c), r.(input := rest))
  {
    hide ReadToken;
    HashToken(r);
    assert r.input[3..] == rest;
  }

  lemma AtomReads(v: Value, shown: nat -> string, r: Reader, rest: string)
    requires IsDatum(v) && !v.Pair? && !v.Null? && Ends(v, rest)
    requires r.input == Written(v, shown) + rest
    ensures ReadToken(r) == (v, r.(input := rest))
  {
    hide ReadToken;
    match v {
      case Int(n) => IntReads(n, r, rest);
      case Sym(name) => SymReads(name, r, rest);
      case Bool(b) => BoolReads(b, shown, r, rest);
      case Char(c) => CharReads(c, shown, r, rest);
    }
  }

  // ---------- expressions ----------

  lemma PeekHarmless(r: Reader)
    ensures ParseToken(Peeked(r)) == ParseToken(r)
    ensures ParseListTokens(Peeked(r)) == ParseListTokens(r)
    ensures ParseExpression(r) == ParseToken(r)
  {
    assert Peeked(Peeked(r)) == Peeked(r);
  }

  lemma SpaceSkipped(r: Reader, s: string)
    requires r.cache == None && r.input == " " + s
    ensures var r' := r.(input := s, column := r.column + 1);
      ParseToken(r) == ParseToken(r') && ParseListTokens(r) == ParseListTokens(r')
  {
    assert r.input[1..] == s;
    assert NextToken(r) == NextToken(r.(input := s, column := r.column + 1));
  }

  /** `p` is `v`, and the text left is exactly `rest`, with nothing cached. */
  ghost predicate ReadAs(p: Parsed, v: Value, rest: string) {
    p.Parsed? && p.value == v && p.rest.input == rest && p.rest.cache == None
  }

  // ---------- data with quotation marks ----------

  /** How a datum is written: an atom, a quotation mark before something, or a list's first element and the rest. */
  datatype Notation = Atom(v: Value) | Mark(of: Notation) | Cons(first: Notation, rest: Notation)

  /** The text, as the printer would space it. */
  function Shown(t: Notation, shown: nat -> string): string
    decreases t, 1
  {
    match t
    case Atom(v) => Written(v, shown)
    case Mark(of) => "'" + Shown(of, shown)
    case Cons(_, _) => "(" + ShownItems(t, shown) + ")"
  }

  function ShownItems(t: Notation, shown: nat -> string): string
    requires t.Cons?
    decreases t, 0
  {
    Shown(t.first, shown) + ShownRest(t.rest, shown)
  }

  function ShownRest(t: Notation, shown: nat -> string): string
    decreases t, 2
  {
    if t.Cons? then " " + ShownItems(t, shown)
    else if t == Atom(Null) then ""
    else " . " + Shown(t, shown)
  }

  /** What is written: a quotation mark stands for the two-element list of `quote` and what follows. */
  function Denoted(t: Notation): Value {
    match t
    case Atom(v) => v
    case Mark(of) => Pair(Sym("quote"), Pair(Denoted(of), Null))
    case Cons(first, rest) => Pair(Denoted(first), Denoted(rest))
  }

  /** Atoms the lexer has a spelling for; a lone period is no element of a list. */
  predicate IsNotation(t: Notation) {
    match t
    case Atom(v) => IsDatum(v) && !v.Pair?
    case Mark(of) => IsNotation(of)
    case Cons(first, rest) => first != Atom(PERIOD) && IsNotation(first) && IsNotation(rest)
  }

  predicate TextEnds(t: Notation, rest: string) {
    match t
    case Atom(v) => Ends(v, rest)
    case Mark(of) => TextEnds(of, rest)
    case Cons(_, _) => true
  }

  /** What is written is read back, quotation marks at any depth included, and not one character more is used up. */
  lemma {:induction false} NotationReads(t: Notation, shown: nat -> string, r: Reader, rest: string)
    requires IsNotation(t) && TextEnds(t, rest)
    requires r.cache == None && r.input == Shown(t, shown) + rest
    ensures ReadAs(ParseToken(r), Denoted(t), rest) && NextToken(r).0 != Parse(RightParen)
    decreases t, 1
  {
    match t
    case Cons(_, _) =>
      assert r.input == "(" + (ShownItems(t, shown) + (")" + rest));
      var inside := r.(input := ShownItems(t, shown) + (")" + rest));
      assert NextToken(r) == (Parse(LeftParen), inside) by { assert r.input[1..] == inside.input; }
      ItemsRead(t, shown, inside, rest);
      PeekHarmless(inside);
    case Mark(of) =>
      var inside := r.(input := Shown(of, shown) + rest);
      assert r.input == "'" + inside.input;
      MarkReads(r, inside);
      NotationReads(of, shown, inside, rest);
    case Atom(v) =>
      if v.Null? {
        assert r.input[1..] == ")" + rest && r.input[1..][1..] == rest;
      } else {
        AtomReads(v, shown, r, rest);
      }
  }

  /** A quotation mark. */
  lemma MarkReads(r: Reader, inside: Reader)
    requires r.cache == None && r.input == "'" + inside.input && inside == r.(input := inside.input)
    ensures NextToken(r) == (Parse(Apostrophe), inside)
    ensures match ParseToken(inside)
            case Endless => ParseToken(r) == Endless
            case Parsed(v, rest) => ParseToken(r) == Parsed(Pair(Sym("quote"), Pair(v, Null)), rest)
  {
    assert r.input[1..] == inside.input;
    PeekHarmless(inside);
  }

  /** The closing parenthesis is next, and `rest` behind it. */
  ghost predicate ClosesBefore(r: Reader, rest: string) {
    NextToken(r).0 == Parse(RightParen) && NextToken(r).1.input == rest && NextToken(r).1.cache == None
  }

  lemma CloseNext(r: Reader, rest: string)
    requires r.cache == None && r.input == ")" + rest
    ensures ClosesBefore(r, rest) && ClosesBefore(Peeked(r), rest)
  {
    assert r.input[1..] == rest;
  }

  lemma ItemsSplit(t: Notation, shown: nat -> string, rest: string)
    requires t.Cons? && IsNotation(t)
    ensures var tail := ShownRest(t.rest, shown) + (")" + rest);
      && ShownItems(t, shown) + (")" + rest) == Shown(t.first, shown) + tail
      && IsNotation(t.first) && IsNotation(t.rest) && TextEnds(t.first, tail)
  {
    EndsBefore(t.first, ShownRest(t.rest, shown) + (")" + rest));
  }

  lemma {:induction false} EndsBefore(t: Notation, rest: string)
    requires rest == "" || rest[0] in {' ', ')'}
    ensures TextEnds(t, rest)
  {
    if t.Mark? { EndsBefore(t.of, rest); }
  }

  lemma {:induction false} ItemsRead(t: Notation, shown: nat -> string, r: Reader, rest: string)
    requires t.Cons? && IsNotation(t)
    requires r.cache == None && r.input == ShownItems(t, shown) + (")" + rest)
    ensures NextToken(r).0 != Parse(RightParen)
    ensures var p := ParseListTokens(r); p.Parsed? && p.value == Denoted(t) && ClosesBefore(p.rest, rest)
    decreases t, 0
  {
    hide ReadToken, ClosesBefore, Shown, ShownItems, ShownRest, IsNotation, NextToken;
    ItemsSplit(t, shown, rest);
    var tail := ShownRest(t.rest, shown) + (")" + rest);
    NotationReads(t.first, shown, r, tail);
    NoPeriod(t);
    RestReads(t.rest, shown, ParseToken(r).rest, rest);
  }

  lemma NoPeriod(t: Notation)
    requires t.Cons? && IsNotation(t)
    ensures Denoted(t.first) != PERIOD && !Denoted(t.first).Parse?
  {
  }

  lemma {:induction false} RestReads(t: Notation, shown: nat -> string, r: Reader, rest: string)
    requires IsNotation(t)
    requires r.cache == None && r.input == ShownRest(t, shown) + (")" + rest)
    ensures var p := ParseListTokens(r); p.Parsed? && p.value == Denoted(t) && ClosesBefore(p.rest, rest)
    decreases t, 3
  {
    if t == Atom(Null) {
      assert r.input == ")" + rest;
      CloseNext(r, rest);
    } else if t.Cons? {
      var s := ShownItems(t, shown) + (")" + rest);
      assert r.input == " " + s;
      SpaceSkipped(r, s);
      ItemsRead(t, shown, r.(input := s, column := r.column + 1), rest);
    } else {
      TailReads(t, shown, r, rest);
    }
  }

  /** An improper tail: a period, and what is written behind it. */
  lemma {:induction false} TailReads(t: Notation, shown: nat -> string, r: Reader, rest: string)
    requires !t.Cons? && t != Atom(Null) && IsNotation(t)
    requires r.cache == None && r.input == ShownRest(t, shown) + (")" + rest)
    ensures var p := ParseListTokens(r); p.Parsed? && p.value == Denoted(t) && ClosesBefore(p.rest, rest)
    decreases t, 2
  {
    hide Shown, ReadToken, ClosesBefore, ParseToken, IsNotation, TextEnds, NextToken;
    var printed := Shown(t, shown) + (")" + rest);
    var r1 := r.(input := "." + (" " + printed), column := r.column + 1);
    assert r.input == " " + r1.input;
    SpaceSkipped(r, r1.input);
    PeriodReads(r1, printed);
    var r2 := r1.(input := " " + printed);
    var r3 := r2.(input := printed, column := r2.column + 1);
    SpaceSkipped(r2, printed);
    EndsBefore(t, ")" + rest);
    NotationReads(t, shown, r3, ")" + rest);
    CloseNext(ParseToken(r3).rest, rest);
    DenotesDatum(t);
  }

  lemma DenotesDatum(t: Notation)
    requires IsNotation(t)
    ensures !Denoted(t).Parse?
  {
  }

  // ---------- printed data ----------

  /** The printer writes no quotation mark. */
  function NotationOf(v: Value): Notation {
    if v.Pair? then Cons(NotationOf(v.car), NotationOf(v.cdr)) else Atom(v)
  }

  lemma {:induction false} PrintedIsShown(v: Value, shown: nat -> string)
    ensures Denoted(NotationOf(v)) == v && Shown(NotationOf(v), shown) == Written(v, shown)
    ensures v.Pair? ==> ShownItems(NotationOf(v), shown) == WrittenItems(v, shown)
    ensures ShownRest(NotationOf(v), shown) == WrittenRest(v, shown)
    ensures IsDatum(v) && NoPeriodElement(v) ==> IsNotation(NotationOf(v))
    ensures forall rest :: TextEnds(NotationOf(v), rest) <==> v.Pair? || Ends(v, rest)
  {
    if v.Pair? {
      PrintedIsShown(v.car, shown);
      PrintedIsShown(v.cdr, shown);
    }
  }

  /** The printed form of a datum reads back as the datum, and not one character more is used up. */
  lemma DatumReads(v: Value, shown: nat -> string, r: Reader, rest: string)
    requires IsDatum(v) && NoPeriodElement(v) && Ends(v, rest)
    requires r.cache == None && r.input == Written(v, shown) + rest
    ensures ReadAs(ParseToken(r), v, rest)
  {
    hide IsDatum, NoPeriodElement, IsNotation;
    PrintedIsShown(v, shown);
    NotationReads(NotationOf(v), shown, r, rest);
  }

  lemma PeriodReads(r: Reader, s: string)
    requires r.cache == None && r.input == "." + (" " + s)
    ensures ParseToken(r) == Parsed(PERIOD, r.(input := " " + s))
  {
    NameReads(".", " " + s, NAME_LIMIT);
  }

  // ---------- exactly which values ----------

  /** Trees of null, numbers, booleans, byte characters and symbols spelled in any way. */
  predicate IsTree(v: Value) {
    match v
    case Null => true
    case Int(_) => true
    case Bool(_) => true
    case Char(code) => code < 256
    case Sym(_) => true
    case Pair(car, cdr) => IsTree(car) && IsTree(cdr)
    case _ => false
  }

  /** Every symbol in it could have come from the lexer. */
  predicate NamesLegal(v: Value) {
    match v
    case Sym(name) => IsLegalName(name)
    case Pair(car, cdr) => NamesLegal(car) && NamesLegal(cdr)
    case _ => true
  }

  predicate CacheLegal(r: Reader) { r.cache.Some? ==> NamesLegal(r.cache.value) }

  lemma {:induction false} NameChars(s: string, room: nat)
    ensures var n := ReadName(s, room); n.0 <= s && forall c | c in n.0 :: IsSymbolChar(c)
    decreases |s|
  {
    if s != "" && IsSymbolChar(s[0]) && room > 0 { NameChars(s[1..], room - 1); }
  }

  lemma {:induction false} TokenLegal(r: Reader)
    ensures NamesLegal(ReadToken(r).0)
    decreases |r.input|
  {
    if r.input != "" {
      var c, next := r.input[0], r.(input := r.input[1..]);
      if c == '\n' { TokenLegal(next.(line := r.line + 1, column := 0)); }
      else if c == ';' { TokenLegal(r.(input := SkipComment(r.input))); }
      else if IsWhitespace(c) { TokenLegal(next.(column := r.column + 1)); }
      else if IsSymbolStart(c) { NameChars(r.input, NAME_LIMIT); }
      else if !IsDigit(c) && c !in {'(', ')', '\'', '#'} { TokenLegal(next); }
    }
  }

  lemma NextLegal(r: Reader)
    requires CacheLegal(r)
    ensures NamesLegal(NextToken(r).0) && CacheLegal(Peeked(r)) && CacheLegal(NextToken(r).1)
  {
    TokenLegal(r);
  }

  ghost predicate OutLegal(p: Parsed) { p.Parsed? ==> NamesLegal(p.value) && CacheLegal(p.rest) }

  lemma {:induction false} ParseTokenLegal(r: Reader)
    requires CacheLegal(r)
    ensures OutLegal(ParseToken(r))
    decreases Weight(r), 2
  {
    NextLegal(r);
    var t := NextToken(r).0;
    if t == Parse(LeftParen) {
      ParseListLegal(Peeked(r));
    } else if t == Parse(Apostrophe) {
      var after := NextToken(Peeked(r)).1;
      ParseTokenLegal(after);
      PeekHarmless(after);
      assert IsLegalName("quote");
    }
  }

  lemma {:induction false} ParseListLegal(r: Reader)
    requires CacheLegal(r) && r.cache == Some(Parse(LeftParen))
    ensures OutLegal(ParseList(r))
    decreases Weight(r), 1
  {
    var inside := NextToken(r).1;
    NextLegal(inside);
    ItemsLegal(Peeked(inside));
    var p := ParseListTokens(Peeked(inside));
    if p.Parsed? { NextLegal(p.rest); }
  }

  lemma {:induction false} ItemsLegal(r: Reader)
    requires CacheLegal(r)
    ensures OutLegal(ParseListTokens(r))
    decreases Weight(r), 3
  {
    ParseTokenLegal(r);
    var p := ParseToken(r);
    if p.Parsed? {
      if p.value == PERIOD { ParseTokenLegal(p.rest); }
      else if p.value != Parse(NoToken) && p.value != Parse(EndOfFile) { ItemsLegal(p.rest); }
    }
  }

  lemma {:induction false} TreeIsDatum(v: Value)
    ensures IsDatum(v) <==> IsTree(v) && NamesLegal(v)
  {
    if v.Pair? { TreeIsDatum(v.car); TreeIsDatum(v.cdr); }
  }

  /** The lexer meets no quotation mark in it. */
  ghost predicate Quoteless(s: string)
    decreases |s|
  {
    var p := ReadToken(Start(s));
    p.0 != Parse(Apostrophe) && (|p.1.input| < |s| ==> Quoteless(p.1.input))
  }

  /** The position counters do not matter to the lexer, and text that is not used up does not change. */
  lemma {:induction false} TokenAnywhere(r: Reader)
    ensures ReadToken(r).0 == ReadToken(Start(r.input)).0
    ensures ReadToken(r).1.input == ReadToken(Start(r.input)).1.input
    ensures |ReadToken(r).1.input| == |r.input| ==> ReadToken(r).1.input == r.input
    decreases |r.input|
  {
    if r.input != "" {
      var c, next := r.input[0], r.(input := r.input[1..]);
      var s := Start(r.input);
      var next' := s.(input := r.input[1..]);
      if c == '\n' {
        TokenAnywhere(next.(line := r.line + 1, column := 0));
        TokenAnywhere(next'.(line := s.line + 1, column := 0));
      } else if c == ';' {
        TokenAnywhere(r.(input := SkipComment(r.input)));
        TokenAnywhere(s.(input := SkipComment(r.input)));
      } else if IsWhitespace(c) {
        TokenAnywhere(next.(column := r.column + 1));
        TokenAnywhere(next'.(column := s.column + 1));
      } else if !IsDigit(c) && !IsSymbolStart(c) && c !in {'(', ')', '\'', '#'} {
        TokenAnywhere(next);
        TokenAnywhere(next');
      }
    }
  }

  ghost predicate NoQuoteAhead(r: Reader) { r.cache != Some(Parse(Apostrophe)) && Quoteless(r.input) }

  lemma NextQuoteless(r: Reader)
    requires NoQuoteAhead(r)
    ensures NextToken(r).0 != Parse(Apostrophe)
    ensures NoQuoteAhead(NextToken(r).1) && NoQuoteAhead(Peeked(r))
  {
    if r.cache == None { TokenAnywhere(r); }
  }

  ghost predicate OutPeriodless(p: Parsed) {
    p.Parsed? ==> NoPeriodElement(p.value) && NoQuoteAhead(p.rest)
  }

  lemma {:induction false} ParseTokenPeriodless(r: Reader)
    requires NoQuoteAhead(r)
    ensures OutPeriodless(ParseToken(r))
    decreases Weight(r), 2
  {
    NextQuoteless(r);
    if NextToken(r).0 == Parse(LeftParen) { ParseListPeriodless(Peeked(r)); }
  }

  lemma {:induction false} ParseListPeriodless(r: Reader)
    requires NoQuoteAhead(r) && r.cache == Some(Parse(LeftParen))
    ensures OutPeriodless(ParseList(r))
    decreases Weight(r), 1
  {
    var inside := NextToken(r).1;
    NextQuoteless(r);
    NextQuoteless(inside);
    ItemsPeriodless(Peeked(inside));
    var p := ParseListTokens(Peeked(inside));
    if p.Parsed? { NextQuoteless(p.rest); }
  }

  lemma {:induction false} ItemsPeriodless(r: Reader)
    requires NoQuoteAhead(r)
    ensures OutPeriodless(ParseListTokens(r))
    decreases Weight(r), 3
  {
    ParseTokenPeriodless(r);
    var p := ParseToken(r);
    if p.Parsed? {
      if p.value == PERIOD { ParseTokenPeriodless(p.rest); }
      else if p.value != Parse(NoToken) && p.value != Parse(EndOfFile) { ItemsPeriodless(p.rest); }
    }
  }

  lemma MarkQuoteless(c: char, s: string)
    requires c in {'(', ')', ' '} && Quoteless(s)
    ensures Quoteless([c] + s)
  {
    var r := Start([c] + s);
    assert r.input[1..] == s;
    if c == ' ' {
      TokenAnywhere(r.(input := s, column := 1));
      TokenAnywhere(Start(s));
    }
  }

  lemma AtomQuoteless(v: Value, shown: nat -> string, rest: string)
    requires IsDatum(v) && !v.Pair? && !v.Null? && Ends(v, rest) && Quoteless(rest)
    ensures Quoteless(Written(v, shown) + rest)
  {
    hide ReadToken;
    AtomReads(v, shown, Start(Written(v, shown) + rest), rest);
  }

  lemma {:induction false} WrittenQuoteless(v: Value, shown: nat -> string, rest: string)
    requires IsDatum(v) && Ends(v, rest) && Quoteless(rest)
    ensures Quoteless(Written(v, shown) + rest)
    decreases v, 1
  {
    hide ReadToken, Quoteless;
    if v.Pair? {
      MarkQuoteless(')', rest);
      RestQuoteless(v.cdr, shown, ")" + rest);
      var tail := WrittenRest(v.cdr, shown) + (")" + rest);
      WrittenQuoteless(v.car, shown, tail);
      MarkQuoteless('(', Written(v.car, shown) + tail);
      assert Written(v, shown) + rest == "(" + (Written(v.car, shown) + tail);
    } else if v.Null? {
      MarkQuoteless(')', rest);
      MarkQuoteless('(', ")" + rest);
      assert Written(v, shown) + rest == "(" + (")" + rest);
    } else {
      AtomQuoteless(v, shown, rest);
    }
  }

  /** `end` starts with the closing parenthesis. */
  lemma {:induction false} RestQuoteless(v: Value, shown: nat -> string, end: string)
    requires IsDatum(v) && end != "" && end[0] == ')' && Quoteless(end)
    ensures Quoteless(WrittenRest(v, shown) + end)
    decreases v, 0
  {
    hide ReadToken, Quoteless;
    if v.Null? {
      assert WrittenRest(v, shown) + end == end;
    } else if v.Pair? {
      RestQuoteless(v.cdr, shown, end);
      var tail := WrittenRest(v.cdr, shown) + end;
      WrittenQuoteless(v.car, shown, tail);
      MarkQuoteless(' ', Written(v.car, shown) + tail);
      assert WrittenRest(v, shown) + end == " " + (Written(v.car, shown) + tail);
    } else {
      AtomQuoteless(v, shown, end);
      MarkQuoteless(' ', Written(v, shown) + end);
      PeriodQuoteless(" " + (Written(v, shown) + end));
      MarkQuoteless(' ', "." + (" " + (Written(v, shown) + end)));
      assert WrittenRest(v, shown) + end == " " + ("." + (" " + (Written(v, shown) + end)));
    }
  }

  lemma PeriodQuoteless(s: string)
    requires s != "" && s[0] == ' ' && Quoteless(s)
    ensures Quoteless("." + s)
  {
    SymReads(".", Start("." + s), s);
  }

  /** Printing a tree and reading it returns the same tree, all of the text used up, if and only if every symbol
      in it is spelled as the lexer spells symbols and no list element is the symbol spelled with one period. */
  lemma PrintThenRead(v: Value, shown: nat -> string)
    requires IsTree(v)
    ensures ReadAs(ParseExpression(Start(Written(v, shown))), v, "") <==> NamesLegal(v) && NoPeriodElement(v)
  {
    var r := Start(Written(v, shown));
    PeekHarmless(r);
    TreeIsDatum(v);
    ParseTokenLegal(r);
    assert Written(v, shown) + "" == Written(v, shown);
    if NamesLegal(v) {
      if NoPeriodElement(v) { DatumReads(v, shown, r, ""); }
      WrittenQuoteless(v, shown, "");
      ParseTokenPeriodless(r);
    }
  }

  /** Reading consumes exactly the printed datum, whatever is printed behind it. */
  lemma ReaderStopsAtEnd(v: Value, shown: nat -> string, rest: string)
    requires IsDatum(v) && NoPeriodElement(v) && Ends(v, rest)
    ensures ReadAs(ParseExpression(Start(Written(v, shown) + rest)), v, rest)
  {
    var r := Start(Written(v, shown) + rest);
    PeekHarmless(r);
    DatumReads(v, shown, r, rest);
  }

  /** The same of anything written with quotation marks. */
  lemma NotationStops(t: Notation, shown: nat -> string, rest: string)
    requires IsNotation(t) && TextEnds(t, rest)
    ensures ReadAs(ParseExpression(Start(Shown(t, shown) + rest)), Denoted(t), rest)
  {
    var r := Start(Shown(t, shown) + rest);
    PeekHarmless(r);
    NotationReads(t, shown, r, rest);
  }

  /** A quotation mark and a printed datum. */
  lemma QuotedReads(v: Value, shown: nat -> string, rest: string)
    requires IsDatum(v) && NoPeriodElement(v) && Ends(v, rest)
    ensures ReadAs(ParseExpression(Start("'" + Written(v, shown) + rest)), Pair(Sym("quote"), Pair(v, Null)), rest)
  {
    PrintedIsShown(v, shown);
    NotationStops(Mark(NotationOf(v)), shown, rest);
  }

  // ---------- lists that are never closed ----------

  /** The cache holds the end of the text only at the end of the text. */
  predicate CacheHonest(r: Reader) { r.cache == Some(Parse(EndOfFile)) ==> r.input == "" }

  /** Where `parse_list_tokens` gets the end of the text it gets it again, in the same state: the call repeats
      itself and never returns. */
  lemma {:induction false} EndRepeats(r: Reader)
    requires CacheHonest(r)
    ensures var p := ParseToken(r);
      p.Parsed? ==> CacheHonest(p.rest) && (p.value == Parse(EndOfFile) ==> ParseToken(p.rest) == p)
    decreases Weight(r), 2
  {
    var t := NextToken(r).0;
    if t == Parse(LeftParen) {
      var inside := NextToken(Peeked(r)).1;
      ItemsEnd(Peeked(inside));
    } else if t == Parse(Apostrophe) {
      var after := NextToken(Peeked(r)).1;
      PeekHarmless(after);
      EndRepeats(after);
    }
  }

  lemma {:induction false} ItemsEnd(r: Reader)
    requires CacheHonest(r)
    ensures var p := ParseListTokens(r); p.Parsed? ==> CacheHonest(p.rest)
    ensures var p := ParseListTokens(r); p.Parsed? && p.value == Parse(EndOfFile) ==> p.rest.input == ""
    decreases Weight(r), 3
  {
    EndRepeats(r);
    var p := ParseToken(r);
    if p.Parsed? {
      if p.value == PERIOD { EndRepeats(p.rest); }
      else if p.value != Parse(NoToken) && p.value != Parse(EndOfFile) { ItemsEnd(p.rest); }
    }
  }
}
