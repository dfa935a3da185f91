/** `parse_state_t` and the procedures of `lex.c` and `parse.c` that work on it. */
module ParseState {
  import opened Values
  import opened Parser

  /** What `fgetc` returns at the end of the file. */
  const EOF: int := -1

  predicate IsNone(t: Value) { t == Parse(NoToken) }
  predicate IsEof(t: Value) { t == Parse(EndOfFile) }
  predicate IsPeriod(t: Value) { t == PERIOD }
  predicate IsLeftParen(t: Value) { t == Parse(LeftParen) }
  predicate IsRightParen(t: Value) { t == Parse(RightParen) }
  predicate IsApostrophe(t: Value) { t == Parse(Apostrophe) }

  /** The characters a reader holds: the one in hand, then the file. */
  function InHand(c: int, input: string): string {
    if 0 <= c < 256 then [c as char] + input else input
  }

  predicate IsBytes(s: string) { forall k | 0 <= k < |s| :: s[k] as int < 256 }

  /** The name read in full is `buf` and what can still be read of `s`. */
  ghost predicate StillToRead(all: (string, string), buf: string, s: string)
    requires |buf| <= NAME_LIMIT
  {
    var n := ReadName(s, NAME_LIMIT - |buf|);
    all.0 == buf + n.0 && all.1 == n.1
  }

  lemma OneMore(all: (string, string), buf: string, c: char, s: string)
    requires |buf| < NAME_LIMIT && IsSymbolChar(c) && StillToRead(all, buf, [c] + s)
    ensures StillToRead(all, buf + [c], s)
  {
    assert ([c] + s)[1..] == s;
    var n := ReadName(s, NAME_LIMIT - |buf| - 1);
    assert buf + ([c] + n.0) == (buf + [c]) + n.0;
  }

  lemma HashThen(s: string)
    ensures var h := Parser.ReadHash(['#'] + s);
      if s == "" then h == (Parse(Octothorpe), "#")
      else if s[0] == 't' || s[0] == 'f' then h == (Bool(s[0] == 't'), s[1..])
      else if s[0] != '\\' then h == (Parse(Octothorpe), "#" + s[1..])
      else if |s| == 1 then h == (Char(EOF_CHARACTER), "")
      else h == (Char(s[1] as nat), s[2..])
  {
    if s == "" {
      assert ['#'] + s == "#";
    } else {
      assert (['#'] + s)[2..] == s[1..];
    }
    if |s| > 1 { assert (['#'] + s)[3..] == s[2..]; }
  }

  predicate IsLong(c: char) { IsDigit(c) || IsSymbolStart(c) || c == '#' }

  /** What one character does to the lexer. */
  lemma OneCharacter(r: Reader, c: char, rest: string)
    requires r.input == [c] + rest
    ensures var next := r.(input := rest);
      IsLong(c) || ReadToken(r) ==
        if c == '\n' then ReadToken(next.(line := r.line + 1, column := 0))
        else if c == ';' then ReadToken(r.(input := SkipComment(r.input)))
        else if c == '(' then (Parse(LeftParen), next)
        else if c == ')' then (Parse(RightParen), next)
        else if c == '\'' then (Parse(Apostrophe), next)
        else if IsWhitespace(c) then ReadToken(next.(column := r.column + 1))
        else ReadToken(next)
  {
    assert r.input[1..] == rest;
  }

  lemma NoCharacter(r: Reader)
    requires r.input == ""
    ensures ReadToken(r) == (Parse(EndOfFile), r)
  {
  }

  class State {
    var input: string
    var atEnd: bool
    var linenum: nat
    var charpos: nat
    var hasNext: bool
    var nextToken: Value

    /** The end-of-file indicator is set only by a read at the end. */
    ghost predicate Valid()
      reads this
    {
      (atEnd ==> input == "") && IsBytes(input)
    }

    ghost function Now(): Reader
      reads this
    {
      Reader(input, linenum, charpos, if hasNext then Some(nextToken) else None)
    }

    /** `make_parse_state`. */
    constructor (text: string)
      requires IsBytes(text)
      ensures Valid() && Now() == Start(text)
    {
      input, atEnd, linenum, charpos, hasNext, nextToken := text, false, 0, 0, false, Int(0);
    }

    method Fgetc() returns (c: int)
      requires Valid()
      modifies this`input, this`atEnd
      ensures Valid() && (c == EOF <==> atEnd) && (atEnd <==> old(input) == "")
      ensures c != EOF ==> 0 <= c < 256 && old(input) != "" && c == old(input)[0] as int && input == old(input)[1..]
      ensures InHand(c, input) == old(input)
    {
      if input == "" {
        atEnd := true;
        return EOF;
      }
      c := input[0] as int;
      input := input[1..];
      atEnd := false;
    }

    /** Pushing back `EOF` does nothing; pushing back a character clears the indicator. */
    method Ungetc(c: int)
      requires Valid() && EOF <= c < 256
      modifies this`input, this`atEnd
      ensures Valid() && input == InHand(c, old(input))
      ensures atEnd == (old(atEnd) && c == EOF)
    {
      if c != EOF {
        input := [c as char] + input;
        atEnd := false;
      }
    }

    /** The comment loop of `read_next_token`. */
    method SkipLine(first: int)
      requires Valid() && !atEnd && first == ';' as int
      modifies this`input, this`atEnd
      ensures Valid() && input == SkipComment(InHand(first, old(input)))
    {
      var c := first;
      while c != '\n' as int && !atEnd
        invariant Valid() && EOF <= c < 256 && (c == EOF <==> atEnd)
        invariant SkipComment(InHand(c, input)) == SkipComment(InHand(first, old(input)))
        decreases |InHand(c, input)|
      {
        c := Fgetc();
      }
      Ungetc(c);
    }

    method ReadNumber() returns (token: Value)
      requires Valid() && input != "" && IsDigit(input[0])
      modifies this`input, this`atEnd
      ensures Valid()
      ensures var n := Parser.ReadNumber(old(input), 0); token == Int(n.0 % FIXNUM_LIMIT) && input == n.1
    {
      var sum: nat := 0;
      var c := Fgetc();
      while c != EOF && IsDigit(c as char)
        invariant Valid() && EOF <= c < 256 && (c == EOF ==> input == "")
        invariant Parser.ReadNumber(InHand(c, input), sum) == Parser.ReadNumber(old(input), 0)
        decreases |InHand(c, input)|
      {
        sum := 10 * sum + (c - '0' as int);
        c := Fgetc();
      }
      Ungetc(c);
      token := Int(sum % FIXNUM_LIMIT);
    }

    method ReadSymbol() returns (token: Value)
      requires Valid() && input != ""
      modifies this`input, this`atEnd
      ensures Valid()
      ensures var n := ReadName(old(input), NAME_LIMIT); token == Sym(n.0) && input == n.1
    {
      var buf := "";
      ghost var all := ReadName(input, NAME_LIMIT);
      assert buf + all.0 == all.0;
      var c := Fgetc();
      while c != EOF && IsSymbolChar(c as char) && |buf| + 1 < 32
        invariant Valid() && EOF <= c < 256 && (c == EOF ==> input == "") && |buf| <= NAME_LIMIT
        invariant StillToRead(all, buf, InHand(c, input))
        decreases |InHand(c, input)|
      {
        OneMore(all, buf, c as char, input);
        buf := buf + [c as char];
        c := Fgetc();
      }
      Ungetc(c);
      token := Sym(buf);
    }

    /** What follows a hash. */
    method ReadHash() returns (token: Value)
      requires Valid() && !atEnd
      modifies this`input, this`atEnd
      ensures Valid()
      ensures var h := Parser.ReadHash(['#'] + old(input)); token == h.0 && input == h.1
    {
      hide Parser.ReadHash;
      HashThen(input);
      var next := Fgetc();
      if next == 't' as int || next == 'f' as int {
        return Bool(next == 't' as int);
      } else if next == '\\' as int {
        next := Fgetc();
        return Char(if next == EOF then EOF_CHARACTER else next);
      } else {
        Ungetc('#' as int);
        return Parse(Octothorpe);
      }
    }

    /** `read_next_token`. */
    method ReadNextToken() returns (token: Value)
      requires Valid()
      modifies this`input, this`atEnd, this`linenum, this`charpos
      ensures Valid() && (token, Now()) == ReadToken(old(Now()))
    {
      hide ReadToken;
      while true
        invariant Valid() && hasNext == old(hasNext) && nextToken == old(nextToken)
        invariant ReadToken(Now()) == ReadToken(old(Now()))
        decreases |input|
      {
        ghost var before := Now();
        var c := Fgetc();
        if c == EOF {
          NoCharacter(before);
          return Parse(EndOfFile);
        }
        assert before.input == [c as char] + input;
        OneCharacter(before, c as char, input);
        if c == '\n' as int {
          linenum, charpos := linenum + 1, 0;
        } else if c == ';' as int {
          SkipLine(c);
        } else if c == '(' as int {
          return Parse(LeftParen);
        } else if c == ')' as int {
          return Parse(RightParen);
        } else if c == '\'' as int {
          return Parse(Apostrophe);
        } else if IsWhitespace(c as char) {
          charpos := charpos + 1;
        } else if IsLong(c as char) {
          token := ReadLong(c);
          return;
        }
      }
    }

    /** The tokens of more than one character: a number, a symbol, or what follows a hash. */
    method ReadLong(c: int) returns (token: Value)
      requires Valid() && !atEnd && 0 <= c < 256
      requires IsLong(c as char)
      modifies this`input, this`atEnd
      ensures Valid() && (token, Now()) == ReadToken(old(Now().(input := InHand(c, input))))
    {
      if IsDigit(c as char) {
        Ungetc(c);
        token := ReadNumber();
      } else if IsSymbolStart(c as char) {
        Ungetc(c);
        token := ReadSymbol();
      } else {
        token := ReadHash();
      }
    }

    method GetNextToken() returns (token: Value)
      requires Valid()
      modifies this
      ensures Valid() && (token, Now()) == NextToken(old(Now()))
    {
      if hasNext {
        token := nextToken;
        hasNext, nextToken := false, Int(0);
      } else {
        token := ReadNextToken();
      }
    }

    method PeekNextToken() returns (token: Value)
      requires Valid()
      modifies this
      ensures Valid() && token == NextToken(old(Now())).0 && Now() == Peeked(old(Now()))
    {
      if hasNext {
        token := nextToken;
      } else {
        token := ReadNextToken();
        hasNext, nextToken := true, token;
      }
    }

    method CacheNextToken(token: Value)
      requires Valid()
      modifies this`hasNext, this`nextToken
      ensures Valid() && Now() == old(Now()).(cache := Some(token))
    {
      nextToken, hasNext := token, true;
    }

    /** The next token if the test accepts it; otherwise it stays, and the answer is the none token. */
    method ParseAccept(test: Value -> bool) returns (token: Value)
      requires Valid()
      modifies this
      ensures Valid()
      ensures var n := NextToken(old(Now()));
        if test(n.0) then token == n.0 && Now() == n.1 else token == Parse(NoToken) && Now() == Peeked(old(Now()))
    {
      var temp := GetNextToken();
      if test(temp) { return temp; }
      CacheNextToken(temp);
      return Parse(NoToken);
    }

    /** The next token is used up either way. */
    method ParseExpect(test: Value -> bool) returns (token: Value)
      requires Valid()
      modifies this
      ensures Valid() && Now() == NextToken(old(Now())).1
      ensures token == if test(NextToken(old(Now())).0) then NextToken(old(Now())).0 else Parse(NoToken)
    {
      var temp := GetNextToken();
      if test(temp) { return temp; }
      return Parse(NoToken);
    }

    /** An absent result is a call that never returns. */
    ghost predicate Returns(r: Option<Value>, p: Parsed)
      reads this
    {
      match p
      case Endless => r == None
      case Parsed(v, rest) => r == Some(v) && Now() == rest
    }

    method ParseToken() returns (r: Option<Value>)
      requires Valid()
      modifies this
      ensures Valid() && Returns(r, Parser.ParseToken(old(Now())))
      decreases Weight(Now()), 2
    {
      ghost var start := Now();
      var tests: seq<Value -> bool> :=
        [(t: Value) => t.Int?, (t: Value) => t.Sym?, IsEof, (t: Value) => t.Bool?, (t: Value) => t.Char?, IsPeriod];
      for i := 0 to |tests|
        invariant Valid() && Weight(Now()) <= Weight(start)
        invariant if i == 0 then Now() == start else Now() == Peeked(start)
        invariant forall k | 0 <= k < i :: !tests[k](NextToken(start).0)
      {
        var temp := ParseAccept(tests[i]);
        if temp != Parse(NoToken) { return Some(temp); }
      }
      assert !tests[0](NextToken(start).0) && !tests[1](NextToken(start).0) && !tests[2](NextToken(start).0)
        && !tests[3](NextToken(start).0) && !tests[4](NextToken(start).0);
      var next := PeekNextToken();
      if IsLeftParen(next) {
        r := ParseList();
        return;
      }
      next := PeekNextToken();
      if IsApostrophe(next) {
        r := ParseQuoted();
        return;
      }
      return Some(Parse(NoToken));
    }

    method ParseQuoted() returns (r: Option<Value>)
      requires Valid() && Now().cache == Some(Parse(Apostrophe))
      modifies this
      ensures Valid() && Returns(r, Parser.ParseQuoted(old(Now())))
      decreases Weight(Now()), 1
    {
      var _ := ParseExpect(IsApostrophe);
      var quoted := ParseExpression();
      if quoted == None { return None; }
      return Some(Pair(Sym("quote"), Pair(quoted.value, Null)));
    }

    method ParseList() returns (r: Option<Value>)
      requires Valid() && Now().cache == Some(Parse(LeftParen))
      modifies this
      ensures Valid() && Returns(r, Parser.ParseList(old(Now())))
      decreases Weight(Now()), 1
    {
      var _ := ParseExpect(IsLeftParen);
      var close := ParseAccept(IsRightParen);
      if !IsNone(close) {
        r := Some(Null);
      } else {
        r := ParseListTokens();
        if r == None { return; }
        var _ := ParseExpect(IsRightParen);
      }
    }

    method ParseListTokens() returns (r: Option<Value>)
      requires Valid()
      modifies this
      ensures Valid() && Returns(r, Parser.ParseListTokens(old(Now())))
      decreases Weight(Now()), 3
    {
      var temp := ParseToken();
      if temp == None { return None; }
      if IsPeriod(temp.value) {
        r := ParsePairToken();
      } else if !IsNone(temp.value) {
        // The recursive call would start where this one did.
        if IsEof(temp.value) { return None; }
        var rest := ParseListTokens();
        if rest == None { return None; }
        r := Some(Pair(temp.value, rest.value));
      } else {
        r := Some(Null);
      }
    }

    method ParsePairToken() returns (r: Option<Value>)
      requires Valid()
      modifies this
      ensures Valid() && Returns(r, Parser.ParsePairToken(old(Now())))
      decreases Weight(Now()), 3
    {
      r := ParseToken();
      if r != None && IsNone(r.value) { r := Some(Null); }
    }

    method ParseExpression() returns (r: Option<Value>)
      requires Valid()
      modifies this
      ensures Valid() && Returns(r, Parser.ParseExpression(old(Now())))
      decreases Weight(Now()), 3
    {
      var next := PeekNextToken();
      if IsLeftParen(next) {
        r := ParseList();
      } else {
        r := ParseToken();
      }
    }
  }
}
