/** The lexer and the recursive-descent parser, as functions of the text that is left to read. */
module Parser {
  import opened Values

  const VERTICAL_TAB: char := 11 as char
  const NAME_LIMIT: nat := 31
  /** `tag_character` of `EOF`: a 32-bit minus one, shifted left by eight bits and back. */
  const EOF_CHARACTER: nat := 0xFF_FFFF

  predicate IsWhitespace(c: char) { c in {' ', '\t', VERTICAL_TAB, '\n'} }
  predicate IsDigit(c: char) { '0' <= c <= '9' }
  predicate IsLetter(c: char) { 'A' <= c <= 'Z' || 'a' <= c <= 'z' }
  predicate IsSymbolStart(c: char) {
    IsLetter(c) || c in {'<', '>', '+', '-', '*', '/', ':', '?', '^', '%', '&', '@', '!', '_', '=', '|', '.'}
  }
  predicate IsSymbolChar(c: char) { IsSymbolStart(c) || IsDigit(c) }

  const PERIOD := Sym(".")

  /** `parse_state`: the text that is left, one byte a character, the position counters, and the token cache. */
  datatype Reader = Reader(input: string, line: nat, column: nat, cache: Option<Value>)

  function Start(input: string): Reader { Reader(input, 0, 0, None) }

  // ---------- tokens ----------

  /** `read_number`: the digits in front, added to `sum`. */
  function ReadNumber(s: string, sum: nat): (r: (nat, string))
    ensures |r.1| <= |s| && (s != "" && IsDigit(s[0]) ==> |r.1| < |s|)
    decreases |s|
  {
    if s != "" && IsDigit(s[0]) then ReadNumber(s[1..], 10 * sum + (s[0] as nat - '0' as nat)) else (sum, s)
  }

  /** `read_symbol`: the symbol characters in front, `room` at most. */
  function ReadName(s: string, room: nat): (r: (string, string))
    ensures |r.0| + |r.1| == |s| && |r.0| <= room
    ensures s != "" && IsSymbolChar(s[0]) && room > 0 ==> |r.0| > 0
    decreases |s|
  {
    if s != "" && IsSymbolChar(s[0]) && room > 0 then
      var rest := ReadName(s[1..], room - 1);
      ([s[0]] + rest.0, rest.1)
    else
      ("", s)
  }

  /** A comment runs to the newline, which stays, or to the end. */
  function SkipComment(s: string): (r: string)
    ensures |r| <= |s| && (s != "" && s[0] != '\n' ==> |r| < |s|)
    decreases |s|
  {
    if s == "" || s[0] == '\n' then s else SkipComment(s[1..])
  }

  /** What follows a hash. Anything but `t`, `f` and a backslash is dropped, and the hash itself is pushed back. */
  function ReadHash(s: string): (r: (Value, string))
    requires s != "" && s[0] == '#'
    ensures |r.1| <= |s| && (Consumed(r.0) ==> |r.1| < |s|) && r.0 != Parse(EndOfFile)
  {
    if |s| == 1 then (Parse(Octothorpe), s)
    else if s[1] == 't' || s[1] == 'f' then (Bool(s[1] == 't'), s[2..])
    else if s[1] != '\\' then (Parse(Octothorpe), "#" + s[2..])
    else if |s| == 2 then (Char(EOF_CHARACTER), "")
    else (Char(s[2] as nat), s[3..])
  }

  /** The tokens whose reading uses up text. */
  predicate Consumed(t: Value) { t != Parse(EndOfFile) && t != Parse(Octothorpe) }

  /** `read_next_token`. */
  function ReadToken(r: Reader): (p: (Value, Reader))
    ensures p.1.cache == r.cache && |p.1.input| <= |r.input|
    ensures Consumed(p.0) ==> |p.1.input| < |r.input|
    ensures p.0 == Parse(EndOfFile) ==> p.1.input == ""
    decreases |r.input|
  {
    if r.input == "" then (Parse(EndOfFile), r)
    else
      var c, next := r.input[0], r.(input := r.input[1..]);
      if c == '\n' then ReadToken(next.(line := r.line + 1, column := 0))
      else if c == ';' then ReadToken(r.(input := SkipComment(r.input)))
      else if c == '(' then (Parse(LeftParen), next)
      else if c == ')' then (Parse(RightParen), next)
      else if c == '\'' then (Parse(Apostrophe), next)
      else if IsWhitespace(c) then ReadToken(next.(column := r.column + 1))
      else if IsDigit(c) then
        var n := ReadNumber(r.input, 0);
        (Int(n.0 % FIXNUM_LIMIT), r.(input := n.1))
      else if IsSymbolStart(c) then
        var n := ReadName(r.input, NAME_LIMIT);
        (Sym(n.0), r.(input := n.1))
      else if c == '#' then
        var h := ReadHash(r.input);
        (h.0, r.(input := h.1))
      else ReadToken(next)
  }

  /** `get_next_token`: the cached token, or one from the text. */
  function NextToken(r: Reader): (p: (Value, Reader))
    ensures p.1.cache == None && Weight(p.1) <= Weight(r)
    ensures Consumed(p.0) ==> Weight(p.1) < Weight(r)
    ensures Consumed(p.0) ==> Weight(p.1.(cache := Some(p.0))) <= Weight(r)
  {
    match r.cache
    case Some(t) => (t, r.(cache := None))
    case None => ReadToken(r)
  }

  /** What is left to use up. */
  function Weight(r: Reader): nat {
    2 * |r.input| + if r.cache.Some? && Consumed(r.cache.value) then 1 else 0
  }

  /** `cache_next_token` after `get_next_token`: the state `peek_next_token` leaves. */
  function Peeked(r: Reader): (p: Reader)
    ensures p.cache == Some(NextToken(r).0) && NextToken(p) == NextToken(r)
    ensures Weight(p) <= Weight(r)
  {
    var p := NextToken(r);
    p.1.(cache := Some(p.0))
  }

  // ---------- expressions ----------

  /** What `parse_token` accepts as it stands. */
  predicate IsAtom(t: Value) {
    t.Int? || t.Sym? || t == Parse(EndOfFile) || t.Bool? || t.Char?
  }

  /** `Endless` is a call that never returns. */
  datatype Parsed = Parsed(value: Value, rest: Reader) | Endless

  ghost predicate Progress(r: Reader, p: Parsed) {
    p.Parsed? ==>
      && Weight(p.rest) <= Weight(r)
      && (p.value != Parse(NoToken) && p.value != Parse(EndOfFile) ==> Weight(p.rest) < Weight(r))
  }

  /** `parse_token`. */
  function ParseToken(r: Reader): (p: Parsed)
    ensures Progress(r, p)
    decreases Weight(r), 2
  {
    var t := NextToken(r).0;
    if IsAtom(t) then Parsed(t, NextToken(r).1)
    else if t == Parse(LeftParen) then ParseList(Peeked(r))
    else if t == Parse(Apostrophe) then ParseQuoted(Peeked(r))
    else Parsed(Parse(NoToken), Peeked(r))
  }

  /** `parse_quoted`, called with an apostrophe in the cache. */
  function ParseQuoted(r: Reader): (p: Parsed)
    requires r.cache == Some(Parse(Apostrophe))
    ensures Progress(r, p)
    decreases Weight(r), 1
  {
    match ParseExpression(NextToken(r).1)
    case Endless => Endless
    case Parsed(v, rest) => Parsed(Pair(Sym("quote"), Pair(v, Null)), rest)
  }

  /** `parse_list`, called with a left parenthesis in the cache. A token other than the closing parenthesis
      is reported and skipped. */
  function ParseList(r: Reader): (p: Parsed)
    requires r.cache == Some(Parse(LeftParen))
    ensures p.Parsed? ==> Weight(p.rest) < Weight(r)
    decreases Weight(r), 1
  {
    var inside := NextToken(r).1;
    if NextToken(inside).0 == Parse(RightParen) then Parsed(Null, NextToken(inside).1)
    else
      match ParseListTokens(Peeked(inside))
      case Endless => Endless
      case Parsed(v, rest) => Parsed(v, NextToken(rest).1)
  }

  /** `parse_list_tokens`. At the end of the text the call repeats itself on the same state for ever. */
  function ParseListTokens(r: Reader): (p: Parsed)
    ensures p.Parsed? ==> Weight(p.rest) <= Weight(r)
    decreases Weight(r), 3
  {
    match ParseToken(r)
    case Endless => Endless
    case Parsed(t, rest) =>
      if t == PERIOD then ParsePairToken(rest)
      else if t == Parse(NoToken) then Parsed(Null, rest)
      else if t == Parse(EndOfFile) then Endless
      else
        match ParseListTokens(rest)
        case Endless => Endless
        case Parsed(u, rest') => Parsed(Pair(t, u), rest')
  }

  /** `parse_pair_token`. */
  function ParsePairToken(r: Reader): (p: Parsed)
    ensures p.Parsed? ==> Weight(p.rest) <= Weight(r)
    decreases Weight(r), 3
  {
    match ParseToken(r)
    case Endless => Endless
    case Parsed(t, rest) => Parsed(if t == Parse(NoToken) then Null else t, rest)
  }

  /** `parse_expression`. */
  function ParseExpression(r: Reader): (p: Parsed)
    ensures Progress(r, p)
    decreases Weight(r), 3
  {
    if NextToken(r).0 == Parse(LeftParen) then ParseList(Peeked(r)) else ParseToken(Peeked(r))
  }
}
