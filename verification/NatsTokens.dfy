/**
 The tokenizer of generated NATS server configuration: words, quoted values and braces,
 skipping white space and comments.
 */
module NatsTokens {
  import opened Wrappers

  datatype Token = Word(text: string) | Quoted(text: string) | Open | Close

  datatype Malformed = UnterminatedComment | UnterminatedQuote

  predicate IsSpace(c: char) {
    c == ' ' || c == '\t' || c == '\r' || c == '\n'
  }

  predicate IsQuote(c: char) {
    c == '"' || c == '\'' || c == '`'
  }

  /** Characters that end a word wherever they appear. */
  predicate EndsWord(c: char) {
    IsSpace(c) || IsQuote(c) || c == '{' || c == '}' || c == '#'
  }

  /** A comment opener at the front of `s`. */
  predicate OpensLineComment(s: string) {
    s != [] && (s[0] == '#' || (s[0] == '/' && |s| > 1 && s[1] == '/'))
  }

  predicate OpensBlockComment(s: string) {
    |s| > 1 && s[0] == '/' && s[1] == '*'
  }

  predicate WordStopsAt(s: string) {
    s == [] || EndsWord(s[0]) || OpensLineComment(s) || OpensBlockComment(s)
  }

  function WordLength(s: string): (n: nat)
    ensures n <= |s|
  {
    if WordStopsAt(s) then 0 else 1 + WordLength(s[1..])
  }

  /** What follows a line comment: the rest, from the line break on. */
  function LineEnd(s: string): (rest: string)
    ensures |rest| <= |s|
  {
    if s == [] || s[0] == '\n' then s else LineEnd(s[1..])
  }

  function BlockCommentEnd(s: string): (rest: Option<string>)
    ensures rest.Some? ==> |rest.value| <= |s|
  {
    if s == [] then None
    else if s[0] == '*' && |s| > 1 && s[1] == '/' then Some(s[2..])
    else BlockCommentEnd(s[1..])
  }

  /** The length of a quoted value up to its closing quote; single quotes take no escapes. */
  function QuotedLength(s: string, quote: char): (n: Option<nat>)
    ensures n.Some? ==> n.value < |s|
  {
    if s == [] then None
    else if s[0] == '\\' && quote != '\'' then
      if |s| < 2 then None
      else
        var n := QuotedLength(s[2..], quote);
        if n.None? then None else Some(2 + n.value)
    else if s[0] == quote then Some(0)
    else
      var n := QuotedLength(s[1..], quote);
      if n.None? then None else Some(1 + n.value)
  }

  function Cons(t: Token, r: Result<seq<Token>, Malformed>): Result<seq<Token>, Malformed> {
    if r.Ok? then Ok([t] + r.value) else r
  }

  function Tokens(s: string): Result<seq<Token>, Malformed>
    decreases |s|
  {
    if s == [] then Ok([])
    else if IsSpace(s[0]) then Tokens(s[1..])
    else if OpensLineComment(s) then Tokens(LineEnd(s[1..]))
    else if OpensBlockComment(s) then
      var rest := BlockCommentEnd(s[2..]);
      if rest.None? then Err(UnterminatedComment) else Tokens(rest.value)
    else if s[0] == '{' then Cons(Open, Tokens(s[1..]))
    else if s[0] == '}' then Cons(Close, Tokens(s[1..]))
    else if IsQuote(s[0]) then
      var n := QuotedLength(s[1..], s[0]);
      if n.None? then Err(UnterminatedQuote)
      else Cons(Quoted(s[1..][..n.value]), Tokens(s[1..][n.value + 1..]))
    else
      var n := WordLength(s);
      Cons(Word(s[..n]), Tokens(s[n..]))
  }

  /** Tokens found so far, followed by the outcome of the rest. */
  function Followed(tokens: seq<Token>, r: Result<seq<Token>, Malformed>): Result<seq<Token>, Malformed> {
    if r.Ok? then Ok(tokens + r.value) else r
  }

  lemma FollowedStep(tokens: seq<Token>, t: Token, r: Result<seq<Token>, Malformed>)
    ensures Followed(tokens, Cons(t, r)) == Followed(tokens + [t], r)
  {
    if r.Ok? {
      assert tokens + ([t] + r.value) == tokens + [t] + r.value;
    }
  }

  lemma FollowedNothing(r: Result<seq<Token>, Malformed>)
    ensures Followed([], r) == r
  {
    if r.Ok? {
      assert [] + r.value == r.value;
    }
  }

  method SkipLine(config: string, start: nat) returns (index: nat)
    requires start <= |config|
    ensures start <= index <= |config| && config[index..] == LineEnd(config[start..])
  {
    index := start;
    while index < |config| && config[index] != '\n'
      invariant start <= index <= |config|
      invariant LineEnd(config[index..]) == LineEnd(config[start..])
    {
      assert config[index..][1..] == config[index + 1..];
      index := index + 1;
    }
  }

  method SkipBlockComment(config: string, start: nat) returns (end: Option<nat>)
    requires start <= |config|
    ensures end.None? <==> BlockCommentEnd(config[start..]).None?
    ensures end.Some? ==> start <= end.value <= |config|
                          && BlockCommentEnd(config[start..]) == Some(config[end.value..])
  {
    var index := start;
    while index < |config|
      invariant start <= index <= |config|
      invariant BlockCommentEnd(config[index..]) == BlockCommentEnd(config[start..])
    {
      if config[index] == '*' && index + 1 < |config| && config[index + 1] == '/' {
        assert config[index..][2..] == config[index + 2..];
        return Some(index + 2);
      }
      assert config[index..][1..] == config[index + 1..];
      index := index + 1;
    }
    return None;
  }

  method FindQuote(config: string, start: nat, quote: char) returns (end: Option<nat>)
    requires start <= |config|
    ensures end.None? <==> QuotedLength(config[start..], quote).None?
    ensures end.Some? ==> start <= end.value < |config|
                          && QuotedLength(config[start..], quote) == Some(end.value - start)
  {
    var index := start;
    while index < |config|
      invariant start <= index <= |config|
      invariant SameQuote(config, start, index, quote)
    {
      if config[index] == '\\' && quote != '\'' {
        QuoteStep(config, index, quote);
        if index + 1 >= |config| {
          return None;
        }
        SameQuoteOn(config, start, index, index + 2, quote);
        index := index + 2;
      } else if config[index] == quote {
        QuoteHere(config, index, quote);
        return Some(index);
      } else {
        QuoteStep(config, index, quote);
        SameQuoteOn(config, start, index, index + 1, quote);
        index := index + 1;
      }
    }
    QuoteHere(config, index, quote);
    return None;
  }

  lemma SameQuoteOn(config: string, start: nat, index: nat, next: nat, quote: char)
    requires start <= index <= next <= |config| && SameQuote(config, start, index, quote)
    requires SameQuote(config, index, next, quote)
    ensures SameQuote(config, start, next, quote)
  {
  }

  lemma QuoteHere(config: string, index: nat, quote: char)
    requires index <= |config|
    ensures index == |config| ==> QuotedLength(config[index..], quote) == None
    ensures index < |config| && config[index] == quote && !(quote == '\\') ==>
              QuotedLength(config[index..], quote) == Some(0)
  {
  }

  /** The closing quote found from `index` is the one found from `start`. */
  predicate SameQuote(config: string, start: nat, index: nat, quote: char)
    requires start <= index <= |config|
  {
    var whole := QuotedLength(config[start..], quote);
    var rest := QuotedLength(config[index..], quote);
    whole == if rest.None? then None else Some(index - start + rest.value)
  }

  lemma QuoteStep(config: string, index: nat, quote: char)
    requires index < |config| && (config[index] != quote || (config[index] == '\\' && quote != '\''))
    ensures var escaped := config[index] == '\\' && quote != '\'';
            && (escaped && index + 1 < |config| ==> SameQuote(config, index, index + 2, quote))
            && (escaped && index + 1 == |config| ==> QuotedLength(config[index..], quote).None?)
            && (!escaped ==> SameQuote(config, index, index + 1, quote))
  {
    assert config[index..][1..] == config[index + 1..];
    if index + 1 < |config| {
      assert config[index..][2..] == config[index + 2..];
    }
  }

  method FindWordEnd(config: string, start: nat) returns (index: nat)
    requires start <= |config|
    ensures start <= index <= |config| && index - start == WordLength(config[start..])
  {
    index := start;
    while index < |config|
      invariant start <= index <= |config|
      invariant index - start + WordLength(config[index..]) == WordLength(config[start..])
    {
      if EndsWord(config[index])
         || (config[index] == '/' && index + 1 < |config| && (config[index + 1] == '/' || config[index + 1] == '*'))
      {
        break;
      }
      assert config[index..][1..] == config[index + 1..];
      index := index + 1;
    }
  }

  // What the scan finds at `index`, in terms of the positions after it.

  lemma TokensAtOpenQuote(config: string, index: nat)
    requires index < |config| && IsQuote(config[index])
    requires QuotedLength(config[index + 1..], config[index]).None?
    ensures Tokens(config[index..]) == Err(UnterminatedQuote)
  {
    assert config[index..][1..] == config[index + 1..];
  }

  lemma TokensAtQuote(config: string, index: nat, end: nat)
    requires index < end < |config| && IsQuote(config[index])
    requires QuotedLength(config[index + 1..], config[index]) == Some(end - index - 1)
    ensures Tokens(config[index..]) == Cons(Quoted(config[index + 1..end]), Tokens(config[end + 1..]))
  {
    Slices(config, index, index + 1, end);
    Slices(config, index + 1, end + 1, |config|);
    TokensOfQuoted(config[index..], config[index + 1..], end - index - 1, config[index + 1..end], config[end + 1..]);
  }

  lemma Slices(config: string, a: nat, b: nat, c: nat)
    requires a <= b <= c <= |config|
    ensures config[a..][b - a..] == config[b..] && config[b..][..c - b] == config[b..c]
  {
  }

  lemma TokensOfQuoted(text: string, inside: string, n: nat, body: string, rest: string)
    requires text != [] && IsQuote(text[0]) && inside == text[1..] && QuotedLength(inside, text[0]) == Some(n)
    requires body == inside[..n] && rest == inside[n + 1..]
    ensures Tokens(text) == Cons(Quoted(body), Tokens(rest))
  {
  }

  lemma TokensAtWord(config: string, index: nat, end: nat)
    requires index <= end <= |config| && !WordStopsAt(config[index..]) && end - index == WordLength(config[index..])
    ensures Tokens(config[index..]) == Cons(Word(config[index..end]), Tokens(config[end..]))
  {
    Slices(config, index, index, end);
    Slices(config, index, end, |config|);
    TokensOfUnquoted(config[index..], end - index, config[index..end], config[end..]);
  }

  lemma TokensOfUnquoted(text: string, n: nat, body: string, rest: string)
    requires !WordStopsAt(text) && n == WordLength(text) && body == text[..n] && rest == text[n..]
    ensures Tokens(text) == Cons(Word(body), Tokens(rest))
  {
  }

  lemma TokensAtComment(config: string, index: nat)
    requires index < |config|
    ensures OpensLineComment(config[index..]) ==> Tokens(config[index..]) == Tokens(LineEnd(config[index + 1..]))
    ensures OpensBlockComment(config[index..]) ==>
              var rest := BlockCommentEnd(config[index + 2..]);
              Tokens(config[index..]) == if rest.None? then Err(UnterminatedComment) else Tokens(rest.value)
  {
    assert config[index..][1..] == config[index + 1..];
    if OpensBlockComment(config[index..]) {
      assert config[index..][2..] == config[index + 2..];
    }
  }

  lemma TokensAtBrace(config: string, index: nat)
    requires index < |config| && (config[index] == '{' || config[index] == '}')
    ensures Tokens(config[index..]) == Cons(if config[index] == '{' then Open else Close, Tokens(config[index + 1..]))
  {
    assert config[index..][1..] == config[index + 1..];
  }

  /** One turn of the scan: input skipped, a token found, or a failure. */
  datatype Turn = Skip(next: nat) | Emit(token: Token, next: nat) | Fail(error: Malformed)

  predicate TurnIsRight(config: string, index: nat, turn: Turn) {
    && index <= |config|
    && match turn
       case Skip(next) => index < next <= |config| && Tokens(config[index..]) == Tokens(config[next..])
       case Emit(t, next) => index < next <= |config| && Tokens(config[index..]) == Cons(t, Tokens(config[next..]))
       case Fail(error) => Tokens(config[index..]) == Err(error)
  }

  method ScanComment(config: string, index: nat) returns (turn: Turn)
    requires index < |config| && (OpensLineComment(config[index..]) || OpensBlockComment(config[index..]))
    ensures TurnIsRight(config, index, turn)
  {
    TokensAtComment(config, index);
    if config[index] == '#' || config[index + 1] == '/' {
      var next := SkipLine(config, index + 1);
      turn := Skip(next);
    } else {
      var end := SkipBlockComment(config, index + 2);
      turn := if end.None? then Fail(UnterminatedComment) else Skip(end.value);
    }
  }

  method ScanQuoted(config: string, index: nat) returns (turn: Turn)
    requires index < |config| && IsQuote(config[index])
    ensures TurnIsRight(config, index, turn)
  {
    var end := FindQuote(config, index + 1, config[index]);
    if end.None? {
      TokensAtOpenQuote(config, index);
      return Fail(UnterminatedQuote);
    }
    TokensAtQuote(config, index, end.value);
    return Emit(Quoted(config[index + 1..end.value]), end.value + 1);
  }

  method ScanTurn(config: string, index: nat) returns (turn: Turn)
    requires index < |config|
    ensures TurnIsRight(config, index, turn)
  {
    var c := config[index];
    if IsSpace(c) {
      assert config[index..][1..] == config[index + 1..];
      turn := Skip(index + 1);
    } else if c == '#' || (c == '/' && index + 1 < |config| && (config[index + 1] == '/' || config[index + 1] == '*')) {
      turn := ScanComment(config, index);
    } else if c == '{' || c == '}' {
      TokensAtBrace(config, index);
      turn := Emit(if c == '{' then Open else Close, index + 1);
    } else if IsQuote(c) {
      turn := ScanQuoted(config, index);
    } else {
      var end := FindWordEnd(config, index);
      TokensAtWord(config, index, end);
      turn := Emit(Word(config[index..end]), end);
    }
  }

  /** The index-driven scan of the configuration text. */
  method Tokenize(config: string) returns (r: Result<seq<Token>, Malformed>)
    ensures r == Tokens(config)
  {
    var tokens: seq<Token> := [];
    var index := 0;
    assert config[0..] == config;
    FollowedNothing(Tokens(config));
    while index < |config|
      invariant 0 <= index <= |config|
      invariant Followed(tokens, Tokens(config[index..])) == Tokens(config)
    {
      var turn := ScanTurn(config, index);
      match turn {
        case Fail(error) =>
          return Err(error);
        case Skip(next) =>
          index := next;
        case Emit(t, next) =>
          FollowedStep(tokens, t, Tokens(config[next..]));
          tokens := tokens + [t];
          index := next;
      }
    }
    assert config[index..] == [] && tokens + [] == tokens;
    return Ok(tokens);
  }
}
