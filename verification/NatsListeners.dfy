/**
 Reading the listener ports out of a tokenized NATS configuration.

 The source makes one pass with a depth counter. The reference is a reading of the
 configuration as nested blocks; the two are proved to agree on every token stream.
 */
module NatsListeners {
  import opened Wrappers
  import opened Decimal
  import opened NatsTokens

  datatype Listener = Native | Monitor | Websocket

  datatype Error =
    | MalformedText(cause: Malformed)
    | UnexpectedClose
    | UnterminatedBlock
    | ExpectedValue
    | InvalidListener(listener: Listener, value: string)
    | DuplicateListener(listener: Listener)
    | MissingListener(listener: Listener)

  datatype Ports = Ports(native: nat, monitor: nat, websocket: nat)

  // ----- Listener values -----

  /** Rust's `u16` parser: an optional plus sign and at least one digit, at most 65535. */
  function ParseU16(s: string): Option<nat> {
    var digits := if s != [] && s[0] == '+' then s[1..] else s;
    if digits != [] && AllDigits(digits) && Value(digits) <= 65535 then Some(Value(digits)) else None
  }

  function LastColon(s: string): (k: Option<nat>)
    ensures k.Some? ==> k.value < |s| && s[k.value] == ':' && ':' !in s[k.value + 1..]
    ensures k.None? ==> ':' !in s
  {
    if s == [] then None
    else if s[|s| - 1] == ':' then Some(|s| - 1)
    else
      var k := LastColon(s[..|s| - 1]);
      assert s == s[..|s| - 1] + [s[|s| - 1]];
      assert k.Some? ==> s[k.value + 1..] == s[..|s| - 1][k.value + 1..] + [s[|s| - 1]];
      k
  }

  /** The position of the first `]:`, which ends a bracketed address. */
  function BracketEnd(s: string): (k: Option<nat>)
    ensures k.Some? ==> k.value + 1 < |s|
  {
    if |s| < 2 then None
    else if s[0] == ']' && s[1] == ':' then Some(0)
    else
      var k := BracketEnd(s[1..]);
      if k.None? then None else Some(1 + k.value)
  }

  /** The port of a listener value; `ipv6` decides which bracketed addresses are addresses. */
  function ParsePort(value: string, ipv6: string -> bool): (port: Option<nat>)
    ensures port.Some? ==> 0 < port.value <= 65535
  {
    var text :=
      if value != [] && value[0] == '[' then
        var k := BracketEnd(value[1..]);
        if k.Some? && ipv6(value[1..][..k.value]) then Some(value[1..][k.value + 2..]) else None
      else
        var k := LastColon(value);
        if k.None? then Some(value)
        else if ':' in value[..k.value] then None
        else Some(value[k.value + 1..]);
    if text.None? then None
    else
      var port := ParseU16(text.value);
      if port == Some(0) then None else port
  }

  // ----- Keys -----

  predicate IsSeparator(c: char) {
    c == ':' || c == '='
  }

  /** A word made only of separators belongs to the key before it. */
  predicate Detached(t: Token) {
    t.Word? && t.text != [] && forall i :: 0 <= i < |t.text| ==> IsSeparator(t.text[i])
  }

  function KeyLength(word: string): (n: nat)
    ensures n <= |word|
  {
    if word == [] || IsSeparator(word[0]) then 0 else 1 + KeyLength(word[1..])
  }

  function Key(word: string): string {
    word[..KeyLength(word)]
  }

  /** The value written in the same word as its key, or the empty string. */
  function Inline(word: string): string {
    if KeyLength(word) < |word| then word[KeyLength(word) + 1..] else []
  }

  // ----- One pass -----

  datatype Found = Found(native: Option<nat>, monitor: Option<nat>, websocket: Option<nat>)

  const NOTHING := Found(None, None, None)

  function Slot(f: Found, l: Listener): Option<nat> {
    match l
    case Native => f.native
    case Monitor => f.monitor
    case Websocket => f.websocket
  }

  function Record(f: Found, l: Listener, value: string, portOf: string -> Option<nat>): Result<Found, Error> {
    var port := portOf(value);
    if port.None? then Err(InvalidListener(l, value))
    else if Slot(f, l).Some? then Err(DuplicateListener(l))
    else Ok(match l
            case Native => f.(native := port)
            case Monitor => f.(monitor := port)
            case Websocket => f.(websocket := port))
  }

  function Finish(f: Found): Result<Ports, Error> {
    if f.native.None? then Err(MissingListener(Native))
    else if f.monitor.None? then Err(MissingListener(Monitor))
    else if f.websocket.None? then Err(MissingListener(Websocket))
    else Ok(Ports(f.native.value, f.monitor.value, f.websocket.value))
  }

  datatype State = State(
    depth: nat,
    websocketDepth: Option<nat>,
    pendingBlock: bool,
    pendingValue: Option<Listener>,
    found: Found)

  function Classify(key: string, depth: nat, websocketDepth: Option<nat>): Option<Listener> {
    if key == "listen" && depth == 0 then Some(Native)
    else if key == "http" && depth == 0 then Some(Monitor)
    else if key == "listen" && websocketDepth == Some(depth) then Some(Websocket)
    else None
  }

  function Step(st: State, t: Token, portOf: string -> Option<nat>): Result<State, Error> {
    if Detached(t) then Ok(st)
    else if st.pendingValue.Some? then
      if t.Open? || t.Close? then Err(ExpectedValue)
      else
        var found := Record(st.found, st.pendingValue.value, t.text, portOf);
        if found.Err? then Err(found.error) else Ok(st.(pendingValue := None, found := found.value))
    else
      match t
      case Open =>
        Ok(st.(depth := st.depth + 1, pendingBlock := false,
               websocketDepth := if st.pendingBlock then Some(st.depth + 1) else st.websocketDepth))
      case Close =>
        if st.depth == 0 then Err(UnexpectedClose)
        else Ok(st.(depth := st.depth - 1, pendingBlock := false,
                    websocketDepth := if st.websocketDepth == Some(st.depth) then None else st.websocketDepth))
      case Quoted(_) => Ok(st.(pendingBlock := false))
      case Word(word) =>
        var listener := Classify(Key(word), st.depth, st.websocketDepth);
        var next := st.(pendingBlock := Key(word) == "websocket" && st.depth == 0);
        if listener.None? then Ok(next)
        else if Inline(word) == [] then Ok(next.(pendingValue := listener))
        else
          var found := Record(st.found, listener.value, Inline(word), portOf);
          if found.Err? then Err(found.error) else Ok(next.(found := found.value))
  }

  function Run(st: State, tokens: seq<Token>, portOf: string -> Option<nat>): Result<State, Error>
    decreases |tokens|
  {
    if tokens == [] then Ok(st)
    else
      var next := Step(st, tokens[0], portOf);
      if next.Err? then next else Run(next.value, tokens[1..], portOf)
  }

  /** The checks after the last token. */
  function Complete(r: Result<State, Error>): Result<Found, Error> {
    if r.Err? then Err(r.error)
    else if r.value.depth != 0 then Err(UnterminatedBlock)
    else if r.value.pendingValue.Some? then Err(ExpectedValue)
    else Ok(r.value.found)
  }

  function Initial(f: Found): State {
    State(0, None, false, None, f)
  }

  function ParseTokens(tokens: seq<Token>, portOf: string -> Option<nat>): Result<Ports, Error> {
    var found := Complete(Run(Initial(NOTHING), tokens, portOf));
    if found.Err? then Err(found.error) else Finish(found.value)
  }

  function ParseConfig(config: string, ipv6: string -> bool): Result<Ports, Error> {
    var tokens := Tokens(config);
    if tokens.Err? then Err(MalformedText(tokens.error)) else ParseTokens(tokens.value, PortReader(ipv6))
  }

  function PortReader(ipv6: string -> bool): (portOf: string -> Option<nat>)
    ensures forall v :: portOf(v) == ParsePort(v, ipv6)
  {
    (v: string) => ParsePort(v, ipv6)
  }

  /** The single pass over the tokens, with its counters in local variables. */
  method ReadListenPorts(config: string, ipv6: string -> bool) returns (r: Result<Ports, Error>)
    ensures r == ParseConfig(config, ipv6)
  {
    var portOf := PortReader(ipv6);
    var scanned := Tokenize(config);
    if scanned.Err? {
      return Err(MalformedText(scanned.error));
    }
    var tokens := scanned.value;
    var st := Initial(NOTHING);
    var i := 0;
    while i < |tokens|
      invariant 0 <= i <= |tokens|
      invariant Run(st, tokens[i..], portOf) == Run(Initial(NOTHING), tokens, portOf)
    {
      assert tokens[i..][1..] == tokens[i + 1..];
      var next := Step(st, tokens[i], portOf);
      if next.Err? {
        return Err(next.error);
      }
      st := next.value;
      i := i + 1;
    }
    if st.depth != 0 {
      return Err(UnterminatedBlock);
    }
    if st.pendingValue.Some? {
      return Err(ExpectedValue);
    }
    r := Finish(st.found);
  }

  // ----- The block-structured reading -----

  /** A configuration as entries and nested blocks. */
  datatype Outline =
    | End
    | Entry(token: Token, rest: Outline)
    | Block(inner: Outline, rest: Outline)

  predicate Proper(o: Outline) {
    match o
    case End => true
    case Entry(t, rest) => (t.Word? || t.Quoted?) && Proper(rest)
    case Block(inner, rest) => Proper(inner) && Proper(rest)
  }

  function Flatten(o: Outline): seq<Token> {
    match o
    case End => []
    case Entry(t, rest) => [t] + Flatten(rest)
    case Block(inner, rest) => [Open] + Flatten(inner) + [Close] + Flatten(rest)
  }

  function SkipDetached(o: Outline): (r: Outline)
    ensures r == o || r < o
    ensures Proper(o) ==> Proper(r)
    ensures r.Entry? ==> !Detached(r.token)
  {
    if o.Entry? && Detached(o.token) then SkipDetached(o.rest) else o
  }

  datatype Scope = Top | InWebsocket | Elsewhere

  /** Which listener a key declares: only at top level and directly inside `websocket`. */
  function Declares(key: string, scope: Scope): Option<Listener> {
    if scope == Top && key == "listen" then Some(Native)
    else if scope == Top && key == "http" then Some(Monitor)
    else if scope == InWebsocket && key == "listen" then Some(Websocket)
    else None
  }

  datatype Declaration = Declaration(listener: Listener, value: string)

  function Before(d: seq<Declaration>, rest: Option<seq<Declaration>>): Option<seq<Declaration>> {
    if rest.None? then None else Some(d + rest.value)
  }

  /** Every listener declaration, in order; `None` when a listener key has no value. */
  function Declarations(o: Outline, scope: Scope): Option<seq<Declaration>>
    decreases o
  {
    match o
    case End => Some([])
    case Block(inner, rest) => Declarations(rest, scope)
    case Entry(t, rest) =>
      if Detached(t) || !t.Word? then Declarations(rest, scope)
      else
        var listener := Declares(Key(t.text), scope);
        var next := SkipDetached(rest);
        if listener.Some? then
          if Inline(t.text) != [] then Before([Declaration(listener.value, Inline(t.text))], Declarations(rest, scope))
          else if next.Entry? && (next.token.Word? || next.token.Quoted?)
          then Before([Declaration(listener.value, next.token.text)], Declarations(next.rest, scope))
          else None
        else if scope == Top && Key(t.text) == "websocket" && next.Block? then
          var direct := Declarations(next.inner, InWebsocket);
          if direct.None? then None else Before(direct.value, Declarations(next.rest, Top))
        else Declarations(rest, scope)
  }

  function RecordAll(f: Found, ds: seq<Declaration>, portOf: string -> Option<nat>): Result<Found, Error>
    decreases |ds|
  {
    if ds == [] then Ok(f)
    else
      var next := Record(f, ds[0].listener, ds[0].value, portOf);
      if next.Err? then next else RecordAll(next.value, ds[1..], portOf)
  }

  // ----- Running the pass over an outline -----

  /** The counters a scope corresponds to. */
  predicate Scoped(st: State, scope: Scope) {
    match scope
    case Top => st.depth == 0 && st.websocketDepth.None?
    case InWebsocket => st.depth == 1 && st.websocketDepth == Some(1) && !st.pendingBlock
    case Elsewhere =>
      st.depth >= 1 && !st.pendingBlock && (st.websocketDepth.None? || st.websocketDepth.value < st.depth)
  }

  lemma {:induction false} RunConcat(st: State, a: seq<Token>, b: seq<Token>, portOf: string -> Option<nat>)
    ensures Run(st, a + b, portOf) ==
            var first := Run(st, a, portOf); if first.Err? then first else Run(first.value, b, portOf)
    decreases |a|
  {
    if a == [] {
      assert a + b == b;
    } else {
      assert (a + b)[0] == a[0] && (a + b)[1..] == a[1..] + b;
      var next := Step(st, a[0], portOf);
      if next.Ok? {
        RunConcat(next.value, a[1..], b, portOf);
      }
    }
  }

  lemma RunCons(st: State, t: Token, rest: seq<Token>, portOf: string -> Option<nat>)
    ensures Run(st, [t] + rest, portOf) ==
            var next := Step(st, t, portOf); if next.Err? then next else Run(next.value, rest, portOf)
  {
    assert ([t] + rest)[1..] == rest;
  }

  lemma RunBlock(st: State, inner: seq<Token>, rest: seq<Token>, portOf: string -> Option<nat>)
    ensures Run(st, [Open] + inner + [Close] + rest, portOf) ==
            var entered := Step(st, Open, portOf);
            if entered.Err? then entered
            else
              var inside := Run(entered.value, inner, portOf);
              if inside.Err? then inside
              else
                var closed := Step(inside.value, Close, portOf);
                if closed.Err? then closed else Run(closed.value, rest, portOf)
  {
    assert [Open] + inner + [Close] + rest == [Open] + (inner + ([Close] + rest));
    RunCons(st, Open, inner + ([Close] + rest), portOf);
    var entered := Step(st, Open, portOf);
    if entered.Ok? {
      RunConcat(entered.value, inner, [Close] + rest, portOf);
      var inside := Run(entered.value, inner, portOf);
      if inside.Ok? {
        RunCons(inside.value, Close, rest, portOf);
      }
    }
  }

  /** Detached separators leave the state alone. */
  lemma {:induction false} RunSkipDetached(st: State, o: Outline, portOf: string -> Option<nat>)
    ensures Run(st, Flatten(o), portOf) == Run(st, Flatten(SkipDetached(o)), portOf)
  {
    if o.Entry? && Detached(o.token) {
      RunCons(st, o.token, Flatten(o.rest), portOf);
      RunSkipDetached(st, o.rest, portOf);
    }
  }

  /**
   What the pass makes of a balanced stretch that starts in `scope`: the declarations
   recorded in order and the counters as before, or a failure.
   */
  predicate Follows(st: State, o: Outline, scope: Scope, portOf: string -> Option<nat>) {
    FollowsDeclarations(st, Declarations(o, scope), Run(st, Flatten(o), portOf), scope, portOf)
  }

  predicate FollowsDeclarations(st: State, ds: Option<seq<Declaration>>, r: Result<State, Error>, scope: Scope,
                                portOf: string -> Option<nat>)
  {
    if ds.None? then r.Ok? ==> r.value.pendingValue.Some?
    else
      var found := RecordAll(st.found, ds.value, portOf);
      && (r.Ok? <==> found.Ok?)
      && (r.Ok? ==> && r.value.found == found.value && r.value.pendingValue.None?
                    && r.value.depth == st.depth && r.value.websocketDepth == st.websocketDepth
                    && (scope != Top ==> !r.value.pendingBlock))
  }

  lemma {:induction false} RecordConcat(f: Found, a: seq<Declaration>, b: seq<Declaration>,
                                        portOf: string -> Option<nat>)
    ensures RecordAll(f, a + b, portOf) ==
            var first := RecordAll(f, a, portOf); if first.Err? then first else RecordAll(first.value, b, portOf)
    decreases |a|
  {
    if a == [] {
      assert a + b == b;
    } else {
      assert (a + b)[0] == a[0] && (a + b)[1..] == a[1..] + b;
      var next := Record(f, a[0].listener, a[0].value, portOf);
      if next.Ok? {
        RecordConcat(next.value, a[1..], b, portOf);
      }
    }
  }

  lemma RecordOne(f: Found, d: Declaration, rest: seq<Declaration>, portOf: string -> Option<nat>)
    ensures RecordAll(f, [d] + rest, portOf) ==
            var next := Record(f, d.listener, d.value, portOf);
            if next.Err? then next else RecordAll(next.value, rest, portOf)
  {
    assert ([d] + rest)[1..] == rest;
  }

  lemma {:induction false} ElsewhereDeclaresNothing(o: Outline)
    requires Proper(o)
    ensures Declarations(o, Elsewhere) == Some([])
  {
    match o
    case End =>
    case Block(_, rest) => ElsewhereDeclaresNothing(rest);
    case Entry(_, rest) => ElsewhereDeclaresNothing(rest);
  }

  /** The pass over a balanced stretch does what the block-structured reading says. */
  lemma {:induction false} RunFollowsReading(st: State, o: Outline, scope: Scope, portOf: string -> Option<nat>)
    requires Proper(o) && Scoped(st, scope) && st.pendingValue.None?
    requires st.pendingBlock ==> !SkipDetached(o).Block?
    ensures Follows(st, o, scope, portOf)
    decreases o, 2
  {
    match o
    case End =>
    case Block(inner, rest) =>
      RunFollowsBlock(st, inner, rest, scope, portOf);
    case Entry(t, rest) =>
      RunCons(st, t, Flatten(rest), portOf);
      if Detached(t) {
        RunFollowsReading(st, rest, scope, portOf);
      } else if t.Quoted? {
        RunFollowsReading(st.(pendingBlock := false), rest, scope, portOf);
      } else {
        RunFollowsWord(st, t.text, rest, scope, portOf);
      }
  }

  /** A block that is not the `websocket` block: nothing inside it counts. */
  lemma {:induction false} RunFollowsBlock(st: State, inner: Outline, rest: Outline, scope: Scope,
                                           portOf: string -> Option<nat>)
    requires Proper(inner) && Proper(rest) && Scoped(st, scope) && st.pendingValue.None? && !st.pendingBlock
    ensures Follows(st, Block(inner, rest), scope, portOf)
    decreases Block(inner, rest), 1
  {
    ElsewhereDeclaresNothing(inner);
    RunFollowsReading(st.(depth := st.depth + 1), inner, Elsewhere, portOf);
    BlockLeavesState(st, Flatten(inner), portOf);
    RunBlock(st, Flatten(inner), Flatten(rest), portOf);
    RunFollowsReading(st, rest, scope, portOf);
    assert Run(st, Flatten(Block(inner, rest)), portOf) == Run(st, Flatten(rest), portOf);
  }

  /** Leaving a block whose contents declared nothing restores the state. */
  lemma BlockLeavesState(st: State, inner: seq<Token>, portOf: string -> Option<nat>)
    requires st.pendingValue.None? && !st.pendingBlock
    requires (st.websocketDepth.Some? ==> st.websocketDepth.value <= st.depth)
    requires FollowsDeclarations(st.(depth := st.depth + 1), Some([]), Run(st.(depth := st.depth + 1), inner, portOf),
                                 Elsewhere, portOf)
    ensures var entered := Step(st, Open, portOf);
            entered.Ok? && Run(entered.value, inner, portOf).Ok?
            && Step(Run(entered.value, inner, portOf).value, Close, portOf) == Ok(st)
  {
  }

  lemma {:induction false} RunFollowsWord(st: State, word: string, rest: Outline, scope: Scope,
                                          portOf: string -> Option<nat>)
    requires Proper(rest) && Scoped(st, scope) && st.pendingValue.None? && !Detached(Word(word))
    ensures Follows(st, Entry(Word(word), rest), scope, portOf)
    decreases Entry(Word(word), rest), 1
  {
    RunCons(st, Word(word), Flatten(rest), portOf);
    var listener := Declares(Key(word), scope);
    assert listener == Classify(Key(word), st.depth, st.websocketDepth);
    var next := SkipDetached(rest);
    var after := st.(pendingBlock := Key(word) == "websocket" && st.depth == 0);
    if listener.Some? {
      if Inline(word) != [] {
        RunFollowsInline(st, after, word, rest, scope, listener.value, portOf);
      } else {
        RunFollowsValue(st, after, word, rest, scope, listener.value, portOf);
      }
    } else if after.pendingBlock && next.Block? {
      RunFollowsWebsocket(st, after, word, rest, portOf);
    } else {
      RunFollowsReading(after, rest, scope, portOf);
    }
  }

  lemma {:induction false} RunFollowsInline(st: State, after: State, word: string, rest: Outline, scope: Scope,
                                            listener: Listener, portOf: string -> Option<nat>)
    requires Proper(rest) && Scoped(st, scope) && st.pendingValue.None? && !Detached(Word(word))
    requires Declares(Key(word), scope) == Some(listener) && Inline(word) != []
    requires after == st.(pendingBlock := false)
    ensures Follows(st, Entry(Word(word), rest), scope, portOf)
    decreases rest, 3
  {
    RunCons(st, Word(word), Flatten(rest), portOf);
    var found := Record(st.found, listener, Inline(word), portOf);
    var ds := Declarations(rest, scope);
    if ds.Some? {
      RecordOne(st.found, Declaration(listener, Inline(word)), ds.value, portOf);
    }
    if found.Ok? {
      RunFollowsReading(after.(found := found.value), rest, scope, portOf);
    }
  }

  lemma {:induction false} RunFollowsValue(st: State, after: State, word: string, rest: Outline, scope: Scope,
                                           listener: Listener, portOf: string -> Option<nat>)
    requires Proper(rest) && Scoped(st, scope) && st.pendingValue.None? && !Detached(Word(word))
    requires Declares(Key(word), scope) == Some(listener) && Inline(word) == []
    requires after == st.(pendingBlock := false)
    ensures Follows(st, Entry(Word(word), rest), scope, portOf)
    decreases rest, 3
  {
    RunCons(st, Word(word), Flatten(rest), portOf);
    var waiting := after.(pendingValue := Some(listener));
    RunSkipDetached(waiting, rest, portOf);
    var next := SkipDetached(rest);
    match next
    case End =>
    case Block(inner, after) =>
      RunBlock(waiting, Flatten(inner), Flatten(after), portOf);
    case Entry(t, tail) =>
      var found := Record(st.found, listener, t.text, portOf);
      if found.Ok? {
        RunFollowsReading(after.(found := found.value), tail, scope, portOf);
      }
      ValueIsRecorded(st, after, t, tail, scope, listener, portOf);
  }

  /** A listener's value in the next significant entry. */
  lemma ValueIsRecorded(st: State, after: State, t: Token, tail: Outline, scope: Scope, listener: Listener,
                        portOf: string -> Option<nat>)
    requires (t.Word? || t.Quoted?) && !Detached(t) && st.pendingValue.None? && after == st.(pendingBlock := false)
    requires var found := Record(st.found, listener, t.text, portOf);
             found.Ok? ==> Follows(after.(found := found.value), tail, scope, portOf)
    ensures var ds := Before([Declaration(listener, t.text)], Declarations(tail, scope));
            var r := Run(after.(pendingValue := Some(listener)), Flatten(Entry(t, tail)), portOf);
            FollowsDeclarations(st, ds, r, scope, portOf)
  {
    RunCons(after.(pendingValue := Some(listener)), t, Flatten(tail), portOf);
    if Declarations(tail, scope).Some? {
      RecordOne(st.found, Declaration(listener, t.text), Declarations(tail, scope).value, portOf);
    }
  }

  lemma {:induction false} RunFollowsWebsocket(st: State, after: State, word: string, rest: Outline,
                                               portOf: string -> Option<nat>)
    requires Proper(rest) && Scoped(st, Top) && st.pendingValue.None? && !Detached(Word(word))
    requires Declares(Key(word), Top).None? && Key(word) == "websocket" && SkipDetached(rest).Block?
    requires after == st.(pendingBlock := true)
    ensures Follows(st, Entry(Word(word), rest), Top, portOf)
    decreases rest, 3
  {
    RunCons(st, Word(word), Flatten(rest), portOf);
    RunSkipDetached(after, rest, portOf);
    var Block(inner, tail) := SkipDetached(rest);
    RunBlock(after, Flatten(inner), Flatten(tail), portOf);
    var entered := after.(depth := 1, websocketDepth := Some(1), pendingBlock := false);
    RunFollowsReading(entered, inner, InWebsocket, portOf);
    var direct := Declarations(inner, InWebsocket);
    if direct.Some? && RecordAll(st.found, direct.value, portOf).Ok? {
      var closed := st.(found := RecordAll(st.found, direct.value, portOf).value, pendingBlock := false);
      assert Step(Run(entered, Flatten(inner), portOf).value, Close, portOf) == Ok(closed);
      RunFollowsReading(closed, tail, Top, portOf);
      if Declarations(tail, Top).Some? {
        RecordConcat(st.found, direct.value, Declarations(tail, Top).value, portOf);
      }
    } else if direct.Some? && Declarations(tail, Top).Some? {
      RecordConcat(st.found, direct.value, Declarations(tail, Top).value, portOf);
    }
  }

  // ----- Balanced braces -----

  datatype Built = Balanced(outline: Outline, rest: seq<Token>) | Unclosed

  /** Read entries and blocks up to the end or the first unmatched closing brace. */
  function Build(tokens: seq<Token>): (b: Built)
    ensures b.Balanced? ==> |b.rest| <= |tokens| && (b.rest != [] ==> b.rest[0] == Close)
    decreases |tokens|
  {
    if tokens == [] || tokens[0] == Close then Balanced(End, tokens)
    else if tokens[0] == Open then
      var inside := Build(tokens[1..]);
      if inside.Unclosed? || inside.rest == [] then Unclosed
      else
        var after := Build(inside.rest[1..]);
        if after.Unclosed? then Unclosed else Balanced(Block(inside.outline, after.outline), after.rest)
    else
      var after := Build(tokens[1..]);
      if after.Unclosed? then Unclosed else Balanced(Entry(tokens[0], after.outline), after.rest)
  }

  lemma {:induction false} BuildReadsTokens(tokens: seq<Token>)
    requires Build(tokens).Balanced?
    ensures var b := Build(tokens); Proper(b.outline) && tokens == Flatten(b.outline) + b.rest
    decreases |tokens|
  {
    if tokens != [] && tokens[0] != Close {
      assert tokens == [tokens[0]] + tokens[1..];
      BuildReadsTokens(tokens[1..]);
      var next := Build(tokens[1..]);
      if tokens[0] == Open {
        BuildReadsTokens(next.rest[1..]);
        var after := Build(next.rest[1..]);
        BlockTokens(next.outline, after.outline, next.rest, after.rest);
        assert Build(tokens) == Balanced(Block(next.outline, after.outline), after.rest);
      } else {
        EntryTokens(tokens[0], next.outline, next.rest);
        assert Build(tokens) == Balanced(Entry(tokens[0], next.outline), next.rest);
      }
    }
  }

  lemma EntryTokens(t: Token, after: Outline, rest: seq<Token>)
    ensures [t] + (Flatten(after) + rest) == Flatten(Entry(t, after)) + rest
  {
  }

  lemma BlockTokens(inner: Outline, after: Outline, middle: seq<Token>, rest: seq<Token>)
    requires middle != [] && middle[0] == Close && middle[1..] == Flatten(after) + rest
    ensures [Open] + (Flatten(inner) + middle) == Flatten(Block(inner, after)) + rest
  {
    assert middle == [Close] + (Flatten(after) + rest);
  }

  lemma {:induction false} RunKeepsDepth(st: State, o: Outline, portOf: string -> Option<nat>)
    requires Proper(o) && Run(st, Flatten(o), portOf).Ok?
    ensures Run(st, Flatten(o), portOf).value.depth == st.depth
    decreases o
  {
    match o
    case End =>
    case Entry(t, rest) =>
      RunCons(st, t, Flatten(rest), portOf);
      RunKeepsDepth(Step(st, t, portOf).value, rest, portOf);
    case Block(inner, rest) =>
      RunBlock(st, Flatten(inner), Flatten(rest), portOf);
      var entered := Step(st, Open, portOf).value;
      RunKeepsDepth(entered, inner, portOf);
      RunKeepsDepth(Step(Run(entered, Flatten(inner), portOf).value, Close, portOf).value, rest, portOf);
  }

  /** An unclosed block leaves the counter above its start. */
  lemma {:induction false} UnclosedStaysDeep(st: State, tokens: seq<Token>, portOf: string -> Option<nat>)
    requires Build(tokens).Unclosed? && Run(st, tokens, portOf).Ok?
    ensures Run(st, tokens, portOf).value.depth > st.depth
    decreases |tokens|
  {
    var next := Step(st, tokens[0], portOf).value;
    if tokens[0] == Open {
      var inside := Build(tokens[1..]);
      if inside.Unclosed? {
        UnclosedStaysDeep(next, tokens[1..], portOf);
      } else {
        BuildReadsTokens(tokens[1..]);
        RunConcat(next, Flatten(inside.outline), inside.rest, portOf);
        RunKeepsDepth(next, inside.outline, portOf);
        if inside.rest != [] {
          var reached := Run(next, Flatten(inside.outline), portOf).value;
          UnclosedStaysDeep(Step(reached, Close, portOf).value, inside.rest[1..], portOf);
        }
      }
    } else {
      UnclosedStaysDeep(next, tokens[1..], portOf);
    }
  }

  /** The tokens form an outline whose declarations can be recorded on top of `start`, giving `found`. */
  ghost predicate ReadsAs(start: Found, tokens: seq<Token>, found: Found, portOf: string -> Option<nat>) {
    exists o :: OutlineReads(start, o, tokens, found, portOf)
  }

  ghost predicate OutlineReads(start: Found, o: Outline, tokens: seq<Token>, found: Found,
                               portOf: string -> Option<nat>)
  {
    && Proper(o) && Flatten(o) == tokens
    && Declarations(o, Top).Some?
    && RecordAll(start, Declarations(o, Top).value, portOf) == Ok(found)
  }

  /** The pass succeeds exactly on balanced streams whose declarations can all be recorded. */
  lemma PassAgreesWithReading(start: Found, tokens: seq<Token>, found: Found, portOf: string -> Option<nat>)
    ensures Complete(Run(Initial(start), tokens, portOf)) == Ok(found) <==> ReadsAs(start, tokens, found, portOf)
  {
    var st := Initial(start);
    forall o | OutlineReads(start, o, tokens, found, portOf)
      ensures Complete(Run(st, tokens, portOf)) == Ok(found)
    {
      RunFollowsReading(st, o, Top, portOf);
    }
    if Complete(Run(st, tokens, portOf)) == Ok(found) {
      var built := Build(tokens);
      if built.Unclosed? {
        UnclosedStaysDeep(st, tokens, portOf);
      } else {
        BuildReadsTokens(tokens);
        RunConcat(st, Flatten(built.outline), built.rest, portOf);
        RunFollowsReading(st, built.outline, Top, portOf);
        RunKeepsDepth(st, built.outline, portOf);
        assert built.rest == [];
        assert Flatten(built.outline) + [] == Flatten(built.outline);
        assert OutlineReads(start, built.outline, tokens, found, portOf);
      }
    }
  }

  // ----- Exactly once -----

  function ValuesOf(ds: seq<Declaration>, l: Listener): seq<string> {
    if ds == [] then [] else (if ds[0].listener == l then [ds[0].value] else []) + ValuesOf(ds[1..], l)
  }

  predicate AllPorts(ds: seq<Declaration>, portOf: string -> Option<nat>) {
    forall d :: d in ds ==> portOf(d.value).Some?
  }

  /** Together with what was found before, no listener is declared twice. */
  predicate NoneTwice(f: Found, ds: seq<Declaration>) {
    forall l :: |ValuesOf(ds, l)| + (if Slot(f, l).Some? then 1 else 0) <= 1
  }

  /** What a listener ends up with. */
  function Recorded(f: Found, ds: seq<Declaration>, l: Listener, portOf: string -> Option<nat>): Option<nat> {
    if ValuesOf(ds, l) == [] then Slot(f, l) else portOf(ValuesOf(ds, l)[0])
  }

  lemma {:induction false} RecordAllCharacterised(f: Found, ds: seq<Declaration>, portOf: string -> Option<nat>)
    ensures RecordAll(f, ds, portOf).Ok? <==> AllPorts(ds, portOf) && NoneTwice(f, ds)
    ensures var r := RecordAll(f, ds, portOf);
            r.Ok? ==> forall l :: Slot(r.value, l) == Recorded(f, ds, l, portOf)
    decreases |ds|
  {
    if ds != [] {
      var next := Record(f, ds[0].listener, ds[0].value, portOf);
      assert ds == [ds[0]] + ds[1..];
      ValuesStep(ds);
      if next.Ok? {
        RecordAllCharacterised(next.value, ds[1..], portOf);
        RecordStep(f, ds, next.value, portOf);
      } else {
        assert ds[0] in ds;
        assert |ValuesOf(ds, ds[0].listener)| >= 1;
      }
    }
  }

  lemma ValuesStep(ds: seq<Declaration>)
    requires ds != []
    ensures ValuesOf(ds, ds[0].listener) == [ds[0].value] + ValuesOf(ds[1..], ds[0].listener)
    ensures forall l :: l != ds[0].listener ==> ValuesOf(ds, l) == ValuesOf(ds[1..], l)
  {
  }

  lemma RecordStep(f: Found, ds: seq<Declaration>, next: Found, portOf: string -> Option<nat>)
    requires ds != [] && Record(f, ds[0].listener, ds[0].value, portOf) == Ok(next)
    ensures NoneTwice(f, ds) <==> NoneTwice(next, ds[1..])
    ensures NoneTwice(f, ds) ==> forall l :: Recorded(next, ds[1..], l, portOf) == Recorded(f, ds, l, portOf)
  {
    ValuesStep(ds);
    forall l: Listener
      ensures |ValuesOf(ds, l)| + (if Slot(f, l).Some? then 1 else 0)
           == |ValuesOf(ds[1..], l)| + (if Slot(next, l).Some? then 1 else 0)
    {
    }
  }

  /** One declaration of the listener, whose value is this port. */
  predicate DeclaredOnce(ds: seq<Declaration>, l: Listener, port: nat, portOf: string -> Option<nat>) {
    |ValuesOf(ds, l)| == 1 && portOf(ValuesOf(ds, l)[0]) == Some(port)
  }

  ghost predicate DeclaresPorts(tokens: seq<Token>, ports: Ports, portOf: string -> Option<nat>) {
    exists o :: OutlineDeclares(o, tokens, ports, portOf)
  }

  predicate OutlineDeclares(o: Outline, tokens: seq<Token>, ports: Ports, portOf: string -> Option<nat>) {
    && Proper(o) && Flatten(o) == tokens
    && var ds := Declarations(o, Top);
       && ds.Some?
       && DeclaredOnce(ds.value, Native, ports.native, portOf)
       && DeclaredOnce(ds.value, Monitor, ports.monitor, portOf)
       && DeclaredOnce(ds.value, Websocket, ports.websocket, portOf)
  }

  /**
   For every token stream: the parser returns `ports` exactly when the braces balance and
   top-level `listen`, top-level `http` and a direct `listen` of a top-level `websocket`
   block are each declared once, with these ports.
   */
  lemma ParserAgreesWithBlocks(tokens: seq<Token>, ports: Ports, portOf: string -> Option<nat>)
    ensures ParseTokens(tokens, portOf) == Ok(ports) <==> DeclaresPorts(tokens, ports, portOf)
  {
    var found := Found(Some(ports.native), Some(ports.monitor), Some(ports.websocket));
    PassAgreesWithReading(NOTHING, tokens, found, portOf);
    assert ParseTokens(tokens, portOf) == Ok(ports) <==> ReadsAs(NOTHING, tokens, found, portOf);
    forall o | Proper(o) && Declarations(o, Top).Some?
      ensures OutlineReads(NOTHING, o, tokens, found, portOf) <==> OutlineDeclares(o, tokens, ports, portOf)
    {
      OnceEach(Declarations(o, Top).value, ports, portOf);
    }
    if ReadsAs(NOTHING, tokens, found, portOf) {
      var o :| OutlineReads(NOTHING, o, tokens, found, portOf);
      assert OutlineDeclares(o, tokens, ports, portOf);
    }
    if DeclaresPorts(tokens, ports, portOf) {
      var o :| OutlineDeclares(o, tokens, ports, portOf);
      assert OutlineReads(NOTHING, o, tokens, found, portOf);
    }
  }

  lemma OnceEach(ds: seq<Declaration>, ports: Ports, portOf: string -> Option<nat>)
    ensures RecordAll(NOTHING, ds, portOf) == Ok(Found(Some(ports.native), Some(ports.monitor), Some(ports.websocket)))
       <==> && DeclaredOnce(ds, Native, ports.native, portOf)
            && DeclaredOnce(ds, Monitor, ports.monitor, portOf)
            && DeclaredOnce(ds, Websocket, ports.websocket, portOf)
  {
    RecordAllCharacterised(NOTHING, ds, portOf);
    var r := RecordAll(NOTHING, ds, portOf);
    if r == Ok(Found(Some(ports.native), Some(ports.monitor), Some(ports.websocket))) {
      assert Slot(r.value, Native) == Recorded(NOTHING, ds, Native, portOf);
      assert Slot(r.value, Monitor) == Recorded(NOTHING, ds, Monitor, portOf);
      assert Slot(r.value, Websocket) == Recorded(NOTHING, ds, Websocket, portOf);
    }
    if && DeclaredOnce(ds, Native, ports.native, portOf)
       && DeclaredOnce(ds, Monitor, ports.monitor, portOf)
       && DeclaredOnce(ds, Websocket, ports.websocket, portOf)
    {
      OnceIsRecordable(ds, ports, portOf);
      assert Slot(r.value, Native) == Recorded(NOTHING, ds, Native, portOf);
      assert Slot(r.value, Monitor) == Recorded(NOTHING, ds, Monitor, portOf);
      assert Slot(r.value, Websocket) == Recorded(NOTHING, ds, Websocket, portOf);
    }
  }

  lemma OnceIsRecordable(ds: seq<Declaration>, ports: Ports, portOf: string -> Option<nat>)
    requires DeclaredOnce(ds, Native, ports.native, portOf)
    requires DeclaredOnce(ds, Monitor, ports.monitor, portOf)
    requires DeclaredOnce(ds, Websocket, ports.websocket, portOf)
    ensures AllPorts(ds, portOf) && NoneTwice(NOTHING, ds)
  {
    forall d | d in ds
      ensures portOf(d.value).Some?
    {
      var i :| 0 <= i < |ds| && ds[i] == d;
      if d.listener == Native {
        OnlyValue(ds, i, ports.native, portOf);
      } else if d.listener == Monitor {
        OnlyValue(ds, i, ports.monitor, portOf);
      } else {
        OnlyValue(ds, i, ports.websocket, portOf);
      }
    }
    forall l: Listener
      ensures |ValuesOf(ds, l)| == 1
    {
      assert l == Native || l == Monitor || l == Websocket;
    }
  }

  lemma OnlyValue(ds: seq<Declaration>, i: nat, port: nat, portOf: string -> Option<nat>)
    requires i < |ds| && DeclaredOnce(ds, ds[i].listener, port, portOf)
    ensures portOf(ds[i].value).Some?
  {
    ValueIsListed(ds, i);
  }

  lemma {:induction false} ValueIsListed(ds: seq<Declaration>, i: nat)
    requires i < |ds|
    ensures ds[i].value in ValuesOf(ds, ds[i].listener)
    decreases |ds|
  {
    if i > 0 {
      ValueIsListed(ds[1..], i - 1);
    }
  }
}
