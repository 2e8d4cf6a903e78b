/**
 The generated NATS server configurations, and the round trip from rendered ports back
 to parsed ports.
 */
module NatsRender {
  import opened Wrappers
  import opened Decimal
  import opened NatsTokens
  import opened NatsListeners

  datatype TlsFiles = TlsFiles(certificate: string, privateKey: string)

  datatype WebsocketMode = BrokerTls | BehindProxy | Relayed | Loopback

  // ----- Text -----

  function Line(text: string, rest: string): string {
    text + ("\n" + rest)
  }

  function EscapeOne(c: char): string {
    if c == '"' || c == '\\' then ['\\', c] else [c]
  }

  function Escape(value: string): string {
    if value == [] then [] else EscapeOne(value[0]) + Escape(value[1..])
  }

  /** A path as a quoted configuration value. */
  function Quote(value: string): string {
    "\"" + Escape(value) + "\""
  }

  lemma EscapeNext(value: string, i: nat, before: string)
    requires i < |value|
    ensures before + Escape(value[i..]) == before + EscapeOne(value[i]) + Escape(value[i + 1..])
  {
    assert value[i..][1..] == value[i + 1..];
  }

  method QuotePath(value: string) returns (quoted: string)
    ensures quoted == Quote(value)
  {
    quoted := "\"";
    var i := 0;
    while i < |value|
      invariant 0 <= i <= |value|
      invariant quoted + Escape(value[i..]) == "\"" + Escape(value)
    {
      ghost var before := quoted;
      if value[i] == '"' || value[i] == '\\' {
        quoted := quoted + ['\\'];
      }
      quoted := quoted + [value[i]];
      assert quoted == before + EscapeOne(value[i]);
      EscapeNext(value, i, before);
      i := i + 1;
    }
    assert value[i..] == [];
    quoted := quoted + "\"";
  }

  /** Indent every continuation line by two more columns. */
  function Reindent(text: string): string {
    if text == [] then []
    else (if text[0] == '\n' then "\n  " else [text[0]]) + Reindent(text[1..])
  }

  function Address(bind: string, port: nat): string {
    bind + ":" + Digits(port)
  }

  // ----- The template, part by part -----

  // The comment lines, in pieces short enough to inspect character by character.
  const COMMENT_1 :=
    "  #" + (" Also bounds an" + " auth callout." + " Right after a" + " restart, a" + " client can" + " reach the")
  const COMMENT_2 :=
    "  #" + (" broker before" + " the runtime" + " answers" + " callouts; it" + " fails within" + " this and"
             + " retries.")

  function Header(name: string, nativeBind: string, monitorBind: string, ports: Ports, rest: string): string {
    Line("server_name: " + name,
      Line("",
        Line("listen: " + Address(nativeBind, ports.native),
          Line("http: " + Address(monitorBind, ports.monitor), Line("", rest)))))
  }

  function TlsBlock(files: TlsFiles): string {
    "  cert_file: " + Quote(files.certificate) + "\n  key_file: " + Quote(files.privateKey)
  }

  function NativeTls(tls: Option<TlsFiles>, rest: string): string {
    if tls.None? then rest else Line("tls {", Line(TlsBlock(tls.value), Line("}", Line("", rest))))
  }

  function Authorization(rest: string): string {
    Line("authorization {",
      Line(COMMENT_1, Line(COMMENT_2, Line("  timeout: \"5s\"", Line("}", Line("", rest))))))
  }

  function WebsocketTls(tls: Option<TlsFiles>, mode: WebsocketMode, rest: string): string {
    if tls.Some? && mode == BrokerTls
    then Line("  tls {", Line("  " + Reindent(TlsBlock(tls.value)), Line("  }", rest)))
    else Line("  no_tls: true", rest)
  }

  function WebsocketBlock(bind: string, port: nat, tls: Option<TlsFiles>, mode: WebsocketMode, rest: string): string {
    Line("websocket {",
      Line("  listen: " + Address(bind, port), WebsocketTls(tls, mode, Line("}", Line("", rest)))))
  }

  function Jetstream(store: string, rest: string): string {
    Line("jetstream {", Line("  store_dir: " + store, Line("}", Line("", rest))))
  }

  function Template(name: string, nativeBind: string, monitorBind: string, websocketBind: string, ports: Ports,
                    tls: Option<TlsFiles>, mode: WebsocketMode, store: string, accounts: string): string
  {
    Header(name, nativeBind, monitorBind, ports,
      NativeTls(tls,
        Authorization(WebsocketBlock(websocketBind, ports.websocket, tls, mode, Jetstream(store, accounts)))))
  }

  /** An IPv4 literal. */
  predicate IsBind(bind: string) {
    bind != [] && forall i :: 0 <= i < |bind| ==> IsDigit(bind[i]) || bind[i] == '.'
  }

  /** Every interface, or only the loopback. */
  function Bind(everywhere: bool): (bind: string)
    ensures IsBind(bind)
  {
    if everywhere then "0.0.0.0" else "127.0.0.1"
  }

  /** Which interfaces the WebSocket listener of a containerised broker binds. */
  predicate WebsocketEverywhere(mode: WebsocketMode, relayed: bool) {
    match mode
    case BrokerTls => true
    case BehindProxy => true
    case Relayed => relayed
    case Loopback => false
  }

  /** The configuration of a containerised broker. */
  function RenderConfig(name: string, ports: Ports, tls: Option<TlsFiles>, mode: WebsocketMode, privateNetwork: bool,
                        accounts: string): string
  {
    var open := tls.Some? || privateNetwork;
    Template(name, Bind(open), Bind(open), Bind(WebsocketEverywhere(mode, open)), ports, tls, mode, "/data", accounts)
  }

  /** The configuration of a broker run on the host. */
  function RenderLocalConfig(name: string, storeDir: string, accounts: string, ports: Ports, tls: Option<TlsFiles>,
                             mode: WebsocketMode): string
  {
    Template(name, Bind(tls.Some?), Bind(false), Bind(WebsocketEverywhere(mode, false)), ports, tls, mode,
             Quote(storeDir), accounts)
  }

  // ----- Tokens of text -----

  /** A word that the tokenizer reads whole. */
  predicate PlainWord(w: string) {
    && w != []
    && (forall i :: 0 <= i < |w| ==> !EndsWord(w[i]))
    && (forall i :: 0 <= i < |w| - 1 ==> !(w[i] == '/' && (w[i + 1] == '/' || w[i + 1] == '*')))
  }

  lemma {:induction false} PlainWordLength(w: string, rest: string)
    requires w == [] || PlainWord(w)
    requires rest != [] && EndsWord(rest[0])
    ensures WordLength(w + rest) == |w|
    decreases |w|
  {
    if w == [] {
      assert w + rest == rest;
    } else {
      assert (w + rest)[1..] == w[1..] + rest;
      assert !WordStopsAt(w + rest) by {
        if |w| > 1 {
          assert (w + rest)[1] == w[1];
        } else {
          assert (w + rest)[1] == rest[0];
        }
      }
      forall i | 0 <= i < |w[1..]| - 1
        ensures !(w[1..][i] == '/' && (w[1..][i + 1] == '/' || w[1..][i + 1] == '*'))
      {
        assert w[1..][i] == w[i + 1] && w[1..][i + 1] == w[i + 2];
      }
      PlainWordLength(w[1..], rest);
    }
  }

  lemma TokensOfWord(w: string, rest: string)
    requires PlainWord(w) && rest != [] && EndsWord(rest[0])
    ensures Tokens(w + rest) == Followed([Word(w)], Tokens(rest))
  {
    PlainWordLength(w, rest);
    var s := w + rest;
    assert s[..|w|] == w && s[|w|..] == rest;
    assert s[0] == w[0] && (|s| > 1 ==> s[1] == if |w| > 1 then w[1] else rest[0]);
    assert !OpensLineComment(s) && !OpensBlockComment(s);
  }

  lemma TokensOfSpace(rest: string)
    ensures Tokens(" " + rest) == Tokens(rest) && Tokens("\n" + rest) == Tokens(rest)
    ensures Tokens("  " + rest) == Tokens(rest)
  {
    assert (" " + rest)[1..] == rest && ("\n" + rest)[1..] == rest;
    assert ("  " + rest)[1..] == " " + rest;
  }

  lemma FollowedTwice(a: seq<Token>, b: seq<Token>, r: Result<seq<Token>, Malformed>)
    ensures Followed(a, Followed(b, r)) == Followed(a + b, r)
  {
    if r.Ok? {
      assert a + (b + r.value) == a + b + r.value;
    }
  }

  /** `key: value` */
  lemma TokensOfSetting(key: string, value: string, rest: string)
    requires PlainWord(key + ":") && PlainWord(value)
    ensures Tokens(Line(key + ": " + value, rest)) == Followed([Word(key + ":"), Word(value)], Tokens(rest))
  {
    assert Line(key + ": " + value, rest) == (key + ":") + (" " + (value + ("\n" + rest)));
    TokensOfWord(key + ":", " " + (value + ("\n" + rest)));
    TokensOfSpace(value + ("\n" + rest));
    TokensOfWord(value, "\n" + rest);
    TokensOfSpace(rest);
    FollowedTwice([Word(key + ":")], [Word(value)], Tokens(rest));
    assert [Word(key + ":")] + [Word(value)] == [Word(key + ":"), Word(value)];
  }

  lemma {:induction false} QuotedLengthOfEscape(value: string, rest: string)
    ensures QuotedLength(Escape(value) + ("\"" + rest), '"') == Some(|Escape(value)|)
    decreases |value|
  {
    if value == [] {
      assert Escape(value) + ("\"" + rest) == "\"" + rest;
    } else {
      QuotedLengthOfEscape(value[1..], rest);
      EscapeFirst(value, "\"" + rest);
      QuotedLengthFirst(value[0], Escape(value[1..]) + ("\"" + rest));
    }
  }

  lemma EscapeFirst(value: string, rest: string)
    requires value != []
    ensures Escape(value) + rest == EscapeOne(value[0]) + (Escape(value[1..]) + rest)
    ensures |Escape(value)| == |EscapeOne(value[0])| + |Escape(value[1..])|
  {
    Associate(EscapeOne(value[0]), Escape(value[1..]), rest);
  }

  lemma Associate(a: string, b: string, c: string)
    ensures (a + b) + c == a + (b + c)
  {
  }

  lemma QuotedLengthFirst(c: char, tail: string)
    requires QuotedLength(tail, '"').Some?
    ensures QuotedLength(EscapeOne(c) + tail, '"') == Some(|EscapeOne(c)| + QuotedLength(tail, '"').value)
  {
    assert (EscapeOne(c) + tail)[|EscapeOne(c)|..] == tail;
  }

  lemma TokensOfQuotedBody(body: string, rest: string)
    requires QuotedLength(body + ("\"" + rest), '"') == Some(|body|)
    ensures Tokens("\"" + (body + ("\"" + rest))) == Followed([Quoted(body)], Tokens(rest))
  {
    var inside := body + ("\"" + rest);
    assert ("\"" + inside)[1..] == inside;
    assert inside[..|body|] == body && inside[|body| + 1..] == rest;
  }

  /** Any path, quoted, is one token. */
  lemma TokensOfQuote(value: string, rest: string)
    ensures Tokens(Quote(value) + rest) == Followed([Quoted(Escape(value))], Tokens(rest))
  {
    QuotedLengthOfEscape(value, rest);
    assert Quote(value) + rest == "\"" + (Escape(value) + ("\"" + rest));
    TokensOfQuotedBody(Escape(value), rest);
  }

  /** `key: "value"` */
  lemma TokensOfQuotedSetting(key: string, value: string, rest: string)
    requires PlainWord(key + ":")
    ensures Tokens(Line(key + ": " + Quote(value), rest)) ==
              Followed([Word(key + ":"), Quoted(Escape(value))], Tokens(rest))
  {
    assert Line(key + ": " + Quote(value), rest) == (key + ":") + (" " + (Quote(value) + ("\n" + rest)));
    TokensOfWord(key + ":", " " + (Quote(value) + ("\n" + rest)));
    TokensOfSpace(Quote(value) + ("\n" + rest));
    TokensOfQuote(value, "\n" + rest);
    TokensOfSpace(rest);
    FollowedTwice([Word(key + ":")], [Quoted(Escape(value))], Tokens(rest));
    assert [Word(key + ":")] + [Quoted(Escape(value))] == [Word(key + ":"), Quoted(Escape(value))];
  }

  lemma TokensOfBrace(rest: string)
    ensures Tokens("{" + rest) == Followed([Open], Tokens(rest))
    ensures Tokens("}" + rest) == Followed([Close], Tokens(rest))
  {
    assert ("{" + rest)[1..] == rest && ("}" + rest)[1..] == rest;
  }

  /** `name {` */
  lemma TokensOfOpening(name: string, rest: string)
    requires PlainWord(name)
    ensures Tokens(Line(name + " {", rest)) == Followed([Word(name), Open], Tokens(rest))
  {
    OpeningText(name, rest);
    TokensOfWord(name, " " + ("{" + ("\n" + rest)));
    TokensOfSpace("{" + ("\n" + rest));
    TokensOfBrace("\n" + rest);
    TokensOfSpace(rest);
    FollowedTwice([Word(name)], [Open], Tokens(rest));
    assert [Word(name)] + [Open] == [Word(name), Open];
  }

  lemma OpeningText(name: string, rest: string)
    ensures Line(name + " {", rest) == name + (" " + ("{" + ("\n" + rest)))
  {
    assert " {" == " " + "{";
  }

  lemma TokensOfClosing(rest: string)
    ensures Tokens(Line("}", rest)) == Followed([Close], Tokens(rest))
  {
    TokensOfBrace("\n" + rest);
    TokensOfSpace(rest);
  }

  lemma TokensOfBlank(rest: string)
    ensures Tokens(Line("", rest)) == Tokens(rest)
  {
    assert Line("", rest) == "\n" + rest;
    TokensOfSpace(rest);
  }

  /** Indentation does not change what a line is. */
  lemma TokensOfIndented(text: string, rest: string)
    ensures Tokens(Line("  " + text, rest)) == Tokens(Line(text, rest))
  {
    assert Line("  " + text, rest) == "  " + Line(text, rest);
    TokensOfSpace(Line(text, rest));
  }

  lemma {:induction false} LineEndOf(text: string, rest: string)
    requires '\n' !in text
    ensures LineEnd(text + ("\n" + rest)) == "\n" + rest
    decreases |text|
  {
    if text == [] {
      assert text + ("\n" + rest) == "\n" + rest;
    } else {
      assert (text + ("\n" + rest))[1..] == text[1..] + ("\n" + rest);
      LineEndOf(text[1..], rest);
    }
  }

  lemma TokensOfComment(text: string, rest: string)
    requires text != [] && text[0] == '#' && '\n' !in text
    ensures Tokens(Line(text, rest)) == Tokens(rest)
  {
    assert Line(text, rest)[1..] == text[1..] + ("\n" + rest);
    LineEndOf(text[1..], rest);
    TokensOfSpace(rest);
  }

  // ----- Outline of the template -----

  /** Two entries in front of an outline. */
  function Pair(key: string, value: Token, tail: Outline): Outline {
    Entry(Word(key), Entry(value, tail))
  }

  function HeaderOutline(name: string, native: string, monitor: string, tail: Outline): Outline {
    Pair("server_name:", Word(name), Pair("listen:", Word(native), Pair("http:", Word(monitor), tail)))
  }

  function TlsOutline(files: TlsFiles, tail: Outline): Outline {
    var inner := Pair("cert_file:", Quoted(Escape(files.certificate)),
                      Pair("key_file:", Quoted(Escape(files.privateKey)), End));
    Entry(Word("tls"), Block(inner, tail))
  }

  function NativeTlsOutline(tls: Option<TlsFiles>, tail: Outline): Outline {
    if tls.None? then tail else TlsOutline(tls.value, tail)
  }

  function AuthorizationOutline(tail: Outline): Outline {
    Entry(Word("authorization"), Block(Pair("timeout:", Quoted("5s"), End), tail))
  }

  function WebsocketTlsOutline(tls: Option<TlsFiles>, mode: WebsocketMode): Outline {
    if tls.Some? && mode == BrokerTls
    then TlsOutline(TlsFiles(Reindent(tls.value.certificate), Reindent(tls.value.privateKey)), End)
    else Pair("no_tls:", Word("true"), End)
  }

  function WebsocketOutline(address: string, tls: Option<TlsFiles>, mode: WebsocketMode, tail: Outline): Outline {
    Entry(Word("websocket"), Block(Pair("listen:", Word(address), WebsocketTlsOutline(tls, mode)), tail))
  }

  function JetstreamOutline(store: Token, tail: Outline): Outline {
    Entry(Word("jetstream"), Block(Pair("store_dir:", store, End), tail))
  }

  function TemplateOutline(name: string, native: string, monitor: string, websocket: string,
                           tls: Option<TlsFiles>, mode: WebsocketMode, store: Token): Outline
  {
    HeaderOutline(name, native, monitor,
      NativeTlsOutline(tls, AuthorizationOutline(WebsocketOutline(websocket, tls, mode, JetstreamOutline(store, End)))))
  }

  /** The text `text` is read as the outline `o`, and then as `after`. */
  predicate Spells(text: string, o: Outline, after: Result<seq<Token>, Malformed>) {
    Tokens(text) == Followed(Flatten(o), after)
  }

  lemma SpellsMore(text: string, front: seq<Token>, rest: string, tail: Outline, whole: Outline,
                   after: Result<seq<Token>, Malformed>)
    requires Tokens(text) == Followed(front, Tokens(rest)) && Spells(rest, tail, after)
    requires Flatten(whole) == front + Flatten(tail)
    ensures Spells(text, whole, after)
  {
    FollowedTwice(front, Flatten(tail), after);
  }

  lemma SpellsPair(key: string, value: string, rest: string, tail: Outline, after: Result<seq<Token>, Malformed>)
    requires PlainWord(key + ":") && PlainWord(value) && Spells(rest, tail, after)
    ensures Spells(Line(key + ": " + value, rest), Pair(key + ":", Word(value), tail), after)
  {
    TokensOfSetting(key, value, rest);
    SpellsTwo(Line(key + ": " + value, rest), Word(key + ":"), Word(value), rest, tail, after);
  }

  lemma SpellsTwo(text: string, key: Token, value: Token, rest: string, tail: Outline,
                  after: Result<seq<Token>, Malformed>)
    requires Tokens(text) == Followed([key, value], Tokens(rest)) && Spells(rest, tail, after)
    ensures Spells(text, Entry(key, Entry(value, tail)), after)
  {
    FlattenTwo(key, value, tail);
    SpellsMore(text, [key, value], rest, tail, Entry(key, Entry(value, tail)), after);
  }

  lemma FlattenTwo(key: Token, value: Token, tail: Outline)
    ensures Flatten(Entry(key, Entry(value, tail))) == [key, value] + Flatten(tail)
  {
    var inner := Entry(value, tail);
    assert Flatten(inner) == [value] + Flatten(tail);
  }

  lemma SpellsQuotedPair(key: string, value: string, rest: string, tail: Outline, after: Result<seq<Token>, Malformed>)
    requires PlainWord(key + ":") && Spells(rest, tail, after)
    ensures Spells(Line(key + ": " + Quote(value), rest), Pair(key + ":", Quoted(Escape(value)), tail), after)
  {
    TokensOfQuotedSetting(key, value, rest);
    SpellsTwo(Line(key + ": " + Quote(value), rest), Word(key + ":"), Quoted(Escape(value)), rest, tail, after);
  }

  lemma SpellsBlank(rest: string, tail: Outline, after: Result<seq<Token>, Malformed>)
    requires Spells(rest, tail, after)
    ensures Spells(Line("", rest), tail, after)
  {
    TokensOfBlank(rest);
  }

  /** The closing line of a block: what follows it is what follows the block's contents. */
  lemma SpellsClosing(rest: string, tail: Outline, after: Result<seq<Token>, Malformed>)
    requires Spells(rest, tail, after)
    ensures Spells(Line("}", rest), End, Followed([Close] + Flatten(tail), after))
    ensures Spells(Line("  }", rest), End, Followed([Close] + Flatten(tail), after))
  {
    TokensOfClosing(rest);
    TokensOfIndented("}", rest);
    assert "  " + "}" == "  }";
    FollowedTwice([Close], Flatten(tail), after);
    FollowedNothing(Followed([Close] + Flatten(tail), after));
  }

  lemma SpellsBlock(name: string, body: string, inner: Outline, tail: Outline, after: Result<seq<Token>, Malformed>)
    requires PlainWord(name) && Spells(body, inner, Followed([Close] + Flatten(tail), after))
    ensures Spells(Line(name + " {", body), Entry(Word(name), Block(inner, tail)), after)
  {
    TokensOfOpening(name, body);
    BlockFollows(Word(name), Flatten(inner), Flatten(tail), Tokens(body), after);
    FlattenBlock(Word(name), inner, tail);
  }

  lemma BlockFollows(name: Token, inner: seq<Token>, tail: seq<Token>, body: Result<seq<Token>, Malformed>,
                     after: Result<seq<Token>, Malformed>)
    requires body == Followed(inner, Followed([Close] + tail, after))
    ensures Followed([name, Open], body) == Followed([name, Open] + inner + ([Close] + tail), after)
  {
    FollowedTwice([name, Open], inner, Followed([Close] + tail, after));
    FollowedTwice([name, Open] + inner, [Close] + tail, after);
  }

  lemma FlattenBlock(name: Token, inner: Outline, tail: Outline)
    ensures Flatten(Entry(name, Block(inner, tail))) == [name, Open] + Flatten(inner) + ([Close] + Flatten(tail))
  {
    var block := Block(inner, tail);
    assert Flatten(Entry(name, block)) == [name] + Flatten(block);
  }

  lemma SpellsIndented(text: string, rest: string, o: Outline, after: Result<seq<Token>, Malformed>)
    requires Spells(Line(text, rest), o, after)
    ensures Spells(Line("  " + text, rest), o, after)
  {
    TokensOfIndented(text, rest);
  }

  /** An indented setting, with its key and lead as they are spelled. */
  predicate Leads(key: string, word: string, lead: string) {
    word == key + ":" && lead == "  " + (key + ": ") && PlainWord(word)
  }

  lemma LeadText(key: string, lead: string, value: string)
    requires lead == "  " + (key + ": ")
    ensures lead + value == "  " + (key + ": " + value)
  {
  }

  lemma IndentedPair(key: string, word: string, lead: string, value: string, rest: string, tail: Outline,
                     after: Result<seq<Token>, Malformed>)
    requires Leads(key, word, lead) && PlainWord(value) && Spells(rest, tail, after)
    ensures Spells(Line(lead + value, rest), Pair(word, Word(value), tail), after)
  {
    SpellsPair(key, value, rest, tail, after);
    LeadText(key, lead, value);
    SpellsIndented(key + ": " + value, rest, Pair(word, Word(value), tail), after);
  }

  lemma IndentedQuotedPair(key: string, word: string, lead: string, value: string, rest: string, tail: Outline,
                           after: Result<seq<Token>, Malformed>)
    requires Leads(key, word, lead) && Spells(rest, tail, after)
    ensures Spells(Line(lead + Quote(value), rest), Pair(word, Quoted(Escape(value)), tail), after)
  {
    SpellsQuotedPair(key, value, rest, tail, after);
    LeadText(key, lead, Quote(value));
    SpellsIndented(key + ": " + Quote(value), rest, Pair(word, Quoted(Escape(value)), tail), after);
  }

  // ----- The parts -----

  /** The two listener lines. */
  lemma ListenersSpell(native: string, monitor: string, rest: string, tail: Outline,
                       after: Result<seq<Token>, Malformed>)
    requires PlainWord(native) && PlainWord(monitor) && Spells(rest, tail, after)
    ensures Spells(Line("listen: " + native, Line("http: " + monitor, rest)),
                   Pair("listen:", Word(native), Pair("http:", Word(monitor), tail)), after)
  {
    assert "http" + ":" == "http:" && "http" + ": " == "http: ";
    SpellsPair("http", monitor, rest, tail, after);
    assert "listen" + ":" == "listen:" && "listen" + ": " == "listen: ";
    SpellsPair("listen", native, Line("http: " + monitor, rest), Pair("http:", Word(monitor), tail), after);
  }

  lemma NameSpells(name: string, rest: string, tail: Outline, after: Result<seq<Token>, Malformed>)
    requires PlainWord(name) && Spells(rest, tail, after)
    ensures Spells(Line("server_name: " + name, rest), Pair("server_name:", Word(name), tail), after)
  {
    assert "server_name" + ":" == "server_name:" && "server_name" + ": " == "server_name: ";
    SpellsPair("server_name", name, rest, tail, after);
  }

  lemma HeaderSpells(name: string, nativeBind: string, monitorBind: string, ports: Ports, rest: string, tail: Outline,
                     after: Result<seq<Token>, Malformed>)
    requires PlainWord(name) && PlainWord(Address(nativeBind, ports.native))
    requires PlainWord(Address(monitorBind, ports.monitor))
    requires Spells(rest, tail, after)
    ensures Spells(Header(name, nativeBind, monitorBind, ports, rest),
                   HeaderOutline(name, Address(nativeBind, ports.native), Address(monitorBind, ports.monitor), tail),
                   after)
  {
    var native, monitor := Address(nativeBind, ports.native), Address(monitorBind, ports.monitor);
    SpellsBlank(rest, tail, after);
    ListenersSpell(native, monitor, Line("", rest), tail, after);
    var text := Line("listen: " + native, Line("http: " + monitor, Line("", rest)));
    var below := Pair("listen:", Word(native), Pair("http:", Word(monitor), tail));
    SpellsBlank(text, below, after);
    NameSpells(name, Line("", text), below, after);
  }

  /** The two file settings, on lines already indented. */
  lemma TlsFilesSpell(files: TlsFiles, rest: string, after: Result<seq<Token>, Malformed>)
    requires Spells(rest, End, after)
    ensures Spells(Line("  cert_file: " + Quote(files.certificate),
                        Line("  key_file: " + Quote(files.privateKey), rest)),
                   Pair("cert_file:", Quoted(Escape(files.certificate)),
                     Pair("key_file:", Quoted(Escape(files.privateKey)), End)), after)
  {
    FileKeys();
    IndentedQuotedPair("key_file", "key_file:", "  key_file: ", files.privateKey, rest, End, after);
    IndentedQuotedPair("cert_file", "cert_file:", "  cert_file: ", files.certificate,
                       Line("  key_file: " + Quote(files.privateKey), rest),
                           Pair("key_file:", Quoted(Escape(files.privateKey)), End), after);
  }

  lemma FileKeys()
    ensures Leads("key_file", "key_file:", "  key_file: ") && Leads("cert_file", "cert_file:", "  cert_file: ")
  {
  }

  lemma TlsBlockIsTwoLines(files: TlsFiles, rest: string)
    ensures Line(TlsBlock(files), rest)
         == Line("  cert_file: " + Quote(files.certificate), Line("  key_file: " + Quote(files.privateKey), rest))
  {
    assert "\n  key_file: " == "\n" + "  key_file: ";
  }

  lemma NativeTlsSpells(tls: Option<TlsFiles>, rest: string, tail: Outline, after: Result<seq<Token>, Malformed>)
    requires Spells(rest, tail, after)
    ensures Spells(NativeTls(tls, rest), NativeTlsOutline(tls, tail), after)
  {
    if tls.Some? {
      SpellsBlank(rest, tail, after);
      SpellsClosing(Line("", rest), tail, after);
      var closing := Followed([Close] + Flatten(tail), after);
      TlsFilesSpell(tls.value, Line("}", Line("", rest)), closing);
      TlsBlockIsTwoLines(tls.value, Line("}", Line("", rest)));
      var inner := Pair("cert_file:", Quoted(Escape(tls.value.certificate)),
                     Pair("key_file:", Quoted(Escape(tls.value.privateKey)), End));
      assert "tls" + " {" == "tls {";
      SpellsBlock("tls", Line(TlsBlock(tls.value), Line("}", Line("", rest))), inner, tail, after);
    }
  }

  lemma AuthorizationSpells(rest: string, tail: Outline, after: Result<seq<Token>, Malformed>)
    requires Spells(rest, tail, after)
    ensures Spells(Authorization(rest), AuthorizationOutline(tail), after)
  {
    SpellsBlank(rest, tail, after);
    SpellsClosing(Line("", rest), tail, after);
    var closing := Followed([Close] + Flatten(tail), after);
    var close := Line("}", Line("", rest));
    TimeoutSpells(close, closing);
    var body := Line("  timeout: \"5s\"", close);
    CommentsAreSkipped(body);
    assert "authorization" + " {" == "authorization {";
    SpellsBlock("authorization", Line(COMMENT_1, Line(COMMENT_2, body)), Pair("timeout:", Quoted("5s"), End), tail,
                after);
  }

  lemma TimeoutSpells(rest: string, after: Result<seq<Token>, Malformed>)
    requires Spells(rest, End, after)
    ensures Spells(Line("  timeout: \"5s\"", rest), Pair("timeout:", Quoted("5s"), End), after)
  {
    assert "timeout" + ":" == "timeout:" && "timeout" + ": " == "timeout: ";
    EscapeOfFiveSeconds();
    SpellsQuotedPair("timeout", "5s", rest, End, after);
    SpellsIndented("timeout: " + Quote("5s"), rest, Pair("timeout:", Quoted("5s"), End), after);
    assert "  " + ("timeout: " + Quote("5s")) == "  timeout: \"5s\"";
  }

  lemma EscapeOfFiveSeconds()
    ensures Escape("5s") == "5s" && Quote("5s") == "\"5s\""
  {
    assert "5s"[1..] == "s" && "s"[1..] == "";
  }

  lemma CommentsAreSkipped(rest: string)
    ensures Tokens(Line(COMMENT_1, Line(COMMENT_2, rest))) == Tokens(rest)
  {
    var text1 := " Also bounds an" + " auth callout." + " Right after a" + " restart, a" + " client can" + " reach the";
    var text2 := " broker before" + " the runtime" + " answers" + " callouts; it" + " fails within" + " this and"
                 + " retries.";
    assert '\n' !in text1 && '\n' !in text2;
    CommentIsSkipped(text2, rest);
    CommentIsSkipped(text1, Line(COMMENT_2, rest));
  }

  lemma CommentIsSkipped(text: string, rest: string)
    requires '\n' !in text
    ensures Tokens(Line("  #" + text, rest)) == Tokens(rest)
  {
    assert "  #" + text == "  " + ("#" + text);
    TokensOfIndented("#" + text, rest);
    TokensOfComment("#" + text, rest);
  }

  lemma {:induction false} ReindentConcat(a: string, b: string)
    ensures Reindent(a + b) == Reindent(a) + Reindent(b)
    decreases |a|
  {
    if a == [] {
      assert a + b == b;
    } else {
      assert (a + b)[1..] == a[1..] + b;
      ReindentConcat(a[1..], b);
    }
  }

  lemma {:induction false} ReindentPlain(text: string)
    requires '\n' !in text
    ensures Reindent(text) == text
  {
    if text != [] {
      ReindentPlain(text[1..]);
      assert text == [text[0]] + text[1..];
    }
  }

  lemma {:induction false} ReindentEscape(value: string)
    ensures Reindent(Escape(value)) == Escape(Reindent(value))
    decreases |value|
  {
    if value != [] {
      ReindentEscape(value[1..]);
      var rest := Escape(value[1..]);
      if value[0] == '\n' {
        assert ("\n" + rest)[1..] == rest;
        EscapeBreak(Reindent(value[1..]));
      } else if value[0] == '"' || value[0] == '\\' {
        assert (['\\', value[0]] + rest)[1..] == [value[0]] + rest;
        assert ([value[0]] + rest)[1..] == rest;
        assert ([value[0]] + Reindent(value[1..]))[1..] == Reindent(value[1..]);
      } else {
        assert ([value[0]] + rest)[1..] == rest;
        assert ([value[0]] + Reindent(value[1..]))[1..] == Reindent(value[1..]);
      }
    }
  }

  lemma EscapeBreak(rest: string)
    ensures Escape("\n  " + rest) == "\n  " + Escape(rest)
  {
    assert (" " + rest)[1..] == rest;
    assert Escape(" " + rest) == " " + Escape(rest);
    assert ("  " + rest)[1..] == " " + rest;
    assert Escape("  " + rest) == " " + Escape(" " + rest);
    assert ("\n  " + rest)[1..] == "  " + rest;
    assert Escape("\n  " + rest) == "\n" + Escape("  " + rest);
  }

  /** Reindenting a quoted path changes the path inside: its line breaks gain two spaces. */
  lemma ReindentQuote(value: string)
    ensures Reindent(Quote(value)) == Quote(Reindent(value))
  {
    ReindentConcat("\"" + Escape(value), "\"");
    ReindentConcat("\"", Escape(value));
    ReindentPlain("\"");
    ReindentEscape(value);
  }

  lemma ReindentTlsBlock(files: TlsFiles)
    ensures Reindent(TlsBlock(files)) ==
            ("  cert_file: " + Quote(Reindent(files.certificate))) + "\n  "
            + ("  key_file: " + Quote(Reindent(files.privateKey)))
  {
    assert "\n  key_file: " == "\n" + "  key_file: ";
    ReindentSettings("  cert_file: ", files.certificate, "  key_file: ", files.privateKey);
  }

  lemma ReindentSettings(key: string, value: string, otherKey: string, otherValue: string)
    requires '\n' !in key && '\n' !in otherKey
    ensures Reindent(key + Quote(value) + ("\n" + otherKey) + Quote(otherValue))
         == (key + Quote(Reindent(value))) + "\n  " + (otherKey + Quote(Reindent(otherValue)))
  {
    ReindentFour(key, Quote(value), "\n" + otherKey, Quote(otherValue));
    ReindentPlain(key);
    ReindentQuote(value);
    ReindentQuote(otherValue);
    ReindentBreak(otherKey);
    Associate(key + Quote(Reindent(value)), "\n  ", otherKey);
    Associate(key + Quote(Reindent(value)) + "\n  ", otherKey, Quote(Reindent(otherValue)));
  }

  lemma ReindentFour(a: string, b: string, c: string, d: string)
    ensures Reindent(a + b + c + d) == Reindent(a) + Reindent(b) + Reindent(c) + Reindent(d)
  {
    ReindentConcat(a + b + c, d);
    ReindentConcat(a + b, c);
    ReindentConcat(a, b);
  }

  lemma ReindentBreak(text: string)
    requires '\n' !in text
    ensures Reindent("\n" + text) == "\n  " + text
  {
    assert ("\n" + text)[1..] == text;
    ReindentPlain(text);
  }

  lemma WebsocketTlsSpells(tls: Option<TlsFiles>, mode: WebsocketMode, rest: string,
                           after: Result<seq<Token>, Malformed>)
    requires Spells(rest, End, after)
    ensures Spells(WebsocketTls(tls, mode, rest), WebsocketTlsOutline(tls, mode), after)
  {
    if tls.Some? && mode == BrokerTls {
      BrokerTlsSpells(tls.value, rest, after);
    } else {
      assert "no_tls" + ":" == "no_tls:" && "no_tls" + ": " + "true" == "no_tls: true";
      SpellsPair("no_tls", "true", rest, End, after);
      SpellsIndented("no_tls: true", rest, Pair("no_tls:", Word("true"), End), after);
      assert "  " + "no_tls: true" == "  no_tls: true";
    }
  }

  lemma BrokerTlsSpells(files: TlsFiles, rest: string, after: Result<seq<Token>, Malformed>)
    requires Spells(rest, End, after)
    ensures Spells(Line("  tls {", Line("  " + Reindent(TlsBlock(files)), Line("  }", rest))),
                   TlsOutline(TlsFiles(Reindent(files.certificate), Reindent(files.privateKey)), End), after)
  {
    var moved := TlsFiles(Reindent(files.certificate), Reindent(files.privateKey));
    SpellsClosing(rest, End, after);
    var closing := Followed([Close] + Flatten(End), after);
    var close := Line("  }", rest);
    MovedFilesSpell(files, moved, close, closing);
    var body := Line("  " + Reindent(TlsBlock(files)), close);
    var inner := Pair("cert_file:", Quoted(Escape(moved.certificate)),
                      Pair("key_file:", Quoted(Escape(moved.privateKey)), End));
    assert "tls" + " {" == "tls {" && "  " + "tls {" == "  tls {";
    SpellsBlock("tls", body, inner, End, after);
    SpellsIndented("tls {", body, Entry(Word("tls"), Block(inner, End)), after);
  }

  lemma MovedFilesSpell(files: TlsFiles, moved: TlsFiles, rest: string, after: Result<seq<Token>, Malformed>)
    requires moved == TlsFiles(Reindent(files.certificate), Reindent(files.privateKey)) && Spells(rest, End, after)
    ensures Spells(Line("  " + Reindent(TlsBlock(files)), rest),
                   Pair("cert_file:", Quoted(Escape(moved.certificate)),
                     Pair("key_file:", Quoted(Escape(moved.privateKey)), End)), after)
  {
    var cert, key := "  cert_file: " + Quote(moved.certificate), "  key_file: " + Quote(moved.privateKey);
    var inner := Pair("key_file:", Quoted(Escape(moved.privateKey)), End);
    FileKeys();
    IndentedQuotedPair("key_file", "key_file:", "  key_file: ", moved.privateKey, rest, End, after);
    SpellsIndented(key, rest, inner, after);
    IndentedQuotedPair("cert_file", "cert_file:", "  cert_file: ", moved.certificate, Line("  " + key, rest), inner,
                       after);
    SpellsIndented(cert, Line("  " + key, rest), Pair("cert_file:", Quoted(Escape(moved.certificate)), inner), after);
    ReindentTlsBlock(files);
    MovedText(cert, key, rest);
  }

  lemma MovedText(cert: string, key: string, rest: string)
    ensures Line("  " + (cert + "\n  " + key), rest) == Line("  " + cert, Line("  " + key, rest))
  {
    assert "\n  " == "\n" + "  ";
  }

  lemma WebsocketSpells(bind: string, port: nat, tls: Option<TlsFiles>, mode: WebsocketMode, rest: string,
                        tail: Outline, after: Result<seq<Token>, Malformed>)
    requires PlainWord(Address(bind, port)) && Spells(rest, tail, after)
    ensures Spells(WebsocketBlock(bind, port, tls, mode, rest), WebsocketOutline(Address(bind, port), tls, mode, tail),
                   after)
  {
    SpellsBlank(rest, tail, after);
    SpellsClosing(Line("", rest), tail, after);
    var closing := Followed([Close] + Flatten(tail), after);
    var close := Line("}", Line("", rest));
    WebsocketTlsSpells(tls, mode, close, closing);
    var text := WebsocketTls(tls, mode, close);
    var inner := Pair("listen:", Word(Address(bind, port)), WebsocketTlsOutline(tls, mode));
    SocketKeys();
    IndentedPair("listen", "listen:", "  listen: ", Address(bind, port), text, WebsocketTlsOutline(tls, mode), closing);
    SpellsBlock("websocket", Line("  listen: " + Address(bind, port), text), inner, tail, after);
  }

  lemma SocketKeys()
    ensures Leads("listen", "listen:", "  listen: ") && PlainWord("websocket") && "websocket {" == "websocket" + " {"
  {
  }

  /** A store directory is written plainly or quoted. */
  ghost predicate StoreText(store: string, token: Token) {
    (PlainWord(store) && token == Word(store))
    || (token.Quoted? && exists dir :: store == Quote(dir) && token.text == Escape(dir))
  }

  lemma JetstreamKey()
    ensures PlainWord("jetstream") && "jetstream {" == "jetstream" + " {"
  {
  }

  lemma JetstreamSpells(store: string, token: Token, rest: string, tail: Outline, after: Result<seq<Token>, Malformed>)
    requires StoreText(store, token) && Spells(rest, tail, after)
    ensures Spells(Jetstream(store, rest), JetstreamOutline(token, tail), after)
  {
    SpellsBlank(rest, tail, after);
    SpellsClosing(Line("", rest), tail, after);
    var closing := Followed([Close] + Flatten(tail), after);
    var close := Line("}", Line("", rest));
    StoreSpells(store, token, close, closing);
    JetstreamKey();
    SpellsBlock("jetstream", Line("  store_dir: " + store, close), Pair("store_dir:", token, End), tail, after);
  }

  lemma StoreSpells(store: string, token: Token, rest: string, after: Result<seq<Token>, Malformed>)
    requires StoreText(store, token) && Spells(rest, End, after)
    ensures Spells(Line("  store_dir: " + store, rest), Pair("store_dir:", token, End), after)
  {
    StoreKey();
    if token.Word? {
      IndentedPair("store_dir", "store_dir:", "  store_dir: ", store, rest, End, after);
    } else {
      var dir :| store == Quote(dir) && token.text == Escape(dir);
      IndentedQuotedPair("store_dir", "store_dir:", "  store_dir: ", dir, rest, End, after);
    }
  }

  lemma StoreKey()
    ensures Leads("store_dir", "store_dir:", "  store_dir: ")
  {
  }

  lemma TemplateSpells(name: string, nativeBind: string, monitorBind: string, websocketBind: string, ports: Ports,
                       tls: Option<TlsFiles>, mode: WebsocketMode, store: string, token: Token, accounts: string)
    requires PlainWord(name) && StoreText(store, token)
    requires PlainWord(Address(nativeBind, ports.native)) && PlainWord(Address(monitorBind, ports.monitor))
    requires PlainWord(Address(websocketBind, ports.websocket))
    ensures Spells(Template(name, nativeBind, monitorBind, websocketBind, ports, tls, mode, store, accounts),
                   TemplateOutline(name, Address(nativeBind, ports.native), Address(monitorBind, ports.monitor),
                                   Address(websocketBind, ports.websocket), tls, mode, token),
                   Tokens(accounts))
  {
    var after := Tokens(accounts);
    FollowedNothing(after);
    JetstreamSpells(store, token, accounts, End, after);
    var text1, tail1 := Jetstream(store, accounts), JetstreamOutline(token, End);
    WebsocketSpells(websocketBind, ports.websocket, tls, mode, text1, tail1, after);
    var text2 := WebsocketBlock(websocketBind, ports.websocket, tls, mode, text1);
    var tail2 := WebsocketOutline(Address(websocketBind, ports.websocket), tls, mode, tail1);
    AuthorizationSpells(text2, tail2, after);
    NativeTlsSpells(tls, Authorization(text2), AuthorizationOutline(tail2), after);
    HeaderSpells(name, nativeBind, monitorBind, ports, NativeTls(tls, Authorization(text2)),
                 NativeTlsOutline(tls, AuthorizationOutline(tail2)), after);
  }

  // ----- What the template declares -----

  /** A key without separators. */
  predicate PlainKey(k: string) {
    k != [] && forall i :: 0 <= i < |k| ==> !IsSeparator(k[i])
  }

  lemma {:induction false} KeyLengthOf(k: string, rest: string)
    requires forall i :: 0 <= i < |k| ==> !IsSeparator(k[i])
    requires rest == [] || IsSeparator(rest[0])
    ensures KeyLength(k + rest) == |k|
    decreases |k|
  {
    if k == [] {
      assert k + rest == rest;
    } else {
      assert (k + rest)[1..] == k[1..] + rest;
      KeyLengthOf(k[1..], rest);
    }
  }

  /** `key` and `key:` both name the key and carry no value of their own. */
  lemma KeysOf(k: string)
    requires PlainKey(k)
    ensures Key(k) == k && Inline(k) == [] && !Detached(Word(k))
    ensures Key(k + ":") == k && Inline(k + ":") == [] && !Detached(Word(k + ":"))
  {
    KeyLengthOf(k, []);
    assert k + [] == k;
    KeyLengthOf(k, ":");
    assert (k + ":")[0] == k[0];
  }

  /** An entry whose key declares nothing and opens no websocket block. */
  lemma InertEntry(k: string, rest: Outline, scope: Scope)
    requires PlainKey(k) && Declares(k, scope).None?
    requires (k == "websocket" ==> scope != Top || !SkipDetached(rest).Block?)
    ensures Declarations(Entry(Word(k), rest), scope) == Declarations(rest, scope)
    ensures Declarations(Entry(Word(k + ":"), rest), scope) == Declarations(rest, scope)
  {
    KeysOf(k);
  }

  lemma ListenerPair(k: string, value: Token, rest: Outline, scope: Scope, listener: Listener)
    requires PlainKey(k) && Declares(k, scope) == Some(listener)
    requires (value.Word? || value.Quoted?) && !Detached(value)
    ensures Declarations(Pair(k + ":", value, rest), scope)
         == Before([Declaration(listener, value.text)], Declarations(rest, scope))
  {
    KeysOf(k);
  }
}
