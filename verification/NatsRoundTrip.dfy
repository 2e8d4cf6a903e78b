/** Parsing a rendered configuration returns the rendered ports. */
module NatsRoundTrip {
  import opened Wrappers
  import opened Decimal
  import opened NatsTokens
  import opened NatsListeners
  import opened NatsRender

  // ----- Server names -----

  predicate IsSlugChar(c: char) {
    'a' <= c <= 'z' || IsDigit(c) || c == '-'
  }

  /** Lower-case alphanumerics separated by single hyphens. */
  predicate IsSlug(s: string) {
    && s != []
    && (forall i :: 0 <= i < |s| ==> IsSlugChar(s[i]))
    && s[0] != '-' && s[|s| - 1] != '-'
    && forall i :: 0 <= i < |s| - 1 ==> !(s[i] == '-' && s[i + 1] == '-')
  }

  predicate IsAlphanumeric(c: char) {
    'a' <= c <= 'z' || 'A' <= c <= 'Z' || IsDigit(c)
  }

  function ToLower(c: char): char {
    if 'A' <= c <= 'Z' then c + 32 as char else c
  }

  /** What the slug loop has collected before the trailing hyphen is dropped. */
  predicate SlugSoFar(s: string) {
    && (forall i :: 0 <= i < |s| ==> IsSlugChar(s[i]))
    && (s != [] ==> s[0] != '-')
    && forall i :: 0 <= i < |s| - 1 ==> !(s[i] == '-' && s[i + 1] == '-')
  }

  /** The slug without its fallback: runs of other characters become one inner hyphen. */
  function SlugLoop(name: string, slug: string): string
    decreases |name|
  {
    if name == [] then slug
    else
      var c := ToLower(name[0]);
      if IsAlphanumeric(c) then SlugLoop(name[1..], slug + [c])
      else if slug != [] && slug[|slug| - 1] != '-' then SlugLoop(name[1..], slug + ['-'])
      else SlugLoop(name[1..], slug)
  }

  function DropTrailingHyphens(s: string): (r: string)
    ensures r <= s && (r != [] ==> r[|r| - 1] != '-')
    ensures s != [] && s[|s| - 1] != '-' ==> r == s
  {
    if s != [] && s[|s| - 1] == '-' then DropTrailingHyphens(s[..|s| - 1]) else s
  }

  function Slug(name: string): string {
    var slug := DropTrailingHyphens(SlugLoop(name, ""));
    if slug == [] then "trellis" else slug
  }

  lemma {:induction false} SlugLoopKeepsShape(name: string, slug: string)
    requires SlugSoFar(slug)
    ensures SlugSoFar(SlugLoop(name, slug))
    decreases |name|
  {
    if name != [] {
      var c := ToLower(name[0]);
      if IsAlphanumeric(c) {
        SlugLoopKeepsShape(name[1..], slug + [c]);
      } else if slug != [] && slug[|slug| - 1] != '-' {
        SlugLoopKeepsShape(name[1..], slug + ['-']);
      } else {
        SlugLoopKeepsShape(name[1..], slug);
      }
    }
  }

  /** Every name gives a slug. */
  lemma SlugIsSlug(name: string)
    ensures IsSlug(Slug(name))
  {
    SlugLoopKeepsShape(name, "");
  }

  lemma {:induction false} SlugLoopCopies(rest: string, slug: string)
    requires SlugSoFar(slug + rest)
    ensures SlugLoop(rest, slug) == slug + rest
    decreases |rest|
  {
    if rest == [] {
      assert slug + rest == slug;
    } else {
      assert slug + rest == (slug + [rest[0]]) + rest[1..];
      assert (slug + rest)[|slug|] == rest[0];
      HyphenIsInner(slug, rest);
      SlugLoopCopies(rest[1..], slug + [rest[0]]);
    }
  }

  lemma HyphenIsInner(slug: string, rest: string)
    requires rest != [] && SlugSoFar(slug + rest)
    ensures rest[0] == '-' ==> slug != [] && slug[|slug| - 1] != '-'
  {
    var whole := slug + rest;
    assert whole[|slug|] == rest[0];
    if slug != [] {
      assert whole[|slug| - 1] == slug[|slug| - 1];
    }
  }

  /** A slug is its own slug. */
  lemma SlugIsIdempotent(name: string)
    ensures Slug(Slug(name)) == Slug(name)
  {
    SlugIsSlug(name);
    SlugOfSlug(Slug(name));
  }

  lemma SlugOfSlug(s: string)
    requires IsSlug(s)
    ensures Slug(s) == s
  {
    assert [] + s == s;
    SlugLoopCopies(s, []);
  }

  // ----- Surrounding white space -----

  ghost predicate IsSpace(space: char -> bool) {
    forall c :: space(c) ==> !IsAlphanumeric(ToLower(c))
  }

  function Trim(name: string, space: char -> bool): string {
    if name != [] && space(name[0]) then Trim(name[1..], space)
    else if name != [] && space(name[|name| - 1]) then Trim(name[..|name| - 1], space)
    else name
  }

  function Separated(slug: string): string {
    if slug != [] && slug[|slug| - 1] != '-' then slug + ['-'] else slug
  }

  lemma {:induction false} SlugLoopEndsSeparated(name: string, c: char, slug: string)
    requires !IsAlphanumeric(ToLower(c))
    ensures SlugLoop(name + [c], slug) == Separated(SlugLoop(name, slug))
    decreases |name|
  {
    if name == [] {
      assert name + [c] == [c];
    } else {
      var rest := name[1..];
      assert (name + [c])[1..] == rest + [c];
      SlugLoopEndsSeparated(rest, c, slug + [ToLower(name[0])]);
      SlugLoopEndsSeparated(rest, c, slug + ['-']);
      SlugLoopEndsSeparated(rest, c, slug);
    }
  }

  lemma SeparatorIsDropped(slug: string)
    ensures DropTrailingHyphens(Separated(slug)) == DropTrailingHyphens(slug)
  {
    assert (slug + ['-'])[..|slug|] == slug;
  }

  /** White space around a name leaves no trace in its slug. */
  lemma {:induction false} TrimIsInvisible(name: string, space: char -> bool)
    requires IsSpace(space)
    ensures Slug(Trim(name, space)) == Slug(name)
    decreases |name|
  {
    if name != [] && space(name[0]) {
      TrimIsInvisible(name[1..], space);
    } else if name != [] && space(name[|name| - 1]) {
      var front, last := name[..|name| - 1], name[|name| - 1];
      TrimIsInvisible(front, space);
      assert name == front + [last];
      SlugLoopEndsSeparated(front, last, "");
      SeparatorIsDropped(SlugLoop(front, ""));
    }
  }

  /** The slug loop as it runs over the trimmed name, with its flag for the previous separator. */
  method SlugFromName(whole: string, space: char -> bool) returns (slug: string)
    requires IsSpace(space)
    ensures slug == Slug(whole)
    ensures IsSlug(slug)
  {
    var name := Trim(whole, space);
    TrimIsInvisible(whole, space);
    slug := "";
    var previousWasSeparator := false;
    var i := 0;
    assert name[0..] == name;
    while i < |name|
      invariant 0 <= i <= |name|
      invariant slug != [] ==> (previousWasSeparator <==> slug[|slug| - 1] == '-')
      invariant SlugLoop(name[i..], slug) == SlugLoop(name, "")
    {
      assert name[i..][1..] == name[i + 1..];
      var c := ToLower(name[i]);
      if IsAlphanumeric(c) {
        slug := slug + [c];
        previousWasSeparator := false;
      } else if slug != [] && !previousWasSeparator {
        slug := slug + ['-'];
        previousWasSeparator := true;
      }
      i := i + 1;
    }
    assert name[i..] == [];
    while slug != [] && slug[|slug| - 1] == '-'
      invariant DropTrailingHyphens(slug) == DropTrailingHyphens(SlugLoop(name, ""))
    {
      slug := slug[..|slug| - 1];
    }
    if slug == [] {
      slug := "trellis";
    }
    SlugIsSlug(name);
  }

  lemma SlugIsPlain(name: string)
    requires IsSlug(name)
    ensures PlainWord(name) && PlainKey(name)
  {
  }

  // ----- Addresses -----

  predicate ValidPorts(p: Ports) {
    0 < p.native <= 65535 && 0 < p.monitor <= 65535 && 0 < p.websocket <= 65535
  }

  lemma AddressIsPlain(bind: string, port: nat)
    requires IsBind(bind)
    ensures PlainWord(Address(bind, port)) && !Detached(Word(Address(bind, port)))
  {
    var a := Address(bind, port);
    forall i | 0 <= i < |a|
      ensures IsDigit(a[i]) || a[i] == '.' || a[i] == ':'
    {
    }
    assert a[0] == bind[0];
  }

  /** The address a renderer writes is read back as its port. */
  lemma AddressHasPort(bind: string, port: nat, ipv6: string -> bool)
    requires IsBind(bind) && 0 < port <= 65535
    ensures ParsePort(Address(bind, port), ipv6) == Some(port)
  {
    var a := Address(bind, port);
    OnlyColon(bind, Digits(port));
    assert a[0] == bind[0];
    assert a[..|bind|] == bind && a[|bind| + 1..] == Digits(port);
    ValueOfDigits(port);
  }

  lemma {:induction false} OnlyColon(host: string, port: string)
    requires ':' !in port
    ensures LastColon(host + ":" + port) == Some(|host|)
    decreases |port|
  {
    var a := host + ":" + port;
    if port == [] {
      assert a == host + ":";
    } else {
      assert a[..|a| - 1] == host + ":" + port[..|port| - 1];
      OnlyColon(host, port[..|port| - 1]);
    }
  }

  // ----- What the template declares -----

  lemma InertBlock(k: string, inner: Outline, tail: Outline, scope: Scope)
    requires PlainKey(k) && Declares(k, scope).None? && (k == "websocket" ==> scope != Top)
    ensures Declarations(Entry(Word(k), Block(inner, tail)), scope) == Declarations(tail, scope)
  {
    InertEntry(k, Block(inner, tail), scope);
  }

  lemma WebsocketTlsDeclaresNothing(tls: Option<TlsFiles>, mode: WebsocketMode)
    ensures Declarations(WebsocketTlsOutline(tls, mode), InWebsocket) == Some([])
  {
    if tls.Some? && mode == BrokerTls {
      var TlsFiles(c, p) := tls.value;
      var inner := Pair("cert_file:", Quoted(Escape(Reindent(c))), Pair("key_file:", Quoted(Escape(Reindent(p))), End));
      InertBlock("tls", inner, End, InWebsocket);
    } else {
      assert "no_tls" + ":" == "no_tls:";
      InertEntry("true", End, InWebsocket);
      InertEntry("no_tls", Entry(Word("true"), End), InWebsocket);
    }
  }

  lemma WebsocketKeyOpens(k: string, inner: Outline, tail: Outline, ds: seq<Declaration>)
    requires k == "websocket" && PlainKey(k) && Declarations(inner, InWebsocket) == Some(ds)
    ensures Declarations(Entry(Word(k), Block(inner, tail)), Top) == Before(ds, Declarations(tail, Top))
  {
    KeysOf(k);
  }

  lemma WebsocketDeclares(address: string, tls: Option<TlsFiles>, mode: WebsocketMode, tail: Outline)
    requires !Detached(Word(address))
    ensures Declarations(WebsocketOutline(address, tls, mode, tail), Top)
         == Before([Declaration(Websocket, address)], Declarations(tail, Top))
  {
    WebsocketTlsDeclaresNothing(tls, mode);
    PlainSocketKeys();
    SocketDeclares("websocket", "listen", "listen:", address, WebsocketTlsOutline(tls, mode), tail);
  }

  lemma PlainSocketKeys()
    ensures PlainKey("websocket") && PlainKey("listen") && "listen:" == "listen" + ":"
  {
  }

  lemma SocketDeclares(socket: string, k: string, word: string, address: string, inside: Outline, tail: Outline)
    requires socket == "websocket" && PlainKey(socket) && k == "listen" && word == k + ":" && PlainKey(k)
    requires !Detached(Word(address)) && Declarations(inside, InWebsocket) == Some([])
    ensures Declarations(Entry(Word(socket), Block(Pair(word, Word(address), inside), tail)), Top)
         == Before([Declaration(Websocket, address)], Declarations(tail, Top))
  {
    WebsocketInside(k, word, address, inside);
    WebsocketKeyOpens(socket, Pair(word, Word(address), inside), tail, [Declaration(Websocket, address)]);
  }

  lemma WebsocketInside(k: string, word: string, address: string, inside: Outline)
    requires k == "listen" && word == k + ":" && PlainKey(k)
    requires !Detached(Word(address)) && Declarations(inside, InWebsocket) == Some([])
    ensures Declarations(Pair(word, Word(address), inside), InWebsocket) == Some([Declaration(Websocket, address)])
  {
    ListenerPair(k, Word(address), inside, InWebsocket, Websocket);
    assert [Declaration(Websocket, address)] + [] == [Declaration(Websocket, address)];
  }

  lemma JetstreamDeclaresNothing(store: Token, tail: Outline)
    ensures Declarations(JetstreamOutline(store, tail), Top) == Declarations(tail, Top)
  {
    InertBlock("jetstream", Pair("store_dir:", store, End), tail, Top);
  }

  lemma AuthorizationDeclaresNothing(tail: Outline)
    ensures Declarations(AuthorizationOutline(tail), Top) == Declarations(tail, Top)
  {
    InertBlock("authorization", Pair("timeout:", Quoted("5s"), End), tail, Top);
  }

  lemma NativeTlsDeclaresNothing(tls: Option<TlsFiles>, tail: Outline)
    ensures Declarations(NativeTlsOutline(tls, tail), Top) == Declarations(tail, Top)
  {
    if tls.Some? {
      var TlsFiles(c, p) := tls.value;
      InertBlock("tls", Pair("cert_file:", Quoted(Escape(c)), Pair("key_file:", Quoted(Escape(p)), End)), tail, Top);
    }
  }

  /** The part of the template after its header. */
  function Body(address: string, tls: Option<TlsFiles>, mode: WebsocketMode, store: Token): Outline {
    NativeTlsOutline(tls, AuthorizationOutline(WebsocketOutline(address, tls, mode, JetstreamOutline(store, End))))
  }

  /** It declares the WebSocket listener only. */
  lemma BodyDeclares(address: string, tls: Option<TlsFiles>, mode: WebsocketMode, store: Token)
    requires !Detached(Word(address))
    ensures Declarations(Body(address, tls, mode, store), Top) == Some([Declaration(Websocket, address)])
  {
    var stream := JetstreamOutline(store, End);
    JetstreamDeclaresNothing(store, End);
    WebsocketDeclares(address, tls, mode, stream);
    var socket := WebsocketOutline(address, tls, mode, stream);
    AuthorizationDeclaresNothing(socket);
    NativeTlsDeclaresNothing(tls, AuthorizationOutline(socket));
    assert [Declaration(Websocket, address)] + [] == [Declaration(Websocket, address)];
  }

  lemma HeaderDeclares(name: string, native: string, monitor: string, tail: Outline)
    requires PlainKey(name) && name != "listen" && name != "http"
    requires !Detached(Word(native)) && !Detached(Word(monitor))
    ensures Declarations(HeaderOutline(name, native, monitor, tail), Top)
         == Before([Declaration(Native, native)], Before([Declaration(Monitor, monitor)], Declarations(tail, Top)))
  {
    assert "http" + ":" == "http:" && "listen" + ":" == "listen:" && "server_name" + ":" == "server_name:";
    KeysDeclare("server_name", "listen", "http", name, native, monitor, tail);
  }

  lemma KeysDeclare(first: string, second: string, third: string, name: string, native: string, monitor: string,
                    tail: Outline)
    requires PlainKey(first) && Declares(first, Top).None? && first != "websocket"
    requires PlainKey(second) && Declares(second, Top) == Some(Native)
    requires PlainKey(third) && Declares(third, Top) == Some(Monitor)
    requires PlainKey(name) && Declares(name, Top).None?
    requires !Detached(Word(native)) && !Detached(Word(monitor))
    ensures Declarations(Pair(first + ":", Word(name),
                              Pair(second + ":", Word(native), Pair(third + ":", Word(monitor), tail))), Top)
         == Before([Declaration(Native, native)], Before([Declaration(Monitor, monitor)], Declarations(tail, Top)))
  {
    ListenerPair(third, Word(monitor), tail, Top, Monitor);
    ListenerPair(second, Word(native), Pair(third + ":", Word(monitor), tail), Top, Native);
    NamePair(first, name, second, Entry(Word(native), Pair(third + ":", Word(monitor), tail)));
  }

  /** The server name is read as a key, which declares nothing before another key. */
  lemma NamePair(k: string, name: string, nextKey: string, rest: Outline)
    requires PlainKey(k) && Declares(k, Top).None? && k != "websocket"
    requires PlainKey(name) && Declares(name, Top).None? && PlainKey(nextKey)
    ensures Declarations(Pair(k + ":", Word(name), Entry(Word(nextKey + ":"), rest)), Top)
         == Declarations(Entry(Word(nextKey + ":"), rest), Top)
  {
    KeysOf(nextKey);
    InertEntry(name, Entry(Word(nextKey + ":"), rest), Top);
    InertEntry(k, Entry(Word(name), Entry(Word(nextKey + ":"), rest)), Top);
  }

  /** A server named like a top-level listener key takes the next word as its value. */
  lemma ListenerNameFails(k: string, name: string, next: string, rest: seq<Token>, listener: Listener,
                          portOf: string -> Option<nat>)
    requires PlainKey(k) && Declares(k, Top).None? && k != "websocket"
    requires PlainKey(name) && Declares(name, Top) == Some(listener) && name != "websocket"
    requires portOf(next).None? && !Detached(Word(next))
    ensures Run(Initial(NOTHING), [Word(k + ":"), Word(name), Word(next)] + rest, portOf).Err?
  {
    var st, waiting := Initial(NOTHING), Initial(NOTHING).(pendingValue := Some(listener));
    StepIgnoresKey(st, k, portOf);
    StepAwaitsValue(st, name, listener, portOf);
    StepRejectsValue(waiting, next, portOf);
    RunThree(st, Word(k + ":"), Word(name), Word(next), rest, portOf);
  }

  lemma StepIgnoresKey(st: State, k: string, portOf: string -> Option<nat>)
    requires st == Initial(NOTHING) && PlainKey(k) && Declares(k, Top).None? && k != "websocket"
    ensures Step(st, Word(k + ":"), portOf) == Ok(st)
  {
    KeysOf(k);
  }

  lemma StepAwaitsValue(st: State, name: string, listener: Listener, portOf: string -> Option<nat>)
    requires st == Initial(NOTHING) && PlainKey(name) && Declares(name, Top) == Some(listener) && name != "websocket"
    ensures Step(st, Word(name), portOf) == Ok(st.(pendingValue := Some(listener)))
  {
    KeysOf(name);
  }

  lemma StepRejectsValue(st: State, next: string, portOf: string -> Option<nat>)
    requires st.pendingValue.Some? && portOf(next).None? && !Detached(Word(next))
    ensures Step(st, Word(next), portOf).Err?
  {
  }

  lemma RunThree(st: State, a: Token, b: Token, c: Token, rest: seq<Token>, portOf: string -> Option<nat>)
    requires Step(st, a, portOf) == Ok(st) && Step(st, b, portOf).Ok? && Step(Step(st, b, portOf).value, c, portOf).Err?
    ensures Run(st, [a, b, c] + rest, portOf).Err?
  {
    assert [a, b, c] + rest == [a] + ([b] + ([c] + rest));
    RunCons(st, a, [b] + ([c] + rest), portOf);
    RunCons(st, b, [c] + rest, portOf);
    RunCons(Step(st, b, portOf).value, c, rest, portOf);
  }

  // ----- The round trip -----

  /** The accounts text is balanced and declares no listener of its own. */
  ghost predicate DeclaresNothing(accounts: string) {
    Tokens(accounts).Ok? && exists o ::
      Proper(o) && Flatten(o) == Tokens(accounts).value && Declarations(o, Top) == Some([])
  }

  predicate Full(f: Found) {
    f.native.Some? && f.monitor.Some? && f.websocket.Some?
  }

  /** Once all three listeners are known, the rest must declare none. */
  lemma FullAcceptsNothingMore(f: Found, accounts: string, portOf: string -> Option<nat>)
    requires Full(f)
    ensures Tokens(accounts).Ok? ==>
              var r := Complete(Run(Initial(f), Tokens(accounts).value, portOf));
              (r.Ok? <==> DeclaresNothing(accounts)) && (r.Ok? ==> r.value == f)
  {
    if Tokens(accounts).Ok? {
      var tokens := Tokens(accounts).value;
      var r := Complete(Run(Initial(f), tokens, portOf));
      if r.Ok? {
        PassAgreesWithReading(f, tokens, r.value, portOf);
        var o :| OutlineReads(f, o, tokens, r.value, portOf);
        FullRejectsMore(f, Declarations(o, Top).value, portOf);
      }
      if DeclaresNothing(accounts) {
        var o :| Proper(o) && Flatten(o) == tokens && Declarations(o, Top) == Some([]);
        assert OutlineReads(f, o, tokens, f, portOf);
        PassAgreesWithReading(f, tokens, f, portOf);
      }
    }
  }

  lemma FullRejectsMore(f: Found, ds: seq<Declaration>, portOf: string -> Option<nat>)
    requires Full(f)
    ensures ds != [] ==> RecordAll(f, ds, portOf).Err?
  {
    if ds != [] {
      assert Slot(f, ds[0].listener).Some?;
    }
  }

  lemma {:induction false} RunEndsAfterClose(st: State, tokens: seq<Token>, portOf: string -> Option<nat>)
    requires tokens != [] && tokens[|tokens| - 1] == Close && Run(st, tokens, portOf).Ok?
    ensures !Run(st, tokens, portOf).value.pendingBlock
  {
    var front := tokens[..|tokens| - 1];
    assert tokens == front + [Close];
    RunConcat(st, front, [Close], portOf);
    RunCons(Run(st, front, portOf).value, Close, [], portOf);
    assert [Close] + [] == [Close];
  }

  /** An outline that ends with a closing brace. */
  predicate EndsClosed(o: Outline) {
    Proper(o) && Flatten(o) != [] && Flatten(o)[|Flatten(o)| - 1] == Close
  }

  lemma BlockEndsClosed(k: string, inner: Outline, tail: Outline)
    requires Proper(inner) && (tail == End || EndsClosed(tail))
    ensures EndsClosed(Entry(Word(k), Block(inner, tail)))
  {
    var o := Block(inner, tail);
    assert Proper(o);
    assert Flatten(o) == [Open] + Flatten(inner) + [Close] + Flatten(tail);
    if tail == End {
      assert Flatten(o) == [Open] + Flatten(inner) + [Close];
    } else {
      assert Flatten(o)[|Flatten(o)| - 1] == Flatten(tail)[|Flatten(tail)| - 1];
    }
  }

  lemma PairIsProper(key: string, value: Token, tail: Outline)
    requires (value.Word? || value.Quoted?) && Proper(tail)
    ensures Proper(Pair(key, value, tail)) && Flatten(Pair(key, value, tail)) == [Word(key), value] + Flatten(tail)
  {
    assert Flatten(Entry(value, tail)) == [value] + Flatten(tail);
  }

  lemma PairEndsClosed(key: string, value: Token, tail: Outline)
    requires (value.Word? || value.Quoted?) && EndsClosed(tail)
    ensures EndsClosed(Pair(key, value, tail))
  {
    PairIsProper(key, value, tail);
  }

  lemma TlsIsProper(certificate: string, privateKey: string)
    ensures Proper(Pair("cert_file:", Quoted(certificate), Pair("key_file:", Quoted(privateKey), End)))
  {
    PairIsProper("key_file:", Quoted(privateKey), End);
    PairIsProper("cert_file:", Quoted(certificate), Pair("key_file:", Quoted(privateKey), End));
  }

  lemma BodyEndsClosed(address: string, tls: Option<TlsFiles>, mode: WebsocketMode, store: Token)
    requires store.Word? || store.Quoted?
    ensures EndsClosed(Body(address, tls, mode, store))
  {
    var stream := JetstreamOutline(store, End);
    BlockEndsClosed("jetstream", Pair("store_dir:", store, End), End);
    WebsocketTlsIsProper(tls, mode);
    BlockEndsClosed("websocket", Pair("listen:", Word(address), WebsocketTlsOutline(tls, mode)), stream);
    var socket := WebsocketOutline(address, tls, mode, stream);
    BlockEndsClosed("authorization", Pair("timeout:", Quoted("5s"), End), socket);
    if tls.Some? {
      var TlsFiles(c, p) := tls.value;
      TlsIsProper(Escape(c), Escape(p));
      BlockEndsClosed("tls", Pair("cert_file:", Quoted(Escape(c)), Pair("key_file:", Quoted(Escape(p)), End)),
                      AuthorizationOutline(socket));
    }
  }

  lemma WebsocketTlsIsProper(tls: Option<TlsFiles>, mode: WebsocketMode)
    ensures Proper(WebsocketTlsOutline(tls, mode))
  {
    if tls.Some? && mode == BrokerTls {
      var TlsFiles(c, p) := tls.value;
      TlsIsProper(Escape(Reindent(c)), Escape(Reindent(p)));
      BlockEndsClosed("tls", Pair("cert_file:", Quoted(Escape(Reindent(c))),
                                  Pair("key_file:", Quoted(Escape(Reindent(p))), End)), End);
    }
  }

  /** What the pass knows after an outline with these three declarations that ends with a block. */
  lemma DeclaredRun(o: Outline, native: string, monitor: string, websocket: string, ports: Ports,
                    portOf: string -> Option<nat>)
    requires EndsClosed(o)
    requires Declarations(o, Top)
          == Some([Declaration(Native, native), Declaration(Monitor, monitor), Declaration(Websocket, websocket)])
    requires portOf(native) == Some(ports.native) && portOf(monitor) == Some(ports.monitor)
    requires portOf(websocket) == Some(ports.websocket)
    ensures Run(Initial(NOTHING), Flatten(o), portOf) == Ok(Initial(AllPortsFound(ports)))
  {
    RunFollowsReading(Initial(NOTHING), o, Top, portOf);
    RecordThree(Declarations(o, Top).value, ports, portOf);
    RunEndsAfterClose(Initial(NOTHING), Flatten(o), portOf);
  }

  function AllPortsFound(ports: Ports): Found {
    Found(Some(ports.native), Some(ports.monitor), Some(ports.websocket))
  }

  lemma TemplateRun(name: string, native: string, monitor: string, websocket: string, ports: Ports,
                    tls: Option<TlsFiles>, mode: WebsocketMode, store: Token, portOf: string -> Option<nat>)
    requires PlainKey(name) && name != "listen" && name != "http" && (store.Word? || store.Quoted?)
    requires !Detached(Word(native)) && !Detached(Word(monitor)) && !Detached(Word(websocket))
    requires portOf(native) == Some(ports.native) && portOf(monitor) == Some(ports.monitor)
    requires portOf(websocket) == Some(ports.websocket)
    ensures Run(Initial(NOTHING), Flatten(TemplateOutline(name, native, monitor, websocket, tls, mode, store)), portOf)
         == Ok(Initial(AllPortsFound(ports)))
  {
    var body := Body(websocket, tls, mode, store);
    BodyEndsClosed(websocket, tls, mode, store);
    BodyDeclares(websocket, tls, mode, store);
    HeaderRun(name, native, monitor, websocket, ports, body, portOf);
  }

  lemma HeaderRun(name: string, native: string, monitor: string, websocket: string, ports: Ports, body: Outline,
                  portOf: string -> Option<nat>)
    requires PlainKey(name) && name != "listen" && name != "http" && EndsClosed(body)
    requires Declarations(body, Top) == Some([Declaration(Websocket, websocket)])
    requires !Detached(Word(native)) && !Detached(Word(monitor))
    requires portOf(native) == Some(ports.native) && portOf(monitor) == Some(ports.monitor)
    requires portOf(websocket) == Some(ports.websocket)
    ensures Run(Initial(NOTHING), Flatten(HeaderOutline(name, native, monitor, body)), portOf) ==
              Ok(Initial(AllPortsFound(ports)))
  {
    HeaderDeclares(name, native, monitor, body);
    PairEndsClosed("http:", Word(monitor), body);
    PairEndsClosed("listen:", Word(native), Pair("http:", Word(monitor), body));
    PairEndsClosed("server_name:", Word(name), Pair("listen:", Word(native), Pair("http:", Word(monitor), body)));
    var d1, d2, d3 := Declaration(Native, native), Declaration(Monitor, monitor), Declaration(Websocket, websocket);
    assert [d1] + ([d2] + [d3]) == [d1, d2, d3];
    DeclaredRun(HeaderOutline(name, native, monitor, body), native, monitor, websocket, ports, portOf);
  }

  lemma ServerNameKey()
    ensures PlainKey("server_name") && Declares("server_name", Top).None? && "server_name" + ":" == "server_name:"
    ensures !Detached(Word("listen:"))
  {
    assert "listen" + ":" == "listen:";
    KeysOf("listen");
  }

  lemma ListenerKey(name: string)
    requires name == "listen" || name == "http"
    ensures PlainKey(name) && Declares(name, Top) == Some(if name == "listen" then Native else Monitor)
  {
  }

  lemma ListenerNameRun(name: string, native: string, monitor: string, body: Outline, portOf: string -> Option<nat>)
    requires name == "listen" || name == "http"
    requires portOf("listen:").None?
    ensures Run(Initial(NOTHING), Flatten(HeaderOutline(name, native, monitor, body)), portOf).Err?
  {
    var rest := [Word(native)] + Flatten(Pair("http:", Word(monitor), body));
    ServerNameKey();
    ListenerKey(name);
    ListenerNameFails("server_name", name, "listen:", rest, if name == "listen" then Native else Monitor, portOf);
    HeaderFlattens(name, native, Pair("http:", Word(monitor), body));
  }

  lemma HeaderFlattens(name: string, native: string, tail: Outline)
    ensures Flatten(Pair("server_name:", Word(name), Pair("listen:", Word(native), tail)))
         == [Word("server_name:"), Word(name), Word("listen:")] + ([Word(native)] + Flatten(tail))
  {
    var o1 := Entry(Word(native), tail);
    var o2 := Entry(Word("listen:"), o1);
    var o3 := Entry(Word(name), o2);
    assert Flatten(o2) == [Word("listen:")] + Flatten(o1);
    assert Flatten(o3) == [Word(name)] + Flatten(o2);
  }

  lemma RecordThree(ds: seq<Declaration>, ports: Ports, portOf: string -> Option<nat>)
    requires |ds| == 3 && ds[0].listener == Native && ds[1].listener == Monitor && ds[2].listener == Websocket
    requires portOf(ds[0].value) == Some(ports.native) && portOf(ds[1].value) == Some(ports.monitor)
    requires portOf(ds[2].value) == Some(ports.websocket)
    ensures RecordAll(NOTHING, ds, portOf) == Ok(Found(Some(ports.native), Some(ports.monitor), Some(ports.websocket)))
  {
    var f1 := NOTHING.(native := Some(ports.native));
    var f2 := f1.(monitor := Some(ports.monitor));
    assert ds[1..][1..] == [ds[2]] && ds[1..][0] == ds[1];
    assert RecordAll(f2, [ds[2]], portOf) == Ok(f2.(websocket := Some(ports.websocket)));
    assert RecordAll(f1, ds[1..], portOf) == RecordAll(f2, [ds[2]], portOf);
  }

  /** A server name that the parser takes for a listener key. */
  predicate NamesListener(name: string) {
    name == "listen" || name == "http"
  }

  /** The parser's run over the whole template, for every server name. */
  lemma OutlineRuns(name: string, native: string, monitor: string, websocket: string, ports: Ports,
                    tls: Option<TlsFiles>, mode: WebsocketMode, store: Token, portOf: string -> Option<nat>)
    requires PlainKey(name) && (store.Word? || store.Quoted?) && portOf("listen:").None?
    requires !Detached(Word(native)) && !Detached(Word(monitor)) && !Detached(Word(websocket))
    requires portOf(native) == Some(ports.native) && portOf(monitor) == Some(ports.monitor)
    requires portOf(websocket) == Some(ports.websocket)
    ensures var r := Run(Initial(NOTHING), Flatten(TemplateOutline(name, native, monitor, websocket, tls, mode, store)),
                         portOf);
            if NamesListener(name) then r.Err? else r == Ok(Initial(AllPortsFound(ports)))
  {
    if NamesListener(name) {
      ListenerNameRun(name, native, monitor, Body(websocket, tls, mode, store), portOf);
    } else {
      TemplateRun(name, native, monitor, websocket, ports, tls, mode, store, portOf);
    }
  }

  lemma SpelledParses(config: string, o: Outline, accounts: string, ports: Ports, named: bool, ipv6: string -> bool)
    requires Spells(config, o, Tokens(accounts))
    requires var r := Run(Initial(NOTHING), Flatten(o), PortReader(ipv6));
             if named then r == Ok(Initial(AllPortsFound(ports))) else r.Err?
    ensures ParseConfig(config, ipv6) == Ok(ports) <==> named && DeclaresNothing(accounts)
  {
    AfterTemplate(Flatten(o), accounts, ports, named, PortReader(ipv6));
  }

  /** The blocks and settings the template reads as, and the parser's run over them. */
  lemma TemplateReads(name: string, nativeBind: string, monitorBind: string, websocketBind: string, ports: Ports,
                      tls: Option<TlsFiles>, mode: WebsocketMode, store: string, token: Token, accounts: string,
                      ipv6: string -> bool) returns (o: Outline)
    requires IsSlug(name) && ValidPorts(ports) && StoreText(store, token)
    requires IsBind(nativeBind) && IsBind(monitorBind) && IsBind(websocketBind)
    ensures Spells(Template(name, nativeBind, monitorBind, websocketBind, ports, tls, mode, store, accounts), o,
                   Tokens(accounts))
    ensures var r := Run(Initial(NOTHING), Flatten(o), PortReader(ipv6));
            if !NamesListener(name) then r == Ok(Initial(AllPortsFound(ports))) else r.Err?
  {
    SlugIsPlain(name);
    AddressReads(nativeBind, ports.native, ipv6);
    AddressReads(monitorBind, ports.monitor, ipv6);
    AddressReads(websocketBind, ports.websocket, ipv6);
    KeyIsNoPort(ipv6);
    TemplateSpells(name, nativeBind, monitorBind, websocketBind, ports, tls, mode, store, token, accounts);
    var native, monitor := Address(nativeBind, ports.native), Address(monitorBind, ports.monitor);
    var websocket := Address(websocketBind, ports.websocket);
    OutlineRuns(name, native, monitor, websocket, ports, tls, mode, token, PortReader(ipv6));
    o := TemplateOutline(name, native, monitor, websocket, tls, mode, token);
  }

  lemma TemplateRoundTrip(config: string, name: string, nativeBind: string, monitorBind: string, websocketBind: string,
                          ports: Ports, tls: Option<TlsFiles>, mode: WebsocketMode, store: string, token: Token,
                          accounts: string, ipv6: string -> bool)
    requires IsSlug(name) && ValidPorts(ports) && StoreText(store, token)
    requires IsBind(nativeBind) && IsBind(monitorBind) && IsBind(websocketBind)
    requires config == Template(name, nativeBind, monitorBind, websocketBind, ports, tls, mode, store, accounts)
    ensures ParseConfig(config, ipv6) == Ok(ports) <==> !NamesListener(name) && DeclaresNothing(accounts)
  {
    var o := TemplateReads(name, nativeBind, monitorBind, websocketBind, ports, tls, mode, store, token, accounts,
                           ipv6);
    SpelledParses(config, o, accounts, ports, !NamesListener(name), ipv6);
  }

  lemma AddressReads(bind: string, port: nat, ipv6: string -> bool)
    requires IsBind(bind) && 0 < port <= 65535
    ensures PlainWord(Address(bind, port)) && !Detached(Word(Address(bind, port)))
    ensures PortReader(ipv6)(Address(bind, port)) == Some(port)
  {
    AddressIsPlain(bind, port);
    AddressHasPort(bind, port, ipv6);
  }

  lemma KeyIsNoPort(ipv6: string -> bool)
    ensures ParsePort("listen:", ipv6).None?
  {
    assert LastColon("listen:") == Some(6);
    assert "listen:"[7..] == "";
  }

  lemma AfterTemplate(prefix: seq<Token>, accounts: string, ports: Ports, named: bool, portOf: string -> Option<nat>)
    requires if named then Run(Initial(NOTHING), prefix, portOf) == Ok(Initial(AllPortsFound(ports)))
             else Run(Initial(NOTHING), prefix, portOf).Err?
    ensures var tokens := Followed(prefix, Tokens(accounts));
            (tokens.Ok? && ParseTokens(tokens.value, portOf) == Ok(ports)) <==> named && DeclaresNothing(accounts)
  {
    if Tokens(accounts).Ok? {
      RunConcat(Initial(NOTHING), prefix, Tokens(accounts).value, portOf);
      FullAcceptsNothingMore(AllPortsFound(ports), accounts, portOf);
    }
  }

  /**
   For every slug, all non-zero ports, every TLS and WebSocket mode and any quoted paths:
   the parser returns the ports of a rendered container configuration exactly when the
   server is not named like a listener key and the accounts declare no listener.
   */
  lemma RenderedConfigParses(name: string, ports: Ports, tls: Option<TlsFiles>, mode: WebsocketMode,
                             privateNetwork: bool, accounts: string, ipv6: string -> bool)
    requires IsSlug(name) && ValidPorts(ports)
    ensures ParseConfig(RenderConfig(name, ports, tls, mode, privateNetwork, accounts), ipv6) == Ok(ports)
       <==> name != "listen" && name != "http" && DeclaresNothing(accounts)
  {
    var open := tls.Some? || privateNetwork;
    assert PlainWord("/data");
    TemplateRoundTrip(RenderConfig(name, ports, tls, mode, privateNetwork, accounts), name, Bind(open), Bind(open),
                      Bind(WebsocketEverywhere(mode, open)), ports, tls, mode, "/data", Word("/data"), accounts, ipv6);
  }

  /** The same for a host configuration, whatever its store directory. */
  lemma RenderedLocalConfigParses(name: string, storeDir: string, accounts: string, ports: Ports, tls: Option<TlsFiles>,
                                  mode: WebsocketMode, ipv6: string -> bool)
    requires IsSlug(name) && ValidPorts(ports)
    ensures ParseConfig(RenderLocalConfig(name, storeDir, accounts, ports, tls, mode), ipv6) == Ok(ports)
       <==> name != "listen" && name != "http" && DeclaresNothing(accounts)
  {
    var token := Quoted(Escape(storeDir));
    assert StoreText(Quote(storeDir), token);
    TemplateRoundTrip(RenderLocalConfig(name, storeDir, accounts, ports, tls, mode), name, Bind(tls.Some?), Bind(false),
                      Bind(WebsocketEverywhere(mode, false)), ports, tls, mode, Quote(storeDir), token, accounts, ipv6);
  }
}
