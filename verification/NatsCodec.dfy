/** Encoding PUB and MSG records, and parsing them back. */
module NatsCodec {
  import opened Wrappers
  import opened NatsRecords
  import opened NatsChunking

  datatype Message =
    | PubMessage(subject: bytes, payload: bytes, reply: Option<bytes>)
    | MsgMessage(subject: bytes, sid: bytes, payload: bytes, reply: Option<bytes>)

  function DigitBytes(n: nat): (d: bytes)
    ensures d != [] && forall i :: 0 <= i < |d| ==> 48 <= d[i] < 58
  {
    if n < 10 then [48 + n] else DigitBytes(n / 10) + [48 + n % 10]
  }

  /** A reply is written only when it is present and not empty. */
  function Reply(m: Message): Option<bytes> {
    if m.reply.Some? && m.reply.value != [] then m.reply else None
  }

  function Fields(m: Message): (f: seq<bytes>)
    ensures f != []
  {
    var reply := if Reply(m).Some? then [Reply(m).value] else [];
    (match m
     case PubMessage(subject, _, _) => [PUB, subject]
     case MsgMessage(subject, sid, _, _) => [MSG, subject, sid]) + reply + [DigitBytes(|m.payload|)]
  }

  /** Fields separated by single spaces. */
  function Join(fields: seq<bytes>): bytes
    requires fields != []
  {
    if |fields| == 1 then fields[0] else fields[0] + ([SPACE] + Join(fields[1..]))
  }

  function Encode(m: Message): bytes {
    Join(Fields(m)) + (CRLF + (m.payload + CRLF))
  }

  function EncodeAll(ms: seq<Message>): bytes {
    if ms == [] then [] else Encode(ms[0]) + EncodeAll(ms[1..])
  }

  /** What the parser makes of one message. */
  function RecordOf(m: Message): Record {
    match m
    case PubMessage(subject, payload, _) => Record(Pub, Encode(m), Some(subject), Reply(m), None, Some(payload), None)
    case MsgMessage(subject, sid, payload, _) => Record(Msg, Encode(m), Some(subject), Reply(m), Some(sid),
                                                        Some(payload), None)
  }

  function RecordsOf(ms: seq<Message>): seq<Record> {
    if ms == [] then [] else [RecordOf(ms[0])] + RecordsOf(ms[1..])
  }

  /** A nonempty token without spaces or line breaks. */
  predicate GoodToken(t: bytes) {
    t != [] && SPACE !in t && CR !in t && LF !in t
  }

  predicate Sendable(m: Message) {
    && GoodToken(m.subject)
    && (m.MsgMessage? ==> GoodToken(m.sid))
    && (Reply(m).Some? ==> GoodToken(Reply(m).value))
    && |Join(Fields(m))| <= MAX_LINE_BYTES
  }

  ghost predicate ReadsDecimals(number: bytes -> JsNumber) {
    forall n: nat :: number(DigitBytes(n)) == Finite(n as real)
  }

  // ----- Control lines -----

  lemma {:induction false} WordLengthOf(w: bytes, rest: bytes)
    requires SPACE !in w && (rest == [] || rest[0] == SPACE)
    ensures WordLength(w + rest) == |w|
    decreases |w|
  {
    if w == [] {
      assert w + rest == rest;
    } else {
      assert (w + rest)[1..] == w[1..] + rest;
      WordLengthOf(w[1..], rest);
    }
  }

  lemma WordsOfFirst(w: bytes, rest: bytes)
    requires GoodToken(w) && (rest == [] || rest[0] == SPACE)
    ensures Words(w + rest) == [w] + Words(rest)
  {
    WordLengthOf(w, rest);
    assert (w + rest)[..|w|] == w && (w + rest)[|w|..] == rest;
    assert (w + rest)[0] == w[0];
  }

  predicate GoodTokens(fields: seq<bytes>) {
    forall i :: 0 <= i < |fields| ==> GoodToken(fields[i])
  }

  lemma {:induction false} WordsOfJoin(fields: seq<bytes>)
    requires fields != [] && GoodTokens(fields)
    ensures Words(Join(fields)) == fields
    decreases |fields|
  {
    assert fields == [fields[0]] + fields[1..];
    if |fields| == 1 {
      WordsOfFirst(fields[0], []);
      assert fields[0] + [] == fields[0];
    } else {
      var rest := Join(fields[1..]);
      WordsOfFirst(fields[0], [SPACE] + rest);
      assert ([SPACE] + rest)[1..] == rest;
      WordsOfJoin(fields[1..]);
    }
  }

  lemma {:induction false} JoinHasNoCr(fields: seq<bytes>)
    requires fields != [] && GoodTokens(fields)
    ensures CR !in Join(fields) && Join(fields) != []
    decreases |fields|
  {
    if |fields| > 1 {
      JoinHasNoCr(fields[1..]);
    }
  }

  lemma {:induction false} CrlfAfter(line: bytes, rest: bytes)
    requires CR !in line
    ensures IndexOfCrlf(line + (CRLF + rest)) == Some(|line|)
    decreases |line|
  {
    var b := line + (CRLF + rest);
    if line == [] {
      assert b == CRLF + rest;
    } else {
      assert b[1..] == line[1..] + (CRLF + rest);
      CrlfAfter(line[1..], rest);
    }
  }

  lemma FieldsAreGood(m: Message)
    requires Sendable(m)
    ensures GoodTokens(Fields(m))
  {
    var f := Fields(m);
    forall i | 0 <= i < |f|
      ensures GoodToken(f[i])
    {
      assert f[i] == PUB || f[i] == MSG || f[i] == m.subject || f[i] == DigitBytes(|m.payload|)
          || (m.MsgMessage? && f[i] == m.sid) || (Reply(m).Some? && f[i] == Reply(m).value);
    }
  }

  lemma SizesOfFields(m: Message)
    ensures var f := Fields(m);
            && OpOf(f) == RecordOf(m).op
            && ParseSized(OpOf(f), f)
               == Some(Sizes(m.subject, RecordOf(m).sid, Reply(m), [], DigitBytes(|m.payload|)))
  {
  }

  // ----- The round trip -----

  lemma DropFirst(a: bytes, b: bytes)
    ensures (a + b)[|a|..] == b
  {
  }

  lemma LineOfEncoded(m: Message, rest: bytes)
    requires Sendable(m)
    ensures IndexOfCrlf(Encode(m) + rest) == Some(|Join(Fields(m))|)
    ensures (Encode(m) + rest)[..|Join(Fields(m))|] == Join(Fields(m))
  {
    var line := Join(Fields(m));
    FieldsAreGood(m);
    JoinHasNoCr(Fields(m));
    assert Encode(m) + rest == line + (CRLF + (m.payload + CRLF + rest));
    CrlfAfter(line, m.payload + CRLF + rest);
  }

  lemma TakeEncoded(m: Message, rest: bytes, number: bytes -> JsNumber)
    requires Sendable(m) && ReadsDecimals(number)
    ensures TakeOne(Encode(m) + rest, number) == Taken(RecordOf(m), |Encode(m)|)
  {
    LineOfEncoded(m, rest);
    FieldsAreGood(m);
    JoinHasNoCr(Fields(m));
    WordsOfJoin(Fields(m));
    SizesOfFields(m);
    FinishEncoded(m, rest, number);
  }

  lemma FinishEncoded(m: Message, rest: bytes, number: bytes -> JsNumber)
    requires ReadsDecimals(number)
    ensures var s := Sizes(m.subject, RecordOf(m).sid, Reply(m), [], DigitBytes(|m.payload|));
            FinishSized(RecordOf(m).op, s, Encode(m) + rest, |Join(Fields(m))|, number) ==
              Taken(RecordOf(m), |Encode(m)|)
  {
    var line := Join(Fields(m));
    var end := |line|;
    var n := |m.payload|;
    var b := Encode(m) + rest;
    assert number(DigitBytes(n)) == Finite(n as real);
    assert b[..end + 4 + n] == Encode(m);
    BodyOfEncoded(line, m.payload, rest);
  }

  lemma BodyOfEncoded(line: bytes, payload: bytes, rest: bytes)
    ensures var b := line + (CRLF + (payload + CRLF)) + rest;
            var end := |line|;
            && b[end + 2..end + 2 + |payload|] == payload
            && b[end + 2 + |payload|..end + 4 + |payload|] == CRLF
  {
  }

  /**
   Any concatenation of encoded messages parses back to their subjects, sids, replies and
   payloads, in order, with nothing left over; payloads may hold any bytes.
   */
  lemma {:induction false} EncodedMessagesParse(ms: seq<Message>, number: bytes -> JsNumber)
    requires ReadsDecimals(number) && forall i :: 0 <= i < |ms| ==> Sendable(ms[i])
    ensures Parse(EncodeAll(ms), number) == Parsed(RecordsOf(ms), [], None)
    decreases |ms|
  {
    if ms != [] {
      var rest := EncodeAll(ms[1..]);
      TakeEncoded(ms[0], rest, number);
      ParseTaken(Encode(ms[0]) + rest, RecordOf(ms[0]), |Encode(ms[0])|, number);
      DropFirst(Encode(ms[0]), rest);
      EncodedMessagesParse(ms[1..], number);
    }
  }

  /** However an encoded stream is cut, the same messages arrive, when control lines are below the limit. */
  lemma EncodedMessagesArrive(ms: seq<Message>, chunks: seq<bytes>, number: bytes -> JsNumber)
    requires ReadsDecimals(number)
    requires forall i :: 0 <= i < |ms| ==> Sendable(ms[i]) && |Join(Fields(ms[i]))| < MAX_LINE_BYTES
    requires Concat(chunks) == EncodeAll(ms)
    ensures Feed([], chunks, number) == Parsed(RecordsOf(ms), [], None)
  {
    EncodedMessagesParse(ms, number);
    EncodedLinesAreShort(ms, number);
    ChunkingTheorem(EncodeAll(ms), number);
  }

  lemma {:induction false} EncodedLinesAreShort(ms: seq<Message>, number: bytes -> JsNumber)
    requires ReadsDecimals(number)
    requires forall i :: 0 <= i < |ms| ==> Sendable(ms[i]) && |Join(Fields(ms[i]))| < MAX_LINE_BYTES
    ensures ShortLines(EncodeAll(ms), number)
    decreases |ms|
  {
    if ms != [] {
      var rest := EncodeAll(ms[1..]);
      TakeEncoded(ms[0], rest, number);
      LineOfEncoded(ms[0], rest);
      DropFirst(Encode(ms[0]), rest);
      EncodedLinesAreShort(ms[1..], number);
    }
  }
}
