/**
 The incremental splitter of NATS client-protocol records.

 Text is kept as its bytes. JavaScript's `Number` is a parameter: the splitter is
 correct for every reading of numerals, and the encoders need only that it reads
 decimal digits.
 */
module NatsRecords {
  import opened Wrappers

  const MAX_LINE_BYTES: nat := 64 * 1024
  const CR: byte := 13
  const LF: byte := 10
  const SPACE: byte := 32
  const CRLF: bytes := [CR, LF]

  datatype Op = Info | Connect | Pub | Hpub | Sub | Unsub | Msg | Hmsg | Ping | Pong | Okay | Error | Unknown

  datatype Record = Record(
    op: Op,
    raw: bytes,
    subject: Option<bytes>,
    reply: Option<bytes>,
    sid: Option<bytes>,
    payload: Option<bytes>,
    headers: Option<bytes>)

  datatype Failure = LineTooLong | InvalidLine | BadPayload

  /** The values of JavaScript's `Number(text)`. */
  datatype JsNumber = NotANumber | NegativeInfinity | PositiveInfinity | Finite(value: real)

  // ----- Lines -----

  function IndexOfCrlf(b: bytes): (i: Option<nat>)
    ensures i.Some? ==> i.value + 1 < |b| && b[i.value] == CR && b[i.value + 1] == LF
  {
    if |b| < 2 then None
    else if b[0] == CR && b[1] == LF then Some(0)
    else
      var rest := IndexOfCrlf(b[1..]);
      if rest.None? then None else Some(1 + rest.value)
  }

  method FindCrlf(b: bytes) returns (i: Option<nat>)
    ensures i == IndexOfCrlf(b)
  {
    var k := 0;
    assert b[0..] == b;
    while k + 1 < |b|
      invariant 0 <= k <= |b|
      invariant IndexOfCrlf(b) == var rest := IndexOfCrlf(b[k..]); if rest.None? then None else Some(k + rest.value)
    {
      if b[k] == CR && b[k + 1] == LF {
        return Some(k);
      }
      assert b[k..][1..] == b[k + 1..];
      k := k + 1;
    }
    return None;
  }

  function WordLength(line: bytes): (n: nat)
    ensures n <= |line|
  {
    if line == [] || line[0] == SPACE then 0 else 1 + WordLength(line[1..])
  }

  /** The nonempty pieces between spaces. */
  function Words(line: bytes): seq<bytes>
    decreases |line|
  {
    if line == [] then []
    else if line[0] == SPACE then Words(line[1..])
    else [line[..WordLength(line)]] + Words(line[WordLength(line)..])
  }

  /** The words of a control line, after one trailing carriage return is dropped. */
  function LineWords(line: bytes): seq<bytes> {
    Words(if line != [] && line[|line| - 1] == CR then line[..|line| - 1] else line)
  }

  const PUB: bytes := [80, 85, 66]
  const HPUB: bytes := [72, 80, 85, 66]
  const MSG: bytes := [77, 83, 71]
  const HMSG: bytes := [72, 77, 83, 71]

  function OpOf(words: seq<bytes>): Op {
    if words == [] then Unknown
    else if words[0] == PUB then Pub
    else if words[0] == HPUB then Hpub
    else if words[0] == MSG then Msg
    else if words[0] == HMSG then Hmsg
    else if words[0] == [73, 78, 70, 79] then Info
    else if words[0] == [67, 79, 78, 78, 69, 67, 84] then Connect
    else if words[0] == [83, 85, 66] then Sub
    else if words[0] == [85, 78, 83, 85, 66] then Unsub
    else if words[0] == [80, 73, 78, 71] then Ping
    else if words[0] == [80, 79, 78, 71] then Pong
    else if words[0] == [43, 79, 75] then Okay
    else if words[0] == [45, 69, 82, 82] then Error
    else Unknown
  }

  predicate HasHeaders(op: Op) {
    op == Hpub || op == Hmsg
  }

  predicate Sized(op: Op) {
    op == Pub || op == Msg || HasHeaders(op)
  }

  // ----- Sized records -----

  datatype Sizes = Sizes(subject: bytes, sid: Option<bytes>, reply: Option<bytes>, header: bytes, total: bytes)

  /**
   `PUB subject [reply] size`, `MSG subject sid [reply] size`, and the header forms with
   a header length before the total.
   */
  function ParseSized(op: Op, words: seq<bytes>): Option<Sizes> {
    var server := op == Msg || op == Hmsg;
    var fixed := (if server then 3 else 2) + (if HasHeaders(op) then 2 else 1);
    if |words| != fixed && |words| != fixed + 1 then None
    else
      var last := |words| - 1;
      Some(Sizes(
             words[1],
             if server then Some(words[2]) else None,
             if |words| == fixed then None else Some(words[if server then 3 else 2]),
             if HasHeaders(op) then words[last - 1] else [],
             words[last]))
  }

  predicate IsWhole(x: real) {
    x >= 0.0 && x == x.Floor as real
  }

  /**
   Where the header section of an `n`-byte body ends, when the two typed-array copies
   succeed: array lengths and offsets truncate toward zero, and a negative length fails.
   */
  function HeaderEnd(header: JsNumber, n: nat): (end: Option<nat>)
    ensures end.Some? ==> end.value <= n
  {
    match header
    case NotANumber => if n == 0 then Some(0) else None
    case Finite(h) =>
      if IsWhole(h) then (if h <= n as real then Some(h.Floor) else None)
      else if -1.0 < h < 0.0 then Some(0)
      else if n as real < h < n as real + 1.0 then Some(n)
      else None
    case _ => None
  }

  datatype Take = More | Taken(record: Record, size: nat) | Failed(failure: Failure)

  /** Complete a sized record whose control line ends at `end`. */
  function FinishSized(op: Op, s: Sizes, b: bytes, end: nat, number: bytes -> JsNumber): Take
    requires end + 2 <= |b|
  {
    match number(s.total)
    case PositiveInfinity => More
    case Finite(total) =>
      if |b| as real < (end + 4) as real + total then More
      else if !IsWhole(total) then Failed(BadPayload)
      else
        var n := total.Floor;
        var needed := end + 4 + n;
        if b[needed - 2..needed] != CRLF then Failed(BadPayload)
        else
          var body := b[end + 2..end + 2 + n];
          if HasHeaders(op) then
            var split := HeaderEnd(number(s.header), n);
            if split.None? then Failed(BadPayload)
            else Taken(Record(op, b[..needed], Some(s.subject), s.reply, s.sid,
                              Some(body[split.value..]), Some(body[..split.value])), needed)
          else Taken(Record(op, b[..needed], Some(s.subject), s.reply, s.sid, Some(body), None), needed)
    case _ => Failed(BadPayload)
  }

  /** Take the record whose control line ends at `end`. */
  function TakeLine(b: bytes, end: nat, number: bytes -> JsNumber): Take
    requires end + 2 <= |b|
  {
    var words := LineWords(b[..end]);
    var op := OpOf(words);
    if !Sized(op) then Taken(Record(op, b[..end + 2], None, None, None, None, None), end + 2)
    else
      var sizes := ParseSized(op, words);
      if sizes.None? then Failed(InvalidLine) else FinishSized(op, sizes.value, b, end, number)
  }

  function TakeOne(b: bytes, number: bytes -> JsNumber): (t: Take)
    ensures t.Taken? ==> 0 < t.size <= |b|
  {
    var end := IndexOfCrlf(b);
    if end.None? then (if |b| > MAX_LINE_BYTES then Failed(LineTooLong) else More)
    else if end.value > MAX_LINE_BYTES then Failed(LineTooLong)
    else TakeLine(b, end.value, number)
  }

  datatype Parsed = Parsed(records: seq<Record>, rest: bytes, failure: Option<Failure>)

  /** All complete records of a buffer, and what is left of it. */
  function Parse(b: bytes, number: bytes -> JsNumber): Parsed
    decreases |b|
  {
    match TakeOne(b, number)
    case More => Parsed([], b, None)
    case Failed(f) => Parsed([], b, Some(f))
    case Taken(r, n) =>
      var p := Parse(b[n..], number);
      Parsed([r] + p.records, p.rest, p.failure)
  }

  /** The parser object: it owns a byte buffer that grows by pushes and shrinks by takes. */
  class ProtocolParser {
    var buffer: bytes
    const number: bytes -> JsNumber

    constructor (number: bytes -> JsNumber)
      ensures buffer == [] && this.number == number
    {
      buffer := [];
      this.number := number;
    }

    method Push(chunk: bytes)
      modifies this`buffer
      ensures buffer == old(buffer) + chunk
    {
      buffer := buffer + chunk;
    }

    method TakeRecords() returns (r: Result<seq<Record>, Failure>)
      modifies this`buffer
      ensures var p := Parse(old(buffer), number);
              buffer == p.rest && r == if p.failure.None? then Ok(p.records) else Err(p.failure.value)
    {
      var records: seq<Record> := [];
      while true
        invariant var p, now := Parse(old(buffer), number), Parse(buffer, number);
                  p == Parsed(records + now.records, now.rest, now.failure)
        decreases |buffer|
      {
        var t := TakeOne(buffer, number);
        match t {
          case More =>
            assert records + [] == records;
            return Ok(records);
          case Failed(f) =>
            return Err(f);
          case Taken(record, size) =>
            ghost var now := Parse(buffer[size..], number);
            assert records + ([record] + now.records) == records + [record] + now.records;
            records := records + [record];
            buffer := buffer[size..];
        }
      }
    }

    method LeftoverBytes() returns (n: nat)
      ensures n == |buffer|
    {
      n := |buffer|;
    }
  }
}
