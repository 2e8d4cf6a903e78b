/** How a byte stream is cut into frames does not change the records it holds. */
module NatsChunking {
  import opened Wrappers
  import opened NatsRecords

  function Concat(chunks: seq<bytes>): bytes {
    if chunks == [] then [] else chunks[0] + Concat(chunks[1..])
  }

  function Raws(records: seq<Record>): bytes {
    if records == [] then [] else records[0].raw + Raws(records[1..])
  }

  /** Push each chunk in turn, taking the complete records after each push. */
  function Feed(buffer: bytes, chunks: seq<bytes>, number: bytes -> JsNumber): Parsed
    decreases |chunks|
  {
    if chunks == [] then Parsed([], buffer, None)
    else
      var p := Parse(buffer + chunks[0], number);
      if p.failure.Some? then p
      else
        var rest := Feed(p.rest, chunks[1..], number);
        Parsed(p.records + rest.records, rest.rest, rest.failure)
  }

  /** Every control line of the stream is strictly shorter than the line limit. */
  predicate ShortLines(b: bytes, number: bytes -> JsNumber)
    decreases |b|
  {
    var end := IndexOfCrlf(b);
    end.Some? ==>
      && end.value < MAX_LINE_BYTES
      && var t := TakeOne(b, number);
         t.Taken? ==> ShortLines(b[t.size..], number)
  }

  // ----- One record -----

  lemma {:induction false} CrlfExtends(b: bytes, c: bytes)
    ensures IndexOfCrlf(b).Some? ==> IndexOfCrlf(b + c) == IndexOfCrlf(b)
    ensures IndexOfCrlf(b).None? && IndexOfCrlf(b + c).Some? ==> IndexOfCrlf(b + c).value + 1 >= |b|
    decreases |b|
  {
    if |b| >= 2 && !(b[0] == CR && b[1] == LF) {
      assert (b + c)[1..] == b[1..] + c;
      CrlfExtends(b[1..], c);
    }
  }

  lemma {:induction false} CrlfWithin(b: bytes, n: nat)
    requires IndexOfCrlf(b).Some? && IndexOfCrlf(b).value + 2 <= n <= |b|
    ensures IndexOfCrlf(b[..n]) == IndexOfCrlf(b)
    decreases |b|
  {
    if !(b[0] == CR && b[1] == LF) {
      assert b[..n][1..] == b[1..][..n - 1];
      CrlfWithin(b[1..], n - 1);
    }
  }

  lemma FinishExtends(op: Op, s: Sizes, b: bytes, c: bytes, end: nat, number: bytes -> JsNumber)
    requires end + 2 <= |b| && !FinishSized(op, s, b, end, number).More?
    ensures FinishSized(op, s, b + c, end, number) == FinishSized(op, s, b, end, number)
  {
    var total := number(s.total);
    if total.Finite? && IsWhole(total.value) {
      var n := total.value.Floor;
      var needed := end + 4 + n;
      assert needed <= |b|;
      assert (b + c)[needed - 2..needed] == b[needed - 2..needed];
      assert (b + c)[end + 2..end + 2 + n] == b[end + 2..end + 2 + n];
      assert (b + c)[..needed] == b[..needed];
    }
  }

  /** Once a line is complete, more input changes nothing but a wait for the body. */
  lemma LineExtends(b: bytes, c: bytes, end: nat, number: bytes -> JsNumber)
    requires end + 2 <= |b| && !TakeLine(b, end, number).More?
    ensures TakeLine(b + c, end, number) == TakeLine(b, end, number)
  {
    assert (b + c)[..end] == b[..end] && (b + c)[..end + 2] == b[..end + 2];
    var words := LineWords(b[..end]);
    var op := OpOf(words);
    var sizes := ParseSized(op, words);
    if Sized(op) && sizes.Some? {
      FinishExtends(op, sizes.value, b, c, end, number);
    }
  }

  lemma TakenExtends(b: bytes, c: bytes, number: bytes -> JsNumber)
    requires TakeOne(b, number).Taken?
    ensures TakeOne(b + c, number) == TakeOne(b, number)
  {
    CrlfExtends(b, c);
    LineExtends(b, c, IndexOfCrlf(b).value, number);
  }

  /** A failure persists, except that an unfinished line may turn out to be exactly at the limit. */
  lemma FailureExtends(b: bytes, c: bytes, number: bytes -> JsNumber)
    requires TakeOne(b, number).Failed?
    ensures TakeOne(b + c, number).Failed? || (IndexOfCrlf(b + c).Some? && IndexOfCrlf(b + c).value == MAX_LINE_BYTES)
  {
    CrlfExtends(b, c);
    var end := IndexOfCrlf(b);
    if end.Some? && end.value <= MAX_LINE_BYTES {
      LineExtends(b, c, end.value, number);
    }
  }

  /** A record depends on its own bytes only. */
  lemma TakenWithin(b: bytes, number: bytes -> JsNumber)
    requires TakeOne(b, number).Taken?
    ensures TakeOne(b[..TakeOne(b, number).size], number) == TakeOne(b, number)
  {
    var n := TakeOne(b, number).size;
    var end := IndexOfCrlf(b).value;
    var own := b[..n];
    CrlfWithin(b, n);
    assert own + b[n..] == b;
    assert own[..end] == b[..end];
    if TakeLine(own, end, number).More? {
      TakenNeedsItsSize(b, end, number);
    } else {
      LineExtends(own, b[n..], end, number);
    }
  }

  lemma TakenNeedsItsSize(b: bytes, end: nat, number: bytes -> JsNumber)
    requires end + 2 <= |b| && TakeLine(b, end, number).Taken?
    ensures end + 2 <= TakeLine(b, end, number).size <= |b|
    ensures !TakeLine(b[..TakeLine(b, end, number).size], end, number).More?
  {
    var n := TakeLine(b, end, number).size;
    assert b[..n][..end] == b[..end];
  }

  lemma TakenRaw(b: bytes, number: bytes -> JsNumber)
    requires TakeOne(b, number).Taken?
    ensures TakeOne(b, number).record.raw == b[..TakeOne(b, number).size]
  {
  }

  // ----- Whole buffers -----

  /** The raw bytes of the records and the leftover are the input, byte for byte. */
  lemma {:induction false} ParseLosesNothing(b: bytes, number: bytes -> JsNumber)
    ensures var p := Parse(b, number); Raws(p.records) + p.rest == b
    decreases |b|
  {
    var t := TakeOne(b, number);
    if t.Taken? {
      TakenRaw(b, number);
      ParseLosesNothing(b[t.size..], number);
      var p := Parse(b[t.size..], number);
      RawsJoin(t.record, p.records, p.rest, b, t.size);
    }
  }

  lemma RawsJoin(r: Record, records: seq<Record>, rest: bytes, b: bytes, n: nat)
    requires n <= |b| && r.raw == b[..n] && Raws(records) + rest == b[n..]
    ensures Raws([r] + records) + rest == b
  {
    assert ([r] + records)[1..] == records;
    assert b == b[..n] + b[n..];
  }

  /** Records found earlier, in front of a later outcome. */
  function After(records: seq<Record>, p: Parsed): Parsed {
    Parsed(records + p.records, p.rest, p.failure)
  }

  lemma AfterTwice(a: seq<Record>, b: seq<Record>, p: Parsed)
    ensures After(a, After(b, p)) == After(a + b, p)
  {
    assert a + (b + p.records) == a + b + p.records;
  }

  lemma ParseTaken(b: bytes, r: Record, n: nat, number: bytes -> JsNumber)
    requires n <= |b| && TakeOne(b, number) == Taken(r, n)
    ensures Parse(b, number) == After([r], Parse(b[n..], number))
  {
  }

  /** Parsing more input continues where parsing the first part stopped. */
  lemma {:induction false} ParseContinues(b: bytes, c: bytes, number: bytes -> JsNumber)
    requires Parse(b, number).failure.None?
    ensures var p := Parse(b, number); Parse(b + c, number) == After(p.records, Parse(p.rest + c, number))
    decreases |b|
  {
    var t := TakeOne(b, number);
    if t.Taken? {
      ParseTaken(b, t.record, t.size, number);
      TakenExtends(b, c, number);
      ParseTaken(b + c, t.record, t.size, number);
      DropOfConcat(b, c, t.size);
      ParseContinues(b[t.size..], c, number);
      var p := Parse(b[t.size..], number);
      AfterTwice([t.record], p.records, Parse(p.rest + c, number));
    } else {
      AfterNothing(Parse(b + c, number));
    }
  }

  lemma AfterNothing(p: Parsed)
    ensures After([], p) == p
  {
    assert [] + p.records == p.records;
  }

  lemma DropOfConcat(b: bytes, c: bytes, n: nat)
    requires n <= |b|
    ensures (b + c)[n..] == b[n..] + c
  {
  }

  lemma TakeOfDrop(b: bytes, n: nat, k: nat)
    requires n <= k <= |b|
    ensures b[..k] == b[..n] + b[n..][..k - n] && b[..k][n..] == b[n..][..k - n]
  {
  }

  /** A prefix of a stream that parses, with short lines, parses too. */
  lemma {:induction false} PrefixParses(b: bytes, c: bytes, number: bytes -> JsNumber)
    requires Parse(b + c, number).failure.None? && ShortLines(b + c, number)
    ensures Parse(b, number).failure.None? && ShortLines(Parse(b, number).rest + c, number)
    decreases |b|
  {
    var t := TakeOne(b, number);
    match t
    case More =>
    case Failed(_) =>
      FailureExtends(b, c, number);
    case Taken(_, n) =>
      TakenExtends(b, c, number);
      CrlfExtends(b, c);
      DropOfConcat(b, c, n);
      PrefixParses(b[n..], c, number);
  }

  lemma {:induction false} FeedAgrees(buffer: bytes, chunks: seq<bytes>, number: bytes -> JsNumber)
    requires TakeOne(buffer, number).More?
    requires Parse(buffer + Concat(chunks), number).failure.None? && ShortLines(buffer + Concat(chunks), number)
    ensures Feed(buffer, chunks, number) == Parse(buffer + Concat(chunks), number)
    decreases |chunks|
  {
    if chunks == [] {
      assert buffer + Concat(chunks) == buffer;
    } else {
      var b := buffer + chunks[0];
      var c := Concat(chunks[1..]);
      assert buffer + Concat(chunks) == b + c;
      PrefixParses(b, c, number);
      ParseContinues(b, c, number);
      var p := Parse(b, number);
      RestWaits(b, number);
      FeedAgrees(p.rest, chunks[1..], number);
    }
  }

  lemma {:induction false} RestWaits(b: bytes, number: bytes -> JsNumber)
    requires Parse(b, number).failure.None?
    ensures TakeOne(Parse(b, number).rest, number).More?
    decreases |b|
  {
    var t := TakeOne(b, number);
    if t.Taken? {
      RestWaits(b[t.size..], number);
    }
  }

  // ----- Exactly the streams whose cutting does not matter -----

  /** Every way of cutting the stream gives the records and leftover of the whole. */
  ghost predicate CuttingIsIrrelevant(b: bytes, number: bytes -> JsNumber) {
    forall chunks :: Concat(chunks) == b ==> Feed([], chunks, number) == Parse(b, number)
  }

  /** A line exactly at the limit fails when it arrives without its final line feed. */
  lemma {:induction false} LimitLineFails(b: bytes, number: bytes -> JsNumber) returns (k: nat)
    requires Parse(b, number).failure.None? && !ShortLines(b, number)
    ensures k <= |b| && Parse(b[..k], number).failure.Some?
    decreases |b|
  {
    if IndexOfCrlf(b).value == MAX_LINE_BYTES {
      k := MAX_LINE_BYTES + 1;
      UnfinishedLimitLine(b, number);
    } else {
      var t := TakeOne(b, number);
      var rest := LimitLineFails(b[t.size..], number);
      k := t.size + rest;
      LaterFailure(b, t.record, t.size, k, number);
    }
  }

  lemma UnfinishedLimitLine(b: bytes, number: bytes -> JsNumber)
    requires IndexOfCrlf(b) == Some(MAX_LINE_BYTES)
    ensures Parse(b[..MAX_LINE_BYTES + 1], number).failure.Some?
  {
    var front := b[..MAX_LINE_BYTES + 1];
    assert front + b[MAX_LINE_BYTES + 1..] == b;
    CrlfExtends(front, b[MAX_LINE_BYTES + 1..]);
  }

  lemma LaterFailure(b: bytes, r: Record, n: nat, k: nat, number: bytes -> JsNumber)
    requires n <= k <= |b| && TakeOne(b, number) == Taken(r, n) && Parse(b[n..][..k - n], number).failure.Some?
    ensures Parse(b[..k], number).failure.Some?
  {
    TakenWithin(b, number);
    TakeOfDrop(b, n, k);
    TakenExtends(b[..n], b[n..][..k - n], number);
    ParseTaken(b[..k], r, n, number);
  }

  /**
   For a stream that parses: however it is cut into chunks it yields the same records and
   leftover, exactly when every control line is strictly shorter than 64 KiB.
   */
  lemma ChunkingTheorem(b: bytes, number: bytes -> JsNumber)
    requires Parse(b, number).failure.None?
    ensures CuttingIsIrrelevant(b, number) <==> ShortLines(b, number)
  {
    if ShortLines(b, number) {
      forall chunks | Concat(chunks) == b
        ensures Feed([], chunks, number) == Parse(b, number)
      {
        assert [] + Concat(chunks) == b;
        FeedAgrees([], chunks, number);
      }
    } else {
      var k := LimitLineFails(b, number);
      CutAt(b, k, number);
    }
  }

  lemma CutAt(b: bytes, k: nat, number: bytes -> JsNumber)
    requires k <= |b| && Parse(b[..k], number).failure.Some?
    ensures Concat([b[..k], b[k..]]) == b && Feed([], [b[..k], b[k..]], number).failure.Some?
  {
    ConcatTwo(b[..k], b[k..]);
    assert b[..k] + b[k..] == b;
    FeedFails(b[..k], b[k..], number);
  }

  lemma ConcatTwo(a: bytes, c: bytes)
    ensures Concat([a, c]) == a + c
  {
    assert [a, c][1..] == [c] && [c][1..] == [];
    assert c + [] == c;
    assert Concat([c]) == c;
  }

  lemma FeedFails(a: bytes, c: bytes, number: bytes -> JsNumber)
    requires Parse(a, number).failure.Some?
    ensures Feed([], [a, c], number).failure.Some?
  {
    assert [] + [a, c][0] == a;
  }
}
