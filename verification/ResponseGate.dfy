/** The gate between a NATS server and its client: it forwards, pauses or holds each server record. */
module ResponseGate {
  import opened Wrappers
  import opened NatsRecords
  import opened GateLedger

  const MAX_RECORDS: nat := 64
  const MAX_RETAINED_BYTES: nat := 8 * 1024 * 1024
  const DOT: byte := 46

  /** `live.v1.data.` */
  const LIVE_DATA_PREFIX: bytes := [108, 105, 118, 101, 46, 118, 49, 46, 100, 97, 116, 97, 46]

  datatype Request = Request(route: bytes, reply: Option<bytes>)

  datatype Arm = Arm(route: bytes, condition: Option<Record -> bool>, mark: nat)

  datatype GateError = Protocol(failure: Failure) | TooManyRecords | TooManyBytes

  /** Everything the gate remembers between calls. */
  datatype State = State(
    armed: seq<Arm>,
    armedPush: nat,
    held: seq<Entry>,
    retained: nat,
    requests: seq<Request>,
    paused: Option<seq<bytes>>,
    disposed: bool)

  const INITIAL := State([], 0, [], 0, [], None, false)

  predicate RouteMatches(subject: bytes, route: bytes) {
    subject == route || route + [DOT] <= subject
  }

  // ----- Which records are held -----

  /** The reply answers a request that was sent to the arm's route after the arm was set. */
  predicate Answers(arm: Arm, requests: seq<Request>, reply: bytes) {
    exists i :: arm.mark <= i < |requests| && requests[i].reply == Some(reply)
                && RouteMatches(requests[i].route, arm.route)
  }

  predicate Fires(arm: Arm, requests: seq<Request>, record: Record, reply: bytes) {
    Answers(arm, requests, reply) && (arm.condition.Some? ==> arm.condition.value(record))
  }

  predicate Expected(requests: seq<Request>, reply: bytes) {
    exists i :: 0 <= i < |requests| && requests[i].reply == Some(reply)
  }

  /** The first arm that fires. */
  function FirstArm(armed: seq<Arm>, requests: seq<Request>, record: Record, reply: bytes): (a: Option<nat>)
    ensures a.Some? ==>
              && a.value < |armed| && Fires(armed[a.value], requests, record, reply)
              && forall k :: 0 <= k < a.value ==> !Fires(armed[k], requests, record, reply)
    ensures a.None? ==> forall k :: 0 <= k < |armed| ==> !Fires(armed[k], requests, record, reply)
  {
    if armed == [] then None
    else if Fires(armed[0], requests, record, reply) then Some(0)
    else
      var rest := FirstArm(armed[1..], requests, record, reply);
      if rest.None? then None else Some(1 + rest.value)
  }

  /** The route of the latest request with this reply. */
  function LatestRoute(requests: seq<Request>, reply: bytes, otherwise: bytes): bytes {
    if requests == [] then otherwise
    else if requests[|requests| - 1].reply == Some(reply) then requests[|requests| - 1].route
    else LatestRoute(requests[..|requests| - 1], reply, otherwise)
  }

  /** A message with a nonempty subject. */
  predicate Addressed(record: Record) {
    (record.op == Msg || record.op == Hmsg) && record.subject.Some? && record.subject.value != []
  }

  datatype Decision = Pass | Push | Withhold | Hold(arm: nat)

  /** What the gate does with a record, before its limits are looked at. */
  function Decide(s: State, record: Record): (d: Decision)
    ensures d.Withhold? ==> s.paused.Some?
    ensures d.Hold? ==> record.subject.Some? && d.arm < |s.armed|
  {
    if !Addressed(record) then Pass
    else
      var reply := record.subject.value;
      if s.paused.Some? && LIVE_DATA_PREFIX <= reply then Withhold
      else if !Expected(s.requests, reply) then Push
      else
        var a := FirstArm(s.armed, s.requests, record, reply);
        if a.None? then Pass else Hold(a.value)
  }

  /** The position of a reply in the map, or its size. */
  function Find(held: seq<Entry>, reply: bytes): (e: nat)
    ensures e <= |held| && NotHeld(held[..e], reply)
    ensures e < |held| ==> held[e].reply == reply
  {
    if held == [] || held[0].reply == reply then 0 else 1 + Find(held[1..], reply)
  }

  /** A map keeps the place of a key that is set again. */
  function Put(held: seq<Entry>, entry: Entry): seq<Entry> {
    var e := Find(held, entry.reply);
    if e < |held| then held[e := entry] else held + [entry]
  }

  function EntryFor(s: State, record: Record, arm: Arm, requestId: Option<bytes> -> Option<bytes>): Entry
    requires record.subject.Some?
  {
    var reply := record.subject.value;
    Entry(reply, record.raw, LatestRoute(s.requests, reply, arm.route), requestId(record.headers))
  }

  datatype Considered = Considered(state: State, forward: Result<bool, GateError>)

  /** One server record. A byte-limit error leaves its bytes counted. */
  function Consider(s: State, record: Record, requestId: Option<bytes> -> Option<bytes>): Considered {
    match Decide(s, record)
    case Pass => Considered(s, Ok(true))
    case Push => Considered(s.(armedPush := if s.armedPush > 0 then s.armedPush - 1 else 0), Ok(true))
    case Withhold => Considered(s.(paused := Some(s.paused.value + [record.raw])), Ok(false))
    case Hold(a) =>
      var retained := s.retained + |record.raw|;
      if |s.held| >= MAX_RECORDS then Considered(s, Err(TooManyRecords))
      else if retained > MAX_RETAINED_BYTES then Considered(s.(retained := retained), Err(TooManyBytes))
      else
        Considered(s.(armed := Without(s.armed, a), held := Put(s.held, EntryFor(s, record, s.armed[a], requestId)),
                      retained := retained), Ok(false))
  }

  datatype Ingested = Ingested(state: State, out: Result<seq<bytes>, GateError>)

  /** All records of a chunk, up to the first error. */
  function InTurn(s: State, records: seq<Record>, consider: (State, Record) -> Considered): Ingested {
    if records == [] then Ingested(s, Ok([]))
    else
      var n := |records| - 1;
      var before := InTurn(s, records[..n], consider);
      if before.out.Err? then before
      else
        var c := consider(before.state, records[n]);
        Ingested(c.state,
                 match c.forward
                 case Err(e) => Err(e)
                 case Ok(forward) => Ok(if forward then before.out.value + [records[n].raw] else before.out.value))
  }

  lemma {:induction false} ErrorsPersist(s: State, records: seq<Record>, k: nat,
                                         consider: (State, Record) -> Considered)
    requires k <= |records| && InTurn(s, records[..k], consider).out.Err?
    ensures InTurn(s, records, consider) == InTurn(s, records[..k], consider)
    decreases |records|
  {
    if k == |records| {
      assert records[..k] == records;
    } else {
      var n := |records| - 1;
      assert records[..n][..k] == records[..k];
      ErrorsPersist(s, records[..n], k, consider);
    }
  }

  function Considering(requestId: Option<bytes> -> Option<bytes>): (State, Record) -> Considered {
    (s, record) => Consider(s, record, requestId)
  }

  /** What the client asked for: a request per published message with a subject. */
  function RequestsOf(records: seq<Record>): seq<Request> {
    if records == [] then []
    else
      var r := records[|records| - 1];
      RequestsOf(records[..|records| - 1])
      + (if (r.op == Pub || r.op == Hpub) && r.subject.Some?
         && r.subject.value != [] then [Request(r.subject.value, r.reply)] else [])
  }

  function Raws(records: seq<Record>): (r: seq<bytes>)
    ensures |r| == |records|
  {
    seq(|records|, i requires 0 <= i < |records| => records[i].raw)
  }

  function HeldRaws(held: seq<Entry>): seq<bytes> {
    seq(|held|, e requires 0 <= e < |held| => held[e].raw)
  }

  function AfterRelease(s: State): State {
    s.(held := [], retained := 0)
  }

  /** Taking one held record out. */
  function AfterTake(s: State, e: nat): State
    requires e < |s.held|
  {
    var n := |s.held[e].raw|;
    s.(held := Without(s.held, e), retained := if s.retained < n then 0 else s.retained - n)
  }

  class Gate {
    const inbound: ProtocolParser
    const outbound: ProtocolParser
    const requestId: Option<bytes> -> Option<bytes>
    var armed: seq<Arm>
    var armedPush: nat
    var held: seq<Entry>
    var retained: nat
    var requests: seq<Request>
    var paused: Option<seq<bytes>>
    var disposed: bool

    function Current(): State
      reads this
    {
      State(armed, armedPush, held, retained, requests, paused, disposed)
    }

    constructor (number: bytes -> JsNumber, requestId: Option<bytes> -> Option<bytes>)
      ensures Current() == INITIAL && this.requestId == requestId
      ensures fresh(inbound) && fresh(outbound) && inbound != outbound && inbound.buffer == [] && outbound.buffer == []
    {
      var incoming := new ProtocolParser(number);
      var outgoing := new ProtocolParser(number);
      inbound, outbound := incoming, outgoing;
      this.requestId := requestId;
      armed, armedPush, held, retained, requests, paused, disposed := [], 0, [], 0, [], None, false;
    }

    method ArmNextReply(route: bytes, condition: Option<Record -> bool>)
      modifies `armed
      ensures armed == old(armed) + [Arm(route, condition, |requests|)]
    {
      armed := armed + [Arm(route, condition, |requests|)];
    }

    method ArmNextPush()
      modifies `armedPush
      ensures armedPush == old(armedPush) + 1
    {
      armedPush := armedPush + 1;
    }

    method Release() returns (out: seq<bytes>)
      modifies `held, `retained
      ensures Current() == AfterRelease(old(Current())) && out == HeldRaws(old(held))
    {
      out := HeldRaws(held);
      held, retained := [], 0;
    }

    method PauseLive()
      modifies `paused
      ensures paused == if old(paused).None? then Some([]) else old(paused)
    {
      if paused.None? {
        paused := Some([]);
      }
    }

    method ResumeLive() returns (out: seq<bytes>)
      modifies `paused
      ensures paused == None && out == if old(paused).Some? then old(paused).value else []
    {
      out := if paused.Some? then paused.value else [];
      paused := None;
    }

    method Dispose()
      modifies this
      ensures Current() == State([], 0, [], 0, old(requests), None, true)
    {
      disposed := true;
      var _ := Release();
      armed, armedPush, paused := [], 0, None;
    }

    method TakeHeldRaw(reply: bytes) returns (raw: Option<bytes>)
      modifies `held, `retained
      ensures var e := Find(old(held), reply);
              if e < |old(held)| then raw == Some(old(held)[e].raw) && Current() == AfterTake(old(Current()), e)
              else raw == None && Current() == old(Current())
    {
      var e := Find(held, reply);
      if e == |held| {
        return None;
      }
      raw := Some(held[e].raw);
      held := Without(held, e);
      retained := if retained < |raw.value| then 0 else retained - |raw.value|;
    }

    /** Looks for the latest matching request. */
    method HasAnswer(arm: Arm, reply: bytes) returns (found: bool)
      ensures found <==> Answers(arm, requests, reply)
    {
      var i := |requests|;
      while i > arm.mark
        invariant forall k :: i <= k < |requests| && arm.mark <= k ==>
                    !(requests[k].reply == Some(reply) && RouteMatches(requests[k].route, arm.route))
      {
        i := i - 1;
        if requests[i].reply == Some(reply) && RouteMatches(requests[i].route, arm.route) {
          return true;
        }
      }
      found := false;
    }

    method FindArm(record: Record, reply: bytes) returns (a: Option<nat>)
      ensures a == FirstArm(armed, requests, record, reply)
    {
      ghost var first := FirstArm(armed, requests, record, reply);
      for k := 0 to |armed|
        invariant first.None? || first.value >= k
      {
        var answered := HasAnswer(armed[k], reply);
        if answered && (armed[k].condition.Some? ==> armed[k].condition.value(record)) {
          return Some(k);
        }
      }
      return None;
    }

    /** Decides what happens to one server record; `Ok(true)` means forward it. */
    method ConsiderServerRecord(record: Record) returns (forward: Result<bool, GateError>)
      modifies this
      ensures Considered(Current(), forward) == Consider(old(Current()), record, requestId)
    {
      if !Addressed(record) {
        return Ok(true);
      }
      var reply := record.subject.value;
      if paused.Some? && LIVE_DATA_PREFIX <= reply {
        paused := Some(paused.value + [record.raw]);
        return Ok(false);
      }
      if !Expected(requests, reply) {
        armedPush := if armedPush > 0 then armedPush - 1 else 0;
        return Ok(true);
      }
      var match' := FindArm(record, reply);
      if match'.None? {
        return Ok(true);
      }
      if |held| >= MAX_RECORDS {
        return Err(TooManyRecords);
      }
      if retained + |record.raw| > MAX_RETAINED_BYTES {
        retained := retained + |record.raw|;
        return Err(TooManyBytes);
      }
      retained := retained + |record.raw|;
      var arm := armed[match'.value];
      armed := Without(armed, match'.value);
      held := Put(held, Entry(reply, record.raw, LatestRoute(requests, reply, arm.route), requestId(record.headers)));
      return Ok(false);
    }

    method ConsiderRecords(records: seq<Record>) returns (r: Result<seq<bytes>, GateError>)
      modifies this
      ensures Ingested(Current(), r) == InTurn(old(Current()), records, Considering(requestId))
    {
      var out: seq<bytes> := [];
      for k := 0 to |records|
        invariant Ingested(Current(), Ok(out)) == InTurn(old(Current()), records[..k], Considering(requestId))
      {
        assert records[..k + 1][..k] == records[..k];
        var forward := ConsiderServerRecord(records[k]);
        if forward.Err? {
          ErrorsPersist(old(Current()), records, k + 1, Considering(requestId));
          return Err(forward.error);
        }
        if forward.value {
          out := out + [records[k].raw];
        }
      }
      assert records[..|records|] == records;
      return Ok(out);
    }

    /** Server bytes in, the bytes to forward now out. */
    method IngestServer(chunk: bytes) returns (r: Result<seq<bytes>, GateError>)
      modifies this, inbound
      ensures old(disposed) ==> r == Ok([chunk]) && Current() == old(Current()) && inbound.buffer == old(inbound.buffer)
      ensures !old(disposed) ==> var p := Parse(old(inbound.buffer) + chunk, inbound.number);
                && inbound.buffer == p.rest
                && if p.failure.None? then Ingested(Current(), r) ==
                     InTurn(old(Current()), p.records, Considering(requestId))
                   else r == Err(Protocol(p.failure.value)) && Current() == old(Current())
    {
      if disposed {
        return Ok([chunk]);
      }
      inbound.Push(chunk);
      var taken := inbound.TakeRecords();
      if taken.Err? {
        return Err(Protocol(taken.error));
      }
      r := ConsiderRecords(taken.value);
    }

    /** Client bytes pass through; requests are remembered for correlation. */
    method IngestClient(chunk: bytes) returns (r: Result<seq<bytes>, GateError>)
      modifies `requests, outbound
      ensures disposed ==> r == Ok([chunk]) && requests == old(requests) && outbound.buffer == old(outbound.buffer)
      ensures !disposed ==> var p := Parse(old(outbound.buffer) + chunk, outbound.number);
                && outbound.buffer == p.rest
                && if p.failure.None? then r == Ok(Raws(p.records)) && requests == old(requests) + RequestsOf(p.records)
                   else r == Err(Protocol(p.failure.value)) && requests == old(requests)
    {
      if disposed {
        return Ok([chunk]);
      }
      outbound.Push(chunk);
      var taken := outbound.TakeRecords();
      if taken.Err? {
        return Err(Protocol(taken.error));
      }
      var out := RecordRequests(taken.value);
      return Ok(out);
    }

    method RecordRequests(records: seq<Record>) returns (out: seq<bytes>)
      modifies `requests
      ensures out == Raws(records) && requests == old(requests) + RequestsOf(records)
    {
      out := [];
      for k := 0 to |records|
        invariant out == Raws(records[..k]) && requests == old(requests) + RequestsOf(records[..k])
      {
        var record := records[k];
        assert records[..k + 1][..k] == records[..k];
        if (record.op == Pub || record.op == Hpub) && record.subject.Some? && record.subject.value != [] {
          requests := requests + [Request(record.subject.value, record.reply)];
        }
        out := out + [record.raw];
      }
      assert records[..|records|] == records;
    }
  }
}
