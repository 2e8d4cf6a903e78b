/** Runs of the response gate: each record has one fate, what is handed out are its bytes, and the limits hold. */
module GateRuns {
  import opened Wrappers
  import opened NatsRecords
  import opened GateLedger
  import opened ResponseGate

  /** Everything that can happen to a gate before it is disposed. */
  datatype Operation =
    | Server(record: Record)
    | Client(request: Request)
    | ArmReply(route: bytes, condition: Option<Record -> bool>)
    | ArmPush
    | ReleaseHeld
    | TakeHeld(reply: bytes)
    | PauseLive
    | ResumeLive

  datatype Tracked = Tracked(state: State, ledger: Ledger)

  const START := Tracked(INITIAL, EMPTY)

  /**
   Every record has one place; what was handed out are the bytes of the records so marked; the
   limits hold; and while no record was lost the retained count is exact and the held records
   are in arrival order.
   */
  predicate Sound(t: Tracked) {
    && Consistent(t.ledger, t.state.held, t.state.paused)
    && HandedOut(t.ledger)
    && Bounded(t.ledger, t.state.held, t.state.retained)
  }

  predicate Bounded(l: Ledger, held: seq<Entry>, retained: nat) {
    && |held| <= MAX_RECORDS
    && Total(held) <= retained <= MAX_RETAINED_BYTES
    && (Lost !in l.fates ==> retained == Total(held) && Increasing(l.heldIds))
  }

  /** What resuming hands out. */
  function PausedRaws(s: State): seq<bytes> {
    if s.paused.Some? then s.paused.value else []
  }

  /** What a server record that raises no error does to the ledger. */
  function AfterRecord(t: Tracked, record: Record): Ledger {
    var l := t.ledger;
    match Decide(t.state, record)
    case Pass => Arrive(l, record, Forwarded)
    case Push => Arrive(l, record, Forwarded)
    case Withhold => Arrive(l, record, Paused)
    case Hold(_) =>
      var e := Find(t.state.held, record.subject.value);
      if e < |l.heldIds| && l.heldIds[e] < |l.fates| then Overwrite(l, e, record) else Arrive(l, record, Held)
  }

  /** The next state, unless a limit error is raised. */
  function Next(t: Tracked, op: Operation, requestId: Option<bytes> -> Option<bytes>): Option<Tracked> {
    var s, l := t.state, t.ledger;
    match op
    case Server(record) =>
      var c := Consider(s, record, requestId);
      if c.forward.Err? then None else Some(Tracked(c.state, AfterRecord(t, record)))
    case Client(request) => Some(Tracked(s.(requests := s.requests + [request]), l))
    case ArmReply(route, condition) => Some(Tracked(s.(armed := s.armed + [Arm(route, condition, |s.requests|)]), l))
    case ArmPush => Some(Tracked(s.(armedPush := s.armedPush + 1), l))
    case ReleaseHeld => Some(Tracked(AfterRelease(s), Release(l, HeldRaws(s.held))))
    case TakeHeld(reply) =>
      var e := Find(s.held, reply);
      if e < |s.held| && e < |l.heldIds| && l.heldIds[e] < |l.fates|
      then Some(Tracked(AfterTake(s, e), Claim(l, e, s.held[e].raw)))
      else Some(t)
    case PauseLive => Some(Tracked(s.(paused := Some(if s.paused.Some? then s.paused.value else [])), l))
    case ResumeLive => Some(Tracked(s.(paused := None), Resume(l, PausedRaws(s))))
  }

  // ----- Every operation keeps the invariant -----

  lemma ForwardIsSound(t: Tracked, record: Record, armedPush: nat)
    requires Sound(t)
    ensures Sound(Tracked(t.state.(armedPush := armedPush), Arrive(t.ledger, record, Forwarded)))
  {
    ForwardKeeps(t.ledger, t.state.held, t.state.paused, record);
    ArriveHandsOut(t.ledger, record, Forwarded);
  }

  lemma PauseIsSound(t: Tracked, record: Record)
    requires Sound(t) && t.state.paused.Some?
    ensures Sound(Tracked(t.state.(paused := Some(t.state.paused.value + [record.raw])),
                          Arrive(t.ledger, record, Paused)))
  {
    PauseKeeps(t.ledger, t.state.held, t.state.paused.value, record);
    ArriveHandsOut(t.ledger, record, Paused);
  }

  lemma HoldIsSound(t: Tracked, record: Record, entry: Entry, armed: seq<Arm>)
    requires Sound(t) && Holds(record, entry) && NotHeld(t.state.held, entry.reply)
    requires |t.state.held| < MAX_RECORDS && t.state.retained + |record.raw| <= MAX_RETAINED_BYTES
    ensures Sound(Tracked(t.state.(armed := armed, held := t.state.held + [entry],
                                   retained := t.state.retained + |record.raw|),
                          Arrive(t.ledger, record, Held)))
  {
    HoldKeeps(t.ledger, t.state.held, t.state.paused, record, entry);
    ArriveHandsOut(t.ledger, record, Held);
    HoldIsBounded(t.ledger, t.state.held, t.state.retained, record, entry);
  }

  lemma HoldIsBounded(l: Ledger, held: seq<Entry>, retained: nat, record: Record, entry: Entry)
    requires Bounded(l, held, retained) && ListsHeld(l.fates, l.heldIds) && |l.fates| == |l.arrivals|
    requires entry.raw == record.raw
    requires |held| < MAX_RECORDS && retained + |record.raw| <= MAX_RETAINED_BYTES
    ensures Bounded(Arrive(l, record, Held), held + [entry], retained + |record.raw|)
  {
    TotalGrows(held, entry);
    if Lost !in l.fates {
      HoldKeepsOrder(l, record);
    } else {
      StaysLost(l.fates, Held);
    }
  }

  lemma StaysLost(fates: seq<Fate>, fate: Fate)
    requires Lost in fates
    ensures Lost in fates + [fate]
  {
    var i :| 0 <= i < |fates| && fates[i] == Lost;
    assert (fates + [fate])[i] == Lost;
  }

  lemma OverwriteIsSound(t: Tracked, e: nat, record: Record, entry: Entry, armed: seq<Arm>)
    requires Sound(t) && e < |t.state.held| && Holds(record, entry) && t.state.held[e].reply == entry.reply
    requires t.state.retained + |record.raw| <= MAX_RETAINED_BYTES
    ensures Sound(Tracked(t.state.(armed := armed, held := t.state.held[e := entry],
                                   retained := t.state.retained + |record.raw|),
                          Overwrite(t.ledger, e, record)))
  {
    OverwriteKeeps(t.ledger, t.state.held, t.state.paused, e, record, entry);
    OverwriteHandsOut(t.ledger, e, record);
    TotalReplaced(t.state.held, e, entry);
    assert Overwrite(t.ledger, e, record).fates[t.ledger.heldIds[e]] == Lost;
  }

  lemma ClaimIsSound(t: Tracked, e: nat)
    requires Sound(t) && e < |t.state.held|
    ensures Sound(Tracked(AfterTake(t.state, e), Claim(t.ledger, e, t.state.held[e].raw)))
  {
    ClaimKeeps(t.ledger, t.state.held, t.state.paused, e);
    ClaimHandsOut(t.ledger, e, t.state.held);
    ClaimIsBounded(t.ledger, t.state.held, t.state.retained, e);
  }

  lemma ClaimIsBounded(l: Ledger, held: seq<Entry>, retained: nat, e: nat)
    requires Bounded(l, held, retained) && |l.heldIds| == |held| && e < |held|
    requires l.heldIds[e] < |l.fates| && l.fates[l.heldIds[e]] == Held
    ensures |held[e].raw| <= retained && Bounded(Claim(l, e, held[e].raw), Without(held, e), retained - |held[e].raw|)
  {
    TotalWithout(held, e);
    ClaimKeepsLost(l, e, held[e].raw);
  }

  lemma ClaimKeepsLost(l: Ledger, e: nat, raw: bytes)
    requires e < |l.heldIds| && l.heldIds[e] < |l.fates| && l.fates[l.heldIds[e]] == Held
    ensures Lost in Claim(l, e, raw).fates <==> Lost in l.fates
  {
    if Lost in l.fates {
      var i :| 0 <= i < |l.fates| && l.fates[i] == Lost;
      assert Claim(l, e, raw).fates[i] == Lost;
    }
  }

  lemma RefateKeepsLost(fates: seq<Fate>, from: Fate, to: Fate)
    requires from != Lost && to != Lost
    ensures Lost in Refate(fates, from, to) <==> Lost in fates
  {
    if Lost in fates {
      var i :| 0 <= i < |fates| && fates[i] == Lost;
      assert Refate(fates, from, to)[i] == Lost;
    }
  }

  lemma ReleaseIsSound(t: Tracked)
    requires Sound(t)
    ensures Sound(Tracked(AfterRelease(t.state), Release(t.ledger, HeldRaws(t.state.held))))
  {
    ReleaseKeeps(t.ledger, t.state.held, t.state.paused, HeldRaws(t.state.held));
    ReleaseHandsOut(t.ledger, t.state.held, HeldRaws(t.state.held));
  }

  lemma ResumeIsSound(t: Tracked)
    requires Sound(t)
    ensures Sound(Tracked(t.state.(paused := None), Resume(t.ledger, PausedRaws(t.state))))
  {
    ResumeKeeps(t.ledger, t.state.held, t.state.paused, PausedRaws(t.state));
    ResumeHandsOut(t.ledger, PausedRaws(t.state));
    RefateKeepsLost(t.ledger.fates, Paused, Resumed);
  }

  lemma RecordKeepsSound(t: Tracked, record: Record, requestId: Option<bytes> -> Option<bytes>)
    requires Sound(t) && Consider(t.state, record, requestId).forward.Ok?
    ensures Sound(Tracked(Consider(t.state, record, requestId).state, AfterRecord(t, record)))
  {
    var s := t.state;
    match Decide(s, record)
    case Pass => ForwardIsSound(t, record, s.armedPush);
    case Push => ForwardIsSound(t, record, if s.armedPush > 0 then s.armedPush - 1 else 0);
    case Withhold => PauseIsSound(t, record);
    case Hold(a) => HoldKeepsSound(t, record, a, requestId);
  }

  lemma HoldKeepsSound(t: Tracked, record: Record, a: nat, requestId: Option<bytes> -> Option<bytes>)
    requires Sound(t) && Decide(t.state, record) == Hold(a) && Consider(t.state, record, requestId).forward.Ok?
    ensures Sound(Tracked(Consider(t.state, record, requestId).state, AfterRecord(t, record)))
  {
    var entry := EntryFor(t.state, record, t.state.armed[a], requestId);
    PutIsSound(t, record, entry, Without(t.state.armed, a));
  }

  lemma PutIsSound(t: Tracked, record: Record, entry: Entry, armed: seq<Arm>)
    requires Sound(t) && Holds(record, entry)
    requires |t.state.held| < MAX_RECORDS && t.state.retained + |record.raw| <= MAX_RETAINED_BYTES
    ensures var e := Find(t.state.held, entry.reply);
            && (e < |t.state.held| <==> e < |t.ledger.heldIds| && t.ledger.heldIds[e] < |t.ledger.fates|)
            && Sound(Tracked(t.state.(armed := armed, held := Put(t.state.held, entry),
                                      retained := t.state.retained + |record.raw|),
                             if e < |t.state.held| then Overwrite(t.ledger, e, record)
                             else Arrive(t.ledger, record, Held)))
  {
    var e := Find(t.state.held, entry.reply);
    PutIs(t.state.held, entry);
    if e < |t.state.held| {
      OverwriteIsSound(t, e, record, entry, armed);
    } else {
      HoldIsSound(t, record, entry, armed);
    }
  }

  lemma PutIs(held: seq<Entry>, entry: Entry)
    ensures var e := Find(held, entry.reply);
            if e < |held| then held[e].reply == entry.reply && Put(held, entry) == held[e := entry]
            else NotHeld(held, entry.reply) && Put(held, entry) == held + [entry]
  {
    var e := Find(held, entry.reply);
    if e == |held| {
      assert held[..e] == held;
    }
  }

  lemma NextKeepsSound(t: Tracked, op: Operation, requestId: Option<bytes> -> Option<bytes>)
    requires Sound(t) && Next(t, op, requestId).Some?
    ensures Sound(Next(t, op, requestId).value)
  {
    match op
    case Server(record) => RecordKeepsSound(t, record, requestId);
    case ReleaseHeld => ReleaseIsSound(t);
    case TakeHeld(reply) => TakeKeepsSound(t, reply, requestId);
    case ResumeLive => ResumeIsSound(t);
    case _ =>
  }

  lemma TakeKeepsSound(t: Tracked, reply: bytes, requestId: Option<bytes> -> Option<bytes>)
    requires Sound(t)
    ensures Next(t, TakeHeld(reply), requestId).Some? && Sound(Next(t, TakeHeld(reply), requestId).value)
  {
    var e := Find(t.state.held, reply);
    if e < |t.state.held| {
      ClaimIsSound(t, e);
      TakeClaims(t, reply, requestId, e);
    } else {
      assert Next(t, TakeHeld(reply), requestId) == Some(t);
    }
  }

  lemma TakeClaims(t: Tracked, reply: bytes, requestId: Option<bytes> -> Option<bytes>, e: nat)
    requires e == Find(t.state.held, reply) && e < |t.state.held|
    requires e < |t.ledger.heldIds| && t.ledger.heldIds[e] < |t.ledger.fates|
    ensures Next(t, TakeHeld(reply), requestId) ==
            Some(Tracked(AfterTake(t.state, e), Claim(t.ledger, e, t.state.held[e].raw)))
  {
  }

  // ----- Runs -----

  type Step = (Tracked, Operation) -> Option<Tracked>

  function Stepping(requestId: Option<bytes> -> Option<bytes>): Step {
    (t, op) => Next(t, op, requestId)
  }

  /** The gate after a run, unless a limit error was raised. */
  function Run(t: Tracked, run: seq<Operation>, step: Step): Option<Tracked> {
    if run == [] then Some(t)
    else
      var before := Run(t, run[..|run| - 1], step);
      if before.None? then None else step(before.value, run[|run| - 1])
  }

  function Arrival(op: Operation): seq<Record> {
    if op.Server? then [op.record] else []
  }

  function ServerRecords(run: seq<Operation>): seq<Record> {
    if run == [] then [] else ServerRecords(run[..|run| - 1]) + Arrival(run[|run| - 1])
  }

  /** A step keeps `holds` and adds at most its own record to the ledger. */
  ghost predicate Keeps(step: Step, holds: Tracked -> bool) {
    forall t: Tracked, op: Operation :: holds(t) && step(t, op).Some? ==>
      holds(step(t, op).value) && step(t, op).value.ledger.arrivals == t.ledger.arrivals + Arrival(op)
  }

  lemma {:induction false} RunKeeps(t: Tracked, run: seq<Operation>, step: Step, holds: Tracked -> bool)
    requires Keeps(step, holds) && holds(t) && Run(t, run, step).Some?
    ensures holds(Run(t, run, step).value)
    ensures Run(t, run, step).value.ledger.arrivals == t.ledger.arrivals + ServerRecords(run)
  {
    if run == [] {
      assert t.ledger.arrivals + [] == t.ledger.arrivals;
    } else {
      var front, op := run[..|run| - 1], run[|run| - 1];
      RunKeeps(t, front, step, holds);
      assert step(Run(t, front, step).value, op).Some?;
      assert t.ledger.arrivals + ServerRecords(front) + Arrival(op) == t.ledger.arrivals + ServerRecords(run);
    }
  }

  /** One operation adds at most its own record to the ledger. */
  lemma NextArrivals(t: Tracked, op: Operation, requestId: Option<bytes> -> Option<bytes>)
    requires Next(t, op, requestId).Some?
    ensures Next(t, op, requestId).value.ledger.arrivals == t.ledger.arrivals + Arrival(op)
  {
    if !op.Server? {
      assert t.ledger.arrivals + [] == t.ledger.arrivals;
    }
  }

  lemma NextKeeps(requestId: Option<bytes> -> Option<bytes>)
    ensures Keeps(Stepping(requestId), Sound)
  {
    forall t: Tracked, op: Operation | Sound(t) && Next(t, op, requestId).Some?
      ensures Sound(Next(t, op, requestId).value)
      ensures Next(t, op, requestId).value.ledger.arrivals == t.ledger.arrivals + Arrival(op)
    {
      NextKeepsSound(t, op, requestId);
      NextArrivals(t, op, requestId);
    }
  }

  lemma StartIsSound()
    ensures Sound(START)
  {
  }

  /**
   In every run without a limit error each server record has exactly one fate: the
   forwarded and the resumed bytes are in arrival order, the held and paused ones are still
   there in full, the claimed and released ones were handed out once each with their own
   bytes, and the limits hold. While no record is lost the retained count is exact.
   */
  lemma EveryRecordHasOnePlace(run: seq<Operation>, requestId: Option<bytes> -> Option<bytes>, t: Tracked)
    requires Run(START, run, Stepping(requestId)) == Some(t)
    ensures t.ledger.arrivals == ServerRecords(run) && Consistent(t.ledger, t.state.held, t.state.paused)
    ensures HandedOut(t.ledger)
    ensures |t.state.held| <= MAX_RECORDS && Total(t.state.held) <= t.state.retained <= MAX_RETAINED_BYTES
    ensures Lost !in t.ledger.fates ==> t.state.retained == Total(t.state.held)
  {
    NextKeeps(requestId);
    StartIsSound();
    RunKeeps(START, run, Stepping(requestId), Sound);
    assert [] + ServerRecords(run) == ServerRecords(run);
  }

  /** A record is lost exactly when one that is to be held finds its reply already held. */
  lemma LostExactly(t: Tracked, record: Record)
    requires Sound(t)
    ensures Lost in AfterRecord(t, record).fates <==>
              Lost in t.ledger.fates || (Decide(t.state, record).Hold? && !NotHeld(t.state.held, record.subject.value))
  {
    match Decide(t.state, record)
    case Hold(_) => HoldLoses(t.ledger, t.state.held, record, record.subject.value);
    case Withhold => ArrivalIsNotLost(t.ledger, record, Paused);
    case _ => ArrivalIsNotLost(t.ledger, record, Forwarded);
  }

  lemma HoldLoses(l: Ledger, held: seq<Entry>, record: Record, reply: bytes)
    requires |l.heldIds| == |held| && forall e :: 0 <= e < |held| ==> l.heldIds[e] < |l.fates|
    ensures var e := Find(held, reply);
            if e < |held| then Lost in Overwrite(l, e, record).fates && !NotHeld(held, reply)
            else (Lost in Arrive(l, record, Held).fates <==> Lost in l.fates) && NotHeld(held, reply)
  {
    var e := Find(held, reply);
    if e < |held| {
      assert Overwrite(l, e, record).fates[l.heldIds[e]] == Lost;
    } else {
      assert held[..e] == held;
      ArrivalIsNotLost(l, record, Held);
    }
  }

  lemma ArrivalIsNotLost(l: Ledger, record: Record, fate: Fate)
    requires fate != Lost
    ensures Lost in Arrive(l, record, fate).fates <==> Lost in l.fates
  {
    if Lost in l.fates {
      StaysLost(l.fates, fate);
    }
  }

  /** The operation is a record that is to be held while its reply is already held. */
  predicate Loses(s: State, op: Operation) {
    op.Server? && Decide(s, op.record).Hold? && !NotHeld(s.held, op.record.subject.value)
  }

  /** No other operation loses a record. */
  lemma NextLoses(t: Tracked, op: Operation, requestId: Option<bytes> -> Option<bytes>)
    requires Sound(t) && Next(t, op, requestId).Some?
    ensures Lost in Next(t, op, requestId).value.ledger.fates <==> Lost in t.ledger.fates || Loses(t.state, op)
  {
    match op
    case Server(record) => LostExactly(t, record);
    case ReleaseHeld => RefateKeepsLost(t.ledger.fates, Held, Released);
    case TakeHeld(reply) =>
      var e := Find(t.state.held, reply);
      if e < |t.state.held| {
        ClaimKeepsLost(t.ledger, e, t.state.held[e].raw);
      }
    case ResumeLive => RefateKeepsLost(t.ledger.fates, Paused, Resumed);
    case _ =>
  }

  /** The run loses a record at its operation `k`. */
  predicate LosesAt(t: Tracked, run: seq<Operation>, step: Step, k: nat)
    requires k < |run|
  {
    Run(t, run[..k], step).Some? && Loses(Run(t, run[..k], step).value.state, run[k])
  }

  ghost predicate KeepsLosses(step: Step, holds: Tracked -> bool) {
    forall t: Tracked, op: Operation :: holds(t) && step(t, op).Some? ==>
      (Lost in step(t, op).value.ledger.fates <==> Lost in t.ledger.fates || Loses(t.state, op))
  }

  lemma {:induction false} RunLoses(t: Tracked, run: seq<Operation>, step: Step, holds: Tracked -> bool)
    requires Keeps(step, holds) && KeepsLosses(step, holds) && holds(t) && Run(t, run, step).Some?
    ensures Lost in Run(t, run, step).value.ledger.fates <==>
            Lost in t.ledger.fates || exists k :: 0 <= k < |run| && LosesAt(t, run, step, k)
  {
    if run != [] {
      var n := |run| - 1;
      RunLoses(t, run[..n], step, holds);
      RunKeeps(t, run[..n], step, holds);
      var before := Run(t, run[..n], step).value;
      assert step(before, run[n]).Some?;
      LossesOfFront(t, run, step, n);
      assert LosesAt(t, run, step, n) <==> Loses(before.state, run[n]);
    }
  }

  lemma LossesOfFront(t: Tracked, run: seq<Operation>, step: Step, n: nat)
    requires n <= |run|
    ensures forall k :: 0 <= k < n ==> (LosesAt(t, run[..n], step, k) <==> LosesAt(t, run, step, k))
  {
    forall k | 0 <= k < n
      ensures LosesAt(t, run[..n], step, k) <==> LosesAt(t, run, step, k)
    {
      assert run[..n][..k] == run[..k];
    }
  }

  /** In every run a record is lost exactly when some record is to be held while its reply is already held. */
  lemma RunLosesExactly(run: seq<Operation>, requestId: Option<bytes> -> Option<bytes>, t: Tracked)
    requires Run(START, run, Stepping(requestId)) == Some(t)
    ensures Lost in t.ledger.fates <==> exists k :: 0 <= k < |run| && LosesAt(START, run, Stepping(requestId), k)
  {
    NextKeeps(requestId);
    StartIsSound();
    forall t: Tracked, op: Operation | Sound(t) && Next(t, op, requestId).Some?
      ensures Lost in Next(t, op, requestId).value.ledger.fates <==> Lost in t.ledger.fates || Loses(t.state, op)
    {
      NextLoses(t, op, requestId);
    }
    RunLoses(START, run, Stepping(requestId), Sound);
  }

  /** Two arms for one route, and one request on it. */
  function Asked(route: bytes, reply: bytes): seq<Operation> {
    [ArmReply(route, None), ArmReply(route, None), Client(Request(route, Some(reply)))]
  }

  function Armed(route: bytes, arms: nat, held: seq<Entry>, retained: nat, reply: bytes): State {
    State(seq(arms, _ => Arm(route, None, 0)), 0, held, retained, [Request(route, Some(reply))], None, false)
  }

  lemma RunOneMore(t: Tracked, run: seq<Operation>, op: Operation, step: Step, before: Tracked)
    requires Run(t, run, step) == Some(before)
    ensures Run(t, run + [op], step) == step(before, op)
  {
    assert (run + [op])[..|run|] == run;
  }

  lemma AskedRun(route: bytes, reply: bytes, requestId: Option<bytes> -> Option<bytes>)
    ensures Run(START, Asked(route, reply), Stepping(requestId)) == Some(Tracked(Armed(route, 2, [], 0, reply), EMPTY))
  {
    var step, arm := Stepping(requestId), Arm(route, None, 0);
    var one, two := START.(state := INITIAL.(armed := [arm])), START.(state := INITIAL.(armed := [arm, arm]));
    RunOneMore(START, [], ArmReply(route, None), step, START);
    assert [] + [ArmReply(route, None)] == [ArmReply(route, None)] && INITIAL.armed + [arm] == [arm];
    RunOneMore(START, [ArmReply(route, None)], ArmReply(route, None), step, one);
    assert [ArmReply(route, None)] + [ArmReply(route, None)] == [ArmReply(route, None), ArmReply(route, None)];
    assert [arm] + [arm] == [arm, arm] == Armed(route, 2, [], 0, reply).armed;
    RunOneMore(START, [ArmReply(route, None), ArmReply(route, None)], Client(Request(route, Some(reply))), step, two);
    assert INITIAL.requests + [Request(route, Some(reply))] == [Request(route, Some(reply))];
    assert [ArmReply(route, None), ArmReply(route, None)] + [Client(Request(route, Some(reply)))] ==
             Asked(route, reply);
  }

  predicate IsAnswer(record: Record, reply: bytes) {
    reply != [] && record.op == Msg && record.subject == Some(reply)
  }

  /** While an arm is left, an answer is held under its reply. */
  lemma AnswerIsHeld(route: bytes, arms: nat, held: seq<Entry>, retained: nat, reply: bytes, record: Record,
                     requestId: Option<bytes> -> Option<bytes>)
    requires IsAnswer(record, reply) && arms > 0 && |held| < MAX_RECORDS
    requires retained + |record.raw| <= MAX_RETAINED_BYTES
    ensures var s := Armed(route, arms, held, retained, reply);
            && Decide(s, record) == Hold(0)
            && Consider(s, record, requestId) ==
               Considered(Armed(route, arms - 1, Put(held, Entry(reply, record.raw, route, requestId(record.headers))),
                                retained + |record.raw|, reply), Ok(false))
  {
    var s := Armed(route, arms, held, retained, reply);
    assert s.requests[0].reply == Some(reply) && RouteMatches(s.requests[0].route, s.armed[0].route);
    assert Fires(s.armed[0], s.requests, record, reply) && Expected(s.requests, reply);
    assert Without(s.armed, 0) == Armed(route, arms - 1, held, retained, reply).armed;
  }

  /** The second answer to one request takes the place of the first, which is lost. */
  lemma SecondAnswerLosesFirst(route: bytes, reply: bytes, a: Record, b: Record,
                               requestId: Option<bytes> -> Option<bytes>)
    requires IsAnswer(a, reply) && IsAnswer(b, reply) && |a.raw| + |b.raw| <= MAX_RETAINED_BYTES
    ensures var r := Run(START, Asked(route, reply) + [Server(a), Server(b)], Stepping(requestId));
            r.Some? && r.value.ledger.arrivals == [a, b] && r.value.ledger.fates == [Lost, Held]
  {
    var asked, step := Asked(route, reply), Stepping(requestId);
    var start := Tracked(Armed(route, 2, [], 0, reply), EMPTY);
    AskedRun(route, reply, requestId);
    RunOneMore(START, asked, Server(a), step, start);
    var first := FirstAnswer(route, reply, a, requestId);
    RunOneMore(START, asked + [Server(a)], Server(b), step, first);
    SecondAnswer(route, reply, a, b, requestId, first);
    assert asked + [Server(a)] + [Server(b)] == asked + [Server(a), Server(b)];
  }

  lemma FirstAnswer(route: bytes, reply: bytes, a: Record, requestId: Option<bytes> -> Option<bytes>)
    returns (first: Tracked)
    requires IsAnswer(a, reply) && |a.raw| <= MAX_RETAINED_BYTES
    ensures Next(Tracked(Armed(route, 2, [], 0, reply), EMPTY), Server(a), requestId) == Some(first)
    ensures var entry := Entry(reply, a.raw, route, requestId(a.headers));
            first == Tracked(Armed(route, 1, [entry], |a.raw|, reply), Arrive(EMPTY, a, Held))
  {
    var entry := Entry(reply, a.raw, route, requestId(a.headers));
    AnswerIsHeld(route, 2, [], 0, reply, a, requestId);
    assert Put([], entry) == [entry];
    first := Tracked(Armed(route, 1, [entry], |a.raw|, reply), Arrive(EMPTY, a, Held));
  }

  lemma SecondAnswer(route: bytes, reply: bytes, a: Record, b: Record, requestId: Option<bytes> -> Option<bytes>,
                     first: Tracked)
    requires IsAnswer(a, reply) && IsAnswer(b, reply) && |a.raw| + |b.raw| <= MAX_RETAINED_BYTES
    requires var entry := Entry(reply, a.raw, route, requestId(a.headers));
             first == Tracked(Armed(route, 1, [entry], |a.raw|, reply), Arrive(EMPTY, a, Held))
    ensures var r := Next(first, Server(b), requestId);
            r.Some? && r.value.ledger.arrivals == [a, b] && r.value.ledger.fates == [Lost, Held]
  {
    AnswerIsHeld(route, 1, first.state.held, |a.raw|, reply, b, requestId);
    assert Find(first.state.held, reply) == 0;
    assert first.ledger.arrivals == [a] && first.ledger.fates == [Held] && first.ledger.heldIds == [0];
    assert AfterRecord(first, b) == Overwrite(first.ledger, 0, b);
    assert [a] + [b] == [a, b] && [Held][0 := Lost] + [Held] == [Lost, Held];
  }

  // ----- Chunks -----

  function AsOperations(records: seq<Record>): seq<Operation> {
    seq(|records|, i requires 0 <= i < |records| => Server(records[i]))
  }

  lemma AsOperationsFront(records: seq<Record>)
    requires records != []
    ensures var n := |records| - 1;
            AsOperations(records)[..n] == AsOperations(records[..n]) && AsOperations(records)[n] == Server(records[n])
  {
  }

  function Extended(forwarded: seq<bytes>, forward: bool, raw: bytes): seq<bytes> {
    if forward then forwarded + [raw] else forwarded
  }

  /** A step treats a server record as the gate does, and its ledger records what is forwarded. */
  ghost predicate Follows(step: Step, consider: (State, Record) -> Considered) {
    forall t: Tracked, record: Record ::
      var c, r := consider(t.state, record), step(t, Server(record));
      && (r.Some? <==> c.forward.Ok?)
      && (r.Some? ==> r.value.state == c.state
                      && r.value.ledger.forwarded == Extended(t.ledger.forwarded, c.forward.value, record.raw))
  }

  lemma RecordForwards(t: Tracked, record: Record)
    ensures AfterRecord(t, record).forwarded ==
              Extended(t.ledger.forwarded,
                       Decide(t.state, record) == Pass || Decide(t.state, record) == Push, record.raw)
  {
  }

  lemma NextFollows(requestId: Option<bytes> -> Option<bytes>)
    ensures Follows(Stepping(requestId), Considering(requestId))
  {
    forall t: Tracked, record: Record
      ensures var c, r := Consider(t.state, record, requestId), Next(t, Server(record), requestId);
              && (r.Some? <==> c.forward.Ok?)
              && (r.Some? ==> r.value.state == c.state
                              && r.value.ledger.forwarded == Extended(t.ledger.forwarded, c.forward.value, record.raw))
    {
      RecordForwards(t, record);
    }
  }

  lemma {:induction false} ChunkFollows(t: Tracked, records: seq<Record>, step: Step,
                                        consider: (State, Record) -> Considered)
    requires Follows(step, consider)
    ensures var i, r := InTurn(t.state, records, consider), Run(t, AsOperations(records), step);
            && (r.Some? <==> i.out.Ok?)
            && (r.Some? ==> r.value.state == i.state && r.value.ledger.forwarded == t.ledger.forwarded + i.out.value)
  {
    if records == [] {
      assert t.ledger.forwarded + [] == t.ledger.forwarded;
    } else {
      var n := |records| - 1;
      ChunkFollows(t, records[..n], step, consider);
      AsOperationsFront(records);
    }
  }

  /** What a chunk forwards is what its records add to the forwarded bytes. */
  lemma ChunkIsRun(t: Tracked, records: seq<Record>, requestId: Option<bytes> -> Option<bytes>)
    ensures var i, r := InTurn(t.state, records, Considering(requestId)),
                        Run(t, AsOperations(records), Stepping(requestId));
            && (r.Some? <==> i.out.Ok?)
            && (r.Some? ==> r.value.state == i.state && r.value.ledger.forwarded == t.ledger.forwarded + i.out.value)
  {
    NextFollows(requestId);
    ChunkFollows(t, records, Stepping(requestId), Considering(requestId));
  }
}
