/**
 The windowed credit transfer: a sender bounded by a window of unconsumed frames, a
 receiver that returns batched cumulative credits, and a FIFO channel each way.
 */
module CreditTransfer {
  import opened Wrappers
  import opened Decimal
  import opened Payload

  const WINDOW_BYTES: nat := 4 * 1024 * 1024
  const CREDIT_FRAMES: nat := 8
  const CREDIT_BYTES: nat := 1024 * 1024

  datatype Config = Config(size: nat, frameBytes: nat, requestedFrames: nat)

  predicate Usable(c: Config) {
    0 < c.frameBytes && c.size <= MAX_SAFE_INTEGER
  }

  /** The number of frames, `ceil(size / frameBytes)`. */
  function FrameCount(c: Config): nat
    requires c.frameBytes > 0
  {
    (c.size + c.frameBytes - 1) / c.frameBytes
  }

  function Window(c: Config): nat
    requires c.frameBytes > 0
  {
    Min(c.requestedFrames, WINDOW_BYTES / c.frameBytes)
  }

  /** Bytes covered by the first `k` frames. */
  function Covered(c: Config, k: nat): nat {
    Min(k * c.frameBytes, c.size)
  }

  datatype Frame = Frame(sequence: string, data: seq<byte>)

  /** The frame with this sequence number. */
  function FrameOf(c: Config, k: nat): Frame
    requires Usable(c) && 0 < k
  {
    var start := Covered(c, k - 1);
    Frame(Digits(k), ChunkAt(c.size, c.frameBytes, start))
  }

  /** The frames are the chunks that the streaming generator yields, in order. */
  lemma {:induction false} FramesAreTheChunks(c: Config, k: nat, i: nat)
    requires Usable(c) && k + i < FrameCount(c)
    ensures |ChunksFrom(c.size, c.frameBytes, Covered(c, k))| == FrameCount(c) - k
    ensures ChunksFrom(c.size, c.frameBytes, Covered(c, k))[i] == FrameOf(c, k + i + 1).data
    decreases FrameCount(c) - k
  {
    NextCovered(c, k);
    if k + 1 < FrameCount(c) {
      FramesAreTheChunks(c, k + 1, if i == 0 then 0 else i - 1);
    }
  }

  datatype State = State(
    sent: nat,
    consumed: nat,
    data: seq<Frame>,
    credits: seq<string>,
    sequence: nat,
    offset: nat,
    creditedSequence: nat,
    creditedBytes: nat,
    received: seq<byte>,
    done: bool)

  const START := State(0, 0, [], [], 0, 0, 0, 0, [], false)

  datatype Action = SendFrame | TakeCredit | ReceiveFrame

  datatype Outcome = Moved(state: State) | Rejected | NotEnabled

  predicate SenderDone(c: Config, s: State)
    requires c.frameBytes > 0
  {
    s.sent >= FrameCount(c) && s.consumed >= s.sent
  }

  predicate MaySend(c: Config, s: State)
    requires c.frameBytes > 0
  {
    s.sent < FrameCount(c) && s.sent < s.consumed + Window(c)
  }

  predicate Finished(c: Config, s: State)
    requires c.frameBytes > 0
  {
    SenderDone(c, s) && s.done
  }

  /** A cumulative credit as the sender reads it: a canonical decimal safe integer. */
  function ReadCursor(value: string): Option<nat> {
    if value != [] && AllDigits(value) && Digits(Value(value)) == value && Value(value) <= MAX_SAFE_INTEGER
    then Some(Value(value)) else None
  }

  /** The sender's turn that takes a credit. */
  function CreditTurn(s: State): Outcome
    requires s.credits != []
  {
    var cursor := ReadCursor(s.credits[0]);
    if cursor.None? || cursor.value <= s.consumed || cursor.value > s.sent then Rejected
    else Moved(s.(consumed := cursor.value, credits := s.credits[1..]))
  }

  /** The receiver's turn for one frame. */
  function ReceiveTurn(c: Config, s: State): Outcome
    requires s.data != []
  {
    var frame := s.data[0];
    var sequence := s.sequence + 1;
    if frame.sequence != Digits(sequence) || |frame.data| != Min(c.frameBytes, c.size - s.offset) then Rejected
    else
      var offset := s.offset + |frame.data|;
      var next := s.(data := s.data[1..], sequence := sequence, offset := offset, received := s.received + frame.data,
                     done := offset == c.size);
      if sequence >= s.creditedSequence + CREDIT_FRAMES || offset >= s.creditedBytes + CREDIT_BYTES || offset == c.size
      then Moved(next.(credits := s.credits + [Digits(sequence)], creditedSequence := sequence,
                       creditedBytes := offset))
      else Moved(next)
  }

  function Step(c: Config, s: State, a: Action): Outcome
    requires Usable(c)
  {
    match a
    case SendFrame =>
      if MaySend(c, s) then Moved(s.(sent := s.sent + 1, data := s.data + [FrameOf(c, s.sent + 1)])) else NotEnabled
    case TakeCredit =>
      if SenderDone(c, s) || MaySend(c, s) || s.credits == [] then NotEnabled else CreditTurn(s)
    case ReceiveFrame =>
      if s.done || s.data == [] then NotEnabled else ReceiveTurn(c, s)
  }

  // ----- Arithmetic -----

  lemma CountCovers(c: Config)
    requires c.frameBytes > 0
    ensures FrameCount(c) * c.frameBytes >= c.size
    ensures forall k: nat :: k < FrameCount(c) <==> k * c.frameBytes < c.size
  {
    var n, f := FrameCount(c), c.frameBytes;
    assert c.size + f - 1 == n * f + (c.size + f - 1) % f;
    forall k: nat
      ensures k < n <==> k * f < c.size
    {
      if k < n {
        Monotone(k, n - 1, f);
        assert (n - 1) * f == n * f - f;
      } else {
        Monotone(n, k, f);
      }
    }
  }

  lemma Monotone(a: nat, b: nat, f: nat)
    requires a <= b
    ensures a * f <= b * f
  {
  }

  /** Frame `k + 1` covers exactly the next stretch. */
  lemma NextCovered(c: Config, k: nat)
    requires c.frameBytes > 0 && k < FrameCount(c)
    ensures Covered(c, k) == k * c.frameBytes < c.size
    ensures Covered(c, k + 1) == Covered(c, k) + Min(c.frameBytes, c.size - Covered(c, k))
    ensures Covered(c, k + 1) == c.size <==> k + 1 == FrameCount(c)
  {
    CountCovers(c);
    assert (k + 1) * c.frameBytes == k * c.frameBytes + c.frameBytes;
    assert k + 1 < FrameCount(c) <==> (k + 1) * c.frameBytes < c.size;
  }

  lemma WindowFits(c: Config)
    requires c.frameBytes > 0
    ensures Window(c) * c.frameBytes <= WINDOW_BYTES
  {
    var q := WINDOW_BYTES / c.frameBytes;
    assert q * c.frameBytes <= WINDOW_BYTES;
    Monotone(Window(c), q, c.frameBytes);
  }

  lemma CountIsSafe(c: Config)
    requires Usable(c)
    ensures FrameCount(c) <= c.size
  {
    CountCovers(c);
    if FrameCount(c) > c.size {
      assert c.size < FrameCount(c);
      assert c.size * c.frameBytes < c.size;
      Monotone(1, c.frameBytes, c.size);
    }
  }

  lemma CursorRoundTrip(n: nat)
    requires n <= MAX_SAFE_INTEGER
    ensures ReadCursor(Digits(n)) == Some(n)
  {
    ValueOfDigits(n);
  }

  // ----- The invariant -----

  /** Credits on their way increase from what the sender consumed to what was last credited. */
  predicate CreditsInFlight(s: State) {
    if s.credits == [] then s.consumed == s.creditedSequence
    else
      && (forall i :: 0 <= i < |s.credits| ==> ReadCursor(s.credits[i]).Some?)
      && s.consumed < ReadCursor(s.credits[0]).value
      && ReadCursor(s.credits[|s.credits| - 1]).value == s.creditedSequence
      && forall i :: 0 <= i < |s.credits| - 1 ==> ReadCursor(s.credits[i]).value < ReadCursor(s.credits[i + 1]).value
  }

  predicate FramesInFlight(c: Config, s: State)
    requires Usable(c)
  {
    && |s.data| == s.sent - s.sequence
    && forall i :: 0 <= i < |s.data| ==> s.data[i] == FrameOf(c, s.sequence + i + 1)
  }

  predicate Invariant(c: Config, s: State)
    requires Usable(c)
  {
    && s.consumed <= s.creditedSequence <= s.sequence <= s.sent <= FrameCount(c)
    && s.sent - s.consumed <= Window(c)
    && FramesInFlight(c, s)
    && CreditsInFlight(s)
    && s.offset == Covered(c, s.sequence)
    && s.creditedBytes == Covered(c, s.creditedSequence)
    && s.received == Fixture(c.size)[..s.offset]
    && (s.done <==> s.sequence == FrameCount(c))
    && (s.done ==> s.creditedSequence == s.sequence)
    && s.sequence - s.creditedSequence < CREDIT_FRAMES
    && s.offset - s.creditedBytes < CREDIT_BYTES
  }

  lemma StartHolds(c: Config)
    requires Usable(c) && c.size > 0
    ensures Invariant(c, START)
  {
    CountCovers(c);
    assert 0 * c.frameBytes == 0;
    assert 0 < FrameCount(c);
  }

  lemma SendKeeps(c: Config, s: State)
    requires Usable(c) && Invariant(c, s) && MaySend(c, s)
    ensures Invariant(c, Step(c, s, SendFrame).state)
  {
  }

  lemma CreditKeeps(c: Config, s: State)
    requires Usable(c) && Invariant(c, s) && s.credits != []
    ensures CreditTurn(s).Moved? && Invariant(c, CreditTurn(s).state)
  {
    var last := |s.credits| - 1;
    CreditsIncrease(s, 0, last);
    var n := CreditTurn(s).state;
    if last > 0 {
      assert n.credits[|n.credits| - 1] == s.credits[last];
      assert n.credits[0] == s.credits[1];
    }
  }

  lemma {:induction false} CreditsIncrease(s: State, i: nat, j: nat)
    requires CreditsInFlight(s) && i <= j < |s.credits|
    ensures ReadCursor(s.credits[i]).value <= ReadCursor(s.credits[j]).value
    decreases j - i
  {
    if i < j {
      CreditsIncrease(s, i, j - 1);
    }
  }

  lemma ReceiveKeeps(c: Config, s: State)
    requires Usable(c) && Invariant(c, s) && !s.done && s.data != []
    ensures ReceiveTurn(c, s).Moved? && Invariant(c, ReceiveTurn(c, s).state)
  {
    FrameIsExpected(c, s);
    var k := s.sequence;
    NextCovered(c, k);
    CountIsSafe(c);
    CursorRoundTrip(k + 1);
    var n := ReceiveTurn(c, s).state;
    NextFrames(c, s, n);
    if n.creditedSequence == k + 1 {
      CreditAppended(s, n, k + 1);
    }
  }

  /** The next frame is the one the receiver expects, and extends what it has. */
  lemma FrameIsExpected(c: Config, s: State)
    requires Usable(c) && Invariant(c, s) && !s.done && s.data != []
    ensures s.data[0].sequence == Digits(s.sequence + 1)
    ensures |s.data[0].data| == Min(c.frameBytes, c.size - s.offset)
    ensures s.offset + |s.data[0].data| == Covered(c, s.sequence + 1)
    ensures s.received + s.data[0].data == Fixture(c.size)[..Covered(c, s.sequence + 1)]
  {
    assert s.data[0] == FrameOf(c, s.sequence + 1);
    NextCovered(c, s.sequence);
    var whole := Fixture(c.size);
    assert whole[..s.offset] + whole[s.offset..Covered(c, s.sequence + 1)] == whole[..Covered(c, s.sequence + 1)];
  }

  lemma NextFrames(c: Config, s: State, n: State)
    requires Usable(c) && FramesInFlight(c, s) && s.data != []
    requires n.data == s.data[1..] && n.sequence == s.sequence + 1 && n.sent == s.sent
    ensures FramesInFlight(c, n)
  {
    forall i | 0 <= i < |n.data|
      ensures n.data[i] == FrameOf(c, n.sequence + i + 1)
    {
      assert n.data[i] == s.data[i + 1];
    }
  }

  lemma CreditAppended(s: State, n: State, k: nat)
    requires CreditsInFlight(s) && s.consumed <= s.creditedSequence < k && ReadCursor(Digits(k)) == Some(k)
    requires n.credits == s.credits + [Digits(k)] && n.creditedSequence == k && n.consumed == s.consumed
    ensures CreditsInFlight(n)
  {
    if s.credits != [] {
      CreditsIncrease(s, 0, |s.credits| - 1);
      assert n.credits[0] == s.credits[0];
    }
  }

  /** No check ever rejects, and every enabled step keeps the invariant. */
  lemma StepKeepsInvariant(c: Config, s: State, a: Action)
    requires Usable(c) && Invariant(c, s)
    ensures !Step(c, s, a).Rejected?
    ensures Step(c, s, a).Moved? ==> Invariant(c, Step(c, s, a).state)
  {
    match a
    case SendFrame =>
      if MaySend(c, s) {
        SendKeeps(c, s);
      }
    case TakeCredit =>
      if s.credits != [] {
        CreditKeeps(c, s);
      }
    case ReceiveFrame =>
      if !s.done && s.data != [] {
        ReceiveKeeps(c, s);
      }
  }

  // ----- Runs -----

  /** The state after a schedule of actions, when each was enabled. */
  function Run(c: Config, schedule: seq<Action>): Option<State>
    requires Usable(c)
  {
    if schedule == [] then Some(START)
    else
      var before := Run(c, schedule[..|schedule| - 1]);
      if before.None? then None
      else
        var o := Step(c, before.value, schedule[|schedule| - 1]);
        if o.Moved? then Some(o.state) else None
  }

  lemma {:induction false} RunKeepsInvariant(c: Config, schedule: seq<Action>)
    requires Usable(c) && c.size > 0 && Run(c, schedule).Some?
    ensures Invariant(c, Run(c, schedule).value)
  {
    if schedule == [] {
      StartHolds(c);
    } else {
      RunKeepsInvariant(c, schedule[..|schedule| - 1]);
      StepKeepsInvariant(c, Run(c, schedule[..|schedule| - 1]).value, schedule[|schedule| - 1]);
    }
  }

  /**
   In every run: consumed <= credited <= received <= sent <= frame count, the frames in
   flight fit the window and so 4 MiB, the received bytes are the fixture's, and the next
   step is never rejected.
   */
  lemma RunIsSafe(c: Config, schedule: seq<Action>, a: Action)
    requires Usable(c) && c.size > 0 && Run(c, schedule).Some?
    ensures var s := Run(c, schedule).value;
            && s.consumed <= s.creditedSequence <= s.sequence <= s.sent <= FrameCount(c)
            && s.sent - s.consumed <= Window(c)
            && InFlightBytes(s.data) <= WINDOW_BYTES
            && s.offset <= c.size && s.received == Fixture(c.size)[..s.offset]
            && !Step(c, s, a).Rejected?
  {
    RunKeepsInvariant(c, schedule);
    var s := Run(c, schedule).value;
    StepKeepsInvariant(c, s, a);
    FramesAreBounded(c, s, 0);
    assert s.data[0..] == s.data;
    Monotone(|s.data|, Window(c), c.frameBytes);
    WindowFits(c);
  }

  function InFlightBytes(data: seq<Frame>): nat {
    if data == [] then 0 else |data[0].data| + InFlightBytes(data[1..])
  }

  lemma {:induction false} FramesAreBounded(c: Config, s: State, k: nat)
    requires Usable(c) && FramesInFlight(c, s) && k <= |s.data|
    ensures InFlightBytes(s.data[k..]) <= (|s.data| - k) * c.frameBytes
    decreases |s.data| - k
  {
    if k < |s.data| {
      FramesAreBounded(c, s, k + 1);
      assert s.data[k..][1..] == s.data[k + 1..];
      assert (|s.data| - k) * c.frameBytes == (|s.data| - k - 1) * c.frameBytes + c.frameBytes;
    }
  }

  /** At the end the receiver holds the fixture, so its digest matches any chunking's. */
  lemma FinishedRunDelivers(c: Config, schedule: seq<Action>, digest: seq<byte> -> string, chunkBytes: nat)
    requires Usable(c) && c.size > 0 && chunkBytes > 0 && Run(c, schedule).Some? && Finished(c, Run(c, schedule).value)
    ensures var s := Run(c, schedule).value;
            && s.received == Fixture(c.size)
            && s.sequence == s.sent == s.consumed == FrameCount(c)
            && digest(s.received) == digest(Concat(ChunksFrom(c.size, chunkBytes, 0)))
  {
    RunKeepsInvariant(c, schedule);
    CountCovers(c);
    NextCovered(c, FrameCount(c) - 1);
    ChunksAreTheFixture(c.size, chunkBytes, 0);
    assert Fixture(c.size)[0..] == Fixture(c.size) == Fixture(c.size)[..c.size];
  }

  // ----- Progress -----

  /** No action is possible although the transfer is not over. */
  predicate Stuck(c: Config, s: State)
    requires Usable(c)
  {
    !Finished(c, s) && forall a :: Step(c, s, a).NotEnabled?
  }

  /**
   The window is large enough: the whole transfer fits it, or a full window reaches one of
   the receiver's two credit thresholds.
   */
  predicate WindowSuffices(c: Config)
    requires c.frameBytes > 0
  {
    FrameCount(c) <= Window(c) || Window(c) >= CREDIT_FRAMES || Window(c) * c.frameBytes >= CREDIT_BYTES
  }

  /** Frames of at most 1 MiB with a requested window of at least 8 frames are always enough. */
  lemma RequestedWindowSuffices(c: Config)
    requires 0 < c.frameBytes <= 1024 * 1024 && c.requestedFrames >= 8
    ensures WindowSuffices(c)
  {
    var q := WINDOW_BYTES / c.frameBytes;
    if Window(c) < CREDIT_FRAMES {
      assert Window(c) == q;
      assert WINDOW_BYTES == q * c.frameBytes + WINDOW_BYTES % c.frameBytes;
    }
  }

  /** A full window that is received but not credited would have crossed a credit threshold. */
  lemma FullWindowIsCredited(c: Config, s: State)
    requires Usable(c) && Invariant(c, s) && WindowSuffices(c) && !s.done
    ensures s.sequence - s.creditedSequence < Window(c) || FrameCount(c) <= Window(c)
  {
    var k := s.creditedSequence;
    NextCovered(c, s.sequence);
    NextCovered(c, k);
    WiderStretch(k, s.sequence, Window(c), c.frameBytes);
  }

  lemma WiderStretch(k: nat, sequence: nat, window: nat, f: nat)
    requires k <= sequence
    ensures sequence - k >= window ==> sequence * f - k * f >= window * f
  {
    assert sequence * f - k * f == (sequence - k) * f;
  }

  /** In every reachable unfinished state some action is possible. */
  lemma NotStuck(c: Config, s: State)
    requires Usable(c) && Invariant(c, s) && WindowSuffices(c) && !Finished(c, s)
    ensures !Step(c, s, SendFrame).NotEnabled? || !Step(c, s, TakeCredit).NotEnabled?
            || !Step(c, s, ReceiveFrame).NotEnabled?
  {
    if !s.done {
      FullWindowIsCredited(c, s);
    }
  }

  /** Every step uses up some of this. */
  function Measure(c: Config, s: State): int
    requires c.frameBytes > 0
  {
    3 * (FrameCount(c) - s.sent) + 2 * |s.data| + |s.credits|
  }

  lemma StepDecreases(c: Config, s: State, a: Action)
    requires Usable(c) && Invariant(c, s) && Step(c, s, a).Moved?
    ensures 0 <= Measure(c, Step(c, s, a).state) < Measure(c, s)
  {
    StepKeepsInvariant(c, s, a);
  }

  /** No run is longer than three steps per frame. */
  lemma {:induction false} RunsAreShort(c: Config, schedule: seq<Action>)
    requires Usable(c) && c.size > 0 && Run(c, schedule).Some?
    ensures |schedule| + Measure(c, Run(c, schedule).value) <= 3 * FrameCount(c)
  {
    if schedule != [] {
      var front := schedule[..|schedule| - 1];
      RunsAreShort(c, front);
      RunKeepsInvariant(c, front);
      StepDecreases(c, Run(c, front).value, schedule[|schedule| - 1]);
    }
  }

  // ----- A window that is too small -----

  /** After sending `i` and receiving `j` frames with no credit yet. */
  function Uncredited(c: Config, i: nat, j: nat): State
    requires Usable(c) && j <= i
  {
    State(i, 0, seq(i - j, k requires 0 <= k < i - j => FrameOf(c, j + k + 1)), [], j, Covered(c, j), 0, 0,
          Fixture(c.size)[..Covered(c, j)], false)
  }

  function Sends(n: nat): seq<Action> {
    seq(n, i => SendFrame)
  }

  function Receives(n: nat): seq<Action> {
    seq(n, i => ReceiveFrame)
  }

  lemma {:induction false} SendingFillsTheWindow(c: Config, i: nat)
    requires Usable(c) && c.size > 0 && i <= Window(c) && i <= FrameCount(c)
    ensures Run(c, Sends(i)) == Some(Uncredited(c, i, 0))
    decreases i
  {
    assert 0 * c.frameBytes == 0;
    if i == 0 {
      assert Uncredited(c, 0, 0) == START;
    } else {
      SendingFillsTheWindow(c, i - 1);
      assert Sends(i)[..i - 1] == Sends(i - 1);
      assert Uncredited(c, i, 0).data == Uncredited(c, i - 1, 0).data + [FrameOf(c, i)];
    }
  }

  lemma {:induction false} ReceivingEarnsNoCredit(c: Config, j: nat)
    requires Usable(c) && c.size > 0 && !WindowSuffices(c) && j <= Window(c)
    ensures Run(c, Sends(Window(c)) + Receives(j)) == Some(Uncredited(c, Window(c), j))
    decreases j
  {
    var w := Window(c);
    if j == 0 {
      assert Sends(w) + Receives(0) == Sends(w);
      SendingFillsTheWindow(c, w);
    } else {
      LastReceive(w, j);
      ReceivingEarnsNoCredit(c, j - 1);
      ReceiveWithoutCredit(c, j - 1);
      RunOneMore(c, Sends(w) + Receives(j - 1), ReceiveFrame);
    }
  }

  lemma LastReceive(w: nat, j: nat)
    requires j > 0
    ensures Sends(w) + Receives(j) == (Sends(w) + Receives(j - 1)) + [ReceiveFrame]
  {
  }

  lemma RunOneMore(c: Config, schedule: seq<Action>, a: Action)
    requires Usable(c) && Run(c, schedule).Some? && Step(c, Run(c, schedule).value, a).Moved?
    ensures Run(c, schedule + [a]) == Some(Step(c, Run(c, schedule).value, a).state)
  {
    assert (schedule + [a])[..|schedule|] == schedule;
  }

  lemma ReceiveWithoutCredit(c: Config, j: nat)
    requires Usable(c) && !WindowSuffices(c) && j < Window(c)
    ensures Step(c, Uncredited(c, Window(c), j), ReceiveFrame) == Moved(Uncredited(c, Window(c), j + 1))
  {
    var w := Window(c);
    var s, n := Uncredited(c, w, j), Uncredited(c, w, j + 1);
    NextCovered(c, j);
    Monotone(j + 1, w, c.frameBytes);
    assert s.data[0] == FrameOf(c, j + 1);
    assert s.data[1..] == n.data;
    var whole := Fixture(c.size);
    assert whole[..Covered(c, j)] + whole[Covered(c, j)..Covered(c, j + 1)] == whole[..Covered(c, j + 1)];
  }

  /** A run can get stuck. */
  ghost predicate CanGetStuck(c: Config)
    requires Usable(c)
  {
    exists schedule :: Run(c, schedule).Some? && Stuck(c, Run(c, schedule).value)
  }

  /**
   For every positive size the transfer can never deadlock exactly when the window
   suffices.
   */
  lemma DeadlockFreeExactly(c: Config)
    requires Usable(c) && c.size > 0
    ensures !CanGetStuck(c) <==> WindowSuffices(c)
  {
    if WindowSuffices(c) {
      forall schedule | Run(c, schedule).Some?
        ensures !Stuck(c, Run(c, schedule).value)
      {
        RunKeepsInvariant(c, schedule);
        if !Finished(c, Run(c, schedule).value) {
          NotStuck(c, Run(c, schedule).value);
        }
      }
    } else {
      var w := Window(c);
      ReceivingEarnsNoCredit(c, w);
      var s := Uncredited(c, w, w);
      assert s.data == [];
      assert forall a :: Step(c, s, a).NotEnabled?;
      assert Stuck(c, Run(c, Sends(w) + Receives(w)).value);
    }
  }

  /** An empty transfer never finishes: the receiver waits for a frame that is never sent. */
  lemma EmptyTransferIsStuck(c: Config)
    requires Usable(c) && c.size == 0
    ensures Stuck(c, START)
  {
    assert FrameCount(c) == 0;
  }

  /** The two tasks under any interleaving: the transfer ends with the fixture delivered. */
  method Transfer(c: Config, prefer: nat -> Action) returns (received: seq<byte>)
    requires Usable(c) && c.size > 0 && WindowSuffices(c)
    ensures received == Fixture(c.size)
  {
    var s := START;
    var turn := 0;
    StartHolds(c);
    while !Finished(c, s)
      invariant Invariant(c, s)
      decreases Measure(c, s)
    {
      var o := Step(c, s, prefer(turn));
      ghost var taken := prefer(turn);
      if o.NotEnabled? {
        NotStuck(c, s);
        o, taken := Step(c, s, SendFrame), SendFrame;
        if o.NotEnabled? {
          o, taken := Step(c, s, TakeCredit), TakeCredit;
        }
        if o.NotEnabled? {
          o, taken := Step(c, s, ReceiveFrame), ReceiveFrame;
        }
      }
      StepKeepsInvariant(c, s, taken);
      StepDecreases(c, s, taken);
      s := o.state;
      turn := turn + 1;
    }
    CountCovers(c);
    NextCovered(c, FrameCount(c) - 1);
    assert Fixture(c.size)[..c.size] == Fixture(c.size);
    received := s.received;
  }
}
