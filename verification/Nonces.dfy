/** The request verifier: proofs are good within a clock skew, and a nonce is good once. */
module Nonces {
  import opened Wrappers

  const MAX_SKEW_MS: int := 60_000

  /** What a decimal reading of a header gives. */
  datatype Number = NotANumber | Infinite | Finite(value: real)

  datatype Request = Request(
    verb: string,
    target: string,
    length: Option<string>,
    timestamp: Option<string>,
    nonce: Option<string>,
    signature: Option<string>)

  /** The number reading and the signature check of signed fields. */
  datatype Host = Host(number: string -> Number, signed: (string, string) -> bool)

  datatype Refusal = Missing | OutsideSkew | Replayed | Invalid

  predicate Present(header: Option<string>) {
    header.Some? && header.value != ""
  }

  predicate HasProof(q: Request) {
    Present(q.timestamp) && Present(q.nonce) && Present(q.signature)
  }

  function Canonical(q: Request): string
    requires HasProof(q)
  {
    var declared := if q.length.Some? then q.length.value else "-";
    "trellis-benchmark-http-request-v1" + "\n" + q.verb + "\n" + q.target + "\n" + declared + "\n"
    + q.timestamp.value + "\n" + q.nonce.value
  }

  predicate Signed(host: Host, q: Request)
    requires HasProof(q)
  {
    host.signed(Canonical(q), q.signature.value)
  }

  function Abs(x: real): real {
    if x < 0.0 then -x else x
  }

  /** Any comparison with a value that is not a number is false. */
  predicate Skewed(t: Number, now: int) {
    match t
    case NotANumber => false
    case Infinite => true
    case Finite(value) => Abs(now as real - value) > MAX_SKEW_MS as real
  }

  type Seen = map<string, int>

  function Evicted(seen: Seen, now: int): Seen {
    map key | key in seen && now - seen[key] <= 2 * MAX_SKEW_MS :: seen[key]
  }

  class Verifier {
    const host: Host
    var seen: Seen

    constructor (host: Host)
      ensures this.host == host && seen == map[]
    {
      this.host, seen := host, map[];
    }

    /** Drops the nonces that are too old to matter. */
    method Evict(now: int)
      modifies `seen
      ensures seen == Evicted(old(seen), now)
    {
      var keys := seen.Keys;
      while keys != {}
        invariant keys <= old(seen).Keys && seen.Keys <= old(seen).Keys
        invariant forall key :: key in seen ==> seen[key] == old(seen)[key]
        invariant forall key :: key in keys ==> key in seen
        invariant forall key :: key in old(seen) && key !in keys ==>
                    (key in seen <==> now - old(seen)[key] <= 2 * MAX_SKEW_MS)
        decreases |keys|
      {
        var key :| key in keys;
        if now - seen[key] > 2 * MAX_SKEW_MS {
          seen := seen - {key};
        }
        keys := keys - {key};
      }
    }

    method Check(q: Request, now: int) returns (r: Option<Refusal>)
      modifies `seen
      ensures (r, seen) == Turn(host, old(seen), q, now)
    {
      if !HasProof(q) {
        return Some(Missing);
      }
      if Skewed(host.number(q.timestamp.value), now) {
        return Some(OutsideSkew);
      }
      Evict(now);
      if q.nonce.value in seen {
        return Some(Replayed);
      }
      if !Signed(host, q) {
        return Some(Invalid);
      }
      seen := seen[q.nonce.value := now];
      return None;
    }
  }

  /** One request: the refusal, if any, and the nonces remembered afterwards. */
  function Turn(host: Host, seen: Seen, q: Request, now: int): (Option<Refusal>, Seen) {
    if !HasProof(q) then (Some(Missing), seen)
    else if Skewed(host.number(q.timestamp.value), now) then (Some(OutsideSkew), seen)
    else
      var kept := Evicted(seen, now);
      if q.nonce.value in kept then (Some(Replayed), kept)
      else if !Signed(host, q) then (Some(Invalid), kept)
      else (None, kept[q.nonce.value := now])
  }

  // ----- Runs -----

  datatype Event = Event(request: Request, now: int)

  function SeenAfter(host: Host, run: seq<Event>): Seen {
    if run == [] then map[]
    else
      var last := run[|run| - 1];
      Turn(host, SeenAfter(host, run[..|run| - 1]), last.request, last.now).1
  }

  predicate Accepted(host: Host, run: seq<Event>, i: nat)
    requires i < |run|
  {
    Turn(host, SeenAfter(host, run[..i]), run[i].request, run[i].now).0.None?
  }

  predicate AcceptedNonce(host: Host, run: seq<Event>, i: nat, nonce: string)
    requires i < |run|
  {
    Accepted(host, run, i) && run[i].request.nonce == Some(nonce)
  }

  lemma AcceptanceOfPrefix(host: Host, run: seq<Event>, i: nat, n: nat)
    requires i < n <= |run|
    ensures Accepted(host, run[..n], i) <==> Accepted(host, run, i)
    ensures run[..n][i] == run[i]
  {
    assert run[..n][..i] == run[..i];
  }

  // ----- What is remembered, whatever the clock does -----

  /** A request whose proof is there and within the skew makes the verifier forget old nonces, signed or not. */
  predicate Evicts(host: Host, e: Event) {
    HasProof(e.request) && !Skewed(host.number(e.request.timestamp.value), e.now)
  }

  /** No request before `n` came more than twice the skew after event `i` and made the verifier forget it. */
  predicate Kept(host: Host, run: seq<Event>, i: nat, n: nat)
    requires i < |run| && n <= |run|
  {
    forall k :: i < k < n && Evicts(host, run[k]) ==> run[k].now - run[i].now <= 2 * MAX_SKEW_MS
  }

  lemma KeptInPrefix(host: Host, run: seq<Event>, i: nat, n: nat)
    requires i < n <= |run|
    ensures Kept(host, run[..n], i, n) <==> Kept(host, run, i, n)
  {
    assert forall k :: 0 <= k < n ==> run[..n][k] == run[k];
  }

  lemma KeptShorter(host: Host, run: seq<Event>, i: nat, n: nat)
    requires i < n <= |run| && Kept(host, run, i, |run|)
    ensures Kept(host, run[..n], i, n)
  {
    KeptInPrefix(host, run, i, n);
  }

  /** An accepted nonce stays in memory, with its time, as long as it is kept. */
  lemma {:induction false} KeptIsRemembered(host: Host, run: seq<Event>, i: nat, nonce: string)
    requires i < |run| && AcceptedNonce(host, run, i, nonce) && Kept(host, run, i, |run|)
    ensures nonce in SeenAfter(host, run) && SeenAfter(host, run)[nonce] == run[i].now
  {
    var n := |run| - 1;
    var front := run[..n];
    if i < n {
      AcceptanceOfPrefix(host, run, i, n);
      KeptShorter(host, run, i, n);
      KeptIsRemembered(host, front, i, nonce);
    } else {
      assert front == run[..i];
    }
  }

  lemma {:induction false} RememberedWasAccepted(host: Host, run: seq<Event>, nonce: string) returns (i: nat)
    requires nonce in SeenAfter(host, run)
    ensures i < |run| && AcceptedNonce(host, run, i, nonce) && run[i].now == SeenAfter(host, run)[nonce]
    ensures Kept(host, run, i, |run|)
  {
    var n := |run| - 1;
    var front := run[..n];
    if AcceptedNonce(host, run, n, nonce) {
      i := n;
    } else {
      i := RememberedWasAccepted(host, front, nonce);
      AcceptanceOfPrefix(host, run, i, n);
      KeptInPrefix(host, run, i, n);
    }
  }

  /** The nonce was accepted before, and no request since then, this one included, came too late to keep it. */
  predicate Known(host: Host, run: seq<Event>, j: nat, nonce: string)
    requires j < |run|
  {
    exists i :: 0 <= i < j && KnownFrom(host, run, i, j, nonce)
  }

  predicate KnownFrom(host: Host, run: seq<Event>, i: nat, j: nat, nonce: string)
    requires i < j < |run|
  {
    && AcceptedNonce(host, run, i, nonce) && Kept(host, run, i, j)
    && run[j].now - run[i].now <= 2 * MAX_SKEW_MS
  }

  lemma MemoryIsHistory(host: Host, run: seq<Event>, j: nat, nonce: string)
    requires j < |run|
    ensures nonce in Evicted(SeenAfter(host, run[..j]), run[j].now) <==> Known(host, run, j, nonce)
  {
    var front := run[..j];
    if nonce in Evicted(SeenAfter(host, front), run[j].now) {
      var i := RememberedWasAccepted(host, front, nonce);
      AcceptanceOfPrefix(host, run, i, j);
      KeptInPrefix(host, run, i, j);
      assert KnownFrom(host, run, i, j, nonce);
    }
    if Known(host, run, j, nonce) {
      var i :| 0 <= i < j && KnownFrom(host, run, i, j, nonce);
      AcceptanceOfPrefix(host, run, i, j);
      KeptInPrefix(host, run, i, j);
      KeptIsRemembered(host, front, i, nonce);
    }
  }

  predicate InOrder(host: Host, e: Event) {
    Evicts(host, e) && Signed(host, e.request)
  }

  /** In every run, with any clock: what acceptance means in terms of the history alone. */
  lemma AcceptedByAnyClock(host: Host, run: seq<Event>, j: nat)
    requires j < |run|
    ensures Accepted(host, run, j) <==>
            InOrder(host, run[j]) && !Known(host, run, j, run[j].request.nonce.value)
  {
    if Evicts(host, run[j]) {
      MemoryIsHistory(host, run, j, run[j].request.nonce.value);
    }
  }

  // ----- A clock that never goes back -----

  predicate Timely(run: seq<Event>) {
    forall i, j :: 0 <= i < j < |run| ==> run[i].now <= run[j].now
  }

  /** The nonce was accepted before, no more than twice the skew ago. */
  predicate RecentlyUsed(host: Host, run: seq<Event>, j: nat, nonce: string)
    requires j < |run|
  {
    exists i :: 0 <= i < j && AcceptedNonce(host, run, i, nonce) && run[j].now - run[i].now <= 2 * MAX_SKEW_MS
  }

  /** What acceptance means without any memory of nonces. */
  predicate Deserved(host: Host, run: seq<Event>, j: nat)
    requires j < |run|
  {
    InOrder(host, run[j]) && !RecentlyUsed(host, run, j, run[j].request.nonce.value)
  }

  /** The evicting memory is as good as the whole history, in every run whose clock never goes back. */
  lemma AcceptedExactly(host: Host, run: seq<Event>, j: nat)
    requires Timely(run) && j < |run|
    ensures Accepted(host, run, j) <==> Deserved(host, run, j)
  {
    AcceptedByAnyClock(host, run, j);
    if InOrder(host, run[j]) {
      RecentIsKnown(host, run, j, run[j].request.nonce.value);
    }
  }

  lemma RecentIsKnown(host: Host, run: seq<Event>, j: nat, nonce: string)
    requires Timely(run) && j < |run|
    ensures Known(host, run, j, nonce) <==> RecentlyUsed(host, run, j, nonce)
  {
    if RecentlyUsed(host, run, j, nonce) {
      var i :| 0 <= i < j && AcceptedNonce(host, run, i, nonce) && run[j].now - run[i].now <= 2 * MAX_SKEW_MS;
      assert KnownFrom(host, run, i, j, nonce);
    }
    if Known(host, run, j, nonce) {
      var i :| 0 <= i < j && KnownFrom(host, run, i, j, nonce);
    }
  }

  // ----- Single use -----

  /** Two acceptances of a numeric timestamp are at most twice the skew apart. */
  lemma SkewBoundsTheGap(t: real, earlier: int, later: int)
    requires !Skewed(Finite(t), earlier) && !Skewed(Finite(t), later)
    ensures later - earlier <= 2 * MAX_SKEW_MS
  {
    assert later as real - earlier as real <= 2.0 * MAX_SKEW_MS as real;
  }

  /** The two events carry one nonce and one numeric timestamp. */
  predicate SameProof(host: Host, a: Event, b: Event) {
    && HasProof(a.request) && HasProof(b.request) && a.request.nonce == b.request.nonce
    && host.number(a.request.timestamp.value).Finite?
    && host.number(b.request.timestamp.value) == host.number(a.request.timestamp.value)
  }

  /** A request between the two came more than twice the skew after the first. */
  predicate Forgotten(host: Host, run: seq<Event>, i: nat, j: nat)
    requires i < j < |run|
  {
    exists k :: i < k < j && Evicts(host, run[k]) && run[k].now - run[i].now > 2 * MAX_SKEW_MS
  }

  /** The latest acceptance of its nonce before event `j` is event `i`, of the same proof. */
  predicate LastAccepted(host: Host, run: seq<Event>, i: nat, j: nat)
    requires i < j < |run|
  {
    && Accepted(host, run, i) && SameProof(host, run[i], run[j])
    && forall k :: i < k < j ==> !AcceptedNonce(host, run, k, run[j].request.nonce.value)
  }

  /**
   With any clock, a proof in order that was accepted before is accepted again if and only if a
   request in between was checked more than twice the skew after the first acceptance; and then
   the clock has gone back since.
   */
  lemma AcceptedAgainExactly(host: Host, run: seq<Event>, i: nat, j: nat)
    requires i < j < |run| && LastAccepted(host, run, i, j) && InOrder(host, run[j])
    ensures Accepted(host, run, j) <==> Forgotten(host, run, i, j)
    ensures Accepted(host, run, j) ==> GoesBack(run, i, j)
  {
    var nonce := run[j].request.nonce.value;
    AcceptedByAnyClock(host, run, i);
    AcceptedByAnyClock(host, run, j);
    GapIsBounded(host, run, i, j);
    if Known(host, run, j, nonce) {
      var h :| 0 <= h < j && KnownFrom(host, run, h, j, nonce);
      if h < i {
        assert KnownFrom(host, run, h, i, nonce);
      }
    } else {
      assert !KnownFrom(host, run, i, j, nonce);
    }
    if Forgotten(host, run, i, j) {
      ForgottenGoesBack(host, run, i, j);
    }
  }

  lemma GapIsBounded(host: Host, run: seq<Event>, i: nat, j: nat)
    requires i < j < |run| && Accepted(host, run, i) && Evicts(host, run[j]) && SameProof(host, run[i], run[j])
    ensures run[j].now - run[i].now <= 2 * MAX_SKEW_MS
  {
    AcceptedByAnyClock(host, run, i);
    SkewBoundsTheGap(host.number(run[i].request.timestamp.value).value, run[i].now, run[j].now);
  }

  /** Between the two the clock reads later than at the second. */
  predicate GoesBack(run: seq<Event>, i: nat, j: nat)
    requires i < j < |run|
  {
    exists k :: i < k < j && run[k].now > run[j].now
  }

  lemma ForgottenGoesBack(host: Host, run: seq<Event>, i: nat, j: nat)
    requires i < j < |run| && Accepted(host, run, i) && Evicts(host, run[j]) && SameProof(host, run[i], run[j])
    requires Forgotten(host, run, i, j)
    ensures GoesBack(run, i, j)
  {
    var k :| i < k < j && Evicts(host, run[k]) && run[k].now - run[i].now > 2 * MAX_SKEW_MS;
    GapIsBounded(host, run, i, j);
    assert run[k].now > run[j].now;
  }

  /** Where the clock never goes back, a proof with a given numeric timestamp and nonce is accepted at most once. */
  lemma AcceptedAtMostOnce(host: Host, run: seq<Event>, i: nat, j: nat)
    requires Timely(run) && i < j < |run| && Accepted(host, run, i) && HasProof(run[i].request)
    requires HasProof(run[j].request)
    requires run[i].request.nonce == run[j].request.nonce
    requires var t := host.number(run[i].request.timestamp.value);
             t.Finite? && host.number(run[j].request.timestamp.value) == t
    ensures !Accepted(host, run, j)
  {
    AcceptedExactly(host, run, i);
    AcceptedExactly(host, run, j);
    var t := host.number(run[i].request.timestamp.value).value;
    if Accepted(host, run, j) {
      SkewBoundsTheGap(t, run[i].now, run[j].now);
      assert AcceptedNonce(host, run, i, run[j].request.nonce.value);
    }
  }

  /**
   A clock that goes back: after the proof is accepted, any other request with a proof, even an
   unsigned one, is checked twice the skew later; then the clock is set back and the proof is
   accepted again.
   */
  lemma AcceptedTwiceWhenClockGoesBack(host: Host, q: Request, other: Request, now: int)
    requires InOrder(host, Event(q, now)) && HasProof(other) && other.nonce != q.nonce
    requires Evicts(host, Event(other, now + 2 * MAX_SKEW_MS + 1))
    ensures var run := [Event(q, now), Event(other, now + 2 * MAX_SKEW_MS + 1), Event(q, now)];
            Accepted(host, run, 0) && Accepted(host, run, 2)
  {
    var run := [Event(q, now), Event(other, now + 2 * MAX_SKEW_MS + 1), Event(q, now)];
    AcceptedByAnyClock(host, run, 0);
    AcceptedByAnyClock(host, run, 2);
    forall i | 0 <= i < 2
      ensures !KnownFrom(host, run, i, 2, q.nonce.value)
    {
      assert i == 0 || run[i].request.nonce != Some(q.nonce.value);
      assert Evicts(host, run[1]) && run[1].now - run[0].now > 2 * MAX_SKEW_MS;
    }
  }

  /** In no run whose clock never goes back is the request accepted twice. */
  ghost predicate SingleUse(host: Host, q: Request) {
    forall run: seq<Event>, i: nat, j: nat ::
      Timely(run) && i < j < |run| && run[i].request == q && run[j].request == q && Accepted(host, run, i)
      ==> !Accepted(host, run, j)
  }

  /** A signed request is single use exactly when its timestamp reads as a number. */
  lemma SingleUseExactly(host: Host, q: Request)
    requires HasProof(q) && Signed(host, q)
    ensures SingleUse(host, q) <==> host.number(q.timestamp.value) != NotANumber
  {
    var t := host.number(q.timestamp.value);
    if t.NotANumber? {
      var run := [Event(q, 0), Event(q, 2 * MAX_SKEW_MS + 1)];
      assert run[..0] == [] && run[..1] == [Event(q, 0)];
      AcceptedExactly(host, run, 0);
      AcceptedExactly(host, run, 1);
      assert Accepted(host, run, 0) && Accepted(host, run, 1);
    } else {
      forall run: seq<Event>, i: nat, j: nat | Timely(run) && i < j < |run| && run[i].request == q
      && run[j].request == q && Accepted(host, run, i)
        ensures !Accepted(host, run, j)
      {
        if t.Finite? {
          AcceptedAtMostOnce(host, run, i, j);
        } else {
          AcceptedExactly(host, run, j);
        }
      }
    }
  }
}
