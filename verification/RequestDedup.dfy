/**
 In-flight request de-duplication.  A call for a key with a pending entry shares its promise; otherwise
 it starts the request and enters a new promise.  `ttl` after a promise settles, a timer deletes the
 key's entry, whatever that entry is.

 Calls, settlements and timers are separate events, in any order the event loop can produce: a promise
 settles once, and its timer fires once, no earlier than `ttl` after the settlement.
 */
module RequestDedup {
  import opened Options

  /** One started request, numbered by its promise. */
  datatype Flight = Flight(key: string, ttl: int, startedAt: int, settledAt: Option<int>, firedAt: Option<int>)

  datatype Table = Table(pending: map<string, nat>, flights: seq<Flight>)

  /**
   `Reenter` is a call whose request function itself calls for the same key before it returns its
   promise, and so on; `inner` are the ttls of those calls, the deepest first.  A request function that
   throws at once changes nothing and needs no event.
   */
  datatype Event =
    | Call(key: string, ttl: int)
    | Reenter(key: string, inner: seq<int>, ttl: int)
    | Settle(p: nat)
    | Fire(p: nat)

  datatype Timed = At(now: int, event: Event)

  predicate Possible(s: Table, t: Timed) {
    match t.event
    case Call(_, _) => true
    case Reenter(_, inner, _) => inner != []
    case Settle(p) => p < |s.flights| && s.flights[p].settledAt.None?
    case Fire(p) => p < |s.flights| && s.flights[p].settledAt.Some? && s.flights[p].firedAt.None?
                    && t.now >= s.flights[p].settledAt.value + s.flights[p].ttl
  }

  /** Starting a request and entering its promise, over whatever entry there is. */
  function Started(s: Table, key: string, ttl: int, now: int): Table {
    Table(s.pending[key := |s.flights|], s.flights + [Flight(key, ttl, now, None, None)])
  }

  /** Starting one request of the key after the other; the last entry stays. */
  function StartedAll(s: Table, key: string, ttls: seq<int>, now: int): Table {
    if ttls == [] then s
    else Started(StartedAll(s, key, ttls[..|ttls| - 1], now), key, ttls[|ttls| - 1], now)
  }

  function Step(s: Table, t: Timed): Table
    requires Possible(s, t)
  {
    match t.event
    case Call(key, ttl) => if key in s.pending then s else Started(s, key, ttl, t.now)
    case Reenter(key, inner, ttl) => if key in s.pending then s else StartedAll(s, key, inner + [ttl], t.now)
    case Settle(p) => s.(flights := s.flights[p := s.flights[p].(settledAt := Some(t.now))])
    case Fire(p) =>
      Table(s.pending - {s.flights[p].key}, s.flights[p := s.flights[p].(firedAt := Some(t.now))])
  }

  /** The promise that a call for this key gets. */
  function PromiseFor(s: Table, key: string): nat {
    if key in s.pending then s.pending[key] else |s.flights|
  }

  class Deduplicator {
    var pendingRequests: map<string, nat>
    var flights: seq<Flight>

    ghost function State(): Table
      reads this
    {
      Table(pendingRequests, flights)
    }

    constructor ()
      ensures State() == Table(map[], [])
    {
      pendingRequests, flights := map[], [];
    }

    method DeduplicateRequest(key: string, ttl: int, now: int) returns (promise: nat)
      modifies this
      ensures State() == Step(old(State()), At(now, Call(key, ttl)))
      ensures promise == PromiseFor(old(State()), key)
    {
      if key in pendingRequests {
        return pendingRequests[key];
      }
      promise := |flights|;
      flights := flights + [Flight(key, ttl, now, None, None)];
      pendingRequests := pendingRequests[key := promise];
    }

    /**
     The same, for a request function that calls for its own key, any number of levels deep: the entry is
     looked up only once, before.  The caller gets the promise started last.
     */
    method DeduplicateReentrant(key: string, inner: seq<int>, ttl: int, now: int) returns (promise: nat)
      modifies this
      ensures inner != [] ==> State() == Step(old(State()), At(now, Reenter(key, inner, ttl)))
      ensures inner == [] ==> State() == Step(old(State()), At(now, Call(key, ttl)))
      ensures promise == if key in old(pendingRequests) then old(pendingRequests)[key] else |old(flights)| + |inner|
      decreases |inner|
    {
      if key in pendingRequests {
        return pendingRequests[key];
      }
      ghost var before := State();
      StartOneMore(before, key, inner, ttl, now);
      if inner != [] {
        var n := |inner| - 1;
        StartOneMore(before, key, inner[..n], inner[n], now);
        assert inner == inner[..n] + [inner[n]];
        var _ := DeduplicateReentrant(key, inner[..n], inner[n], now);
      }
      promise := |flights|;
      flights := flights + [Flight(key, ttl, now, None, None)];
      pendingRequests := pendingRequests[key := promise];
    }

    /** The `finally` handler, which starts the timer. */
    method OnSettled(p: nat, now: int)
      requires Possible(State(), At(now, Settle(p)))
      modifies this
      ensures State() == Step(old(State()), At(now, Settle(p)))
    {
      flights := flights[p := flights[p].(settledAt := Some(now))];
    }

    method OnTimer(p: nat, now: int)
      requires Possible(State(), At(now, Fire(p)))
      modifies this
      ensures State() == Step(old(State()), At(now, Fire(p)))
    {
      pendingRequests := pendingRequests - {flights[p].key};
      flights := flights[p := flights[p].(firedAt := Some(now))];
    }
  }

  lemma {:induction false} StartsGrow(s: Table, key: string, ttls: seq<int>, now: int)
    ensures |StartedAll(s, key, ttls, now).flights| == |s.flights| + |ttls|
    decreases |ttls|
  {
    if ttls != [] {
      StartsGrow(s, key, ttls[..|ttls| - 1], now);
    }
  }

  lemma StartOneMore(s: Table, key: string, inner: seq<int>, ttl: int, now: int)
    ensures StartedAll(s, key, inner + [ttl], now) == Started(StartedAll(s, key, inner, now), key, ttl, now)
    ensures |StartedAll(s, key, inner, now).flights| == |s.flights| + |inner|
  {
    assert (inner + [ttl])[..|inner|] == inner;
    StartsGrow(s, key, inner, now);
  }

  // ---------------------------------------------------------------- runs

  /** The states of a run: one before each event and one at the end. */
  ghost predicate IsRun(states: seq<Table>, events: seq<Timed>) {
    && |states| == |events| + 1
    && states[0] == Table(map[], [])
    && forall k :: 0 <= k < |events| ==> Possible(states[k], events[k]) && states[k + 1] == Step(states[k], events[k])
  }

  ghost predicate Clocked(events: seq<Timed>) {
    forall i, j :: 0 <= i <= j < |events| ==> events[i].now <= events[j].now
  }

  /** A call that re-enters its own key and finds the key free. */
  predicate Overlaps(s: Table, e: Event) {
    e.Reenter? && e.key !in s.pending
  }

  ghost predicate NoReentry(states: seq<Table>, events: seq<Timed>, k: nat)
    requires k <= |states| && k <= |events|
  {
    forall i :: 0 <= i < k ==> !Overlaps(states[i], events[i].event)
  }

  /** A started request whose timer has not fired yet. */
  predicate Open(s: Table, p: nat) {
    p < |s.flights| && s.flights[p].firedAt.None?
  }

  /** One earlier request of a key is over, by its own timer, before the next one starts. */
  ghost predicate Follows(earlier: Flight, later: Flight) {
    && earlier.settledAt.Some? && earlier.firedAt.Some?
    && earlier.settledAt.value + earlier.ttl <= earlier.firedAt.value <= later.startedAt
  }

  /** The table lists exactly the open requests, each under its own key, and starts of a key never overlap. */
  ghost predicate Sound(s: Table, clock: int) {
    && (forall key :: key in s.pending ==> Open(s, s.pending[key]) && s.flights[s.pending[key]].key == key)
    && (forall p: nat :: Open(s, p) ==> s.flights[p].key in s.pending && s.pending[s.flights[p].key] == p)
    && (forall p, q :: 0 <= p < q < |s.flights| && s.flights[p].key == s.flights[q].key ==>
        Follows(s.flights[p], s.flights[q]))
    && (forall p :: 0 <= p < |s.flights| && s.flights[p].firedAt.Some? ==>
          && s.flights[p].settledAt.Some?
          && s.flights[p].settledAt.value + s.flights[p].ttl <= s.flights[p].firedAt.value <= clock)
  }

  lemma StartKeepsSound(s: Table, key: string, ttl: int, now: int, clock: int)
    requires Sound(s, clock) && clock <= now && key !in s.pending
    ensures Sound(Started(s, key, ttl, now), now)
  {
    var s' := Started(s, key, ttl, now);
    var n := |s.flights|;
    assert forall p :: 0 <= p < n ==> s'.flights[p] == s.flights[p];
    forall p | 0 <= p < n && s.flights[p].key == key
      ensures Follows(s.flights[p], s'.flights[n])
    {
      assert !Open(s, p);
    }
    assert forall p: nat :: Open(s', p) <==> p == n || Open(s, p);
  }

  lemma SettleKeepsSound(s: Table, p: nat, now: int, clock: int)
    requires Sound(s, clock) && clock <= now && Possible(s, At(now, Settle(p)))
    ensures Sound(Step(s, At(now, Settle(p))), now)
  {
    var s' := Step(s, At(now, Settle(p)));
    assert Open(s, p);
    assert forall q: nat :: Open(s', q) <==> Open(s, q);
    assert forall q :: 0 <= q < |s.flights| ==>
      s'.flights[q] == if q == p then s.flights[p].(settledAt := Some(now)) else s.flights[q];
    forall q, r | 0 <= q < r < |s.flights| && s'.flights[q].key == s'.flights[r].key
      ensures Follows(s'.flights[q], s'.flights[r])
    {
      assert Follows(s.flights[q], s.flights[r]);
    }
  }

  lemma FireKeepsSound(s: Table, p: nat, now: int, clock: int)
    requires Sound(s, clock) && clock <= now && Possible(s, At(now, Fire(p)))
    ensures Sound(Step(s, At(now, Fire(p))), now)
  {
    var s' := Step(s, At(now, Fire(p)));
    assert Open(s, p);
    assert forall q :: 0 <= q < |s.flights| ==>
      s'.flights[q] == if q == p then s.flights[p].(firedAt := Some(now)) else s.flights[q];
    assert forall q: nat :: Open(s', q) <==> q != p && Open(s, q);
    forall key | key in s'.pending
      ensures Open(s', s'.pending[key])
    {
      assert Open(s, s.pending[key]);
    }
    forall q, r | 0 <= q < r < |s.flights| && s'.flights[q].key == s'.flights[r].key
      ensures Follows(s'.flights[q], s'.flights[r])
    {
      assert Follows(s.flights[q], s.flights[r]);
    }
  }

  lemma StepKeepsSound(s: Table, t: Timed, clock: int)
    requires Sound(s, clock) && clock <= t.now && Possible(s, t) && !Overlaps(s, t.event)
    ensures Sound(Step(s, t), t.now)
  {
    hide Open, Follows, Started;
    match t.event
    case Call(key, ttl) =>
      if key !in s.pending {
        StartKeepsSound(s, key, ttl, t.now, clock);
      }
    case Reenter(_, _, _) =>
    case Settle(p) => SettleKeepsSound(s, p, t.now, clock);
    case Fire(p) => FireKeepsSound(s, p, t.now, clock);
  }

  lemma {:induction false} RunIsSound(states: seq<Table>, events: seq<Timed>, k: nat, clock: int)
    requires IsRun(states, events) && Clocked(events) && k <= |events| && NoReentry(states, events, k)
    requires k > 0 ==> clock == events[k - 1].now
    ensures Sound(states[k], clock)
    decreases k
  {
    if k > 0 {
      RunIsSound(states, events, k - 1, if k > 1 then events[k - 2].now else events[0].now);
      StepKeepsSound(states[k - 1], events[k - 1], if k > 1 then events[k - 2].now else events[0].now);
    }
  }

  /** At most one request per key is between its start and its timer, in every interleaving. */
  lemma OneOpenRequestPerKey(states: seq<Table>, events: seq<Timed>, k: nat, p: nat, q: nat)
    requires IsRun(states, events) && Clocked(events) && k <= |events| && NoReentry(states, events, k)
    requires Open(states[k], p) && Open(states[k], q)
    requires states[k].flights[p].key == states[k].flights[q].key
    ensures p == q
  {
    RunIsSound(states, events, k, if k > 0 then events[k - 1].now else 0);
  }

  ghost predicate OneOpenPerKey(s: Table) {
    forall p: nat, q: nat :: Open(s, p) && Open(s, q) && s.flights[p].key == s.flights[q].key ==> p == q
  }

  lemma ReentryOverlaps(s: Table, t: Timed)
    requires Possible(s, t) && Overlaps(s, t.event)
    ensures !OneOpenPerKey(Step(s, t))
  {
    var key, inner := t.event.key, t.event.inner;
    var n := |inner| - 1;
    assert inner == inner[..n] + [inner[n]];
    StartOneMore(s, key, inner, t.event.ttl, t.now);
    StartOneMore(s, key, inner[..n], inner[n], t.now);
    var s' := Step(s, t);
    var p := |s'.flights| - 1;
    assert Open(s', p - 1) && Open(s', p) && s'.flights[p - 1].key == s'.flights[p].key;
  }

  /**
   The exact condition: a run keeps at most one open request per key throughout if and only if no
   request function re-enters its own key while that key is free.
   */
  lemma OneOpenExactly(states: seq<Table>, events: seq<Timed>)
    requires IsRun(states, events) && Clocked(events)
    ensures (forall k :: 0 <= k <= |events| ==> OneOpenPerKey(states[k])) <==> NoReentry(states, events, |events|)
  {
    if NoReentry(states, events, |events|) {
      forall k, p: nat, q: nat | 0 <= k <= |events| && Open(states[k], p) && Open(states[k], q)
                                 && states[k].flights[p].key == states[k].flights[q].key
        ensures p == q
      {
        OneOpenRequestPerKey(states, events, k, p, q);
      }
    } else {
      var i :| 0 <= i < |events| && Overlaps(states[i], events[i].event);
      ReentryOverlaps(states[i], events[i]);
      assert !OneOpenPerKey(states[i + 1]);
    }
  }

  /** The unconditional delete of a timer only ever removes the timer's own promise. */
  lemma TimerDeletesItsOwn(states: seq<Table>, events: seq<Timed>, k: nat)
    requires IsRun(states, events) && Clocked(events) && k < |events| && NoReentry(states, events, k)
    requires events[k].event.Fire?
    ensures var s := states[k];
            var key := s.flights[events[k].event.p].key;
            && key in s.pending && s.pending[key] == events[k].event.p
            && states[k + 1].pending == s.pending - {key}
  {
    RunIsSound(states, events, k, if k > 0 then events[k - 1].now else 0);
    assert Open(states[k], events[k].event.p);
  }

  /** Two starts for one key are separated by the earlier request's settlement and its whole ttl. */
  lemma StartsAreSeparated(states: seq<Table>, events: seq<Timed>, k: nat, p: nat, q: nat)
    requires IsRun(states, events) && Clocked(events) && k <= |events| && NoReentry(states, events, k)
    requires p < q < |states[k].flights| && states[k].flights[p].key == states[k].flights[q].key
    ensures Follows(states[k].flights[p], states[k].flights[q])
  {
    RunIsSound(states, events, k, if k > 0 then events[k - 1].now else 0);
  }

  /** While a request is open, settled or not, every call for its key shares its promise and starts nothing. */
  lemma CallsShareTheOpenPromise(states: seq<Table>, events: seq<Timed>, k: nat, p: nat)
    requires IsRun(states, events) && Clocked(events) && k < |events| && NoReentry(states, events, k)
    requires events[k].event.Call? && Open(states[k], p) && states[k].flights[p].key == events[k].event.key
    ensures PromiseFor(states[k], events[k].event.key) == p && states[k + 1] == states[k]
  {
    RunIsSound(states, events, k, if k > 0 then events[k - 1].now else 0);
  }

  /** A call starts a new request exactly when no request of its key is open; no entry ever outlives its timer. */
  lemma CallStartsExactly(states: seq<Table>, events: seq<Timed>, k: nat)
    requires IsRun(states, events) && Clocked(events) && k < |events| && NoReentry(states, events, k)
    requires events[k].event.Call?
    ensures |states[k + 1].flights| == |states[k].flights| + 1
        <==> !exists p: nat :: Open(states[k], p) && states[k].flights[p].key == events[k].event.key
    ensures var s := states[k];
            s.pending.Keys == set p | 0 <= p < |s.flights| && Open(s, p) :: s.flights[p].key
  {
    RunIsSound(states, events, k, if k > 0 then events[k - 1].now else 0);
    var s := states[k];
    forall key | key in s.pending
      ensures key in set p | 0 <= p < |s.flights| && Open(s, p) :: s.flights[p].key
    {
      assert Open(s, s.pending[key]);
    }
  }

  // ---------------------------------------------------------------- requests and the events of a run

  lemma {:induction false} StartedAllFlights(s: Table, key: string, ttls: seq<int>, now: int, m: nat)
    requires m < |ttls|
    ensures var t := StartedAll(s, key, ttls, now);
            && |t.flights| == |s.flights| + |ttls| && t.flights[..|s.flights|] == s.flights
            && t.flights[|s.flights| + m] == Flight(key, ttls[m], now, None, None)
    decreases |ttls|
  {
    var n := |ttls| - 1;
    StartsGrow(s, key, ttls, now);
    if n > 0 {
      StartedAllFlights(s, key, ttls[..n], now, if m < n then m else 0);
    }
  }

  /** Event i started request p: a call, or one level of a re-entrant call, that found its key free. */
  ghost predicate StartedBy(states: seq<Table>, events: seq<Timed>, i: nat, p: nat)
    requires i < |events| && |states| == |events| + 1
  {
    |states[i].flights| <= p < |states[i + 1].flights|
  }

  /** The ttl that the caller of event i passed for request p. */
  function TtlOf(e: Event, level: nat): int
    requires (e.Call? && level == 0) || (e.Reenter? && level <= |e.inner|)
  {
    if e.Call? then e.ttl else if level == |e.inner| then e.ttl else e.inner[level]
  }

  /** A request carries what the call that started it was given, and is not settled. */
  lemma StartRecords(states: seq<Table>, events: seq<Timed>, i: nat, p: nat)
    requires IsRun(states, events) && i < |events| && StartedBy(states, events, i, p)
    ensures var e, f, level := events[i].event, states[i + 1].flights[p], p - |states[i].flights|;
            && ((e.Call? && level == 0) || (e.Reenter? && level <= |e.inner|))
            && e.key !in states[i].pending
            && f.key == e.key && f.startedAt == events[i].now && f.ttl == TtlOf(e, level)
            && f.settledAt.None? && f.firedAt.None?
  {
    assert states[i + 1] == Step(states[i], events[i]);
    var e := events[i].event;
    if e.Reenter? && e.key !in states[i].pending {
      StartsGrow(states[i], e.key, e.inner + [e.ttl], events[i].now);
      StartedAllFlights(states[i], e.key, e.inner + [e.ttl], events[i].now, p - |states[i].flights|);
    }
  }

  /** The event, if it is the settlement or the timer of request p, leaves its time. */
  lemma StepRecords(states: seq<Table>, events: seq<Timed>, k: nat, p: nat)
    requires IsRun(states, events) && k < |events| && p < |states[k].flights|
    ensures p < |states[k + 1].flights|
    ensures var f, f', t := states[k].flights[p], states[k + 1].flights[p], events[k];
            && f'.key == f.key && f'.ttl == f.ttl && f'.startedAt == f.startedAt
            && (t.event == Settle(p) ==> f.settledAt.None?)
            && (t.event == Fire(p) ==> f.firedAt.None? && f.settledAt.Some? && t.now >= f.settledAt.value + f.ttl)
            && f'.settledAt == (if t.event == Settle(p) then Some(t.now) else f.settledAt)
            && f'.firedAt == (if t.event == Fire(p) then Some(t.now) else f.firedAt)
  {
    var e := events[k].event;
    assert Possible(states[k], events[k]) && states[k + 1] == Step(states[k], events[k]);
    if e.Reenter? && e.key !in states[k].pending {
      StartedAllFlights(states[k], e.key, e.inner + [e.ttl], events[k].now, 0);
      assert states[k + 1].flights[..|states[k].flights|][p] == states[k].flights[p];
    }
  }

  /**
   The record of a request at any later point of a run, in terms of the events: key, ttl and start are those
   of the call that started it, and it is settled, or its timer fired, at t exactly when such an event came
   at t.
   */
  lemma {:induction false} FlightIsItsEvents(states: seq<Table>, events: seq<Timed>, i: nat, k: nat, p: nat)
    requires IsRun(states, events) && i < k <= |events| && StartedBy(states, events, i, p)
    ensures p < |states[k].flights|
    ensures var f, e := states[k].flights[p], events[i].event;
            && (e.Call? || e.Reenter?) && f.key == e.key && f.startedAt == events[i].now
            && (e.Call? ==> f.ttl == e.ttl)
            && (forall t :: f.settledAt == Some(t) <==> exists s :: i < s < k && events[s] == At(t, Settle(p)))
            && (forall t :: f.firedAt == Some(t) <==> exists s :: i < s < k && events[s] == At(t, Fire(p)))
    decreases k
  {
    hide Step, Possible;
    StartRecords(states, events, i, p);
    if k > i + 1 {
      FlightIsItsEvents(states, events, i, k - 1, p);
      StepRecords(states, events, k - 1, p);
      var f, f', e := states[k - 1].flights[p], states[k].flights[p], events[k - 1];
      forall t
        ensures f'.settledAt == Some(t) <==> exists s :: i < s < k && events[s] == At(t, Settle(p))
        ensures f'.firedAt == Some(t) <==> exists s :: i < s < k && events[s] == At(t, Fire(p))
      {
        if e == At(t, Settle(p)) || e == At(t, Fire(p)) {
          assert i < k - 1 < k && events[k - 1] == e;
        }
        if s :| i < s < k && events[s] == At(t, Settle(p)) {
          assert s == k - 1 || i < s < k - 1;
        }
        if s :| i < s < k && events[s] == At(t, Fire(p)) {
          assert s == k - 1 || i < s < k - 1;
        }
      }
    }
  }

  /** Every call gets the promise of an open request of its key, started by it or before. */
  lemma PromiseIsOpen(states: seq<Table>, events: seq<Timed>, k: nat)
    requires IsRun(states, events) && Clocked(events) && k < |events| && NoReentry(states, events, k)
    requires events[k].event.Call?
    ensures var p := PromiseFor(states[k], events[k].event.key);
            && Open(states[k + 1], p) && states[k + 1].flights[p].key == events[k].event.key
            && (StartedBy(states, events, k, p) <==> |states[k + 1].flights| > |states[k].flights|)
  {
    RunIsSound(states, events, k, if k > 0 then events[k - 1].now else 0);
    assert states[k + 1] == Step(states[k], events[k]);
  }

  lemma NoneOrSome(o: Option<int>)
    ensures o.None? || exists t :: o == Some(t)
  {
    match o
    case None =>
    case Some(t) => assert o == Some(t);
  }

  /** A call gets the promise of an earlier call of its key, and starts nothing, as long as that timer has not fired. */
  lemma SharedUntilFired(states: seq<Table>, events: seq<Timed>, i: nat, j: nat)
    requires IsRun(states, events) && Clocked(events) && i < j < |events| && NoReentry(states, events, j)
    requires events[i].event.Call? && |states[i + 1].flights| > |states[i].flights|
    requires events[j].event.Call? && events[j].event.key == events[i].event.key
    requires forall s :: i < s < j ==> events[s].event != Fire(|states[i].flights|)
    ensures PromiseFor(states[j], events[j].event.key) == |states[i].flights| && states[j + 1] == states[j]
  {
    var p := |states[i].flights|;
    FlightIsItsEvents(states, events, i, j, p);
    var f := states[j].flights[p];
    forall t
      ensures f.firedAt != Some(t)
    {
    }
    NoneOrSome(f.firedAt);
    CallsShareTheOpenPromise(states, events, j, p);
  }

  /**
   Starts are separated, in events alone: when calls i and j each start a request for one key, the first
   request settled in between, and at least the ttl that call i was given lies between that and call j.
   */
  lemma StartsAreSeparatedInTime(states: seq<Table>, events: seq<Timed>, i: nat, j: nat)
    requires IsRun(states, events) && Clocked(events) && i < j < |events|
    requires NoReentry(states, events, j + 1)
    requires events[i].event.Call? && events[j].event.Call? && events[i].event.key == events[j].event.key
    requires |states[i + 1].flights| > |states[i].flights| && |states[j + 1].flights| > |states[j].flights|
    ensures exists s :: i < s < j && events[s].event == Settle(|states[i].flights|)
                        && events[j].now >= events[s].now + events[i].event.ttl
  {
    hide Step, Possible, Sound;
    var p, q := |states[i].flights|, |states[j].flights|;
    FlightIsItsEvents(states, events, i, j, p);
    FlightIsItsEvents(states, events, i, j + 1, p);
    FlightIsItsEvents(states, events, j, j + 1, q);
    StartsAreSeparated(states, events, j + 1, p, q);
    var f := states[j + 1].flights[p];
    var s :| i < s < j + 1 && events[s] == At(f.settledAt.value, Settle(p));
    assert s < j;
  }
}
