/** The sliding-window rate limiter, which keeps only the allowed calls still inside the window. */
module RateLimiting {
  import opened Options

  datatype Config = Config(windowMs: int, maxRequests: int)

  datatype Answer = Answer(allowed: bool, remaining: int, resetTime: int)

  /** The logged times that are still inside the window ending now. */
  function Live(log: seq<int>, now: int, windowMs: int): seq<int> {
    if log == [] then []
    else
      var init := Live(log[..|log| - 1], now, windowMs);
      if now - log[|log| - 1] < windowMs then init + [log[|log| - 1]] else init
  }

  function Log(store: map<string, seq<int>>, id: string): seq<int> {
    if id in store then store[id] else []
  }

  /** One call: the new log and whether the call is allowed. */
  function Admit(log: seq<int>, now: int, c: Config): (seq<int>, bool) {
    var live := Live(log, now, c.windowMs);
    if |live| < c.maxRequests then (live + [now], true) else (live, false)
  }

  class RateLimiter {
    var store: map<string, seq<int>>

    constructor ()
      ensures store == map[]
    {
      store := map[];
    }

    method RateLimit(identifier: string, now: int, config: Config) returns (a: Answer)
      modifies this
      ensures var (log, allowed) := Admit(Log(old(store), identifier), now, config);
              && store == old(store)[identifier := log]
              && a == Answer(allowed, Max(0, config.maxRequests - |log|), now + config.windowMs)
    {
      var validRequests := Live(Log(store, identifier), now, config.windowMs);
      var allowed := |validRequests| < config.maxRequests;
      if allowed {
        validRequests := validRequests + [now];
      }
      store := store[identifier := validRequests];
      a := Answer(allowed, Max(0, config.maxRequests - |validRequests|), now + config.windowMs);
    }
  }

  // ---------------------------------------------------------------- runs

  datatype Call = Call(id: string, now: int, config: Config)

  ghost predicate Clocked(calls: seq<Call>) {
    forall i, j :: 0 <= i <= j < |calls| ==> calls[i].now <= calls[j].now
  }

  ghost function StoreAfter(calls: seq<Call>): map<string, seq<int>> {
    if calls == [] then map[]
    else
      var store := StoreAfter(calls[..|calls| - 1]);
      var call := calls[|calls| - 1];
      store[call.id := Admit(Log(store, call.id), call.now, call.config).0]
  }

  /** Whether the limiter, with its pruned log, allows call k. */
  ghost predicate Allowed(calls: seq<Call>, k: nat)
    requires k < |calls|
  {
    Admit(Log(StoreAfter(calls[..k]), calls[k].id), calls[k].now, calls[k].config).1
  }

  /** The full history: how many of the first k calls of `id` were allowed at a time later than `after`. */
  ghost function CountAllowed(calls: seq<Call>, k: nat, id: string, after: int): nat
    requires k <= |calls|
  {
    if k == 0 then 0
    else CountAllowed(calls, k - 1, id, after)
         + if calls[k - 1].id == id && calls[k - 1].now > after && Allowed(calls, k - 1) then 1 else 0
  }

  /** Where the window of call k begins; the window is what is later. */
  function Horizon(calls: seq<Call>, k: nat): int
    requires k < |calls|
  {
    calls[k].now - calls[k].config.windowMs
  }

  // ---------------------------------------------------------------- what pruning loses

  /** Some call before n, after call i and of the same identifier, finds call i outside its window. */
  ghost predicate PrunedBy(calls: seq<Call>, i: nat, n: nat)
    requires i < n <= |calls|
  {
    exists m :: i < m < n && calls[m].id == calls[i].id && calls[i].now <= Horizon(calls, m)
  }

  /** No allowed call of `id` among the first k that is later than `after` has been pruned. */
  ghost predicate NoneLost(calls: seq<Call>, k: nat, id: string, after: int)
    requires k <= |calls|
  {
    forall i :: 0 <= i < k && calls[i].id == id && calls[i].now > after && Allowed(calls, i) ==> !PrunedBy(calls, i, k)
  }

  /** Of the first k calls, those that `CountAllowed` counts and no call before n has pruned. */
  ghost function CountKept(calls: seq<Call>, k: nat, n: nat, id: string, after: int): nat
    requires k <= n <= |calls|
  {
    if k == 0 then 0
    else CountKept(calls, k - 1, n, id, after)
         + if calls[k - 1].id == id && calls[k - 1].now > after && Allowed(calls, k - 1) && !PrunedBy(calls, k - 1, n)
           then 1 else 0
  }

  /** How many entries of a log are later than `after`. */
  ghost function CountLater(log: seq<int>, after: int): nat {
    if log == [] then 0
    else CountLater(log[..|log| - 1], after) + if log[|log| - 1] > after then 1 else 0
  }

  lemma {:induction false} LiveCounts(log: seq<int>, now: int, windowMs: int, after: int)
    ensures CountLater(Live(log, now, windowMs), after) == CountLater(log, Max(after, now - windowMs))
    ensures |Live(log, now, windowMs)| == CountLater(log, now - windowMs)
    decreases |log|
  {
    if log != [] {
      var init := log[..|log| - 1];
      LiveCounts(init, now, windowMs, after);
      var live := Live(init, now, windowMs);
      assert (live + [log[|log| - 1]])[..|live|] == live;
    }
  }

  lemma CountLaterSnoc(log: seq<int>, t: int, after: int)
    ensures CountLater(log + [t], after) == CountLater(log, after) + if t > after then 1 else 0
  {
    assert (log + [t])[..|log|] == log;
  }

  lemma StoreStep(calls: seq<Call>, k: nat)
    requires k < |calls|
    ensures StoreAfter(calls[..0]) == map[]
    ensures var log := Log(StoreAfter(calls[..k]), calls[k].id);
            StoreAfter(calls[..k + 1])
              == StoreAfter(calls[..k])[calls[k].id := Admit(log, calls[k].now, calls[k].config).0]
  {
    assert calls[..k + 1][..k] == calls[..k];
  }

  lemma PrunedStep(calls: seq<Call>, i: nat, n: nat)
    requires i < n < |calls|
    ensures PrunedBy(calls, i, n + 1)
        <==> PrunedBy(calls, i, n) || (calls[n].id == calls[i].id && calls[i].now <= Horizon(calls, n))
  {
  }

  /** One more call only moves the cut-off of its identifier. */
  lemma {:induction false} KeptStep(calls: seq<Call>, k: nat, n: nat, id: string, after: int)
    requires k <= n < |calls|
    ensures CountKept(calls, k, n + 1, id, after)
         == CountKept(calls, k, n, id, if calls[n].id == id then Max(after, Horizon(calls, n)) else after)
    decreases k
  {
    hide PrunedBy, Allowed;
    if k > 0 {
      KeptStep(calls, k - 1, n, id, after);
      PrunedStep(calls, k - 1, n);
    }
  }

  /** The log holds exactly the allowed calls that no call of the same identifier has pruned. */
  lemma {:induction false} LogIsKept(calls: seq<Call>, k: nat, id: string, after: int)
    requires k <= |calls|
    ensures CountLater(Log(StoreAfter(calls[..k]), id), after) == CountKept(calls, k, k, id, after)
    decreases k
  {
    hide CountLater, Live, StoreAfter;
    if k == 0 {
      EmptyStore(calls, id, after);
    } else {
      var n := k - 1;
      var log := Log(StoreAfter(calls[..n]), id);
      StoreStep(calls, n);
      KeptStep(calls, n, n, id, after);
      if calls[n].id == id {
        LogIsKept(calls, n, id, Max(after, Horizon(calls, n)));
        LiveCounts(log, calls[n].now, calls[n].config.windowMs, after);
        CountLaterSnoc(Live(log, calls[n].now, calls[n].config.windowMs), calls[n].now, after);
      } else {
        LogIsKept(calls, n, id, after);
      }
    }
  }

  lemma EmptyStore(calls: seq<Call>, id: string, after: int)
    ensures CountLater(Log(StoreAfter(calls[..0]), id), after) == 0
  {
  }

  lemma {:induction false} KeptIsAllowedExactly(calls: seq<Call>, k: nat, n: nat, id: string, after: int)
    requires k <= n <= |calls|
    ensures CountKept(calls, k, n, id, after) <= CountAllowed(calls, k, id, after)
    ensures CountKept(calls, k, n, id, after) == CountAllowed(calls, k, id, after)
        <==> forall i :: 0 <= i < k && calls[i].id == id && calls[i].now > after && Allowed(calls, i) ==>
               !PrunedBy(calls, i, n)
    decreases k
  {
    hide PrunedBy, Allowed;
    if k > 0 {
      KeptIsAllowedExactly(calls, k - 1, n, id, after);
    }
  }

  /**
   Whatever the clock and the configurations do, the pruned log and the full history hold the same
   number of allowed calls later than a cut-off if and only if none of those calls was pruned.
   */
  lemma PrunedLogExactly(calls: seq<Call>, k: nat, id: string, after: int)
    requires k <= |calls|
    ensures CountLater(Log(StoreAfter(calls[..k]), id), after) == CountAllowed(calls, k, id, after)
        <==> NoneLost(calls, k, id, after)
  {
    hide CountLater, StoreAfter, PrunedBy, Allowed;
    LogIsKept(calls, k, id, after);
    KeptIsAllowedExactly(calls, k, k, id, after);
  }

  /** With a clock that does not run backwards and one window length nothing is lost. */
  lemma ClockedLosesNothing(calls: seq<Call>, k: nat)
    requires Clocked(calls) && k < |calls|
    requires forall i :: 0 <= i < k && calls[i].id == calls[k].id ==>
              calls[i].config.windowMs >= calls[k].config.windowMs
    ensures NoneLost(calls, k, calls[k].id, Horizon(calls, k))
  {
    hide Allowed;
    forall i | 0 <= i < k && calls[i].id == calls[k].id && calls[i].now > Horizon(calls, k)
      ensures !PrunedBy(calls, i, k)
    {
      forall m | i < m < k && calls[m].id == calls[i].id
        ensures calls[i].now > Horizon(calls, m)
      {
        assert calls[m].now <= calls[k].now;
      }
    }
  }

  // ---------------------------------------------------------------- the decisions

  lemma AllowedByLog(calls: seq<Call>, k: nat)
    requires k < |calls|
    ensures Allowed(calls, k)
        <==> CountLater(Log(StoreAfter(calls[..k]), calls[k].id), Horizon(calls, k)) < calls[k].config.maxRequests
  {
    hide Live, CountLater, StoreAfter;
    LiveCounts(Log(StoreAfter(calls[..k]), calls[k].id), calls[k].now, calls[k].config.windowMs, 0);
  }

  /** The decision, on the full history: the calls that are left of the window must be fewer than the limit. */
  lemma AllowedByKept(calls: seq<Call>, k: nat)
    requires k < |calls|
    ensures Allowed(calls, k)
        <==> CountKept(calls, k, k, calls[k].id, Horizon(calls, k)) < calls[k].config.maxRequests
  {
    hide Allowed, CountKept, CountLater, StoreAfter;
    AllowedByLog(calls, k);
    LogIsKept(calls, k, calls[k].id, Horizon(calls, k));
  }

  /**
   A decision agrees with the full history exactly when that history has room for the call, or leaves none
   even without the calls that were pruned.
   */
  lemma DecisionExactly(calls: seq<Call>, k: nat)
    requires k < |calls|
    ensures var id, after, limit := calls[k].id, Horizon(calls, k), calls[k].config.maxRequests;
            (Allowed(calls, k) <==> CountAllowed(calls, k, id, after) < limit)
            <==> CountAllowed(calls, k, id, after) < limit || CountKept(calls, k, k, id, after) >= limit
  {
    hide Allowed, CountAllowed, CountKept;
    AllowedByKept(calls, k);
    KeptIsAllowedExactly(calls, k, k, calls[k].id, Horizon(calls, k));
  }

  /**
   The limiter answers as the full history would: as long as nothing in its window was pruned, a call is
   allowed exactly when fewer than `maxRequests` allowed calls of its identifier lie in that window.
   */
  lemma AllowedExactly(calls: seq<Call>, k: nat)
    requires k < |calls| && NoneLost(calls, k, calls[k].id, Horizon(calls, k))
    ensures Allowed(calls, k)
        <==> CountAllowed(calls, k, calls[k].id, Horizon(calls, k)) < calls[k].config.maxRequests
  {
    hide Allowed, CountAllowed, CountLater, StoreAfter, NoneLost;
    PrunedLogExactly(calls, k, calls[k].id, Horizon(calls, k));
    AllowedByLog(calls, k);
  }

  /** Allowed calls of `id` among the first k with a time later than `after` and at most `upTo`. */
  ghost function CountIn(calls: seq<Call>, k: nat, id: string, after: int, upTo: int): nat
    requires k <= |calls|
  {
    if k == 0 then 0
    else CountIn(calls, k - 1, id, after, upTo)
         + if calls[k - 1].id == id && after < calls[k - 1].now <= upTo && Allowed(calls, k - 1) then 1 else 0
  }

  lemma {:induction false} CountInIsLess(calls: seq<Call>, k: nat, id: string, after: int, upTo: int, after': int)
    requires k <= |calls| && after' <= after
    ensures CountIn(calls, k, id, after, upTo) <= CountAllowed(calls, k, id, after')
    decreases k
  {
    hide Allowed;
    if k > 0 {
      CountInIsLess(calls, k - 1, id, after, upTo, after');
    }
  }

  lemma {:induction false} CountInGrows(calls: seq<Call>, j: nat, k: nat, id: string, after: int, upTo: int)
    requires j <= k <= |calls|
    ensures CountIn(calls, j, id, after, upTo) <= CountIn(calls, k, id, after, upTo)
    decreases k
  {
    hide Allowed;
    if j < k {
      CountInGrows(calls, j, k - 1, id, after, upTo);
    }
  }

  /** The rate bound at t: the window (t - windowMs, t] holds at most `maxRequests` allowed calls. */
  ghost predicate BoundedAt(calls: seq<Call>, k: nat, id: string, limit: Config, t: int)
    requires k <= |calls|
  {
    CountIn(calls, k, id, t - limit.windowMs, t) <= Max(0, limit.maxRequests)
  }

  /** Call j lies in the window that ends at t, and the calls before it have filled that window. */
  ghost predicate FullAt(calls: seq<Call>, j: nat, limit: Config, t: int)
    requires j < |calls|
  {
    && t - limit.windowMs < calls[j].now <= t
    && CountIn(calls, j, calls[j].id, t - limit.windowMs, t) >= Max(0, limit.maxRequests)
  }

  /**
   The history before call j leaves it a place: if the calls that pruning left do not fill the call's own
   window, then no window that the call lies in is full.
   */
  ghost predicate Guarded(calls: seq<Call>, j: nat, limit: Config)
    requires j < |calls|
  {
    CountKept(calls, j, j, calls[j].id, Horizon(calls, j)) < calls[j].config.maxRequests ==>
      forall t :: !FullAt(calls, j, limit, t)
  }

  /** One call more keeps the bound at t, unless it is allowed into a full window. */
  lemma BoundStep(calls: seq<Call>, j: nat, id: string, limit: Config, t: int)
    requires j < |calls| && BoundedAt(calls, j, id, limit, t)
    ensures BoundedAt(calls, j + 1, id, limit, t)
        <==> !(calls[j].id == id && Allowed(calls, j) && FullAt(calls, j, limit, t))
  {
    hide Allowed;
  }

  lemma {:induction false} GuardedIsBounded(calls: seq<Call>, k: nat, id: string, limit: Config, t: int)
    requires k <= |calls|
    requires forall j :: 0 <= j < k && calls[j].id == id ==> Guarded(calls, j, limit)
    ensures BoundedAt(calls, k, id, limit, t)
    decreases k
  {
    hide Allowed, FullAt, CountKept;
    if k > 0 {
      GuardedIsBounded(calls, k - 1, id, limit, t);
      BoundStep(calls, k - 1, id, limit, t);
      AllowedByKept(calls, k - 1);
      assert calls[k - 1].id == id ==> Guarded(calls, k - 1, limit);
    }
  }

  /**
   The rate bound, for any clock and any mix of configurations: every window of the length holds at most
   `maxRequests` allowed calls of the identifier if and only if the guard holds before each of its calls.
   */
  lemma RateBoundExactly(calls: seq<Call>, k: nat, id: string, limit: Config)
    requires k <= |calls|
    ensures (forall t :: BoundedAt(calls, k, id, limit, t))
        <==> forall j :: 0 <= j < k && calls[j].id == id ==> Guarded(calls, j, limit)
  {
    hide Allowed, BoundedAt, FullAt, CountKept, CountIn;
    if forall j :: 0 <= j < k && calls[j].id == id ==> Guarded(calls, j, limit) {
      forall t
        ensures BoundedAt(calls, k, id, limit, t)
      {
        GuardedIsBounded(calls, k, id, limit, t);
      }
    }
    if j :| 0 <= j < k && calls[j].id == id && !Guarded(calls, j, limit) {
      var t :| FullAt(calls, j, limit, t);
      AllowedByKept(calls, j);
      FullWindowOverflows(calls, j, k, id, limit, t);
    }
  }

  lemma FullWindowOverflows(calls: seq<Call>, j: nat, k: nat, id: string, limit: Config, t: int)
    requires j < k <= |calls| && calls[j].id == id && Allowed(calls, j) && FullAt(calls, j, limit, t)
    ensures !BoundedAt(calls, k, id, limit, t)
  {
    hide Allowed;
    CountInGrows(calls, j + 1, k, id, t - limit.windowMs, t);
  }

  /** A call is allowed into a full window only after a call in its own window was pruned. */
  lemma FullMeansLost(calls: seq<Call>, j: nat, limit: Config, t: int)
    requires j < |calls| && Allowed(calls, j) && FullAt(calls, j, limit, t)
    requires calls[j].config.maxRequests <= limit.maxRequests && calls[j].config.windowMs >= limit.windowMs
    ensures !NoneLost(calls, j, calls[j].id, Horizon(calls, j))
  {
    hide Allowed, NoneLost, CountIn, CountAllowed;
    if NoneLost(calls, j, calls[j].id, Horizon(calls, j)) {
      AllowedExactly(calls, j);
      CountInIsLess(calls, j, calls[j].id, t - limit.windowMs, t, Horizon(calls, j));
    }
  }

  /** No call of the identifier allows more or looks back less than the limit, and none was misled by pruning. */
  ghost predicate Governed(calls: seq<Call>, k: nat, id: string, limit: Config)
    requires k <= |calls|
  {
    forall j :: 0 <= j < k && calls[j].id == id ==>
      && calls[j].config.maxRequests <= limit.maxRequests && calls[j].config.windowMs >= limit.windowMs
      && NoneLost(calls, j, id, Horizon(calls, j))
  }

  /** So the bound holds as long as nothing that a decision looked for was pruned before it. */
  lemma WindowBound(calls: seq<Call>, k: nat, id: string, limit: Config, t: int)
    requires k <= |calls| && Governed(calls, k, id, limit)
    ensures BoundedAt(calls, k, id, limit, t)
  {
    hide Allowed, BoundedAt, FullAt, CountKept, NoneLost;
    forall j | 0 <= j < k && calls[j].id == id
      ensures Guarded(calls, j, limit)
    {
      AllowedByKept(calls, j);
      if Allowed(calls, j) {
        forall t
          ensures !FullAt(calls, j, limit, t)
        {
          if FullAt(calls, j, limit, t) {
            FullMeansLost(calls, j, limit, t);
          }
        }
      }
    }
    RateBoundExactly(calls, k, id, limit);
  }

  lemma {:induction false} LogIsShort(calls: seq<Call>, k: nat, id: string, most: int)
    requires k <= |calls| && 0 <= most
    requires forall i :: 0 <= i < k && calls[i].id == id ==> calls[i].config.maxRequests <= most
    ensures |Log(StoreAfter(calls[..k]), id)| <= most
    decreases k
  {
    hide StoreAfter, Live;
    if k == 0 {
      assert Log(StoreAfter(calls[..0]), id) == [] by {
        EmptyLog(calls, id);
      }
    } else {
      var n := k - 1;
      StoreStep(calls, n);
      LogIsShort(calls, n, id, most);
      LiveIsShorter(Log(StoreAfter(calls[..n]), id), calls[n].now, calls[n].config.windowMs);
    }
  }

  lemma EmptyLog(calls: seq<Call>, id: string)
    ensures Log(StoreAfter(calls[..0]), id) == []
  {
  }

  lemma {:induction false} LiveIsShorter(log: seq<int>, now: int, windowMs: int)
    ensures |Live(log, now, windowMs)| <= |log|
    decreases |log|
  {
    if log != [] {
      LiveIsShorter(log[..|log| - 1], now, windowMs);
    }
  }

  lemma KeptIsShort(calls: seq<Call>, k: nat)
    requires k < |calls| && 0 <= calls[k].config.maxRequests
    requires forall i :: 0 <= i < k && calls[i].id == calls[k].id ==>
               calls[i].config.maxRequests <= calls[k].config.maxRequests
    ensures CountKept(calls, k, k, calls[k].id, Horizon(calls, k)) <= calls[k].config.maxRequests
  {
    hide CountKept, StoreAfter, Live, CountLater;
    var call, log := calls[k], Log(StoreAfter(calls[..k]), calls[k].id);
    LogIsShort(calls, k, call.id, call.config.maxRequests);
    LiveCounts(log, call.now, call.config.windowMs, 0);
    LiveIsShorter(log, call.now, call.config.windowMs);
    LogIsKept(calls, k, call.id, Horizon(calls, k));
  }

  /**
   For any clock, a refused call finds its window full on the full history; if no earlier call had a higher
   limit, it finds it exactly full if and only if nothing in it was pruned.
   */
  lemma RefusedMeansFull(calls: seq<Call>, k: nat)
    requires k < |calls| && !Allowed(calls, k)
    ensures var call, after := calls[k], Horizon(calls, k);
            && CountAllowed(calls, k, call.id, after) >= call.config.maxRequests
            && (&& 0 <= call.config.maxRequests
                && (forall i :: 0 <= i < k && calls[i].id == call.id ==>
                                  calls[i].config.maxRequests <= call.config.maxRequests)
                ==>
                (CountAllowed(calls, k, call.id, after) == call.config.maxRequests
                 <==> NoneLost(calls, k, call.id, after)))
  {
    hide Allowed, CountAllowed, CountKept, PrunedBy;
    var call, after := calls[k], Horizon(calls, k);
    AllowedByKept(calls, k);
    KeptIsAllowedExactly(calls, k, k, call.id, after);
    if && 0 <= call.config.maxRequests
       && forall i :: 0 <= i < k && calls[i].id == call.id ==>
                        calls[i].config.maxRequests <= call.config.maxRequests
    {
      KeptIsShort(calls, k);
    }
  }

  lemma {:induction false} OthersDoNotCount(calls: seq<Call>, k: nat, id: string, after: int)
    requires k <= |calls|
    requires forall i :: 0 <= i < k && calls[i].id == id ==> calls[i].now <= after
    ensures CountAllowed(calls, k, id, after) == 0
    decreases k
  {
    if k > 0 {
      OthersDoNotCount(calls, k - 1, id, after);
    }
  }

  /**
   `resetTime` keeps its promise for any clock: a call that is its window length or more after every
   earlier call of its identifier is allowed, whatever other identifiers do, unless the limit is zero.
   */
  lemma ResetTimeHolds(calls: seq<Call>, k: nat)
    requires k < |calls| && calls[k].config.maxRequests > 0
    requires forall i :: 0 <= i < k && calls[i].id == calls[k].id ==>
               calls[i].now + calls[k].config.windowMs <= calls[k].now
    ensures Allowed(calls, k)
  {
    hide Allowed, CountAllowed, CountKept;
    var id, after := calls[k].id, Horizon(calls, k);
    OthersDoNotCount(calls, k, id, after);
    KeptIsAllowedExactly(calls, k, k, id, after);
    AllowedByKept(calls, k);
  }

  /**
   The clock must not run backwards: if it does, a limit of two can let three calls into one window,
   here those at 100, 100 and 105 with a window of 10.
   */
  lemma BackwardClockBreaksTheBound()
    ensures var c := Config(10, 2);
            var calls := [Call("a", 100, c), Call("a", 100, c), Call("a", 200, c), Call("a", 105, c)];
            && !Clocked(calls) && !NoneLost(calls, 3, "a", Horizon(calls, 3)) && !Guarded(calls, 3, c)
            && (forall i :: 0 <= i < 4 ==> Allowed(calls, i))
            && CountIn(calls, 4, "a", 95, 105) == 3 && !BoundedAt(calls, 4, "a", c, 105)
  {
    hide StoreAfter, Admit, Live, CountKept;
    var c := Config(10, 2);
    var calls := [Call("a", 100, c), Call("a", 100, c), Call("a", 200, c), Call("a", 105, c)];
    assert calls[2].now > calls[3].now;
    EmptyLog(calls, "a");
    StoreStep(calls, 0);
    StoreStep(calls, 1);
    StoreStep(calls, 2);
    AdmitOf2(100, 100, 100, c);
    AdmitOf2(100, 100, 200, c);
    AdmitOf2(200, 200, 105, c);
    assert Log(StoreAfter(calls[..0]), "a") == [];
    assert Log(StoreAfter(calls[..1]), "a") == [100];
    assert Log(StoreAfter(calls[..2]), "a") == [100, 100];
    assert Log(StoreAfter(calls[..3]), "a") == [200];
    forall i | 0 <= i < 4
      ensures Allowed(calls, i)
    {
      assert i == 0 || i == 1 || i == 2 || i == 3;
    }
    assert PrunedBy(calls, 0, 3) by {
      assert calls[0].now <= Horizon(calls, 2);
    }
    assert CountIn(calls, 1, "a", 95, 105) == 1 && CountIn(calls, 2, "a", 95, 105) == 2;
    assert CountIn(calls, 3, "a", 95, 105) == 2;
    assert FullAt(calls, 3, c, 105);
    AllowedByKept(calls, 3);
  }

  lemma AdmitOf2(a: int, b: int, now: int, c: Config)
    requires c.maxRequests == 2
    ensures Admit([], now, c) == ([now], true)
    ensures now - a < c.windowMs ==> Admit([a], now, c) == ([a, now], true)
    ensures now - a >= c.windowMs && now - b >= c.windowMs ==> Admit([a, b], now, c) == ([now], true)
  {
    LiveOf2(a, b, now, c.windowMs);
    var none: seq<int> := [];
    assert none + [now] == [now] && [a] + [now] == [a, now];
    assert now - a >= c.windowMs && now - b >= c.windowMs ==> Live([a, b], now, c.windowMs) == none;
  }

  lemma LiveOf2(a: int, b: int, now: int, windowMs: int)
    ensures Live([], now, windowMs) == []
    ensures Live([a], now, windowMs) == if now - a < windowMs then [a] else []
    ensures Live([a, b], now, windowMs)
         == (if now - a < windowMs then [a] else []) + (if now - b < windowMs then [b] else [])
  {
    assert [a][..0] == [] && [a, b][..1] == [a];
  }
}
