/**
 Notifications about pending device-pairing requests.

 Subscribers are persistent or one-shot; a persisted map remembers which requests have been notified.
 Every command and every poll reads the state file, works on the parsed state, and writes the file
 back if it changed anything.  Each is one atomic step here.
 */
module PairNotify {
  import opened Options
  import opened Text

  const MAX_SEEN_AGE_MS := 24 * 60 * 60 * 1000

  datatype Mode = Persistent | Once

  datatype Subscriber = Subscriber(to: string, accountId: Option<string>, threadId: Option<int>, mode: Mode,
                                   addedAtMs: int)

  datatype Target = Target(to: string, accountId: Option<string>, threadId: Option<int>)

  datatype NotifyState = NotifyState(subscribers: seq<Subscriber>, notified: map<string, int>)

  datatype Request = Request(id: string, ts: Option<real>)

  // ---------------------------------------------------------------- the state file

  /** A parsed JSON value of the state file; `None` stands for a missing or ill-typed property. */
  datatype RawSubscriber =
    | NotARecord
    | RawSubscriber(to: Option<string>, accountId: Option<string>, threadId: Option<real>, once: bool,
                    addedAtMs: Option<real>)

  datatype RawState = RawState(subscribers: seq<RawSubscriber>, notified: map<string, Option<real>>)

  datatype File = Unreadable | File(raw: RawState)

  function NormalizeSubscriber(raw: RawSubscriber, now: int): Option<Subscriber> {
    if raw.NotARecord? || raw.to.None? || Trim(raw.to.value) == "" then None
    else Some(Subscriber(
                Trim(raw.to.value),
                if raw.accountId.Some? && Trim(raw.accountId.value) != "" then Some(Trim(raw.accountId.value))
                else None,
                if raw.threadId.Some? then Some(Trunc(raw.threadId.value)) else None,
                if raw.once then Once else Persistent,
                if raw.addedAtMs.Some? then Trunc(raw.addedAtMs.value) else now))
  }

  function NormalizeSubscribers(raw: seq<RawSubscriber>, now: int): seq<Subscriber> {
    if raw == [] then []
    else
      var init := NormalizeSubscribers(raw[..|raw| - 1], now);
      match NormalizeSubscriber(raw[|raw| - 1], now)
      case None => init
      case Some(s) => init + [s]
  }

  predicate Keepable(id: string, ts: Option<real>) {
    Trim(id) != "" && ts.Some? && ts.value > 0.0
  }

  function NormalizeNotified(raw: map<string, Option<real>>): map<string, int> {
    map id | id in raw && Keepable(id, raw[id]) :: Trunc(raw[id].value)
  }

  function LoadNotified(file: File): map<string, int> {
    if file.Unreadable? then map[] else NormalizeNotified(file.raw.notified)
  }

  function Load(file: File, now: int): NotifyState {
    if file.Unreadable? then NotifyState([], map[])
    else NotifyState(NormalizeSubscribers(file.raw.subscribers, now), NormalizeNotified(file.raw.notified))
  }

  function SaveSubscriber(s: Subscriber): RawSubscriber {
    RawSubscriber(Some(s.to), s.accountId, if s.threadId.Some? then Some(s.threadId.value as real) else None,
                  s.mode.Once?, Some(s.addedAtMs as real))
  }

  function SaveSubscribers(subscribers: seq<Subscriber>): seq<RawSubscriber> {
    seq(|subscribers|, i requires 0 <= i < |subscribers| => SaveSubscriber(subscribers[i]))
  }

  function Save(s: NotifyState): File {
    File(RawState(SaveSubscribers(s.subscribers), map id | id in s.notified :: Some(s.notified[id] as real)))
  }

  /** The loops of `normalizeNotifyState`. */
  method NormalizeNotifyState(file: File, now: int) returns (state: NotifyState)
    ensures state == Load(file, now)
  {
    if file.Unreadable? {
      return NotifyState([], map[]);
    }
    var subscribers: seq<Subscriber> := [];
    var raw := file.raw.subscribers;
    for i := 0 to |raw|
      invariant subscribers == NormalizeSubscribers(raw[..i], now)
    {
      assert raw[..i + 1][..i] == raw[..i];
      var s := NormalizeSubscriber(raw[i], now);
      if s.None? {
        continue;
      }
      subscribers := subscribers + [s.value];
    }
    assert raw[..|raw|] == raw;
    var notified: map<string, int> := map[];
    var entries := file.raw.notified;
    var remaining := entries.Keys;
    while remaining != {}
      invariant remaining <= entries.Keys
      invariant notified == map id | id in entries && id !in remaining && Keepable(id, entries[id])
                              :: Trunc(entries[id].value)
      decreases remaining
    {
      var id :| id in remaining;
      remaining := remaining - {id};
      if !Keepable(id, entries[id]) {
        continue;
      }
      notified := notified[id := Trunc(entries[id].value)];
    }
    state := NotifyState(subscribers, notified);
  }

  predicate CanonicalSubscriber(s: Subscriber) {
    s.to != "" && Tidy(s.to) && (s.accountId.Some? ==> s.accountId.value != "" && Tidy(s.accountId.value))
  }

  ghost predicate CanonicalSubscribers(subscribers: seq<Subscriber>) {
    forall i :: 0 <= i < |subscribers| ==> CanonicalSubscriber(subscribers[i])
  }

  ghost predicate Canonical(s: NotifyState) {
    && CanonicalSubscribers(s.subscribers)
    && forall id :: id in s.notified ==> Trim(id) != "" && s.notified[id] > 0
  }

  lemma NormalizeSaved(s: Subscriber, now: int)
    ensures NormalizeSubscriber(SaveSubscriber(s), now) == Some(s) <==> CanonicalSubscriber(s)
    ensures NormalizeSubscriber(SaveSubscriber(s), now).Some? ==>
              CanonicalSubscriber(NormalizeSubscriber(SaveSubscriber(s), now).value)
  {
    TrimFixpoint(s.to);
    TrimIsTidy(s.to);
    if s.accountId.Some? {
      TrimFixpoint(s.accountId.value);
      TrimIsTidy(s.accountId.value);
    }
  }

  lemma {:induction false} ReloadSubscribers(subscribers: seq<Subscriber>, now: int)
    ensures |NormalizeSubscribers(SaveSubscribers(subscribers), now)| <= |subscribers|
    ensures NormalizeSubscribers(SaveSubscribers(subscribers), now) == subscribers
        <==> CanonicalSubscribers(subscribers)
    decreases |subscribers|
  {
    if subscribers != [] {
      var n := |subscribers| - 1;
      assert SaveSubscribers(subscribers)[..n] == SaveSubscribers(subscribers[..n]);
      assert subscribers == subscribers[..n] + [subscribers[n]];
      ReloadSubscribers(subscribers[..n], now);
      NormalizeSaved(subscribers[n], now);
      assert CanonicalSubscribers(subscribers)
        <==> CanonicalSubscribers(subscribers[..n]) && CanonicalSubscriber(subscribers[n]);
    }
  }

  /** Writing a state and reading it back gives the same state exactly when it is canonical. */
  lemma SaveLoadRoundTrip(s: NotifyState, now: int)
    ensures Load(Save(s), now) == s <==> Canonical(s)
  {
    ReloadSubscribers(s.subscribers, now);
    var raw := Save(s).raw.notified;
    if Canonical(s) {
      assert NormalizeNotified(raw) == s.notified;
    }
    if NormalizeNotified(raw) == s.notified {
      assert forall id :: id in s.notified ==> id in NormalizeNotified(raw);
    }
  }

  // ---------------------------------------------------------------- subscribers and their keys

  function Key(to: string, accountId: Option<string>, threadId: Option<int>): string {
    to + "|" + (if accountId.Some? then accountId.value else "")
       + "|" + (if threadId.Some? then IntNumeral(threadId.value) else "")
  }

  function SubscriberKey(s: Subscriber): string {
    Key(s.to, s.accountId, s.threadId)
  }

  function TargetKey(t: Target): string {
    Key(t.to, t.accountId, t.threadId)
  }

  datatype Ctx = Ctx(channel: string, senderId: Option<string>, from: Option<string>, to: Option<string>,
                     accountId: Option<string>, threadId: Option<int>)

  function Trimmed(s: Option<string>): string {
    if s.Some? then Trim(s.value) else ""
  }

  function ResolveNotifyTarget(ctx: Ctx): Option<Target> {
    var to := if Trimmed(ctx.senderId) != "" then Trimmed(ctx.senderId)
              else if Trimmed(ctx.from) != "" then Trimmed(ctx.from)
              else Trimmed(ctx.to);
    if to == "" then None
    else Some(Target(to, if ctx.accountId == Some("") then None else ctx.accountId, ctx.threadId))
  }

  function FindKey(subscribers: seq<Subscriber>, key: string): (i: nat)
    ensures i <= |subscribers|
    ensures i < |subscribers| ==> SubscriberKey(subscribers[i]) == key
    ensures forall j :: 0 <= j < i ==> SubscriberKey(subscribers[j]) != key
  {
    if subscribers == [] then 0
    else if SubscriberKey(subscribers[0]) == key then 0
    else
      var i := FindKey(subscribers[1..], key);
      assert forall j :: 0 < j < |subscribers| ==> subscribers[j] == subscribers[1..][j - 1];
      i + 1
  }

  function Upsert(subscribers: seq<Subscriber>, target: Target, mode: Mode, now: int): (seq<Subscriber>, bool) {
    var index := FindKey(subscribers, TargetKey(target));
    var next := Subscriber(target.to, target.accountId, target.threadId, mode, now);
    if index == |subscribers| then (subscribers + [next], true)
    else if subscribers[index].mode == mode then (subscribers, false)
    else (subscribers[index := next], true)
  }

  // ---------------------------------------------------------------- one poll

  function RequestTimestampMs(r: Request): Option<int> {
    if r.ts.Some? && Trunc(r.ts.value) > 0 then Some(Trunc(r.ts.value)) else None
  }

  predicate Eligible(s: Subscriber, r: Request) {
    s.mode.Persistent? || (RequestTimestampMs(r).Some? && RequestTimestampMs(r).value >= s.addedAtMs)
  }

  function PendingIds(pending: seq<Request>): set<string> {
    set r | r in pending :: r.id
  }

  predicate Remembered(id: string, ts: int, ids: set<string>, now: int) {
    id in ids && now - ts <= MAX_SEEN_AGE_MS
  }

  function Prune(notified: map<string, int>, ids: set<string>, now: int): map<string, int> {
    map id | id in notified && Remembered(id, notified[id], ids, now) :: notified[id]
  }

  predicate Marked(notified: map<string, int>, id: string) {
    id in notified && notified[id] != 0
  }

  /** Whether sending request number i to subscriber number j succeeds; anything can happen. */
  type Sender = (nat, nat) -> bool

  ghost predicate Delivered(subscribers: seq<Subscriber>, r: Request, i: nat, send: Sender) {
    exists j: nat :: j < |subscribers| && Eligible(subscribers[j], r) && send(i, j)
  }

  /** The notified map after the first k pending requests of a poll have been handled. */
  ghost function NotifiedAfter(s: NotifyState, pending: seq<Request>, send: Sender, now: int, k: nat): map<string, int>
    requires k <= |pending|
  {
    if k == 0 then Prune(s.notified, PendingIds(pending), now)
    else
      var n := NotifiedAfter(s, pending, send, now, k - 1);
      var r := pending[k - 1];
      if !Marked(n, r.id) && Delivered(s.subscribers, r, k - 1, send) then n[r.id := now] else n
  }

  /** Request i is offered to subscriber j. */
  ghost predicate Attempted(s: NotifyState, pending: seq<Request>, send: Sender, now: int, i: nat, j: nat) {
    && i < |pending| && j < |s.subscribers|
    && !Marked(NotifiedAfter(s, pending, send, now, i), pending[i].id)
    && Eligible(s.subscribers[j], pending[i])
  }

  ghost predicate Sent(s: NotifyState, pending: seq<Request>, send: Sender, now: int, i: nat, j: nat) {
    Attempted(s, pending, send, now, i, j) && send(i, j)
  }

  /** The keys of the one-shot subscribers that one of the first k requests reached. */
  ghost function ServedKeys(s: NotifyState, pending: seq<Request>, send: Sender, now: int, k: nat): set<string> {
    set i: nat, j: nat | i < k && j < |s.subscribers| && Sent(s, pending, send, now, i, j)
        && s.subscribers[j].mode.Once?
      :: SubscriberKey(s.subscribers[j])
  }

  function DropKeys(subscribers: seq<Subscriber>, keys: set<string>): seq<Subscriber> {
    if subscribers == [] then []
    else
      var init := DropKeys(subscribers[..|subscribers| - 1], keys);
      if SubscriberKey(subscribers[|subscribers| - 1]) in keys then init else init + [subscribers[|subscribers| - 1]]
  }

  ghost function Polled(s: NotifyState, pending: seq<Request>, send: Sender, now: int): NotifyState {
    NotifyState(DropKeys(s.subscribers, ServedKeys(s, pending, send, now, |pending|)),
                NotifiedAfter(s, pending, send, now, |pending|))
  }

  ghost predicate PollChanges(s: NotifyState, pending: seq<Request>, send: Sender, now: int) {
    || Prune(s.notified, PendingIds(pending), now) != s.notified
    || exists i: nat, j: nat :: Sent(s, pending, send, now, i, j)
  }

  // ---------------------------------------------------------------- steps

  datatype Event =
    | Command(ctx: Ctx, action: string)
    | Arm(ctx: Ctx)
    | Tick(pending: seq<Request>, send: Sender)

  datatype Timed = At(now: int, event: Event)

  datatype Act = On | Off | ArmOnce | NoAct

  function ParseAction(action: string): Act {
    if action == "on" || action == "enable" then On
    else if action == "off" || action == "disable" then Off
    else if action == "once" || action == "arm" then ArmOnce
    else NoAct
  }

  /** What an event asks of the subscriber list: an action on a target, if the chat is a Telegram chat. */
  function Asks(e: Event): (Act, Option<Target>) {
    match e
    case Tick(_, _) => (NoAct, None)
    case Command(ctx, action) =>
      if ctx.channel != "telegram" then (NoAct, None) else (ParseAction(action), ResolveNotifyTarget(ctx))
    case Arm(ctx) =>
      if ctx.channel != "telegram" then (NoAct, None) else (ArmOnce, ResolveNotifyTarget(ctx))
  }

  function Edit(subscribers: seq<Subscriber>, act: Act, target: Option<Target>, now: int): (seq<Subscriber>, bool) {
    if target.None? then (subscribers, false)
    else
      match act
      case On => Upsert(subscribers, target.value, Persistent, now)
      case ArmOnce => Upsert(subscribers, target.value, Once, now)
      case Off =>
        var i := FindKey(subscribers, TargetKey(target.value));
        if i == |subscribers| then (subscribers, false) else (subscribers[..i] + subscribers[i + 1..], true)
      case NoAct => (subscribers, false)
  }

  ghost function Step(file: File, t: Timed): File {
    var s := Load(file, t.now);
    match t.event
    case Tick(pending, send) =>
      if PollChanges(s, pending, send, t.now) then Save(Polled(s, pending, send, t.now)) else file
    case _ =>
      var (act, target) := Asks(t.event);
      var (subscribers, changed) := Edit(s.subscribers, act, target, t.now);
      if changed then Save(s.(subscribers := subscribers)) else file
  }

  ghost function Run(file: File, events: seq<Timed>): File {
    if events == [] then file else Step(Run(file, events[..|events| - 1]), events[|events| - 1])
  }

  /** The state that event k reads. */
  ghost function StateAt(file: File, events: seq<Timed>, k: nat): NotifyState
    requires k < |events|
  {
    Load(Run(file, events[..k]), events[k].now)
  }

  ghost predicate Clocked(events: seq<Timed>) {
    && (forall i :: 0 <= i < |events| ==> events[i].now > 0)
    && (forall i, j :: 0 <= i <= j < |events| ==> events[i].now <= events[j].now)
  }

  // ---------------------------------------------------------------- the loops of one poll

  /** Some send succeeded for one of the first k requests. */
  ghost predicate SentBefore(s: NotifyState, pending: seq<Request>, send: Sender, now: int, k: nat) {
    exists i: nat, j: nat :: i < k && Sent(s, pending, send, now, i, j)
  }

  ghost function OnceReached(subscribers: seq<Subscriber>, r: Request, i: nat, send: Sender, n: nat): set<string>
    requires n <= |subscribers|
  {
    set j: nat | j < n && Eligible(subscribers[j], r) && send(i, j) && subscribers[j].mode.Once?
      :: SubscriberKey(subscribers[j])
  }

  lemma ServedStep(s: NotifyState, pending: seq<Request>, send: Sender, now: int, i: nat)
    requires i < |pending|
    ensures var marked := Marked(NotifiedAfter(s, pending, send, now, i), pending[i].id);
            var delivered := Delivered(s.subscribers, pending[i], i, send);
            && ServedKeys(s, pending, send, now, i + 1)
               == ServedKeys(s, pending, send, now, i)
                  + (if marked then {} else OnceReached(s.subscribers, pending[i], i, send, |s.subscribers|))
            && (SentBefore(s, pending, send, now, i + 1)
                <==> SentBefore(s, pending, send, now, i) || (!marked && delivered))
  {
    if !Marked(NotifiedAfter(s, pending, send, now, i), pending[i].id) {
      forall j: nat | j < |s.subscribers| && Eligible(s.subscribers[j], pending[i]) && send(i, j)
        ensures Sent(s, pending, send, now, i, j)
      {
      }
    }
  }

  /** The inner loop of a poll: offer one request to every eligible subscriber. */
  method Offer(subscribers: seq<Subscriber>, r: Request, i: nat, send: Sender)
    returns (tried: seq<nat>, delivered: bool, served: set<string>)
    ensures forall j: nat :: j in tried <==> j < |subscribers| && Eligible(subscribers[j], r)
    ensures Increasing(tried)
    ensures delivered <==> Delivered(subscribers, r, i, send)
    ensures served == OnceReached(subscribers, r, i, send, |subscribers|)
  {
    tried, delivered, served := [], false, {};
    for j := 0 to |subscribers|
      invariant forall j': nat :: j' in tried <==> j' < j && Eligible(subscribers[j'], r)
      invariant Increasing(tried)
      invariant delivered <==> exists j': nat :: j' < j && Eligible(subscribers[j'], r) && send(i, j')
      invariant served == OnceReached(subscribers, r, i, send, j)
    {
      var subscriber := subscribers[j];
      if !Eligible(subscriber, r) {
        continue;
      }
      assert forall a :: 0 <= a < |tried| ==> tried[a] in tried;
      tried := tried + [j];
      var sent := send(i, j);
      delivered := delivered || sent;
      if sent && subscriber.mode.Once? {
        served := served + {SubscriberKey(subscriber)};
      }
    }
  }

  method PruneNotified(notified: map<string, int>, ids: set<string>, now: int) returns (r: map<string, int>)
    ensures r == Prune(notified, ids, now)
  {
    r := notified;
    var remaining := notified.Keys;
    while remaining != {}
      invariant remaining <= notified.Keys
      invariant r == map id | id in notified && (id in remaining || Remembered(id, notified[id], ids, now))
                       :: notified[id]
      decreases remaining
    {
      var id :| id in remaining;
      remaining := remaining - {id};
      if !Remembered(id, notified[id], ids, now) {
        r := r - {id};
      }
    }
  }

  // ---------------------------------------------------------------- the service

  class Notifier {
    var file: File

    constructor (file: File)
      ensures this.file == file
    {
      this.file := file;
    }

    method ApplyEdit(act: Act, target: Option<Target>, now: int)
      modifies this
      ensures var s := Load(old(file), now);
              var (subscribers, changed) := Edit(s.subscribers, act, target, now);
              file == if changed then Save(s.(subscribers := subscribers)) else old(file)
    {
      var state := NormalizeNotifyState(file, now);
      var (subscribers, changed) := Edit(state.subscribers, act, target, now);
      if changed {
        file := Save(state.(subscribers := subscribers));
      }
    }

    method HandleNotifyCommand(ctx: Ctx, action: string, now: int)
      modifies this
      ensures file == Step(old(file), At(now, Command(ctx, action)))
    {
      if ctx.channel != "telegram" {
        return;
      }
      var target := ResolveNotifyTarget(ctx);
      if target.None? {
        return;
      }
      ApplyEdit(ParseAction(action), target, now);
    }

    method ArmPairNotifyOnce(ctx: Ctx, now: int) returns (armed: bool)
      modifies this
      ensures file == Step(old(file), At(now, Event.Arm(ctx)))
      ensures armed <==> ctx.channel == "telegram" && ResolveNotifyTarget(ctx).Some?
    {
      if ctx.channel != "telegram" {
        return false;
      }
      var target := ResolveNotifyTarget(ctx);
      if target.None? {
        return false;
      }
      ApplyEdit(ArmOnce, target, now);
      return true;
    }

    /** One poll; `offers[i]` lists, in order, the subscribers that request i was sent to. */
    method NotifyPendingPairingRequests(pending: seq<Request>, send: Sender, now: int) returns (offers: seq<seq<nat>>)
      modifies this
      ensures file == Step(old(file), At(now, Tick(pending, send)))
      ensures |offers| == |pending|
      ensures var s := Load(old(file), now);
              forall i: nat, j: nat :: i < |pending| ==> (j in offers[i] <==> Attempted(s, pending, send, now, i, j))
      ensures forall i :: 0 <= i < |pending| ==> Increasing(offers[i])
    {
      hide Load, Prune, DropKeys, Save, Eligible, PendingIds;
      var state := NormalizeNotifyState(file, now);
      var pruned := PruneNotified(state.notified, PendingIds(pending), now);
      var changed := pruned != state.notified;
      var notified := pruned;
      offers := [];
      var oneShotDelivered: set<string> := {};
      for i := 0 to |pending|
        invariant |offers| == i && file == old(file)
        invariant notified == NotifiedAfter(state, pending, send, now, i)
        invariant forall i': nat, j: nat :: i' < i ==>
                  (j in offers[i'] <==> Attempted(state, pending, send, now, i', j))
        invariant forall i' :: 0 <= i' < i ==> Increasing(offers[i'])
        invariant oneShotDelivered == ServedKeys(state, pending, send, now, i)
        invariant changed <==> pruned != state.notified || SentBefore(state, pending, send, now, i)
      {
        ServedStep(state, pending, send, now, i);
        if Marked(notified, pending[i].id) {
          offers := offers + [[]];
          continue;
        }
        var tried, delivered, served := Offer(state.subscribers, pending[i], i, send);
        offers := offers + [tried];
        oneShotDelivered := oneShotDelivered + served;
        if delivered {
          notified := notified[pending[i].id := now];
          changed := true;
        }
      }
      assert changed <==> PollChanges(state, pending, send, now) by {
        forall i: nat, j: nat | Sent(state, pending, send, now, i, j)
          ensures SentBefore(state, pending, send, now, |pending|)
        {
        }
      }
      if changed {
        file := Save(NotifyState(DropKeys(state.subscribers, oneShotDelivered), notified));
      }
    }
  }
}
