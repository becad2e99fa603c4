/** Safety of pairing notifications, for one poll and over whole runs. */
module PairNotifyLaws {
  import opened Options
  import opened Text
  import opened PairNotify

  // ---------------------------------------------------------------- one poll

  lemma {:induction false} MarkStays(s: NotifyState, pending: seq<Request>, send: Sender, now: int, i: nat, k: nat,
                                     id: string)
    requires i <= k <= |pending|
    requires Marked(NotifiedAfter(s, pending, send, now, i), id)
    ensures Marked(NotifiedAfter(s, pending, send, now, k), id)
    ensures NotifiedAfter(s, pending, send, now, k)[id] == NotifiedAfter(s, pending, send, now, i)[id]
    decreases k
  {
    if i < k {
      MarkStays(s, pending, send, now, i, k - 1, id);
    }
  }

  /** After a poll, only pending requests are remembered. */
  lemma {:induction false} OnlyPendingRemembered(s: NotifyState, pending: seq<Request>, send: Sender, now: int, k: nat)
    requires k <= |pending|
    ensures NotifiedAfter(s, pending, send, now, k).Keys <= PendingIds(pending)
    decreases k
  {
    if k > 0 {
      OnlyPendingRemembered(s, pending, send, now, k - 1);
      assert pending[k - 1] in pending;
    }
  }

  /** Some send about this request id succeeded among the first k requests. */
  ghost predicate SentAbout(s: NotifyState, pending: seq<Request>, send: Sender, now: int, k: nat, id: string) {
    exists i: nat, j: nat :: i < k && Sent(s, pending, send, now, i, j) && pending[i].id == id
  }

  /** Mid-poll, a request is marked exactly when the pruned map had it or some send about it has succeeded. */
  lemma {:induction false} MarkedExactly(s: NotifyState, pending: seq<Request>, send: Sender, now: int, k: nat,
                                         id: string)
    requires k <= |pending| && now > 0
    ensures Marked(NotifiedAfter(s, pending, send, now, k), id)
        <==> Marked(Prune(s.notified, PendingIds(pending), now), id) || SentAbout(s, pending, send, now, k, id)
    decreases k
  {
    if k > 0 {
      MarkedExactly(s, pending, send, now, k - 1, id);
      var n := NotifiedAfter(s, pending, send, now, k - 1);
      if !Marked(n, pending[k - 1].id) && Delivered(s.subscribers, pending[k - 1], k - 1, send) {
        var j: nat :| j < |s.subscribers| && Eligible(s.subscribers[j], pending[k - 1]) && send(k - 1, j);
        assert Sent(s, pending, send, now, k - 1, j);
      }
      if SentAbout(s, pending, send, now, k, id) && !SentAbout(s, pending, send, now, k - 1, id) {
        var j: nat :| Sent(s, pending, send, now, k - 1, j) && pending[k - 1].id == id;
        assert Delivered(s.subscribers, pending[k - 1], k - 1, send);
      }
    }
  }

  /**
   Who is offered what: request i goes to every persistent subscriber and to the one-shot subscribers that
   were armed no later than the request was made, unless its id was notified
   within the last 24 hours or a send about the same id already succeeded earlier in this poll.
   */
  lemma AttemptedExactly(s: NotifyState, pending: seq<Request>, send: Sender, now: int, i: nat, j: nat)
    requires now > 0
    ensures Attempted(s, pending, send, now, i, j)
        <==> && i < |pending| && j < |s.subscribers|
             && (s.subscribers[j].mode.Once? ==>
                   pending[i].ts.Some? && Trunc(pending[i].ts.value) > 0
                   && Trunc(pending[i].ts.value) >= s.subscribers[j].addedAtMs)
             && !(Marked(s.notified, pending[i].id) && now - s.notified[pending[i].id] <= 86_400_000)
             && !SentAbout(s, pending, send, now, i, pending[i].id)
  {
    if i < |pending| {
      MarkedExactly(s, pending, send, now, i, pending[i].id);
      assert pending[i] in pending;
    }
  }

  /** What a poll leaves marked: the pending requests that were marked recently or that a send has reached. */
  lemma MarkedAfterPoll(s: NotifyState, pending: seq<Request>, send: Sender, now: int, i: nat)
    requires now > 0 && i < |pending|
    ensures Marked(Polled(s, pending, send, now).notified, pending[i].id)
        <==> || (Marked(s.notified, pending[i].id) && now - s.notified[pending[i].id] <= 86_400_000)
             || SentAbout(s, pending, send, now, |pending|, pending[i].id)
  {
    MarkedExactly(s, pending, send, now, |pending|, pending[i].id);
    assert pending[i] in pending;
  }

  /** A delivered request is stamped with the time of the poll. */
  lemma DeliveryStamps(s: NotifyState, pending: seq<Request>, send: Sender, now: int, i: nat, j: nat)
    requires now > 0 && Sent(s, pending, send, now, i, j)
    ensures Marked(Polled(s, pending, send, now).notified, pending[i].id)
    ensures Polled(s, pending, send, now).notified[pending[i].id] == now
  {
    assert Delivered(s.subscribers, pending[i], i, send);
    MarkStays(s, pending, send, now, i + 1, |pending|, pending[i].id);
  }

  // ---------------------------------------------------------------- what the file remembers

  ghost predicate HasMark(file: File, id: string, ts: int) {
    id in LoadNotified(file) && LoadNotified(file)[id] == ts
  }

  lemma SavedMark(s: NotifyState, id: string, ts: int)
    requires ts > 0
    ensures HasMark(Save(s), id, ts) <==> Trim(id) != "" && id in s.notified && s.notified[id] == ts
  {
  }

  /** The event is not a poll that drops a mark of this id and time. */
  predicate Keeps(t: Timed, id: string, ts: int) {
    t.event.Tick? ==> Remembered(id, ts, PendingIds(t.event.pending), t.now)
  }

  /** A mark survives every command, and every poll that still sees the request within 24 hours. */
  lemma MarkSurvivesStep(file: File, t: Timed, id: string, ts: int)
    requires ts > 0 && HasMark(file, id, ts)
    requires Keeps(t, id, ts)
    ensures HasMark(Step(file, t), id, ts)
  {
    var s := Load(file, t.now);
    match t.event
    case Tick(pending, send) =>
      MarkStays(s, pending, send, t.now, 0, |pending|, id);
      SavedMark(Polled(s, pending, send, t.now), id, ts);
    case _ =>
      var (act, target) := Asks(t.event);
      SavedMark(s.(subscribers := Edit(s.subscribers, act, target, t.now).0), id, ts);
  }

  /** The event is a poll in which, from this state file, some send about the request succeeds. */
  ghost predicate DeliversFrom(file: File, t: Timed, id: string) {
    && t.event.Tick?
    && SentAbout(Load(file, t.now), t.event.pending, t.event.send, t.now, |t.event.pending|, id)
  }

  lemma DeliveryLeavesMark(file: File, t: Timed, id: string)
    requires t.now > 0 && Trim(id) != "" && DeliversFrom(file, t, id)
    ensures HasMark(Step(file, t), id, t.now)
  {
    var s := Load(file, t.now);
    var pending, send := t.event.pending, t.event.send;
    var i: nat, j: nat :| i < |pending| && Sent(s, pending, send, t.now, i, j) && pending[i].id == id;
    DeliveryStamps(s, pending, send, t.now, i, j);
    SavedMark(Polled(s, pending, send, t.now), id, t.now);
  }

  /** Event k of a run delivers the request. */
  ghost predicate Delivers(file: File, events: seq<Timed>, k: nat, id: string)
    requires k < |events|
  {
    DeliversFrom(Run(file, events[..k]), events[k], id)
  }

  lemma RunSnoc(file: File, events: seq<Timed>, k: nat)
    requires k < |events|
    ensures Run(file, events[..k + 1]) == Step(Run(file, events[..k]), events[k])
  {
    assert events[..k + 1][..k] == events[..k];
  }

  lemma DeliveryMarksRun(file: File, events: seq<Timed>, k: nat, id: string)
    requires k < |events| && events[k].now > 0 && Trim(id) != "" && Delivers(file, events, k, id)
    ensures HasMark(Run(file, events[..k + 1]), id, events[k].now)
  {
    DeliveryLeavesMark(Run(file, events[..k]), events[k], id);
    RunSnoc(file, events, k);
  }

  lemma MarkSurvivesEvent(file: File, events: seq<Timed>, k: nat, id: string, ts: int)
    requires k < |events| && ts > 0 && HasMark(Run(file, events[..k]), id, ts)
    requires Keeps(events[k], id, ts)
    ensures HasMark(Run(file, events[..k + 1]), id, ts)
  {
    MarkSurvivesStep(Run(file, events[..k]), events[k], id, ts);
    RunSnoc(file, events, k);
  }

  // ---------------------------------------------------------------- when a request is offered

  /** A mark that a poll leaves was there before, or the poll set it after a successful send. */
  lemma {:induction false} MarkComesFrom(s: NotifyState, pending: seq<Request>, send: Sender, now: int, k: nat,
                                         id: string)
    requires k <= |pending| && id in NotifiedAfter(s, pending, send, now, k)
    ensures var ts := NotifiedAfter(s, pending, send, now, k)[id];
            || (id in s.notified && s.notified[id] == ts && Remembered(id, ts, PendingIds(pending), now))
            || (ts == now && SentAbout(s, pending, send, now, k, id))
    decreases k
  {
    hide PendingIds;
    if k > 0 {
      var n := NotifiedAfter(s, pending, send, now, k - 1);
      var r := pending[k - 1];
      if id == r.id && !Marked(n, id) && Delivered(s.subscribers, r, k - 1, send) {
        var j: nat :| j < |s.subscribers| && Eligible(s.subscribers[j], r) && send(k - 1, j);
        assert Sent(s, pending, send, now, k - 1, j);
      } else {
        MarkComesFrom(s, pending, send, now, k - 1, id);
      }
    }
  }

  lemma UnprunedIsRemembered(notified: map<string, int>, ids: set<string>, now: int, id: string)
    requires Prune(notified, ids, now) == notified && id in notified
    ensures Remembered(id, notified[id], ids, now)
  {
    assert id in Prune(notified, ids, now);
  }

  /** A mark in the file was in it before the event, or the event is a poll that delivered the request. */
  lemma MarkStepsBack(file: File, t: Timed, id: string, ts: int)
    requires ts > 0 && HasMark(Step(file, t), id, ts)
    ensures (HasMark(file, id, ts) && Keeps(t, id, ts)) || (DeliversFrom(file, t, id) && t.now == ts)
  {
    hide NotifiedAfter, Prune, DropKeys, ServedKeys, SentAbout, NormalizeNotified, NormalizeSubscribers, PendingIds;
    var s := Load(file, t.now);
    match t.event
    case Tick(pending, send) =>
      if PollChanges(s, pending, send, t.now) {
        SavedMark(Polled(s, pending, send, t.now), id, ts);
        MarkComesFrom(s, pending, send, t.now, |pending|, id);
      } else {
        UnprunedIsRemembered(s.notified, PendingIds(pending), t.now, id);
      }
    case _ =>
      var (act, target) := Asks(t.event);
      SavedMark(s.(subscribers := Edit(s.subscribers, act, target, t.now).0), id, ts);
  }

  /** Every poll from event `from` on and before event `to` has the request, and finds the mark not too old. */
  predicate KeptIn(events: seq<Timed>, from: nat, to: nat, id: string, ts: int)
    requires to <= |events|
  {
    forall m :: from <= m < to ==> Keeps(events[m], id, ts)
  }

  /** Event a delivered the request, and every poll since still had it, within 24 hours of that delivery. */
  ghost predicate DeliveredSince(file: File, events: seq<Timed>, a: nat, k: nat, id: string)
    requires k <= |events|
  {
    a < k && Delivers(file, events, a, id) && KeptIn(events, a + 1, k, id, events[a].now)
  }

  /** Every mark goes back to a delivery at its time, or to the first file, with the request pending ever since. */
  lemma {:induction false} MarkGoesBack(file: File, events: seq<Timed>, k: nat, id: string, ts: int)
    requires k <= |events| && ts > 0 && HasMark(Run(file, events[..k]), id, ts)
    ensures || (HasMark(file, id, ts) && KeptIn(events, 0, k, id, ts))
            || exists a: nat :: DeliveredSince(file, events, a, k, id) && events[a].now == ts
    decreases k
  {
    hide Step, HasMark, DeliversFrom, Keeps, Run;
    if k == 0 {
      NothingRun(file, events);
    } else {
      var n := k - 1;
      RunSnoc(file, events, n);
      MarkStepsBack(Run(file, events[..n]), events[n], id, ts);
      if HasMark(Run(file, events[..n]), id, ts) && Keeps(events[n], id, ts) {
        MarkGoesBack(file, events, n, id, ts);
        if a: nat :| DeliveredSince(file, events, a, n, id) && events[a].now == ts {
          assert DeliveredSince(file, events, a, k, id);
        }
      } else {
        assert DeliveredSince(file, events, n, k, id);
      }
    }
  }

  lemma NothingRun(file: File, events: seq<Timed>)
    ensures Run(file, events[..0]) == file
  {
  }

  /** A mark lasts as long as every poll keeps it. */
  lemma {:induction false} MarkLasts(file: File, events: seq<Timed>, a: nat, k: nat, id: string, ts: int)
    requires a <= k <= |events| && ts > 0
    requires HasMark(Run(file, events[..a]), id, ts) && KeptIn(events, a, k, id, ts)
    ensures HasMark(Run(file, events[..k]), id, ts)
    decreases k
  {
    hide Step, HasMark, Run;
    if a < k {
      MarkLasts(file, events, a, k - 1, id, ts);
      assert Keeps(events[k - 1], id, ts);
      MarkSurvivesEvent(file, events, k - 1, id, ts);
    }
  }

  ghost predicate Positive(events: seq<Timed>) {
    forall i :: 0 <= i < |events| ==> events[i].now > 0
  }

  /**
   The request has been delivered, and this and every poll in between had it within 24 hours of that
   delivery; the mark that the first file may hold counts as one.  A blank id is never remembered.
   */
  ghost predicate Recent(file: File, events: seq<Timed>, b: nat, id: string)
    requires b < |events|
  {
    && Trim(id) != ""
    && (|| (exists a: nat :: DeliveredSince(file, events, a, b, id) && events[b].now - events[a].now <= 86_400_000)
        || (exists ts :: ts > 0 && HasMark(file, id, ts) && KeptIn(events, 0, b, id, ts)
                         && events[b].now - ts <= 86_400_000))
  }

  lemma RecentIsMarked(file: File, events: seq<Timed>, b: nat, id: string)
    requires Positive(events) && b < |events| && Recent(file, events, b, id)
    ensures exists ts :: ts > 0 && HasMark(Run(file, events[..b]), id, ts) && events[b].now - ts <= 86_400_000
  {
    hide HasMark, Run, DeliversFrom;
    if a: nat :| DeliveredSince(file, events, a, b, id) && events[b].now - events[a].now <= 86_400_000 {
      DeliveryMarksRun(file, events, a, id);
      MarkLasts(file, events, a + 1, b, id, events[a].now);
    } else {
      var ts :| ts > 0 && HasMark(file, id, ts) && KeptIn(events, 0, b, id, ts)
                && events[b].now - ts <= 86_400_000;
      NothingRun(file, events);
      MarkLasts(file, events, 0, b, id, ts);
    }
  }

  lemma MarkedIsRecent(file: File, events: seq<Timed>, b: nat, id: string, ts: int)
    requires b < |events| && ts > 0 && HasMark(Run(file, events[..b]), id, ts)
    requires events[b].now - ts <= 86_400_000
    ensures Recent(file, events, b, id)
  {
    hide Run, DeliversFrom, NormalizeNotified;
    MarkedIsNotBlank(Run(file, events[..b]), id);
    MarkGoesBack(file, events, b, id, ts);
  }

  lemma MarkedIsNotBlank(file: File, id: string)
    requires id in LoadNotified(file)
    ensures Trim(id) != "" && LoadNotified(file)[id] >= 0
  {
  }

  /**
   Nobody is forgotten: in every run, from any state file, a poll offers a pending request to a subscriber
   exactly when the subscriber is eligible, no send about the request has succeeded earlier in the same
   poll, and it has not been delivered within 24 hours and pending ever since.  The clock may run as it
   likes, as long as it is positive.
   */
  lemma OfferedExactly(file: File, events: seq<Timed>, b: nat, i: nat, j: nat)
    requires Positive(events) && b < |events| && events[b].event.Tick?
    requires i < |events[b].event.pending|
    ensures var e, s := events[b].event, StateAt(file, events, b);
            Attempted(s, e.pending, e.send, events[b].now, i, j)
            <==> && j < |s.subscribers| && Eligible(s.subscribers[j], e.pending[i])
                 && !SentAbout(s, e.pending, e.send, events[b].now, i, e.pending[i].id)
                 && !Recent(file, events, b, e.pending[i].id)
  {
    hide Attempted, SentAbout, Recent, Run;
    var e, now, s := events[b].event, events[b].now, StateAt(file, events, b);
    var id := e.pending[i].id;
    AttemptedExactly(s, e.pending, e.send, now, i, j);
    if Recent(file, events, b, id) {
      RecentIsMarked(file, events, b, id);
    }
    if Marked(s.notified, id) && now - s.notified[id] <= 86_400_000 {
      MarkedIsNotBlank(Run(file, events[..b]), id);
      MarkedIsRecent(file, events, b, id, s.notified[id]);
    }
  }

  /** Request i of a poll carries this id, and a send of it to some eligible subscriber would succeed. */
  ghost predicate Reachable(s: NotifyState, pending: seq<Request>, send: Sender, id: string) {
    exists i: nat :: i < |pending| && pending[i].id == id && Delivered(s.subscribers, pending[i], i, send)
  }

  /** A poll delivers a request exactly when some send of it would succeed and it is not a recent one. */
  lemma DeliversExactly(file: File, events: seq<Timed>, b: nat, id: string)
    requires Positive(events) && b < |events| && events[b].event.Tick?
    ensures Delivers(file, events, b, id)
        <==> && Reachable(StateAt(file, events, b), events[b].event.pending, events[b].event.send, id)
             && !Recent(file, events, b, id)
  {
    hide Attempted, Recent, Run;
    var e, now, s := events[b].event, events[b].now, StateAt(file, events, b);
    if Delivers(file, events, b, id) {
      var i: nat, j: nat :| i < |e.pending| && Sent(s, e.pending, e.send, now, i, j) && e.pending[i].id == id;
      OfferedExactly(file, events, b, i, j);
      assert Delivered(s.subscribers, e.pending[i], i, e.send);
    }
    if Reachable(s, e.pending, e.send, id) && !Recent(file, events, b, id) {
      var i: nat :| i < |e.pending| && e.pending[i].id == id && Delivered(s.subscribers, e.pending[i], i, e.send);
      var j: nat :| j < |s.subscribers| && Eligible(s.subscribers[j], e.pending[i]) && e.send(i, j);
      OfferedExactly(file, events, b, i, j);
      if !SentAbout(s, e.pending, e.send, now, i, id) {
        assert Sent(s, e.pending, e.send, now, i, j);
      }
    }
  }

  /** The request is pending in every poll from event `from` on and before event `to`. */
  predicate PendingIn(events: seq<Timed>, from: nat, to: nat, id: string)
    requires to <= |events|
  {
    forall m :: from <= m < to && events[m].event.Tick? ==> id in PendingIds(events[m].event.pending)
  }

  /**
   No nagging: in every run, from any state file, two polls that both deliver a request which stayed
   pending in between are more than 24 hours apart.
   */
  lemma DeliveriesAreADayApart(file: File, events: seq<Timed>, a: nat, b: nat, id: string)
    requires a < b < |events| && Clocked(events) && Trim(id) != ""
    requires Delivers(file, events, a, id) && Delivers(file, events, b, id)
    requires PendingIn(events, a + 1, b, id)
    ensures events[b].now - events[a].now > 86_400_000
  {
    hide Run, SentAbout;
    if events[b].now - events[a].now <= 86_400_000 {
      assert forall m :: a < m < b ==> events[m].now <= events[b].now;
      assert DeliveredSince(file, events, a, b, id);
      DeliversExactly(file, events, b, id);
    }
  }

  /**
   A blank request id is never remembered across a read, which is why the law above excludes it: a poll
   delivers it whenever a send can succeed, however recent the last delivery.
   */
  lemma BlankIdIsForgotten(file: File, events: seq<Timed>, b: nat, id: string)
    requires Positive(events) && b < |events| && events[b].event.Tick? && Trim(id) == ""
    ensures Delivers(file, events, b, id)
        <==> Reachable(StateAt(file, events, b), events[b].event.pending, events[b].event.send, id)
  {
    hide Run, Delivers, Reachable;
    DeliversExactly(file, events, b, id);
  }
}
