/**
 The subscriber list of pairing notifications: what a command does to the chats, and what every run keeps
 of the keys and of the one-shot subscriptions.
 */
module PairNotifyChats {
  import opened Options
  import opened Text
  import opened PairNotify
  import opened PairNotifyLaws

  // ---------------------------------------------------------------- the keys of a subscriber list

  ghost predicate UniqueKeys(subscribers: seq<Subscriber>) {
    forall i, j :: 0 <= i < j < |subscribers| ==> SubscriberKey(subscribers[i]) != SubscriberKey(subscribers[j])
  }

  ghost predicate HasKey(subscribers: seq<Subscriber>, key: string) {
    exists i :: 0 <= i < |subscribers| && SubscriberKey(subscribers[i]) == key
  }

  lemma KeysTellApart(subscribers: seq<Subscriber>, i: nat, j: nat)
    requires UniqueKeys(subscribers) && i < |subscribers| && j < |subscribers|
    ensures SubscriberKey(subscribers[i]) == SubscriberKey(subscribers[j]) <==> i == j
  {
    var a, b := Min(i, j), Max(i, j);
    assert a < b ==> SubscriberKey(subscribers[a]) != SubscriberKey(subscribers[b]);
  }

  lemma {:induction false} DropKeysMembers(subscribers: seq<Subscriber>, keys: set<string>, x: Subscriber)
    ensures x in DropKeys(subscribers, keys) <==> x in subscribers && SubscriberKey(x) !in keys
    decreases |subscribers|
  {
    if subscribers != [] {
      DropKeysMembers(subscribers[..|subscribers| - 1], keys, x);
      assert subscribers == subscribers[..|subscribers| - 1] + [subscribers[|subscribers| - 1]];
    }
  }

  lemma {:induction false} DropKeysUnique(subscribers: seq<Subscriber>, keys: set<string>)
    requires UniqueKeys(subscribers)
    ensures UniqueKeys(DropKeys(subscribers, keys))
    decreases |subscribers|
  {
    if subscribers != [] {
      var n := |subscribers| - 1;
      var kept := DropKeys(subscribers[..n], keys);
      DropKeysUnique(subscribers[..n], keys);
      forall i | 0 <= i < |kept|
        ensures SubscriberKey(kept[i]) != SubscriberKey(subscribers[n])
      {
        DropKeysMembers(subscribers[..n], keys, kept[i]);
      }
    }
  }

  /**
   With unique keys, a poll removes exactly the one-shot subscribers it reached; in particular it never
   removes a persistent one.
   */
  lemma PollRemovesExactly(s: NotifyState, pending: seq<Request>, send: Sender, now: int, j: nat)
    requires UniqueKeys(s.subscribers) && j < |s.subscribers|
    ensures s.subscribers[j] !in Polled(s, pending, send, now).subscribers
        <==> s.subscribers[j].mode.Once? && exists i: nat :: Sent(s, pending, send, now, i, j)
  {
    var keys := ServedKeys(s, pending, send, now, |pending|);
    var x := s.subscribers[j];
    DropKeysMembers(s.subscribers, keys, x);
    if SubscriberKey(x) in keys {
      var i: nat, j': nat :| i < |pending| && Sent(s, pending, send, now, i, j') && s.subscribers[j'].mode.Once?
                             && SubscriberKey(s.subscribers[j']) == SubscriberKey(x);
      assert Sent(s, pending, send, now, i, j');
      KeysTellApart(s.subscribers, j, j');
    }
  }

  ghost predicate Good(subscribers: seq<Subscriber>) {
    UniqueKeys(subscribers) && CanonicalSubscribers(subscribers)
  }

  /** Taking out the entry at i, or putting an entry of the same key in its place or at the end. */
  lemma RemoveKeepsGood(subscribers: seq<Subscriber>, i: nat)
    requires Good(subscribers) && i < |subscribers|
    ensures Good(subscribers[..i] + subscribers[i + 1..])
  {
    hide CanonicalSubscriber, SubscriberKey;
    var r := subscribers[..i] + subscribers[i + 1..];
    assert forall k :: 0 <= k < |r| ==> r[k] == subscribers[if k < i then k else k + 1];
  }

  lemma PutKeepsGood(subscribers: seq<Subscriber>, i: nat, next: Subscriber)
    requires Good(subscribers) && i == FindKey(subscribers, SubscriberKey(next)) && CanonicalSubscriber(next)
    ensures i < |subscribers| ==> Good(subscribers[i := next])
    ensures i == |subscribers| ==> Good(subscribers + [next])
  {
    hide CanonicalSubscriber, SubscriberKey;
    var r := if i < |subscribers| then subscribers[i := next] else subscribers + [next];
    assert forall k :: 0 <= k < |subscribers| && k != i ==> r[k] == subscribers[k];
    if i < |subscribers| {
      assert SubscriberKey(subscribers[i]) == SubscriberKey(next);
    }
  }

  // ---------------------------------------------------------------- what one command does

  ghost predicate HasMode(subscribers: seq<Subscriber>, key: string, mode: Mode) {
    exists x :: x in subscribers && SubscriberKey(x) == key && x.mode == mode
  }

  lemma RemoveExactly(subscribers: seq<Subscriber>, i: nat, key: string)
    requires UniqueKeys(subscribers) && i == FindKey(subscribers, key) < |subscribers|
    ensures var r := subscribers[..i] + subscribers[i + 1..];
            && (forall x :: SubscriberKey(x) != key ==> (x in subscribers <==> x in r))
            && !HasKey(r, key)
  {
    hide SubscriberKey, FindKey;
    var r := subscribers[..i] + subscribers[i + 1..];
    assert subscribers == subscribers[..i] + [subscribers[i]] + subscribers[i + 1..];
    forall k | 0 <= k < |r|
      ensures SubscriberKey(r[k]) != key
    {
      var j := if k < i then k else k + 1;
      assert r[k] == subscribers[j];
      KeysTellApart(subscribers, i, j);
    }
  }

  lemma UpsertExactly(subscribers: seq<Subscriber>, target: Target, mode: Mode, now: int)
    requires UniqueKeys(subscribers)
    ensures var (r, changed) := Upsert(subscribers, target, mode, now);
            var key := TargetKey(target);
            && (forall x :: SubscriberKey(x) != key ==> (x in subscribers <==> x in r))
            && HasMode(r, key, mode)
            && (HasMode(subscribers, key, mode) ==> r == subscribers)
  {
    var key := TargetKey(target);
    var i := FindKey(subscribers, key);
    var r := Upsert(subscribers, target, mode, now).0;
    var next := Subscriber(target.to, target.accountId, target.threadId, mode, now);
    assert SubscriberKey(next) == key;
    hide SubscriberKey, FindKey, TargetKey;
    assert r[i] in r;
    if i < |subscribers| {
      assert subscribers == subscribers[..i] + [subscribers[i]] + subscribers[i + 1..];
      assert r == subscribers[..i] + [r[i]] + subscribers[i + 1..];
      forall x | x in subscribers && SubscriberKey(x) == key
        ensures x == subscribers[i]
      {
        var k :| 0 <= k < |subscribers| && subscribers[k] == x;
        KeysTellApart(subscribers, i, k);
      }
    } else {
      assert r == subscribers + [next];
    }
  }

  /**
   A command reaches exactly the key of the chat that gave it: it leaves the key subscribed in the mode
   asked for, or not at all, keeps an existing subscription of that mode as it was, and touches no other key.
   */
  lemma EditExactly(subscribers: seq<Subscriber>, act: Act, target: Target, now: int)
    requires UniqueKeys(subscribers)
    ensures var r := Edit(subscribers, act, Some(target), now).0;
            var key := TargetKey(target);
            && (forall x :: SubscriberKey(x) != key ==> (x in subscribers <==> x in r))
            && (act.On? ==> HasMode(r, key, Persistent) && (HasMode(subscribers, key, Persistent) ==> r == subscribers))
            && (act.ArmOnce? ==> HasMode(r, key, Once) && (HasMode(subscribers, key, Once) ==> r == subscribers))
            && (act.Off? ==> !HasKey(r, key))
            && (act.NoAct? ==> r == subscribers)
  {
    hide SubscriberKey, TargetKey, HasMode, Upsert;
    var i := FindKey(subscribers, TargetKey(target));
    if i < |subscribers| {
      RemoveExactly(subscribers, i, TargetKey(target));
    }
    UpsertExactly(subscribers, target, Persistent, now);
    UpsertExactly(subscribers, target, Once, now);
  }

  /** The recipient is there, and neither it nor the account id carries surrounding white space. */
  predicate TidyTarget(t: Target) {
    CanonicalSubscriber(Subscriber(t.to, t.accountId, t.threadId, Once, 0))
  }

  function Chat(s: Subscriber): Target {
    Target(s.to, s.accountId, s.threadId)
  }

  /** No other chat is subscribed under the key of the target. */
  ghost predicate OwnsKey(subscribers: seq<Subscriber>, target: Target) {
    forall x :: x in subscribers && SubscriberKey(x) == TargetKey(target) ==> Chat(x) == target
  }

  ghost predicate Subscribed(subscribers: seq<Subscriber>, chat: Target, mode: Mode) {
    exists x :: x in subscribers && Chat(x) == chat && x.mode == mode
  }

  /** The chat is subscribed as the action asks, or not at all, and every other chat is left alone. */
  ghost predicate DoneAsAsked(before: seq<Subscriber>, after: seq<Subscriber>, act: Act, chat: Target) {
    && (forall x :: Chat(x) != chat ==> (x in before <==> x in after))
    && match act
       case On => Subscribed(after, chat, Persistent)
       case ArmOnce => Subscribed(after, chat, Once)
       case Off => forall x :: x in after ==> Chat(x) != chat
       case NoAct => true
  }

  /** A command does what its chat asks, and nothing to any other chat, exactly when its key is its own. */
  lemma ChatEditExactly(subscribers: seq<Subscriber>, act: Act, target: Target, now: int)
    requires UniqueKeys(subscribers) && !act.NoAct?
    ensures DoneAsAsked(subscribers, Edit(subscribers, act, Some(target), now).0, act, target)
        <==> OwnsKey(subscribers, target)
  {
    hide Edit, UniqueKeys, Key;
    var r := Edit(subscribers, act, Some(target), now).0;
    EditExactly(subscribers, act, target, now);
    assert forall x :: Chat(x) == target ==> SubscriberKey(x) == TargetKey(target);
    if x :| x in subscribers && SubscriberKey(x) == TargetKey(target) && Chat(x) != target {
      StrangerIsHit(subscribers, act, target, now, x);
    } else {
      assert OwnsKey(subscribers, target);
      OwnKeyIsHit(subscribers, act, target, now);
    }
  }

  /** Another chat under the same key is what the command acts on. */
  lemma StrangerIsHit(subscribers: seq<Subscriber>, act: Act, target: Target, now: int, x: Subscriber)
    requires UniqueKeys(subscribers) && !act.NoAct?
    requires x in subscribers && SubscriberKey(x) == TargetKey(target) && Chat(x) != target
    ensures !DoneAsAsked(subscribers, Edit(subscribers, act, Some(target), now).0, act, target)
  {
    hide UniqueKeys, Key, FindKey;
    var i := FindKey(subscribers, TargetKey(target));
    OnlyOne(subscribers, i, x);
    EditExactly(subscribers, act, target, now);
    var r := Edit(subscribers, act, Some(target), now).0;
    if act.Off? {
      assert x !in r;
    } else if r == subscribers {
      forall y | y in r && Chat(y) == target
        ensures false
      {
        OnlyOne(subscribers, i, y);
      }
    } else {
      assert r == subscribers[i := r[i]];
      forall k | 0 <= k < |r| && r[k] == x
        ensures false
      {
        assert k != i ==> subscribers[k] == x;
        if k != i {
          KeysTellApart(subscribers, i, k);
        }
      }
    }
  }

  lemma OnlyOne(subscribers: seq<Subscriber>, i: nat, x: Subscriber)
    requires UniqueKeys(subscribers) && x in subscribers && i == FindKey(subscribers, SubscriberKey(x))
    ensures i < |subscribers| && subscribers[i] == x
  {
    hide UniqueKeys, Key;
    var k :| 0 <= k < |subscribers| && subscribers[k] == x;
    KeysTellApart(subscribers, i, k);
  }

  lemma OwnKeyIsHit(subscribers: seq<Subscriber>, act: Act, target: Target, now: int)
    requires UniqueKeys(subscribers) && OwnsKey(subscribers, target)
    ensures DoneAsAsked(subscribers, Edit(subscribers, act, Some(target), now).0, act, target)
  {
    hide UniqueKeys, Key, FindKey;
    var i := FindKey(subscribers, TargetKey(target));
    var r := Edit(subscribers, act, Some(target), now).0;
    EditExactly(subscribers, act, target, now);
    if act.Off? {
      KeyIsGone(r, TargetKey(target));
    } else if !act.NoAct? {
      assert i < |subscribers| ==> subscribers[i] in subscribers && Chat(subscribers[i]) == target;
      assert i < |r| && r[i] in r && Chat(r[i]) == target;
    }
    forall x | SubscriberKey(x) == TargetKey(target) && Chat(x) != target
      ensures x !in subscribers && x !in r
    {
      if x in r {
        EditAddsOwn(subscribers, act, target, now, x);
      }
    }
  }

  lemma KeyIsGone(subscribers: seq<Subscriber>, key: string)
    requires !HasKey(subscribers, key)
    ensures forall x :: x in subscribers ==> SubscriberKey(x) != key
  {
  }

  lemma EditAddsOwn(subscribers: seq<Subscriber>, act: Act, target: Target, now: int, x: Subscriber)
    requires x in Edit(subscribers, act, Some(target), now).0
    ensures x in subscribers || Chat(x) == target
  {
    hide Key, FindKey;
  }

  // ---------------------------------------------------------------- when chats share a key

  /** No separator in the recipient or the account id. */
  predicate PipeFree(t: Target) {
    '|' !in t.to && (t.accountId.Some? ==> '|' !in t.accountId.value)
  }

  function Pipes(s: string): nat {
    if s == [] then 0 else Pipes(s[..|s| - 1]) + if s[|s| - 1] == '|' then 1 else 0
  }

  lemma {:induction false} PipesConcat(a: string, b: string)
    ensures Pipes(a + b) == Pipes(a) + Pipes(b)
    decreases |b|
  {
    if b == [] {
      assert a + b == a;
    } else {
      assert (a + b)[..|a + b| - 1] == a + b[..|b| - 1];
      PipesConcat(a, b[..|b| - 1]);
    }
  }

  lemma {:induction false} PipesExactly(s: string)
    ensures Pipes(s) == 0 <==> '|' !in s
    decreases |s|
  {
    if s != [] {
      PipesExactly(s[..|s| - 1]);
      assert s == s[..|s| - 1] + [s[|s| - 1]];
    }
  }

  function AccountText(t: Target): string {
    if t.accountId.Some? then t.accountId.value else ""
  }

  function ThreadText(t: Target): string {
    if t.threadId.Some? then IntNumeral(t.threadId.value) else ""
  }

  lemma KeyPipes(t: Target)
    ensures Pipes(TargetKey(t)) == 2 + Pipes(t.to) + Pipes(AccountText(t))
  {
    var account, thread := AccountText(t), ThreadText(t);
    PipesExactly(thread);
    PipesConcat(t.to, "|");
    PipesConcat(t.to + "|", account);
    PipesConcat(t.to + "|" + account, "|");
    PipesConcat(t.to + "|" + account + "|", thread);
    assert "|"[..0] == [];
  }

  lemma FirstPipe(a: string, x: string)
    requires '|' !in a
    ensures var s := a + "|" + x;
            && s[|a|] == '|' && (forall i :: 0 <= i < |a| ==> s[i] != '|')
            && s[..|a|] == a && s[|a| + 1..] == x
  {
    var s := a + "|" + x;
    assert forall i :: 0 <= i < |a| ==> s[i] == a[i];
  }

  /** What stands before the first separator, and what stands after it. */
  lemma SplitAtFirst(a: string, x: string, b: string, y: string)
    requires '|' !in a && '|' !in b && a + "|" + x == b + "|" + y
    ensures a == b && x == y
  {
    FirstPipe(a, x);
    FirstPipe(b, y);
  }

  lemma KeyShape(t: Target)
    ensures TargetKey(t) == t.to + "|" + (AccountText(t) + "|" + ThreadText(t))
  {
  }

  lemma TextsTellApart(t: Target, u: Target)
    requires t.accountId != Some("") && u.accountId != Some("")
    requires t.to == u.to && AccountText(t) == AccountText(u) && ThreadText(t) == ThreadText(u)
    ensures t == u
  {
    hide IntNumeral;
    if t.threadId.Some? {
      IntNumeralInjective(t.threadId.value, if u.threadId.Some? then u.threadId.value else 0);
    }
    if u.threadId.Some? {
      IntNumeralInjective(u.threadId.value, 0);
    }
  }

  lemma PipeFreeExactly(t: Target)
    ensures PipeFree(t) <==> Pipes(TargetKey(t)) == 2
    ensures PipeFree(t) <==> '|' !in t.to && '|' !in AccountText(t)
  {
    hide Pipes, TargetKey;
    KeyPipes(t);
    PipesExactly(t.to);
    PipesExactly(AccountText(t));
  }

  /** A chat without the separator in it shares its key with no other chat. */
  lemma KeysSeparate(t: Target, u: Target)
    requires PipeFree(t) && t.accountId != Some("") && u.accountId != Some("")
    ensures TargetKey(t) == TargetKey(u) <==> t == u
  {
    hide Pipes, TargetKey, AccountText, ThreadText, PipeFree;
    if TargetKey(t) == TargetKey(u) {
      PipeFreeExactly(t);
      PipeFreeExactly(u);
      KeyShape(t);
      KeyShape(u);
      SplitAtFirst(t.to, AccountText(t) + "|" + ThreadText(t), u.to, AccountText(u) + "|" + ThreadText(u));
      SplitAtFirst(AccountText(t), ThreadText(t), AccountText(u), ThreadText(u));
      TextsTellApart(t, u);
    }
  }

  /** So its commands always do what they ask, to that chat alone. */
  lemma PipeFreeOwnsKey(subscribers: seq<Subscriber>, target: Target)
    requires CanonicalSubscribers(subscribers) && PipeFree(target) && target.accountId != Some("")
    ensures OwnsKey(subscribers, target)
  {
    forall x | x in subscribers && SubscriberKey(x) == TargetKey(target)
      ensures Chat(x) == target
    {
      KeysSeparate(target, Chat(x));
    }
  }

  lemma SameText()
    ensures Key("a", Some("b|c"), None) == Key("a|b", Some("c"), None)
  {
    assert Key("a", Some("b|c"), None) == "a|b|c|" == Key("a|b", Some("c"), None);
  }

  /**
   Two chats can share a key: after the first has subscribed, the second's `on` changes nothing and
   subscribes nobody, and its `off` removes the first.
   */
  lemma SharedKey(now: int)
    ensures var first, second := Target("a", Some("b|c"), None), Target("a|b", Some("c"), None);
            var list := Edit([], On, Some(first), now).0;
            && TidyTarget(first) && TidyTarget(second) && first != second
            && Edit(list, On, Some(second), now) == (list, false) && !Subscribed(list, second, Persistent)
            && Subscribed(list, first, Persistent) && Edit(list, Off, Some(second), now) == ([], true)
  {
    hide Key, Trim;
    var first, second := Target("a", Some("b|c"), None), Target("a|b", Some("c"), None);
    SameText();
    var x := Subscriber("a", Some("b|c"), None, Persistent, now);
    assert Edit([], On, Some(first), now).0 == [x];
    assert SubscriberKey(x) == TargetKey(second);
    assert [x][..0] + [x][1..] == [];
    assert x in [x] && Chat(x) == first;
  }

  // ---------------------------------------------------------------- writing and reading back

  /** What the file will say about a target once it is read back. */
  function ReadBack(t: Target): Target {
    Target(Trim(t.to), if Trimmed(t.accountId) != "" then Some(Trimmed(t.accountId)) else None, t.threadId)
  }

  lemma StoredReadsBack(t: Target, mode: Mode, now: int, at: int)
    requires Tidy(t.to) && t.to != ""
    ensures var r := ReadBack(t);
            NormalizeSubscriber(SaveSubscriber(Subscriber(t.to, t.accountId, t.threadId, mode, now)), at)
            == Some(Subscriber(r.to, r.accountId, r.threadId, mode, now))
  {
    TrimFixpoint(t.to);
  }

  lemma {:induction false} ReloadOneStored(next: seq<Subscriber>, stored: Subscriber, reread: Subscriber, i: nat,
                                           now: int)
    requires i < |next| && next[i] == stored
    requires NormalizeSubscriber(SaveSubscriber(stored), now) == Some(reread)
    requires forall k :: 0 <= k < |next| && k != i ==> CanonicalSubscriber(next[k])
    ensures NormalizeSubscribers(SaveSubscribers(next), now) == next[i := reread]
    decreases |next|
  {
    var n := |next| - 1;
    assert SaveSubscribers(next)[..n] == SaveSubscribers(next[..n]);
    if i == n {
      ReloadSubscribers(next[..n], now);
    } else {
      ReloadOneStored(next[..n], stored, reread, i, now);
      NormalizeSaved(next[n], now);
      assert next[i := reread] == next[..n][i := reread] + [next[n]];
    }
  }

  lemma {:induction false} NormalizedIsCanonical(raw: seq<RawSubscriber>, now: int)
    ensures CanonicalSubscribers(NormalizeSubscribers(raw, now))
    decreases |raw|
  {
    hide CanonicalSubscriber, NormalizeSubscriber;
    if raw != [] {
      NormalizedIsCanonical(raw[..|raw| - 1], now);
      OneIsCanonical(raw[|raw| - 1], now);
    }
  }

  lemma OneIsCanonical(raw: RawSubscriber, now: int)
    ensures NormalizeSubscriber(raw, now).Some? ==> CanonicalSubscriber(NormalizeSubscriber(raw, now).value)
  {
    if raw.RawSubscriber? && raw.to.Some? {
      TrimIsTidy(raw.to.value);
      if raw.accountId.Some? {
        TrimIsTidy(raw.accountId.value);
      }
    }
  }

  /** A list read back has only entries of the list written, as each of them reads back. */
  lemma {:induction false} ReadBackMember(subscribers: seq<Subscriber>, now: int, x: Subscriber)
    requires x in NormalizeSubscribers(SaveSubscribers(subscribers), now)
    ensures exists y :: y in subscribers && NormalizeSubscriber(SaveSubscriber(y), now) == Some(x)
    decreases |subscribers|
  {
    hide NormalizeSubscriber, SaveSubscriber;
    if subscribers != [] {
      var n := |subscribers| - 1;
      assert SaveSubscribers(subscribers)[..n] == SaveSubscribers(subscribers[..n]);
      if NormalizeSubscriber(SaveSubscriber(subscribers[n]), now) != Some(x) {
        ReadBackMember(subscribers[..n], now, x);
      }
    }
  }

  // ---------------------------------------------------------------- what a run reads

  /** The service wrote the file: every subscriber in it has its time. */
  ghost predicate Stamped(file: File) {
    file.File? ==> forall r :: r in file.raw.subscribers ==> r.RawSubscriber? && r.addedAtMs.Some?
  }

  lemma {:induction false} StampedIgnoresNow(raw: seq<RawSubscriber>, now: int, at: int)
    requires forall r :: r in raw ==> r.RawSubscriber? && r.addedAtMs.Some?
    ensures NormalizeSubscribers(raw, now) == NormalizeSubscribers(raw, at)
    decreases |raw|
  {
    if raw != [] {
      StampedIgnoresNow(raw[..|raw| - 1], now, at);
      assert raw[|raw| - 1] in raw;
    }
  }

  lemma SavedIsStamped(s: NotifyState)
    ensures Stamped(Save(s))
  {
  }

  lemma {:induction false} RunIsStamped(events: seq<Timed>)
    ensures Stamped(Run(Unreadable, events))
    decreases |events|
  {
    hide Stamped, Save, Load, Edit, Polled, PollChanges;
    if events == [] {
      NothingIsStamped();
    } else {
      var n := |events| - 1;
      var file := Run(Unreadable, events[..n]);
      var t := events[n];
      RunIsStamped(events[..n]);
      var s := Load(file, t.now);
      if t.event.Tick? {
        SavedIsStamped(Polled(s, t.event.pending, t.event.send, t.now));
      } else {
        SavedIsStamped(s.(subscribers := Edit(s.subscribers, Asks(t.event).0, Asks(t.event).1, t.now).0));
      }
    }
  }

  lemma NothingIsStamped()
    ensures Stamped(Unreadable)
  {
  }

  /** The subscribers that a run from an empty state leaves for the next event to read. */
  ghost function ReadAfter(events: seq<Timed>): seq<Subscriber> {
    Load(Run(Unreadable, events), 0).subscribers
  }

  lemma ReadIsCanonical(events: seq<Timed>)
    ensures CanonicalSubscribers(ReadAfter(events))
  {
    var file := Run(Unreadable, events);
    if file.File? {
      NormalizedIsCanonical(file.raw.subscribers, 0);
    }
  }

  lemma ReadIgnoresNow(events: seq<Timed>, now: int)
    ensures Load(Run(Unreadable, events), now).subscribers == ReadAfter(events)
  {
    hide Run;
    RunIsStamped(events);
    var file := Run(Unreadable, events);
    if file.File? {
      StampedIgnoresNow(file.raw.subscribers, now, 0);
    }
  }

  /** The subscribers that the next step leaves, before they are written. */
  ghost function NextSubscribers(s: NotifyState, t: Timed): seq<Subscriber> {
    match t.event
    case Tick(pending, send) => Polled(s, pending, send, t.now).subscribers
    case _ => Edit(s.subscribers, Asks(t.event).0, Asks(t.event).1, t.now).0
  }

  lemma UnchangedPoll(s: NotifyState, pending: seq<Request>, send: Sender, now: int)
    requires !PollChanges(s, pending, send, now)
    ensures DropKeys(s.subscribers, ServedKeys(s, pending, send, now, |pending|)) == s.subscribers
  {
    assert ServedKeys(s, pending, send, now, |pending|) == {};
    DropNothing(s.subscribers);
  }

  lemma {:induction false} DropNothing(subscribers: seq<Subscriber>)
    ensures DropKeys(subscribers, {}) == subscribers
    decreases |subscribers|
  {
    if subscribers != [] {
      DropNothing(subscribers[..|subscribers| - 1]);
    }
  }

  lemma UnchangedEdit(subscribers: seq<Subscriber>, act: Act, target: Option<Target>, now: int)
    requires !Edit(subscribers, act, target, now).1
    ensures Edit(subscribers, act, target, now).0 == subscribers
  {
  }

  /** What the next event reads is what this one leaves, written and read back. */
  lemma ReadStep(events: seq<Timed>, k: nat)
    requires k < |events|
    ensures StateAt(Unreadable, events, k).subscribers == ReadAfter(events[..k])
    ensures ReadAfter(events[..k + 1])
         == NormalizeSubscribers(SaveSubscribers(NextSubscribers(StateAt(Unreadable, events, k), events[k])), 0)
  {
    hide Run, NormalizeSubscribers, NormalizeNotified, PollChanges, Edit, SaveSubscribers, CanonicalSubscribers;
    var t, s := events[k], StateAt(Unreadable, events, k);
    RunSnoc(Unreadable, events, k);
    ReadIgnoresNow(events[..k], t.now);
    ReadIsCanonical(events[..k]);
    ReloadSubscribers(s.subscribers, 0);
    if t.event.Tick? {
      if !PollChanges(s, t.event.pending, t.event.send, t.now) {
        UnchangedPoll(s, t.event.pending, t.event.send, t.now);
      }
    } else if !Edit(s.subscribers, Asks(t.event).0, Asks(t.event).1, t.now).1 {
      UnchangedEdit(s.subscribers, Asks(t.event).0, Asks(t.event).1, t.now);
    }
  }

  lemma AskedRecipientIsTidy(e: Event)
    ensures Asks(e).1.Some? ==> Tidy(Asks(e).1.value.to) && Asks(e).1.value.to != ""
  {
    if !e.Tick? {
      if e.ctx.senderId.Some? { TrimIsTidy(e.ctx.senderId.value); }
      if e.ctx.from.Some? { TrimIsTidy(e.ctx.from.value); }
      if e.ctx.to.Some? { TrimIsTidy(e.ctx.to.value); }
    }
  }

  // ---------------------------------------------------------------- what a command leaves in the file

  /** Whom a command speaks for: the first of sender, origin and recipient that is not blank. */
  lemma ResolvesExactly(ctx: Ctx, target: Target)
    ensures ResolveNotifyTarget(ctx) == Some(target)
        <==> && target.to != ""
             && (|| (ctx.senderId.Some? && target.to == Trim(ctx.senderId.value))
                 || (Blank(ctx.senderId) && ctx.from.Some? && target.to == Trim(ctx.from.value))
                 || (Blank(ctx.senderId) && Blank(ctx.from) && ctx.to.Some? && target.to == Trim(ctx.to.value)))
             && (target.accountId.Some? <==> ctx.accountId.Some? && ctx.accountId.value != "")
             && (target.accountId.Some? ==> target.accountId == ctx.accountId)
             && target.threadId == ctx.threadId
    ensures ResolveNotifyTarget(ctx).None? <==> Blank(ctx.senderId) && Blank(ctx.from) && Blank(ctx.to)
  {
    hide Trim;
  }

  predicate Blank(s: Option<string>) {
    s.None? || Trim(s.value) == ""
  }

  /** What one entry of the file loads to: only its recipient is required, and a missing time becomes now. */
  lemma LoadsExactly(raw: RawSubscriber, now: int, s: Subscriber)
    ensures NormalizeSubscriber(raw, now) == Some(s)
        <==> && raw.RawSubscriber? && raw.to.Some? && s.to == Trim(raw.to.value) && s.to != ""
             && (if Blank(raw.accountId) then s.accountId.None?
                 else s.accountId.Some? && s.accountId.value == Trim(raw.accountId.value))
             && (raw.threadId.None? ==> s.threadId.None?)
             && (raw.threadId.Some? ==> s.threadId.Some? && s.threadId.value == Trunc(raw.threadId.value))
             && (s.mode.Once? <==> raw.once)
             && (raw.addedAtMs.None? ==> s.addedAtMs == now)
             && (raw.addedAtMs.Some? ==> s.addedAtMs == Trunc(raw.addedAtMs.value))
  {
    hide Trim, Trunc;
  }

  /** What the marks of the file load to: those of non-blank ids with a positive time. */
  lemma MarksLoadExactly(raw: RawState, id: string, ts: int)
    ensures id in LoadNotified(File(raw)) && LoadNotified(File(raw))[id] == ts
        <==> && id in raw.notified && Trim(id) != ""
             && raw.notified[id].Some? && raw.notified[id].value > 0.0 && ts == Trunc(raw.notified[id].value)
  {
    hide Trim, Trunc;
  }

  /** The list after an upsert, written and read back: the chat's entry is put in place or at the end. */
  lemma UpsertReadsBack(subscribers: seq<Subscriber>, target: Target, mode: Mode, now: int)
    requires CanonicalSubscribers(subscribers) && Tidy(target.to) && target.to != ""
    ensures var (next, changed) := Upsert(subscribers, target, mode, now);
            var i, r := FindKey(subscribers, TargetKey(target)), ReadBack(target);
            var after := NormalizeSubscribers(SaveSubscribers(next), now);
            var x := Subscriber(r.to, r.accountId, r.threadId, mode, now);
            && (changed <==> !(i < |subscribers| && subscribers[i].mode == mode))
            && (changed ==> after == if i < |subscribers| then subscribers[i := x] else subscribers + [x])
  {
    hide CanonicalSubscriber, NormalizeSubscriber, SaveSubscriber, TargetKey;
    var (next, changed) := Upsert(subscribers, target, mode, now);
    var i := FindKey(subscribers, TargetKey(target));
    if changed {
      var r := ReadBack(target);
      StoredReadsBack(target, mode, now, now);
      assert forall k :: 0 <= k < |next| && k != i ==> next[k] == subscribers[k];
      ReloadOneStored(next, next[i], Subscriber(r.to, r.accountId, r.threadId, mode, now), i, now);
    }
  }

  ghost predicate SameMarks(file: File, file': File) {
    forall id, ts :: ts > 0 ==> (HasMark(file, id, ts) <==> HasMark(file', id, ts))
  }

  /** The chat has a subscription of this mode under this key: nothing is written, or its entry is in place. */
  ghost predicate LeavesSubscribed(file: File, file': File, target: Target, mode: Mode, now: int) {
    var before, after := Load(file, now).subscribers, Load(file', now).subscribers;
    var i, r := FindKey(before, TargetKey(target)), ReadBack(target);
    var x := Subscriber(r.to, r.accountId, r.threadId, mode, now);
    if i < |before| && before[i].mode == mode then file' == file
    else if i < |before| then after == before[i := x]
    else after == before + [x]
  }

  ghost predicate LeavesUnsubscribed(file: File, file': File, target: Target, now: int) {
    var before, after := Load(file, now).subscribers, Load(file', now).subscribers;
    var i := FindKey(before, TargetKey(target));
    if i < |before| then after == before[..i] + before[i + 1..] else file' == file
  }

  /**
   The command words: what the command leaves in the file, read back.  A chat that cannot be resolved,
   another channel and every other word leave the file alone, and no command touches the marks.
   */
  lemma CommandWords(file: File, ctx: Ctx, word: string, now: int)
    ensures var file' := Step(file, At(now, Command(ctx, word)));
            var target := ResolveNotifyTarget(ctx);
            && SameMarks(file, file')
            && (ctx.channel != "telegram" || target.None? ==> file' == file)
            && (ctx.channel == "telegram" && target.Some? ==>
                  && (word == "on" || word == "enable" ==> LeavesSubscribed(file, file', target.value, Persistent, now))
                  && (word == "once" || word == "arm" ==> LeavesSubscribed(file, file', target.value, Once, now))
                  && (word == "off" || word == "disable" ==> LeavesUnsubscribed(file, file', target.value, now))
                  && (word !in {"on", "enable", "once", "arm", "off", "disable"} ==> file' == file))
  {
    hide NormalizeSubscribers, NormalizeNotified, SaveSubscribers, CanonicalSubscribers, ResolveNotifyTarget, TargetKey,
         FindKey, ReadBack;
    var t, s := At(now, Command(ctx, word)), Load(file, now);
    AskedRecipientIsTidy(t.event);
    EditReadsBack(file, Asks(t.event).0, Asks(t.event).1, now);
    DifferentWords();
  }

  /** In terms of the chat's key, when its account id carries no stray white space and keys are unique. */
  lemma TidyCommandWords(file: File, ctx: Ctx, word: string, now: int)
    requires ctx.channel == "telegram" && ResolveNotifyTarget(ctx).Some?
    requires TidyTarget(ResolveNotifyTarget(ctx).value) && UniqueKeys(Load(file, now).subscribers)
    ensures var key := TargetKey(ResolveNotifyTarget(ctx).value);
            var after := Load(Step(file, At(now, Command(ctx, word))), now).subscribers;
            && (word == "on" || word == "enable" ==> HasMode(after, key, Persistent))
            && (word == "once" || word == "arm" ==> HasMode(after, key, Once))
            && (word == "off" || word == "disable" ==> !HasKey(after, key))
  {
    hide Load, Step, Trim, UniqueKeys, Key, ResolveNotifyTarget;
    var target := ResolveNotifyTarget(ctx).value;
    var before, file' := Load(file, now).subscribers, Step(file, At(now, Command(ctx, word)));
    CommandWords(file, ctx, word, now);
    TidyReadsBack(target);
    var i := FindKey(before, TargetKey(target));
    if i < |before| {
      assert before[i] in before;
      RemoveExactly(before, i, TargetKey(target));
    }
    EntryIsIn(before, i, Subscriber(target.to, target.accountId, target.threadId, Persistent, now));
    EntryIsIn(before, i, Subscriber(target.to, target.accountId, target.threadId, Once, now));
  }

  lemma TidyReadsBack(t: Target)
    requires TidyTarget(t)
    ensures ReadBack(t) == t
  {
    TrimFixpoint(t.to);
    if t.accountId.Some? {
      TrimFixpoint(t.accountId.value);
    }
  }

  lemma EntryIsIn(before: seq<Subscriber>, i: nat, x: Subscriber)
    ensures i < |before| ==> before[i := x][i] == x && HasMode(before[i := x], SubscriberKey(x), x.mode)
    ensures HasMode(before + [x], SubscriberKey(x), x.mode)
  {
    hide Key;
    if i < |before| {
      assert before[i := x][i] in before[i := x];
    }
    assert x in before + [x];
  }

  lemma DifferentWords()
    ensures "on" != "off" && "on" != "disable" && "on" != "once" && "on" != "arm"
    ensures "enable" != "off" && "enable" != "disable" && "enable" != "once" && "enable" != "arm"
    ensures "off" != "once" && "off" != "arm" && "disable" != "once" && "disable" != "arm"
  {
  }

  /** Arming for one poll is the command word "once". */
  lemma ArmingIsOnce(file: File, ctx: Ctx, now: int)
    ensures Step(file, At(now, Event.Arm(ctx))) == Step(file, At(now, Command(ctx, "once")))
  {
    hide Load, Save, Edit;
    DifferentWords();
  }

  ghost function Edited(file: File, act: Act, target: Option<Target>, now: int): File {
    var s := Load(file, now);
    var (subscribers, changed) := Edit(s.subscribers, act, target, now);
    if changed then Save(s.(subscribers := subscribers)) else file
  }

  lemma EditReadsBack(file: File, act: Act, target: Option<Target>, now: int)
    requires target.Some? ==> Tidy(target.value.to) && target.value.to != ""
    ensures var file' := Edited(file, act, target, now);
            && SameMarks(file, file')
            && (target.None? || act.NoAct? ==> file' == file)
            && (target.Some? && act.On? ==> LeavesSubscribed(file, file', target.value, Persistent, now))
            && (target.Some? && act.ArmOnce? ==> LeavesSubscribed(file, file', target.value, Once, now))
            && (target.Some? && act.Off? ==> LeavesUnsubscribed(file, file', target.value, now))
  {
    hide NormalizeSubscribers, NormalizeNotified, SaveSubscribers, TargetKey, FindKey, ReadBack, CanonicalSubscriber;
    var s := Load(file, now);
    if file.File? {
      NormalizedIsCanonical(file.raw.subscribers, now);
    }
    MarksReadBack(file, Edit(s.subscribers, act, target, now).0, now);
    if target.Some? && (act.On? || act.ArmOnce?) {
      UpsertReadsBack(s.subscribers, target.value, if act.On? then Persistent else Once, now);
    } else if target.Some? && act.Off? {
      var i := FindKey(s.subscribers, TargetKey(target.value));
      if i < |s.subscribers| {
        var r := s.subscribers[..i] + s.subscribers[i + 1..];
        ReloadSubscribers(r, now);
      }
    }
  }

  lemma MarksReadBack(file: File, subscribers: seq<Subscriber>, now: int)
    ensures SameMarks(file, Save(Load(file, now).(subscribers := subscribers)))
  {
    var next := Load(file, now).(subscribers := subscribers);
    forall id, ts | ts > 0
      ensures HasMark(file, id, ts) <==> HasMark(Save(next), id, ts)
    {
      SavedMark(next, id, ts);
    }
  }

  // ---------------------------------------------------------------- unique keys over runs

  /** Replacing or appending one entry keeps the keys unique exactly when its key is new among the others. */
  lemma OneNewKey(subscribers: seq<Subscriber>, next: seq<Subscriber>, i: nat)
    requires UniqueKeys(subscribers)
    requires i <= |subscribers| && |next| == Max(|subscribers|, i + 1)
    requires forall k :: 0 <= k < |subscribers| && k != i ==> next[k] == subscribers[k]
    ensures UniqueKeys(next)
        <==> forall k :: 0 <= k < |subscribers| && k != i ==> SubscriberKey(subscribers[k]) != SubscriberKey(next[i])
  {
    if UniqueKeys(next) {
      forall k | 0 <= k < |subscribers| && k != i
        ensures SubscriberKey(subscribers[k]) != SubscriberKey(next[i])
      {
        var a, b := Min(k, i), Max(k, i);
        assert SubscriberKey(next[a]) != SubscriberKey(next[b]);
      }
    }
  }

  /**
   The guard of an upsert that keeps the keys unique once its entry is read back: the chat already has a
   subscription of that mode, or no other subscriber has the key that the target reads back as.
   */
  ghost predicate KeepsKeysApart(subscribers: seq<Subscriber>, target: Target, mode: Mode) {
    var i := FindKey(subscribers, TargetKey(target));
    || (i < |subscribers| && subscribers[i].mode == mode)
    || forall k :: 0 <= k < |subscribers| && k != i ==> SubscriberKey(subscribers[k]) != TargetKey(ReadBack(target))
  }

  /** Whatever the account id: after an upsert is written and read back the keys are unique exactly under the guard. */
  lemma UpsertUniqueExactly(subscribers: seq<Subscriber>, target: Target, mode: Mode, now: int, at: int)
    requires Good(subscribers) && Tidy(target.to) && target.to != ""
    ensures UniqueKeys(NormalizeSubscribers(SaveSubscribers(Upsert(subscribers, target, mode, now).0), at))
        <==> KeepsKeysApart(subscribers, target, mode)
  {
    var (next, changed) := Upsert(subscribers, target, mode, now);
    var i := FindKey(subscribers, TargetKey(target));
    ReloadSubscribers(subscribers, at);
    if changed {
      var r := ReadBack(target);
      var reread := Subscriber(r.to, r.accountId, r.threadId, mode, now);
      StoredReadsBack(target, mode, now, at);
      assert forall k :: 0 <= k < |next| && k != i ==> next[k] == subscribers[k];
      ReloadOneStored(next, next[i], reread, i, at);
      assert SubscriberKey(reread) == TargetKey(r);
      OneNewKey(subscribers, next[i := reread], i);
    }
  }

  lemma PollKeepsGood(s: NotifyState, pending: seq<Request>, send: Sender, now: int)
    requires Good(s.subscribers)
    ensures Good(Polled(s, pending, send, now).subscribers)
  {
    var keys := ServedKeys(s, pending, send, now, |pending|);
    DropKeysUnique(s.subscribers, keys);
    var r := DropKeys(s.subscribers, keys);
    forall i | 0 <= i < |r|
      ensures CanonicalSubscriber(r[i])
    {
      DropKeysMembers(s.subscribers, keys, r[i]);
    }
  }

  /** The guard, for the events that upsert. */
  ghost predicate Harmless(subscribers: seq<Subscriber>, e: Event) {
    var (act, target) := Asks(e);
    target.Some? ==>
      && (act.On? ==> KeepsKeysApart(subscribers, target.value, Persistent))
      && (act.ArmOnce? ==> KeepsKeysApart(subscribers, target.value, Once))
  }

  lemma StepUniqueExactly(events: seq<Timed>, k: nat)
    requires k < |events| && UniqueKeys(ReadAfter(events[..k]))
    ensures UniqueKeys(ReadAfter(events[..k + 1])) <==> Harmless(ReadAfter(events[..k]), events[k].event)
  {
    hide ReadAfter, UniqueKeys, CanonicalSubscribers, KeepsKeysApart, Upsert, FindKey, NormalizeSubscribers,
         SaveSubscribers;
    var t, s := events[k], StateAt(Unreadable, events, k);
    ReadStep(events, k);
    ReadIsCanonical(events[..k]);
    AskedRecipientIsTidy(t.event);
    var (act, target) := Asks(t.event);
    var next := NextSubscribers(s, t);
    ReloadSubscribers(next, 0);
    if t.event.Tick? {
      PollKeepsGood(s, t.event.pending, t.event.send, t.now);
    } else if target.Some? && (act.On? || act.ArmOnce?) {
      UpsertUniqueExactly(s.subscribers, target.value, if act.On? then Persistent else Once, t.now, 0);
    } else {
      RemovalKeepsGood(s.subscribers, act, target, t.now);
    }
  }

  lemma RemovalKeepsGood(subscribers: seq<Subscriber>, act: Act, target: Option<Target>, now: int)
    requires Good(subscribers) && (target.Some? ==> !act.On? && !act.ArmOnce?)
    ensures Good(Edit(subscribers, act, target, now).0)
  {
    hide Good;
    if target.Some? && act.Off? {
      var i := FindKey(subscribers, TargetKey(target.value));
      if i < |subscribers| {
        RemoveKeepsGood(subscribers, i);
      }
    }
  }

  ghost predicate UniqueThroughout(events: seq<Timed>) {
    forall k :: 0 <= k <= |events| ==> UniqueKeys(ReadAfter(events[..k]))
  }

  ghost predicate HarmlessThroughout(events: seq<Timed>) {
    forall k :: 0 <= k < |events| ==> Harmless(ReadAfter(events[..k]), events[k].event)
  }

  lemma {:induction false} HarmlessIsUnique(events: seq<Timed>, k: nat)
    requires k <= |events| && HarmlessThroughout(events)
    ensures UniqueKeys(ReadAfter(events[..k]))
    decreases k
  {
    hide Harmless;
    if k == 0 {
      assert ReadAfter(events[..0]) == [];
    } else {
      HarmlessIsUnique(events, k - 1);
      StepUniqueExactly(events, k - 1);
    }
  }

  /**
   Whatever the account ids, from an empty state: the keys read back are unique after every event of a run
   if and only if every upserting event meets the guard on the list it reads.
   */
  lemma KeysUniqueExactly(events: seq<Timed>)
    ensures UniqueThroughout(events) <==> HarmlessThroughout(events)
  {
    hide Harmless, UniqueKeys, ReadAfter;
    if UniqueThroughout(events) {
      forall k | 0 <= k < |events|
        ensures Harmless(ReadAfter(events[..k]), events[k].event)
      {
        assert UniqueKeys(ReadAfter(events[..k])) && UniqueKeys(ReadAfter(events[..k + 1]));
        StepUniqueExactly(events, k);
      }
    }
    if HarmlessThroughout(events) {
      forall k | 0 <= k <= |events|
        ensures UniqueKeys(ReadAfter(events[..k]))
      {
        HarmlessIsUnique(events, k);
      }
    }
  }

  predicate TidyEvent(e: Event) {
    match e
    case Tick(_, _) => true
    case Command(ctx, _) => ctx.accountId.Some? ==> Tidy(ctx.accountId.value)
    case Arm(ctx) => ctx.accountId.Some? ==> Tidy(ctx.accountId.value)
  }

  lemma AskedTargetIsTidy(e: Event)
    requires TidyEvent(e)
    ensures Asks(e).1.Some? ==> TidyTarget(Asks(e).1.value) && ReadBack(Asks(e).1.value) == Asks(e).1.value
  {
    AskedRecipientIsTidy(e);
    if Asks(e).1.Some? {
      TrimFixpoint(Asks(e).1.value.to);
      if Asks(e).1.value.accountId.Some? {
        TrimFixpoint(Asks(e).1.value.accountId.value);
      }
    }
  }

  /** An edit keeps the keys unique. */
  lemma EditKeepsGood(subscribers: seq<Subscriber>, act: Act, target: Option<Target>, now: int)
    requires Good(subscribers) && (target.Some? ==> TidyTarget(target.value))
    ensures Good(Edit(subscribers, act, target, now).0)
  {
    hide Good, FindKey;
    if target.Some? {
      var t := target.value;
      var i := FindKey(subscribers, TargetKey(t));
      if act.Off? {
        if i < |subscribers| {
          RemoveKeepsGood(subscribers, i);
        }
      } else {
        PutKeepsGood(subscribers, i, Subscriber(t.to, t.accountId, t.threadId, Persistent, now));
        PutKeepsGood(subscribers, i, Subscriber(t.to, t.accountId, t.threadId, Once, now));
      }
    }
  }

  lemma TidyIsHarmless(subscribers: seq<Subscriber>, e: Event)
    requires UniqueKeys(subscribers) && TidyEvent(e)
    ensures Harmless(subscribers, e)
  {
    hide UniqueKeys, Key;
    AskedTargetIsTidy(e);
    if Asks(e).1.Some? {
      var key := TargetKey(Asks(e).1.value);
      var i := FindKey(subscribers, key);
      forall k | 0 <= k < |subscribers| && k != i
        ensures SubscriberKey(subscribers[k]) != key
      {
        if i < |subscribers| {
          KeysTellApart(subscribers, i, k);
        }
      }
    }
  }

  ghost predicate TidyRun(events: seq<Timed>) {
    forall i :: 0 <= i < |events| ==> TidyEvent(events[i].event)
  }

  /**
   From an empty state, with tidy account ids, the keys are unique after every command, every poll and
   every re-read of the file, and reading back what was written changes nothing.
   */
  lemma {:induction false} KeysStayUnique(events: seq<Timed>, k: nat)
    requires TidyRun(events) && k <= |events|
    ensures UniqueKeys(ReadAfter(events[..k]))
    ensures k > 0 ==> ReadAfter(events[..k]) == NextSubscribers(StateAt(Unreadable, events, k - 1), events[k - 1])
    decreases k
  {
    hide UniqueKeys, CanonicalSubscribers, TidyEvent;
    if k == 0 {
      HarmlessIsUnique([], 0);
      assert events[..0] == [];
    } else {
      var t, s := events[k - 1], StateAt(Unreadable, events, k - 1);
      KeysStayUnique(events, k - 1);
      TidyIsHarmless(ReadAfter(events[..k - 1]), t.event);
      StepUniqueExactly(events, k - 1);
      ReadStep(events, k - 1);
      ReadIsCanonical(events[..k - 1]);
      NextIsCanonical(s, t);
      ReloadSubscribers(NextSubscribers(s, t), 0);
    }
  }

  lemma NextIsCanonical(s: NotifyState, t: Timed)
    requires Good(s.subscribers) && TidyEvent(t.event)
    ensures CanonicalSubscribers(NextSubscribers(s, t))
  {
    hide UniqueKeys, CanonicalSubscribers, Edit, TidyTarget;
    if t.event.Tick? {
      PollKeepsGood(s, t.event.pending, t.event.send, t.now);
    } else {
      AskedTargetIsTidy(t.event);
      EditKeepsGood(s.subscribers, Asks(t.event).0, Asks(t.event).1, t.now);
    }
  }

  /** The failing family is not empty: the same chat, subscribed twice under an untidy account id. */
  lemma UntidyAccountDuplicates()
    ensures var t := Target("chat", Some(" a"), None);
            var once := NormalizeSubscribers(SaveSubscribers(Upsert([], t, Persistent, 1).0), 1);
            Good(once) && !UniqueKeys(NormalizeSubscribers(SaveSubscribers(Upsert(once, t, Persistent, 2).0), 2))
  {
    var t := Target("chat", Some(" a"), None);
    assert " a"[1..] == "a" && Trim(" a") == "a";
    assert Tidy("a") && Tidy("chat");
    UpsertUniqueExactly([], t, Persistent, 1, 1);
    TrimFixpoint("chat");
    var stored := Subscriber("chat", Some(" a"), None, Persistent, 1);
    var reread := Subscriber("chat", Some("a"), None, Persistent, 1);
    ReloadOneStored([stored], stored, reread, 0, 1);
    var once := NormalizeSubscribers(SaveSubscribers([stored]), 1);
    assert Upsert([], t, Persistent, 1).0 == [stored];
    assert once == [reread];
    assert SubscriberKey(reread) == "chat|a|";
    assert TargetKey(t) == "chat| a|";
    assert FindKey(once, TargetKey(t)) == 1;
    UpsertUniqueExactly(once, t, Persistent, 2, 2);
  }

  // ---------------------------------------------------------------- one-shot subscriptions over runs

  /** Event e arms a one-shot subscription for the key that its target reads back as. */
  ghost predicate Arms(e: Event, key: string) {
    Asks(e).0.ArmOnce? && Asks(e).1.Some? && TargetKey(ReadBack(Asks(e).1.value)) == key
  }

  ghost predicate HasOnce(subscribers: seq<Subscriber>, key: string) {
    exists x :: x in subscribers && SubscriberKey(x) == key && x.mode.Once?
  }

  /** A one-shot subscription that an event leaves was there before, or is the one it asks for. */
  lemma OnceFromNext(s: NotifyState, t: Timed, y: Subscriber)
    requires y in NextSubscribers(s, t) && y.mode.Once?
    ensures y in s.subscribers || (Asks(t.event).0.ArmOnce? && Asks(t.event).1.Some? && y.addedAtMs == t.now
                                   && Chat(y) == Asks(t.event).1.value)
  {
    hide Asks, FindKey, SubscriberKey, DropKeys, ServedKeys;
    if t.event.Tick? {
      DropKeysMembers(s.subscribers, ServedKeys(s, t.event.pending, t.event.send, t.now, |t.event.pending|), y);
    } else if Asks(t.event).1.Some? {
      OnceFromEdit(s.subscribers, Asks(t.event).0, Asks(t.event).1.value, t.now, y);
    }
  }

  lemma OnceFromEdit(subscribers: seq<Subscriber>, act: Act, target: Target, now: int, y: Subscriber)
    requires y in Edit(subscribers, act, Some(target), now).0 && y.mode.Once?
    ensures y in subscribers || (act.ArmOnce? && Chat(y) == target && y.addedAtMs == now)
  {
    hide FindKey, IntNumeral;
  }

  /** The same once it is written and read back. */
  lemma OnceComesFromArming(events: seq<Timed>, k: nat, x: Subscriber)
    requires k < |events| && x in ReadAfter(events[..k + 1]) && x.mode.Once?
    ensures || x in ReadAfter(events[..k])
            || (Arms(events[k].event, SubscriberKey(x)) && x.addedAtMs == events[k].now)
  {
    hide ReadAfter, NextSubscribers, Asks, Key, CanonicalSubscriber, NormalizeSubscribers, SaveSubscribers;
    var t, s := events[k], StateAt(Unreadable, events, k);
    ReadStep(events, k);
    ReadIsCanonical(events[..k]);
    ReadBackMember(NextSubscribers(s, t), 0, x);
    var y :| y in NextSubscribers(s, t) && NormalizeSubscriber(SaveSubscriber(y), 0) == Some(x);
    assert y.mode.Once? && y.addedAtMs == x.addedAtMs by {
      assert Trunc(y.addedAtMs as real) == y.addedAtMs;
    }
    OnceFromNext(s, t, y);
    if y in s.subscribers {
      NormalizeSaved(y, 0);
    } else {
      AskedRecipientIsTidy(t.event);
      StoredReadsBack(Chat(y), Once, y.addedAtMs, 0);
    }
  }

  lemma NothingRead(events: seq<Timed>)
    ensures ReadAfter(events[..0]) == []
  {
  }

  /** In every run, each one-shot subscription goes back to an arming of its key at its `addedAtMs`. */
  lemma {:induction false} OnceHasArming(events: seq<Timed>, k: nat, x: Subscriber)
    requires k <= |events| && x in ReadAfter(events[..k]) && x.mode.Once?
    ensures exists m :: 0 <= m < k && Arms(events[m].event, SubscriberKey(x)) && events[m].now == x.addedAtMs
    decreases k
  {
    hide Asks, SubscriberKey, ReadAfter;
    if k == 0 {
      NothingRead(events);
    } else {
      OnceComesFromArming(events, k - 1, x);
      if x in ReadAfter(events[..k - 1]) {
        OnceHasArming(events, k - 1, x);
      }
    }
  }

  /**
   A one-shot subscriber only ever hears of new requests: in every run, what a poll sends to one is a
   request made no earlier than some arming of that chat before the poll.
   */
  lemma OneShotSeesOnlyNew(events: seq<Timed>, k: nat, i: nat, j: nat)
    requires k < |events| && events[k].event.Tick?
    requires var e, s := events[k].event, StateAt(Unreadable, events, k);
             Sent(s, e.pending, e.send, events[k].now, i, j) && s.subscribers[j].mode.Once?
    ensures var s, r := StateAt(Unreadable, events, k), events[k].event.pending[i];
            exists m :: 0 <= m < k && Arms(events[m].event, SubscriberKey(s.subscribers[j]))
                        && r.ts.Some? && Trunc(r.ts.value) >= events[m].now
  {
    hide Asks, SubscriberKey, ReadAfter;
    var s := StateAt(Unreadable, events, k);
    ReadStep(events, k);
    OnceHasArming(events, k, s.subscribers[j]);
  }

  /** Event k is a poll with a successful send to the one-shot subscription of this key. */
  ghost predicate FiresOnce(events: seq<Timed>, k: nat, key: string)
    requires k < |events|
  {
    && events[k].event.Tick?
    && var e := events[k].event;
       var s := StateAt(Unreadable, events, k);
       exists i: nat, j: nat :: Sent(s, e.pending, e.send, events[k].now, i, j)
                                && s.subscribers[j].mode.Once? && SubscriberKey(s.subscribers[j]) == key
  }

  lemma PollReadsBack(s: NotifyState, pending: seq<Request>, send: Sender, now: int)
    requires CanonicalSubscribers(s.subscribers)
    ensures var r := Polled(s, pending, send, now).subscribers;
            NormalizeSubscribers(SaveSubscribers(r), 0) == r
  {
    hide CanonicalSubscriber, NormalizeSubscribers, SaveSubscribers;
    var keys := ServedKeys(s, pending, send, now, |pending|);
    var r := DropKeys(s.subscribers, keys);
    forall i | 0 <= i < |r|
      ensures CanonicalSubscriber(r[i])
    {
      DropKeysMembers(s.subscribers, keys, r[i]);
    }
    ReloadSubscribers(r, 0);
  }

  lemma FiredIsGone(events: seq<Timed>, k: nat, key: string)
    requires k < |events| && FiresOnce(events, k, key)
    ensures !HasKey(ReadAfter(events[..k + 1]), key)
  {
    hide Run, SubscriberKey, CanonicalSubscriber, NormalizeSubscribers, SaveSubscribers, NormalizeNotified;
    var e := events[k].event;
    var s := StateAt(Unreadable, events, k);
    var keys := ServedKeys(s, e.pending, e.send, events[k].now, |e.pending|);
    assert key in keys;
    var r := DropKeys(s.subscribers, keys);
    ReadStep(events, k);
    ReadIsCanonical(events[..k]);
    PollReadsBack(s, e.pending, e.send, events[k].now);
    forall i | 0 <= i < |r|
      ensures SubscriberKey(r[i]) != key
    {
      DropKeysMembers(s.subscribers, keys, r[i]);
    }
  }

  /** In every run, what a poll takes out of the list is exactly what shares its key with a one-shot it reached. */
  lemma PollDropsExactly(events: seq<Timed>, k: nat, x: Subscriber)
    requires k < |events| && events[k].event.Tick? && x in ReadAfter(events[..k])
    ensures x !in ReadAfter(events[..k + 1]) <==> FiresOnce(events, k, SubscriberKey(x))
  {
    hide Run, ReadAfter, SubscriberKey, CanonicalSubscriber, NormalizeSubscribers, SaveSubscribers, NormalizeNotified;
    var e, s := events[k].event, StateAt(Unreadable, events, k);
    ReadStep(events, k);
    ReadIsCanonical(events[..k]);
    PollReadsBack(s, e.pending, e.send, events[k].now);
    DropKeysMembers(s.subscribers, ServedKeys(s, e.pending, e.send, events[k].now, |e.pending|), x);
  }

  /** As long as no command breaks the uniqueness of the keys, no poll ever takes out a persistent subscriber. */
  lemma PersistentStays(events: seq<Timed>, k: nat, x: Subscriber)
    requires k < |events| && events[k].event.Tick? && HarmlessThroughout(events[..k])
    requires x in ReadAfter(events[..k]) && x.mode.Persistent?
    ensures x in ReadAfter(events[..k + 1])
  {
    hide ReadAfter, Sent, SubscriberKey, UniqueKeys;
    PollDropsExactly(events, k, x);
    ReadStep(events, k);
    assert events[..k][..k] == events[..k];
    HarmlessIsUnique(events[..k], k);
    var s := StateAt(Unreadable, events, k);
    var n :| 0 <= n < |s.subscribers| && s.subscribers[n] == x;
    forall j: nat | j < |s.subscribers| && SubscriberKey(s.subscribers[j]) == SubscriberKey(x)
      ensures s.subscribers[j].mode.Persistent?
    {
      KeysTellApart(s.subscribers, n, j);
    }
    SentIsInRange(s, events[k]);
  }

  lemma SentIsInRange(s: NotifyState, t: Timed)
    requires t.event.Tick?
    ensures forall i: nat, j: nat :: Sent(s, t.event.pending, t.event.send, t.now, i, j) ==> j < |s.subscribers|
  {
  }

  lemma TidyRunIsHarmless(events: seq<Timed>)
    requires TidyRun(events)
    ensures HarmlessThroughout(events)
  {
    hide Harmless, TidyEvent, UniqueKeys, ReadAfter;
    forall k | 0 <= k < |events|
      ensures Harmless(ReadAfter(events[..k]), events[k].event)
    {
      KeysStayUnique(events, k);
      TidyIsHarmless(ReadAfter(events[..k]), events[k].event);
    }
  }

  lemma {:induction false} GoneUntilArmed(events: seq<Timed>, a: nat, b: nat, key: string)
    requires a < b <= |events| && FiresOnce(events, a, key)
    requires forall m :: a < m < b ==> !Arms(events[m].event, key)
    ensures !HasOnce(ReadAfter(events[..b]), key)
    decreases b
  {
    hide ReadAfter, Arms, SubscriberKey, FiresOnce, HasKey;
    if b == a + 1 {
      FiredIsGone(events, a, key);
      GoneHasNoOnce(ReadAfter(events[..b]), key);
    } else {
      GoneUntilArmed(events, a, b - 1, key);
      forall x | x in ReadAfter(events[..b]) && x.mode.Once?
        ensures SubscriberKey(x) != key
      {
        OnceComesFromArming(events, b - 1, x);
      }
    }
  }

  lemma GoneHasNoOnce(subscribers: seq<Subscriber>, key: string)
    requires !HasKey(subscribers, key)
    ensures !HasOnce(subscribers, key)
  {
  }

  /**
   One arming, one poll: in every run, if two different polls both reach the one-shot subscription of a
   chat, the chat was armed again in between.
   */
  lemma OneFiringPerArming(events: seq<Timed>, a: nat, b: nat, key: string)
    requires a < b < |events|
    requires FiresOnce(events, a, key) && FiresOnce(events, b, key)
    ensures exists m :: a < m < b && Arms(events[m].event, key)
  {
    hide ReadAfter, Arms, SubscriberKey;
    if forall m :: a < m < b ==> !Arms(events[m].event, key) {
      GoneUntilArmed(events, a, b, key);
      ReadStep(events, b);
    }
  }
}
