/** What arming and disarming keep, over every run without outside edits of the lists. */
module PhoneControlLaws {
  import opened Options
  import opened Text
  import opened SortedNames
  import opened PhoneControl

  /** The commands that arming a group is meant to open. */
  ghost function Commands(group: Group): set<string> {
    match group
    case Camera => {"camera.snap", "camera.clip"}
    case Screen => {"screen.record"}
    case Writes => {"calendar.add", "contacts.add", "reminders.add", "sms.send"}
    case All => {"camera.snap", "camera.clip", "screen.record",
                 "calendar.add", "contacts.add", "reminders.add", "sms.send"}
  }

  lemma GroupIsListed(group: Group)
    ensures Elems(GroupCommands(group)) == Commands(group)
  {
    assert GroupCommands(All) == GroupCommands(Camera) + GroupCommands(Screen) + GroupCommands(Writes);
  }

  /** The built-in groups need no normalization: each resolves to exactly its commands, and `All` to all of them. */
  lemma GroupIsTidy(group: Group)
    ensures Elems(ResolveCommandsForGroup(group)) == Commands(group) == Names(GroupCommands(group))
    ensures Clean(ResolveCommandsForGroup(group))
    ensures Commands(group) <= Commands(All) == Commands(Camera) + Commands(Screen) + Commands(Writes)
  {
    AllIsUnion(group);
    hide UniqSorted, Names, Clean, Commands, GroupCommands;
    GroupIsListed(group);
    GroupIsClean(group);
    UniqSortedIsSorted(GroupCommands(group));
    UniqSortedIsClean(GroupCommands(group));
    CleanNames(GroupCommands(group));
  }

  lemma AllIsUnion(group: Group)
    ensures Commands(group) <= Commands(All) == Commands(Camera) + Commands(Screen) + Commands(Writes)
  {
  }

  lemma GroupIsClean(group: Group)
    ensures Clean(GroupCommands(group))
    decreases group.All?
  {
    hide Trim;
    match group
    case All =>
      GroupIsClean(Camera);
      GroupIsClean(Screen);
      GroupIsClean(Writes);
    case _ =>
      forall n | n in GroupCommands(group)
        ensures n != "" && Trim(n) == n
      {
        assert Tidy(n) && n != "";
        TrimFixpoint(n);
      }
  }

  lemma NamesConcat(a: seq<string>, b: seq<string>)
    ensures Names(a + b) == Names(a) + Names(b)
  {
    forall n | n in a + b && Trim(n) != ""
      ensures Trim(n) in Names(a) + Names(b)
    {
      assert n in a || n in b;
    }
  }

  lemma CleanPart(part: seq<string>, whole: seq<string>)
    requires Clean(whole) && Elems(part) <= Elems(whole)
    ensures Clean(part) && Names(part) == Elems(part)
  {
    assert forall n :: n in part ==> n in Elems(whole);
    CleanNames(part);
  }

  /** The effect of arming on the names in the two lists, and what the record says about it. */
  lemma ArmedEffect(s: Phone, group: Group, expiresAtMs: int)
    ensures var c := Commands(group);
            var s' := Armed(s, group, expiresAtMs);
            && Names(s'.allow) == Names(s.allow) + c
            && Names(s'.deny) == Names(s.deny) - c
            && s'.allow == UniqSorted(s'.allow) && s'.deny == UniqSorted(s'.deny)
            && s'.armed.Some?
            && var r := s'.armed.value;
               && Clean(r.addedToAllow) && Clean(r.removedFromDeny)
               && Elems(r.armedCommands) == c
               && Elems(r.addedToAllow) == c - Names(s.allow)
               && Elems(r.removedFromDeny) == c * Names(s.deny)
               && r.armedCommands == UniqSorted(r.armedCommands)
               && r.addedToAllow == UniqSorted(r.addedToAllow) && r.removedFromDeny == UniqSorted(r.removedFromDeny)
               && r.expiresAtMs == Some(expiresAtMs) && r.group == group
  {
    hide UniqSorted, GroupCommands, Names, Clean, Within, Outside, Commands;
    var commands := ResolveCommandsForGroup(group);
    var allow, deny := UniqSorted(s.allow), UniqSorted(s.deny);
    var added, removed := Outside(commands, allow), Within(commands, deny);
    GroupIsTidy(group);
    UniqSortedIsSorted(s.allow);
    UniqSortedIsSorted(s.deny);
    UniqSortedIsClean(s.allow);
    UniqSortedIsClean(s.deny);
    OutsideExactly(commands, allow);
    OutsideExactly(commands, deny);
    OutsideExactly(deny, commands);
    CleanPart(added, commands);
    CleanPart(removed, commands);
    CleanPart(Outside(deny, commands), deny);
    CleanPart(commands, commands);
    NamesConcat(allow, added);
    Normal(allow + added);
    Normal(Outside(deny, commands));
    Normal(added);
    Normal(removed);
    Normal(commands);
  }

  /** Everything a caller needs to know about a normalized list. */
  lemma Normal(raw: seq<string>)
    ensures Elems(UniqSorted(raw)) == Names(raw) == Names(UniqSorted(raw))
    ensures Clean(UniqSorted(raw)) && UniqSorted(UniqSorted(raw)) == UniqSorted(raw)
  {
    UniqSortedIsSorted(raw);
    UniqSortedIsClean(raw);
    UniqSortedIsIdempotent(raw);
  }

  /** The effect of disarming: the recorded edit is undone, name by name. */
  lemma DisarmedEffect(s: Phone)
    requires s.armed.Some? && Clean(s.armed.value.addedToAllow) && Clean(s.armed.value.removedFromDeny)
    ensures var r, s' := s.armed.value, Disarmed(s);
            && s'.armed.None?
            && Names(s'.allow) == Names(s.allow) - Elems(r.addedToAllow)
            && Names(s'.deny) == Names(s.deny) + Elems(r.removedFromDeny)
            && (s.allow == UniqSorted(s.allow) ==> s'.allow == UniqSorted(s'.allow))
            && (s.deny == UniqSorted(s.deny) ==> s'.deny == UniqSorted(s'.deny))
            && (if Elems(r.addedToAllow) !! Names(s.allow) && Elems(r.removedFromDeny) <= Names(s.deny) then
                  s'.allow == s.allow && s'.deny == s.deny
                else
                  s'.allow == UniqSorted(s'.allow) && s'.deny == UniqSorted(s'.deny))
  {
    hide UniqSorted, Names, Clean, Within, Outside;
    var r := s.armed.value;
    var allow, deny := UniqSorted(s.allow), UniqSorted(s.deny);
    Normal(s.allow);
    Normal(s.deny);
    OutsideExactly(r.addedToAllow, allow);
    OutsideExactly(allow, r.addedToAllow);
    OutsideExactly(r.removedFromDeny, deny);
    var restored := Outside(r.removedFromDeny, deny);
    CleanPart(Outside(allow, r.addedToAllow), allow);
    CleanPart(restored, r.removedFromDeny);
    NamesConcat(deny, restored);
    Normal(Outside(allow, r.addedToAllow));
    Normal(deny + restored);
    NothingExactly(r.addedToAllow, allow);
    NothingExactly(r.removedFromDeny, deny);
  }

  lemma NothingExactly(names: seq<string>, other: seq<string>)
    ensures Within(names, other) == [] <==> Elems(names) !! Elems(other)
    ensures Outside(names, other) == [] <==> Elems(names) <= Elems(other)
  {
    WithinNonEmpty(names, other);
    OutsideNonEmpty(names, other);
    assert forall c :: c in names <==> c in Elems(names);
    assert forall c :: c in other <==> c in Elems(other);
  }

  // ---------------------------------------------------------------- expiry over runs

  ghost predicate Fresh(s: Phone) {
    s.armed.None?
  }

  function Expiry(t: Timed): int
    requires t.event.Arm?
  {
    t.now + t.event.durationMs
  }

  lemma RunStep(s: Phone, events: seq<Timed>, k: nat)
    requires k < |events|
    ensures Run(s, events[..k + 1]) == Step(Run(s, events[..k]), events[k])
  {
    assert events[..k + 1][..k] == events[..k];
  }

  lemma ArmingRecords(s: Phone, t: Timed)
    requires t.event.Arm?
    ensures Step(s, t).armed.Some? && Step(s, t).armed.value.expiresAtMs == Some(Expiry(t))
  {
    hide UniqSorted, GroupCommands, Within, Outside;
  }

  lemma DisarmedHasNoRecord(s: Phone)
    ensures Disarmed(s).armed.None?
  {
    hide UniqSorted, Within, Outside;
  }

  /** Since event m armed a group, nothing ended or replaced that: only polls came, all of them too early. */
  ghost predicate OpenSince(events: seq<Timed>, m: nat, k: nat)
    requires m < k <= |events|
  {
    events[m].event.Arm? && forall j :: m < j < k ==> events[j].event.Tick? && events[j].now < Expiry(events[m])
  }

  ghost predicate OpenFrom(s: Phone, events: seq<Timed>, m: nat, k: nat)
    requires m < k <= |events|
  {
    var r := Run(s, events[..k]).armed;
    OpenSince(events, m, k) && r.Some? && r.value.expiresAtMs == Some(Expiry(events[m]))
  }

  lemma {:induction false} OpenIsArmed(s: Phone, events: seq<Timed>, m: nat, k: nat)
    requires m < k <= |events| && OpenSince(events, m, k)
    ensures OpenFrom(s, events, m, k)
    decreases k
  {
    hide Armed, Disarmed;
    RunStep(s, events, k - 1);
    if k == m + 1 {
      ArmingRecords(Run(s, events[..m]), events[m]);
    } else {
      OpenIsArmed(s, events, m, k - 1);
    }
  }

  lemma {:induction false} ArmedIsOpen(s: Phone, events: seq<Timed>, k: nat) returns (m: nat)
    requires k <= |events| && Fresh(s) && Run(s, events[..k]).armed.Some?
    ensures m < k && OpenSince(events, m, k)
    decreases k
  {
    hide Armed, Disarmed;
    if k > 0 {
      var before := Run(s, events[..k - 1]);
      RunStep(s, events, k - 1);
      DisarmedHasNoRecord(before);
      if events[k - 1].event.Arm? {
        m := k - 1;
      } else {
        m := ArmedIsOpen(s, events, k - 1);
        OpenIsArmed(s, events, m, k - 1);
      }
    }
  }

  /**
   Armed or not, for every run: the phone is armed exactly when some arm has since been neither
   overwritten, nor disarmed, nor polled at or after its expiry.
   */
  lemma ArmedExactly(s: Phone, events: seq<Timed>, k: nat)
    requires k <= |events| && Fresh(s)
    ensures Run(s, events[..k]).armed.Some? <==> exists m: nat :: m < k && OpenSince(events, m, k)
  {
    if Run(s, events[..k]).armed.Some? {
      var m := ArmedIsOpen(s, events, k);
    }
    if m: nat :| m < k && OpenSince(events, m, k) {
      OpenIsArmed(s, events, m, k);
    }
  }

  lemma {:induction false} RecordSince(s: Phone, events: seq<Timed>, m: nat, k: nat)
    requires m < k <= |events| && events[m].event.Arm?
    requires forall j :: m < j < k ==> !events[j].event.Arm?
    ensures var r := Run(s, events[..k]).armed; r.None? || r.value.expiresAtMs == Some(Expiry(events[m]))
    decreases k
  {
    hide Armed, Disarmed, Run;
    RunStep(s, events, k - 1);
    if k == m + 1 {
      ArmingRecords(Run(s, events[..m]), events[m]);
    } else {
      DisarmedHasNoRecord(Run(s, events[..k - 1]));
      RecordSince(s, events, m, k - 1);
    }
  }

  /**
   In every run, a poll at or after the expiry of the last arm leaves the phone disarmed, undoing the
   record if it is still there; an earlier poll changes nothing.
   */
  lemma ExpiryExactly(s: Phone, events: seq<Timed>, m: nat, k: nat)
    requires m < k < |events| && events[m].event.Arm? && events[k].event.Tick?
    requires forall j :: m < j < k ==> !events[j].event.Arm?
    ensures var before, after := Run(s, events[..k]), Run(s, events[..k + 1]);
            && (events[k].now >= Expiry(events[m]) ==> after == Disarmed(before) && after.armed.None?)
            && (events[k].now < Expiry(events[m]) ==> after == before)
  {
    hide Armed, Disarmed, Run;
    RunStep(s, events, k);
    RecordSince(s, events, m, k);
    DisarmedHasNoRecord(Run(s, events[..k]));
    NothingToDisarm(Run(s, events[..k]));
  }

  lemma NothingToDisarm(s: Phone)
    ensures s.armed.None? ==> Disarmed(s) == s
  {
  }

  // ---------------------------------------------------------------- what is lost to re-arming

  /** The names that a record overwritten by a second arm had added to the allow list. */
  ghost function OrphanedAllow(s: Phone, events: seq<Timed>): set<string> {
    if events == [] then {}
    else
      var n := |events| - 1;
      var before := Run(s, events[..n]);
      OrphanedAllow(s, events[..n])
      + if events[n].event.Arm? && before.armed.Some? then Elems(before.armed.value.addedToAllow) else {}
  }

  ghost function OrphanedDeny(s: Phone, events: seq<Timed>): set<string> {
    if events == [] then {}
    else
      var n := |events| - 1;
      var before := Run(s, events[..n]);
      OrphanedDeny(s, events[..n])
      + if events[n].event.Arm? && before.armed.Some? then Elems(before.armed.value.removedFromDeny) else {}
  }

  /** The ledger: the lists are the originals, plus or minus the orphaned edits and the open record. */
  ghost predicate Balanced(s: Phone, allow0: set<string>, deny0: set<string>, lostAllow: set<string>,
                           lostDeny: set<string>) {
    && lostAllow !! allow0 && lostDeny <= deny0
    && lostAllow + lostDeny <= Commands(All)
    && match s.armed
       case None => Names(s.allow) == allow0 + lostAllow && Names(s.deny) == deny0 - lostDeny
       case Some(r) =>
         && Clean(r.addedToAllow) && Clean(r.removedFromDeny)
         && var added, removed := Elems(r.addedToAllow), Elems(r.removedFromDeny);
            && Names(s.allow) == allow0 + lostAllow + added && added !! allow0 + lostAllow
            && Names(s.deny) == deny0 - lostDeny - removed && removed <= deny0 - lostDeny
            && added + removed <= Commands(All)
            && Elems(r.armedCommands) <= Names(s.allow) && Elems(r.armedCommands) !! Names(s.deny)
  }

  ghost predicate IsArm(t: Timed) {
    t.event.Arm?
  }

  lemma ArmKeepsBalance(s: Phone, group: Group, at: int, allow0: set<string>, deny0: set<string>,
                        lostAllow: set<string>, lostDeny: set<string>)
    requires Balanced(s, allow0, deny0, lostAllow, lostDeny)
    ensures Balanced(Armed(s, group, at), allow0, deny0,
                     lostAllow + (if s.armed.Some? then Elems(s.armed.value.addedToAllow) else {}),
                     lostDeny + (if s.armed.Some? then Elems(s.armed.value.removedFromDeny) else {}))
  {
    hide Armed, GroupCommands, Names, Clean, Elems, Commands, UniqSorted;
    ArmedEffect(s, group, at);
    GroupIsTidy(group);
  }

  lemma DisarmKeepsBalance(s: Phone, allow0: set<string>, deny0: set<string>, lostAllow: set<string>,
                           lostDeny: set<string>)
    requires Balanced(s, allow0, deny0, lostAllow, lostDeny)
    ensures Balanced(Disarmed(s), allow0, deny0, lostAllow, lostDeny) && Disarmed(s).armed.None?
  {
    if s.armed.Some? {
      hide Disarmed, Names, Clean, Elems, Commands, UniqSorted;
      DisarmedEffect(s);
    }
  }

  lemma StartsBalanced(s: Phone)
    requires Fresh(s)
    ensures Balanced(s, Names(s.allow), Names(s.deny), {}, {})
  {
  }

  lemma {:induction false} RunIsBalanced(s: Phone, events: seq<Timed>)
    requires Fresh(s)
    ensures Balanced(Run(s, events), Names(s.allow), Names(s.deny), OrphanedAllow(s, events), OrphanedDeny(s, events))
    decreases |events|
  {
    hide Armed, Disarmed, Balanced;
    StartsBalanced(s);
    if events != [] {
      var n := |events| - 1;
      RunIsBalanced(s, events[..n]);
      var before := Run(s, events[..n]);
      var la, ld := OrphanedAllow(s, events[..n]), OrphanedDeny(s, events[..n]);
      assert la + {} == la && ld + {} == ld;
      match events[n].event
      case Arm(group, durationMs) =>
        ArmKeepsBalance(before, group, events[n].now + durationMs, Names(s.allow), Names(s.deny), la, ld);
      case Disarm => DisarmKeepsBalance(before, Names(s.allow), Names(s.deny), la, ld);
      case Tick => DisarmKeepsBalance(before, Names(s.allow), Names(s.deny), la, ld);
    }
  }

  /**
   For every run of arm, re-arm, disarm and expiry: nothing that was allowed is lost, nothing new is
   denied, and commands outside the groups are untouched; while armed, the armed commands are allowed
   and not denied.
   */
  lemma EveryRunIsBounded(s: Phone, events: seq<Timed>)
    requires Fresh(s)
    ensures var s' := Run(s, events);
            && Names(s.allow) <= Names(s'.allow) && Names(s'.deny) <= Names(s.deny)
            && Names(s'.allow) - Commands(All) == Names(s.allow) - Commands(All)
            && Names(s'.deny) - Commands(All) == Names(s.deny) - Commands(All)
            && (s'.armed.Some? ==> && Elems(s'.armed.value.armedCommands) <= Names(s'.allow)
                                   && Elems(s'.armed.value.armedCommands) !! Names(s'.deny))
  {
    hide Armed, Disarmed, Names, Commands, Elems;
    RunIsBalanced(s, events);
  }

  lemma {:induction false} ArmedListsAreNormal(s: Phone, events: seq<Timed>)
    requires Fresh(s) && exists i :: 0 <= i < |events| && IsArm(events[i])
    ensures var s' := Run(s, events);
            s'.allow == UniqSorted(s'.allow) && s'.deny == UniqSorted(s'.deny)
    decreases |events|
  {
    hide Armed, Disarmed, Names, UniqSorted;
    var n := |events| - 1;
    var before := Run(s, events[..n]);
    if events[n].event.Arm? {
      ArmedEffect(before, events[n].event.group, events[n].now + events[n].event.durationMs);
    } else {
      var i :| 0 <= i < |events| && IsArm(events[i]);
      assert IsArm(events[..n][i]);
      ArmedListsAreNormal(s, events[..n]);
      RunIsBalanced(s, events[..n]);
      DisarmStaysNormal(before, s, events[..n]);
    }
  }

  lemma DisarmStaysNormal(before: Phone, s: Phone, events: seq<Timed>)
    requires Balanced(before, Names(s.allow), Names(s.deny), OrphanedAllow(s, events), OrphanedDeny(s, events))
    requires before.allow == UniqSorted(before.allow) && before.deny == UniqSorted(before.deny)
    ensures Disarmed(before).allow == UniqSorted(Disarmed(before).allow)
    ensures Disarmed(before).deny == UniqSorted(Disarmed(before).deny)
  {
    if before.armed.Some? {
      hide Disarmed, Names;
      DisarmedEffect(before);
    }
  }

  /**
   Exact restoration: when a run that armed something ends disarmed, both lists are the normalized
   originals if and only if no arm overwrote a record that held an edit.
   */
  lemma RestoredExactly(s: Phone, events: seq<Timed>)
    requires Fresh(s) && exists i :: 0 <= i < |events| && IsArm(events[i])
    requires Run(s, events).armed.None?
    ensures Run(s, events).allow == UniqSorted(s.allow) && Run(s, events).deny == UniqSorted(s.deny)
        <==> OrphanedAllow(s, events) == {} && OrphanedDeny(s, events) == {}
  {
    hide Armed, Disarmed, Names, UniqSorted, OrphanedAllow, OrphanedDeny, Run;
    RunIsBalanced(s, events);
    ArmedListsAreNormal(s, events);
    var s' := Run(s, events);
    UniqSortedExactly(s'.allow, s.allow);
    UniqSortedExactly(s'.deny, s.deny);
    assert OrphanedAllow(s, events) !! Names(s.allow);
    assert OrphanedDeny(s, events) <= Names(s.deny);
  }

  /** Arms only happen while disarmed. */
  ghost predicate Alternates(s: Phone, events: seq<Timed>) {
    forall i :: 0 <= i < |events| && events[i].event.Arm? ==> Run(s, events[..i]).armed.None?
  }

  lemma {:induction false} AlternatingOrphansNothing(s: Phone, events: seq<Timed>)
    requires Alternates(s, events)
    ensures OrphanedAllow(s, events) == {} && OrphanedDeny(s, events) == {}
    decreases |events|
  {
    hide Step;
    if events != [] {
      var n := |events| - 1;
      assert forall i :: 0 <= i < n ==> events[..n][..i] == events[..i] && events[..n][i] == events[i];
      AlternatingOrphansNothing(s, events[..n]);
    }
  }

  /** A run that alternates arm with disarm or expiry, and ends disarmed, restores both lists. */
  lemma AlternatingRunRestores(s: Phone, events: seq<Timed>)
    requires Fresh(s) && Alternates(s, events)
    requires Run(s, events).armed.None?
    requires exists i :: 0 <= i < |events| && IsArm(events[i])
    ensures Run(s, events).allow == UniqSorted(s.allow) && Run(s, events).deny == UniqSorted(s.deny)
  {
    AlternatingOrphansNothing(s, events);
    RestoredExactly(s, events);
  }

  /** The leak is real: arming the screen group twice and disarming once leaves it allowed. */
  lemma DoubleArmLeaks(t0: int, t1: int, t2: int)
    ensures var s := Phone([], ["screen.record"], None);
            var events := [At(t0, Arm(Screen, 1000)), At(t1, Arm(Screen, 1000)), At(t2, Disarm)];
            Names(Run(s, events).allow) == {"screen.record"} && Names(Run(s, events).deny) == {}
  {
    hide Armed, Disarmed, UniqSorted, Names, Trim, Run, Clean;
    var s := Phone([], ["screen.record"], None);
    var arm0, arm1, disarm := At(t0, Arm(Screen, 1000)), At(t1, Arm(Screen, 1000)), At(t2, Disarm);
    var events := [arm0, arm1, disarm];
    NothingRun(s, events);
    RunStep(s, events, 0);
    RunStep(s, events, 1);
    RunStep(s, events, 2);
    assert events[..3] == events;
    var s1 := Armed(s, Screen, t0 + 1000);
    var s2 := Armed(s1, Screen, t1 + 1000);
    assert Run(s, events) == Disarmed(s2);
    ArmedEffect(s, Screen, t0 + 1000);
    ArmedEffect(s1, Screen, t1 + 1000);
    DisarmedEffect(s2);
    GroupIsTidy(Screen);
    assert Commands(Screen) == {"screen.record"};
    assert s.deny == GroupCommands(Screen);
    EmptyNames();
  }

  lemma NothingRun(s: Phone, events: seq<Timed>)
    ensures Run(s, events[..0]) == s
  {
  }

  lemma EmptyNames()
    ensures Names([]) == {}
  {
  }
}
