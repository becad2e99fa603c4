/**
 Temporary arming of high-risk phone commands.  Arming a group edits the configured allow and deny
 lists and records the edit; disarming, by hand or on expiry, undoes the recorded edit.

 An arm issued while already armed overwrites the record without reading it, so the edit it held is
 never undone.  The laws say exactly what that costs.
 */
module PhoneControl {
  import opened Options
  import opened SortedNames

  datatype Group = Camera | Screen | Writes | All

  datatype ArmRecord = ArmRecord(expiresAtMs: Option<int>, group: Group, armedCommands: seq<string>,
                                 addedToAllow: seq<string>, removedFromDeny: seq<string>)

  /** The configured lists and the record file. */
  datatype Phone = Phone(allow: seq<string>, deny: seq<string>, armed: Option<ArmRecord>)

  function GroupCommands(group: Group): seq<string>
    decreases group.All?
  {
    match group
    case Camera => ["camera.snap", "camera.clip"]
    case Screen => ["screen.record"]
    case Writes => ["calendar.add", "contacts.add", "reminders.add", "sms.send"]
    case All => GroupCommands(Camera) + GroupCommands(Screen) + GroupCommands(Writes)
  }

  function ResolveCommandsForGroup(group: Group): seq<string> {
    UniqSorted(GroupCommands(group))
  }

  /** The names of `names` that are in `other`, or that are not; both keep the order of `names`. */
  function Within(names: seq<string>, other: seq<string>): seq<string> {
    if names == [] then []
    else Within(names[..|names| - 1], other)
         + if names[|names| - 1] in other then [names[|names| - 1]] else []
  }

  function Outside(names: seq<string>, other: seq<string>): seq<string> {
    if names == [] then []
    else Outside(names[..|names| - 1], other)
         + if names[|names| - 1] in other then [] else [names[|names| - 1]]
  }

  function Armed(s: Phone, group: Group, expiresAtMs: int): Phone {
    var commands := ResolveCommandsForGroup(group);
    var allow, deny := UniqSorted(s.allow), UniqSorted(s.deny);
    var added, removed := Outside(commands, allow), Within(commands, deny);
    Phone(UniqSorted(allow + added), UniqSorted(Outside(deny, commands)),
          Some(ArmRecord(Some(expiresAtMs), group, UniqSorted(commands), UniqSorted(added), UniqSorted(removed))))
  }

  function Disarmed(s: Phone): Phone {
    match s.armed
    case None => s
    case Some(r) =>
      var allow, deny := UniqSorted(s.allow), UniqSorted(s.deny);
      var removed, restored := Within(r.addedToAllow, allow), Outside(r.removedFromDeny, deny);
      if removed == [] && restored == [] then s.(armed := None)
      else Phone(UniqSorted(Outside(allow, r.addedToAllow)), UniqSorted(deny + restored), None)
  }

  datatype Event = Arm(group: Group, durationMs: int) | Disarm | Tick

  datatype Timed = At(now: int, event: Event)

  predicate Expired(s: Phone, now: int) {
    s.armed.Some? && s.armed.value.expiresAtMs.Some? && now >= s.armed.value.expiresAtMs.value
  }

  function Step(s: Phone, t: Timed): Phone {
    match t.event
    case Arm(group, durationMs) => Armed(s, group, t.now + durationMs)
    case Disarm => Disarmed(s)
    case Tick => if Expired(s, t.now) then Disarmed(s) else s
  }

  function Run(s: Phone, events: seq<Timed>): Phone {
    if events == [] then s else Step(Run(s, events[..|events| - 1]), events[|events| - 1])
  }

  // ---------------------------------------------------------------- the service

  class Controller {
    var allow: seq<string>
    var deny: seq<string>
    var armed: Option<ArmRecord>

    ghost function State(): Phone
      reads this
    {
      Phone(allow, deny, armed)
    }

    constructor (allow: seq<string>, deny: seq<string>)
      ensures State() == Phone(allow, deny, None)
    {
      this.allow, this.deny, this.armed := allow, deny, None;
    }

    method ArmGroup(group: Group, durationMs: int, now: int)
      modifies this
      ensures State() == Step(old(State()), At(now, Arm(group, durationMs)))
    {
      hide UniqSorted, GroupCommands;
      var commands := ResolveCommandsForGroup(group);
      var allow0, deny0 := UniqSorted(allow), UniqSorted(deny);
      var allowSet, denySet, addedToAllow, removedFromDeny := OpenUp(commands, allow0, deny0);
      allow, deny := UniqSorted(allowSet), UniqSorted(denySet);
      armed := Some(ArmRecord(Some(now + durationMs), group, UniqSorted(commands), UniqSorted(addedToAllow),
                              UniqSorted(removedFromDeny)));
    }

    method DisarmNow() returns (changed: bool)
      modifies this
      ensures State() == Disarmed(old(State()))
      ensures changed
          <==> && old(armed).Some?
               && var r := old(armed).value;
                  || (exists c :: c in r.addedToAllow && c in UniqSorted(old(allow)))
                  || (exists c :: c in r.removedFromDeny && c !in UniqSorted(old(deny)))
    {
      if armed.None? {
        return false;
      }
      var state := armed.value;
      var allow0, deny0 := UniqSorted(allow), UniqSorted(deny);
      var allowSet, denySet, removed, restored := Undo(state, allow0, deny0);
      WithinNonEmpty(state.addedToAllow, allow0);
      OutsideNonEmpty(state.removedFromDeny, deny0);
      changed := removed != [] || restored != [];
      if changed {
        allow, deny := UniqSorted(allowSet), UniqSorted(denySet);
      }
      armed := None;
    }

    /** The expiry timer. */
    method OnTick(now: int)
      modifies this
      ensures State() == Step(old(State()), At(now, Tick))
    {
      if armed.None? || armed.value.expiresAtMs.None? {
        return;
      }
      if now < armed.value.expiresAtMs.value {
        return;
      }
      var _ := DisarmNow();
    }
  }

  lemma {:induction false} OutsideExactly(names: seq<string>, other: seq<string>)
    ensures Elems(Outside(names, other)) == Elems(names) - Elems(other)
    ensures Elems(Within(names, other)) == Elems(names) * Elems(other)
    decreases |names|
  {
    if names != [] {
      OutsideExactly(names[..|names| - 1], other);
      ElemsSnoc(names[..|names| - 1], names[|names| - 1]);
      assert names == names[..|names| - 1] + [names[|names| - 1]];
      ElemsSnoc(Outside(names[..|names| - 1], other), names[|names| - 1]);
      ElemsSnoc(Within(names[..|names| - 1], other), names[|names| - 1]);
      assert Outside(names[..|names| - 1], other) + [] == Outside(names[..|names| - 1], other);
      assert Within(names[..|names| - 1], other) + [] == Within(names[..|names| - 1], other);
    }
  }

  lemma ElemsSnoc(names: seq<string>, name: string)
    ensures Elems(names + [name]) == Elems(names) + {name}
  {
  }

  lemma ElemsConcat(a: seq<string>, b: seq<string>)
    ensures Elems(a + b) == Elems(a) + Elems(b)
  {
  }

  lemma WithinNonEmpty(names: seq<string>, other: seq<string>)
    ensures Within(names, other) != [] <==> exists c :: c in names && c in other
  {
    OutsideExactly(names, other);
    var r := Within(names, other);
    HeadIsElem(r);
    assert forall c :: c in names && c in other ==> c in Elems(r);
  }

  lemma OutsideNonEmpty(names: seq<string>, other: seq<string>)
    ensures Outside(names, other) != [] <==> exists c :: c in names && c !in other
  {
    OutsideExactly(names, other);
    var r := Outside(names, other);
    HeadIsElem(r);
    assert forall c :: c in names && c !in other ==> c in Elems(r);
  }

  /** Lists with the same elements normalize alike. */
  lemma SameElems(a: seq<string>, b: seq<string>)
    requires Elems(a) == Elems(b)
    ensures UniqSorted(a) == UniqSorted(b)
  {
    assert forall n :: n in a <==> n in Elems(a);
    assert forall n :: n in b <==> n in Elems(b);
    assert Names(a) == Names(b);
    UniqSortedExactly(a, b);
  }

  /** The loop of the arm branch, over the allow and deny sets. */
  method OpenUp(commands: seq<string>, allow0: seq<string>, deny0: seq<string>)
    returns (allowSet: seq<string>, denySet: seq<string>, addedToAllow: seq<string>, removedFromDeny: seq<string>)
    ensures UniqSorted(allowSet) == UniqSorted(allow0 + Outside(commands, allow0))
    ensures UniqSorted(denySet) == UniqSorted(Outside(deny0, commands))
    ensures UniqSorted(addedToAllow) == UniqSorted(Outside(commands, allow0))
    ensures UniqSorted(removedFromDeny) == UniqSorted(Within(commands, deny0))
  {
    allowSet, denySet, addedToAllow, removedFromDeny := allow0, deny0, [], [];
    for i := 0 to |commands|
      invariant Elems(allowSet) == Elems(allow0) + Elems(commands[..i])
      invariant Elems(denySet) == Elems(deny0) - Elems(commands[..i])
      invariant Elems(addedToAllow) == Elems(commands[..i]) - Elems(allow0)
      invariant Elems(removedFromDeny) == Elems(commands[..i]) * Elems(deny0)
    {
      var cmd := commands[i];
      assert commands[..i + 1] == commands[..i] + [cmd];
      ElemsSnoc(commands[..i], cmd);
      if cmd !in allowSet {
        assert cmd !in Elems(allowSet);
        ElemsSnoc(allowSet, cmd);
        ElemsSnoc(addedToAllow, cmd);
        allowSet := allowSet + [cmd];
        addedToAllow := addedToAllow + [cmd];
      } else {
        assert cmd in Elems(allowSet);
      }
      if cmd in denySet {
        assert cmd in Elems(denySet);
        ElemsSnoc(removedFromDeny, cmd);
        removedFromDeny := removedFromDeny + [cmd];
      } else {
        assert cmd !in Elems(denySet);
      }
      OutsideExactly(denySet, [cmd]);
      denySet := Outside(denySet, [cmd]);
    }
    assert commands[..|commands|] == commands;
    OutsideExactly(commands, allow0);
    OutsideExactly(commands, deny0);
    OutsideExactly(deny0, commands);
    ElemsConcat(allow0, Outside(commands, allow0));
    SameElems(allowSet, allow0 + Outside(commands, allow0));
    SameElems(denySet, Outside(deny0, commands));
    SameElems(addedToAllow, Outside(commands, allow0));
    SameElems(removedFromDeny, Within(commands, deny0));
  }

  /** The loops of `disarmNow`. */
  method Undo(state: ArmRecord, allow0: seq<string>, deny0: seq<string>)
    returns (allowSet: seq<string>, denySet: seq<string>, removed: seq<string>, restored: seq<string>)
    ensures UniqSorted(allowSet) == UniqSorted(Outside(allow0, state.addedToAllow))
    ensures UniqSorted(denySet) == UniqSorted(deny0 + Outside(state.removedFromDeny, deny0))
    ensures removed == [] <==> Within(state.addedToAllow, allow0) == []
    ensures restored == [] <==> Outside(state.removedFromDeny, deny0) == []
  {
    allowSet, denySet, removed, restored := allow0, deny0, [], [];
    var added := state.addedToAllow;
    for i := 0 to |added|
      invariant Elems(allowSet) == Elems(allow0) - Elems(added[..i])
      invariant Elems(removed) == Elems(allow0) * Elems(added[..i])
    {
      assert added[..i + 1] == added[..i] + [added[i]];
      ElemsSnoc(added[..i], added[i]);
      if added[i] in allowSet {
        assert added[i] in Elems(allowSet);
        ElemsSnoc(removed, added[i]);
        OutsideExactly(allowSet, [added[i]]);
        allowSet := Outside(allowSet, [added[i]]);
        removed := removed + [added[i]];
      } else {
        assert added[i] !in Elems(allowSet);
      }
    }
    assert added[..|added|] == added;
    var lost := state.removedFromDeny;
    for i := 0 to |lost|
      invariant Elems(denySet) == Elems(deny0) + Elems(lost[..i])
      invariant Elems(restored) == Elems(lost[..i]) - Elems(deny0)
    {
      assert lost[..i + 1] == lost[..i] + [lost[i]];
      ElemsSnoc(lost[..i], lost[i]);
      if lost[i] !in denySet {
        assert lost[i] !in Elems(denySet);
        ElemsSnoc(denySet, lost[i]);
        ElemsSnoc(restored, lost[i]);
        denySet := denySet + [lost[i]];
        restored := restored + [lost[i]];
      } else {
        assert lost[i] in Elems(denySet);
      }
    }
    assert lost[..|lost|] == lost;
    OutsideExactly(allow0, added);
    OutsideExactly(added, allow0);
    OutsideExactly(lost, deny0);
    ElemsConcat(deny0, Outside(lost, deny0));
    SameElems(allowSet, Outside(allow0, added));
    SameElems(denySet, deny0 + Outside(lost, deny0));
    EmptyExactly(removed, Within(added, allow0));
    EmptyExactly(restored, Outside(lost, deny0));
  }

  lemma EmptyExactly(a: seq<string>, b: seq<string>)
    requires Elems(a) == Elems(b)
    ensures a == [] <==> b == []
  {
    HeadIsElem(a);
    HeadIsElem(b);
  }
}
