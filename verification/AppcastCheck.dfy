/** The check that every item of the appcast has a build number at or above its floor. */
module AppcastCheck {
  import opened Options
  import opened Text
  import opened SparkleBuild

  const LANE_FLOOR_ADOPTION_DATE_KEY := 20260227

  /** An appcast item after extraction; an absent or blank tag is `None` or "". */
  datatype Item = Item(title: string, shortVersion: Option<string>, sparkleVersion: Option<string>)

  datatype Error =
    | NoItems
    | MissingVersion(title: string)
    | NonNumericVersion(title: string, version: string)
    | BelowLaneFloor(title: string, build: nat, floor: nat)
    | BelowLegacyFloor(title: string, build: nat, floor: nat)

  datatype CalverItem = CalverItem(title: string, build: nat, floors: Floors)

  predicate Blank(s: Option<string>) {
    s.None? || s.value == ""
  }

  /** What the first loop makes of an item: an error, an item to check, or nothing. */
  function Sift(i: Item): (Option<Error>, Option<CalverItem>) {
    if Blank(i.sparkleVersion) then (Some(MissingVersion(i.title)), None)
    else if !AllDigits(i.sparkleVersion.value) then (Some(NonNumericVersion(i.title, i.sparkleVersion.value)), None)
    else if Blank(i.shortVersion) || FloorsOf(i.shortVersion.value).None? then (None, None)
    else (None, Some(CalverItem(i.title, NumberOf(i.sparkleVersion.value), FloorsOf(i.shortVersion.value).value)))
  }

  function SiftErrors(items: seq<Item>): seq<Error> {
    if items == [] then []
    else
      var error := Sift(items[|items| - 1]).0;
      SiftErrors(items[..|items| - 1]) + if error.Some? then [error.value] else []
  }

  function SiftItems(items: seq<Item>): seq<CalverItem> {
    if items == [] then []
    else
      var item := Sift(items[|items| - 1]).1;
      SiftItems(items[..|items| - 1]) + if item.Some? then [item.value] else []
  }

  /** `filter`, `map`, sort and take the first: the least date key of the lane builds. */
  function ObservedKey(items: seq<CalverItem>): Option<nat> {
    if items == [] then None
    else
      var key := ObservedKey(items[..|items| - 1]);
      var last := items[|items| - 1];
      if last.build >= LANE_BUILD_MIN && (key.None? || last.floors.dateKey < key.value) then
        Some(last.floors.dateKey)
      else key
  }

  function AdoptionKey(items: seq<CalverItem>): nat {
    var observed := ObservedKey(items);
    if observed.None? then LANE_FLOOR_ADOPTION_DATE_KEY else Min(observed.value, LANE_FLOOR_ADOPTION_DATE_KEY)
  }

  predicate ExpectsLane(c: CalverItem, adoption: nat) {
    c.build >= LANE_BUILD_MIN || c.floors.dateKey >= adoption
  }

  function FloorError(c: CalverItem, adoption: nat): Option<Error> {
    if ExpectsLane(c, adoption) then
      if c.build < c.floors.laneFloor then Some(BelowLaneFloor(c.title, c.build, c.floors.laneFloor)) else None
    else
      if c.build < c.floors.legacyFloor then Some(BelowLegacyFloor(c.title, c.build, c.floors.legacyFloor)) else None
  }

  function FloorErrors(items: seq<CalverItem>, adoption: nat): seq<Error> {
    if items == [] then []
    else
      var error := FloorError(items[|items| - 1], adoption);
      FloorErrors(items[..|items| - 1], adoption) + if error.Some? then [error.value] else []
  }

  function Collected(items: seq<Item>): seq<Error> {
    var calver := SiftItems(items);
    (if items == [] then [NoItems] else []) + SiftErrors(items) + FloorErrors(calver, AdoptionKey(calver))
  }

  /** The first loop: which items are in error, and which are to be checked. */
  method SiftAll(items: seq<Item>, errors0: seq<Error>) returns (errors: seq<Error>, calverItems: seq<CalverItem>)
    ensures errors == errors0 + SiftErrors(items) && calverItems == SiftItems(items)
  {
    hide FloorsOf, NumberOf, SiftErrors, SiftItems, AllDigits;
    errors, calverItems := errors0, [];
    NothingSifted();
    for i := 0 to |items|
      invariant errors == errors0 + SiftErrors(items[..i])
      invariant calverItems == SiftItems(items[..i])
    {
      SiftStep(items, i);
      var item := items[i];
      if item.sparkleVersion.None? || item.sparkleVersion.value == "" {
        errors := errors + [MissingVersion(item.title)];
        continue;
      }
      if !AllDigits(item.sparkleVersion.value) {
        errors := errors + [NonNumericVersion(item.title, item.sparkleVersion.value)];
        continue;
      }
      if item.shortVersion.None? || item.shortVersion.value == "" {
        continue;
      }
      var floors := SparkleBuildFloorsFromShortVersion(item.shortVersion.value);
      if floors.None? {
        continue;
      }
      calverItems := calverItems + [CalverItem(item.title, NumberOf(item.sparkleVersion.value), floors.value)];
    }
    assert items[..|items|] == items;
  }

  lemma NothingSifted()
    ensures SiftErrors([]) == [] && SiftItems([]) == []
  {
  }

  lemma SiftStep(items: seq<Item>, i: nat)
    requires i < |items|
    ensures var (error, item) := Sift(items[i]);
            && SiftErrors(items[..i + 1]) == SiftErrors(items[..i]) + (if error.Some? then [error.value] else [])
            && SiftItems(items[..i + 1]) == SiftItems(items[..i]) + (if item.Some? then [item.value] else [])
  {
    hide Sift;
    assert items[..i + 1][..i] == items[..i];
  }

  method CollectErrors(items: seq<Item>) returns (errors: seq<Error>)
    ensures errors == Collected(items)
  {
    hide FloorsOf, NumberOf, AdoptionKey, SiftErrors, SiftItems, Sift;
    errors := [];
    if |items| == 0 {
      errors := errors + [NoItems];
    }
    var calverItems;
    errors, calverItems := SiftAll(items, errors);
    var effective := AdoptionKey(calverItems);
    ghost var sifted := errors;
    for i := 0 to |calverItems|
      invariant errors == sifted + FloorErrors(calverItems[..i], effective)
    {
      assert calverItems[..i + 1][..i] == calverItems[..i];
      var item := calverItems[i];
      var expectLaneFloor := item.build >= LANE_BUILD_MIN || item.floors.dateKey >= effective;
      var floor := if expectLaneFloor then item.floors.laneFloor else item.floors.legacyFloor;
      if item.build < floor {
        errors := errors + [if expectLaneFloor then BelowLaneFloor(item.title, item.build, floor)
                            else BelowLegacyFloor(item.title, item.build, floor)];
      }
    }
    assert calverItems[..|calverItems|] == calverItems;
  }

  // ---------------------------------------------------------------- laws

  lemma {:induction false} SiftItemsExactly(items: seq<Item>, c: CalverItem)
    ensures c in SiftItems(items) <==> exists i :: 0 <= i < |items| && Sift(items[i]).1 == Some(c)
    decreases |items|
  {
    hide Sift;
    if items != [] {
      var n := |items| - 1;
      SiftItemsExactly(items[..n], c);
      assert forall i :: 0 <= i < n ==> items[..n][i] == items[i];
    }
  }

  lemma {:induction false} SiftErrorsExactly(items: seq<Item>)
    ensures SiftErrors(items) == [] <==> forall i :: 0 <= i < |items| ==> Sift(items[i]).0.None?
    decreases |items|
  {
    hide Sift;
    if items != [] {
      var n := |items| - 1;
      SiftErrorsExactly(items[..n]);
      assert forall i :: 0 <= i < n ==> items[..n][i] == items[i];
    }
  }

  lemma {:induction false} SiftErrorMembers(items: seq<Item>, e: Error)
    ensures e in SiftErrors(items) <==> exists i :: 0 <= i < |items| && Sift(items[i]).0 == Some(e)
    decreases |items|
  {
    hide Sift;
    if items != [] {
      var n := |items| - 1;
      SiftErrorMembers(items[..n], e);
      assert forall i :: 0 <= i < n ==> items[..n][i] == items[i];
    }
  }

  lemma {:induction false} FloorErrorMembers(items: seq<CalverItem>, adoption: nat, e: Error)
    ensures e in FloorErrors(items, adoption)
        <==> exists i :: 0 <= i < |items| && FloorError(items[i], adoption) == Some(e)
    decreases |items|
  {
    hide FloorError;
    if items != [] {
      var n := |items| - 1;
      FloorErrorMembers(items[..n], adoption, e);
      assert forall i :: 0 <= i < n ==> items[..n][i] == items[i];
    }
  }

  /** The item has this build number and these floors to meet. */
  ghost predicate Checked(i: Item, build: nat, f: Floors) {
    && i.sparkleVersion.Some? && i.sparkleVersion.value != "" && AllDigits(i.sparkleVersion.value)
    && build == NumberOf(i.sparkleVersion.value)
    && i.shortVersion.Some? && i.shortVersion.value != "" && FloorsOf(i.shortVersion.value) == Some(f)
  }

  /** What can be wrong with one item, and what the error about it says. */
  ghost predicate Complains(i: Item, adoption: nat, e: Error) {
    match e
    case NoItems => false
    case MissingVersion(title) => title == i.title && (i.sparkleVersion.None? || i.sparkleVersion == Some(""))
    case NonNumericVersion(title, version) =>
      && title == i.title && i.sparkleVersion == Some(version) && version != ""
      && exists k :: 0 <= k < |version| && !('0' <= version[k] <= '9')
    case BelowLaneFloor(title, build, floor) =>
      exists f :: Checked(i, build, f) && (build >= 1_000_000_000 || f.dateKey >= adoption)
                  && title == i.title && floor == f.laneFloor && build < floor
    case BelowLegacyFloor(title, build, floor) =>
      exists f :: Checked(i, build, f) && !(build >= 1_000_000_000 || f.dateKey >= adoption)
                  && title == i.title && floor == f.legacyFloor && build < floor
  }

  lemma ComplainsExactly(i: Item, adoption: nat, e: Error)
    ensures Complains(i, adoption, e)
        <==> Sift(i).0 == Some(e) || (Sift(i).1.Some? && FloorError(Sift(i).1.value, adoption) == Some(e))
  {
    hide FloorsOf, NumberOf;
    if i.shortVersion.Some? && FloorsOf(i.shortVersion.value).Some? && Sift(i).1.Some? {
      assert Checked(i, NumberOf(i.sparkleVersion.value), FloorsOf(i.shortVersion.value).value);
    }
  }

  /** Every error in the report, and what it says: that there are no items, or what is wrong with one of them. */
  lemma ErrorsExactly(items: seq<Item>, e: Error)
    ensures e in Collected(items)
        <==> || (e == NoItems && items == [])
             || exists i :: 0 <= i < |items| && Complains(items[i], AdoptionKey(SiftItems(items)), e)
  {
    hide Sift, FloorError, SiftItems, SiftErrors, FloorErrors, AdoptionKey, Complains;
    var calver := SiftItems(items);
    var key := AdoptionKey(calver);
    SiftErrorMembers(items, e);
    FloorErrorMembers(calver, key, e);
    forall i | 0 <= i < |items|
      ensures Complains(items[i], key, e)
          <==> Sift(items[i]).0 == Some(e)
               || (Sift(items[i]).1.Some? && FloorError(Sift(items[i]).1.value, key) == Some(e))
      ensures Sift(items[i]).1.Some? ==> Sift(items[i]).1.value in calver
    {
      ComplainsExactly(items[i], key, e);
      if Sift(items[i]).1.Some? {
        SiftItemsExactly(items, Sift(items[i]).1.value);
      }
    }
    forall k | 0 <= k < |calver|
      ensures exists i :: 0 <= i < |items| && Sift(items[i]).1 == Some(calver[k])
    {
      SiftItemsExactly(items, calver[k]);
    }
  }

  /** The errors come in the order of the items. */
  lemma {:induction false} SiftConcat(a: seq<Item>, b: seq<Item>)
    ensures SiftErrors(a + b) == SiftErrors(a) + SiftErrors(b) && SiftItems(a + b) == SiftItems(a) + SiftItems(b)
    decreases |b|
  {
    hide Sift;
    if b == [] {
      assert a + b == a;
    } else {
      var n := |b| - 1;
      assert (a + b)[..|a + b| - 1] == a + b[..n];
      SiftConcat(a, b[..n]);
    }
  }

  lemma {:induction false} FloorConcat(a: seq<CalverItem>, b: seq<CalverItem>, adoption: nat)
    ensures FloorErrors(a + b, adoption) == FloorErrors(a, adoption) + FloorErrors(b, adoption)
    decreases |b|
  {
    hide FloorError;
    if b == [] {
      assert a + b == a;
    } else {
      var n := |b| - 1;
      assert (a + b)[..|a + b| - 1] == a + b[..n];
      FloorConcat(a, b[..n], adoption);
    }
  }

  predicate AboutFloor(e: Error) {
    e.BelowLaneFloor? || e.BelowLegacyFloor?
  }

  /** The errors about versions come first and those about floors after them. */
  lemma FloorErrorsAreLast(items: seq<Item>, i: nat, j: nat)
    requires i < j < |Collected(items)| && AboutFloor(Collected(items)[i])
    ensures AboutFloor(Collected(items)[j])
  {
    hide Sift, FloorError, SiftItems, SiftErrors, FloorErrors, AdoptionKey;
    var calver := SiftItems(items);
    var key := AdoptionKey(calver);
    var first := (if items == [] then [NoItems] else []) + SiftErrors(items);
    forall k | 0 <= k < |first|
      ensures !AboutFloor(first[k])
    {
      SiftErrorMembers(items, first[k]);
      VersionErrors();
    }
    var last := FloorErrors(calver, key);
    forall k | 0 <= k < |last|
      ensures AboutFloor(last[k])
    {
      FloorErrorMembers(calver, key, last[k]);
      VersionErrors();
    }
  }

  lemma VersionErrors()
    ensures forall i: Item :: Sift(i).0.Some? ==> !AboutFloor(Sift(i).0.value)
    ensures forall c: CalverItem, adoption: nat :: FloorError(c, adoption).Some? ==>
              AboutFloor(FloorError(c, adoption).value)
  {
    hide FloorsOf, NumberOf, AllDigits;
  }

  lemma {:induction false} NoFloorErrors(items: seq<CalverItem>, adoption: nat)
    ensures FloorErrors(items, adoption) == []
        <==> forall i :: 0 <= i < |items| ==> FloorError(items[i], adoption).None?
    decreases |items|
  {
    if items != [] {
      NoFloorErrors(items[..|items| - 1], adoption);
      assert forall i :: 0 <= i < |items| - 1 ==> items[..|items| - 1][i] == items[i];
    }
  }

  /** The adoption date is the earliest of the fixed date and the dates of the lane builds. */
  lemma {:induction false} AdoptionIsEarliest(items: seq<CalverItem>)
    ensures AdoptionKey(items) <= 20260227
    ensures forall i :: 0 <= i < |items| && items[i].build >= LANE_BUILD_MIN ==>
              AdoptionKey(items) <= items[i].floors.dateKey
    ensures AdoptionKey(items) == 20260227
            || exists i :: 0 <= i < |items| && items[i].build >= LANE_BUILD_MIN
                && items[i].floors.dateKey == AdoptionKey(items)
    decreases |items|
  {
    if items != [] {
      var n := |items| - 1;
      AdoptionIsEarliest(items[..n]);
      assert forall i :: 0 <= i < n ==> items[..n][i] == items[i];
    }
  }

  /** What an item must satisfy, from the point of view of whoever writes the appcast. */
  ghost predicate ItemOk(i: Item, adoption: nat) {
    && !Blank(i.sparkleVersion) && AllDigits(i.sparkleVersion.value)
    && (!Blank(i.shortVersion) && FloorsOf(i.shortVersion.value).Some? ==>
          var build, f := NumberOf(i.sparkleVersion.value), FloorsOf(i.shortVersion.value).value;
          build >= if build >= LANE_BUILD_MIN || f.dateKey >= adoption then f.laneFloor else f.legacyFloor)
  }

  lemma ItemOkExactly(i: Item, adoption: nat)
    ensures ItemOk(i, adoption)
        <==> Sift(i).0.None? && (Sift(i).1.Some? ==> FloorError(Sift(i).1.value, adoption).None?)
  {
    hide FloorsOf, NumberOf, AllDigits;
  }

  /** The appcast passes exactly when it has items and each of them is in order. */
  lemma PassesExactly(items: seq<Item>)
    ensures Collected(items) == []
        <==> items != [] && forall i :: 0 <= i < |items| ==> ItemOk(items[i], AdoptionKey(SiftItems(items)))
  {
    hide Sift, ItemOk, FloorError, SiftItems, AdoptionKey, SiftErrors, FloorErrors;
    var calver := SiftItems(items);
    var key := AdoptionKey(calver);
    NoFloorErrors(calver, key);
    SiftErrorsExactly(items);
    forall i | 0 <= i < |items|
      ensures ItemOk(items[i], key)
          <==> Sift(items[i]).0.None? && (Sift(items[i]).1.Some? ==> FloorError(Sift(items[i]).1.value, key).None?)
      ensures Sift(items[i]).1.Some? ==> Sift(items[i]).1.value in calver
    {
      ItemOkExactly(items[i], key);
      if Sift(items[i]).1.Some? {
        SiftItemsExactly(items, Sift(items[i]).1.value);
      }
    }
    forall k | 0 <= k < |calver|
      ensures exists i :: 0 <= i < |items| && Sift(items[i]).1 == Some(calver[k])
    {
      SiftItemsExactly(items, calver[k]);
    }
  }

  /**
   No way back: in an appcast that passes, once an item of the year 1000 or later has a lane build, every
   item of that date or later has one too.
   */
  lemma LaneBuildsStay(items: seq<Item>, i: nat, j: nat)
    requires Collected(items) == [] && i < |items| && j < |items|
    requires Sift(items[i]).1.Some? && Sift(items[i]).1.value.build >= LANE_BUILD_MIN
    requires Parsed(items[i].shortVersion.value).year >= 1000
    requires Sift(items[j]).1.Some? && Sift(items[j]).1.value.floors.dateKey >= Sift(items[i]).1.value.floors.dateKey
    ensures Sift(items[j]).1.value.build >= LANE_BUILD_MIN
  {
    hide SiftItems, AdoptionKey, Collected, MatchCalVer, NumberOf, AllDigits;
    var calver := SiftItems(items);
    var ci, cj := Sift(items[i]).1.value, Sift(items[j]).1.value;
    SiftItemsExactly(items, ci);
    SiftItemsExactly(items, cj);
    AdoptionIsEarliest(calver);
    PassesExactly(items);
    BuildOrder(items[i].shortVersion.value, items[j].shortVersion.value);
    LaneMinimumSeparates(items[j].shortVersion.value);
    assert ItemOk(items[j], AdoptionKey(calver));
  }
}
