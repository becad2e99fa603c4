/** `uniqSorted`: trim, drop blanks, remove duplicates and sort. */
module SortedNames {
  import opened Text

  /** The default sort order of strings. */
  predicate Less(a: string, b: string) {
    if b == [] then false
    else if a == [] then true
    else a[0] < b[0] || (a[0] == b[0] && Less(a[1..], b[1..]))
  }

  /** The first i characters agree and the next are in order. */
  predicate LowerAt(a: string, b: string, i: nat) {
    i < |a| && i < |b| && a[..i] == b[..i] && a[i] < b[i]
  }

  lemma LowerAtRest(a: string, b: string, i: nat)
    requires a != [] && b != [] && a[0] == b[0]
    ensures LowerAt(a, b, i + 1) <==> LowerAt(a[1..], b[1..], i)
  {
    if i < |a| - 1 && i < |b| - 1 {
      assert a[..i + 1] == [a[0]] + a[1..][..i] && b[..i + 1] == [b[0]] + b[1..][..i];
      assert a[1..][..i] == a[..i + 1][1..] && b[1..][..i] == b[..i + 1][1..];
    }
  }

  lemma LowerAtHead(a: string, b: string, i: nat)
    ensures LowerAt(a, b, i) && i > 0 ==> a[0] == b[0]
  {
    if LowerAt(a, b, i) && i > 0 {
      assert a[0] == a[..i][0] && b[0] == b[..i][0];
    }
  }

  /** Strings compare at their first difference; a string comes after its own beginnings. */
  lemma {:induction false} LessExactly(a: string, b: string)
    ensures Less(a, b) <==> a < b || exists i: nat :: LowerAt(a, b, i)
    decreases |a|
  {
    if a != [] && b != [] {
      LessExactly(a[1..], b[1..]);
      if a[0] == b[0] {
        assert a == [a[0]] + a[1..] && b == [b[0]] + b[1..];
        if i: nat :| LowerAt(a, b, i) {
          LowerAtRest(a, b, i - 1);
        }
        if i: nat :| LowerAt(a[1..], b[1..], i) {
          LowerAtRest(a, b, i);
        }
      } else {
        assert a[0] < b[0] ==> LowerAt(a, b, 0);
        forall i: nat
          ensures LowerAt(a, b, i) ==> i == 0
        {
          LowerAtHead(a, b, i);
        }
      }
    }
  }

  lemma {:induction false} LessIsIrreflexive(a: string)
    ensures !Less(a, a)
  {
    if a != [] {
      LessIsIrreflexive(a[1..]);
    }
  }

  lemma {:induction false} LessIsStrictTotal(a: string, b: string)
    ensures !Less(a, a)
    ensures a == b || Less(a, b) || Less(b, a)
    ensures !(Less(a, b) && Less(b, a))
    decreases |a| + |b|
  {
    LessIsIrreflexive(a);
    if a != [] && b != [] && a[0] == b[0] {
      LessIsStrictTotal(a[1..], b[1..]);
      assert a == [a[0]] + a[1..] && b == [b[0]] + b[1..];
    }
  }

  lemma {:induction false} LessIsTransitive(a: string, b: string, c: string)
    requires Less(a, b) && Less(b, c)
    ensures Less(a, c)
    decreases |a|
  {
    if a != [] && a[0] == b[0] == c[0] {
      LessIsTransitive(a[1..], b[1..], c[1..]);
    }
  }

  ghost function Elems(names: seq<string>): set<string> {
    set n | n in names
  }

  /** The trimmed, non-blank names of a raw list. */
  ghost function Names(raw: seq<string>): set<string> {
    set n | n in raw && Trim(n) != "" :: Trim(n)
  }

  /** Each name is smaller than all later ones. */
  ghost predicate Sorted(names: seq<string>) {
    forall i, j :: 0 <= i < j < |names| ==> Less(names[i], names[j])
  }

  function Insert(name: string, names: seq<string>): seq<string> {
    if names == [] then [name]
    else if name == names[0] then names
    else if Less(name, names[0]) then [name] + names
    else [names[0]] + Insert(name, names[1..])
  }

  function UniqSorted(raw: seq<string>): seq<string> {
    if raw == [] then []
    else
      var rest := UniqSorted(raw[1..]);
      if Trim(raw[0]) == "" then rest else Insert(Trim(raw[0]), rest)
  }

  lemma {:induction false} InsertElems(name: string, names: seq<string>)
    ensures Elems(Insert(name, names)) == Elems(names) + {name}
    decreases |names|
  {
    hide Less;
    if names != [] {
      assert names == [names[0]] + names[1..];
      ElemsCons(names[0], names[1..]);
      ElemsCons(name, names);
      InsertElems(name, names[1..]);
      ElemsCons(names[0], Insert(name, names[1..]));
    }
  }

  lemma ElemsCons(name: string, names: seq<string>)
    ensures Elems([name] + names) == {name} + Elems(names)
  {
  }

  /** Prepending keeps a list sorted exactly when the name is below all others. */
  lemma SortedCons(name: string, names: seq<string>)
    ensures Sorted([name] + names) <==> Sorted(names) && forall n :: n in names ==> Less(name, n)
  {
    hide Less;
    var all := [name] + names;
    assert all[1..] == names;
    if Sorted(all) {
      forall i, j | 0 <= i < j < |names|
        ensures Less(names[i], names[j])
      {
        assert Less(all[i + 1], all[j + 1]);
      }
      forall n | n in names
        ensures Less(name, n)
      {
        var i :| 0 <= i < |names| && names[i] == n;
        assert Less(all[0], all[i + 1]);
      }
    }
    if Sorted(names) && forall n :: n in names ==> Less(name, n) {
      forall i, j | 0 <= i < j < |all|
        ensures Less(all[i], all[j])
      {
        assert all[j] == names[j - 1] && names[j - 1] in names;
        if i > 0 {
          assert Less(names[i - 1], names[j - 1]);
        }
      }
    }
  }

  lemma {:induction false} InsertKeepsSorted(name: string, names: seq<string>)
    requires Sorted(names)
    ensures Sorted(Insert(name, names))
    decreases |names|
  {
    hide Less, Sorted;
    SortedCons(name, []);
    assert [name] + [] == [name];
    NothingIsSorted();
    if names != [] {
      var head, tail := names[0], names[1..];
      assert names == [head] + tail;
      SortedCons(head, tail);
      LessIsStrictTotal(name, head);
      if Less(name, head) {
        forall n | n in tail
          ensures Less(name, n)
        {
          LessIsTransitive(name, head, n);
        }
        SortedCons(name, names);
      } else if name != head {
        InsertKeepsSorted(name, tail);
        InsertElems(name, tail);
        var r := Insert(name, tail);
        forall n | n in r
          ensures Less(head, n)
        {
          assert n in Elems(r);
        }
        SortedCons(head, r);
      }
    }
  }

  lemma NothingIsSorted()
    ensures Sorted([])
  {
  }

  lemma {:induction false} UniqSortedIsSorted(raw: seq<string>)
    ensures Sorted(UniqSorted(raw))
    ensures Elems(UniqSorted(raw)) == Names(raw)
    decreases |raw|
  {
    if raw != [] {
      UniqSortedIsSorted(raw[1..]);
      assert raw == [raw[0]] + raw[1..];
      assert Names(raw) == Names(raw[1..]) + if Trim(raw[0]) == "" then {} else {Trim(raw[0])};
      if Trim(raw[0]) != "" {
        InsertKeepsSorted(Trim(raw[0]), UniqSorted(raw[1..]));
        InsertElems(Trim(raw[0]), UniqSorted(raw[1..]));
      }
    }
  }

  lemma HeadIsElem(names: seq<string>)
    ensures names != [] ==> names[0] in Elems(names)
  {
  }

  /** A sorted list is determined by its elements. */
  lemma {:induction false} SortedIsCanonical(a: seq<string>, b: seq<string>)
    requires Sorted(a) && Sorted(b) && Elems(a) == Elems(b)
    ensures a == b
    decreases |a|
  {
    if a == [] {
      HeadIsElem(b);
    } else {
      assert a[0] in Elems(a);
      var k :| 0 <= k < |b| && b[k] == a[0];
      assert b[0] in Elems(b);
      var m :| 0 <= m < |a| && a[m] == b[0];
      if k > 0 && m > 0 {
        LessIsStrictTotal(a[0], b[0]);
        assert false;
      }
      assert a[0] == b[0];
      SortedTail(a);
      SortedTail(b);
      SortedIsCanonical(a[1..], b[1..]);
      assert a == [a[0]] + a[1..] && b == [b[0]] + b[1..];
    }
  }

  lemma SortedTail(a: seq<string>)
    requires Sorted(a) && a != []
    ensures Sorted(a[1..]) && Elems(a[1..]) == Elems(a) - {a[0]}
  {
    assert a == [a[0]] + a[1..];
    forall i | 0 <= i < |a[1..]|
      ensures a[1..][i] != a[0]
    {
      LessIsStrictTotal(a[0], a[i + 1]);
      assert Less(a[0], a[i + 1]);
    }
  }

  /** Two raw lists normalize to the same list exactly when they hold the same names. */
  lemma UniqSortedExactly(a: seq<string>, b: seq<string>)
    ensures UniqSorted(a) == UniqSorted(b) <==> Names(a) == Names(b)
  {
    UniqSortedIsSorted(a);
    UniqSortedIsSorted(b);
    if Names(a) == Names(b) {
      SortedIsCanonical(UniqSorted(a), UniqSorted(b));
    }
  }

  /** All names of a list are already trimmed and non-blank. */
  ghost predicate Clean(names: seq<string>) {
    forall n :: n in names ==> n != "" && Trim(n) == n
  }

  lemma UniqSortedIsClean(raw: seq<string>)
    ensures Clean(UniqSorted(raw))
    ensures Names(UniqSorted(raw)) == Names(raw)
  {
    UniqSortedIsSorted(raw);
    forall n | n in UniqSorted(raw)
      ensures n != "" && Trim(n) == n
    {
      assert n in Names(raw);
      var r :| r in raw && n == Trim(r);
      TrimFixpoint(r);
    }
    CleanNames(UniqSorted(raw));
  }

  lemma CleanNames(names: seq<string>)
    requires Clean(names)
    ensures Names(names) == Elems(names)
  {
    forall n | n in names
      ensures n in Names(names)
    {
      assert Trim(n) == n;
    }
  }

  /** Normalizing twice is normalizing once. */
  lemma UniqSortedIsIdempotent(raw: seq<string>)
    ensures UniqSorted(UniqSorted(raw)) == UniqSorted(raw)
  {
    UniqSortedIsClean(raw);
    UniqSortedExactly(UniqSorted(raw), raw);
  }
}
