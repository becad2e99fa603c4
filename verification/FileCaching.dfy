/**
 The bounded file cache: a size counter and an access log kept beside a directory of files.

 The counter is only an estimate of the bytes on disk.  The ledger theorem says by exactly how much it
 is off after any run; the space theorems say exactly when a write keeps the disk within the promised
 bound, and exactly which states keep it for good.
 */
module FileCaching {
  import opened Options

  type Bytes = seq<bv8>

  datatype LogEntry = LogEntry(key: string, at: int)

  /** `log` is the access log in `Map` insertion order; `disk` is the cache directory. */
  datatype Cache = Cache(maxSize: int, size: int, log: seq<LogEntry>, disk: map<string, Bytes>)

  // ---------------------------------------------------------------- the access log

  ghost function KeysOf(log: seq<LogEntry>): set<string> {
    set e | e in log :: e.key
  }

  lemma KeysOfConcat(a: seq<LogEntry>, b: seq<LogEntry>)
    ensures KeysOf(a + b) == KeysOf(a) + KeysOf(b)
  {
    assert forall e :: e in a + b <==> e in a || e in b;
  }

  lemma KeysOfOne(e: LogEntry)
    ensures KeysOf([e]) == {e.key}
  {
    assert e in [e];
  }

  ghost predicate UniqueKeys(log: seq<LogEntry>) {
    forall i, j :: 0 <= i < j < |log| ==> log[i].key != log[j].key
  }

  /** `Map.set`: an existing key keeps its place, a new key goes to the end. */
  function Touch(log: seq<LogEntry>, key: string, at: int): seq<LogEntry> {
    if log == [] then [LogEntry(key, at)]
    else if log[0].key == key then [LogEntry(key, at)] + log[1..]
    else [log[0]] + Touch(log[1..], key, at)
  }

  lemma {:induction false} TouchKeys(log: seq<LogEntry>, key: string, at: int)
    ensures KeysOf(Touch(log, key, at)) == KeysOf(log) + {key}
    decreases |log|
  {
    hide KeysOf;
    NoKeys();
    KeysOfOne(LogEntry(key, at));
    if log != [] {
      KeysOfOne(log[0]);
      assert log == [log[0]] + log[1..];
      KeysOfConcat([log[0]], log[1..]);
      if log[0].key == key {
        KeysOfConcat([LogEntry(key, at)], log[1..]);
      } else {
        TouchKeys(log[1..], key, at);
        KeysOfConcat([log[0]], Touch(log[1..], key, at));
      }
    }
  }

  lemma NoKeys()
    ensures KeysOf([]) == {}
  {
  }

  lemma UniqueCons(e: LogEntry, log: seq<LogEntry>)
    ensures UniqueKeys([e] + log) <==> e.key !in KeysOf(log) && UniqueKeys(log)
  {
    var all := [e] + log;
    assert all[1..] == log;
    if UniqueKeys(all) {
      forall i | 0 <= i < |log|
        ensures e.key != log[i].key
      {
        assert all[0].key != all[i + 1].key;
      }
      forall i, j | 0 <= i < j < |log|
        ensures log[i].key != log[j].key
      {
        assert all[i + 1].key != all[j + 1].key;
      }
    }
    if e.key !in KeysOf(log) && UniqueKeys(log) {
      assert forall i :: 0 <= i < |log| ==> log[i] in log;
    }
  }

  lemma {:induction false} TouchUnique(log: seq<LogEntry>, key: string, at: int)
    requires UniqueKeys(log)
    ensures UniqueKeys(Touch(log, key, at))
    decreases |log|
  {
    hide KeysOf, UniqueKeys;
    NoKeys();
    UniqueCons(LogEntry(key, at), []);
    assert [LogEntry(key, at)] + [] == [LogEntry(key, at)];
    UniqueNone();
    if log != [] {
      assert log == [log[0]] + log[1..];
      UniqueCons(log[0], log[1..]);
      if log[0].key == key {
        UniqueCons(LogEntry(key, at), log[1..]);
      } else {
        TouchUnique(log[1..], key, at);
        TouchKeys(log[1..], key, at);
        UniqueCons(log[0], Touch(log[1..], key, at));
      }
    }
  }

  lemma UniqueNone()
    ensures UniqueKeys([])
  {
  }

  /** A touched key gets the new time; no other entry changes. */
  lemma {:induction false} TouchExactly(log: seq<LogEntry>, key: string, at: int, x: LogEntry)
    requires UniqueKeys(log)
    ensures x in Touch(log, key, at) <==> x == LogEntry(key, at) || (x in log && x.key != key)
    decreases |log|
  {
    if log != [] {
      assert log == [log[0]] + log[1..];
      if log[0].key == key {
        assert forall j :: 0 < j < |log| ==> log[j].key != key;
        assert x in log[1..] ==> x.key != key;
      } else {
        TouchExactly(log[1..], key, at, x);
      }
    }
  }

  function Without(log: seq<LogEntry>, i: nat): seq<LogEntry>
    requires i < |log|
  {
    log[..i] + log[i + 1..]
  }

  lemma WithoutKeys(log: seq<LogEntry>, i: nat)
    requires i < |log| && UniqueKeys(log)
    ensures UniqueKeys(Without(log, i))
    ensures KeysOf(Without(log, i)) == KeysOf(log) - {log[i].key}
    ensures forall e :: e in Without(log, i) <==> e in log && e != log[i]
  {
    var r := Without(log, i);
    assert forall j :: 0 <= j < |r| ==> r[j] == if j < i then log[j] else log[j + 1];
    assert forall j :: 0 <= j < |log| && j != i ==> log[j] == r[if j < i then j else j - 1];
    forall k | k in KeysOf(log) && k != log[i].key
      ensures k in KeysOf(r)
    {
      var e :| e in log && e.key == k;
      var j :| 0 <= j < |log| && log[j] == e;
      assert r[if j < i then j else j - 1] == e;
      assert e in r;
    }
  }

  /** The head of the log after a stable sort by access time: the first of the least recently used. */
  function Oldest(log: seq<LogEntry>): (i: nat)
    requires log != []
    ensures i < |log|
    ensures forall j :: 0 <= j < |log| ==> log[i].at <= log[j].at
    ensures forall j :: 0 <= j < i ==> log[i].at < log[j].at
  {
    if |log| == 1 then 0
    else
      var i := Oldest(log[..|log| - 1]);
      assert forall j :: 0 <= j < |log| - 1 ==> log[..|log| - 1][j] == log[j];
      if log[|log| - 1].at < log[i].at then |log| - 1 else i
  }

  // ---------------------------------------------------------------- bytes on disk

  ghost function Total(disk: map<string, Bytes>): nat {
    if disk == map[] then 0
    else
      var k :| k in disk;
      |disk[k]| + Total(disk - {k})
  }

  lemma {:induction false} TotalRemove(disk: map<string, Bytes>, k: string)
    requires k in disk
    ensures Total(disk) == |disk[k]| + Total(disk - {k})
    decreases |disk|
  {
    var k' :| k' in disk && Total(disk) == |disk[k']| + Total(disk - {k'});
    if k' != k {
      TotalRemove(disk - {k'}, k);
      TotalRemove(disk - {k}, k');
      assert disk - {k'} - {k} == disk - {k} - {k'};
    }
  }

  function SizeAt(disk: map<string, Bytes>, k: string): nat {
    if k in disk then |disk[k]| else 0
  }

  lemma TotalUpdate(disk: map<string, Bytes>, k: string, data: Bytes)
    ensures Total(disk[k := data]) == Total(disk) - SizeAt(disk, k) + |data|
    ensures Total(disk[k := data]) == Total(disk - {k}) + |data|
  {
    TotalRemove(disk[k := data], k);
    assert disk[k := data] - {k} == disk - {k};
    if k in disk {
      TotalRemove(disk, k);
    } else {
      assert disk - {k} == disk;
    }
  }

  lemma {:induction false} TotalSplit(disk: map<string, Bytes>, gone: set<string>)
    ensures Total(disk) == Total(disk - gone) + Total(Restrict(disk, gone))
    decreases gone
  {
    if k :| k in gone {
      TotalSplit(disk, gone - {k});
      if k in disk {
        TotalRemove(disk - (gone - {k}), k);
        TotalRemove(Restrict(disk, gone), k);
      }
      assert disk - (gone - {k}) - {k} == disk - gone;
      assert Restrict(disk, gone) - {k} == Restrict(disk, gone - {k});
      if k !in disk {
        assert disk - (gone - {k}) == disk - gone;
        assert Restrict(disk, gone) == Restrict(disk, gone - {k});
      }
    } else {
      assert Restrict(disk, gone) == map[];
      assert disk - gone == disk;
    }
  }

  ghost function Restrict(disk: map<string, Bytes>, keys: set<string>): map<string, Bytes> {
    map k | k in disk && k in keys :: disk[k]
  }

  /** The files that the access log does not know, and that eviction can therefore never remove. */
  ghost function Unlogged(c: Cache): map<string, Bytes> {
    c.disk - KeysOf(c.log)
  }

  // ---------------------------------------------------------------- the operations

  /**
   Eviction.  `stuck` are the files that exist but cannot be unlinked; for those, as for files that
   have disappeared, the error is swallowed and only the log entry is dropped.
   */
  function EvictOne(c: Cache, stuck: set<string>): Cache
    requires c.log != []
  {
    var i := Oldest(c.log);
    var k := c.log[i].key;
    if k in c.disk && k !in stuck then
      c.(size := c.size - |c.disk[k]|, log := Without(c.log, i), disk := c.disk - {k})
    else
      c.(log := Without(c.log, i))
  }

  function Evict(c: Cache, required: nat, stuck: set<string>): Cache
    decreases |c.log|
  {
    if c.size + required > c.maxSize && c.log != [] then Evict(EvictOne(c, stuck), required, stuck) else c
  }

  /** How a write ends: done, or failed with what it leaves of the file, if it got to open it. */
  datatype Write = Done | Failed(left: Option<Bytes>)

  datatype Op =
    | Set(key: string, data: Bytes, now: int, stuck: set<string>)
    | FailedSet(key: string, required: nat, left: Option<Bytes>, stuck: set<string>)  // the write threw
    | Get(key: string, now: int)
    | Vanish(gone: set<string>)                   // files deleted behind the cache's back
    | Clear
    | Scan(listing: seq<LogEntry>)                // `init`: a complete directory scan
    | BrokenScan(listing: seq<LogEntry>)          // `init`: a scan that failed after these entries

  function TouchAll(log: seq<LogEntry>, listing: seq<LogEntry>): seq<LogEntry> {
    if listing == [] then log
    else Touch(TouchAll(log, listing[..|listing| - 1]), listing[|listing| - 1].key, listing[|listing| - 1].at)
  }

  lemma {:induction false} TouchAllKeys(log: seq<LogEntry>, listing: seq<LogEntry>)
    ensures KeysOf(TouchAll(log, listing)) == KeysOf(log) + KeysOf(listing)
    ensures UniqueKeys(log) ==> UniqueKeys(TouchAll(log, listing))
    decreases |listing|
  {
    hide KeysOf, UniqueKeys, Touch;
    if listing == [] {
      NoKeys();
      assert KeysOf(log) + {} == KeysOf(log);
    } else {
      var n := |listing| - 1;
      TouchAllKeys(log, listing[..n]);
      TouchKeys(TouchAll(log, listing[..n]), listing[n].key, listing[n].at);
      if UniqueKeys(log) {
        TouchUnique(TouchAll(log, listing[..n]), listing[n].key, listing[n].at);
      }
      assert listing == listing[..n] + [listing[n]];
      KeysOfOne(listing[n]);
      KeysOfConcat(listing[..n], [listing[n]]);
    }
  }

  ghost predicate Lists(listing: seq<LogEntry>, disk: map<string, Bytes>) {
    UniqueKeys(listing) && KeysOf(listing) == disk.Keys
  }

  /** What the caller and the file system guarantee: a complete scan lists each file once. */
  ghost predicate Possible(c: Cache, op: Op) {
    match op
    case Scan(listing) => Lists(listing, c.disk)
    case BrokenScan(listing) => UniqueKeys(listing) && KeysOf(listing) <= c.disk.Keys
    case _ => true
  }

  ghost function Step(c: Cache, op: Op): Cache {
    match op
    case Set(key, data, now, stuck) =>
      var e := Evict(c, |data|, stuck);
      e.(size := e.size + |data|, log := Touch(e.log, key, now), disk := e.disk[key := data])
    case FailedSet(key, required, left, stuck) =>
      var e := Evict(c, required, stuck);
      if left.Some? then e.(disk := e.disk[key := left.value]) else e
    case Get(key, now) => if key in c.disk then c.(log := Touch(c.log, key, now)) else c
    case Vanish(gone) => c.(disk := c.disk - gone)
    case Clear => c.(size := 0, log := [], disk := map[])
    case Scan(listing) => c.(size := Total(c.disk), log := TouchAll(c.log, listing))
    case BrokenScan(listing) => c.(log := TouchAll(c.log, listing))
  }

  ghost function Run(c: Cache, ops: seq<Op>): Cache {
    if ops == [] then c else Step(Run(c, ops[..|ops| - 1]), ops[|ops| - 1])
  }

  ghost predicate Feasible(c: Cache, ops: seq<Op>) {
    forall i :: 0 <= i < |ops| ==> Possible(Run(c, ops[..i]), ops[i])
  }

  // ---------------------------------------------------------------- eviction

  /** The log entries that eviction drops, in the order it drops them. */
  ghost function Evicted(c: Cache, required: nat, stuck: set<string>): seq<LogEntry>
    decreases |c.log|
  {
    if c.size + required > c.maxSize && c.log != [] then
      [c.log[Oldest(c.log)]] + Evicted(EvictOne(c, stuck), required, stuck)
    else []
  }

  /** The bytes that dropping these entries frees. */
  ghost function Freed(disk: map<string, Bytes>, stuck: set<string>, entries: seq<LogEntry>): nat {
    if entries == [] then 0
    else Freed(disk, stuck, entries[..|entries| - 1])
         + (if entries[|entries| - 1].key in stuck then 0 else SizeAt(disk, entries[|entries| - 1].key))
  }

  /** Eviction stops only when the data fits or nothing is left to evict. */
  lemma {:induction false} EvictionStops(c: Cache, required: nat, stuck: set<string>)
    requires UniqueKeys(c.log)
    ensures var e := Evict(c, required, stuck);
            && (e.size + required <= e.maxSize || e.log == [])
            && e.maxSize == c.maxSize
            && UniqueKeys(e.log)
    decreases |c.log|
  {
    if c.size + required > c.maxSize && c.log != [] {
      WithoutKeys(c.log, Oldest(c.log));
      EvictionStops(EvictOne(c, stuck), required, stuck);
    }
  }

  /** The evicted entries and the survivors partition the access log. */
  lemma {:induction false} EvictionPartitions(c: Cache, required: nat, stuck: set<string>, x: LogEntry)
    requires UniqueKeys(c.log)
    ensures x in c.log <==> x in Evicted(c, required, stuck) || x in Evict(c, required, stuck).log
    ensures !(x in Evicted(c, required, stuck) && x in Evict(c, required, stuck).log)
    decreases |c.log|
  {
    if c.size + required > c.maxSize && c.log != [] {
      var i := Oldest(c.log);
      WithoutKeys(c.log, i);
      EvictionPartitions(EvictOne(c, stuck), required, stuck, x);
      assert x in Evicted(c, required, stuck) <==> x == c.log[i] || x in Evicted(EvictOne(c, stuck), required, stuck);
    }
  }

  /** Eviction goes in access order, and no survivor was used before an evicted file. */
  lemma {:induction false} EvictionOrder(c: Cache, required: nat, stuck: set<string>, n: nat, x: LogEntry)
    requires UniqueKeys(c.log)
    requires n < |Evicted(c, required, stuck)|
    requires x in Evicted(c, required, stuck)[n..] || x in Evict(c, required, stuck).log
    ensures Evicted(c, required, stuck)[n].at <= x.at
    decreases n
  {
    var i := Oldest(c.log);
    var d := EvictOne(c, stuck);
    WithoutKeys(c.log, i);
    var out := Evicted(c, required, stuck);
    var later := Evicted(d, required, stuck);
    assert out == [c.log[i]] + later;
    if n == 0 {
      EvictionPartitions(c, required, stuck, x);
    } else {
      assert out[n..] == later[n - 1..];
      EvictionOrder(d, required, stuck, n - 1, x);
    }
  }

  /**
   Each eviction happens only while the data does not fit: before the n-th eviction the counter, less
   what the evictions before it freed, plus the new data still exceeds the limit.
   */
  lemma {:induction false} EvictionIsNeeded(c: Cache, required: nat, stuck: set<string>, n: nat)
    requires UniqueKeys(c.log)
    requires n < |Evicted(c, required, stuck)|
    ensures c.size - Freed(c.disk, stuck, Evicted(c, required, stuck)[..n]) + required > c.maxSize
    decreases n
  {
    hide Freed;
    if n == 0 {
      NothingFreed(c.disk, stuck, Evicted(c, required, stuck));
    } else {
      var first := c.log[Oldest(c.log)];
      var d := EvictOne(c, stuck);
      var out := Evicted(c, required, stuck);
      var later := Evicted(d, required, stuck);
      WithoutKeys(c.log, Oldest(c.log));
      EvictionIsNeeded(d, required, stuck, n - 1);
      EvictedKeys(d, required, stuck);
      assert out[..n] == [first] + later[..n - 1];
      assert KeysOf(later[..n - 1]) <= KeysOf(later);
      FreedCons(c.disk, stuck, first, later[..n - 1]);
      FreedElsewhere(c.disk, first.key, stuck, later[..n - 1]);
    }
  }

  lemma NothingFreed(disk: map<string, Bytes>, stuck: set<string>, entries: seq<LogEntry>)
    ensures Freed(disk, stuck, entries[..0]) == 0
  {
  }

  lemma {:induction false} EvictedKeys(c: Cache, required: nat, stuck: set<string>)
    requires UniqueKeys(c.log)
    ensures KeysOf(Evicted(c, required, stuck)) <= KeysOf(c.log)
    decreases |c.log|
  {
    if c.size + required > c.maxSize && c.log != [] {
      var i := Oldest(c.log);
      WithoutKeys(c.log, i);
      EvictedKeys(EvictOne(c, stuck), required, stuck);
      KeysOfConcat([c.log[i]], Evicted(EvictOne(c, stuck), required, stuck));
      KeysOfOne(c.log[i]);
      assert c.log[i].key in KeysOf(c.log);
    }
  }

  /** The counter goes down by exactly what the evicted files held. */
  lemma {:induction false} EvictionFrees(c: Cache, required: nat, stuck: set<string>)
    requires UniqueKeys(c.log)
    ensures Evict(c, required, stuck).size == c.size - Freed(c.disk, stuck, Evicted(c, required, stuck))
    decreases |c.log|
  {
    if c.size + required > c.maxSize && c.log != [] {
      var first := c.log[Oldest(c.log)];
      var d := EvictOne(c, stuck);
      var later := Evicted(d, required, stuck);
      WithoutKeys(c.log, Oldest(c.log));
      EvictionFrees(d, required, stuck);
      EvictedKeys(d, required, stuck);
      FreedCons(c.disk, stuck, first, later);
      FreedElsewhere(c.disk, first.key, stuck, later);
    }
  }

  lemma RemoveOneThenRest(disk: map<string, Bytes>, k: string, rest: set<string>, stuck: set<string>)
    ensures (if k in disk && k !in stuck then disk - {k} else disk) - (rest - stuck) == disk - (({k} + rest) - stuck)
  {
  }

  /** The disk loses exactly the evicted files that can be unlinked. */
  lemma {:induction false} EvictionDeletes(c: Cache, required: nat, stuck: set<string>)
    requires UniqueKeys(c.log)
    ensures Evict(c, required, stuck).disk == c.disk - (KeysOf(Evicted(c, required, stuck)) - stuck)
    decreases |c.log|
  {
    if c.size + required > c.maxSize && c.log != [] {
      var first := c.log[Oldest(c.log)];
      var d := EvictOne(c, stuck);
      var later := Evicted(d, required, stuck);
      WithoutKeys(c.log, Oldest(c.log));
      EvictionDeletes(d, required, stuck);
      KeysOfConcat([first], later);
      KeysOfOne(first);
      RemoveOneThenRest(c.disk, first.key, KeysOf(later), stuck);
    } else {
      assert KeysOf([]) == {};
    }
  }

  lemma {:induction false} FreedCons(disk: map<string, Bytes>, stuck: set<string>, first: LogEntry,
                                     later: seq<LogEntry>)
    ensures Freed(disk, stuck, [first] + later)
         == (if first.key in stuck then 0 else SizeAt(disk, first.key)) + Freed(disk, stuck, later)
    decreases |later|
  {
    if later == [] {
      assert [first] + later == [first];
      assert [first][..0] == [];
    } else {
      var n := |later| - 1;
      assert ([first] + later)[..n + 1] == [first] + later[..n];
      FreedCons(disk, stuck, first, later[..n]);
    }
  }

  lemma {:induction false} FreedElsewhere(disk: map<string, Bytes>, k: string, stuck: set<string>,
                                          entries: seq<LogEntry>)
    requires k !in KeysOf(entries)
    ensures Freed(disk - {k}, stuck, entries) == Freed(disk, stuck, entries)
    decreases |entries|
  {
    if entries != [] {
      var n := |entries| - 1;
      assert entries[n].key in KeysOf(entries);
      assert KeysOf(entries[..n]) <= KeysOf(entries);
      FreedElsewhere(disk, k, stuck, entries[..n]);
    }
  }

  // ---------------------------------------------------------------- the ledger

  /** How far the counter is above the bytes that are really on disk. */
  ghost function Drift(c: Cache): int {
    c.size - Total(c.disk)
  }

  /** What one operation adds to the drift: the bytes overwritten in place, or lost behind the cache's back. */
  ghost function Waste(c: Cache, op: Op): nat {
    match op
    case Set(key, data, now, stuck) => SizeAt(Evict(c, |data|, stuck).disk, key)
    case FailedSet(key, required, left, stuck) =>
      if left.Some? then SizeAt(Evict(c, required, stuck).disk, key) else 0
    case Vanish(gone) => Total(Restrict(c.disk, gone))
    case _ => 0
  }

  predicate LeavesPart(op: Op) {
    op.FailedSet? && op.left.Some?
  }

  /** What one operation takes off the drift: the bytes of a failed write, which nothing counts. */
  function Stray(op: Op): nat {
    if LeavesPart(op) then |op.left.value| else 0
  }

  predicate Resets(op: Op) {
    op.Clear? || op.Scan?
  }

  /** The drift a run must end with: all waste less all stray bytes since the last clear or complete scan. */
  ghost function Account(c: Cache, ops: seq<Op>): int {
    if ops == [] then Drift(c)
    else
      var n := |ops| - 1;
      if Resets(ops[n]) then 0 else Account(c, ops[..n]) + Waste(Run(c, ops[..n]), ops[n]) - Stray(ops[n])
  }

  lemma {:induction false} EvictKeepsDrift(c: Cache, required: nat, stuck: set<string>)
    ensures Drift(Evict(c, required, stuck)) == Drift(c)
    decreases |c.log|
  {
    if c.size + required > c.maxSize && c.log != [] {
      var k := c.log[Oldest(c.log)].key;
      if k in c.disk {
        TotalRemove(c.disk, k);
      }
      EvictKeepsDrift(EvictOne(c, stuck), required, stuck);
    }
  }

  lemma StepDrift(c: Cache, op: Op)
    ensures Drift(Step(c, op)) == if Resets(op) then 0 else Drift(c) + Waste(c, op) - Stray(op)
  {
    match op
    case Set(key, data, now, stuck) =>
      EvictKeepsDrift(c, |data|, stuck);
      TotalUpdate(Evict(c, |data|, stuck).disk, key, data);
    case FailedSet(key, required, left, stuck) =>
      EvictKeepsDrift(c, required, stuck);
      if left.Some? {
        TotalUpdate(Evict(c, required, stuck).disk, key, left.value);
      }
    case Vanish(gone) =>
      TotalSplit(c.disk, gone);
    case _ =>
  }

  /** The ledger balances over every run. */
  lemma {:induction false} LedgerBalances(c: Cache, ops: seq<Op>)
    ensures Drift(Run(c, ops)) == Account(c, ops)
    decreases |ops|
  {
    if ops != [] {
      var n := |ops| - 1;
      LedgerBalances(c, ops[..n]);
      StepDrift(Run(c, ops[..n]), ops[n]);
    }
  }

  ghost predicate NoWaste(c: Cache, ops: seq<Op>) {
    forall i :: 0 <= i < |ops| ==> Waste(Run(c, ops[..i]), ops[i]) == 0
  }

  lemma {:induction false} AccountBounds(c: Cache, ops: seq<Op>)
    requires Drift(c) == 0
    requires forall i :: 0 <= i < |ops| ==> !Resets(ops[i]) && !LeavesPart(ops[i])
    ensures Account(c, ops) >= 0
    ensures Account(c, ops) == 0 <==> NoWaste(c, ops)
    decreases |ops|
  {
    hide Run, Waste, Drift;
    if ops != [] {
      var n := |ops| - 1;
      var init := ops[..n];
      AccountBounds(c, init);
      assert forall i :: 0 <= i < n ==> ops[..i] == init[..i] && ops[i] == init[i];
    }
  }

  /**
   From a fresh count, the counter is never below the bytes on disk, and it is exact as long as no
   live file is overwritten and none disappears, and not otherwise.
   */
  lemma CounterIsExactWhen(c: Cache, ops: seq<Op>)
    requires Drift(c) == 0
    requires forall i :: 0 <= i < |ops| ==> !Resets(ops[i]) && !LeavesPart(ops[i])
    ensures Total(Run(c, ops).disk) <= Run(c, ops).size
    ensures Total(Run(c, ops).disk) == Run(c, ops).size <==> NoWaste(c, ops)
  {
    LedgerBalances(c, ops);
    AccountBounds(c, ops);
  }

  // ---------------------------------------------------------------- the space bound

  ghost predicate Sound(c: Cache) {
    Drift(c) >= 0 && UniqueKeys(c.log)
  }

  /** No failed unlink, no failed scan and no partial write: then every file stays evictable. */
  ghost predicate Clean(op: Op) {
    (op.Set? || op.FailedSet? ==> op.stuck == {}) && !op.BrokenScan? && !LeavesPart(op)
  }

  /** What eviction could not remove: the files it does not know, and the evicted ones that are stuck. */
  ghost function Unreached(c: Cache, required: nat, stuck: set<string>): map<string, Bytes> {
    Restrict(c.disk, (c.disk.Keys - KeysOf(c.log)) + stuck * KeysOf(Evicted(c, required, stuck)))
  }

  lemma UnreachedStep(c: Cache, d: Cache, k: string, later: set<string>, stuck: set<string>)
    requires k in KeysOf(c.log) && KeysOf(d.log) == KeysOf(c.log) - {k} && later <= KeysOf(d.log)
    requires d.disk == if k in c.disk && k !in stuck then c.disk - {k} else c.disk
    ensures Restrict(d.disk, (d.disk.Keys - KeysOf(d.log)) + stuck * later)
         == Restrict(c.disk, (c.disk.Keys - KeysOf(c.log)) + stuck * ({k} + later))
  {
  }

  /** After eviction the files the log does not know are exactly those it could not remove. */
  lemma {:induction false} EvictionLeaves(c: Cache, required: nat, stuck: set<string>)
    requires UniqueKeys(c.log)
    ensures Unlogged(Evict(c, required, stuck)) == Unreached(c, required, stuck)
    decreases |c.log|
  {
    hide KeysOf, UniqueKeys;
    if c.size + required > c.maxSize && c.log != [] {
      var first := c.log[Oldest(c.log)];
      var d := EvictOne(c, stuck);
      var later := Evicted(d, required, stuck);
      WithoutKeys(c.log, Oldest(c.log));
      EvictionLeaves(d, required, stuck);
      EvictedKeys(d, required, stuck);
      KeysOfConcat([first], later);
      KeysOfOne(first);
      KeyOfMember(c.log, Oldest(c.log));
      UnreachedStep(c, d, first.key, KeysOf(later), stuck);
    } else {
      NoKeys();
      assert Unlogged(c) == Unreached(c, required, stuck);
    }
  }

  lemma KeyOfMember(log: seq<LogEntry>, i: nat)
    requires i < |log|
    ensures log[i].key in KeysOf(log)
  {
  }

  lemma {:induction false} StepKeepsUnique(c: Cache, op: Op)
    requires UniqueKeys(c.log)
    ensures UniqueKeys(Step(c, op).log) && Step(c, op).maxSize == c.maxSize
  {
    hide UniqueKeys;
    if op.Set? {
      EvictionStops(c, |op.data|, op.stuck);
      TouchUnique(Evict(c, |op.data|, op.stuck).log, op.key, op.now);
    } else if op.FailedSet? {
      EvictionStops(c, op.required, op.stuck);
    } else if op.Get? {
      TouchUnique(c.log, op.key, op.now);
    } else if op.Scan? || op.BrokenScan? {
      TouchAllKeys(c.log, op.listing);
    } else if op.Clear? {
      UniqueNone();
    }
  }

  lemma {:induction false} RunKeepsUnique(c: Cache, ops: seq<Op>)
    requires UniqueKeys(c.log)
    ensures UniqueKeys(Run(c, ops).log) && Run(c, ops).maxSize == c.maxSize
    decreases |ops|
  {
    hide UniqueKeys, Step;
    if ops != [] {
      RunKeepsUnique(c, ops[..|ops| - 1]);
      StepKeepsUnique(Run(c, ops[..|ops| - 1]), ops[|ops| - 1]);
    }
  }

  /** The files that an operation can hide from the log: those it fails to unlink or to write. */
  ghost function Hides(op: Op): set<string> {
    match op
    case Set(_, _, _, stuck) => stuck
    case FailedSet(key, _, left, stuck) => stuck + if left.Some? then {key} else {}
    case _ => {}
  }

  lemma StepIsSound(c: Cache, op: Op)
    requires Sound(c) && !LeavesPart(op)
    ensures Sound(Step(c, op)) && Step(c, op).maxSize == c.maxSize
  {
    hide Drift, Waste, UniqueKeys, Step;
    StepDrift(c, op);
    StepKeepsUnique(c, op);
  }

  lemma {:induction false} RunIsSound(c: Cache, ops: seq<Op>)
    requires Sound(c)
    requires forall i :: 0 <= i < |ops| ==> !LeavesPart(ops[i])
    ensures Sound(Run(c, ops)) && Run(c, ops).maxSize == c.maxSize
    decreases |ops|
  {
    hide Sound, Step;
    if ops != [] {
      RunIsSound(c, ops[..|ops| - 1]);
      StepIsSound(Run(c, ops[..|ops| - 1]), ops[|ops| - 1]);
    }
  }

  ghost predicate Submap(a: map<string, Bytes>, b: map<string, Bytes>) {
    forall k :: k in a ==> k in b && a[k] == b[k]
  }

  lemma SubmapTotal(a: map<string, Bytes>, b: map<string, Bytes>)
    requires Submap(a, b)
    ensures Total(a) <= Total(b)
  {
    TotalSplit(b, a.Keys);
    assert Restrict(b, a.Keys) == a;
  }

  // ---------------------------------------------------------------- one write

  /** What a write of `key` leaves beside its own file once nothing more can be evicted. */
  ghost function Hidden(c: Cache, key: string, required: nat, stuck: set<string>): nat {
    Total(Unreached(c, required, stuck) - {key})
  }

  /** The hidden files are on disk after the write, beside the file just written. */
  lemma HiddenAfterSet(c: Cache, key: string, data: Bytes, now: int, stuck: set<string>)
    requires UniqueKeys(c.log)
    ensures var c' := Step(c, Set(key, data, now, stuck));
            && Unlogged(c') == Unreached(c, |data|, stuck) - {key}
            && |data| + Hidden(c, key, |data|, stuck) <= Total(c'.disk)
  {
    hide KeysOf, UniqueKeys, Unreached;
    var e := Evict(c, |data|, stuck);
    var c' := Step(c, Set(key, data, now, stuck));
    EvictionLeaves(c, |data|, stuck);
    TouchKeys(e.log, key, now);
    assert Unlogged(c') == Unlogged(e) - {key};
    TotalUpdate(e.disk, key, data);
    SubmapTotal(Unlogged(c'), e.disk - {key});
  }

  /**
   The bytes on disk after any write, from any state at all: they fit the limit less the drift, or
   they are the data just written together with the files that no eviction can reach.
   */
  lemma BytesAfterSet(c: Cache, key: string, data: Bytes, now: int, stuck: set<string>)
    requires UniqueKeys(c.log)
    ensures var c' := Step(c, Set(key, data, now, stuck));
            || Total(c'.disk) <= c.maxSize - Drift(c')
            || Total(c'.disk) == |data| + Hidden(c, key, |data|, stuck)
  {
    hide UniqueKeys, Unreached;
    EvictionStops(c, |data|, stuck);
    var e := Evict(c, |data|, stuck);
    if e.log == [] {
      NoKeys();
      HiddenAfterSet(c, key, data, now, stuck);
      EvictionLeaves(c, |data|, stuck);
      assert Unlogged(e) == e.disk;
      TotalUpdate(e.disk, key, data);
    }
  }

  /** The promised bound on the bytes on disk after a write. */
  ghost predicate Bounded(c: Cache, key: string, data: Bytes, now: int, stuck: set<string>) {
    Total(Step(c, Set(key, data, now, stuck)).disk) <= Max(c.maxSize, |data|)
  }

  /**
   One write from a state whose counter is not below the bytes on disk keeps the bound if and only if
   the hidden files are empty or fit into the limit beside the data.
   */
  lemma SetBoundExactly(c: Cache, key: string, data: Bytes, now: int, stuck: set<string>)
    requires Sound(c)
    ensures var hidden := Hidden(c, key, |data|, stuck);
            Bounded(c, key, data, now, stuck) <==> hidden == 0 || |data| + hidden <= c.maxSize
  {
    hide UniqueKeys, Hidden;
    StepIsSound(c, Set(key, data, now, stuck));
    BytesAfterSet(c, key, data, now, stuck);
    HiddenAfterSet(c, key, data, now, stuck);
  }

  /** When every unlink succeeds, the hidden files are those the log does not know before the write. */
  lemma HiddenWithoutStuck(c: Cache, key: string, required: nat)
    ensures Hidden(c, key, required, {}) == Total(Unlogged(c) - {key})
  {
    assert Unreached(c, required, {}) == Unlogged(c);
  }

  // ---------------------------------------------------------------- whole runs

  /** Only a failed unlink or a failed write can leave a file that the log does not know. */
  lemma StepKeepsCover(c: Cache, op: Op)
    requires UniqueKeys(c.log) && Possible(c, op)
    ensures Unlogged(Step(c, op)).Keys <= Unlogged(c).Keys + Hides(op)
  {
    match op
    case Set(key, data, now, stuck) =>
      HiddenAfterSet(c, key, data, now, stuck);
    case FailedSet(key, required, left, stuck) =>
      var e := Evict(c, required, stuck);
      EvictionLeaves(c, required, stuck);
      assert Unlogged(e).Keys <= Unlogged(c).Keys + stuck;
      assert Unlogged(Step(c, op)).Keys <= Unlogged(e).Keys + if left.Some? then {key} else {};
    case Get(key, now) => TouchKeys(c.log, key, now);
    case Scan(listing) => TouchAllKeys(c.log, listing);
    case BrokenScan(listing) => TouchAllKeys(c.log, listing);
    case _ =>
  }

  /** A clean operation adds no file that the log does not know, and changes none. */
  lemma CleanStepHidesNothing(c: Cache, op: Op)
    requires UniqueKeys(c.log) && Possible(c, op) && Clean(op)
    ensures Submap(Unlogged(Step(c, op)), Unlogged(c))
  {
    match op
    case Set(key, data, now, stuck) =>
      HiddenAfterSet(c, key, data, now, stuck);
      assert Unreached(c, |data|, stuck) == Unlogged(c);
    case FailedSet(key, required, left, stuck) =>
      EvictionLeaves(c, required, stuck);
    case Get(key, now) => TouchKeys(c.log, key, now);
    case Scan(listing) => TouchAllKeys(c.log, listing);
    case _ =>
  }

  ghost predicate CleanRun(c: Cache, ops: seq<Op>) {
    Feasible(c, ops) && forall i :: 0 <= i < |ops| ==> Clean(ops[i])
  }

  lemma CleanPrefix(c: Cache, ops: seq<Op>)
    requires CleanRun(c, ops) && ops != []
    ensures CleanRun(c, ops[..|ops| - 1])
    ensures Possible(Run(c, ops[..|ops| - 1]), ops[|ops| - 1]) && Clean(ops[|ops| - 1])
  {
    hide Run, Possible, Clean;
    var prefix := ops[..|ops| - 1];
    assert forall i :: 0 <= i < |prefix| ==> prefix[..i] == ops[..i] && prefix[i] == ops[i];
  }

  /** Over clean runs the files that the log does not know only become fewer. */
  lemma {:induction false} RunStaysCovered(c: Cache, ops: seq<Op>)
    requires UniqueKeys(c.log) && CleanRun(c, ops)
    ensures Submap(Unlogged(Run(c, ops)), Unlogged(c))
    decreases |ops|
  {
    hide Step, Unlogged, Possible, UniqueKeys, CleanRun;
    if ops != [] {
      var n := |ops| - 1;
      CleanPrefix(c, ops);
      RunStaysCovered(c, ops[..n]);
      RunKeepsUnique(c, ops[..n]);
      CleanStepHidesNothing(Run(c, ops[..n]), ops[n]);
    }
  }

  /** The space bound over whole runs, whatever unlinks and scans fail on the way. */
  lemma SpaceBound(c: Cache, ops: seq<Op>, key: string, data: Bytes, now: int, stuck: set<string>)
    requires Sound(c)
    requires forall i :: 0 <= i < |ops| ==> !LeavesPart(ops[i])
    ensures var d := Run(c, ops);
            Total(Step(d, Set(key, data, now, stuck)).disk)
              <= Max(c.maxSize, |data| + Hidden(d, key, |data|, stuck))
  {
    hide Run, Step, Sound, Hidden;
    var d := Run(c, ops);
    RunIsSound(c, ops);
    SpaceAfterSet(d, key, data, now, stuck);
  }

  lemma SpaceAfterSet(c: Cache, key: string, data: Bytes, now: int, stuck: set<string>)
    requires Sound(c)
    ensures Total(Step(c, Set(key, data, now, stuck)).disk) <= Max(c.maxSize, |data| + Hidden(c, key, |data|, stuck))
  {
    hide UniqueKeys, Hidden;
    StepIsSound(c, Set(key, data, now, stuck));
    BytesAfterSet(c, key, data, now, stuck);
  }

  /** After every run the next write meets the promised bound exactly under the same condition. */
  lemma RunBoundExactly(c: Cache, ops: seq<Op>, key: string, data: Bytes, now: int, stuck: set<string>)
    requires Sound(c)
    requires forall i :: 0 <= i < |ops| ==> !LeavesPart(ops[i])
    ensures var d := Run(c, ops);
            var hidden := Hidden(d, key, |data|, stuck);
            Bounded(d, key, data, now, stuck) <==> hidden == 0 || |data| + hidden <= c.maxSize
  {
    hide Run, Bounded, Sound, Hidden;
    RunIsSound(c, ops);
    SetBoundExactly(Run(c, ops), key, data, now, stuck);
  }

  /** The bound the cache is built for: with no failure, at most the limit or the data itself. */
  lemma CleanSpaceBound(c: Cache, ops: seq<Op>, key: string, data: Bytes, now: int)
    requires UniqueKeys(c.log) && Safe(c) && CleanRun(c, ops)
    ensures Bounded(Run(c, ops), key, data, now, {})
  {
    hide Run, Step, Unlogged, CleanRun, UniqueKeys, Drift;
    var d := Run(c, ops);
    RunKeepsUnique(c, ops);
    RunStaysCovered(c, ops);
    SubmapTotal(Unlogged(d), Unlogged(c));
    SubmapTotal(Unlogged(d) - {key}, Unlogged(d));
    HiddenWithoutStuck(d, key, |data|);
    CleanRunKeepsDrift(c, ops);
    BytesAfterSet(d, key, data, now, {});
    StepDrift(d, Set(key, data, now, {}));
  }

  /**
   The counter is not below the bytes on disk, and the files the log does not know are all empty.  (Under a
   negative limit the counter may be too low by as much as the limit.)
   */
  ghost predicate Safe(c: Cache) {
    Drift(c) >= Min(0, c.maxSize) && Total(Unlogged(c)) == 0
  }

  lemma {:induction false} CleanRunKeepsDrift(c: Cache, ops: seq<Op>)
    requires Drift(c) >= Min(0, c.maxSize) && CleanRun(c, ops)
    ensures Drift(Run(c, ops)) >= Min(0, c.maxSize)
    decreases |ops|
  {
    hide Step, Drift, Possible, CleanRun;
    if ops != [] {
      CleanPrefix(c, ops);
      CleanRunKeepsDrift(c, ops[..|ops| - 1]);
      StepDrift(Run(c, ops[..|ops| - 1]), ops[|ops| - 1]);
    }
  }

  /** Every write after every clean run meets the bound. */
  ghost predicate AlwaysBounded(c: Cache) {
    forall ops, key, data, now :: CleanRun(c, ops) ==> Bounded(Run(c, ops), key, data, now, {})
  }

  /**
   A state, however it came about, keeps the bound for good if and only if it is safe: a failed scan,
   a failed unlink or a failed write that leaves it unsafe breaks the bound for some later write.
   */
  lemma AlwaysBoundedExactly(c: Cache)
    requires UniqueKeys(c.log)
    ensures AlwaysBounded(c) <==> Safe(c)
  {
    hide Run, Bounded, CleanRun, UniqueKeys;
    if Safe(c) {
      forall ops, key, data, now | CleanRun(c, ops)
        ensures Bounded(Run(c, ops), key, data, now, {})
      {
        CleanSpaceBound(c, ops, key, data, now);
      }
    } else if Total(Unlogged(c)) > 0 {
      HiddenFileBreaks(c);
    } else {
      LowCounterBreaks(c);
    }
  }

  lemma {:induction false} LongerThanAll(keys: set<string>) returns (k: string)
    ensures forall s :: s in keys ==> |s| < |k|
    decreases keys
  {
    if s :| s in keys {
      var k' := LongerThanAll(keys - {s});
      k := k' + s + "x";
      assert forall t :: t in keys ==> t == s || t in keys - {s};
    } else {
      k := "x";
    }
  }

  function Zeros(n: nat): (b: Bytes)
    ensures |b| == n
  {
    seq(n, _ => 0)
  }

  lemma EmptyRun(c: Cache)
    ensures CleanRun(c, []) && Run(c, []) == c
  {
  }

  lemma OneSet(c: Cache, key: string, data: Bytes)
    ensures CleanRun(c, [Set(key, data, 0, {})])
    ensures Run(c, [Set(key, data, 0, {})]) == Step(c, Set(key, data, 0, {}))
  {
    assert [Set(key, data, 0, {})][..0] == [];
  }

  lemma HiddenFileBreaks(c: Cache)
    requires UniqueKeys(c.log) && Total(Unlogged(c)) > 0
    ensures !AlwaysBounded(c)
  {
    hide Run, Step, CleanRun, UniqueKeys, Unlogged, KeysOf;
    var key := LongerThanAll(Unlogged(c).Keys);
    var data := Zeros(Max(c.maxSize, 0));
    assert Unlogged(c) - {key} == Unlogged(c);
    HiddenWithoutStuck(c, key, |data|);
    HiddenAfterSet(c, key, data, 0, {});
    EmptyRun(c);
    assert !Bounded(Run(c, []), key, data, 0, {});
  }

  lemma NothingLeft(c: Cache)
    requires UniqueKeys(c.log) && Evict(c, 1, {}).log == []
    ensures Evict(c, 1, {}).disk == Unlogged(c)
  {
    hide UniqueKeys, Evict, Evicted;
    NoKeys();
    EvictionLeaves(c, 1, {});
    assert Unlogged(Evict(c, 1, {})) == Evict(c, 1, {}).disk;
    assert Unreached(c, 1, {}) == Unlogged(c);
  }

  /** A write of one byte from a state whose counter is too low, all of whose files can be evicted. */
  lemma OneByteFits(c: Cache, key: string)
    requires UniqueKeys(c.log) && Total(Unlogged(c)) == 0 && Drift(c) < Min(0, c.maxSize) && key !in c.disk
    ensures var d := Step(c, Set(key, Zeros(1), 0, {}));
            d.size <= c.maxSize && Drift(d) == Drift(c) && Total(d.disk) > 0
  {
    hide UniqueKeys, Evict, Evicted, KeysOf, Unreached;
    var data := Zeros(1);
    var e := Evict(c, 1, {});
    EvictionStops(c, 1, {});
    EvictKeepsDrift(c, 1, {});
    EvictionDeletes(c, 1, {});
    assert key !in e.disk;
    StepDrift(c, Set(key, data, 0, {}));
    TotalUpdate(e.disk, key, data);
    if e.log == [] {
      NothingLeft(c);
    }
  }

  lemma LowCounterBreaks(c: Cache)
    requires UniqueKeys(c.log) && Total(Unlogged(c)) == 0 && Drift(c) < Min(0, c.maxSize)
    ensures !AlwaysBounded(c)
  {
    hide Run, CleanRun, UniqueKeys, Unlogged, KeysOf, Waste;
    var first := LongerThanAll(c.disk.Keys);
    OneByteFits(c, first);
    var d := Step(c, Set(first, Zeros(1), 0, {}));
    var key := LongerThanAll(d.disk.Keys);
    var data := Zeros(c.maxSize - d.size);
    StepKeepsUnique(c, Set(first, Zeros(1), 0, {}));
    assert Evict(d, |data|, {}) == d;
    TotalUpdate(d.disk, key, data);
    OneSet(c, first, Zeros(1));
    assert !Bounded(Run(c, [Set(first, Zeros(1), 0, {})]), key, data, 0, {});
  }

  /** A completed scan establishes the invariants whatever the state before it. */
  lemma ScanEstablishes(c: Cache, listing: seq<LogEntry>)
    requires UniqueKeys(c.log) && Lists(listing, c.disk)
    ensures var c' := Step(c, Scan(listing));
            Sound(c') && Drift(c') == 0 && Unlogged(c') == map[]
  {
    TouchAllKeys(c.log, listing);
  }

  /** A failed scan, whose error `init` swallows, really does break the bound. */
  lemma BrokenScanBreaksTheBound()
    ensures exists c: Cache, ops: seq<Op>, key: string, data: Bytes ::
              && Feasible(c, ops) && c.size == 0 && c.log == []
              && Total(Step(Run(c, ops), Set(key, data, 0, {})).disk) > Max(c.maxSize, |data|)
  {
    var c := Cache(2, 0, [], map["a" := [1, 2]]);
    var ops := [BrokenScan([])];
    var data: Bytes := [3];
    assert ops[..0] == [];
    assert Possible(Run(c, ops[..0]), ops[0]);
    assert Run(c, ops) == c;
    var c' := Step(c, Set("b", data, 0, {}));
    assert c'.disk == c.disk["b" := data];
    TotalUpdate(c.disk, "b", data);
    TotalRemove(c.disk, "a");
    assert Total(Step(Run(c, ops), Set("b", data, 0, {})).disk) > Max(c.maxSize, |data|);
  }

  /** So does one failed unlink, even in an otherwise exact state. */
  lemma FailedUnlinkBreaksTheBound()
    ensures exists c: Cache, key: string, data: Bytes, stuck: set<string> ::
              Sound(c) && Drift(c) == 0 && Unlogged(c) == map[] && !Bounded(c, key, data, 0, stuck)
  {
    var c := Cache(2, 2, [LogEntry("a", 0)], map["a" := [1, 2]]);
    var data: Bytes := [3];
    TotalRemove(c.disk, "a");
    assert c.disk - {"a"} == map[];
    KeysOfOne(c.log[0]);
    NoKeys();
    assert Without(c.log, 0) == [];
    assert Evict(c, 1, {"a"}) == c.(log := []);
    TotalUpdate(c.disk, "b", data);
    assert !Bounded(c, "b", data, 0, {"a"});
  }

  // ---------------------------------------------------------------- what a run remembers

  /** The time under which a log, or a listing, has the key. */
  ghost function TimeOf(log: seq<LogEntry>, key: string): Option<int> {
    if log == [] then None
    else if log[|log| - 1].key == key then Some(log[|log| - 1].at)
    else TimeOf(log[..|log| - 1], key)
  }

  /** The time at which an operation uses the key: writes it, reads it with success, or finds it in a scan. */
  ghost function UsedAt(before: Cache, op: Op, key: string): Option<int> {
    match op
    case Set(k, _, now, _) => if k == key then Some(now) else None
    case Get(k, now) => if k == key && key in before.disk then Some(now) else None
    case Scan(listing) => TimeOf(listing, key)
    case BrokenScan(listing) => TimeOf(listing, key)
    case _ => None
  }

  /** An operation evicts the key from the log, whether or not its file can be unlinked. */
  ghost predicate Evicts(before: Cache, op: Op, key: string) {
    match op
    case Set(_, data, _, stuck) => key in KeysOf(Evicted(before, |data|, stuck))
    case FailedSet(_, required, _, stuck) => key in KeysOf(Evicted(before, required, stuck))
    case _ => false
  }

  /** The last use of the key since it was last evicted or everything was cleared. */
  ghost function LastUse(c: Cache, ops: seq<Op>, key: string): Option<int> {
    if ops == [] then TimeOf(c.log, key)
    else
      var n := |ops| - 1;
      var before := Run(c, ops[..n]);
      if UsedAt(before, ops[n], key).Some? then UsedAt(before, ops[n], key)
      else if ops[n].Clear? || Evicts(before, ops[n], key) then None
      else LastUse(c, ops[..n], key)
  }

  lemma {:induction false} TimeOfMember(log: seq<LogEntry>, key: string)
    ensures TimeOf(log, key).Some? <==> key in KeysOf(log)
    ensures TimeOf(log, key).Some? ==> LogEntry(key, TimeOf(log, key).value) in log
    decreases |log|
  {
    if log != [] {
      var n := |log| - 1;
      TimeOfMember(log[..n], key);
      assert log == log[..n] + [log[n]];
      KeysOfConcat(log[..n], [log[n]]);
      KeysOfOne(log[n]);
    }
  }

  lemma {:induction false} TimeOfUnique(log: seq<LogEntry>, x: LogEntry)
    requires UniqueKeys(log)
    ensures x in log <==> TimeOf(log, x.key) == Some(x.at)
  {
    TimeOfMember(log, x.key);
    if x in log {
      assert x.key in KeysOf(log);
      var y := LogEntry(x.key, TimeOf(log, x.key).value);
      var i :| 0 <= i < |log| && log[i] == x;
      var j :| 0 <= j < |log| && log[j] == y;
      assert i < j ==> log[i].key != log[j].key;
    }
  }

  lemma SameTime(a: seq<LogEntry>, b: seq<LogEntry>, key: string)
    requires UniqueKeys(a) && UniqueKeys(b)
    requires forall at :: LogEntry(key, at) in a <==> LogEntry(key, at) in b
    ensures TimeOf(a, key) == TimeOf(b, key)
  {
    hide UniqueKeys, TimeOf;
    if TimeOf(a, key).Some? {
      TimeOfUnique(a, LogEntry(key, TimeOf(a, key).value));
      TimeOfUnique(b, LogEntry(key, TimeOf(a, key).value));
    }
    if TimeOf(b, key).Some? {
      TimeOfUnique(a, LogEntry(key, TimeOf(b, key).value));
      TimeOfUnique(b, LogEntry(key, TimeOf(b, key).value));
    }
  }

  lemma TouchTime(log: seq<LogEntry>, k: string, at: int, key: string)
    requires UniqueKeys(log)
    ensures TimeOf(Touch(log, k, at), key) == if k == key then Some(at) else TimeOf(log, key)
  {
    hide UniqueKeys, TimeOf, Touch;
    TouchUnique(log, k, at);
    if k == key {
      TouchExactly(log, k, at, LogEntry(k, at));
      TimeOfUnique(Touch(log, k, at), LogEntry(k, at));
    } else {
      forall t
        ensures LogEntry(key, t) in Touch(log, k, at) <==> LogEntry(key, t) in log
      {
        TouchExactly(log, k, at, LogEntry(key, t));
      }
      SameTime(Touch(log, k, at), log, key);
    }
  }

  lemma {:induction false} TouchAllTime(log: seq<LogEntry>, listing: seq<LogEntry>, key: string)
    requires UniqueKeys(log)
    ensures TimeOf(TouchAll(log, listing), key)
         == if TimeOf(listing, key).Some? then TimeOf(listing, key) else TimeOf(log, key)
    decreases |listing|
  {
    hide UniqueKeys, Touch, KeysOf;
    if listing != [] {
      var n := |listing| - 1;
      TouchAllTime(log, listing[..n], key);
      TouchAllKeys(log, listing[..n]);
      TouchTime(TouchAll(log, listing[..n]), listing[n].key, listing[n].at, key);
    }
  }

  lemma EvictTime(c: Cache, required: nat, stuck: set<string>, key: string)
    requires UniqueKeys(c.log)
    ensures TimeOf(Evict(c, required, stuck).log, key)
         == if key in KeysOf(Evicted(c, required, stuck)) then None else TimeOf(c.log, key)
  {
    hide UniqueKeys, TimeOf, Evict, Evicted;
    var e, out := Evict(c, required, stuck), Evicted(c, required, stuck);
    EvictionStops(c, required, stuck);
    TimeOfMember(c.log, key);
    TimeOfMember(e.log, key);
    if key in KeysOf(out) {
      var x :| x in out && x.key == key;
      EvictionPartitions(c, required, stuck, x);
      if TimeOf(e.log, key).Some? {
        var y := LogEntry(key, TimeOf(e.log, key).value);
        EvictionPartitions(c, required, stuck, y);
        TimeOfUnique(c.log, x);
        TimeOfUnique(c.log, y);
      }
    } else {
      forall at
        ensures LogEntry(key, at) in e.log <==> LogEntry(key, at) in c.log
      {
        EvictionPartitions(c, required, stuck, LogEntry(key, at));
      }
      SameTime(e.log, c.log, key);
    }
  }

  lemma StepTime(c: Cache, op: Op, key: string)
    requires UniqueKeys(c.log)
    ensures TimeOf(Step(c, op).log, key)
         == if UsedAt(c, op, key).Some? then UsedAt(c, op, key)
            else if op.Clear? || Evicts(c, op, key) then None
            else TimeOf(c.log, key)
  {
    hide UniqueKeys, KeysOf, Evict, Evicted, Touch;
    match op
    case Set(k, data, now, stuck) =>
      EvictionStops(c, |data|, stuck);
      TouchTime(Evict(c, |data|, stuck).log, k, now, key);
      EvictTime(c, |data|, stuck, key);
    case FailedSet(k, required, left, stuck) =>
      EvictTime(c, required, stuck, key);
    case Get(k, now) =>
      TouchTime(c.log, k, now, key);
    case Scan(listing) =>
      TouchAllTime(c.log, listing, key);
    case BrokenScan(listing) =>
      TouchAllTime(c.log, listing, key);
    case _ =>
  }

  /**
   The access log, exactly, over every run: it has a key if and only if the key was used and not evicted or
   cleared since, under the time of its last use.
   */
  lemma {:induction false} LogIsLastUse(c: Cache, ops: seq<Op>, key: string)
    requires UniqueKeys(c.log)
    ensures TimeOf(Run(c, ops).log, key) == LastUse(c, ops, key)
    decreases |ops|
  {
    hide UniqueKeys, Step, TimeOf, UsedAt, Evicts;
    if ops != [] {
      var n := |ops| - 1;
      LogIsLastUse(c, ops[..n], key);
      RunKeepsUnique(c, ops[..n]);
      StepTime(Run(c, ops[..n]), ops[n], key);
    }
  }

  /** Eviction is least recently used first: after any run, no evicted key was used later than a kept one. */
  lemma EvictsLeastRecentlyUsed(c: Cache, ops: seq<Op>, required: nat, stuck: set<string>, out: string, kept: string)
    requires UniqueKeys(c.log)
    requires out in KeysOf(Evicted(Run(c, ops), required, stuck))
    requires kept in KeysOf(Evict(Run(c, ops), required, stuck).log)
    ensures LastUse(c, ops, out).Some? && LastUse(c, ops, kept).Some?
    ensures LastUse(c, ops, out).value <= LastUse(c, ops, kept).value
  {
    hide UniqueKeys, Run, TimeOf, LastUse, Evict, Evicted;
    var d := Run(c, ops);
    RunKeepsUnique(c, ops);
    LogIsLastUse(c, ops, out);
    LogIsLastUse(c, ops, kept);
    var x :| x in Evicted(d, required, stuck) && x.key == out;
    var y :| y in Evict(d, required, stuck).log && y.key == kept;
    EvictionPartitions(d, required, stuck, x);
    EvictionPartitions(d, required, stuck, y);
    TimeOfUnique(d.log, x);
    TimeOfUnique(d.log, y);
    var n :| 0 <= n < |Evicted(d, required, stuck)| && Evicted(d, required, stuck)[n] == x;
    EvictionOrder(d, required, stuck, n, y);
  }

  ghost function FileAt(disk: map<string, Bytes>, key: string): Option<Bytes> {
    if key in disk then Some(disk[key]) else None
  }

  ghost function Unlinks(before: Cache, op: Op): set<string> {
    match op
    case Set(_, data, _, stuck) => KeysOf(Evicted(before, |data|, stuck)) - stuck
    case FailedSet(_, required, _, stuck) => KeysOf(Evicted(before, required, stuck)) - stuck
    case Vanish(gone) => gone
    case _ => {}
  }

  /** What was last written under the key and not unlinked, lost or cleared since. */
  ghost function LastWritten(c: Cache, ops: seq<Op>, key: string): Option<Bytes> {
    if ops == [] then FileAt(c.disk, key)
    else
      var n := |ops| - 1;
      var op := ops[n];
      if op.Set? && op.key == key then Some(op.data)
      else if op.FailedSet? && op.key == key && op.left.Some? then op.left
      else if op.Clear? || key in Unlinks(Run(c, ops[..n]), op) then None
      else LastWritten(c, ops[..n], key)
  }

  /** The disk, exactly, over every run; a read returns what was last written. */
  lemma {:induction false} DiskIsLastWritten(c: Cache, ops: seq<Op>, key: string)
    requires UniqueKeys(c.log)
    ensures FileAt(Run(c, ops).disk, key) == LastWritten(c, ops, key)
    decreases |ops|
  {
    hide UniqueKeys, KeysOf, Evict, Evicted;
    if ops != [] {
      var n := |ops| - 1;
      var before := Run(c, ops[..n]);
      DiskIsLastWritten(c, ops[..n], key);
      RunKeepsUnique(c, ops[..n]);
      match ops[n]
      case Set(_, data, _, stuck) => EvictionDeletes(before, |data|, stuck);
      case FailedSet(_, required, _, stuck) => EvictionDeletes(before, required, stuck);
      case _ =>
    }
  }

  // ---------------------------------------------------------------- the class

  class FileCache {
    const maxSize: int
    var currentSize: int
    var accessLog: seq<LogEntry>
    var disk: map<string, Bytes>

    ghost function State(): Cache
      reads this
    {
      Cache(maxSize, currentSize, accessLog, disk)
    }

    constructor (maxSizeMB: int, disk: map<string, Bytes>)
      ensures State() == Cache(maxSizeMB * 1024 * 1024, 0, [], disk)
    {
      maxSize := maxSizeMB * 1024 * 1024;
      currentSize := 0;
      accessLog := [];
      this.disk := disk;
    }

    /** The scan in `init`; `failAt` is the entry whose `stat` fails, if one does. */
    method CalculateSize(listing: seq<LogEntry>, failAt: Option<nat>)
      requires Lists(listing, disk)
      requires failAt.Some? ==> failAt.value < |listing|
      modifies this`currentSize, this`accessLog
      ensures State() == Step(old(State()), if failAt.None? then Scan(listing) else BrokenScan(listing[..failAt.value]))
    {
      hide Total, TouchAll, Touch, Restrict, KeysOf;
      var totalSize := 0;
      NothingListed(disk, accessLog, listing);
      for i := 0 to |listing|
        invariant failAt.Some? ==> i <= failAt.value
        invariant currentSize == old(currentSize) && disk == old(disk)
        invariant accessLog == TouchAll(old(accessLog), listing[..i])
        invariant totalSize == Total(Restrict(disk, KeysOf(listing[..i])))
      {
        if failAt == Some(i) {
          return;
        }
        AddListed(disk, listing, i);
        ExtendTouchAll(old(accessLog), listing, i);
        totalSize := totalSize + |disk[listing[i].key]|;
        accessLog := Touch(accessLog, listing[i].key, listing[i].at);
      }
      assert listing[..|listing|] == listing;
      RestrictToAll(disk);
      currentSize := totalSize;
    }

    method EvictIfNeeded(requiredSpace: nat, stuck: set<string>)
      modifies this`currentSize, this`accessLog, this`disk
      ensures State() == Evict(old(State()), requiredSpace, stuck)
    {
      while currentSize + requiredSpace > maxSize && |accessLog| > 0
        invariant Evict(State(), requiredSpace, stuck) == Evict(old(State()), requiredSpace, stuck)
        decreases |accessLog|
      {
        var i := Oldest(accessLog);
        var fileName := accessLog[i].key;
        if fileName in disk && fileName !in stuck {
          currentSize := currentSize - |disk[fileName]|;
          disk := disk - {fileName};
        }
        accessLog := Without(accessLog, i);
      }
    }

    /** `write` is how `writeFile` ends; when it throws, the counter and the log are not reached. */
    method Set(key: string, data: Bytes, now: int, stuck: set<string>, write: Write) returns (ok: bool)
      modifies this`currentSize, this`accessLog, this`disk
      ensures ok == write.Done?
      ensures State() == Step(old(State()), if ok then Op.Set(key, data, now, stuck)
                                            else FailedSet(key, |data|, write.left, stuck))
    {
      EvictIfNeeded(|data|, stuck);
      if write.Failed? {
        if write.left.Some? {
          disk := disk[key := write.left.value];
        }
        return false;
      }
      ok := true;
      disk := disk[key := data];
      currentSize := currentSize + |data|;
      accessLog := Touch(accessLog, key, now);
    }

    /** A file that is there but cannot be read counts as missing, and its access time stays. */
    method Get(key: string, now: int, readable: bool) returns (data: Option<Bytes>)
      modifies this`accessLog
      ensures data == if key in disk && readable then Some(disk[key]) else None
      ensures State() == if data.Some? then Step(old(State()), Op.Get(key, now)) else old(State())
    {
      if key in disk && readable {
        data := Some(disk[key]);
        accessLog := Touch(accessLog, key, now);
      } else {
        data := None;
      }
    }

    /** When a file cannot be unlinked, the counter and the log keep what they had. */
    method Clear(stuck: set<string>) returns (ok: bool)
      modifies this`currentSize, this`accessLog, this`disk
      ensures ok <==> stuck !! old(disk).Keys
      ensures State() == Step(old(State()), if ok then Op.Clear else Vanish(old(disk).Keys - stuck))
    {
      ghost var files := disk;
      ok := forall file :: file in disk.Keys ==> file !in stuck;
      disk := map file | file in disk && file in stuck :: disk[file];
      assert disk == files - (files.Keys - stuck);
      if !ok {
        return;
      }
      assert disk == map[];
      currentSize := 0;
      accessLog := [];
    }
  }

  lemma NothingListed(disk: map<string, Bytes>, log: seq<LogEntry>, listing: seq<LogEntry>)
    ensures TouchAll(log, listing[..0]) == log && Total(Restrict(disk, KeysOf(listing[..0]))) == 0
  {
    assert Restrict(disk, KeysOf(listing[..0])) == map[];
  }

  lemma RestrictToAll(disk: map<string, Bytes>)
    ensures Restrict(disk, disk.Keys) == disk
  {
  }

  lemma ExtendTouchAll(log: seq<LogEntry>, listing: seq<LogEntry>, i: nat)
    requires i < |listing|
    ensures TouchAll(log, listing[..i + 1]) == Touch(TouchAll(log, listing[..i]), listing[i].key, listing[i].at)
  {
    assert listing[..i + 1][..i] == listing[..i];
  }

  lemma AddListed(disk: map<string, Bytes>, listing: seq<LogEntry>, i: nat)
    requires UniqueKeys(listing) && KeysOf(listing) <= disk.Keys && i < |listing|
    ensures listing[i].key in disk
    ensures Total(Restrict(disk, KeysOf(listing[..i + 1])))
         == Total(Restrict(disk, KeysOf(listing[..i]))) + |disk[listing[i].key]|
  {
    var k := listing[i].key;
    assert k in KeysOf(listing);
    assert k !in KeysOf(listing[..i]);
    assert listing[..i + 1] == listing[..i] + [listing[i]];
    assert KeysOf(listing[..i + 1]) == KeysOf(listing[..i]) + {k};
    TotalRemove(Restrict(disk, KeysOf(listing[..i + 1])), k);
    assert Restrict(disk, KeysOf(listing[..i + 1])) - {k} == Restrict(disk, KeysOf(listing[..i]));
  }
}
