/** The content store (crates/icn/src/cs.rs) over a bounded least-recently-used map. */
module ContentStores {
  import opened Bytes
  import opened IcnNames
  import opened IcnCodec

  datatype Cached = Cached(name: Name, data: Data)

  /** Most recently used first. */
  type Store = seq<Cached>

  function Find(s: Store, name: Name): Option<Data> {
    if s == [] then None else if s[0].name == name then Some(s[0].data) else Find(s[1..], name)
  }

  function Without(s: Store, name: Name): Store {
    if s == [] then [] else (if s[0].name == name then [] else [s[0]]) + Without(s[1..], name)
  }

  function Touched(s: Store, name: Name): Store {
    match Find(s, name)
    case Some(d) => [Cached(name, d)] + Without(s, name)
    case None => s
  }

  /** Store under a name; the least recently used entry gives way when the store is full. */
  function Put(s: Store, capacity: nat, name: Name, data: Data): Store
    requires capacity > 0
  {
    var others := Without(s, name);
    [Cached(name, data)] + (if |others| >= capacity then others[..capacity - 1] else others)
  }

  predicate Stored(s: Store, name: Name) { exists i :: 0 <= i < |s| && s[i].name == name }

  predicate Distinct(s: Store) { forall i, j :: 0 <= i < j < |s| ==> s[i].name != s[j].name }

  lemma {:induction false} FindFinds(s: Store, name: Name)
    ensures Find(s, name).Some? ==> Cached(name, Find(s, name).value) in s
    ensures Find(s, name).None? ==> forall i :: 0 <= i < |s| ==> s[i].name != name
  {
    if s != [] && s[0].name != name {
      FindFinds(s[1..], name);
    }
  }

  lemma {:induction false} WithoutExactly(s: Store, name: Name)
    ensures forall c :: c in Without(s, name) <==> c in s && c.name != name
    ensures |Without(s, name)| <= |s|
  {
    if s != [] {
      WithoutExactly(s[1..], name);
      assert s == [s[0]] + s[1..];
    }
  }

  lemma {:induction false} WithoutDistinct(s: Store, name: Name)
    requires Distinct(s)
    ensures Distinct(Without(s, name))
    ensures Stored(s, name) ==> |Without(s, name)| < |s|
  {
    if s != [] {
      var t := Without(s[1..], name);
      assert Distinct(s[1..]);
      WithoutDistinct(s[1..], name);
      WithoutExactly(s[1..], name);
      forall i | 0 <= i < |t| ensures t[i].name != s[0].name {
        assert t[i] in s[1..];
        var k :| 0 <= k < |s| - 1 && s[1..][k] == t[i];
        assert s[k + 1] == t[i];
      }
      if s[0].name == name {
        assert Without(s, name) == t;
      } else {
        assert Without(s, name) == [s[0]] + t;
        if Stored(s, name) {
          var k :| 0 <= k < |s| && s[k].name == name;
          assert s[1..][k - 1] == s[k];
        }
      }
    }
  }

  /** Touching and storing keep names distinct and the size within the capacity, and add at most the stored entry. */
  lemma TouchKeeps(s: Store, name: Name, capacity: nat)
    requires Distinct(s) && |s| <= capacity
    ensures Distinct(Touched(s, name)) && |Touched(s, name)| <= capacity
    ensures forall c :: c in Touched(s, name) ==> c in s
  {
    FindFinds(s, name);
    WithoutExactly(s, name);
    WithoutDistinct(s, name);
    if Find(s, name).Some? {
      var i :| 0 <= i < |s| && s[i] == Cached(name, Find(s, name).value);
      assert Stored(s, name);
      var t := Without(s, name);
      forall k | 0 <= k < |t| ensures t[k].name != name { assert t[k] in t; }
    }
  }

  lemma PutKeeps(s: Store, capacity: nat, name: Name, data: Data)
    requires Distinct(s) && |s| <= capacity && capacity > 0
    ensures Distinct(Put(s, capacity, name, data)) && |Put(s, capacity, name, data)| <= capacity
    ensures forall c :: c in Put(s, capacity, name, data) ==> c == Cached(name, data) || (c in s && c.name != name)
    ensures Find(Put(s, capacity, name, data), name) == Some(data)
  {
    WithoutExactly(s, name);
    WithoutDistinct(s, name);
    var t := Without(s, name);
    forall k | 0 <= k < |t| ensures t[k].name != name { assert t[k] in t; }
  }

  lemma {:induction false} WithoutAt(s: Store, name: Name, k: nat)
    requires Distinct(s) && k < |s| && s[k].name == name
    ensures Find(s, name) == Some(s[k].data) && Without(s, name) == s[..k] + s[k + 1..]
  {
    if k == 0 {
      WithoutAbsent(s[1..], name);
    } else {
      assert Distinct(s[1..]) && s[1..][k - 1] == s[k];
      WithoutAt(s[1..], name, k - 1);
      assert [s[0]] + (s[1..][..k - 1] + s[1..][k..]) == s[..k] + s[k + 1..];
    }
  }

  lemma {:induction false} WithoutAbsent(s: Store, name: Name)
    requires !Stored(s, name)
    ensures Find(s, name) == None && Without(s, name) == s
  {
    if s != [] {
      assert s[0].name != name;
      forall i | 0 <= i < |s| - 1 ensures s[1..][i].name != name {
        assert s[i + 1] == s[1..][i];
      }
      WithoutAbsent(s[1..], name);
      assert s == [s[0]] + s[1..];
    }
  }

  /** Looking up and storing, position by position. A name that is there moves to the front, and its neighbours close
      up; a name that is not there changes nothing when it is looked up, and when it is stored pushes the last entry out
      of a full store and none out of another. */
  lemma StoreExactly(s: Store, capacity: nat, name: Name, data: Data)
    requires Distinct(s) && |s| <= capacity && capacity > 0
    ensures forall k :: 0 <= k < |s| && s[k].name == name ==>
      && Touched(s, name) == [s[k]] + (s[..k] + s[k + 1..])
      && Put(s, capacity, name, data) == [Cached(name, data)] + (s[..k] + s[k + 1..])
    ensures !Stored(s, name) ==>
      && Touched(s, name) == s
      && Put(s, capacity, name, data) == [Cached(name, data)] + (if |s| < capacity then s else s[..|s| - 1])
  {
    forall k | 0 <= k < |s| && s[k].name == name
      ensures Touched(s, name) == [s[k]] + (s[..k] + s[k + 1..])
      ensures Put(s, capacity, name, data) == [Cached(name, data)] + (s[..k] + s[k + 1..])
    {
      WithoutAt(s, name, k);
    }
    if !Stored(s, name) {
      WithoutAbsent(s, name);
    }
  }

  // ---------- Least recently used ----------

  /** For the times `used` of last use and the data `latest` stored last under each name: the store lists entries from
      the most recently used on, each with its latest data, and what is no longer there was used before all of them and
      gave way to a full store. */
  ghost predicate Lru(s: Store, capacity: nat, used: Name -> int, latest: Name -> Option<Data>) {
    && Distinct(s) && |s| <= capacity && ByRecency(s, used)
    && UpToDate(s, latest)
    && (forall n :: latest(n).Some? && !Stored(s, n) ==> |s| == capacity && AllAfter(s, used, used(n)))
  }

  ghost predicate UpToDate(s: Store, latest: Name -> Option<Data>) {
    forall k :: 0 <= k < |s| ==> latest(s[k].name) == Some(s[k].data)
  }

  ghost predicate ByRecency(s: Store, used: Name -> int) {
    forall j, k :: 0 <= j < k < |s| ==> used(s[j].name) > used(s[k].name)
  }

  ghost predicate AllAfter(s: Store, used: Name -> int, time: int) {
    forall k :: 0 <= k < |s| ==> used(s[k].name) > time
  }

  /** `used'` differs from `used` in the time of `name` only, and that is later than all others. */
  ghost predicate UsedNow(used: Name -> int, used': Name -> int, name: Name) {
    forall n :: n != name ==> used'(n) == used(n) && used(n) < used'(name)
  }

  lemma MovedToFront(s: Store, capacity: nat, used: Name -> int, latest: Name -> Option<Data>, used': Name -> int,
                     latest': Name -> Option<Data>, k: nat, data: Data)
    requires Lru(s, capacity, used, latest) && k < |s| && UsedNow(used, used', s[k].name)
    requires latest'(s[k].name) == Some(data) && forall n :: n != s[k].name ==> latest'(n) == latest(n)
    ensures Lru([Cached(s[k].name, data)] + (s[..k] + s[k + 1..]), capacity, used', latest')
  {
    var kept := s[..k] + s[k + 1..];
    var t := [Cached(s[k].name, data)] + kept;
    KeptWithout(s, k, used, latest);
    OrderedInFront(t[0], kept, used, used');
    CurrentInFront(t[0], kept, latest, latest');
    forall n | latest'(n).Some? && !Stored(t, n) ensures |t| == capacity && AllAfter(t, used', used'(n)) {
      StillAbsent(t[0], kept, n);
      AbsentBefore(s, k, n);
      assert AllAfter(s, used, used(n));
      assert forall i :: 0 <= i < |kept| ==> kept[i] == s[if i < k then i else i + 1];
      AfterInFront(t[0], kept, used, used', n);
    }
  }

  /** The entries other than entry `k`. */
  lemma KeptWithout(s: Store, k: nat, used: Name -> int, latest: Name -> Option<Data>)
    requires Distinct(s) && ByRecency(s, used) && UpToDate(s, latest) && k < |s|
    ensures var kept := s[..k] + s[k + 1..];
      Distinct(kept) && ByRecency(kept, used) && UpToDate(kept, latest) && !Stored(kept, s[k].name)
  {
    var kept := s[..k] + s[k + 1..];
    assert forall i :: 0 <= i < |kept| ==> kept[i] == s[if i < k then i else i + 1];
  }

  lemma AbsentBefore(s: Store, k: nat, n: Name)
    requires k < |s| && s[k].name != n && !Stored(s[..k] + s[k + 1..], n)
    ensures !Stored(s, n)
  {
    var kept := s[..k] + s[k + 1..];
    forall i | 0 <= i < |s| ensures s[i].name != n {
      if i != k {
        assert kept[if i < k then i else i - 1] == s[i];
      }
    }
  }

  lemma AddedInFront(s: Store, capacity: nat, used: Name -> int, latest: Name -> Option<Data>, used': Name -> int,
                     latest': Name -> Option<Data>, name: Name, data: Data)
    requires Lru(s, capacity, used, latest) && !Stored(s, name) && UsedNow(used, used', name) && capacity > 0
    requires latest'(name) == Some(data) && forall n :: n != name ==> latest'(n) == latest(n)
    ensures Lru([Cached(name, data)] + (if |s| < capacity then s else s[..|s| - 1]), capacity, used', latest')
  {
    var kept := if |s| < capacity then s else s[..|s| - 1];
    var t := [Cached(name, data)] + kept;
    assert kept <= s;
    KeptPrefix(s, kept, used, latest, name);
    OrderedInFront(t[0], kept, used, used');
    CurrentInFront(t[0], kept, latest, latest');
    forall n | latest'(n).Some? && !Stored(t, n) ensures |t| == capacity && AllAfter(t, used', used'(n)) {
      assert t[0].name == name;
      StillAbsent(t[0], kept, n);
      GaveWay(s, capacity, used, latest, kept, n);
      AfterInFront(t[0], kept, used, used', n);
    }
  }

  lemma KeptPrefix(s: Store, kept: Store, used: Name -> int, latest: Name -> Option<Data>, name: Name)
    requires Distinct(s) && ByRecency(s, used) && UpToDate(s, latest) && !Stored(s, name) && kept <= s
    ensures Distinct(kept) && ByRecency(kept, used) && UpToDate(kept, latest) && !Stored(kept, name)
  {
    assert forall i :: 0 <= i < |kept| ==> kept[i] == s[i];
  }

  lemma CurrentInFront(front: Cached, kept: Store, latest: Name -> Option<Data>, latest': Name -> Option<Data>)
    requires UpToDate(kept, latest) && !Stored(kept, front.name)
    requires latest'(front.name) == Some(front.data) && forall n :: n != front.name ==> latest'(n) == latest(n)
    ensures UpToDate([front] + kept, latest')
  {
    var t := [front] + kept;
    forall k | 0 <= k < |t| ensures latest'(t[k].name) == Some(t[k].data) {
      assert k > 0 ==> t[k] == kept[k - 1];
    }
  }

  lemma OrderedInFront(front: Cached, kept: Store, used: Name -> int, used': Name -> int)
    requires Distinct(kept) && ByRecency(kept, used) && !Stored(kept, front.name) && UsedNow(used, used', front.name)
    ensures Distinct([front] + kept) && ByRecency([front] + kept, used')
  {
    var t := [front] + kept;
    forall i, j | 0 <= i < j < |t| ensures t[i].name != t[j].name && used'(t[i].name) > used'(t[j].name) {
      assert t[j] == kept[j - 1] && (i > 0 ==> t[i] == kept[i - 1]);
    }
  }

  lemma StillAbsent(front: Cached, kept: Store, n: Name)
    requires !Stored([front] + kept, n)
    ensures !Stored(kept, n) && front.name != n
  {
    var t := [front] + kept;
    assert t[0] == front;
    forall k | 0 <= k < |kept| ensures kept[k].name != n {
      assert t[k + 1] == kept[k];
    }
  }

  lemma AfterInFront(front: Cached, kept: Store, used: Name -> int, used': Name -> int, n: Name)
    requires AllAfter(kept, used, used(n)) && UsedNow(used, used', front.name) && n != front.name
    ensures AllAfter([front] + kept, used', used'(n))
  {
    var t := [front] + kept;
    forall k | 0 <= k < |t| ensures used'(t[k].name) > used'(n) {
      assert k > 0 ==> t[k] == kept[k - 1];
    }
  }

  /** A name that is not kept when something new is stored was used before all that is. */
  lemma GaveWay(s: Store, capacity: nat, used: Name -> int, latest: Name -> Option<Data>, kept: Store, n: Name)
    requires Lru(s, capacity, used, latest) && kept == if |s| < capacity || s == [] then s else s[..|s| - 1]
    requires latest(n).Some? && !Stored(kept, n)
    ensures |s| == capacity && AllAfter(kept, used, used(n))
  {
    if Stored(s, n) {
      var i :| 0 <= i < |s| && s[i].name == n;
      assert i < |kept| ==> kept[i].name == n;
    }
  }

  datatype StoreOp = Storing(name: Name, data: Data) | Looking(name: Name)

  function StoreAfter(capacity: nat, ops: seq<StoreOp>): Store
    requires capacity > 0
  {
    if ops == [] then []
    else
      var s := StoreAfter(capacity, ops[..|ops| - 1]);
      match ops[|ops| - 1]
      case Storing(name, data) => Put(s, capacity, name, data)
      case Looking(name) => Touched(s, name)
  }

  /** The number of the last operation that used the name: stored it, or looked it up when it was there. */
  function LastUse(capacity: nat, ops: seq<StoreOp>, name: Name): int
    requires capacity > 0
  {
    if ops == [] then -1
    else
      var before, op := ops[..|ops| - 1], ops[|ops| - 1];
      if op.name == name && (op.Storing? || Stored(StoreAfter(capacity, before), name)) then |before|
      else LastUse(capacity, before, name)
  }

  /** The data stored last under the name. */
  function LatestData(ops: seq<StoreOp>, name: Name): Option<Data> {
    if ops == [] then None
    else
      var op := ops[|ops| - 1];
      if op.Storing? && op.name == name then Some(op.data) else LatestData(ops[..|ops| - 1], name)
  }

  lemma {:induction false} LastUseIsPast(capacity: nat, ops: seq<StoreOp>, name: Name)
    requires capacity > 0
    ensures LastUse(capacity, ops, name) < |ops|
  {
    if ops != [] {
      LastUseIsPast(capacity, ops[..|ops| - 1], name);
    }
  }

  function UseOf(capacity: nat, ops: seq<StoreOp>): Name -> int
    requires capacity > 0
  {
    n => LastUse(capacity, ops, n)
  }

  function LatestOf(ops: seq<StoreOp>): Name -> Option<Data> { n => LatestData(ops, n) }

  /** In every run of look-ups and insertions the store is the least-recently-used store of its capacity: entries in
      order of last use, each with the data stored last, and a name that was stored and is gone was used before every
      name still there, in a full store. */
  lemma {:induction false} EveryRunIsLru(capacity: nat, ops: seq<StoreOp>)
    requires capacity > 0
    ensures Lru(StoreAfter(capacity, ops), capacity, UseOf(capacity, ops), LatestOf(ops))
  {
    if ops != [] {
      var before, op := ops[..|ops| - 1], ops[|ops| - 1];
      EveryRunIsLru(capacity, before);
      LruStep(capacity, ops, StoreAfter(capacity, before));
    }
  }

  lemma LruStep(capacity: nat, ops: seq<StoreOp>, s: Store)
    requires capacity > 0 && ops != [] && s == StoreAfter(capacity, ops[..|ops| - 1])
    requires Lru(s, capacity, UseOf(capacity, ops[..|ops| - 1]), LatestOf(ops[..|ops| - 1]))
    ensures Lru(StoreAfter(capacity, ops), capacity, UseOf(capacity, ops), LatestOf(ops))
  {
    var before, op := ops[..|ops| - 1], ops[|ops| - 1];
    var used, latest, used', latest' := UseOf(capacity, before), LatestOf(before), UseOf(capacity, ops), LatestOf(ops);
    UsesStep(capacity, ops);
    if Stored(s, op.name) {
      var k :| 0 <= k < |s| && s[k].name == op.name;
      MovedBy(capacity, op, s, k);
      MovedToFront(s, capacity, used, latest, used', latest', k, if op.Storing? then op.data else s[k].data);
    } else if op.Storing? {
      StoreExactly(s, capacity, op.name, op.data);
      AddedInFront(s, capacity, used, latest, used', latest', op.name, op.data);
    } else {
      WithoutAbsent(s, op.name);
    }
  }

  lemma MovedBy(capacity: nat, op: StoreOp, s: Store, k: nat)
    requires Distinct(s) && |s| <= capacity && k < |s| && s[k].name == op.name
    ensures (if op.Storing? then Put(s, capacity, op.name, op.data) else Touched(s, op.name)) ==
      [Cached(s[k].name, if op.Storing? then op.data else s[k].data)] + (s[..k] + s[k + 1..])
  {
    StoreExactly(s, capacity, op.name, if op.Storing? then op.data else s[k].data);
    assert s[k] == Cached(op.name, s[k].data);
  }

  /** What the last operation does to the times of use and to the latest data. */
  lemma UsesStep(capacity: nat, ops: seq<StoreOp>)
    requires capacity > 0 && ops != []
    ensures var before, op := ops[..|ops| - 1], ops[|ops| - 1];
      && (op.Storing? || Stored(StoreAfter(capacity, before), op.name) ==>
            UsedNow(UseOf(capacity, before), UseOf(capacity, ops), op.name))
      && (op.Looking? && !Stored(StoreAfter(capacity, before), op.name) ==>
            forall n :: UseOf(capacity, ops)(n) == UseOf(capacity, before)(n))
      && forall n :: LatestOf(ops)(n) ==
           if op.Storing? && op.name == n then Some(op.data) else LatestOf(before)(n)
  {
    var before := ops[..|ops| - 1];
    forall n ensures UseOf(capacity, before)(n) < |before| {
      LastUseIsPast(capacity, before, n);
    }
  }

  /** `i` is the most recently used among the longest cached names that are prefixes of `name`. */
  predicate LongestPrefix(s: Store, name: Name, i: nat)
    requires i < |s|
  {
    && StartsWith(name, s[i].name)
    && (forall j :: 0 <= j < |s| && StartsWith(name, s[j].name) ==> |s[j].name.components| <= |s[i].name.components|)
    && (forall j :: 0 <= j < i && StartsWith(name, s[j].name) ==> |s[j].name.components| < |s[i].name.components|)
  }

  /** The entry the scan of `get_prefix` has chosen after `k` entries. */
  function BestCached(s: Store, name: Name, k: nat): (best: Option<nat>)
    requires k <= |s|
    ensures best.Some? ==> best.value < k
  {
    if k == 0 then None
    else
      var best, key := BestCached(s, name, k - 1), s[k - 1].name;
      if StartsWith(name, key) && (best.None? || |key.components| > |s[best.value].name.components|)
      then Some(k - 1) else best
  }

  lemma {:induction false} ScanIsLongestPrefix(s: Store, name: Name, k: nat)
    requires k <= |s|
    ensures BestCached(s, name, k).None? <==> forall i :: 0 <= i < k ==> !StartsWith(name, s[i].name)
    ensures BestCached(s, name, k).Some? ==> LongestPrefix(s[..k], name, BestCached(s, name, k).value)
  {
    if k > 0 {
      ScanIsLongestPrefix(s, name, k - 1);
    }
  }

  class ContentStore {
    const capacity: nat
    var entries: Store
    var hits: nat
    var misses: nat

    ghost predicate Valid()
      reads this
    {
      capacity > 0 && Distinct(entries) && |entries| <= capacity
    }

    constructor (maxEntries: nat)
      ensures Valid() && entries == [] && capacity == if maxEntries == 0 then 1 else maxEntries
    {
      capacity := if maxEntries == 0 then 1 else maxEntries;
      entries, hits, misses := [], 0, 0;
    }

    method Get(name: Name) returns (r: Option<Data>)
      requires Valid()
      modifies this
      ensures Valid()
      ensures r == Find(old(entries), name) && entries == Touched(old(entries), name)
      ensures hits == old(hits) + (if r.Some? then 1 else 0) && misses == old(misses) + (if r.None? then 1 else 0)
    {
      TouchKeeps(entries, name, capacity);
      r := Find(entries, name);
      if r.Some? {
        entries := [Cached(name, r.value)] + Without(entries, name);
        hits := hits + 1;
      } else {
        misses := misses + 1;
      }
    }

    /** Finds cached names that are prefixes of the requested one. Does not count as a use. */
    method GetPrefix(name: Name) returns (r: Option<Data>)
      requires Valid()
      modifies this`hits, this`misses
      ensures Valid()
      ensures r == match BestCached(entries, name, |entries|) case Some(i) => Some(entries[i].data) case None => None
      ensures r.None? <==> forall i :: 0 <= i < |entries| ==> !StartsWith(name, entries[i].name)
      ensures r.Some? ==>
        exists i :: 0 <= i < |entries| && LongestPrefix(entries, name, i) && r.value == entries[i].data
    {
      var best: Option<nat> := None;
      for i := 0 to |entries|
        invariant best == BestCached(entries, name, i)
      {
        if StartsWith(name, entries[i].name) {
          if best.None? || |entries[i].name.components| > |entries[best.value].name.components| {
            best := Some(i);
          }
        }
      }
      ScanIsLongestPrefix(entries, name, |entries|);
      assert entries[..|entries|] == entries;
      if best.None? {
        misses := misses + 1;
        return None;
      }
      hits := hits + 1;
      return Some(entries[best.value].data);
    }

    /** Returns what was stored under the name before. */
    method Insert(name: Name, data: Data) returns (previous: Option<Data>)
      requires Valid()
      modifies this`entries
      ensures Valid()
      ensures entries == Put(old(entries), capacity, name, data) && previous == Find(old(entries), name)
    {
      PutKeeps(entries, capacity, name, data);
      previous := Find(entries, name);
      entries := Put(entries, capacity, name, data);
    }
  }
}
