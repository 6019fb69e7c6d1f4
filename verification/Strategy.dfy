/** The best-route strategy (crates/icn/src/strategy.rs). Times are parameters. */
module Strategies {
  import opened Bytes
  import opened IcnNames
  import opened IcnCodec
  import opened Fibs
  import opened Pits

  datatype Decision = ForwardTo(face: nat) | SuppressAggregate | ServeFromCache | NoRoute

  datatype Failure = Failure(last: nat, consecutive: nat)

  type Failures = map<nat, Failure>

  datatype Backoff = Backoff(base: nat, max: nat)

  function Doubled(base: nat, times: nat): nat { if times == 0 then base else 2 * Doubled(base, times - 1) }

  /** The backoff doubles with each failure, six times at most, up to a maximum. */
  function BackoffOf(b: Backoff, f: Failure): nat {
    var d := Doubled(b.base, if f.consecutive < 6 then f.consecutive else 6);
    if d < b.max then d else b.max
  }

  predicate InBackoff(b: Backoff, fs: Failures, face: nat, now: nat) {
    face in fs && now < fs[face].last + BackoffOf(b, fs[face])
  }

  predicate SelectorSatisfied(i: Interest, d: Data) {
    i.selector.Some? ==>
      var sel := i.selector.value;
      && !(sel.mustBeFresh && d.metadata.freshness.Stale?)
      && (sel.minSequence.Some? ==> d.metadata.sequence.Some? && d.metadata.sequence.value >= sel.minSequence.value)
      && !(d.metadata.contentHash.Some? && d.metadata.contentHash.value in sel.excludeHashes)
  }

  /** The cheapest hop that is not in backoff, in table order. */
  function FirstUsable(b: Backoff, fs: Failures, hops: seq<Hop>, now: nat): Option<nat> {
    if hops == [] then None
    else if !InBackoff(b, fs, hops[0].face, now) then Some(hops[0].face)
    else FirstUsable(b, fs, hops[1..], now)
  }

  function Decide(b: Backoff, fs: Failures, i: Interest, hops: seq<Hop>, pitHit: Option<PitEntry>, csHit: Option<Data>,
                  now: nat): Decision
  {
    if csHit.Some? && SelectorSatisfied(i, csHit.value) then ServeFromCache
    else if pitHit.Some? && !pitHit.value.satisfied then SuppressAggregate
    else
      match FirstUsable(b, fs, hops, now)
      case Some(f) => ForwardTo(f)
      case None => NoRoute
  }

  class BestRoute {
    const backoff: Backoff
    var failures: Failures

    constructor (backoff: Backoff)
      ensures this.backoff == backoff && failures == map[]
    {
      this.backoff := backoff;
      failures := map[];
    }

    method RecordFailure(face: nat, now: nat)
      modifies this`failures
      ensures var before := if face in old(failures) then old(failures)[face].consecutive else 0;
        failures == old(failures)[face := Failure(now, before + 1)]
    {
      if face !in failures {
        failures := failures[face := Failure(now, 0)];
      }
      failures := failures[face := Failure(now, failures[face].consecutive + 1)];
    }

    method RecordSuccess(face: nat)
      modifies this`failures
      ensures failures == old(failures) - {face}
    {
      failures := failures - {face};
    }

    method DecideRoute(i: Interest, hops: seq<Hop>, pitHit: Option<PitEntry>, csHit: Option<Data>, now: nat)
      returns (r: Decision)
      ensures r == Decide(backoff, failures, i, hops, pitHit, csHit, now)
    {
      if csHit.Some? && SelectorSatisfied(i, csHit.value) {
        return ServeFromCache;
      }
      if pitHit.Some? && !pitHit.value.satisfied {
        return SuppressAggregate;
      }
      for k := 0 to |hops|
        invariant FirstUsable(backoff, failures, hops, now) == FirstUsable(backoff, failures, hops[k..], now)
      {
        if !InBackoff(backoff, failures, hops[k].face, now) {
          return ForwardTo(hops[k].face);
        }
        assert hops[k..][1..] == hops[k + 1..];
      }
      return NoRoute;
    }
  }

  lemma {:induction false} FirstUsableIsCheapest(b: Backoff, fs: Failures, hops: seq<Hop>, now: nat)
    requires Sorted(hops)
    ensures match FirstUsable(b, fs, hops, now)
      case None => forall h :: h in hops ==> InBackoff(b, fs, h.face, now)
      case Some(f) =>
        && !InBackoff(b, fs, f, now)
        && exists i :: 0 <= i < |hops| && hops[i].face == f
             && forall h :: h in hops && !InBackoff(b, fs, h.face, now) ==> hops[i].cost <= h.cost
  {
    if hops != [] {
      if InBackoff(b, fs, hops[0].face, now) {
        FirstUsableIsCheapest(b, fs, hops[1..], now);
        var r := FirstUsable(b, fs, hops, now);
        if r.Some? {
          var i :| 0 <= i < |hops| - 1 && hops[1..][i].face == r.value
            && forall h :: h in hops[1..] && !InBackoff(b, fs, h.face, now) ==> hops[1..][i].cost <= h.cost;
          assert hops[i + 1] == hops[1..][i];
          forall h | h in hops && !InBackoff(b, fs, h.face, now)
            ensures hops[i + 1].cost <= h.cost
          {
            assert h in hops[1..];
          }
        }
      } else {
        forall h | h in hops ensures hops[0].cost <= h.cost {
          var k :| 0 <= k < |hops| && hops[k] == h;
        }
      }
    }
  }

  /** Best route: with nothing cached and nothing pending, an Interest goes to a cheapest face that is not in backoff,
      and to no face exactly when all are. */
  lemma ForwardsToCheapest(b: Backoff, fs: Failures, i: Interest, hops: seq<Hop>, pitHit: Option<PitEntry>, now: nat)
    requires Sorted(hops) && (pitHit.Some? ==> pitHit.value.satisfied)
    ensures match Decide(b, fs, i, hops, pitHit, None, now)
      case ForwardTo(f) =>
        && !InBackoff(b, fs, f, now)
        && exists k :: 0 <= k < |hops| && hops[k].face == f
             && forall h :: h in hops && !InBackoff(b, fs, h.face, now) ==> hops[k].cost <= h.cost
      case NoRoute => forall h :: h in hops ==> InBackoff(b, fs, h.face, now)
      case _ => false
  {
    FirstUsableIsCheapest(b, fs, hops, now);
  }

  /** The decision, exactly: the cache serves if and only if it has data that the selector admits, that is, data fresh if
      that is asked for, numbered no lower than asked for, and not excluded by its hash; an Interest is suppressed if and
      only if the cache does not serve and one is pending; any other goes to a cheapest face that is not in backoff, and
      to none exactly when all are. */
  lemma DecidesExactly(b: Backoff, fs: Failures, i: Interest, hops: seq<Hop>, pitHit: Option<PitEntry>,
                       csHit: Option<Data>, now: nat)
    requires Sorted(hops)
    ensures var r := Decide(b, fs, i, hops, pitHit, csHit, now);
      && (r == ServeFromCache <==>
            && csHit.Some?
            && (i.selector.Some? ==>
                  var sel, meta := i.selector.value, csHit.value.metadata;
                  && (sel.mustBeFresh ==> meta.freshness == Fresh)
                  && (sel.minSequence.Some? ==> meta.sequence.Some? && sel.minSequence.value <= meta.sequence.value)
                  && (meta.contentHash.Some? ==> meta.contentHash.value !in sel.excludeHashes)))
      && (r == SuppressAggregate <==> r != ServeFromCache && pitHit.Some? && !pitHit.value.satisfied)
      && (r == NoRoute ==> forall h :: h in hops ==> InBackoff(b, fs, h.face, now))
      && (r.ForwardTo? ==>
            && !InBackoff(b, fs, r.face, now)
            && exists k :: 0 <= k < |hops| && hops[k].face == r.face
                 && forall h :: h in hops && !InBackoff(b, fs, h.face, now) ==> hops[k].cost <= h.cost)
  {
    FirstUsableIsCheapest(b, fs, hops, now);
  }

  // ---------- Backoff ----------

  datatype Report = Failing(face: nat, at: nat) | Succeeding(face: nat)

  /** The failures after the reports, in order. */
  function FailuresAfter(reports: seq<Report>): Failures {
    if reports == [] then map[]
    else
      var fs := FailuresAfter(reports[..|reports| - 1]);
      match reports[|reports| - 1]
      case Failing(face, at) => fs[face := Failure(at, 1 + if face in fs then fs[face].consecutive else 0)]
      case Succeeding(face) => fs - {face}
  }

  /** When the face has failed since it last succeeded. */
  function Streak(reports: seq<Report>, face: nat): seq<nat> {
    if reports == [] then []
    else
      var before, last := Streak(reports[..|reports| - 1], face), reports[|reports| - 1];
      if last.face != face then before else if last.Failing? then before + [last.at] else []
  }

  lemma {:induction false} FailuresAreStreaks(reports: seq<Report>, face: nat)
    ensures var fs, streak := FailuresAfter(reports), Streak(reports, face);
      && (face in fs <==> streak != [])
      && (face in fs ==> fs[face] == Failure(streak[|streak| - 1], |streak|))
  {
    if reports != [] {
      FailuresAreStreaks(reports[..|reports| - 1], face);
    }
  }

  /** After any reports a face is in backoff if and only if it has failed since it last succeeded, and not longer ago
      than the base time doubled once for each of those failures, six times at most, and capped. */
  lemma BackoffExactly(b: Backoff, reports: seq<Report>, face: nat, now: nat)
    ensures var streak := Streak(reports, face);
      InBackoff(b, FailuresAfter(reports), face, now) <==>
        && streak != []
        && var factor := [1, 2, 4, 8, 16, 32, 64][if |streak| < 6 then |streak| else 6];
        now < streak[|streak| - 1] + (if b.base * factor < b.max then b.base * factor else b.max)
  {
    FailuresAreStreaks(reports, face);
    SixDoublings(b.base);
  }

  lemma SixDoublings(n: nat)
    ensures forall k :: 0 <= k < 7 ==> Doubled(n, k) == n * [1, 2, 4, 8, 16, 32, 64][k]
  {
    assert Doubled(n, 3) == 2 * Doubled(n, 2) == 4 * Doubled(n, 1) == 8 * Doubled(n, 0);
    assert Doubled(n, 6) == 2 * Doubled(n, 5) == 4 * Doubled(n, 4) == 8 * Doubled(n, 3);
  }
}
