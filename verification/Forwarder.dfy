/** The ICN forwarder (crates/icn/src/forwarder.rs) with the best-route strategy. A call runs to its end before the next
    one starts, as `&mut self` demands; what a face answers, and the times, are parameters. */
module Forwarders {
  import opened Bytes
  import opened IcnNames
  import opened IcnCodec
  import opened Fibs
  import opened Pits
  import opened Strategies
  import opened ContentStores

  datatype Hashing = Hashing(blake3: bytes -> bytes, verify: (bytes, bytes, bytes) -> bool)

  function SignedHash(c: Hashing, d: Data): bytes { c.blake3(NameBytes(d.name) + d.content) }

  /** The data verifies under the key. */
  predicate VerifiedBy(c: Hashing, key: bytes, d: Data) { c.verify(key, SignedHash(c, d), d.signature) }

  type Keys = map<bytes, bytes>

  /** Verification under the key registered for the producer, the first component of the name. */
  predicate Verifies(c: Hashing, keys: Keys, d: Data)
    requires HasProducer(d.name)
  {
    d.name.components[0] in keys && VerifiedBy(c, keys[d.name.components[0]], d)
  }

  datatype Reply = Answered(data: Data) | TimedOut | Failed

  /** `Blocks` is a call that waits for a notification. */
  datatype Outcome = Found(data: Data) | Nothing | Error | Blocks

  datatype State = State(store: Store, fib: seq<Entry>, pit: Pending, nonces: Nonces, waiters: map<Name, nat>,
                         keys: Keys, faces: map<nat, nat>)

  const CAPACITY := 1000
  const DEFAULT_TIMEOUT := 4 * SECOND
  const BACKOFF := Backoff(1 * SECOND, 30 * SECOND)

  // ---------- The calls, on values ----------

  /** Drop what is done or expired. */
  function Cleaned(s: State, now: nat): State { s.(pit := Purged(s.pit, now), nonces := NoncesPurged(s.nonces, now)) }

  /** Satisfy the entry, notify whoever waits for the name, clean up. */
  function Settled(s: State, name: Name, now: nat): State {
    Cleaned(s.(pit := Satisfied(s.pit, name), waiters := s.waiters - {name}), now)
  }

  function Kept(s: State, d: Data): State { s.(store := Put(s.store, CAPACITY, d.name, d)) }

  function Waited(s: State, interest: Interest, inFace: nat, out: nat, now: nat): State {
    var tolerance := if out in s.faces then s.faces[out] else DEFAULT_TIMEOUT;
    var timeout := if interest.lifetime > tolerance then interest.lifetime else tolerance;
    s.(pit := OutFaceSet(Aggregated(s.pit, interest.name, inFace, interest, now + timeout), interest.name, out))
  }

  function ForwardResult(c: Hashing, s: State, interest: Interest, inFace: nat, out: nat, reply: Reply, now: nat,
                         later: nat)
    : (State, Outcome)
    requires reply.Answered? ==> HasProducer(reply.data.name)
  {
    var name, w := interest.name, Waited(s, interest, inFace, out, now);
    if out !in s.faces then (w.(pit := Satisfied(w.pit, name)), Error)
    else
      match reply
      case Answered(d) =>
        if !Verifies(c, s.keys, d) then (w.(pit := Satisfied(w.pit, name)), Error)
        else (Settled(Kept(w, d), name, later), Found(d))
      case TimedOut => (Settled(w, name, later), Nothing)
      case Failed => (Settled(w, name, later), Error)
  }

  /** The faces of the longest matching prefix. */
  function RouteFaces(es: seq<Entry>, name: Name): seq<Hop> {
    match BestEntry(es, name, |es|)
    case Some(i) => es[i].faces
    case None => []
  }

  function PrefixHit(s: Store, name: Name): Option<Data> {
    match BestCached(s, name, |s|)
    case Some(i) => Some(s[i].data)
    case None => None
  }

  function CacheHit(s: Store, i: Interest): Option<Data> {
    if i.canBePrefix then PrefixHit(s, i.name) else Find(s, i.name)
  }

  function Choice(s: State, i: Interest, now: nat): Decision {
    Decide(BACKOFF, map[], i, RouteFaces(s.fib, i.name), if i.name in s.pit then Some(s.pit[i.name]) else None,
           CacheHit(s.store, i), now)
  }

  /** The nonce is recorded, and an exact cache hit becomes the most recent. */
  function Noted(s: State, i: Interest, inFace: nat, now: nat): State {
    s.(nonces := s.nonces[(inFace, i.nonce) := now + NONCE_TTL],
       store := if i.canBePrefix then s.store else Touched(s.store, i.name))
  }

  /** Carry out the strategy's decision. */
  function Acted(c: Hashing, s: State, i: Interest, inFace: nat, decision: Decision, hit: Option<Data>, reply: Reply,
                 now: nat, later: nat): (State, Outcome)
    requires (decision.ServeFromCache? ==> hit.Some?) && (reply.Answered? ==> HasProducer(reply.data.name))
  {
    match decision
    case ServeFromCache => (s, Found(hit.value))
    case SuppressAggregate =>
      (s.(waiters := s.waiters[i.name := 1 + if i.name in s.waiters then s.waiters[i.name] else 0]), Blocks)
    case ForwardTo(out) => ForwardResult(c, s, i, inFace, out, reply, now, later)
    case NoRoute => (s, Nothing)
  }

  /** An Interest arrives, from loop check to answer. The strategy never learns of failures here, so no face is ever in
      backoff. */
  function ExpressResult(c: Hashing, s: State, i: Interest, inFace: nat, reply: Reply, now: nat, later: nat)
    : (State, Outcome)
    requires reply.Answered? ==> HasProducer(reply.data.name)
  {
    if (inFace, i.nonce) in s.nonces then (s, Error)
    else Acted(c, Noted(s, i, inFace, now), i, inFace, Choice(s, i, now), CacheHit(s.store, i), reply, now, later)
  }

  function ReceiveResult(c: Hashing, s: State, d: Data, now: nat): (State, bool)
    requires HasProducer(d.name)
  {
    if !Verifies(c, s.keys, d) then (s, false)
    else
      var t := s.(pit := Satisfied(s.pit, d.name),
                  waiters := if d.name in s.pit then s.waiters - {d.name} else s.waiters);
      (Cleaned(Kept(t, d), now), true)
  }

  // ---------- No call blocks ----------

  /** Between calls nothing is pending and nobody waits. */
  ghost predicate Quiescent(s: State) { AllSatisfied(s.pit) && s.waiters == map[] }

  lemma ForwardKeepsQuiescent(c: Hashing, s: State, i: Interest, inFace: nat, out: nat, reply: Reply, now: nat,
                              later: nat)
    requires reply.Answered? ==> HasProducer(reply.data.name)
    requires Quiescent(s)
    ensures var r := ForwardResult(c, s, i, inFace, out, reply, now, later); Quiescent(r.0) && !r.1.Blocks?
  {
  }

  /** From a quiescent state no Interest is ever suppressed, so no call waits for a notification, and every call leaves
      the forwarder quiescent. */
  lemma ExpressNeverBlocks(c: Hashing, s: State, i: Interest, inFace: nat, reply: Reply, now: nat, later: nat)
    requires reply.Answered? ==> HasProducer(reply.data.name)
    requires Quiescent(s)
    ensures Choice(s, i, now) != SuppressAggregate
    ensures var r := ExpressResult(c, s, i, inFace, reply, now, later); Quiescent(r.0) && !r.1.Blocks?
  {
    var t := Noted(s, i, inFace, now);
    if Choice(s, i, now).ForwardTo? {
      ForwardKeepsQuiescent(c, t, i, inFace, Choice(s, i, now).face, reply, now, later);
    }
  }

  lemma ReceiveKeepsQuiescent(c: Hashing, s: State, d: Data, now: nat)
    requires HasProducer(d.name) && Quiescent(s)
    ensures Quiescent(ReceiveResult(c, s, d, now).0)
  {
  }

  // ---------- Only verified data is cached and returned ----------

  /** Names in the store are distinct, and there are no more than it may hold. */
  ghost predicate Tidy(s: State) { Distinct(s.store) && |s.store| <= CAPACITY }

  /** The data verifies under the key registered for its producer at this moment. */
  predicate Checked(c: Hashing, s: State, d: Data) { HasProducer(d.name) && Verifies(c, s.keys, d) }

  /** Nothing is added to the cache but what was brought and checked, under its own name. */
  ghost predicate OnlyAdds(c: Hashing, before: State, after: State, brought: Option<Data>) {
    forall e :: e in after.store ==>
      e in before.store || (brought == Some(e.data) && e.name == e.data.name && Checked(c, before, e.data))
  }

  function Returned(r: Outcome): Option<Data> { if r.Found? then Some(r.data) else None }

  lemma KeptAdds(c: Hashing, s: State, d: Data)
    requires Tidy(s) && Checked(c, s, d)
    ensures Tidy(Kept(s, d)) && OnlyAdds(c, s, Kept(s, d), Some(d))
  {
    PutKeeps(s.store, CAPACITY, d.name, d);
  }

  lemma ForwardAdds(c: Hashing, s: State, i: Interest, inFace: nat, out: nat, reply: Reply, now: nat, later: nat)
    requires reply.Answered? ==> HasProducer(reply.data.name)
    requires Tidy(s)
    ensures var r := ForwardResult(c, s, i, inFace, out, reply, now, later);
      && Tidy(r.0) && OnlyAdds(c, s, r.0, Returned(r.1))
      && (r.1.Found? ==> reply == Answered(r.1.data) && Checked(c, s, r.1.data))
  {
    var w := Waited(s, i, inFace, out, now);
    if reply.Answered? && Verifies(c, s.keys, reply.data) {
      KeptAdds(c, w, reply.data);
    }
  }

  lemma HitIsCached(s: Store, i: Interest)
    requires CacheHit(s, i).Some?
    ensures exists e :: e in s && e.data == CacheHit(s, i).value && (!i.canBePrefix ==> e.name == i.name)
  {
    if i.canBePrefix {
      assert s[BestCached(s, i.name, |s|).value] in s;
    } else {
      FindFinds(s, i.name);
    }
  }

  lemma NotedAdds(c: Hashing, s: State, i: Interest, inFace: nat, now: nat)
    requires Tidy(s)
    ensures Tidy(Noted(s, i, inFace, now)) && OnlyAdds(c, s, Noted(s, i, inFace, now), None)
  {
    TouchKeeps(s.store, i.name, CAPACITY);
  }

  lemma ActedAdds(c: Hashing, s: State, i: Interest, inFace: nat, decision: Decision, hit: Option<Data>, reply: Reply,
                  now: nat, later: nat)
    requires (decision.ServeFromCache? ==> hit.Some?) && (reply.Answered? ==> HasProducer(reply.data.name))
    requires Tidy(s)
    ensures var r := Acted(c, s, i, inFace, decision, hit, reply, now, later);
      && Tidy(r.0) && OnlyAdds(c, s, r.0, if decision.ServeFromCache? then None else Returned(r.1))
      && (r.1.Found? ==>
            if decision.ServeFromCache? then r.1.data == hit.value
            else reply == Answered(r.1.data) && Checked(c, s, r.1.data))
  {
    if decision.ForwardTo? {
      ForwardAdds(c, s, i, inFace, decision.face, reply, now, later);
    }
  }

  /** A cached entry whose data answers the Interest; an exact match has the requested name. */
  ghost predicate CachedAnswer(s: Store, i: Interest, d: Data) {
    exists e :: e in s && e.data == d && (!i.canBePrefix ==> e.name == i.name)
  }

  /** Cache soundness of one call: what the Interest returns is a cached entry, or what the face answered if that
      verifies under the key registered for its producer at this moment; and the cache gains nothing but such an answer,
      under its own name. */
  lemma ExpressIsSound(c: Hashing, s: State, i: Interest, inFace: nat, reply: Reply, now: nat, later: nat)
    requires reply.Answered? ==> HasProducer(reply.data.name)
    requires Tidy(s)
    ensures var r := ExpressResult(c, s, i, inFace, reply, now, later);
      && Tidy(r.0) && OnlyAdds(c, s, r.0, if Choice(s, i, now).ServeFromCache? then None else Returned(r.1))
      && (r.1.Found? ==>
            if Choice(s, i, now).ServeFromCache? then CachedAnswer(s.store, i, r.1.data)
            else reply == Answered(r.1.data) && Checked(c, s, r.1.data))
  {
    NotedAdds(c, s, i, inFace, now);
    if CacheHit(s.store, i).Some? {
      HitIsCached(s.store, i);
    }
    ActedAdds(c, Noted(s, i, inFace, now), i, inFace, Choice(s, i, now), CacheHit(s.store, i), reply, now, later);
  }

  /** Data that arrives on its own is cached only if it verifies under the key registered at this moment. */
  lemma ReceiveIsSound(c: Hashing, s: State, d: Data, now: nat)
    requires HasProducer(d.name) && Tidy(s)
    ensures var r := ReceiveResult(c, s, d, now);
      Tidy(r.0) && OnlyAdds(c, s, r.0, Some(d)) && (r.1 <==> Checked(c, s, d))
  {
    if Verifies(c, s.keys, d) {
      KeptAdds(c, s, d);
    }
  }

  /** A face that answers with verified data of another name is believed: the requested name is not compared. */
  lemma AnswerNameIsNotChecked(c: Hashing, s: State, i: Interest, inFace: nat, out: nat, d: Data, now: nat, later: nat)
    requires HasProducer(d.name) && out in s.faces && Verifies(c, s.keys, d)
    ensures ForwardResult(c, s, i, inFace, out, Answered(d), now, later).1 == Found(d)
    ensures Find(ForwardResult(c, s, i, inFace, out, Answered(d), now, later).0.store, d.name) == Some(d)
  {
    var t := Without(s.store, d.name);
    assert Put(s.store, CAPACITY, d.name, d)[0] == Cached(d.name, d);
  }

  // ---------- What a call answers and what it leaves ----------

  /** After the purge at `now` exactly the entries that still wait are left, and the nonces that are still kept. */
  ghost predicate PurgedAt(before: State, after: State, now: nat) {
    && (forall n :: n in after.pit <==> n in before.pit && !before.pit[n].satisfied && now < before.pit[n].expiresAt)
    && (forall n :: n in after.pit ==> after.pit[n] == before.pit[n])
    && (forall k :: k in after.nonces <==> k in before.nonces && now < before.nonces[k])
    && (forall k :: k in after.nonces ==> after.nonces[k] == before.nonces[k])
  }

  /** The calls change no route, key or face. */
  predicate SameTables(before: State, after: State) {
    after.fib == before.fib && after.keys == before.keys && after.faces == before.faces
  }

  /** Forwarding to a face, exactly. Data is returned if and only if the face exists and answers with data whose
      signature, over the hash of name and content, verifies under the key of the name's first component; then it is
      cached under its own name. A timeout is no data, everything else an error. Unless the face is missing or the
      signature wrong, the entry is gone afterwards, nobody waits for the name any more, and what has expired is purged;
      otherwise the entry stays, satisfied, with the longer of the two times to live. */
  lemma ForwardExactly(c: Hashing, s: State, i: Interest, inFace: nat, out: nat, reply: Reply, now: nat, later: nat)
    requires reply.Answered? ==> HasProducer(reply.data.name)
    requires i.name in s.pit ==> s.pit[i.name].satisfied
    ensures var (t, r) := ForwardResult(c, s, i, inFace, out, reply, now, later);
      var genuine := reply.Answered? ==>
        var d := reply.data;
        && d.name.components[0] in s.keys
        && c.verify(s.keys[d.name.components[0]], c.blake3(NameBytes(d.name) + d.content), d.signature);
      && SameTables(s, t)
      && (out in s.faces && genuine ==>
            && r == (match reply case Answered(d) => Found(d) case TimedOut => Nothing case Failed => Error)
            && t.store == (if reply.Answered? then Put(s.store, 1000, reply.data.name, reply.data) else s.store)
            && t.waiters == s.waiters - {i.name} && PurgedAt(s, t, later))
      && (!(out in s.faces && genuine) ==>
            && r == Error && t.store == s.store && t.waiters == s.waiters && t.nonces == s.nonces
            && var tolerance := if out in s.faces then s.faces[out] else 4_000_000_000;
            t.pit == s.pit[i.name := PitEntry(i, [inFace], Some(out),
                                              now + (if i.lifetime > tolerance then i.lifetime else tolerance), true)])
  {
  }

  /** Data that arrives on its own, exactly: accepted if and only if its signature verifies under the key of its first
      component. Then it is cached under its own name, whoever waits for that name is notified if it is pending, and
      what is satisfied or has expired is purged; otherwise nothing changes. */
  lemma ReceiveExactly(c: Hashing, s: State, d: Data, now: nat)
    requires HasProducer(d.name)
    ensures var (t, ok) := ReceiveResult(c, s, d, now);
      && (ok <==> d.name.components[0] in s.keys
                  && c.verify(s.keys[d.name.components[0]], c.blake3(NameBytes(d.name) + d.content), d.signature))
      && (!ok ==> t == s)
      && (ok ==>
            && SameTables(s, t) && t.store == Put(s.store, 1000, d.name, d)
            && t.waiters == (if d.name in s.pit then s.waiters - {d.name} else s.waiters)
            && (d.name !in t.pit)
            && PurgedAt(s.(pit := s.pit - {d.name}), t, now))
  {
  }

  /** The cache must answer: an Interest that is no loop and finds a cached entry which its selector admits is answered
      with that entry, whatever the routes and the faces say. An exact Interest finds the entry of its name, and one
      that takes prefixes the longest cached prefix of its name. */
  lemma CacheAnswers(c: Hashing, s: State, i: Interest, inFace: nat, reply: Reply, now: nat, later: nat, k: nat)
    requires reply.Answered? ==> HasProducer(reply.data.name)
    requires Distinct(s.store) && (inFace, i.nonce) !in s.nonces && k < |s.store|
    requires if i.canBePrefix then LongestPrefix(s.store, i.name, k) else s.store[k].name == i.name
    ensures var d := s.store[k].data;
      var admitted := i.selector.Some? ==>
        var sel, meta := i.selector.value, d.metadata;
        && (sel.mustBeFresh ==> meta.freshness == Fresh)
        && (sel.minSequence.Some? ==> meta.sequence.Some? && sel.minSequence.value <= meta.sequence.value)
        && (meta.contentHash.Some? ==> meta.contentHash.value !in sel.excludeHashes);
      && (Choice(s, i, now) == ServeFromCache <==> admitted)
      && (admitted ==> ExpressResult(c, s, i, inFace, reply, now, later).1 == Found(d))
  {
    if i.canBePrefix {
      ScanIsLongestPrefix(s.store, i.name, |s.store|);
      assert s.store[..|s.store|] == s.store;
      var best := BestCached(s.store, i.name, |s.store|).value;
      assert StartsWith(i.name, s.store[best].name) && StartsWith(i.name, s.store[k].name);
      assert best == k;
    } else {
      WithoutAt(s.store, i.name, k);
    }
  }

  /** And it answers nothing else: without such an entry the strategy does not serve from the cache. */
  lemma NothingCached(s: State, i: Interest, now: nat)
    requires forall k :: 0 <= k < |s.store| ==>
      if i.canBePrefix then !StartsWith(i.name, s.store[k].name) else s.store[k].name != i.name
    ensures Choice(s, i, now) != ServeFromCache
  {
    if i.canBePrefix {
      ScanIsLongestPrefix(s.store, i.name, |s.store|);
    } else {
      FindFinds(s.store, i.name);
    }
  }

  // ---------- The forwarder, in place ----------

  class Forwarder {
    const hashing: Hashing
    const cs: ContentStore
    const fib: Fib
    const pit: Pit
    const strategy: BestRoute
    var faces: map<nat, nat>
    var waiters: map<Name, nat>
    var keys: Keys
    /** All Data that verified, when it was accepted, under the key then registered for its producer. */
    ghost var accepted: set<Data>

    ghost function View(): State
      reads this, cs, fib, pit
    {
      State(cs.entries, fib.entries, pit.entries, pit.nonces, waiters, keys, faces)
    }

    /** Holds between calls of every run that does not write to the store directly. */
    ghost predicate Valid()
      reads this, cs, fib, pit, strategy
    {
      && cs.Valid() && cs.capacity == CAPACITY && fib.Valid()
      && strategy.backoff == BACKOFF && strategy.failures == map[]
      && Quiescent(View()) && Tidy(View())
      && forall e :: e in cs.entries ==> e.name == e.data.name && e.data in accepted
    }

    constructor (hashing: Hashing)
      ensures Valid() && fresh(cs) && fresh(fib) && fresh(pit) && fresh(strategy)
      ensures View() == State([], [], map[], map[], map[], map[], map[])
      ensures cs.capacity == 1000 && strategy.backoff == Backoff(1_000_000_000, 30_000_000_000)
    {
      this.hashing := hashing;
      cs := new ContentStore(CAPACITY);
      fib := new Fib();
      pit := new Pit();
      strategy := new BestRoute(BACKOFF);
      faces, waiters, keys, accepted := map[], map[], map[], {};
    }

    method RegisterFace(id: nat, tolerance: nat)
      requires Valid()
      modifies this`faces
      ensures Valid() && View() == old(View()).(faces := old(faces)[id := tolerance])
    {
      faces := faces[id := tolerance];
    }

    method AddRoute(prefix: Name, face: nat, cost: byte)
      requires Valid()
      modifies fib
      ensures Valid() && View() == old(View()).(fib := Inserted(old(fib.entries), prefix, face, cost))
    {
      fib.Insert(prefix, face, cost);
    }

    method RegisterKeys(producer: bytes, key: bytes)
      requires Valid()
      modifies this`keys
      ensures Valid() && View() == old(View()).(keys := old(keys)[producer := key])
    {
      keys := keys[producer := key];
    }

    method UnregisterFace(id: nat)
      requires Valid()
      modifies this`faces, fib
      ensures Valid()
      ensures View() == old(View()).(faces := old(faces) - {id}, fib := FaceRemoved(old(fib.entries), DUMMY, id))
    {
      faces := faces - {id};
      fib.RemoveFace(DUMMY, id);
    }

    /** Express an Interest. The call always returns. */
    method Express(i: Interest, inFace: nat, reply: Reply, now: nat, later: nat) returns (r: Outcome)
      requires Valid() && (reply.Answered? ==> HasProducer(reply.data.name))
      modifies this`waiters, this`accepted, cs, pit
      ensures Valid()
      ensures (View(), r) == ExpressResult(hashing, old(View()), i, inFace, reply, now, later)
      ensures !r.Blocks? && (r.Found? ==> r.data in accepted)
      ensures old(accepted) <= accepted
      ensures forall d :: d in accepted - old(accepted) ==>
        r == Found(d) && reply == Answered(d) && Checked(hashing, View(), d)
    {
      ghost var s := View();
      ExpressNeverBlocks(hashing, s, i, inFace, reply, now, later);
      ExpressIsSound(hashing, s, i, inFace, reply, now, later);
      r := ExpressInterest(i, inFace, reply, now, later);
      if r.Found? && reply == Answered(r.data) && Verifies(hashing, keys, r.data) {
        accepted := accepted + {r.data};
      }
    }

    method ExpressInterest(i: Interest, inFace: nat, reply: Reply, now: nat, later: nat) returns (r: Outcome)
      requires cs.Valid() && cs.capacity == CAPACITY && strategy.backoff == BACKOFF && strategy.failures == map[]
      requires reply.Answered? ==> HasProducer(reply.data.name)
      modifies this`waiters, cs, pit
      ensures cs.Valid()
      ensures (View(), r) == ExpressResult(hashing, old(View()), i, inFace, reply, now, later)
    {
      var loop := pit.CheckLoop(inFace, i.nonce);
      if loop {
        return Error;
      }
      var decision, hit := Consult(i, inFace, now);
      r := Act(i, inFace, decision, hit, reply, now, later);
    }

    method Act(i: Interest, inFace: nat, decision: Decision, hit: Option<Data>, reply: Reply, now: nat, later: nat)
      returns (r: Outcome)
      requires cs.Valid() && cs.capacity == CAPACITY
      requires (decision.ServeFromCache? ==> hit.Some?) && (reply.Answered? ==> HasProducer(reply.data.name))
      modifies this`waiters, cs, pit
      ensures cs.Valid()
      ensures (View(), r) == Acted(hashing, old(View()), i, inFace, decision, hit, reply, now, later)
    {
      match decision {
        case ServeFromCache => r := Found(hit.value);
        case SuppressAggregate =>
          waiters := waiters[i.name := 1 + if i.name in waiters then waiters[i.name] else 0];
          r := Blocks;
        case ForwardTo(out) => r := ForwardAndWait(i, inFace, out, reply, now, later);
        case NoRoute => r := Nothing;
      }
    }

    /** Record the nonce, look in the store, the pending table and the routes, and ask the strategy. */
    method Consult(i: Interest, inFace: nat, now: nat) returns (decision: Decision, hit: Option<Data>)
      requires cs.Valid() && strategy.backoff == BACKOFF && strategy.failures == map[]
      modifies cs, pit`nonces
      ensures cs.Valid()
      ensures decision == Choice(old(View()), i, now) && hit == CacheHit(old(cs.entries), i)
      ensures View() == Noted(old(View()), i, inFace, now)
    {
      pit.RecordNonce(inFace, i.nonce, now);
      hit := CheckStore(i);
      var pitHit := if i.name in pit.entries then Some(pit.entries[i.name]) else None;
      var routes := fib.Lookup(i.name);
      decision := strategy.DecideRoute(i, if routes.Some? then routes.value else [], pitHit, hit, now);
    }

    method CheckStore(i: Interest) returns (hit: Option<Data>)
      requires cs.Valid()
      modifies cs
      ensures cs.Valid()
      ensures hit == CacheHit(old(cs.entries), i)
      ensures cs.entries == if i.canBePrefix then old(cs.entries) else Touched(old(cs.entries), i.name)
    {
      if i.canBePrefix {
        hit := cs.GetPrefix(i.name);
      } else {
        hit := cs.Get(i.name);
      }
    }

    method ForwardAndWait(i: Interest, inFace: nat, out: nat, reply: Reply, now: nat, later: nat) returns (r: Outcome)
      requires cs.Valid() && cs.capacity == CAPACITY && (reply.Answered? ==> HasProducer(reply.data.name))
      modifies this`waiters, cs, pit
      ensures cs.Valid()
      ensures (View(), r) == ForwardResult(hashing, old(View()), i, inFace, out, reply, now, later)
    {
      var tolerance := if out in faces then faces[out] else DEFAULT_TIMEOUT;
      var timeout := if i.lifetime > tolerance then i.lifetime else tolerance;
      var inserted := pit.InsertOrAggregate(i.name, inFace, i, now + timeout);
      pit.SetOutFace(i.name, out);
      if out !in faces {
        var ignored := pit.Satisfy(i.name);
        return Error;
      }
      match reply {
        case Answered(d) =>
          if !Verifies(hashing, keys, d) {
            var ignored := pit.Satisfy(i.name);
            return Error;
          }
          var previous := cs.Insert(d.name, d);
          Settle(i.name, later);
          return Found(d);
        case TimedOut =>
          Settle(i.name, later);
          return Nothing;
        case Failed =>
          Settle(i.name, later);
          return Error;
      }
    }

    method Settle(name: Name, now: nat)
      modifies this`waiters, pit
      ensures View() == Settled(old(View()), name, now)
    {
      var ignored := pit.Satisfy(name);
      waiters := waiters - {name};
      var removed := pit.PurgeExpired(now);
    }

    /** Accept Data that arrives on its own. */
    method ReceiveData(d: Data, now: nat) returns (ok: bool)
      requires Valid() && HasProducer(d.name)
      modifies this`waiters, this`accepted, cs, pit
      ensures Valid()
      ensures (View(), ok) == ReceiveResult(hashing, old(View()), d, now)
      ensures accepted == old(accepted) + (if ok then {d} else {}) && (ok <==> Checked(hashing, View(), d))
    {
      ReceiveKeepsQuiescent(hashing, View(), d, now);
      ReceiveIsSound(hashing, View(), d, now);
      if !Verifies(hashing, keys, d) {
        return false;
      }
      var matched := pit.Satisfy(d.name);
      if matched.Some? {
        waiters := waiters - {d.name};
      }
      var previous := cs.Insert(d.name, d);
      var removed := pit.PurgeExpired(now);
      accepted := accepted + {d};
      return true;
    }
  }
}
