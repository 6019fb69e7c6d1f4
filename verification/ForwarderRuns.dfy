/** Whole runs of the forwarder (crates/icn/src/forwarder.rs): any sequence of its public calls, from a fresh one. */
module ForwarderRuns {
  import opened Bytes
  import opened IcnNames
  import opened IcnCodec
  import opened Fibs
  import opened Pits
  import opened Strategies
  import opened ContentStores
  import opened Forwarders

  datatype Call =
    | CallExpress(i: Interest, inFace: nat, reply: Reply, now: nat, later: nat)
    | CallReceive(d: Data, at: nat)
    | CallRegisterKeys(producer: bytes, key: bytes)
    | CallRegisterFace(id: nat, tolerance: nat)
    | CallUnregisterFace(id: nat)
    | CallAddRoute(prefix: Name, out: nat, cost: byte)

  /** Data that faces deliver names its producer. */
  predicate Proper(call: Call) {
    && (call.CallExpress? && call.reply.Answered? ==> HasProducer(call.reply.data.name))
    && (call.CallReceive? ==> HasProducer(call.d.name))
  }

  function AfterCall(c: Hashing, s: State, call: Call): State
    requires Proper(call)
  {
    match call
    case CallExpress(i, inFace, reply, now, later) => ExpressResult(c, s, i, inFace, reply, now, later).0
    case CallReceive(d, at) => ReceiveResult(c, s, d, at).0
    case CallRegisterKeys(producer, key) => s.(keys := s.keys[producer := key])
    case CallRegisterFace(id, tolerance) => s.(faces := s.faces[id := tolerance])
    case CallUnregisterFace(id) => s.(faces := s.faces - {id}, fib := FaceRemoved(s.fib, DUMMY, id))
    case CallAddRoute(prefix, out, cost) => s.(fib := Inserted(s.fib, prefix, out, cost))
  }

  const EMPTY: State := State([], [], map[], map[], map[], map[], map[])

  function AfterRun(c: Hashing, calls: seq<Call>): State
    requires AllProper(calls)
    decreases |calls|
  {
    if calls == [] then EMPTY
    else AfterCall(c, AfterRun(c, calls[..|calls| - 1]), calls[|calls| - 1])
  }

  predicate AllProper(calls: seq<Call>) { forall k :: 0 <= k < |calls| ==> Proper(calls[k]) }

  /** The call hands this data to the forwarder: as the answer of a face, or on its own. */
  predicate Brings(call: Call, d: Data) {
    (call.CallExpress? && call.reply == Answered(d)) || (call.CallReceive? && call.d == d)
  }

  /** Call `k` brought the data, and it verified under the key registered for its producer at that moment. */
  ghost predicate AcceptedAt(c: Hashing, calls: seq<Call>, k: nat, d: Data)
    requires AllProper(calls)
  {
    k < |calls| && Brings(calls[k], d) && Checked(c, AfterRun(c, calls[..k]), d)
  }

  ghost predicate Accepted(c: Hashing, calls: seq<Call>, d: Data)
    requires AllProper(calls)
  {
    exists k: nat :: AcceptedAt(c, calls, k, d)
  }

  /** Everything cached is cached under its own name and was accepted in the run. */
  ghost predicate CacheSound(c: Hashing, calls: seq<Call>)
    requires AllProper(calls)
  {
    forall e :: e in AfterRun(c, calls).store ==> e.name == e.data.name && Accepted(c, calls, e.data)
  }

  ghost predicate Safe(s: State) { Quiescent(s) && Tidy(s) && GoodTable(s.fib) }

  lemma ForwardKeepsRoutes(c: Hashing, s: State, i: Interest, inFace: nat, out: nat, reply: Reply, now: nat, later: nat)
    requires reply.Answered? ==> HasProducer(reply.data.name)
    ensures var t := ForwardResult(c, s, i, inFace, out, reply, now, later).0; t.fib == s.fib && t.keys == s.keys
  {
  }

  lemma ExpressKeepsRoutes(c: Hashing, s: State, i: Interest, inFace: nat, reply: Reply, now: nat, later: nat)
    requires reply.Answered? ==> HasProducer(reply.data.name)
    ensures var t := ExpressResult(c, s, i, inFace, reply, now, later).0; t.fib == s.fib && t.keys == s.keys
  {
    if Choice(s, i, now).ForwardTo? {
      ForwardKeepsRoutes(c, Noted(s, i, inFace, now), i, inFace, Choice(s, i, now).face, reply, now, later);
    }
  }

  /** The cache gains only what the call brought, if that verifies at this moment, under its own name. */
  ghost predicate Gains(c: Hashing, s: State, call: Call, t: State) {
    forall e :: e in t.store ==>
      e in s.store || (e.name == e.data.name && Brings(call, e.data) && Checked(c, s, e.data))
  }

  lemma ExpressIsSafe(c: Hashing, s: State, call: Call)
    requires Proper(call) && call.CallExpress? && Safe(s)
    ensures Safe(AfterCall(c, s, call)) && Gains(c, s, call, AfterCall(c, s, call))
  {
    var CallExpress(i, inFace, reply, now, later) := call;
    ExpressNeverBlocks(c, s, i, inFace, reply, now, later);
    ExpressIsSound(c, s, i, inFace, reply, now, later);
    ExpressKeepsRoutes(c, s, i, inFace, reply, now, later);
  }

  lemma ReceiveIsSafe(c: Hashing, s: State, call: Call)
    requires Proper(call) && call.CallReceive? && Safe(s)
    ensures Safe(AfterCall(c, s, call)) && Gains(c, s, call, AfterCall(c, s, call))
  {
    ReceiveKeepsQuiescent(c, s, call.d, call.at);
    ReceiveIsSound(c, s, call.d, call.at);
  }

  /** One call keeps the state safe, and the cache gains nothing else. */
  lemma CallIsSafe(c: Hashing, s: State, call: Call)
    requires Proper(call) && Safe(s)
    ensures Safe(AfterCall(c, s, call)) && Gains(c, s, call, AfterCall(c, s, call))
  {
    match call {
      case CallExpress(_, _, _, _, _) => ExpressIsSafe(c, s, call);
      case CallReceive(_, _) => ReceiveIsSafe(c, s, call);
      case CallUnregisterFace(id) => RemoveFaceKeepsTable(s.fib, DUMMY, id);
      case CallAddRoute(prefix, out, cost) => InsertKeepsTable(s.fib, prefix, out, cost);
      case _ =>
    }
  }

  /** What was accepted stays accepted as the run goes on. */
  lemma AcceptedGrows(c: Hashing, calls: seq<Call>, n: nat, d: Data)
    requires AllProper(calls) && n <= |calls| && Accepted(c, calls[..n], d)
    ensures Accepted(c, calls, d)
  {
    var k: nat :| AcceptedAt(c, calls[..n], k, d);
    assert calls[..n][..k] == calls[..k];
    assert AcceptedAt(c, calls, k, d);
  }

  lemma LastIsAccepted(c: Hashing, calls: seq<Call>, d: Data)
    requires AllProper(calls) && calls != [] && Brings(calls[|calls| - 1], d)
    requires Checked(c, AfterRun(c, calls[..|calls| - 1]), d)
    ensures Accepted(c, calls, d)
  {
    assert AcceptedAt(c, calls, |calls| - 1, d);
  }

  lemma GainsAreAccepted(c: Hashing, calls: seq<Call>, s: State, t: State)
    requires AllProper(calls) && calls != [] && s == AfterRun(c, calls[..|calls| - 1])
    requires CacheSound(c, calls[..|calls| - 1]) && Gains(c, s, calls[|calls| - 1], t)
    ensures forall e :: e in t.store ==> e.name == e.data.name && Accepted(c, calls, e.data)
  {
    forall e | e in t.store ensures e.name == e.data.name && Accepted(c, calls, e.data) {
      if e in s.store {
        AcceptedGrows(c, calls, |calls| - 1, e.data);
      } else {
        LastIsAccepted(c, calls, e.data);
      }
    }
  }

  /** In every run nothing stays pending and nobody is left waiting; and everything in the cache is there under its own
      name, was brought by some call, and verified at that call under the key registered for its producer then. */
  lemma {:induction false} EveryRunIsSafe(c: Hashing, calls: seq<Call>)
    requires AllProper(calls)
    ensures Safe(AfterRun(c, calls)) && CacheSound(c, calls)
    decreases |calls|
  {
    if calls != [] {
      var before, call := calls[..|calls| - 1], calls[|calls| - 1];
      var s := AfterRun(c, before);
      EveryRunIsSafe(c, before);
      CallIsSafe(c, s, call);
      GainsAreAccepted(c, calls, s, AfterCall(c, s, call));
    }
  }

  /** After every run an Interest is answered or refused, never left waiting. What it is answered with was accepted
      earlier in the run and cached, with the requested name if the match is exact; or it is what the face answered, and
      verifies under the key registered now. */
  lemma EveryAnswerIsVerified(c: Hashing, calls: seq<Call>, i: Interest, inFace: nat, reply: Reply, now: nat,
                              later: nat)
    requires AllProper(calls) && (reply.Answered? ==> HasProducer(reply.data.name))
    ensures var s := AfterRun(c, calls);
      var r := ExpressResult(c, s, i, inFace, reply, now, later).1;
      && !r.Blocks?
      && (r.Found? ==>
            if Choice(s, i, now).ServeFromCache?
            then Accepted(c, calls, r.data) && (!i.canBePrefix ==> r.data.name == i.name)
            else reply == Answered(r.data) && Checked(c, s, r.data))
  {
    var s := AfterRun(c, calls);
    EveryRunIsSafe(c, calls);
    ExpressNeverBlocks(c, s, i, inFace, reply, now, later);
    ExpressIsSound(c, s, i, inFace, reply, now, later);
  }

  // ---------- When keys change ----------

  /** From call `k` on no other key is registered for the producer. */
  predicate Unrotated(calls: seq<Call>, k: nat, producer: bytes, key: bytes) {
    forall j :: k <= j < |calls| && calls[j].CallRegisterKeys? && calls[j].producer == producer ==> calls[j].key == key
  }

  lemma CallKeepsKeys(c: Hashing, s: State, call: Call)
    requires Proper(call)
    ensures AfterCall(c, s, call).keys ==
      if call.CallRegisterKeys? then s.keys[call.producer := call.key] else s.keys
  {
    if call.CallExpress? {
      ExpressKeepsRoutes(c, s, call.i, call.inFace, call.reply, call.now, call.later);
    }
  }

  lemma {:induction false} KeyStays(c: Hashing, calls: seq<Call>, k: nat, producer: bytes)
    requires AllProper(calls) && k <= |calls| && producer in AfterRun(c, calls[..k]).keys
    requires Unrotated(calls, k, producer, AfterRun(c, calls[..k]).keys[producer])
    ensures var keys := AfterRun(c, calls).keys;
      producer in keys && keys[producer] == AfterRun(c, calls[..k]).keys[producer]
    decreases |calls|
  {
    if k == |calls| {
      assert calls[..k] == calls;
    } else {
      var before := calls[..|calls| - 1];
      assert before[..k] == calls[..k];
      KeyStays(c, before, k, producer);
      CallKeepsKeys(c, AfterRun(c, before), calls[|calls| - 1]);
    }
  }

  /** Data accepted at call `k` still verifies unless another key was registered for its producer since. */
  lemma AcceptedStillVerifies(c: Hashing, calls: seq<Call>, k: nat, d: Data)
    requires AllProper(calls) && AcceptedAt(c, calls, k, d)
    requires Unrotated(calls, k, d.name.components[0], AfterRun(c, calls[..k]).keys[d.name.components[0]])
    ensures Checked(c, AfterRun(c, calls), d)
  {
    KeyStays(c, calls, k, d.name.components[0]);
  }

  /** A new key does not empty the cache: data accepted under the old one is still there, though it no longer
      verifies. */
  lemma RotationKeepsCache(c: Hashing, d: Data, first: bytes, second: bytes)
    requires HasProducer(d.name) && VerifiedBy(c, first, d) && !VerifiedBy(c, second, d)
    ensures var p := d.name.components[0];
      var s := AfterRun(c, [CallRegisterKeys(p, first), CallReceive(d, 0), CallRegisterKeys(p, second)]);
      Find(s.store, d.name) == Some(d) && !Checked(c, s, d)
  {
    var p := d.name.components[0];
    var c1, c2, c3 := CallRegisterKeys(p, first), CallReceive(d, 0), CallRegisterKeys(p, second);
    assert [c1, c2, c3][..2] == [c1, c2] && [c1, c2][..1] == [c1] && [c1][..0] == [];
    var s1 := AfterRun(c, [c1]);
    assert AfterRun(c, [c1][..0]) == EMPTY;
    assert s1 == EMPTY.(keys := EMPTY.keys[p := first]);
    PutKeeps(s1.store, CAPACITY, d.name, d);
    var s2 := AfterRun(c, [c1, c2]);
    assert s2 == ReceiveResult(c, s1, d, 0).0;
    assert AfterRun(c, [c1, c2, c3]) == s2.(keys := s2.keys[p := second]);
  }

  // ---------- Routing ----------

  /** `face` is a cheapest face of the first-inserted entry among the longest prefixes of the name. */
  ghost predicate CheapestOfLongest(es: seq<Entry>, name: Name, face: nat) {
    exists e: nat, k: nat :: e < |es| && k < |es[e].faces| && LongestMatch(es, name, e) && es[e].faces[k].face == face
      && forall h :: h in es[e].faces ==> es[e].faces[k].cost <= h.cost
  }

  /** After every run an Interest that is forwarded goes to a cheapest face of the longest matching prefix, and one that
      finds neither a route nor a usable cached answer has no matching prefix. */
  lemma EveryRunRoutesBest(c: Hashing, calls: seq<Call>, i: Interest, now: nat)
    requires AllProper(calls)
    ensures var s := AfterRun(c, calls);
      match Choice(s, i, now)
      case ForwardTo(face) => CheapestOfLongest(s.fib, i.name, face)
      case NoRoute => forall e :: 0 <= e < |s.fib| ==> !StartsWith(i.name, s.fib[e].prefix)
      case ServeFromCache => CacheHit(s.store, i).Some? && SelectorSatisfied(i, CacheHit(s.store, i).value)
      case SuppressAggregate => false
  {
    var s := AfterRun(c, calls);
    EveryRunIsSafe(c, calls);
    ScanIsLongestMatch(s.fib, i.name, |s.fib|);
    assert s.fib[..|s.fib|] == s.fib;
    var best := BestEntry(s.fib, i.name, |s.fib|);
    if best.Some? {
      var hops := s.fib[best.value].faces;
      assert GoodFaces(hops);
      FirstUsableIsCheapest(BACKOFF, map[], hops, now);
    }
  }

  // ---------- What an Interest is answered with ----------

  /** The entry the Interest finds in the cache: that of its name, or the longest cached prefix of it. */
  ghost predicate FoundAt(s: Store, i: Interest, k: nat) {
    k < |s| && if i.canBePrefix then LongestPrefix(s, i.name, k) else s[k].name == i.name
  }

  lemma FoundOrNothing(s: Store, i: Interest)
    ensures (exists k: nat :: FoundAt(s, i, k)) || (forall k :: 0 <= k < |s| ==>
      if i.canBePrefix then !StartsWith(i.name, s[k].name) else s[k].name != i.name)
  {
    if i.canBePrefix {
      ScanIsLongestPrefix(s, i.name, |s|);
      assert s[..|s|] == s;
      var best := BestCached(s, i.name, |s|);
      if best.Some? {
        assert FoundAt(s, i, best.value);
      }
    } else if k :| 0 <= k < |s| && s[k].name == i.name {
      assert FoundAt(s, i, k);
    }
  }

  /** After every run an Interest that the same face has sent before, and that is still remembered, is an error and
      changes nothing. Any other is answered from the cache if and only if the entry it finds there is one its selector
      admits. Failing that it is answered with nothing when no route matches, and otherwise goes to a cheapest face of
      the longest matching prefix: then data is what the face answers if that verifies under its producer's key, nothing
      if the face times out, and an error if the face is missing, fails, or answers with anything else. */
  lemma EveryRunAnswersExactly(c: Hashing, calls: seq<Call>, i: Interest, inFace: nat, reply: Reply, now: nat, later: nat)
    requires AllProper(calls) && (reply.Answered? ==> HasProducer(reply.data.name))
    ensures var s := AfterRun(c, calls);
      var (t, r) := ExpressResult(c, s, i, inFace, reply, now, later);
      if (inFace, i.nonce) in s.nonces then r == Error && t == s
      else if exists k: nat :: FoundAt(s.store, i, k) && Admits(i.selector, s.store[k].data.metadata)
      then exists k: nat :: FoundAt(s.store, i, k) && Admits(i.selector, s.store[k].data.metadata)
             && r == Found(s.store[k].data)
      else if forall e :: 0 <= e < |s.fib| ==> !StartsWith(i.name, s.fib[e].prefix) then r == Nothing
      else exists face :: CheapestOfLongest(s.fib, i.name, face) && r == AnswerOf(c, s, face, reply)
  {
    var s := AfterRun(c, calls);
    EveryRunIsSafe(c, calls);
    if (inFace, i.nonce) !in s.nonces {
      ServesExactly(c, s, i, inFace, reply, now, later);
      EveryRunRoutesBest(c, calls, i, now);
      ActsOnChoice(c, s, i, inFace, reply, now, later);
    }
  }

  /** The cache part of it. */
  lemma ServesExactly(c: Hashing, s: State, i: Interest, inFace: nat, reply: Reply, now: nat, later: nat)
    requires (reply.Answered? ==> HasProducer(reply.data.name)) && Distinct(s.store) && (inFace, i.nonce) !in s.nonces
    ensures Choice(s, i, now) == ServeFromCache <==>
      exists k: nat :: FoundAt(s.store, i, k) && Admits(i.selector, s.store[k].data.metadata)
    ensures Choice(s, i, now) == ServeFromCache ==>
      exists k: nat :: FoundAt(s.store, i, k) && Admits(i.selector, s.store[k].data.metadata)
        && ExpressResult(c, s, i, inFace, reply, now, later).1 == Found(s.store[k].data)
  {
    FoundOrNothing(s.store, i);
    if k: nat :| FoundAt(s.store, i, k) {
      OneIsFound(s.store, i, k);
      CacheAnswers(c, s, i, inFace, reply, now, later, k);
    } else {
      NothingCached(s, i, now);
    }
  }

  /** The rest of it: the outcome of forwarding, or of finding no route. */
  lemma ActsOnChoice(c: Hashing, s: State, i: Interest, inFace: nat, reply: Reply, now: nat, later: nat)
    requires (reply.Answered? ==> HasProducer(reply.data.name)) && Quiescent(s) && (inFace, i.nonce) !in s.nonces
    ensures var r, choice := ExpressResult(c, s, i, inFace, reply, now, later).1, Choice(s, i, now);
      && (choice == NoRoute ==> r == Nothing)
      && (choice.ForwardTo? ==> r == AnswerOf(c, s, choice.face, reply))
  {
    if Choice(s, i, now).ForwardTo? {
      ForwardExactly(c, Noted(s, i, inFace, now), i, inFace, Choice(s, i, now).face, reply, now, later);
    }
  }

  /** The selector, in the words of the specification. */
  predicate Admits(selector: Option<Selector>, meta: Metadata) {
    selector.Some? ==>
      var sel := selector.value;
      && (sel.mustBeFresh ==> meta.freshness == Fresh)
      && (sel.minSequence.Some? ==> meta.sequence.Some? && sel.minSequence.value <= meta.sequence.value)
      && (meta.contentHash.Some? ==> meta.contentHash.value !in sel.excludeHashes)
  }

  /** What the answer of a face comes to. */
  function AnswerOf(c: Hashing, s: State, face: nat, reply: Reply): Outcome
    requires reply.Answered? ==> HasProducer(reply.data.name)
  {
    if face !in s.faces then Error
    else
      match reply
      case TimedOut => Nothing
      case Failed => Error
      case Answered(d) =>
        var producer := d.name.components[0];
        if producer in s.keys && c.verify(s.keys[producer], c.blake3(NameBytes(d.name) + d.content), d.signature)
        then Found(d) else Error
  }

  lemma OneIsFound(s: Store, i: Interest, k: nat)
    requires Distinct(s) && FoundAt(s, i, k)
    ensures forall j: nat :: FoundAt(s, i, j) ==> j == k
  {
    forall j: nat | FoundAt(s, i, j) ensures j == k {
      if i.canBePrefix {
        assert StartsWith(i.name, s[j].name) && StartsWith(i.name, s[k].name);
      }
    }
  }

  // ---------- Loops, over whole runs ----------

  /** The call ends by purging what has expired. */
  predicate Purges(c: Hashing, s: State, call: Call)
    requires Proper(call)
  {
    || (call.CallExpress?
        && (call.inFace, call.i.nonce) !in s.nonces
        && Choice(s, call.i, call.now).ForwardTo? && Choice(s, call.i, call.now).face in s.faces
        && (call.reply.Answered? ==> Checked(c, s, call.reply.data)))
    || (call.CallReceive? && Checked(c, s, call.d))
  }

  /** What a call does to the nonces: an Interest that is no loop is recorded, and a purge may follow. */
  function NonceOpsOf(c: Hashing, s: State, call: Call): seq<NonceOp>
    requires Proper(call)
  {
    match call
    case CallExpress(i, inFace, _, now, later) =>
      if (inFace, i.nonce) in s.nonces then []
      else [Record(inFace, i.nonce, now)] + (if Purges(c, s, call) then [Purge(later)] else [])
    case CallReceive(_, at) => if Purges(c, s, call) then [Purge(at)] else []
    case _ => []
  }

  function NonceOps(c: Hashing, calls: seq<Call>): seq<NonceOp>
    requires AllProper(calls)
    decreases |calls|
  {
    if calls == [] then []
    else
      var before := calls[..|calls| - 1];
      NonceOps(c, before) + NonceOpsOf(c, AfterRun(c, before), calls[|calls| - 1])
  }

  lemma NonceSnoc(ops: seq<NonceOp>, op: NonceOp)
    ensures NoncesAfter(ops + [op]) ==
      if op.Record? then NoncesAfter(ops)[(op.face, op.nonce) := op.at + NONCE_TTL]
      else NoncesPurged(NoncesAfter(ops), op.now)
  {
    assert (ops + [op])[..|ops|] == ops;
  }

  lemma ForwardNonces(c: Hashing, s: State, i: Interest, inFace: nat, out: nat, reply: Reply, now: nat, later: nat)
    requires reply.Answered? ==> HasProducer(reply.data.name)
    ensures ForwardResult(c, s, i, inFace, out, reply, now, later).0.nonces ==
      if out in s.faces && (reply.Answered? ==> Checked(c, s, reply.data)) then NoncesPurged(s.nonces, later) else s.nonces
  {
  }

  lemma ExpressNonces(c: Hashing, s: State, call: Call)
    requires Proper(call) && call.CallExpress? && (call.inFace, call.i.nonce) !in s.nonces
    ensures var recorded := s.nonces[(call.inFace, call.i.nonce) := call.now + NONCE_TTL];
      AfterCall(c, s, call).nonces == if Purges(c, s, call) then NoncesPurged(recorded, call.later) else recorded
  {
    var CallExpress(i, inFace, reply, now, later) := call;
    ActedNonces(c, Noted(s, i, inFace, now), i, inFace, Choice(s, i, now), CacheHit(s.store, i), reply, now, later);
  }

  lemma ActedNonces(c: Hashing, s: State, i: Interest, inFace: nat, decision: Decision, hit: Option<Data>, reply: Reply,
                    now: nat, later: nat)
    requires (decision.ServeFromCache? ==> hit.Some?) && (reply.Answered? ==> HasProducer(reply.data.name))
    ensures Acted(c, s, i, inFace, decision, hit, reply, now, later).0.nonces ==
      if decision.ForwardTo? && decision.face in s.faces && (reply.Answered? ==> Checked(c, s, reply.data))
      then NoncesPurged(s.nonces, later) else s.nonces
  {
    if decision.ForwardTo? {
      ForwardNonces(c, s, i, inFace, decision.face, reply, now, later);
    }
  }

  lemma NonceStep(c: Hashing, s: State, ops: seq<NonceOp>, call: Call)
    requires Proper(call) && s.nonces == NoncesAfter(ops)
    ensures AfterCall(c, s, call).nonces == NoncesAfter(ops + NonceOpsOf(c, s, call))
  {
    assert ops + [] == ops;
    if call.CallExpress? && (call.inFace, call.i.nonce) !in s.nonces {
      var record, purge := Record(call.inFace, call.i.nonce, call.now), Purge(call.later);
      ExpressNonces(c, s, call);
      NonceSnoc(ops, record);
      NonceSnoc(ops + [record], purge);
      assert ops + ([record] + [purge]) == (ops + [record]) + [purge];
      assert ops + ([record] + []) == ops + [record];
    } else if call.CallReceive? {
      NonceSnoc(ops, Purge(call.at));
    }
  }

  lemma {:induction false} NoncesOfRun(c: Hashing, calls: seq<Call>)
    requires AllProper(calls)
    ensures AfterRun(c, calls).nonces == NoncesAfter(NonceOps(c, calls))
    decreases |calls|
  {
    if calls != [] {
      var before := calls[..|calls| - 1];
      NoncesOfRun(c, before);
      NonceStep(c, AfterRun(c, before), NonceOps(c, before), calls[|calls| - 1]);
    }
  }

  /** After every run an Interest is refused as a loop if and only if the same face sent its nonce before, and no purge
      came 60 seconds or more after the last time it did. */
  lemma LoopsAreRefusedExactly(c: Hashing, calls: seq<Call>, i: Interest, inFace: nat, reply: Reply, now: nat, later: nat)
    requires AllProper(calls) && (reply.Answered? ==> HasProducer(reply.data.name))
    ensures var s, ops := AfterRun(c, calls), NonceOps(c, calls);
      && ((inFace, i.nonce) in s.nonces <==> exists k: nat :: StillKept(ops, inFace, i.nonce, k))
      && ((inFace, i.nonce) in s.nonces ==> ExpressResult(c, s, i, inFace, reply, now, later) == (s, Error))
  {
    NoncesOfRun(c, calls);
    LoopExactly(NonceOps(c, calls), inFace, i.nonce);
  }
}
