/** What a channel delivers, over whole streams with a wrapping sequence number and a network that loses, repeats
    and reorders packets. */
module ChannelOrder {
  import opened Bytes
  import opened Packets
  import opened Links
  import opened Channels

  datatype Message = Message(kind: nat, payload: bytes)

  /** The envelope of message number `a` of a stream. */
  function EnvelopeOf(sent: seq<Message>, a: nat): Envelope
    requires a < |sent|
  {
    Envelope(sent[a].kind, a % SEQ_RANGE, sent[a].payload)
  }

  function Payloads(sent: seq<Message>, n: nat): seq<bytes>
    requires n <= |sent|
  {
    seq(n, i requires 0 <= i < n => sent[i].payload)
  }

  /** The number of the message the receiver takes packet `a` for, when the next one it expects is number `n`. */
  function FiledAs(n: nat, a: nat): Option<nat> {
    var d := (a - n) % SEQ_RANGE;
    if d == 0 || (d < WINDOW && n % SEQ_RANGE + d < SEQ_RANGE) then Some(n + d) else None
  }

  predicate Misfiled(n: nat, a: nat) {
    FiledAs(n, a).Some? && FiledAs(n, a).value != a
  }

  /** No packet is misfiled while it is less than 2^32 ahead and no more than 2^32 - 1000 behind. */
  lemma NearPacketsAreFiled(n: nat, a: nat)
    requires n - (0x1_0000_0000 - 1000) <= a < n + 0x1_0000_0000
    ensures !Misfiled(n, a)
  {
    if a < n {
      assert (a - n) % SEQ_RANGE == a - n + SEQ_RANGE;
    } else {
      assert (a - n) % SEQ_RANGE == a - n;
    }
  }

  /** Both ends of that range are sharp. */
  lemma FarPacketsAreMisfiled(n: nat)
    ensures Misfiled(n, n + 0x1_0000_0000)
    ensures n >= 0x1_0000_0000 - 999 && n % 0x1_0000_0000 + 999 < 0x1_0000_0000 ==> Misfiled(n, n - 0x1_0000_0000 + 999)
  {
    if n >= SEQ_RANGE - 999 {
      assert (n - SEQ_RANGE + 999 - n) % SEQ_RANGE == 999;
    }
  }

  /** Message number `i`, sent over one link and read from the wire by the other end, reaches the receiver as the
      envelope of message number `i`. */
  lemma SentIsAccepted(c: Cipher, a: LinkView, b: LinkView, hashA: Hash, hashB: Hash, sent: seq<Message>, i: nat,
                       rx: Rx, handlers: set<nat>, random: bytes, secret: bytes)
    requires c.Laws() && a.state == b.state == Established
    requires a.sharedKey.Some? && a.sharedKey == b.sharedKey && a.linkId == b.linkId
    requires a.transportId == XorHash(hashA, hashB) && b.transportId == XorHash(hashB, hashA)
    requires i < |sent| && sent[i].kind < 0x1_0000
    requires SendOutcome(c, a, i % SEQ_RANGE, sent[i].kind, sent[i].payload, random).Ok?
    ensures var packet := SendOutcome(c, a, i % SEQ_RANGE, sent[i].kind, sent[i].payload, random).value;
      var arrived := FromBytes(ToBytes(packet));
      && arrived.Ok?
      && var m := DeliverResult(c, secret, b, arrived.value);
      && m.Ok?
      && AcceptAll(rx, handlers, [m.value]) == (Accept(rx, handlers, EnvelopeOf(sent, i)), [], true)
  {
    var e := EnvelopeOf(sent, i);
    EncryptedSendBound(c, a, i % SEQ_RANGE, sent[i].kind, sent[i].payload, random);
    DataDelivered(c, a, b, hashA, hashB, Pack(e), random, secret);
    EnvelopeRoundTrip(e);
    assert AcceptAll(Accept(rx, handlers, e), handlers, [Pack(e)][1..]) == (Accept(rx, handlers, e), [], true);
  }

  // ---------- Ordered delivery ----------

  /** Delivered is a prefix of sent with nothing for a handler in it; the buffer holds later messages of the window
      under their own numbers. */
  ghost predicate Sound(sent: seq<Message>, handlers: set<nat>, rx: Rx) {
    var n := |rx.delivered|;
    && n <= |sent| && rx.delivered == Payloads(sent, n) && rx.next == n % SEQ_RANGE
    && (forall i :: 0 <= i < n ==> sent[i].kind !in handlers)
    && (forall k :: k in rx.buffer ==> Buffered(sent, handlers, rx, n, k))
  }

  ghost predicate Buffered(sent: seq<Message>, handlers: set<nat>, rx: Rx, n: nat, k: nat)
    requires k in rx.buffer
  {
    && rx.next < k < SEQ_RANGE && k - rx.next < WINDOW
    && n + (k - rx.next) < |sent|
    && sent[n + (k - rx.next)].kind !in handlers
    && rx.buffer[k] == sent[n + (k - rx.next)].payload
  }

  /** Sound except that the message expected next may already be in the buffer. */
  ghost predicate Draining(sent: seq<Message>, handlers: set<nat>, rx: Rx) {
    var n := |rx.delivered|;
    && n <= |sent| && rx.delivered == Payloads(sent, n) && rx.next == n % SEQ_RANGE
    && (forall i :: 0 <= i < n ==> sent[i].kind !in handlers)
    && (forall k :: k in rx.buffer ==>
          && rx.next <= k < SEQ_RANGE && k - rx.next < WINDOW
          && n + (k - rx.next) < |sent|
          && sent[n + (k - rx.next)].kind !in handlers
          && rx.buffer[k] == sent[n + (k - rx.next)].payload)
  }

  lemma BumpStep(n: nat)
    ensures Bump(n % SEQ_RANGE) == (n + 1) % SEQ_RANGE
    ensures n % SEQ_RANGE < SEQ_RANGE - 1 ==> (n + 1) % SEQ_RANGE == n % SEQ_RANGE + 1
  {
    var q, r := n / SEQ_RANGE, n % SEQ_RANGE;
    assert n == SEQ_RANGE * q + r;
    if r == SEQ_RANGE - 1 {
      assert n + 1 == SEQ_RANGE * (q + 1);
    } else {
      assert n + 1 == SEQ_RANGE * q + (r + 1);
    }
  }

  /** Pushing message `n` leaves the receiver draining. */
  lemma PushKeeps(sent: seq<Message>, handlers: set<nat>, rx: Rx, rx': Rx)
    requires Draining(sent, handlers, rx) && |rx.delivered| < |sent| && sent[|rx.delivered|].kind !in handlers
    requires rx' == rx.(next := Bump(rx.next), buffer := rx.buffer - {rx.next},
                        delivered := rx.delivered + [sent[|rx.delivered|].payload])
    ensures Draining(sent, handlers, rx')
  {
    var n := |rx.delivered|;
    BumpStep(n);
    assert rx'.delivered == Payloads(sent, n + 1);
    forall k | k in rx'.buffer
      ensures rx'.next <= k && k - rx'.next < WINDOW && n + 1 + (k - rx'.next) == n + (k - rx.next)
    {
      assert rx.next < k < SEQ_RANGE;
    }
  }

  lemma {:induction false} DrainKeeps(sent: seq<Message>, handlers: set<nat>, rx: Rx)
    requires Draining(sent, handlers, rx)
    ensures Sound(sent, handlers, Drain(rx))
    decreases |rx.buffer|
  {
    if rx.next in rx.buffer {
      var rx' := rx.(next := Bump(rx.next), buffer := rx.buffer - {rx.next},
                     delivered := rx.delivered + [rx.buffer[rx.next]]);
      PushKeeps(sent, handlers, rx, rx');
      DrainKeeps(sent, handlers, rx');
    }
  }

  lemma FiledBySequence(n: nat, a: nat)
    ensures a % SEQ_RANGE == n % SEQ_RANGE <==> FiledAs(n, a) == Some(n)
    ensures (n % SEQ_RANGE < a % SEQ_RANGE && a % SEQ_RANGE - n % SEQ_RANGE < WINDOW) <==>
      FiledAs(n, a).Some? && FiledAs(n, a).value > n
    ensures FiledAs(n, a).Some? ==> FiledAs(n, a).value == n + (a % SEQ_RANGE - n % SEQ_RANGE)
  {
    var p, q := a % SEQ_RANGE, n % SEQ_RANGE;
    assert a - n == (a / SEQ_RANGE - n / SEQ_RANGE) * SEQ_RANGE + (p - q);
    if p >= q {
      ModOf(a - n, a / SEQ_RANGE - n / SEQ_RANGE, p - q);
    } else {
      ModOf(a - n, a / SEQ_RANGE - n / SEQ_RANGE - 1, p - q + SEQ_RANGE);
    }
  }

  lemma ModOf(x: int, k: int, r: nat)
    requires x == k * SEQ_RANGE + r && r < SEQ_RANGE
    ensures x % SEQ_RANGE == r
  {
  }

  /** A packet that is not misfiled keeps the receiver sound. */
  lemma AcceptKeeps(sent: seq<Message>, handlers: set<nat>, rx: Rx, a: nat)
    requires Sound(sent, handlers, rx) && a < |sent| && !Misfiled(|rx.delivered|, a)
    ensures Sound(sent, handlers, Accept(rx, handlers, EnvelopeOf(sent, a)))
  {
    var n, e := |rx.delivered|, EnvelopeOf(sent, a);
    FiledBySequence(n, a);
    if e.kind !in handlers {
      if e.sequence == rx.next {
        var rx' := rx.(next := Bump(rx.next), delivered := rx.delivered + [e.payload]);
        assert rx.buffer - {rx.next} == rx.buffer;
        PushKeeps(sent, handlers, rx, rx');
        DrainKeeps(sent, handlers, rx');
      }
    }
  }

  function RunRx(handlers: set<nat>, sent: seq<Message>, order: seq<nat>): Rx
    requires forall i :: 0 <= i < |order| ==> order[i] < |sent|
  {
    if order == [] then Rx(0, map[], [], [])
    else Accept(RunRx(handlers, sent, order[..|order| - 1]), handlers, EnvelopeOf(sent, order[|order| - 1]))
  }

  /** No packet of the run arrives so early or so late that its number is taken for another. */
  predicate Timely(handlers: set<nat>, sent: seq<Message>, order: seq<nat>)
    requires forall i :: 0 <= i < |order| ==> order[i] < |sent|
  {
    order != [] ==>
      && Timely(handlers, sent, order[..|order| - 1])
      && !Misfiled(|RunRx(handlers, sent, order[..|order| - 1]).delivered|, order[|order| - 1])
  }

  lemma {:induction false} RunIsSound(handlers: set<nat>, sent: seq<Message>, order: seq<nat>)
    requires forall i :: 0 <= i < |order| ==> order[i] < |sent|
    requires Timely(handlers, sent, order)
    ensures Sound(sent, handlers, RunRx(handlers, sent, order))
  {
    if order != [] {
      RunIsSound(handlers, sent, order[..|order| - 1]);
      AcceptKeeps(sent, handlers, RunRx(handlers, sent, order[..|order| - 1]), order[|order| - 1]);
    }
  }

  /** Every packet of the run arrives less than 2^32 ahead of the message expected next and no more than 2^32 - 1000
      behind it. */
  predicate Near(handlers: set<nat>, sent: seq<Message>, order: seq<nat>)
    requires forall i :: 0 <= i < |order| ==> order[i] < |sent|
  {
    order != [] ==>
      && Near(handlers, sent, order[..|order| - 1])
      && var n := |RunRx(handlers, sent, order[..|order| - 1]).delivered|;
      n - (0x1_0000_0000 - 1000) <= order[|order| - 1] < n + 0x1_0000_0000
  }

  /** Such a run is timely. */
  lemma {:induction false} NearRunsAreTimely(handlers: set<nat>, sent: seq<Message>, order: seq<nat>)
    requires forall i :: 0 <= i < |order| ==> order[i] < |sent|
    requires Near(handlers, sent, order)
    ensures Timely(handlers, sent, order)
  {
    if order != [] {
      NearRunsAreTimely(handlers, sent, order[..|order| - 1]);
      NearPacketsAreFiled(|RunRx(handlers, sent, order[..|order| - 1]).delivered|, order[|order| - 1]);
    }
  }

  lemma {:induction false} KeysBounded(s: set<nat>, lo: nat, n: nat)
    requires forall k :: k in s ==> lo < k <= lo + n
    ensures |s| <= n
    decreases n
  {
    if n == 0 {
      assert s == {};
    } else {
      KeysBounded(s - {lo + n}, lo, n - 1);
    }
  }

  /** Channel order: whatever the network loses, repeats or reorders, what is delivered is a prefix of what was sent;
      a message for a handler ends it for good; the buffer holds at most 999 numbers, all above the next. */
  lemma DeliversInOrder(handlers: set<nat>, sent: seq<Message>, order: seq<nat>)
    requires forall i :: 0 <= i < |order| ==> order[i] < |sent|
    requires Timely(handlers, sent, order)
    ensures var rx := RunRx(handlers, sent, order);
      && |rx.delivered| <= |sent| && rx.delivered == Payloads(sent, |rx.delivered|)
      && (forall h :: 0 <= h < |sent| && sent[h].kind in handlers ==> |rx.delivered| <= h)
      && (forall k :: k in rx.buffer ==> rx.next < k < rx.next + WINDOW)
      && |rx.buffer| <= 999
  {
    RunIsSound(handlers, sent, order);
    var rx := RunRx(handlers, sent, order);
    forall k | k in rx.buffer
      ensures rx.next < k < rx.next + WINDOW
    {
      assert Buffered(sent, handlers, rx, |rx.delivered|, k);
    }
    KeysBounded(rx.buffer.Keys, rx.next, 999);
  }

  /** The messages for handlers among the packets, in order of arrival. */
  function ForHandlers(handlers: set<nat>, sent: seq<Message>, order: seq<nat>): seq<(nat, bytes)>
    requires forall i :: 0 <= i < |order| ==> order[i] < |sent|
  {
    if order == [] then []
    else
      var m := sent[order[|order| - 1]];
      ForHandlers(handlers, sent, order[..|order| - 1]) + (if m.kind in handlers then [(m.kind, m.payload)] else [])
  }

  lemma {:induction false} DrainCallsNobody(rx: Rx)
    ensures Drain(rx).handled == rx.handled
    decreases |rx.buffer|
  {
    if rx.next in rx.buffer {
      DrainCallsNobody(rx.(next := Bump(rx.next), buffer := rx.buffer - {rx.next},
                           delivered := rx.delivered + [rx.buffer[rx.next]]));
    }
  }

  /** Handlers are called at once, in order of arrival and once for every arrival, whatever the sequence numbers say. */
  lemma {:induction false} HandlersGetAll(handlers: set<nat>, sent: seq<Message>, order: seq<nat>)
    requires forall i :: 0 <= i < |order| ==> order[i] < |sent|
    ensures RunRx(handlers, sent, order).handled == ForHandlers(handlers, sent, order)
  {
    if order != [] {
      var before, e := RunRx(handlers, sent, order[..|order| - 1]), EnvelopeOf(sent, order[|order| - 1]);
      HandlersGetAll(handlers, sent, order[..|order| - 1]);
      DrainCallsNobody(before.(next := Bump(before.next), delivered := before.delivered + [e.payload]));
    }
  }

  lemma {:induction false} DrainExtends(rx: Rx)
    ensures rx.delivered <= Drain(rx).delivered
    decreases |rx.buffer|
  {
    if rx.next in rx.buffer {
      DrainExtends(rx.(next := Bump(rx.next), buffer := rx.buffer - {rx.next},
                       delivered := rx.delivered + [rx.buffer[rx.next]]));
    }
  }

  /** The condition is exact: a misfiled packet breaks the order or poisons the buffer, unless its payload happens to
      be that of the message it is taken for. */
  lemma MisfiledBreaksOrder(sent: seq<Message>, handlers: set<nat>, rx: Rx, a: nat)
    requires Sound(sent, handlers, rx) && a < |sent| && sent[a].kind !in handlers
    requires Misfiled(|rx.delivered|, a)
    requires FiledAs(|rx.delivered|, a).value < |sent| ==>
      sent[FiledAs(|rx.delivered|, a).value].payload != sent[a].payload
    ensures !Sound(sent, handlers, Accept(rx, handlers, EnvelopeOf(sent, a)))
  {
    var n, e := |rx.delivered|, EnvelopeOf(sent, a);
    var rx' := Accept(rx, handlers, e);
    FiledBySequence(n, a);
    if e.sequence == rx.next {
      DrainExtends(rx.(next := Bump(rx.next), delivered := rx.delivered + [e.payload]));
      assert rx'.delivered[n] == sent[a].payload;
      assert n < |sent| && |rx'.delivered| <= |sent| ==> Payloads(sent, |rx'.delivered|)[n] == sent[n].payload;
    } else {
      assert e.sequence in rx'.buffer && !Buffered(sent, handlers, rx', n, e.sequence);
    }
  }

  // ---------- Completeness ----------

  function Seen(order: seq<nat>): set<nat> { set i | 0 <= i < |order| :: order[i] }

  /** The messages seen that are not for a handler. */
  function Queued(handlers: set<nat>, sent: seq<Message>, order: seq<nat>): set<nat> {
    set i | i in Seen(order) && i < |sent| && sent[i].kind !in handlers
  }

  /** Everything below `next` was queued, and the buffer is exactly what was queued from `next` on. */
  ghost predicate Gathered(queued: set<nat>, rx: Rx) {
    && rx.next == |rx.delivered|
    && (forall i :: 0 <= i < rx.next ==> i in queued)
    && (forall k :: k in rx.buffer <==> k in queued && k >= rx.next)
  }

  lemma {:induction false} DrainGathers(queued: set<nat>, rx: Rx, bound: nat)
    requires Gathered(queued, rx) && bound < SEQ_RANGE && rx.next <= bound && (forall i :: i in queued ==> i < bound)
    ensures Gathered(queued, Drain(rx)) && Drain(rx).next !in queued && Drain(rx).next <= bound
    decreases |rx.buffer|
  {
    if rx.next in rx.buffer {
      var rx' := rx.(next := Bump(rx.next), buffer := rx.buffer - {rx.next},
                     delivered := rx.delivered + [rx.buffer[rx.next]]);
      assert rx'.next == rx.next + 1;
      DrainGathers(queued, rx', bound);
    }
  }

  lemma AcceptGathers(handlers: set<nat>, queued: set<nat>, rx: Rx, e: Envelope, bound: nat)
    requires Gathered(queued, rx) && rx.next !in queued && rx.next <= bound < SEQ_RANGE
    requires (forall i :: i in queued ==> i < bound) && e.sequence < bound
    requires e.kind in handlers || e.sequence < rx.next + WINDOW
    ensures var rx', queued' := Accept(rx, handlers, e), if e.kind in handlers then queued else queued + {e.sequence};
      Gathered(queued', rx') && rx'.next !in queued' && rx'.next <= bound
  {
    if e.kind !in handlers && e.sequence == rx.next {
      DrainGathers(queued + {e.sequence}, rx.(next := Bump(rx.next), delivered := rx.delivered + [e.payload]), bound);
    }
  }

  lemma SeenSnoc(order: seq<nat>)
    requires order != []
    ensures Seen(order) == Seen(order[..|order| - 1]) + {order[|order| - 1]}
  {
    forall x | x in Seen(order)
      ensures x in Seen(order[..|order| - 1]) + {order[|order| - 1]}
    {
      var i :| 0 <= i < |order| && order[i] == x;
      assert i < |order| - 1 ==> order[..|order| - 1][i] == x;
    }
    forall x | x in Seen(order[..|order| - 1]) + {order[|order| - 1]}
      ensures x in Seen(order)
    {
      if x != order[|order| - 1] {
        var i :| 0 <= i < |order| - 1 && order[..|order| - 1][i] == x;
        assert order[i] == x;
      }
    }
  }

  lemma QueuedSnoc(handlers: set<nat>, sent: seq<Message>, order: seq<nat>)
    requires order != [] && order[|order| - 1] < |sent|
    ensures var before, a := order[..|order| - 1], order[|order| - 1];
      Queued(handlers, sent, order) ==
      if sent[a].kind in handlers then Queued(handlers, sent, before) else Queued(handlers, sent, before) + {a}
  {
    SeenSnoc(order);
  }

  /** Every packet that is not for a handler arrives less than a window ahead of the next number expected. */
  predicate WithinWindow(handlers: set<nat>, sent: seq<Message>, order: seq<nat>)
    requires forall i :: 0 <= i < |order| ==> order[i] < |sent|
  {
    order != [] ==>
      && WithinWindow(handlers, sent, order[..|order| - 1])
      && (sent[order[|order| - 1]].kind in handlers
          || order[|order| - 1] < RunRx(handlers, sent, order[..|order| - 1]).next + WINDOW)
  }

  /** Before wrap-around no packet is misfiled. */
  lemma UnwrappedIsFiled(n: nat, a: nat)
    requires n < SEQ_RANGE && a < SEQ_RANGE
    ensures !Misfiled(n, a)
  {
    if a < n {
      ModOf(a - n, -1, a - n + SEQ_RANGE);
    } else {
      ModOf(a - n, 0, a - n);
    }
  }

  /** The receiver against its specification: delivered is everything before the first message that is unseen or for a
      handler, and the buffer is exactly the other messages seen beyond it. */
  ghost predicate Contiguous(handlers: set<nat>, sent: seq<Message>, order: seq<nat>, rx: Rx) {
    var queued := Queued(handlers, sent, order);
    Gathered(queued, rx) && rx.next !in queued && rx.next <= |sent|
  }

  lemma ContiguousStep(handlers: set<nat>, sent: seq<Message>, order: seq<nat>, rx: Rx)
    requires |sent| < SEQ_RANGE && order != [] && order[|order| - 1] < |sent|
    requires Contiguous(handlers, sent, order[..|order| - 1], rx)
    requires sent[order[|order| - 1]].kind in handlers || order[|order| - 1] < rx.next + WINDOW
    ensures Contiguous(handlers, sent, order, Accept(rx, handlers, EnvelopeOf(sent, order[|order| - 1])))
    ensures !Misfiled(|rx.delivered|, order[|order| - 1])
  {
    var before, a := order[..|order| - 1], order[|order| - 1];
    QueuedSnoc(handlers, sent, order);
    UnwrappedIsFiled(rx.next, a);
    assert EnvelopeOf(sent, a).sequence == a;
    AcceptGathers(handlers, Queued(handlers, sent, before), rx, EnvelopeOf(sent, a), |sent|);
  }

  /** Channel completeness: before the sequence number wraps, the next number expected is the smallest one that is
      unseen or for a handler, the buffer is exactly what was seen above it and is not for a handler, and the run meets
      the condition under which what is delivered is a prefix of what was sent. */
  lemma {:induction false} DeliversAllContiguous(handlers: set<nat>, sent: seq<Message>, order: seq<nat>)
    requires |sent| < SEQ_RANGE
    requires forall i :: 0 <= i < |order| ==> order[i] < |sent|
    requires WithinWindow(handlers, sent, order)
    ensures Contiguous(handlers, sent, order, RunRx(handlers, sent, order))
    ensures Timely(handlers, sent, order)
  {
    if order != [] {
      var before := order[..|order| - 1];
      DeliversAllContiguous(handlers, sent, before);
      ContiguousStep(handlers, sent, order, RunRx(handlers, sent, before));
    }
  }
}
