/** Announce flooding (the propagation step of `handle_announce` in crates/daemon/src/lib.rs). */
module Announces {
  import opened Bytes
  import opened Packets

  class Forwarder {
    var sentAnnounces: set<Hash>

    constructor ()
      ensures sentAnnounces == {}
    {
      sentAnnounces := {};
    }

    /** Forward an announce with hops left, once per destination, with one hop fewer. In a network this is what the
        delivery of the announce to a node with these `sentAnnounces` does. */
    method Propagate(packet: Packet) returns (forwarded: Option<Packet>)
      modifies this`sentAnnounces
      ensures forwarded.Some? <==> packet.hops > 0 && packet.destinationHash !in old(sentAnnounces)
      ensures forwarded.Some? ==> forwarded.value == packet.(hops := packet.hops - 1)
      ensures sentAnnounces == old(sentAnnounces) + (if forwarded.Some? then {packet.destinationHash} else {})
      ensures forall w: Net, i: nat, recipients: seq<nat> ::
        Awaits(w, i, old(sentAnnounces), packet) ==> Delivered(w, i, recipients, sentAnnounces, forwarded)
    {
      forwarded := None;
      if packet.hops > 0 {
        if packet.destinationHash !in sentAnnounces {
          sentAnnounces := sentAnnounces + {packet.destinationHash};
          forwarded := Some(packet.(hops := packet.hops - 1));
        }
      }
      forall w: Net, i: nat, recipients: seq<nat> | Awaits(w, i, old(sentAnnounces), packet)
        ensures Delivered(w, i, recipients, sentAnnounces, forwarded)
      {
        StepIsPropagate(w, i, recipients, old(sentAnnounces), packet, sentAnnounces, forwarded);
      }
    }
  }

  // ---------- A network of forwarders ----------

  /** An announce on its way to a node. */
  datatype Message = Message(node: nat, dest: Hash, hops: nat)

  /** `sent` holds the (node, destination) pairs in the nodes' `sentAnnounces`. */
  datatype Net = Net(inflight: seq<Message>, sent: set<(nat, Hash)>)

  datatype Event =
    | Deliver(i: nat, recipients: seq<nat>)
    | Lose(i: nat)
    | Duplicate(i: nat)
    | Originate(dest: Hash, hops: nat, recipients: seq<nat>)

  function Copies(dest: Hash, hops: nat, recipients: seq<nat>): seq<Message> {
    seq(|recipients|, i requires 0 <= i < |recipients| => Message(recipients[i], dest, hops))
  }

  function Without(s: seq<Message>, i: nat): seq<Message>
    requires i < |s|
  {
    s[..i] + s[i + 1..]
  }

  /** The delivery makes its node forward. */
  predicate Forwards(w: Net, e: Event) {
    && e.Deliver? && e.i < |w.inflight|
    && w.inflight[e.i].hops > 0 && (w.inflight[e.i].node, w.inflight[e.i].dest) !in w.sent
  }

  predicate Happens(w: Net, e: Event) { e.Originate? || e.i < |w.inflight| }

  function Next(w: Net, e: Event): Net {
    if !Happens(w, e) then w
    else
      match e
      case Deliver(i, recipients) =>
        var m := w.inflight[i];
        if Forwards(w, e)
        then Net(Without(w.inflight, i) + Copies(m.dest, m.hops - 1, recipients), w.sent + {(m.node, m.dest)})
        else Net(Without(w.inflight, i), w.sent)
      case Lose(i) => Net(Without(w.inflight, i), w.sent)
      case Duplicate(i) => Net(w.inflight + [w.inflight[i]], w.sent)
      case Originate(dest, hops, recipients) => Net(w.inflight + Copies(dest, hops, recipients), w.sent)
  }

  function Run(w: Net, es: seq<Event>): Net {
    if es == [] then w else Next(Run(w, es[..|es| - 1]), es[|es| - 1])
  }

  /** The destinations the node has forwarded. */
  function SentBy(w: Net, node: nat): set<Hash> { set p | p in w.sent && p.0 == node :: p.1 }

  /** Announce `i` in flight is this packet, on its way to a node that has forwarded these destinations. */
  predicate Awaits(w: Net, i: nat, sent: set<Hash>, packet: Packet) {
    && i < |w.inflight| && SentBy(w, w.inflight[i].node) == sent
    && w.inflight[i].dest == packet.destinationHash && w.inflight[i].hops == packet.hops as int
  }

  /** The network after announce `i` was delivered: its node has these sent announces, the others have theirs, and
      copies of what it forwarded are on their way to the recipients. */
  ghost predicate Delivered(w: Net, i: nat, recipients: seq<nat>, sent: set<Hash>, forwarded: Option<Packet>)
    requires i < |w.inflight|
  {
    var w', node := Next(w, Deliver(i, recipients)), w.inflight[i].node;
    && (Forwards(w, Deliver(i, recipients)) <==> forwarded.Some?)
    && SentBy(w', node) == sent && (forall other :: other != node ==> SentBy(w', other) == SentBy(w, other))
    && w'.inflight == Without(w.inflight, i)
         + (match forwarded
            case Some(p) => Copies(p.destinationHash, p.hops as int, recipients)
            case None => [])
  }

  lemma StepIsPropagate(w: Net, i: nat, recipients: seq<nat>, sent: set<Hash>, packet: Packet, sent': set<Hash>,
                        forwarded: Option<Packet>)
    requires Awaits(w, i, sent, packet)
    requires forwarded.Some? <==> packet.hops > 0 && packet.destinationHash !in sent
    requires forwarded.Some? ==> forwarded.value == packet.(hops := packet.hops - 1)
    requires sent' == sent + (if forwarded.Some? then {packet.destinationHash} else {})
    ensures Delivered(w, i, recipients, sent', forwarded)
  {
    var e, node := Deliver(i, recipients), w.inflight[i].node;
    var w' := Next(w, e);
    assert packet.destinationHash in sent <==> (node, packet.destinationHash) in w.sent;
    if forwarded.Some? {
      assert w'.sent == w.sent + {(node, packet.destinationHash)};
      SentGrows(w, w', node, packet.destinationHash);
    } else {
      assert w'.sent == w.sent;
      assert w'.inflight == Without(w.inflight, i) + [];
    }
  }

  lemma SentGrows(w: Net, w': Net, node: nat, dest: Hash)
    requires w'.sent == w.sent + {(node, dest)}
    ensures forall n :: SentBy(w', n) == if n == node then SentBy(w, n) + {dest} else SentBy(w, n)
  {
    forall n ensures SentBy(w', n) == if n == node then SentBy(w, n) + {dest} else SentBy(w, n) {
      var want := if n == node then SentBy(w, n) + {dest} else SentBy(w, n);
      forall d | d in SentBy(w', n) ensures d in want {
        assert (n, d) in w'.sent;
      }
      forall d | d in want ensures d in SentBy(w', n) {
        assert (n, d) in w'.sent;
      }
    }
  }

  // ---------- At most once ----------

  /** How often `node` forwards an announce of `dest` in the run. */
  function ForwardCount(w: Net, es: seq<Event>, node: nat, dest: Hash): nat {
    if es == [] then 0
    else
      var v, e := Run(w, es[..|es| - 1]), es[|es| - 1];
      ForwardCount(w, es[..|es| - 1], node, dest)
      + (if Forwards(v, e) && v.inflight[e.i].node == node && v.inflight[e.i].dest == dest then 1 else 0)
  }

  /** In every run, with new announces, losses and duplicates, a node forwards a destination at most once, and exactly
      then records it. */
  lemma {:induction false} ForwardsAtMostOnce(w: Net, es: seq<Event>, node: nat, dest: Hash)
    ensures ForwardCount(w, es, node, dest) ==
      if (node, dest) in Run(w, es).sent && (node, dest) !in w.sent then 1 else 0
    ensures w.sent <= Run(w, es).sent
  {
    if es != [] {
      ForwardsAtMostOnce(w, es[..|es| - 1], node, dest);
    }
  }

  // ---------- Termination ----------

  predicate Within(w: Net, pairs: set<(nat, Hash)>) {
    forall m :: m in w.inflight ==> (m.node, m.dest) in pairs
  }

  /** A delivery or a loss, by a broadcast that reaches only pairs of the network and at most `fanout` recipients. */
  predicate Settles(w: Net, e: Event, pairs: set<(nat, Hash)>, fanout: nat) {
    && (e.Deliver? || e.Lose?) && Happens(w, e)
    && (e.Deliver? ==> |e.recipients| <= fanout && forall r :: r in e.recipients ==> (r, w.inflight[e.i].dest) in pairs)
  }

  function Unsent(w: Net, pairs: set<(nat, Hash)>): set<(nat, Hash)> { pairs - w.sent }

  /** The lexicographic measure (pairs that may still forward, announces in flight) strictly decreases. */
  lemma MeasureDecreases(w: Net, e: Event, pairs: set<(nat, Hash)>, fanout: nat)
    requires Within(w, pairs) && Settles(w, e, pairs, fanout)
    ensures Within(Next(w, e), pairs)
    ensures if Forwards(w, e)
      then |Unsent(Next(w, e), pairs)| == |Unsent(w, pairs)| - 1 && |Next(w, e).inflight| <= |w.inflight| - 1 + fanout
      else |Unsent(Next(w, e), pairs)| == |Unsent(w, pairs)| && |Next(w, e).inflight| == |w.inflight| - 1
  {
    var w' := Next(w, e);
    if Forwards(w, e) {
      var p := (w.inflight[e.i].node, w.inflight[e.i].dest);
      assert w.inflight[e.i] in w.inflight;
      assert Unsent(w', pairs) == Unsent(w, pairs) - {p};
      forall m | m in w'.inflight ensures (m.node, m.dest) in pairs {
        if m !in Without(w.inflight, e.i) {
          assert m in Copies(w.inflight[e.i].dest, w.inflight[e.i].hops - 1, e.recipients);
        }
      }
    } else {
      assert w'.sent == w.sent;
    }
  }

  predicate AllSettle(w: Net, es: seq<Event>, pairs: set<(nat, Hash)>, fanout: nat) {
    es != [] ==>
      AllSettle(w, es[..|es| - 1], pairs, fanout) && Settles(Run(w, es[..|es| - 1]), es[|es| - 1], pairs, fanout)
  }

  /** Flooding terminates: without new announces, no run of deliveries and losses is longer than the announces in flight
      plus the fan-out for each (node, destination) pair that may still forward. */
  lemma {:induction false} FloodingTerminates(w: Net, es: seq<Event>, pairs: set<(nat, Hash)>, fanout: nat)
    requires Within(w, pairs) && AllSettle(w, es, pairs, fanout)
    ensures Within(Run(w, es), pairs)
    ensures |es| + |Run(w, es).inflight| + fanout * |Unsent(Run(w, es), pairs)| <=
      |w.inflight| + fanout * |Unsent(w, pairs)|
  {
    if es != [] {
      var v, e := Run(w, es[..|es| - 1]), es[|es| - 1];
      FloodingTerminates(w, es[..|es| - 1], pairs, fanout);
      MeasureDecreases(v, e, pairs, fanout);
      Times(fanout, |Unsent(v, pairs)|);
    }
  }

  lemma Times(n: nat, k: nat)
    ensures n * (k - 1) == n * k - n
  {
  }
}
