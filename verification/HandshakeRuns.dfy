/** Whole runs of the handshake: any number of daemons, and a network that delivers whatever it likes
    to whomever it likes, except a signature that its key holder never made. */
module HandshakeRuns {
  import opened Bytes
  import opened Packets
  import opened Handshake

  /** A `connect` call that sent a request, and that packet. */
  datatype Request = Request(node: nat, packet: Packet, eph: bytes)

  /** An LRPROOF issued by the holder of `key`, for the request packet it received. */
  datatype Proof = Proof(key: Key, request: Packet, eph: bytes)

  datatype World = World(nodes: map<nat, Node>, issued: set<(Key, bytes)>, requests: set<Request>, proofs: set<Proof>)

  datatype Event =
    | Connect(node: nat, remote: Hash, destHash: Option<Hash>, eph: bytes, sigPub: Key)
    | LinkRequest(node: nat, from: Hash, packet: Packet, eph: bytes, ratchet: bytes)
    | Lrproof(node: nat, from: Hash, packet: Packet, ck: Option<Hash>, pk: Option<Hash>, ratchet: bytes)
    | LearnPeer(node: nat, addr: Hash, key: Key)
    | DropChannel(node: nat, addr: Hash)
    | OtherSignature(node: nat, message: bytes)

  const PROOF_MESSAGE := 83

  /** If the proof verifies under a daemon's key, that daemon signed the message it verifies for. */
  ghost predicate Genuine(c: Crypto, w: World, linkId: Hash, signer: Key, data: bytes) {
    signer in DaemonKeys(w) && |data| >= 96 && c.verify(signer, ProvedMessage(linkId, signer, data), data[..64]) ==>
      (signer, ProvedMessage(linkId, signer, data)) in w.issued
  }

  /** The message an LRPROOF is a signature of. */
  function ProvedMessage(linkId: Hash, signer: Key, data: bytes): bytes
    requires |data| >= 96
  {
    linkId + data[64..96] + signer + (if |data| >= 99 then data[96..99] else [0, 0, 0])
  }

  /** What can happen. The daemon's other signatures (announces, link proofs, ICN data) are over messages of
      other lengths than the 83 octets an LRPROOF signs. */
  ghost predicate Enabled(c: Crypto, w: World, e: Event) {
    && e.node in w.nodes
    && match e
       case LinkRequest(_, _, packet, _, _) => Wire(packet)
       case Lrproof(id, from, packet, ck, pk, _) =>
         var n := w.nodes[id];
         && Lookups(n, from, packet, ck, pk)
         && (Establishes(c, n, from, packet, ck, pk) ==>
               Genuine(c, w, n.pendingLinks[pk.value].linkId, n.peerKeys[ck.value], packet.data))
       case OtherSignature(_, message) => |message| != PROOF_MESSAGE
       case _ => true
  }

  ghost function ProofMessage(c: Crypto, key: Key, request: Packet, eph: bytes): bytes
    requires c.Laws()
  {
    SignedData(LinkId(c, request), c.publicOf(eph), key, SignallingAt(request.data, 64))
  }

  ghost function NodeAfter(c: Crypto, n: Node, e: Event): Node
    requires c.Laws()
    requires e.Lrproof? ==> Lookups(n, e.from, e.packet, e.ck, e.pk)
  {
    match e
    case Connect(_, remote, destHash, eph, sigPub) => Connected(c, n, remote, destHash, eph, sigPub)
    case LinkRequest(_, from, packet, eph, ratchet) => Answered(c, n, from, packet, eph, ratchet)
    case Lrproof(_, from, packet, ck, pk, ratchet) => Proved(c, n, from, packet, ck, pk, ratchet)
    case LearnPeer(_, addr, key) => n.(peerKeys := n.peerKeys[addr := key])
    case DropChannel(_, addr) => n.(channels := n.channels - {addr})
    case OtherSignature(_, _) => n
  }

  ghost function Apply(c: Crypto, w: World, e: Event): World
    requires c.Laws() && Enabled(c, w, e)
  {
    var n := w.nodes[e.node];
    var w' := w.(nodes := w.nodes[e.node := NodeAfter(c, n, e)]);
    match e
    case Connect(id, remote, destHash, eph, sigPub) =>
      if remote in n.channels || remote in n.pendingChannels then w'
      else w'.(requests := w.requests + {Request(id, RequestPacket(c, remote, destHash, eph, sigPub), eph)})
    case LinkRequest(_, from, packet, eph, _) =>
      if !Answerable(n, from, packet) then w'
      else w'.(proofs := w.proofs + {Proof(n.identityKey, packet, eph)},
               issued := w.issued + {(n.identityKey, ProofMessage(c, n.identityKey, packet, eph))})
    case OtherSignature(_, message) => w'.(issued := w.issued + {(n.identityKey, message)})
    case _ => w'
  }

  /** Run the events in order; an event that cannot happen changes nothing. */
  ghost function Exec(c: Crypto, w: World, es: seq<Event>): World
    requires c.Laws()
  {
    if es == [] then w
    else
      var v := Exec(c, w, es[..|es| - 1]);
      if Enabled(c, v, es[|es| - 1]) then Apply(c, v, es[|es| - 1]) else v
  }

  predicate Fresh(n: Node) {
    n.channels == map[] && n.pendingChannels == map[] && n.pendingLinks == map[]
  }

  ghost predicate Initial(w: World) {
    w.issued == {} && w.requests == {} && w.proofs == {} && forall id :: id in w.nodes ==> Fresh(w.nodes[id])
  }

  // ---------- The invariant ----------

  /** The request names the link and carries the ephemeral key of the pending entry. */
  ghost predicate Requested(c: Crypto, id: nat, pending: Pending, r: Request)
    requires c.Laws()
  {
    && r.node == id && r.eph == pending.ephemeralPriv && LinkId(c, r.packet) == pending.linkId
    && GoodRequest(c, r)
  }

  ghost predicate GoodRequest(c: Crypto, r: Request)
    requires c.Laws()
  {
    Wire(r.packet) && |r.packet.data| >= 64 && r.packet.data[..32] == c.publicOf(r.eph)
  }

  ghost predicate GoodProof(p: Proof) { Wire(p.request) && |p.request.data| >= 64 }

  /** The key the responder stored with its proof. */
  ghost function ResponderKey(c: Crypto, p: Proof): bytes
    requires GoodProof(p)
  {
    c.dh(p.eph, p.request.data[..32])
  }

  /** The daemon that logs a proof stores that key, for that link, in its channel at the same step. */
  lemma ResponderStoresKey(c: Crypto, w: World, e: Event)
    requires c.Laws() && Enabled(c, w, e) && e.LinkRequest? && Answerable(w.nodes[e.node], e.from, e.packet)
    ensures var p, w' := Proof(w.nodes[e.node].identityKey, e.packet, e.eph), Apply(c, w, e);
      && p in w'.proofs && GoodProof(p) && e.from in w'.nodes[e.node].channels
      && var l := w'.nodes[e.node].channels[e.from];
      && l.state == Established && l.sharedKey == Some(ResponderKey(c, p)) && l.linkId == LinkId(c, p.request)
  {
  }

  /** Request and proof name the same link, and either they give both ends one key or the two requests are a
      collision of the hash. */
  ghost predicate Agree(c: Crypto, id: nat, key: bytes, signer: Key, r: Request, p: Proof)
    requires c.Laws()
  {
    && r.node == id && p.key == signer && GoodRequest(c, r) && GoodProof(p)
    && LinkId(c, r.packet) == LinkId(c, p.request)
    && (key == ResponderKey(c, p) || LinkHashable(r.packet) != LinkHashable(p.request))
  }

  function DaemonKeys(w: World): set<Key> {
    set id | id in w.nodes :: w.nodes[id].identityKey
  }

  datatype Logs = Logs(keys: set<Key>, requests: set<Request>, proofs: set<Proof>)

  function LogsOf(w: World): Logs { Logs(DaemonKeys(w), w.requests, w.proofs) }

  /** An established initiator link whose peer key belongs to a daemon has an agreeing proof in the log. */
  ghost predicate Authentic(c: Crypto, g: Logs, id: nat, l: Link)
    requires c.Laws()
  {
    l.initiator && l.state == Established ==>
      && l.sharedKey.Some? && l.remoteSigningKey.Some?
      && (l.remoteSigningKey.value in g.keys ==>
            exists r, p :: r in g.requests && p in g.proofs
              && Agree(c, id, l.sharedKey.value, l.remoteSigningKey.value, r, p))
  }

  ghost predicate SignatureBacked(c: Crypto, w: World, s: (Key, bytes))
    requires c.Laws()
  {
    |s.1| == PROOF_MESSAGE ==>
      exists p :: p in w.proofs && p.key == s.0 && s.1 == ProofMessage(c, p.key, p.request, p.eph)
  }

  ghost predicate NodeInv(c: Crypto, g: Logs, id: nat, n: Node)
    requires c.Laws()
  {
    && (forall a :: a in n.channels ==> Authentic(c, g, id, n.channels[a]))
    && (forall k :: k in n.pendingLinks ==> Backed(c, g, id, n.pendingLinks[k]))
    && (forall k :: k in n.pendingChannels ==> n.pendingChannels[k].state == Handshaking)
  }

  ghost predicate Backed(c: Crypto, g: Logs, id: nat, pending: Pending)
    requires c.Laws()
  {
    exists r :: r in g.requests && Requested(c, id, pending, r)
  }

  ghost predicate Inv(c: Crypto, w: World)
    requires c.Laws()
  {
    && (forall p :: p in w.proofs ==> GoodProof(p))
    && (forall s :: s in w.issued ==> SignatureBacked(c, w, s))
    && (forall id :: id in w.nodes ==> NodeInv(c, LogsOf(w), id, w.nodes[id]))
  }

  ghost predicate Grows(g: Logs, g': Logs) {
    g.keys == g'.keys && g.requests <= g'.requests && g.proofs <= g'.proofs
  }

  lemma ApplyGrows(c: Crypto, w: World, e: Event)
    requires c.Laws() && Enabled(c, w, e)
    ensures Grows(LogsOf(w), LogsOf(Apply(c, w, e)))
    ensures Apply(c, w, e).nodes == w.nodes[e.node := NodeAfter(c, w.nodes[e.node], e)]
  {
    assert NodeAfter(c, w.nodes[e.node], e).identityKey == w.nodes[e.node].identityKey;
    KeysStay(w, Apply(c, w, e));
  }

  lemma KeysStay(w: World, w': World)
    requires w.nodes.Keys == w'.nodes.Keys
    requires forall id :: id in w.nodes ==> w'.nodes[id].identityKey == w.nodes[id].identityKey
    ensures DaemonKeys(w') == DaemonKeys(w)
  {
    forall k | k in DaemonKeys(w) ensures k in DaemonKeys(w') {
      var id :| id in w.nodes && w.nodes[id].identityKey == k;
      assert w'.nodes[id].identityKey == k;
    }
  }

  /** The logs only grow and no daemon changes its key, so what was authentic stays authentic. */
  lemma NodeInvMonotone(c: Crypto, g: Logs, g': Logs, id: nat, n: Node)
    requires c.Laws() && Grows(g, g') && NodeInv(c, g, id, n)
    ensures NodeInv(c, g', id, n)
  {
    forall a | a in n.channels
      ensures Authentic(c, g', id, n.channels[a])
    {
      assert Authentic(c, g, id, n.channels[a]);
    }
    forall k | k in n.pendingLinks
      ensures Backed(c, g', id, n.pendingLinks[k])
    {
      assert Backed(c, g, id, n.pendingLinks[k]);
    }
  }

  /** A proof that verifies under a daemon's key was issued by that daemon for this very link identifier and
      this very ephemeral key. */
  lemma ProofWasIssued(c: Crypto, w: World, linkId: Hash, signer: Key, data: bytes) returns (p: Proof)
    requires c.Laws() && Inv(c, w) && Genuine(c, w, linkId, signer, data) && signer in DaemonKeys(w)
    requires |data| >= 96 && c.verify(signer, ProvedMessage(linkId, signer, data), data[..64])
    ensures p in w.proofs && p.key == signer
    ensures LinkId(c, p.request) == linkId && c.publicOf(p.eph) == data[64..96]
  {
    var m := ProvedMessage(linkId, signer, data);
    assert SignatureBacked(c, w, (signer, m));
    p :| p in w.proofs && p.key == signer && m == ProofMessage(c, p.key, p.request, p.eph);
    SignedParts(linkId, data[64..96], signer, SignallingAt(data, 96));
    SignedParts(LinkId(c, p.request), c.publicOf(p.eph), signer, SignallingAt(p.request.data, 64));
  }

  /** The signed message fixes the link identifier and the ephemeral key. */
  lemma SignedParts(linkId: Hash, pub: bytes, signer: Key, signalling: bytes)
    requires |pub| == 32
    ensures |SignedData(linkId, pub, signer, signalling)| >= 48
    ensures SignedData(linkId, pub, signer, signalling)[..16] == linkId
    ensures SignedData(linkId, pub, signer, signalling)[16..48] == pub
  {
  }

  /** Commutativity of the exchange turns one link identifier into one key, unless the hash collides. */
  lemma KeysAgree(c: Crypto, id: nat, signer: Key, r: Request, p: Proof, theirs: bytes)
    requires c.Laws() && r.node == id && p.key == signer && GoodRequest(c, r) && GoodProof(p)
    requires LinkId(c, r.packet) == LinkId(c, p.request) && c.publicOf(p.eph) == theirs
    ensures Agree(c, id, c.dh(r.eph, theirs), signer, r, p)
  {
    if LinkHashable(r.packet) == LinkHashable(p.request) {
      LinkHashableBindsKeys(r.packet, p.request);
      assert r.packet.data[..64][..32] == r.packet.data[..32];
      assert p.request.data[..64][..32] == p.request.data[..32];
    }
  }

  lemma RequestIsGood(c: Crypto, id: nat, remote: Hash, destHash: Option<Hash>, eph: bytes, sigPub: Key)
    requires c.Laws()
    ensures var p := RequestPacket(c, remote, destHash, eph, sigPub);
      Requested(c, id, Pending(LinkId(c, p), eph), Request(id, p, eph))
  {
    var p := RequestPacket(c, remote, destHash, eph, sigPub);
    assert p.data[..32] == c.publicOf(eph);
  }

  /** `connect` logs the request behind the entry it makes. */
  lemma ConnectKeepsInv(c: Crypto, g: Logs, n: Node, e: Event)
    requires c.Laws() && e.Connect? && NodeInv(c, g, e.node, n)
    requires e.remote !in n.channels && e.remote !in n.pendingChannels ==>
      Request(e.node, RequestPacket(c, e.remote, e.destHash, e.eph, e.sigPub), e.eph) in g.requests
    ensures NodeInv(c, g, e.node, NodeAfter(c, n, e))
  {
    RequestIsGood(c, e.node, e.remote, e.destHash, e.eph, e.sigPub);
    var n' := NodeAfter(c, n, e);
    forall k | k in n'.pendingLinks
      ensures Backed(c, g, e.node, n'.pendingLinks[k])
    {
      if k in n.pendingLinks && n'.pendingLinks[k] == n.pendingLinks[k] {
        assert Backed(c, g, e.node, n.pendingLinks[k]);
      }
    }
  }

  /** What an LRPROOF can change: it moves pending entries about, drops some, and establishes at most the one link. */
  lemma LrproofShape(c: Crypto, n: Node, e: Event)
    requires c.Laws() && e.Lrproof? && Lookups(n, e.from, e.packet, e.ck, e.pk)
    requires forall k :: k in n.pendingChannels ==> n.pendingChannels[k].state == Handshaking
    ensures var n' := NodeAfter(c, n, e);
      && (forall k :: k in n'.pendingLinks ==> k in n.pendingLinks && n'.pendingLinks[k] == n.pendingLinks[k])
      && (forall k :: k in n'.pendingChannels ==> n'.pendingChannels[k].state == Handshaking)
      && (forall a :: a in n'.channels ==>
            (a in n.channels && n'.channels[a] == n.channels[a])
            || (Establishes(c, n, e.from, e.packet, e.ck, e.pk) && a == e.ck.value))
  {
  }

  lemma LrproofKeepsInv(c: Crypto, g: Logs, n: Node, e: Event)
    requires c.Laws() && e.Lrproof? && Lookups(n, e.from, e.packet, e.ck, e.pk) && NodeInv(c, g, e.node, n)
    requires Establishes(c, n, e.from, e.packet, e.ck, e.pk) ==>
      Authentic(c, g, e.node, NodeAfter(c, n, e).channels[e.ck.value])
    ensures NodeInv(c, g, e.node, NodeAfter(c, n, e))
  {
    var n' := NodeAfter(c, n, e);
    LrproofShape(c, n, e);
    forall a | a in n'.channels
      ensures Authentic(c, g, e.node, n'.channels[a])
    {
      if a in n.channels && n'.channels[a] == n.channels[a] {
        assert Authentic(c, g, e.node, n.channels[a]);
      }
    }
    forall k | k in n'.pendingLinks
      ensures Backed(c, g, e.node, n'.pendingLinks[k])
    {
      assert Backed(c, g, e.node, n.pendingLinks[k]);
    }
  }

  /** A link established with a daemon's key has its request and its proof in the log already, and the proof is for the
      identifier of the pending entry. */
  lemma EstablishedHasProof(c: Crypto, w: World, e: Event) returns (r: Request, p: Proof)
    requires c.Laws() && Inv(c, w) && Enabled(c, w, e)
    requires e.Lrproof? && Establishes(c, w.nodes[e.node], e.from, e.packet, e.ck, e.pk)
    requires w.nodes[e.node].peerKeys[e.ck.value] in DaemonKeys(w)
    ensures r in w.requests && p in w.proofs
    ensures var n, l := w.nodes[e.node], NodeAfter(c, w.nodes[e.node], e).channels[e.ck.value];
      && l.sharedKey.Some? && l.remoteSigningKey == Some(n.peerKeys[e.ck.value])
      && Agree(c, e.node, l.sharedKey.value, n.peerKeys[e.ck.value], r, p)
      && LinkId(c, p.request) == n.pendingLinks[e.pk.value].linkId
  {
    var id, n := e.node, w.nodes[e.node];
    var pending, signer := n.pendingLinks[e.pk.value], n.peerKeys[e.ck.value];
    assert Backed(c, LogsOf(w), id, pending);
    r :| r in w.requests && Requested(c, id, pending, r);
    p := ProofWasIssued(c, w, pending.linkId, signer, e.packet.data);
    KeysAgree(c, id, signer, r, p, e.packet.data[64..96]);
  }

  lemma EstablishedIsAuthentic(c: Crypto, w: World, e: Event)
    requires c.Laws() && Inv(c, w) && Enabled(c, w, e)
    requires e.Lrproof? && Establishes(c, w.nodes[e.node], e.from, e.packet, e.ck, e.pk)
    ensures Authentic(c, LogsOf(w), e.node, NodeAfter(c, w.nodes[e.node], e).channels[e.ck.value])
  {
    if w.nodes[e.node].peerKeys[e.ck.value] in DaemonKeys(w) {
      var r, p := EstablishedHasProof(c, w, e);
    }
  }

  /** The acting node keeps the invariant. */
  lemma ActorKeepsInv(c: Crypto, w: World, e: Event)
    requires c.Laws() && Inv(c, w) && Enabled(c, w, e)
    ensures NodeInv(c, LogsOf(Apply(c, w, e)), e.node, NodeAfter(c, w.nodes[e.node], e))
  {
    var n, g := w.nodes[e.node], LogsOf(Apply(c, w, e));
    ApplyGrows(c, w, e);
    NodeInvMonotone(c, LogsOf(w), g, e.node, n);
    if e.Connect? {
      ConnectKeepsInv(c, g, n, e);
    } else if e.Lrproof? {
      if Establishes(c, n, e.from, e.packet, e.ck, e.pk) {
        EstablishedIsAuthentic(c, w, e);
      }
      LrproofKeepsInv(c, g, n, e);
    }
  }

  lemma ApplyKeepsInv(c: Crypto, w: World, e: Event)
    requires c.Laws() && Inv(c, w) && Enabled(c, w, e)
    ensures Inv(c, Apply(c, w, e))
  {
    var w' := Apply(c, w, e);
    forall s | s in w'.issued
      ensures SignatureBacked(c, w', s)
    {
      if s in w.issued {
        assert SignatureBacked(c, w, s);
      } else if e.LinkRequest? {
        assert Proof(w.nodes[e.node].identityKey, e.packet, e.eph) in w'.proofs;
      }
    }
    ApplyGrows(c, w, e);
    forall id | id in w'.nodes
      ensures NodeInv(c, LogsOf(w'), id, w'.nodes[id])
    {
      if id == e.node {
        ActorKeepsInv(c, w, e);
      } else {
        NodeInvMonotone(c, LogsOf(w), LogsOf(w'), id, w.nodes[id]);
      }
    }
  }

  lemma {:induction false} ReachableInv(c: Crypto, w: World, es: seq<Event>)
    requires c.Laws() && Initial(w)
    ensures Inv(c, Exec(c, w, es))
  {
    if es != [] {
      ReachableInv(c, w, es[..|es| - 1]);
      var v := Exec(c, w, es[..|es| - 1]);
      if Enabled(c, v, es[|es| - 1]) {
        ApplyKeepsInv(c, v, es[|es| - 1]);
      }
    }
  }

  /** An initiator link that is established with the key of a daemon. */
  predicate ToDaemon(w: World, id: nat, a: Hash) {
    && id in w.nodes && a in w.nodes[id].channels
    && var l := w.nodes[id].channels[a];
    && l.initiator && l.state == Established && l.remoteSigningKey.Some? && l.remoteSigningKey.value in DaemonKeys(w)
  }

  /** In every run, whenever an initiator holds an established link whose peer key belongs to a daemon, that daemon
      issued a proof for a request of this initiator, and both hold the same key or the two requests are a collision
      of SHA-256. */
  lemma EstablishedIsBacked(c: Crypto, w: World, es: seq<Event>, id: nat, a: Hash)
    requires c.Laws() && Initial(w)
    requires ToDaemon(Exec(c, w, es), id, a)
    ensures var v := Exec(c, w, es);
      var l := v.nodes[id].channels[a];
      && l.sharedKey.Some?
      && exists r, p :: r in v.requests && p in v.proofs
           && Agree(c, id, l.sharedKey.value, l.remoteSigningKey.value, r, p)
  {
    ReachableInv(c, w, es);
    var v := Exec(c, w, es);
    assert NodeInv(c, LogsOf(v), id, v.nodes[id]);
    assert Authentic(c, LogsOf(v), id, v.nodes[id].channels[a]);
  }
}
