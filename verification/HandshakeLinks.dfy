/** Which link identifier an established link carries, and that an undisturbed handshake completes. */
module HandshakeLinks {
  import opened Bytes
  import opened Packets
  import opened Handshake
  import opened HandshakeRuns

  /** An undisturbed exchange, over the wire and with any hop count on arrival, leaves both ends established with
      one link identifier and one key, and changes nothing else. The proof may arrive under any address that has no
      pending link of its own: the initiator then finds the link by its identifier. */
  lemma HandshakeCompletes(c: Crypto, a: Node, b: Node, addrA: Hash, addrB: Hash, destHash: Option<Hash>,
                           ephA: bytes, sigPub: Key, ephB: bytes, hops: byte, ratchetA: bytes, ratchetB: bytes,
                           from: Hash)
    requires c.Laws()
    requires addrB !in a.channels && addrB !in a.pendingChannels
    requires addrB in a.peerKeys && a.peerKeys[addrB] == b.identityKey && addrA in b.peerKeys
    requires from == addrB || (from !in a.pendingChannels && from !in a.pendingLinks)
    ensures var request := RequestPacket(c, addrB, destHash, ephA, sigPub);
      var arrived := FromBytes(ToBytes(request.(hops := hops)));
      && request.hops == 64
      && arrived == Ok(Packet(0, 0, 1, 0, 2, hops, if destHash.Some? then destHash.value else addrB, None, 0,
                              c.publicOf(ephA) + sigPub + [0x20, 0x02, 0x00]))
      && Answerable(b, addrA, arrived.value)
      && var proof := FromBytes(ToBytes(ProofPacket(c, b, arrived.value, ephB)));
      var id, key := c.sha256(LinkHashable(request))[..16], c.dh(ephA, c.publicOf(ephB));
      && proof == Ok(Packet(0, 0, 1, 0, 3, 0, id, None, 0xFF,
                            c.sign(b.identityKey, id + c.publicOf(ephB) + b.identityKey + [0x20, 0x02, 0x00])
                            + c.publicOf(ephB) + [0x20, 0x02, 0x00]))
      && var a1 := Connected(c, a, addrB, destHash, ephA, sigPub);
      && Lookups(a1, from, proof.value, Some(addrB), Some(addrB))
      && Proved(c, a1, from, proof.value, Some(addrB), Some(addrB), ratchetA) ==
         a.(pendingLinks := a.pendingLinks - {addrB},
            channels := a.channels[addrB :=
              Link(addrB, id, true, Established, Some(key), Some(b.identityKey), Some(ratchetA), true)])
      && Answered(c, b, addrA, arrived.value, ephB, ratchetB) ==
         b.(channels := b.channels[addrA :=
              Link(addrA, id, false, Established, Some(key), Some(b.peerKeys[addrA]), Some(ratchetB), true)])
  {
    var request := RequestPacket(c, addrB, destHash, ephA, sigPub);
    var q := request.(hops := hops);
    PacketRoundTrip(q);
    LinkHashableStable(request, hops, request.contextFlag, request.transportType, request.data);
    assert q.data[..32] == c.publicOf(ephA) && q.data[64..67] == [0x20, 0x02, 0x00];
    var proof := ProofPacket(c, b, q, ephB);
    PacketRoundTrip(proof);
    ProofIsTaken(c, a, b.identityKey, addrB, destHash, ephA, sigPub, proof, ephB, from, ratchetA);
  }

  /** The initiator's part: the proof for its request establishes the link. */
  lemma ProofIsTaken(c: Crypto, a: Node, signer: Key, addrB: Hash, destHash: Option<Hash>, ephA: bytes, sigPub: Key,
                     proof: Packet, ephB: bytes, from: Hash, ratchet: bytes)
    requires c.Laws() && addrB !in a.channels && addrB !in a.pendingChannels
    requires addrB in a.peerKeys && a.peerKeys[addrB] == signer
    requires from == addrB || (from !in a.pendingChannels && from !in a.pendingLinks)
    requires var id := LinkId(c, RequestPacket(c, addrB, destHash, ephA, sigPub));
      && proof.destinationHash == id
      && proof.data == c.sign(signer, id + c.publicOf(ephB) + signer + [0x20, 0x02, 0x00]) + c.publicOf(ephB)
                       + [0x20, 0x02, 0x00]
    ensures var a1 := Connected(c, a, addrB, destHash, ephA, sigPub);
      && Lookups(a1, from, proof, Some(addrB), Some(addrB))
      && Proved(c, a1, from, proof, Some(addrB), Some(addrB), ratchet) ==
         a.(pendingLinks := a.pendingLinks - {addrB},
            channels := a.channels[addrB :=
              Link(addrB, proof.destinationHash, true, Established, Some(c.dh(ephA, c.publicOf(ephB))), Some(signer),
                   Some(ratchet), true)])
  {
    var a1 := Connected(c, a, addrB, destHash, ephA, sigPub);
    ProofIsFound(c, a, addrB, destHash, ephA, sigPub, proof, from);
    assert proof.data[..64] == c.sign(signer, proof.destinationHash + c.publicOf(ephB) + signer + [0x20, 0x02, 0x00]);
    assert proof.data[64..96] == c.publicOf(ephB) && proof.data[96..99] == [0x20, 0x02, 0x00];
    EstablishedExactly(c, a1, from, proof, Some(addrB), Some(addrB), ratchet);
    LrproofOutcomes(c, a1, from, proof, Some(addrB), Some(addrB), ratchet);
    assert a1.pendingChannels - {addrB} == a.pendingChannels && a1.pendingLinks - {addrB} == a.pendingLinks - {addrB};
  }

  lemma ProofIsFound(c: Crypto, a: Node, addrB: Hash, destHash: Option<Hash>, ephA: bytes, sigPub: Key, proof: Packet,
                     from: Hash)
    requires c.Laws() && addrB !in a.channels && addrB !in a.pendingChannels && addrB in a.peerKeys
    requires from == addrB || (from !in a.pendingChannels && from !in a.pendingLinks)
    requires proof.destinationHash == LinkId(c, RequestPacket(c, addrB, destHash, ephA, sigPub))
    ensures Lookups(Connected(c, a, addrB, destHash, ephA, sigPub), from, proof, Some(addrB), Some(addrB))
  {
    var a1 := Connected(c, a, addrB, destHash, ephA, sigPub);
    assert addrB in a1.pendingChannels && addrB in a1.pendingLinks;
  }

  // ---------- Every link was verified ----------

  /** The link has the key of this request and these proof octets, and the octets verify under the peer's key for the
      identifier of the request. */
  ghost predicate VerifiedFor(c: Crypto, l: Link, r: Request, data: bytes)
    requires c.Laws()
  {
    && |data| >= 96 && l.remoteSigningKey.Some? && l.sharedKey == Some(c.dh(r.eph, data[64..96]))
    && c.verify(l.remoteSigningKey.value, ProvedMessage(LinkId(c, r.packet), l.remoteSigningKey.value, data), data[..64])
  }

  ghost predicate VerifiedLink(c: Crypto, g: Logs, id: nat, l: Link)
    requires c.Laws()
  {
    l.initiator && l.state == Established ==>
      exists r, data :: r in g.requests && r.node == id && VerifiedFor(c, l, r, data)
  }

  ghost predicate AllVerified(c: Crypto, g: Logs, id: nat, n: Node)
    requires c.Laws()
  {
    forall a :: a in n.channels ==> VerifiedLink(c, g, id, n.channels[a])
  }

  lemma VerifiedGrows(c: Crypto, g: Logs, g': Logs, id: nat, n: Node)
    requires c.Laws() && Grows(g, g') && AllVerified(c, g, id, n)
    ensures AllVerified(c, g', id, n)
  {
    forall a | a in n.channels ensures VerifiedLink(c, g', id, n.channels[a]) {
      assert VerifiedLink(c, g, id, n.channels[a]);
    }
  }

  lemma VerifiedStep(c: Crypto, w: World, e: Event)
    requires c.Laws() && Inv(c, w) && Enabled(c, w, e) && AllVerified(c, LogsOf(w), e.node, w.nodes[e.node])
    ensures AllVerified(c, LogsOf(w), e.node, NodeAfter(c, w.nodes[e.node], e))
  {
    var n := w.nodes[e.node];
    var n' := NodeAfter(c, n, e);
    if e.Lrproof? {
      assert NodeInv(c, LogsOf(w), e.node, n);
      forall a | a in n'.channels ensures VerifiedLink(c, LogsOf(w), e.node, n'.channels[a]) {
        if a in n.channels && n'.channels[a] == n.channels[a] {
          assert VerifiedLink(c, LogsOf(w), e.node, n.channels[a]);
        } else {
          ProofVerifies(c, LogsOf(w), e.node, n, e, a);
        }
      }
    }
  }

  /** A link that an LRPROOF adds or changes. */
  lemma ProofVerifies(c: Crypto, g: Logs, id: nat, n: Node, e: Event, a: Hash)
    requires c.Laws() && e.Lrproof? && Lookups(n, e.from, e.packet, e.ck, e.pk)
    requires forall k :: k in n.pendingLinks ==> Backed(c, g, id, n.pendingLinks[k])
    requires var n' := NodeAfter(c, n, e);
      a in n'.channels && (a !in n.channels || n'.channels[a] != n.channels[a])
    ensures VerifiedLink(c, g, id, NodeAfter(c, n, e).channels[a])
  {
    NewLinkIsVerified(c, n, e.from, e.packet, e.ck, e.pk, e.ratchet, a);
    BackedIsVerified(c, g, id, NodeAfter(c, n, e).channels[a], n.pendingLinks[e.pk.value], e.packet.data);
  }

  lemma BackedIsVerified(c: Crypto, g: Logs, id: nat, l: Link, pending: Pending, data: bytes)
    requires c.Laws() && Backed(c, g, id, pending) && |data| >= 96 && l.remoteSigningKey.Some?
    requires l.sharedKey == Some(c.dh(pending.ephemeralPriv, data[64..96]))
    requires c.verify(l.remoteSigningKey.value, ProvedMessage(pending.linkId, l.remoteSigningKey.value, data), data[..64])
    ensures VerifiedLink(c, g, id, l)
  {
    var r :| r in g.requests && Requested(c, id, pending, r);
    assert VerifiedFor(c, l, r, data);
  }

  lemma {:induction false} VerifiedRuns(c: Crypto, w: World, es: seq<Event>, id: nat)
    requires c.Laws() && Initial(w) && id in Exec(c, w, es).nodes
    ensures AllVerified(c, LogsOf(Exec(c, w, es)), id, Exec(c, w, es).nodes[id])
  {
    if es != [] {
      var e, before := es[|es| - 1], es[..|es| - 1];
      var v := Exec(c, w, before);
      if Enabled(c, v, e) {
        ApplyGrows(c, v, e);
        VerifiedRuns(c, w, before, id);
        if id == e.node {
          ReachableInv(c, w, before);
          VerifiedStep(c, v, e);
        }
        VerifiedGrows(c, LogsOf(v), LogsOf(Exec(c, w, es)), id, Exec(c, w, es).nodes[id]);
      } else {
        VerifiedRuns(c, w, before, id);
      }
    }
  }

  /** In every run, whoever the peer is and whatever is mixed: an established initiator link has a request of this daemon
      and proof octets that verify under the peer's key for the identifier of that request, and its key is the exchange of
      that request's ephemeral key with the one in the proof. */
  lemma EveryLinkWasVerified(c: Crypto, w: World, es: seq<Event>, id: nat, a: Hash)
    requires c.Laws() && Initial(w) && id in Exec(c, w, es).nodes && a in Exec(c, w, es).nodes[id].channels
    ensures var v := Exec(c, w, es);
      var l := v.nodes[id].channels[a];
      l.initiator && l.state == Established ==>
        exists r, data :: r in v.requests && r.node == id && VerifiedFor(c, l, r, data)
  {
    VerifiedRuns(c, w, es, id);
    assert VerifiedLink(c, LogsOf(Exec(c, w, es)), id, Exec(c, w, es).nodes[id].channels[a]);
  }

  // ---------- One identifier per link ----------

  /** Pending keys sit beside their pending channel, under the channel's own identifier. */
  predicate Paired(n: Node) {
    && (forall k :: k in n.pendingLinks ==>
          k in n.pendingChannels && n.pendingChannels[k].linkId == n.pendingLinks[k].linkId)
    && (forall j, k :: j in n.pendingLinks && k in n.pendingLinks && j != k ==>
          n.pendingLinks[j].linkId != n.pendingLinks[k].linkId)
  }

  /** The new identifier is not that of another pending link (random keys, collision-free hash). */
  ghost predicate FreshId(c: Crypto, w: World, e: Event)
    requires c.Laws()
  {
    e.Connect? && e.node in w.nodes ==> forall k :: k in w.nodes[e.node].pendingLinks ==>
      w.nodes[e.node].pendingLinks[k].linkId != LinkId(c, RequestPacket(c, e.remote, e.destHash, e.eph, e.sigPub))
  }

  ghost predicate ToKnownPeer(w: World, e: Event) {
    e.Connect? && e.node in w.nodes ==> e.remote in w.nodes[e.node].peerKeys
  }

  ghost predicate AllFresh(c: Crypto, w: World, es: seq<Event>)
    requires c.Laws()
  {
    es != [] ==> AllFresh(c, w, es[..|es| - 1]) && FreshId(c, Exec(c, w, es[..|es| - 1]), es[|es| - 1])
  }

  ghost predicate AllKnown(c: Crypto, w: World, es: seq<Event>)
    requires c.Laws()
  {
    es != [] ==> AllKnown(c, w, es[..|es| - 1]) && ToKnownPeer(Exec(c, w, es[..|es| - 1]), es[|es| - 1])
  }

  lemma LookupPairs(n: Node, from: Hash, p: Packet, ck: Option<Hash>, pk: Option<Hash>)
    requires Paired(n) && Lookups(n, from, p, ck, pk)
    ensures ck.Some? && ck.value in n.pendingLinks ==> pk == ck
    ensures ck.Some? ==> ck.value in n.pendingChannels
    ensures ck.Some? && pk.Some? ==> pk.value in n.pendingLinks
  {
    assert forall k :: k in PendingIds(n.pendingLinks) ==> PendingIds(n.pendingLinks)[k] == n.pendingLinks[k].linkId;
  }

  lemma PairedStep(c: Crypto, w: World, e: Event)
    requires c.Laws() && Enabled(c, w, e) && FreshId(c, w, e)
    requires Paired(w.nodes[e.node])
    ensures Paired(NodeAfter(c, w.nodes[e.node], e))
  {
    var n := w.nodes[e.node];
    if e.Lrproof? {
      LookupPairs(n, e.from, e.packet, e.ck, e.pk);
    }
  }

  predicate Complete(n: Node) {
    n.pendingChannels.Keys <= n.pendingLinks.Keys && n.pendingChannels.Keys <= n.peerKeys.Keys
  }

  lemma CompleteStep(c: Crypto, w: World, e: Event)
    requires c.Laws() && Enabled(c, w, e) && ToKnownPeer(w, e)
    requires Paired(w.nodes[e.node]) && Complete(w.nodes[e.node])
    ensures Complete(NodeAfter(c, w.nodes[e.node], e))
  {
    var n := w.nodes[e.node];
    if e.Lrproof? {
      LookupPairs(n, e.from, e.packet, e.ck, e.pk);
    }
  }

  lemma {:induction false} PairedRuns(c: Crypto, w: World, es: seq<Event>, id: nat)
    requires c.Laws() && Initial(w) && AllFresh(c, w, es) && id in w.nodes
    ensures id in Exec(c, w, es).nodes && Paired(Exec(c, w, es).nodes[id])
    ensures AllKnown(c, w, es) ==> Complete(Exec(c, w, es).nodes[id])
  {
    if es != [] {
      var e, v := es[|es| - 1], Exec(c, w, es[..|es| - 1]);
      PairedRuns(c, w, es[..|es| - 1], id);
      if Enabled(c, v, e) {
        ApplyGrows(c, v, e);
        if id == e.node {
          PairedStep(c, v, e);
          if AllKnown(c, w, es) {
            CompleteStep(c, v, e);
          }
        }
      }
    }
  }

  /** The sender has a pending channel that lost its pending key, and the packet names another link. */
  predicate Mixes(n: Node, from: Hash, p: Packet) {
    from in n.pendingChannels && from !in n.pendingLinks && n.pendingChannels[from].linkId != p.destinationHash
  }

  /** When an LRPROOF establishes a link, the link carries the identifier that was proved exactly if the packet does
      not mix two links. */
  lemma LinkIdExactly(c: Crypto, n: Node, from: Hash, p: Packet, ck: Option<Hash>, pk: Option<Hash>, ratchet: bytes)
    requires Paired(n) && Lookups(n, from, p, ck, pk) && Establishes(c, n, from, p, ck, pk)
    ensures Proved(c, n, from, p, ck, pk, ratchet).channels[ck.value].linkId == n.pendingLinks[pk.value].linkId
      <==> !Mixes(n, from, p)
  {
    LookupPairs(n, from, p, ck, pk);
    assert from in n.pendingChannels <==> from in ChannelIds(n.pendingChannels);
    assert from in n.pendingLinks <==> from in PendingIds(n.pendingLinks);
  }

  ghost predicate Unmixed(c: Crypto, w: World, e: Event) {
    e.Lrproof? && Enabled(c, w, e) && Establishes(c, w.nodes[e.node], e.from, e.packet, e.ck, e.pk) ==>
      !Mixes(w.nodes[e.node], e.from, e.packet)
  }

  /** No packet that establishes a link mixes two. */
  ghost predicate NoMixing(c: Crypto, w: World, es: seq<Event>)
    requires c.Laws()
  {
    es != [] ==> NoMixing(c, w, es[..|es| - 1]) && Unmixed(c, Exec(c, w, es[..|es| - 1]), es[|es| - 1])
  }

  /** An initiator link established with a daemon's key has an agreeing proof in the log for its own identifier. */
  ghost predicate Identified(c: Crypto, g: Logs, id: nat, l: Link)
    requires c.Laws()
  {
    l.initiator && l.state == Established && l.remoteSigningKey.Some? && l.remoteSigningKey.value in g.keys ==>
      && l.sharedKey.Some?
      && exists r, p :: r in g.requests && p in g.proofs && LinkId(c, p.request) == l.linkId
           && Agree(c, id, l.sharedKey.value, l.remoteSigningKey.value, r, p)
  }

  ghost predicate AllIdentified(c: Crypto, g: Logs, id: nat, n: Node)
    requires c.Laws()
  {
    forall a :: a in n.channels ==> Identified(c, g, id, n.channels[a])
  }

  lemma IdentifiedGrows(c: Crypto, g: Logs, g': Logs, id: nat, n: Node)
    requires c.Laws() && Grows(g, g') && AllIdentified(c, g, id, n)
    ensures AllIdentified(c, g', id, n)
  {
    forall a | a in n.channels ensures Identified(c, g', id, n.channels[a]) {
      assert Identified(c, g, id, n.channels[a]);
    }
  }

  lemma EstablishedIsIdentified(c: Crypto, w: World, e: Event)
    requires c.Laws() && Inv(c, w) && Enabled(c, w, e) && Unmixed(c, w, e) && Paired(w.nodes[e.node])
    requires e.Lrproof? && Establishes(c, w.nodes[e.node], e.from, e.packet, e.ck, e.pk)
    ensures Identified(c, LogsOf(w), e.node, NodeAfter(c, w.nodes[e.node], e).channels[e.ck.value])
  {
    if w.nodes[e.node].peerKeys[e.ck.value] in DaemonKeys(w) {
      LinkIdExactly(c, w.nodes[e.node], e.from, e.packet, e.ck, e.pk, e.ratchet);
      var r, p := EstablishedHasProof(c, w, e);
    }
  }

  /** The acting node keeps its links identified. */
  lemma IdentifiedStep(c: Crypto, w: World, e: Event)
    requires c.Laws() && Inv(c, w) && Enabled(c, w, e) && Unmixed(c, w, e) && Paired(w.nodes[e.node])
    requires AllIdentified(c, LogsOf(w), e.node, w.nodes[e.node])
    ensures AllIdentified(c, LogsOf(w), e.node, NodeAfter(c, w.nodes[e.node], e))
  {
    var n := w.nodes[e.node];
    var n' := NodeAfter(c, n, e);
    if e.Lrproof? {
      assert NodeInv(c, LogsOf(w), e.node, n);
      LrproofShape(c, n, e);
      forall a | a in n'.channels ensures Identified(c, LogsOf(w), e.node, n'.channels[a]) {
        if !(a in n.channels && n'.channels[a] == n.channels[a]) {
          EstablishedIsIdentified(c, w, e);
        }
      }
    }
  }

  lemma {:induction false} IdentifiedRuns(c: Crypto, w: World, es: seq<Event>, id: nat)
    requires c.Laws() && Initial(w) && AllFresh(c, w, es) && NoMixing(c, w, es) && id in Exec(c, w, es).nodes
    ensures AllIdentified(c, LogsOf(Exec(c, w, es)), id, Exec(c, w, es).nodes[id])
  {
    if es != [] {
      var e, before := es[|es| - 1], es[..|es| - 1];
      var v := Exec(c, w, before);
      if Enabled(c, v, e) {
        ApplyGrows(c, v, e);
        IdentifiedRuns(c, w, before, id);
        if id == e.node {
          ReachableInv(c, w, before);
          NodesStay(c, w, before);
          PairedRuns(c, w, before, id);
          IdentifiedStep(c, v, e);
        }
        IdentifiedGrows(c, LogsOf(v), LogsOf(Exec(c, w, es)), id, Exec(c, w, es).nodes[id]);
      } else {
        IdentifiedRuns(c, w, before, id);
      }
    }
  }

  lemma {:induction false} NodesStay(c: Crypto, w: World, es: seq<Event>)
    requires c.Laws()
    ensures Exec(c, w, es).nodes.Keys == w.nodes.Keys
  {
    if es != [] {
      NodesStay(c, w, es[..|es| - 1]);
      var v := Exec(c, w, es[..|es| - 1]);
      if Enabled(c, v, es[|es| - 1]) {
        ApplyGrows(c, v, es[|es| - 1]);
      }
    }
  }

  /** Handshake agreement: in every run, whenever an initiator holds an established link whose peer key belongs to a
      daemon, that daemon issued a proof for a request of this initiator, and both ends have the same key or the two
      requests are a collision of SHA-256. Unless a packet of the run mixed two links, the proof is for the identifier
      the link itself carries. */
  lemma HandshakeAgreement(c: Crypto, w: World, es: seq<Event>, id: nat, a: Hash)
    requires c.Laws() && Initial(w) && ToDaemon(Exec(c, w, es), id, a)
    ensures var v := Exec(c, w, es);
      var l := v.nodes[id].channels[a];
      && l.sharedKey.Some?
      && exists r, p :: r in v.requests && p in v.proofs
           && Agree(c, id, l.sharedKey.value, l.remoteSigningKey.value, r, p)
           && (AllFresh(c, w, es) && NoMixing(c, w, es) ==> LinkId(c, p.request) == l.linkId)
  {
    if AllFresh(c, w, es) && NoMixing(c, w, es) {
      IdentifiedRuns(c, w, es, id);
      assert Identified(c, LogsOf(Exec(c, w, es)), id, Exec(c, w, es).nodes[id].channels[a]);
    } else {
      EstablishedIsBacked(c, w, es, id, a);
    }
  }

  /** Runs that only connect to peers whose key is already known never mix links. */
  lemma {:induction false} KnownPeersNeverMix(c: Crypto, w: World, es: seq<Event>)
    requires c.Laws() && Initial(w) && AllFresh(c, w, es) && AllKnown(c, w, es)
    ensures NoMixing(c, w, es)
  {
    if es != [] {
      var before, e := es[..|es| - 1], es[|es| - 1];
      KnownPeersNeverMix(c, w, before);
      NodesStay(c, w, before);
      if e.node in w.nodes {
        PairedRuns(c, w, before, e.node);
      }
    }
  }

  /** So in those runs every established link to a daemon carries an identifier for which that daemon issued a proof,
      with the same key or a collision of SHA-256. */
  lemma KnownPeersKeepLinkIds(c: Crypto, w: World, es: seq<Event>, id: nat, a: Hash)
    requires c.Laws() && Initial(w) && AllFresh(c, w, es) && AllKnown(c, w, es) && ToDaemon(Exec(c, w, es), id, a)
    ensures var v := Exec(c, w, es);
      var l := v.nodes[id].channels[a];
      && l.sharedKey.Some?
      && exists r, p :: r in v.requests && p in v.proofs && LinkId(c, p.request) == l.linkId
           && Agree(c, id, l.sharedKey.value, l.remoteSigningKey.value, r, p)
  {
    KnownPeersNeverMix(c, w, es);
    HandshakeAgreement(c, w, es, id, a);
  }

  // ---------- Connecting to a peer whose key is not known yet ----------

  lemma ExecSnoc(c: Crypto, w: World, es: seq<Event>, e: Event)
    requires c.Laws() && Enabled(c, Exec(c, w, es), e)
    ensures Exec(c, w, es + [e]) == Apply(c, Exec(c, w, es), e)
  {
    assert (es + [e])[..|es|] == es;
  }

  /** One more step that signs nothing. */
  lemma QuietStep(c: Crypto, w: World, es: seq<Event>, e: Event)
    requires c.Laws() && Enabled(c, Exec(c, w, es), e) && (e.Connect? || e.Lrproof? || e.LearnPeer?)
    ensures var v, u := Exec(c, w, es), Exec(c, w, es + [e]);
      u.nodes == v.nodes[e.node := NodeAfter(c, v.nodes[e.node], e)] && u.issued == v.issued && u.proofs == v.proofs
  {
    ExecSnoc(c, w, es, e);
  }

  /** The proof the second daemon issues for the request to `b` can be delivered. */
  lemma IssuedProofIsGenuine(c: Crypto, w: World, key: Key, request: Packet, eph: bytes, n: Node)
    requires c.Laws() && |request.data| >= 64 && n.identityKey == key
    requires (key, ProofMessage(c, key, request, eph)) in w.issued
    ensures Genuine(c, w, LinkId(c, request), key, ProofPacket(c, n, request, eph).data)
    ensures ProofHolds(c, LinkId(c, request), key, ProofPacket(c, n, request, eph).data)
  {
    var data := ProofPacket(c, n, request, eph).data;
    assert data[..64] == c.sign(key, ProofMessage(c, key, request, eph));
    assert data[64..96] == c.publicOf(eph);
    assert data[96..99] == SignallingAt(request.data, 64);
  }

  /** The state of the initiator before the last packet: a pending channel to `a` without its pending key, and a
      complete pending link to `b`. */
  function Stale(k: Key, a: Hash, b: Hash, id1: Hash, id2: Hash, eph2: bytes, keyA: Key): Node {
    Node(k, map[],
         map[a := Link(a, id1, true, Handshaking, None, None, None, false),
             b := Link(b, id2, true, Handshaking, None, None, None, false)],
         map[b := Pending(id2, eph2)], map[a := keyA])
  }

  lemma StaleIsReachable(c: Crypto, w: World, k: Key, a: Hash, b: Hash, eph1: bytes, eph2: bytes, sigPub: Key,
                         keyA: Key)
    returns (es: seq<Event>)
    requires c.Laws() && a != b && 0 in w.nodes && w.nodes[0] == Node(k, map[], map[], map[], map[])
    ensures var v := Exec(c, w, es);
      var id1 := LinkId(c, RequestPacket(c, a, None, eph1, sigPub));
      var id2 := LinkId(c, RequestPacket(c, b, None, eph2, sigPub));
      && v.nodes == w.nodes[0 := Stale(k, a, b, id1, id2, eph2, keyA)]
      && v.issued == w.issued && v.proofs == w.proofs
  {
    var id1 := LinkId(c, RequestPacket(c, a, None, eph1, sigPub));
    var early := Packet(HEADER_1, 0, 1, 0, PROOF, 0, id1, None, LRPROOF, []);
    var e1 := Connect(0, a, None, eph1, sigPub);
    var e2 := Lrproof(0, a, early, Some(a), Some(a), []);
    var e3 := LearnPeer(0, a, keyA);
    var e4 := Connect(0, b, None, eph2, sigPub);
    assert Exec(c, w, []) == w;
    StaleSteps(c, k, a, b, eph1, eph2, sigPub, keyA, early);
    QuietStep(c, w, [], e1);
    QuietStep(c, w, [] + [e1], e2);
    QuietStep(c, w, [] + [e1] + [e2], e3);
    QuietStep(c, w, [] + [e1] + [e2] + [e3], e4);
    es := [] + [e1] + [e2] + [e3] + [e4];
  }

  /** The four steps at the initiator: connect to `a`, take an early proof of `a` while its key is unknown, learn the
      key, connect to `b`. */
  lemma StaleSteps(c: Crypto, k: Key, a: Hash, b: Hash, eph1: bytes, eph2: bytes, sigPub: Key, keyA: Key, early: Packet)
    requires c.Laws() && a != b
    requires var id1 := LinkId(c, RequestPacket(c, a, None, eph1, sigPub));
      early == Packet(HEADER_1, 0, 1, 0, PROOF, 0, id1, None, LRPROOF, [])
    ensures var id1 := LinkId(c, RequestPacket(c, a, None, eph1, sigPub));
      var id2 := LinkId(c, RequestPacket(c, b, None, eph2, sigPub));
      var n0 := Node(k, map[], map[], map[], map[]);
      var n1 := NodeAfter(c, n0, Connect(0, a, None, eph1, sigPub));
      && Lookups(n1, a, early, Some(a), Some(a))
      && var n2 := NodeAfter(c, n1, Lrproof(0, a, early, Some(a), Some(a), []));
      var n3 := NodeAfter(c, n2, LearnPeer(0, a, keyA));
      NodeAfter(c, n3, Connect(0, b, None, eph2, sigPub)) == Stale(k, a, b, id1, id2, eph2, keyA)
  {
    var id1 := LinkId(c, RequestPacket(c, a, None, eph1, sigPub));
    var n0 := Node(k, map[], map[], map[], map[]);
    var link1 := Link(a, id1, true, Handshaking, None, None, None, false);
    var n1 := NodeAfter(c, n0, Connect(0, a, None, eph1, sigPub));
    assert n1 == Node(k, map[], map[a := link1], map[a := Pending(id1, eph1)], map[]);
    var n2 := NodeAfter(c, n1, Lrproof(0, a, early, Some(a), Some(a), []));
    assert n2 == Node(k, map[], map[a := link1], map[], map[]);
  }

  /** In that state a proof by `a`'s key for the link to `b` establishes the channel of `a`. */
  lemma StaleTakesOtherProof(c: Crypto, k: Key, a: Hash, b: Hash, id1: Hash, id2: Hash, eph2: bytes, keyA: Key,
                             p: Packet)
    requires a != b && id1 != id2 && p.destinationHash == id2 && ProofHolds(c, id2, keyA, p.data)
    ensures var n := Stale(k, a, b, id1, id2, eph2, keyA);
      && Lookups(n, a, p, Some(a), Some(b))
      && var n' := Proved(c, n, a, p, Some(a), Some(b), []);
      && n'.identityKey == k && a in n'.channels
      && n'.channels[a].initiator && n'.channels[a].state == Established
      && n'.channels[a].remoteSigningKey == Some(keyA) && n'.channels[a].linkId == id1
  {
  }

  /** The second daemon answers the request to `b`: it issues the one proof there is, and that can be delivered. */
  lemma AnswersForB(c: Crypto, w: World, x: Hash, request: Packet, eph: bytes)
    requires c.Laws() && Wire(request) && |request.data| >= 64
    requires w.issued == {} && w.proofs == {} && 1 in w.nodes && Answerable(w.nodes[1], x, request)
    ensures var e, key := LinkRequest(1, x, request, eph, []), w.nodes[1].identityKey;
      var proof := ProofPacket(c, w.nodes[1], request, eph);
      && Enabled(c, w, e)
      && var v := Apply(c, w, e);
      && v.nodes == w.nodes[1 := v.nodes[1]] && 1 in v.nodes && v.nodes[1].identityKey == key
      && v.proofs == {Proof(key, request, eph)}
      && Genuine(c, v, LinkId(c, request), key, proof.data) && ProofHolds(c, LinkId(c, request), key, proof.data)
  {
    var e, key := LinkRequest(1, x, request, eph, []), w.nodes[1].identityKey;
    IssuedProofIsGenuine(c, Apply(c, w, e), key, request, eph, w.nodes[1]);
  }

  /** The first daemon holds a link to `a`, established with the key of a daemon, that no proof in the log is for. */
  ghost predicate Mixed(c: Crypto, w: World, a: Hash, key: Key)
    requires c.Laws()
  {
    && 0 in w.nodes && a in w.nodes[0].channels
    && var l := w.nodes[0].channels[a];
    && l.initiator && l.state == Established && l.remoteSigningKey == Some(key) && key in DaemonKeys(w)
    && forall p :: p in w.proofs ==> LinkId(c, p.request) != l.linkId
  }

  lemma LastStepMixes(c: Crypto, w: World, k: Key, a: Hash, b: Hash, id1: Hash, eph2: bytes, key: Key, issued: Proof,
                      proof: Packet)
    requires c.Laws() && a != b && id1 != LinkId(c, issued.request)
    requires 0 in w.nodes && w.nodes[0] == Stale(k, a, b, id1, LinkId(c, issued.request), eph2, key)
    requires 1 in w.nodes && w.nodes[1].identityKey == key && w.proofs == {issued}
    requires proof.destinationHash == LinkId(c, issued.request)
    requires Genuine(c, w, LinkId(c, issued.request), key, proof.data)
    requires ProofHolds(c, LinkId(c, issued.request), key, proof.data)
    ensures var e := Lrproof(0, a, proof, Some(a), Some(b), []); Enabled(c, w, e) && Mixed(c, Apply(c, w, e), a, key)
  {
    var e := Lrproof(0, a, proof, Some(a), Some(b), []);
    StaleTakesOtherProof(c, k, a, b, id1, LinkId(c, issued.request), eph2, key, proof);
    assert Apply(c, w, e).nodes[1].identityKey == key;
  }

  lemma LastTwoStepsMix(c: Crypto, w: World, k0: Key, k1: Key, a: Hash, b: Hash, x: Hash, id1: Hash, eph2: bytes,
                        ephR: bytes, request: Packet)
    requires c.Laws() && a != b && Wire(request) && |request.data| >= 64 && id1 != LinkId(c, request)
    requires w.issued == {} && w.proofs == {}
    requires 0 in w.nodes && w.nodes[0] == Stale(k0, a, b, id1, LinkId(c, request), eph2, k1)
    requires 1 in w.nodes && w.nodes[1].identityKey == k1 && Answerable(w.nodes[1], x, request)
    ensures var e5 := LinkRequest(1, x, request, ephR, []);
      var e6 := Lrproof(0, a, ProofPacket(c, w.nodes[1], request, ephR), Some(a), Some(b), []);
      && Enabled(c, w, e5) && Enabled(c, Apply(c, w, e5), e6)
      && Mixed(c, Apply(c, Apply(c, w, e5), e6), a, k1)
  {
    var proof := ProofPacket(c, w.nodes[1], request, ephR);
    AnswersForB(c, w, x, request, ephR);
    LastStepMixes(c, Apply(c, w, LinkRequest(1, x, request, ephR, [])), k0, a, b, id1, eph2, k1,
                  Proof(k1, request, ephR), proof);
  }

  lemma FinishMixing(c: Crypto, w: World, stale: seq<Event>, k0: Key, k1: Key, a: Hash, b: Hash, x: Hash, id1: Hash,
                     eph2: bytes, ephR: bytes, request: Packet)
    returns (es: seq<Event>)
    requires c.Laws() && a != b && Wire(request) && |request.data| >= 64 && id1 != LinkId(c, request)
    requires var v := Exec(c, w, stale);
      && v.issued == {} && v.proofs == {}
      && 0 in v.nodes && v.nodes[0] == Stale(k0, a, b, id1, LinkId(c, request), eph2, k1)
      && 1 in v.nodes && v.nodes[1].identityKey == k1 && Answerable(v.nodes[1], x, request)
    ensures Mixed(c, Exec(c, w, es), a, k1)
  {
    var v := Exec(c, w, stale);
    var e5 := LinkRequest(1, x, request, ephR, []);
    var e6 := Lrproof(0, a, ProofPacket(c, v.nodes[1], request, ephR), Some(a), Some(b), []);
    LastTwoStepsMix(c, v, k0, k1, a, b, x, id1, eph2, ephR, request);
    ExecSnoc(c, w, stale, e5);
    ExecSnoc(c, w, stale + [e5], e6);
    es := stale + [e5] + [e6];
  }

  /** Connecting to a peer before its key is known can end in an established link whose own identifier nobody ever
      proved: the proof was for the link to `b`. */
  lemma UnknownPeerMixesLinks(c: Crypto, k0: Key, k1: Key, a: Hash, b: Hash, x: Hash, eph1: bytes, eph2: bytes,
                              ephR: bytes, sigPub: Key)
    returns (w: World, es: seq<Event>)
    requires c.Laws() && a != b
    requires LinkId(c, RequestPacket(c, a, None, eph1, sigPub)) != LinkId(c, RequestPacket(c, b, None, eph2, sigPub))
    ensures Initial(w)
    ensures Mixed(c, Exec(c, w, es), a, k1)
  {
    w := World(map[0 := Node(k0, map[], map[], map[], map[]), 1 := Node(k1, map[], map[], map[], map[x := k0])],
               {}, {}, {});
    var stale := StaleIsReachable(c, w, k0, a, b, eph1, eph2, sigPub, k1);
    es := FinishMixing(c, w, stale, k0, k1, a, b, x, LinkId(c, RequestPacket(c, a, None, eph1, sigPub)), eph2, ephR,
                       RequestPacket(c, b, None, eph2, sigPub));
  }

  /** Primitives that satisfy the laws: one key pair, one signature, and a hash that copies 32 octets. */
  function ToyCrypto(): Crypto {
    Crypto(_ => Zeros(32), (_, _) => Zeros(32), (_, _) => Zeros(64), (_, _, s) => s == Zeros(64),
           m => if |m| >= 33 then m[1..33] else Zeros(32))
  }

  lemma ToyLinkId(remote: Hash)
    ensures ToyCrypto().Laws()
    ensures LinkId(ToyCrypto(), RequestPacket(ToyCrypto(), remote, None, [], Zeros(32))) == remote
  {
    var p := RequestPacket(ToyCrypto(), remote, None, [], Zeros(32));
    LinkHashableParts(p);
    var h := LinkHashable(p);
    assert |h| >= 33 && h[1..17] == remote;
    assert ToyCrypto().sha256(h)[..16] == h[1..17];
  }

  /** Such a run exists: nothing the previous lemma supposes is contradictory. */
  lemma MixedRunExists() returns (c: Crypto, w: World, es: seq<Event>, a: Hash, key: Key)
    ensures c.Laws() && Initial(w) && Mixed(c, Exec(c, w, es), a, key)
  {
    c, a, key := ToyCrypto(), Zeros(16), Zeros(32);
    var b: Hash := Zeros(15) + [1];
    assert a[15] != b[15];
    ToyLinkId(a);
    ToyLinkId(b);
    w, es := UnknownPeerMixesLinks(c, key, key, a, b, a, [], [], [], key);
  }
}
