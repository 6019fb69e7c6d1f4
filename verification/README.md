# rsticulum: protocol models and proofs

rsticulum is a Rust implementation of the Reticulum network stack. This project models the parts of it that are
protocols, state machines and codecs, and proves what they guarantee over every run, every input and every reachable
state:

* the link handshake between daemons (link request, LRPROOF) as an N-daemon state machine over a network that loses,
  reorders, repeats and alters packets, and the key ratchet of an established link;
* announce flooding and path replies between mesh nodes;
* channels: encrypted links, envelopes, and the receiver that puts wrapped 32-bit sequence numbers back in order;
* the ICN forwarder: content store, pending Interest table, routes, strategy, and whole runs of its public calls;
* framing (two HDLC decoders, KISS), packet fragmentation, resource segmentation and suspendable links;
* the packet and ICN codecs and HKDF.

Code that changes fields step by step is modelled by a class or a method with loops, and each method is proved to
compute a function of the old state; the theorems are about those functions. Code that computes a value is a function.
Lemmas whose name ends in `Exactly` say what such a function does, for all inputs, in terms of fields, octets and
primitives.

Conventions:

* Integers are unbounded; widths, wrap-around and truncating casts are written out (sequence numbers modulo 2^32, hop
  counts modulo 256, lengths in one octet, and so on).
* Cryptography is a parameter, `Handshake.Crypto`, `Links.Cipher`, `Forwarders.Hashing`, `Hkdf.Hmac`, with only these
  laws: the key exchange is commutative, a signature made with a key verifies under it, decrypting undoes encrypting,
  tags and digests have their fixed sizes. The handshake also supposes that, if the signature of an LRPROOF verifies under
  a daemon's key for a message, the daemon signed that message (`HandshakeRuns.Genuine`, in terms of the primitive
  `verify`; that a link is established only after the check is a theorem). SHA-256 may collide: a collision appears as
  an alternative in the conclusion.
* The key two ends agree on is the one of establishment; what RATCHET packets make of it is the subject of `Ratchet`.
* Clocks, random numbers and what a face answers are parameters. Durations are in nanoseconds.

Where the code and its documentation disagree the code is modelled. These are theorems here; where a documented
property can fail, the exact condition under which it holds is proved:

* A link established by LRPROOF need not carry the identifier that was proved: `HandshakeLinks.LinkIdExactly`, with a
  run in `HandshakeLinks.UnknownPeerMixesLinks`.
* A channel message whose type has a handler stops all later delivery: `ChannelOrder.DeliversAllContiguous`. A sequence
  number far from the expected one is taken for another message: `ChannelOrder.MisfiledBreaksOrder`.
* A path reply need not stop, and need not visit all of its route: `PathReplies.ReplyStopsExactly` and
  `PathReplies.RepliesBuildRoutes`, with requests in `PathReplies.ReplyCirculates` and
  `PathReplies.RepeatedForwarderSkipsNodes`.
* The two ends of a daemon link can derive different transport identifiers: `Links.TransportIdsAgree`, with an example
  in `Links.TransportIdsCanDiffer`.
* A serial HDLC decoder or a KISS decoder that starts inside a frame does not get back into step:
  `SerialHdlc.SerialRecoversExactly`, `Kiss.KissRecoversExactly`.
* Resuming a link with a storage path forgets what was sent while suspended: `Suspendable.StorageForgets`,
  `Suspendable.ResumeLosesExactly`, and `Suspendable.RunConservesExactly` for whole runs.
* Unregistering a face keeps most of its routes: `Fibs.UnregisterDropsExactly`, `Fibs.UnregisterKeepsRoute`.
* A late duplicate segment takes a complete resource back to `Transferring`, and the empty resource never completes:
  `Resources.TransferExactly`.
* The loop check of the pending Interest table compares the same face only (`Pits.LoopExactly`); the prefix search of
  the content store finds cached names that are prefixes of the requested one (`ContentStores.ContentStore.GetPrefix`);
  the forwarder does not compare the name of an answer with the request (`Forwarders.AnswerNameIsNotChecked`); the
  forwarder never reports failures to its strategy, so no face is ever in backoff there.

## Model

| member | source | states |
|---|---|---|
| `HandshakeLinks.HandshakeAgreement` | crates/daemon/src/lib.rs:781-964 | In every run of any number of daemons, an established initiator link whose peer key belongs to a daemon has a request of this initiator and a proof that daemon issued, naming one link, and both ends have the same key or the two requests are a SHA-256 collision; unless a packet of the run mixed two links, the proof is for the identifier the link itself carries |
| `HandshakeRuns.EstablishedIsBacked` | crates/daemon/src/lib.rs:781-964 | The part of agreement that holds in every run whatever is mixed |
| `HandshakeLinks.EveryLinkWasVerified` | crates/daemon/src/lib.rs:868-926 | In every run, whatever the network sends: an established initiator link has a request of this daemon and proof octets whose signature verifies under the peer's key for the identifier of that request, and its key is the exchange of that request's ephemeral key with the one in the proof |
| `Handshake.EstablishedExactly` | crates/daemon/src/lib.rs:868-945 | When both look-ups succeed and the peer's key is known, a link is established if and only if the signature over identifier, ephemeral key, peer key and signalling verifies under the peer's key; the new link field by field; no other channel changes |
| `Handshake.NewLinkIsVerified` | crates/daemon/src/lib.rs:868-945 | Whatever the LRPROOF, a channel that is new or changed afterwards rests on a signature that verifies |
| `Handshake.LrproofOutcomes` | crates/daemon/src/lib.rs:781-866 | Which entries the two look-ups may return, and what is left pending for each outcome: no channel, no key, unknown peer, known peer |
| `HandshakeRuns.ReachableInv` | crates/daemon/src/lib.rs:781-1097 | The invariant behind agreement holds after every sequence of events from fresh daemons |
| `HandshakeRuns.ApplyKeepsInv` | crates/daemon/src/lib.rs:781-1097 | Every single event keeps the invariant of all daemons |
| `HandshakeRuns.ProofWasIssued` | crates/daemon/src/lib.rs:868-917 | If a signature verifies under a daemon's key for the message of an LRPROOF, and that daemon signed the message, it issued the proof for this link identifier and this ephemeral key |
| `HandshakeRuns.KeysAgree` | crates/daemon/src/lib.rs:886-926 | One link identifier and a commutative exchange give both ends one key, unless the hash collides |
| `HandshakeRuns.ResponderStoresKey` | crates/daemon/src/lib.rs:1030-1075 | The daemon that issues a proof stores the key and the link identifier of that proof in its channel at the same step |
| `HandshakeRuns.LrproofShape` | crates/daemon/src/lib.rs:781-964 | An LRPROOF only removes pending entries and establishes at most one link |
| `HandshakeLinks.HandshakeCompletes` | crates/daemon/src/lib.rs:978-1097 | Connect, request over the wire with any hop count, proof over the wire from any address without a pending link: the octets of both packets, and both daemons afterwards in full: one link identifier, one key, nothing else changed |
| `HandshakeLinks.LinkIdExactly` | crates/daemon/src/lib.rs:790-853 | The established link carries the proved identifier if and only if the packet does not mix links: the sender's pending channel has lost its pending key while the packet names another link |
| `HandshakeLinks.KnownPeersKeepLinkIds` | crates/daemon/src/lib.rs:1406-1475 | In every run that connects only to peers whose key is known, each established link to a daemon has a proof by that daemon in the log for its own identifier, and the same key or a collision |
| `HandshakeLinks.KnownPeersNeverMix` | crates/daemon/src/lib.rs:1406-1475 | Such runs never mix links |
| `HandshakeLinks.PairedRuns` | crates/daemon/src/lib.rs:1406-1475 | In every run with fresh identifiers pending channels and pending keys stay paired |
| `HandshakeLinks.UnknownPeerMixesLinks` | crates/daemon/src/lib.rs:790-866 | For any primitives and keys a run in which connecting before the peer's key is known ends in an established link whose identifier nobody proved |
| `HandshakeLinks.MixedRunExists` | crates/daemon/src/lib.rs:790-866 | Concrete primitives, daemons and events for such a run |
| `Handshake.Daemon.Connect` | crates/daemon/src/lib.rs:1406-1475 | The new state, and a request exactly when there is neither a channel nor a pending one; otherwise nothing changes |
| `Handshake.Daemon.HandleLinkRequest` | crates/daemon/src/lib.rs:978-1097 | A proof exactly when the request has 64 octets of key material and the peer's key is known; the octets of the proof and the link stored, spelled out |
| `Handshake.Daemon.HandleLrproof` | crates/daemon/src/lib.rs:781-964 | The new state for every outcome of the two look-ups, error branches included; with `Handshake.EstablishedExactly`, the signature check |
| `Packets.LinkHashableParts` | crates/daemon/src/lib.rs:1633-1650 | What is hashed to name a link: flag nibble, addresses, context, key material |
| `Packets.LinkHashableExactly` | crates/daemon/src/lib.rs:1633-1650 | The hashed octets of a packet on the wire, field by field, with the data cut at 64 octets |
| `Packets.LinkHashableStable` | crates/daemon/src/lib.rs:1633-1650 | Changing hops, context or transport flag, or signalling in flight leaves the link identifier alone, through the wire |
| `Packets.LinkHashableBindsKeys` | crates/daemon/src/lib.rs:1633-1650 | Equal hashed octets mean equal key material and equal addresses |
| `Ratchet.EpochsStayInStep` | crates/daemon/src/lib.rs:1128-1167 | In every run of a session with loss, reordering and duplication each key is the handshake key rotated once per accepted packet, equal counts give equal keys, and the counts differ by at most one more than the duplications |
| `Ratchet.EpochIsHkdf` | crates/daemon/src/lib.rs:1145-1156 | Each epoch is HKDF of the one before it, in terms of HMAC: salted with the exchanged ratchet secret, under the label "ratchet"; epoch 0 is the handshake key |
| `Ratchet.RatchetDataCarries` | crates/daemon/src/lib.rs:306-335 | A RATCHET packet is the public ratchet key and the sequence number, least significant octet first |
| `Ratchet.SkewIsTight` | crates/daemon/src/lib.rs:306-335 | For every number of duplications there are runs that reach the bound at both ends |
| `Ratchet.ReceiveRotates` | crates/daemon/src/lib.rs:1137-1158 | An accepted packet rotates the key once, with the secret both ends compute |
| `Ratchet.RatchetLink.SendPending` | crates/daemon/src/lib.rs:306-335 | A packet exactly when one is pending and there is a ratchet key; then the flag is cleared and the number goes up modulo 2^32 |
| `Ratchet.RatchetLink.Receive` | crates/daemon/src/lib.rs:1128-1167 | Below 36 octets nothing changes; otherwise the peer key, the pending flag, and the new shared key in terms of HMAC |
| `Announces.FloodingTerminates` | crates/daemon/src/lib.rs:507-527 | Without new announces no run is longer than the announces in flight plus the fan-out for each node and destination that may still forward |
| `Announces.MeasureDecreases` | crates/daemon/src/lib.rs:507-527 | The lexicographic measure (pairs that may forward, announces in flight) strictly decreases with each step |
| `Announces.ForwardsAtMostOnce` | crates/daemon/src/lib.rs:507-527 | In every run a node forwards a destination at most once, and exactly then records it |
| `Announces.Forwarder.Propagate` | crates/daemon/src/lib.rs:507-527 | Forwarded exactly when hops are left and the destination is new, with one hop fewer; in any network this is the delivery step the flooding theorems are about |
| `PathReplies.RepliesBuildRoutes` | crates/mesh/src/path_request.rs:150-178 | When the reply is handed to position p and nothing repeats from there on, next hops lead from position i down the route to the answering node in exactly i steps if and only if every node on the way takes the new route or pointed down already; nodes before p cannot take it |
| `PathReplies.NewForwarderBuildsRoutes` | crates/daemon/src/lib.rs:552-602 | If the last forwarder was new to the path, the answering node is not on it and every node has no route or a worse one, the reply stops, next hops lead from each node to the answering node, and entries have the quality and the distance of the reply |
| `PathReplies.BestRouteWins` | crates/mesh/src/routing.rs:38-61 | Whatever routes are offered to an empty table, in whatever order, the entry for a destination exists if and only if one was offered, is one of those, and none offered has better quality, or the same quality and fewer hops |
| `PathReplies.LeadsHomeExactly` | crates/mesh/src/routing.rs:64-67 | Next hops lead from position i to the first node in i steps if and only if every node on the way points down the route |
| `PathReplies.StopsExactly` | crates/daemon/src/lib.rs:609-661 | Handed to any node, a reply stops if and only if that node is not on the route or no address repeats from its position on |
| `PathReplies.ReplyStopsExactly` | crates/daemon/src/lib.rs:552-602 | A reply goes to the last forwarder, and stops if and only if the answering node is not on the path or came onto it after that forwarder |
| `PathReplies.DirectReplyStops` | crates/daemon/src/lib.rs:552-572 | A reply to a request nobody forwarded stops at the requester |
| `PathReplies.RepeatedForwarderSkipsNodes` | crates/daemon/src/lib.rs:583-602 | A request by way of A, B and A again, answered by C: the reply stops at A and B never sees it |
| `PathReplies.ReplyCirculates` | crates/daemon/src/lib.rs:583-602 | A request by way of A and B, answered by A: the reply never stops |
| `PathReplies.TravelsInOrder` | crates/daemon/src/lib.rs:609-661 | From a position after which nothing repeats the reply visits the rest of the route in order and stops |
| `PathReplies.RepeatNeverStops` | crates/mesh/src/path_request.rs:150-178 | Handed to any node before a repeated address, the reply circulates for ever among the nodes before the repetition |
| `PathReplies.PathHasNoDup` | crates/mesh/src/path_request.rs:47-57 | However a request is flooded, its path has no repetition, contains the last forwarder, and is no longer than the hops allowed |
| `PathReplies.AnsweredExactly` | crates/mesh/src/path_request.rs:108-144 | Who answers a request, and the reply: number, destination, path in reverse, quality and distance |
| `PathReplies.ForwardedExactly` | crates/mesh/src/path_request.rs:47-57 | Different forwarders leave a path of just these forwarders, at most as many as hops are allowed |
| `PathReplies.FinalNetExactly` | crates/mesh/src/path_request.rs:150-178 | Every node of the route from the first recipient on handles the reply once; all others keep their tables |
| `PathReplies.PointsExactly` | crates/mesh/src/routing.rs:38-61 | A node points down the route afterwards if and only if it gets the reply and has no route, one of lower quality, or one as good with more hops, or pointed there already; otherwise its table is unchanged |
| `PathReplies.MeshRouter.HandlePathReply` | crates/mesh/src/path_request.rs:150-178 | The new table and the neighbour to forward to |
| `PathReplies.MeshRouter.UpdateRoute` | crates/mesh/src/routing.rs:38-61 | The new table, which `PathReplies.BestRouteWins` says keeps the best of all routes offered |
| `ChannelOrder.DeliversInOrder` | crates/channel/src/lib.rs:122-160 | For unbounded streams with wrapped sequence numbers and any loss, repetition and reordering, what is delivered is a prefix of what was sent, ends before the first message for a handler, and at most 999 numbers, all above the next, are buffered |
| `ChannelOrder.MisfiledBreaksOrder` | crates/channel/src/lib.rs:140-155 | A packet outside the condition of the previous row breaks the order or the buffer unless its payload happens to be the right one |
| `ChannelOrder.DeliversAllContiguous` | crates/channel/src/lib.rs:134-155 | For any handlers, before wrap-around and within the window, the next number is the smallest one that is unseen or for a handler, the buffer is exactly what was seen above it and is not for a handler, and the condition of `ChannelOrder.DeliversInOrder` is met |
| `ChannelOrder.HandlersGetAll` | crates/channel/src/lib.rs:134-139 | Handlers are called at once, in order of arrival and once for every arrival, whatever the sequence numbers say |
| `ChannelOrder.NearPacketsAreFiled` | crates/channel/src/lib.rs:140-155 | Less than 2^32 ahead and no more than 2^32 - 1000 behind, a packet is never misfiled |
| `ChannelOrder.NearRunsAreTimely` | crates/channel/src/lib.rs:140-155 | A run in which every packet arrives in that range meets the condition of `ChannelOrder.DeliversInOrder` |
| `ChannelOrder.FarPacketsAreMisfiled` | crates/channel/src/lib.rs:140-155 | Both ends of that range are sharp |
| `ChannelOrder.SentIsAccepted` | crates/channel/src/lib.rs:97-160 | Message i, sent over one link and read from the wire by the other end, reaches the receiver as the envelope of message i |
| `ChannelOrder.AcceptKeeps` | crates/channel/src/lib.rs:134-155 | Any packet that is not misfiled keeps the receiver's invariant |
| `Channels.EncryptedSendBound` | crates/channel/src/lib.rs:97-113 | Over an established keyed link of any MTU a message of n octets is sent if and only if n is at most mtu - 6 and 16((n+6)/16+1)+32 is at most mtu; at 500, n at most 457 |
| `Channels.EnvelopeRoundTrip` | crates/channel/src/message.rs:60-86 | Envelopes survive the wire if and only if type and number fit their fields |
| `Channels.UnpackExactly` | crates/channel/src/message.rs:71-86 | Six octets or more read as type, number and payload, most significant octet first; fewer as nothing |
| `Channels.SendsEnvelope` | crates/channel/src/lib.rs:97-113 | Over any link: above mtu - 6 octets, in 64-bit arithmetic, refused; otherwise what the link answers for type, number and payload |
| `Channels.PassExactly` | crates/channel/src/lib.rs:122-160 | A pass accepts the messages before the first that is too short one by one, drops that one with an error, and leaves the rest |
| `Channels.Channel.SendTyped` | crates/channel/src/lib.rs:97-113 | The result, the packet queued, and that a number is used up whenever the size check passes |
| `Channels.Channel.Deliver` | crates/channel/src/lib.rs:122-160 | The receiver after every pending link message, the error cases, and that ready grows by exactly what is delivered |
| `Channels.Channel.AcceptInbound` | crates/channel/src/lib.rs:127-157 | The receiver loop equals taking the messages one by one; a malformed one stops it |
| `Channels.Channel.AcceptEnvelope` | crates/channel/src/lib.rs:134-157 | One envelope: handled, delivered with what follows it, buffered or dropped |
| `Channels.Channel.DrainBuffer` | crates/channel/src/lib.rs:146-151 | The drain loop delivers the contiguous run and removes it from the buffer |
| `Channels.Channel.Recv` | crates/channel/src/lib.rs:165-167 | The oldest ready payload, or none |
| `Links.DataDelivered` | crates/transport/src/link.rs:557-625 | What one end sends the other reads, through the wire, when key and identifier agree and each names the other |
| `Links.TransportIdsAgree` | crates/transport/src/link.rs:649-655 | Links that name each other have one identifier; the daemon's way of naming agrees if and only if hashes and addresses differ by the same pattern |
| `Links.TransportIdsCanDiffer` | crates/transport/src/link.rs:649-655 | Two ends that derive different identifiers |
| `Links.OpenSeal` | crates/transport/src/link.rs:667-727 | Opening undoes sealing |
| `Links.OpenExactly` | crates/transport/src/link.rs:696-727 | Octets open to a message if and only if they end in the tag of what comes before, that is a whole number of blocks, and it decrypts to the message with its padding; a wrong tag is always refused |
| `Links.SealExactly` | crates/transport/src/link.rs:667-691 | What is sent: the message with one to sixteen octets of padding, encrypted, and the tag of the ciphertext |
| `Links.LinkKeysAreHkdf` | crates/transport/src/link.rs:667-691 | Cipher key and IV in terms of HMAC: HKDF of the shared key, salted with the link identifier, under the label "ReticulumLinkKey" |
| `Links.SendsExactly` | crates/transport/src/link.rs:557-593 | Only over an established link; encrypted with the shared key, else for the peer's key, else plain; only if that fits; the packet field by field |
| `Links.DeliversExactly` | crates/transport/src/link.rs:601-625 | Each error exactly when, and otherwise the plaintext of the same three cases |
| `Links.TransportIdIsXor` | crates/transport/src/link.rs:649-655 | Every bit of the transport identifier is set exactly when it differs in the two addresses |
| `Links.EncryptLinkData` | crates/transport/src/link.rs:667-691 | Padding, derived keys, encryption and tag |
| `Links.DecryptLinkData` | crates/transport/src/link.rs:696-727 | Length, tag and padding checks, then the plaintext |
| `Links.DeriveTransportId` | crates/transport/src/link.rs:649-655 | The loop computes the octet-wise exclusive or |
| `Links.Link.Send` | crates/transport/src/link.rs:557-593 | The packet or the error, and what is queued |
| `Links.Link.Deliver` | crates/transport/src/link.rs:601-625 | The message or the error, and what is queued |
| `Links.Link.Recv` | crates/transport/src/link.rs:628-634 | The oldest message, or none |
| `ForwarderRuns.EveryRunIsSafe` | crates/icn/src/forwarder.rs:121-418 | After every sequence of public calls nothing is pending, nobody waits, the routes are well formed, and every cached Data is there under its own name, was brought by some call, and verified at that call under the key registered for its producer then |
| `ForwarderRuns.EveryAnswerIsVerified` | crates/icn/src/forwarder.rs:169-304 | After every run an Interest never waits for a notification; a cached answer was accepted like that earlier in the run and has the requested name if the match is exact, any other is what the face answered and verifies under the key registered now |
| `ForwarderRuns.AcceptedStillVerifies` | crates/icn/src/forwarder.rs:408-418 | Data accepted at some call still verifies unless another key was registered for its producer since |
| `ForwarderRuns.RotationKeepsCache` | crates/icn/src/forwarder.rs:141-143 | Registering a new key leaves data that no longer verifies in the cache |
| `ForwarderRuns.EveryRunRoutesBest` | crates/icn/src/forwarder.rs:169-222 | After every run an Interest that is forwarded goes to a cheapest face of the longest matching prefix; no route means no match; nothing is suppressed |
| `ForwarderRuns.EveryRunAnswersExactly` | crates/icn/src/forwarder.rs:169-304 | After every run: a repeated nonce is an error; else the cache answers if and only if the entry found there is admitted by the selector; else no match is no data; else a cheapest face of the longest prefix is asked, and what it answers is data if it verifies, nothing on a timeout, an error otherwise |
| `ForwarderRuns.LoopsAreRefusedExactly` | crates/icn/src/forwarder.rs:169-190 | After every run an Interest is refused as a loop if and only if the same face sent its nonce in an earlier call and no purge came 60 seconds or more after the last time it did |
| `Forwarders.ExpressNeverBlocks` | crates/icn/src/forwarder.rs:169-304 | From a quiescent state no Interest is suppressed or blocks, and the state stays quiescent |
| `Forwarders.ReceiveKeepsQuiescent` | crates/icn/src/forwarder.rs:382-402 | Unsolicited Data leaves the state quiescent |
| `Forwarders.ExpressIsSound` | crates/icn/src/forwarder.rs:169-304 | The answer is a cached entry, or what the face answered if it verifies under the key registered at that moment, and the cache gains nothing but such an answer under its own name |
| `Forwarders.CacheAnswers` | crates/icn/src/forwarder.rs:176-199 | The cache must answer: an entry found under the name, or the longest cached prefix, is returned whatever the routes and faces say if and only if freshness, number and hash meet the selector |
| `Forwarders.NothingCached` | crates/icn/src/forwarder.rs:176-199 | Without such an entry the strategy never serves from the cache |
| `Forwarders.ForwardExactly` | crates/icn/src/forwarder.rs:225-304 | The outcome and the whole new state for every answer of a face, with the signature check in terms of hash, key and signature |
| `Forwarders.ReceiveIsSound` | crates/icn/src/forwarder.rs:382-418 | Data is accepted if and only if it verifies under the key registered at that moment, and the cache gains nothing else |
| `Forwarders.ReceiveExactly` | crates/icn/src/forwarder.rs:382-418 | Accepted if and only if the signature over the hash of name and content verifies under the key of the first component; the whole new state either way |
| `Forwarders.AnswerNameIsNotChecked` | crates/icn/src/forwarder.rs:260-283 | A verified answer of any name is returned and cached under its own name |
| `Forwarders.Forwarder.Express` | crates/icn/src/forwarder.rs:169-222 | Keeps the invariant, always returns, is the value-level call that `ForwarderRuns.EveryRunAnswersExactly` describes, and returns only Data that was accepted; what is newly accepted is the answer of the face and verifies under the present key |
| `Forwarders.Forwarder.ForwardAndWait` | crates/icn/src/forwarder.rs:225-304 | New state and outcome for every answer: data, timeout, failure, missing face |
| `Forwarders.Forwarder.ReceiveData` | crates/icn/src/forwarder.rs:382-402 | Keeps the invariant, is the value-level call, and accepts exactly what verifies under the present key |
| `Forwarders.Forwarder.UnregisterFace` | crates/icn/src/forwarder.rs:126-133 | Drops the face and what removing the all-zero name drops |
| `Forwarders.Forwarder.AddRoute` | crates/icn/src/forwarder.rs:136-138 | One route inserted, invariant kept |
| `Forwarders.Forwarder.RegisterKeys` | crates/icn/src/forwarder.rs:141-143 | One key registered, invariant kept |
| `Fibs.ScanIsLongestMatch` | crates/icn/src/fib.rs:80-98 | The scan finds the first inserted of the longest matching prefixes, and nothing exactly when nothing matches |
| `Fibs.SortByCostSorts` | crates/icn/src/fib.rs:35-55 | Sorted, the same hops, and stable |
| `Fibs.InsertKeepsTable` | crates/icn/src/fib.rs:35-55 | Prefixes stay distinct, faces non-empty, unique and cost-sorted; one prefix is added |
| `Fibs.RemoveFaceKeepsTable` | crates/icn/src/fib.rs:60-69 | The same for removing a face |
| `Fibs.RemovePrefixKeepsTable` | crates/icn/src/fib.rs:72-74 | The same for removing a prefix |
| `Fibs.InsertSetsCost` | crates/icn/src/fib.rs:35-55 | Inserting sets one cost and changes no other |
| `Fibs.RemoveFaceDropsCost` | crates/icn/src/fib.rs:60-69 | Drops the face from every prefix above or below the given one and changes nothing else |
| `Fibs.RemovePrefixDropsCost` | crates/icn/src/fib.rs:72-74 | Drops every extension of the prefix and changes nothing else |
| `Fibs.InsertKeepsOrder` | crates/icn/src/fib.rs:35-55 | Inserting keeps the order of prefixes; a new one comes last |
| `Fibs.RemoveFaceKeepsOrder` | crates/icn/src/fib.rs:60-69 | Removing a face keeps the order of the prefixes that stay |
| `Fibs.RemovePrefixKeepsOrder` | crates/icn/src/fib.rs:72-74 | So does removing a prefix |
| `Fibs.RelatedExactly` | crates/icn/src/fib.rs:60-69 | The prefixes a removal of a face looks at: those that agree with the given one as far as the shorter goes |
| `Fibs.UnregisterDropsExactly` | crates/icn/src/forwarder.rs:126-133 | Unregistering drops all routes of a face if and only if they are for the empty prefix or the all-zero producer |
| `Fibs.UnregisterKeepsRoute` | crates/icn/src/forwarder.rs:126-133 | A face with one route to any other producer keeps it |
| `Fibs.Fib.Lookup` | crates/icn/src/fib.rs:80-98 | The faces of the longest match; none exactly when no prefix matches |
| `Fibs.Fib.Insert` | crates/icn/src/fib.rs:35-55 | The search and update loop is the table insertion |
| `Fibs.Fib.RemoveFace` | crates/icn/src/fib.rs:60-69 | The new table, kept well formed |
| `Fibs.Fib.RemovePrefix` | crates/icn/src/fib.rs:72-74 | The new table, kept well formed |
| `Pits.Pit.InsertOrAggregate` | crates/icn/src/pit.rs:67-94 | New entry exactly when there is none or it is satisfied, otherwise aggregation |
| `Pits.AggregatedExactly` | crates/icn/src/pit.rs:67-94 | A pending Interest of the same name gains the face, once; otherwise a new entry with that face alone |
| `Pits.PurgedExactly` | crates/icn/src/pit.rs:97-140 | A purge keeps exactly what is neither satisfied nor expired, entries and nonces; satisfying and setting the outgoing face change one field of one entry |
| `Pits.Pit.Satisfy` | crates/icn/src/pit.rs:107-115 | Marks the entry and returns its faces |
| `Pits.Pit.PurgeExpired` | crates/icn/src/pit.rs:120-140 | No satisfied or expired entry remains, the live ones are unchanged, and one entry is returned for each name removed |
| `Pits.LoopExactly` | crates/icn/src/pit.rs:120-156 | After any records and purges an Interest is taken for a loop if and only if the same face recorded the nonce and no purge came 60 seconds or more after the last time it did; other faces play no part |
| `Strategies.FirstUsableIsCheapest` | crates/icn/src/strategy.rs:156-186 | The face chosen is a cheapest one not in backoff; none exactly when all are |
| `Strategies.ForwardsToCheapest` | crates/icn/src/strategy.rs:156-186 | Without cache hit or pending entry the decision is that face, or no route |
| `Strategies.DecidesExactly` | crates/icn/src/strategy.rs:116-186 | Each of the four decisions if and only if: served from the cache when fresh, numbered and hashed as asked; suppressed when pending; forwarded to a cheapest face not in backoff; no route otherwise |
| `Strategies.BackoffExactly` | crates/icn/src/strategy.rs:87-115 | After any reports a face is in backoff if and only if it failed since it last succeeded, no longer ago than the base time doubled for each of those failures, six times at most, and capped |
| `Strategies.FailuresAreStreaks` | crates/icn/src/strategy.rs:87-102 | What is recorded of a face is the length of its present streak of failures and the time of the last |
| `Strategies.BestRoute.DecideRoute` | crates/icn/src/strategy.rs:156-186 | The loop computes the decision that `Strategies.DecidesExactly` describes |
| `Strategies.BestRoute.RecordFailure` | crates/icn/src/strategy.rs:87-95 | Counts consecutive failures and their last time |
| `ContentStores.ScanIsLongestPrefix` | crates/icn/src/cs.rs:55-80 | The scan finds the longest cached name that is a prefix of the request |
| `ContentStores.PutKeeps` | crates/icn/src/cs.rs:85-91 | Names stay distinct, the capacity is kept, the new entry is found, nothing else appears |
| `ContentStores.EveryRunIsLru` | crates/icn/src/cs.rs:39-91 | In every run of look-ups and insertions entries stand in order of last use, each with the data stored last, and a stored name that is gone was used before every name still there, in a full store |
| `ContentStores.StoreExactly` | crates/icn/src/cs.rs:39-91 | Looking up and storing position by position: what moves to the front, what stays, and which entry a full store drops |
| `ContentStores.TouchKeeps` | crates/icn/src/cs.rs:39-51 | A look-up keeps names, size and content |
| `ContentStores.ContentStore.Get` | crates/icn/src/cs.rs:39-51 | The entry of that name, made most recent, and the counters |
| `ContentStores.ContentStore.GetPrefix` | crates/icn/src/cs.rs:55-80 | The longest cached prefix of the name, recency unchanged |
| `ContentStores.ContentStore.Insert` | crates/icn/src/cs.rs:85-91 | The new store, evicting the least recent, and what was there before |
| `Hdlc.HdlcResynchronises` | crates/interface/src/hdlc.rs:81-120 | From any state the last frame after two encoded frames is the second payload; after one, if and only if the decoder was not inside an escape |
| `Hdlc.HdlcStream` | crates/interface/src/hdlc.rs:81-120 | A stream of encoded payloads comes back in order with an empty frame between neighbours |
| `Hdlc.DecodeFrame` | crates/interface/src/hdlc.rs:81-120 | What one encoded frame does to each kind of state |
| `Hdlc.EncodeExactly` | crates/interface/src/hdlc.rs:20-45 | The octets of a frame: 0x7E at both ends and nowhere between, the two special octets as 0x7D 0x5E and 0x7D 0x5D, every other as itself |
| `Hdlc.EncodeFrame` | crates/interface/src/hdlc.rs:20-45 | The escape loop computes the octet-wise escaping between flags |
| `Hdlc.HdlcDecoder.FeedByte` | crates/interface/src/hdlc.rs:81-120 | One step of the decoder on any octet in any state, field by field |
| `SerialHdlc.DecodersCompared` | crates/interface/src/serial.rs:157-191 | On every stream the two decoders, both new, agree once empty frames are dropped |
| `SerialHdlc.SerialStream` | crates/interface/src/serial.rs:157-191 | From between frames exactly the non-empty payloads come back |
| `SerialHdlc.SerialOutOfPhase` | crates/interface/src/serial.rs:157-191 | From inside a frame only the pending octets come back, never a payload |
| `SerialHdlc.SerialRecoversExactly` | crates/interface/src/serial.rs:157-191 | From any state, one frame brings the decoder into step with every later stream if and only if it did not start in `InFrame` |
| `SerialHdlc.BufferRoundTrip` | crates/interface/src/serial.rs:63-112 | Decoding a whole encoded buffer returns the payload |
| `SerialHdlc.DecodedExactly` | crates/interface/src/serial.rs:83-112 | What any buffer decodes to, with either delimiter missing or not |
| `SerialHdlc.UnescapeExactly` | crates/interface/src/serial.rs:95-110 | Undoing escapes octet by octet; an escape octet with nothing after it is kept |
| `SerialHdlc.HdlcDecode` | crates/interface/src/serial.rs:83-112 | The flag checks and the unescape loop |
| `SerialHdlc.SerialDecoder.FeedByte` | crates/interface/src/serial.rs:157-191 | One step of the decoder on any octet in any state, field by field |
| `Kiss.KissStream` | crates/interface/src/kiss.rs:136-188 | Encoded frames come back exactly if and only if no command is the delimiter or the escape octet |
| `Kiss.OutOfPhase` | crates/interface/src/kiss.rs:136-188 | In a frame and not after an escape, a stream yields the pending frame and then only empty data frames |
| `Kiss.KissRecoversExactly` | crates/interface/src/kiss.rs:136-188 | From any state, one frame brings the decoder into step with every later stream if and only if it did not start in a frame outside an escape |
| `Kiss.CommandsArePlain` | crates/interface/src/kiss.rs:136-188 | No octet stream makes the decoder report the delimiter or escape octet as a command |
| `Kiss.EncodeExactly` | crates/interface/src/kiss.rs:52-89 | The octets of a frame: 0xC0, the command, the payload with its two special octets as 0xDB 0xDD and 0xDB 0xDC, 0xC0 |
| `Kiss.EncodeFrame` | crates/interface/src/kiss.rs:52-89 | The escape loop computes the octet-wise escaping |
| `Kiss.KissDecoder.FeedByte` | crates/interface/src/kiss.rs:136-188 | One step of the decoder on any octet in any state, field by field |
| `FragmentRuns.ReturnedExactlyOnce` | crates/transport/src/packet_transport.rs:153-197 | Whatever the interleaving, order and repetitions, a message is returned by the delivery of its last missing fragment, equals the original, is not returned before, and is not returned again until every fragment has arrived a second time |
| `FragmentRuns.ReassemblyRefines` | crates/transport/src/packet_transport.rs:153-197 | In every run each delivery answers what a plain record of received indices says, and none fails |
| `FragmentRuns.SentFragments` | crates/transport/src/packet_transport.rs:83-117 | What is sent are the fragments those runs are about |
| `Fragments.SingleIsSent` | crates/transport/src/packet_transport.rs:83-95 | A message of at most mtu - 35 octets goes out as one packet with exactly that data, which survives the wire and is no fragment |
| `Fragments.FragmentsAreSent` | crates/transport/src/packet_transport.rs:97-115 | A longer one is cut every mtu - 35 octets; each packet carries identifier, index, number of packets and its part of the message |
| `Fragments.AddedOutcomes` | crates/transport/src/packet_transport.rs:163-197 | A fragment that disagrees on the total is refused and changes nothing; otherwise it is stored, and nothing is returned until as many indices are stored as there are fragments |
| `Fragments.AddedCompletes` | crates/transport/src/packet_transport.rs:180-194 | Then the message is all of them in order, if every index is there; otherwise the first one missing is reported |
| `Fragments.AddedGap` | crates/transport/src/packet_transport.rs:180-194 | In that case exactly the fragments before the gap are lost |
| `FragmentRuns.FragmentParses` | crates/transport/src/packet_transport.rs:153-161 | A fragment header survives the wire |
| `Fragments.PacketsFit` | crates/transport/src/packet_transport.rs:83-117 | Every packet emitted serialises to at most mtu octets |
| `Fragments.ConcatChunks` | crates/transport/src/packet_transport.rs:97-115 | The chunks make up the message |
| `Fragments.PacketTransport.SendPacket` | crates/transport/src/packet_transport.rs:83-117 | The packets that `Fragments.SingleIsSent` and `Fragments.FragmentsAreSent` describe, returned and queued in order |
| `Fragments.PacketTransport.RecvPacket` | crates/transport/src/packet_transport.rs:124-133 | Fragments go to reassembly, everything else is returned and queued |
| `Fragments.PacketTransport.AddFragment` | crates/transport/src/packet_transport.rs:163-197 | New buffers and result, error cases included |
| `Fragments.TakeInOrder` | crates/transport/src/packet_transport.rs:181-194 | The assembly loop concatenates in order and stops at the first gap |
| `Resources.TransferExactly` | crates/transport/src/resource.rs:411-420 | After any segments at all there is data if and only if every index has landed, and it is that of the first intact segment of each index; which of the states the transfer is in |
| `Resources.OriginalArrives` | crates/transport/src/resource.rs:223-233 | When those first segments are the sender's, the data is the original |
| `Resources.AddedExactly` | crates/transport/src/resource.rs:181-217 | A segment is taken if and only if it belongs to the transfer, is in range and new, and its checksum is the digest of its data; true means all are there; a refused one changes nothing |
| `Resources.RefusedExactly` | crates/transport/src/resource.rs:181-217 | The error is that of the first of the four checks that fails |
| `Resources.FirstsExactly` | crates/transport/src/resource.rs:181-217 | The segment that counts for an index is the first intact one of the transfer |
| `Resources.SegmentsExactly` | crates/transport/src/resource.rs:318-338 | Segments cut the data every given number of octets; each has the digest of the whole, its index, the total, its part and the digest of that |
| `Resources.SentIsAuthentic` | crates/transport/src/resource.rs:318-338 | Every prepared segment is acceptable and carries its chunk |
| `Resources.Segmented` | crates/transport/src/resource.rs:318-338 | The loop prepares the segments of the chunks |
| `Resources.SegmentTracker.AddSegment` | crates/transport/src/resource.rs:181-217 | New state and answer, every refusal included |
| `Resources.SegmentTracker.Assemble` | crates/transport/src/resource.rs:223-233 | The data of all segments in order once complete |
| `Resources.SegmentTracker.MissingIndices` | crates/transport/src/resource.rs:261-265 | Exactly the indices not received, increasing |
| `Resources.Resource.ReceiveSegment` | crates/transport/src/resource.rs:411-420 | New state, data and answer |
| `Suspendable.RunConservesExactly` | crates/transport/src/suspendable.rs:293-547 | After any run at all, what was accepted since the last close is what was emitted plus what is held, if and only if no operation since then lost messages |
| `Suspendable.PhaseExactly` | crates/transport/src/suspendable.rs:293-478 | After any run a link is in a phase if and only if some operation took it there and none has taken it out since, for each of the four phases |
| `Suspendable.HeldExactly` | crates/transport/src/suspendable.rs:365-547 | After any run the messages held are exactly those sent while suspended or in a handshake that were not replayed, closed away or lost to a snapshot, in the order they were sent; a snapshot has those held before the suspension |
| `Suspendable.ResumeLosesExactly` | crates/transport/src/suspendable.rs:413-452 | In every run resuming loses messages if and only if there is a storage path and something was sent since the suspension |
| `Suspendable.Conservation` | crates/transport/src/suspendable.rs:293-547 | In particular runs whose messages fit conserve, without a storage path or without sending while suspended |
| `Suspendable.ConservesExactly` | crates/transport/src/suspendable.rs:413-547 | An operation keeps the balance if and only if it is neither a replay of a message that does not fit nor a resume from another snapshot |
| `Suspendable.KeyIsFixed` | crates/transport/src/suspendable.rs:329-452 | In every run an active or suspended link has the one derived key |
| `Suspendable.StorageForgets` | crates/transport/src/suspendable.rs:413-452 | With a storage path a message sent while suspended is accepted and gone after resuming |
| `Suspendable.SuspendableLink.EstablishLink` | crates/transport/src/suspendable.rs:293-323 | New state and error condition |
| `Suspendable.SuspendableLink.CompleteHandshake` | crates/transport/src/suspendable.rs:329-359 | New state and error condition |
| `Suspendable.SuspendableLink.SuspendLink` | crates/transport/src/suspendable.rs:365-405 | New state, snapshot and error condition |
| `Suspendable.SuspendableLink.ResumeLink` | crates/transport/src/suspendable.rs:413-452 | New state, held messages from the snapshot, error condition |
| `Suspendable.SuspendableLink.HandleDisconnect` | crates/transport/src/suspendable.rs:458-463 | New state; an error exactly from a handshake |
| `Suspendable.SuspendableLink.CloseLink` | crates/transport/src/suspendable.rs:466-478 | Everything is forgotten |
| `Suspendable.SuspendableLink.SendMessage` | crates/transport/src/suspendable.rs:487-526 | Emitted when active and 80 octets plus the padded size fit the MTU, held at the end when suspended or in a handshake, refused otherwise, each with its result |
| `Suspendable.SuspendableLink.ReplayHeld` | crates/transport/src/suspendable.rs:532-547 | All held messages in the order they were held, or an error and none |
| `Packets.PacketRoundTrip` | crates/packet/src/packet.rs:294-381 | A packet survives the wire if and only if its fields fit and it has a transport identifier exactly for the two-address header |
| `Packets.PacketCanonical` | crates/packet/src/packet.rs:294-381 | Octets that parse are the serialisation of what they parse to |
| `Packets.PacketLayout` | crates/packet/src/packet.rs:294-381 | Where each field stands on the wire, and the place values of the flags |
| `Packets.ParsesExactly` | crates/packet/src/packet.rs:330-381 | Which octet strings parse, and which error the others give |
| `Packets.FlagsWeigh` | crates/packet/src/packet.rs:135-148 | The fields of a flags octet by their place values |
| `Packets.FlagsRoundTrip` | crates/packet/src/packet.rs:119-148 | Unpacking returns the masked fields |
| `Packets.FlagsCanonical` | crates/packet/src/packet.rs:119-148 | Every octet is the packing of its fields |
| `IcnCodec.InterestRoundTrip` | crates/icn/src/interest.rs:74-160 | An Interest survives the wire if and only if name, lifetime (whole milliseconds, below 2^32) and selector are well formed |
| `IcnCodec.InterestParsesExactly` | crates/icn/src/interest.rs:108-160 | Which octets parse to which Interest, position by position, and when the name is to blame |
| `IcnCodec.InterestLayout` | crates/icn/src/interest.rs:74-105 | What is written: the shortest length prefix, no spare bits, nothing after the selector |
| `IcnCodec.DataRoundTrip` | crates/icn/src/interest.rs:337-415 | Data survives the wire if and only if name, content length and metadata are well formed |
| `IcnCodec.DataParsesExactly` | crates/icn/src/interest.rs:365-415 | Which octets parse to which Data packet, position by position, and when the name is to blame |
| `IcnCodec.DataLayout` | crates/icn/src/interest.rs:337-362 | What is written: the shortest length prefixes, and nothing after the signature |
| `IcnCodec.SelectorRoundTrip` | crates/icn/src/interest.rs:175-243 | A selector survives if and only if its number has 64 bits and it excludes at most 255 hashes |
| `IcnCodec.SelectorParsesExactly` | crates/icn/src/interest.rs:199-243 | Which octets parse to which selector, position by position |
| `IcnCodec.SelectorLayout` | crates/icn/src/interest.rs:175-196 | What is written: no spare bits and no room for what is absent |
| `IcnCodec.MetadataRoundTrip` | crates/icn/src/interest.rs:437-511 | Metadata survives if and only if its numbers have 64 bits and its age is in whole seconds |
| `IcnCodec.MetadataParsesExactly` | crates/icn/src/interest.rs:465-511 | Which octets parse to which metadata, position by position |
| `IcnCodec.MetadataLayout` | crates/icn/src/interest.rs:437-462 | What is written: no spare bits and no room for what is absent |
| `IcnCodec.DecodeHashes` | crates/icn/src/interest.rs:199-243 | The hash loop reads the hashes one after another |
| `IcnNames.NameRoundTrip` | crates/icn/src/name.rs:114-186 | A name survives if and only if it has 1 to 32 components of at most 255 octets |
| `IcnNames.NameParsesExactly` | crates/icn/src/name.rs:129-186 | Octets parse to a name if and only if they begin with its encoding and do not go on with 0xFF when it has no content hash; which error exactly when |
| `IcnNames.NameLayout` | crates/icn/src/name.rs:114-126 | Where the count, each length, each component and the content hash stand |
| `IcnNames.StartsWithExactly` | crates/icn/src/name.rs:96-106 | A prefix is no longer and agrees component by component |
| `IcnNames.VarintRoundTrip` | crates/icn/src/interest.rs:516-538 | Every 64-bit value comes back, with its length, whatever follows it |
| `IcnNames.VarintParsesExactly` | crates/icn/src/interest.rs:524-538 | At most ten octets of which only the last has its high bit clear read as the value of their groups of seven bits, cut to 64 bits; nothing else reads |
| `IcnNames.VarintLayout` | crates/icn/src/interest.rs:516-522 | A value is written in groups of seven bits, least significant first, as few as it takes |
| `IcnNames.WriteVarint` | crates/icn/src/interest.rs:516-522 | The loop writes the groups of seven bits |
| `IcnNames.ReadVarint` | crates/icn/src/interest.rs:524-538 | The loop reads them, with shift and overflow as in the code |
| `IcnNames.EncodeName` | crates/icn/src/name.rs:114-126 | The push loop writes the components |
| `IcnNames.DecodeName` | crates/icn/src/name.rs:129-186 | The position loop reads them, error cases included |
| `Hkdf.DerivedIsRfc5869` | crates/crypto/src/hkdf.rs:15-53 | Octet by octet the output is section 2.3 of RFC 5869; it has the length asked for if and only if that is at most 8160 |
| `Hkdf.DerivedChains` | crates/crypto/src/hkdf.rs:15-53 | The output as a chain of HMACs: each block over the block before it, the context and its number, under the HMAC of the keying material with the salt |
| `Hkdf.ShorterIsPrefix` | crates/crypto/src/hkdf.rs:15-53 | A shorter output is a prefix of a longer one |
| `Hkdf.HkdfSha256` | crates/crypto/src/hkdf.rs:15-53 | The expand loop computes the truncated block stream |

## Left out

- Cryptographic primitives, `lru`, `bincode` and `serde_json`: foreign libraries; the content store is a list in order
  of recency.
- Sockets, serial ports, tasks, logging, configuration and the daemon's API: plumbing.
- Keepalive and RTT timing, and the removal of dead links other than as an event that may happen at any time.
- The lifecycle of `Link` outside the daemon (`establish`, `complete_handshake`, `close`, the proof branch for links of
  its kind), and how the daemon resolves the sender address of a proof: `HandleLrproof` takes the resolved address.
- The parsing of announce payloads; learning a peer's key is an event that may happen at any time.
- Path-request flooding: it has no measure that decreases, since repeated requests are forwarded again.
- Link quality is a `real`; NaN is not modelled.
- Handshake.Daemon.HandleLrproof: the two map searches that several entries could satisfy return any such entry.
- HandshakeLinks.HandshakeAgreement: RATCHET packets are no events of these runs, so the key is the one of
  establishment. A new link identifier is supposed to differ from those pending at the same daemon.
- Ratchet.EpochsStayInStep: covers one session, that is, one pair of ratchet keys; a second link request starts
  another.
- PathReplies.MeshRouter.HandlePathReply: the hop count wraps at 256; a debug build would stop there instead.
- Channels.Channel.SendTyped: an MTU below 6, the size of the envelope header, wraps in 64-bit arithmetic; a debug build
  would stop there instead.
- Forwarders.Forwarder.ReceiveData: names whose first component is not 32 octets stop the original; they are excluded
  by `HasProducer`.
- Forwarders.Forwarder.Express: calls run to their end, as the exclusive borrow demands; dropping a call half-way, the
  multicast strategy and direct writes to the store are not modelled.
- Fragments.PacketTransport.SendPacket: an MTU of 35 or less divides by zero in the original unless the message is
  empty, so it is excluded.
- FragmentRuns.ReturnedExactlyOnce: messages of more than 65535 fragments, whose count does not fit its field, are
  excluded.
- Resources.OriginalArrives: fewer than 2^32 segments, whose number fits its field.
- Resources.Segmented: a segment size of zero divides by zero in the original, so it is excluded.
- Suspendable.SuspendableLink.SuspendLink: file errors are not modelled; nor are `deliver` and `recv` of that link.
- Length fields that overflow the machine word while parsing are not modelled; lengths are unbounded.
- The buffer crate, the display form of names, manifests, resource advertisements and progress fractions.
