/** Links that survive disconnection (crates/transport/src/suspendable.rs). File errors are not modelled; whether a
    proof verifies is an input. */
module Suspendable {
  import opened Bytes
  import opened Links

  datatype Phase = Idle | Handshake | Active | Suspended

  /** What `suspend` writes to the storage path. */
  datatype Snapshot = Snapshot(held: seq<bytes>, key: Option<bytes>)

  /** `disk` is the content of the storage path, if one is configured. */
  datatype Session = Session(phase: Phase, key: Option<bytes>, held: seq<bytes>, disk: Option<Snapshot>)

  /** What never changes: the cipher, the peer, the MTU, the key the two identities derive, and whether a storage path
      is configured. */
  datatype Setup = Setup(cipher: Cipher, remoteKey: bytes, remote: bytes, mtu: nat, derived: bytes, storage: bool)

  datatype Error = AlreadyEstablished | NotEstablished | SignatureVerification | MustResume | AlreadySuspended
                 | NotSuspended | TooLarge(size: nat)

  /** The encrypted message fits the MTU. */
  predicate Fits(u: Setup, m: bytes) { 80 + Padded(|m|) <= u.mtu }

  datatype Op = Establish | Complete(proofHolds: bool) | Suspend | Resume | Disconnect | Send(m: bytes) | Replay | Close

  function Snapshotted(u: Setup, s: Session): Session {
    s.(phase := Suspended, disk := if u.storage then Some(Snapshot(s.held, s.key)) else s.disk)
  }

  function Resumed(u: Setup, s: Session): Session {
    var t := if u.storage && s.disk.Some?
             then s.(held := s.disk.value.held,
                     key := if s.key.None? && s.disk.value.key.Some? && s.disk.value.key.value != []
                            then Some(u.derived) else s.key)
             else s;
    t.(phase := Handshake)
  }

  /** The session after an operation, whether or not it reports an error. */
  function After(u: Setup, s: Session, op: Op): Session {
    match op
    case Establish => if s.phase == Active then s else s.(phase := Handshake)
    case Complete(ok) => if s.phase == Handshake && ok then s.(key := Some(u.derived), phase := Active) else s
    case Suspend => if s.phase == Active then Snapshotted(u, s) else s
    case Resume => if s.phase == Suspended then Resumed(u, s) else s
    case Disconnect => if s.phase == Active then Snapshotted(u, s) else s
    case Send(m) => if s.phase == Suspended || s.phase == Handshake then s.(held := s.held + [m]) else s
    case Replay => if s.phase == Active then s.(held := []) else s
    case Close => Session(Idle, None, [], if u.storage then None else s.disk)
  }

  /** The messages an operation accepts for sending. */
  function Accepts(u: Setup, s: Session, op: Op): seq<bytes> {
    if op.Send? && (s.phase == Suspended || s.phase == Handshake || (s.phase == Active && Fits(u, op.m)))
    then [op.m] else []
  }

  predicate AllFit(u: Setup, ms: seq<bytes>) { forall m :: m in ms ==> Fits(u, m) }

  /** The messages an operation hands back encrypted. A replay that fails part-way hands back nothing. */
  function Emits(u: Setup, s: Session, op: Op): seq<bytes> {
    if s.phase != Active then []
    else if op.Send? && Fits(u, op.m) then [op.m]
    else if op.Replay? && AllFit(u, s.held) then s.held
    else []
  }

  // ---------- The link, in place ----------

  class SuspendableLink {
    const setup: Setup
    var phase: Phase
    var key: Option<bytes>
    var held: seq<bytes>
    var disk: Option<Snapshot>

    ghost function View(): Session
      reads this
    {
      Session(phase, key, held, disk)
    }

    constructor (setup: Setup)
      ensures this.setup == setup && View() == Session(Idle, None, [], None)
    {
      this.setup := setup;
      phase, key, held, disk := Idle, None, [], None;
    }

    method EstablishLink() returns (r: Result<(), Error>)
      modifies this`phase
      ensures View() == After(setup, old(View()), Establish)
      ensures r == if old(phase) == Active then Err(AlreadyEstablished) else Ok(())
    {
      if phase == Active {
        return Err(AlreadyEstablished);
      }
      phase := Handshake;
      return Ok(());
    }

    method CompleteHandshake(proofHolds: bool) returns (r: Result<(), Error>)
      modifies this`phase, this`key
      ensures View() == After(setup, old(View()), Complete(proofHolds))
      ensures r == match old(phase)
        case Handshake => if proofHolds then Ok(()) else Err(SignatureVerification)
        case Idle => Err(NotEstablished)
        case Active => Err(AlreadyEstablished)
        case Suspended => Err(MustResume)
    {
      match phase {
        case Handshake =>
          if !proofHolds {
            return Err(SignatureVerification);
          }
          key := Some(setup.derived);
          phase := Active;
          return Ok(());
        case Idle => return Err(NotEstablished);
        case Active => return Err(AlreadyEstablished);
        case Suspended => return Err(MustResume);
      }
    }

    method SuspendLink() returns (r: Result<(), Error>)
      modifies this`phase, this`disk
      ensures View() == After(setup, old(View()), Suspend)
      ensures r == match old(phase)
        case Active => Ok(())
        case Suspended => Err(AlreadySuspended)
        case _ => Err(NotEstablished)
      ensures held == old(held) && (r.Ok? && setup.storage ==> disk == Some(Snapshot(held, key)))
    {
      match phase {
        case Active =>
          if setup.storage {
            disk := Some(Snapshot(held, key));
          }
          phase := Suspended;
          return Ok(());
        case Suspended => return Err(AlreadySuspended);
        case _ => return Err(NotEstablished);
      }
    }

    method ResumeLink() returns (r: Result<(), Error>)
      modifies this`phase, this`held, this`key
      ensures View() == After(setup, old(View()), Resume)
      ensures r == if old(phase) == Suspended then Ok(()) else Err(NotSuspended)
    {
      if phase != Suspended {
        return Err(NotSuspended);
      }
      if setup.storage && disk.Some? {
        held := disk.value.held;
        if key.None? && disk.value.key.Some? && disk.value.key.value != [] {
          key := Some(setup.derived);
        }
      }
      phase := Handshake;
      return Ok(());
    }

    /** From a handshake this reports an error, because `suspend` accepts an active link only. */
    method HandleDisconnect() returns (r: Result<(), Error>)
      modifies this`phase, this`disk
      ensures View() == After(setup, old(View()), Disconnect)
      ensures r.Err? <==> old(phase) == Handshake
    {
      if phase == Active || phase == Handshake {
        r := SuspendLink();
      } else {
        r := Ok(());
      }
    }

    method CloseLink()
      modifies this
      ensures View() == After(setup, old(View()), Close)
    {
      phase, held, key := Idle, [], None;
      if setup.storage {
        disk := None;
      }
    }

    /** An encrypted packet when active, nothing yet when the message is held. */
    method SendMessage(m: bytes, random: bytes) returns (r: Result<Option<bytes>, Error>)
      requires setup.cipher.Laws()
      modifies this`held
      ensures View() == After(setup, old(View()), Send(m))
      ensures r.Ok? <==> Accepts(setup, old(View()), Send(m)) == [m]
      ensures r.Ok? && r.value.Some? <==> Emits(setup, old(View()), Send(m)) == [m]
      ensures var size := 80 + 16 * (|m| / 16 + 1);
        r == match old(phase)
          case Active =>
            if size <= setup.mtu then Ok(Some(setup.cipher.sealFor(setup.remoteKey, setup.remote, random, m)))
            else Err(TooLarge(size))
          case Idle => Err(NotEstablished)
          case _ => Ok(None)
      ensures held == old(held) + (if r == Ok(None) then [m] else [])
    {
      match phase {
        case Active =>
          var payload := setup.cipher.sealFor(setup.remoteKey, setup.remote, random, m);
          if |payload| > setup.mtu {
            return Err(TooLarge(|payload|));
          }
          return Ok(Some(payload));
        case Suspended => held := held + [m]; return Ok(None);
        case Handshake => held := held + [m]; return Ok(None);
        case Idle => return Err(NotEstablished);
      }
    }

    /** All held messages, encrypted, in the order they were held; a message that does not fit loses them all. */
    method ReplayHeld(random: nat -> bytes) returns (r: Result<seq<bytes>, Error>)
      requires setup.cipher.Laws()
      modifies this`held
      ensures View() == After(setup, old(View()), Replay)
      ensures r.Ok? <==> old(phase) == Active && AllFit(setup, old(held))
      ensures r.Ok? ==> |r.value| == |old(held)| && forall i :: 0 <= i < |old(held)| ==>
        r.value[i] == setup.cipher.sealFor(setup.remoteKey, setup.remote, random(i), old(held)[i])
    {
      if phase != Active {
        return Err(NotEstablished);
      }
      var taken := held;
      held := [];
      var packets: seq<bytes> := [];
      for i := 0 to |taken|
        invariant phase == Active && held == []
        invariant forall k :: 0 <= k < i ==> Fits(setup, taken[k])
        invariant |packets| == i && forall k :: 0 <= k < i ==>
          packets[k] == setup.cipher.sealFor(setup.remoteKey, setup.remote, random(k), taken[k])
      {
        var sent := SendMessage(taken[i], random(i));
        match sent {
          case Err(e) => return Err(e);
          case Ok(p) =>
            if p.Some? {
              packets := packets + [p.value];
            }
        }
      }
      return Ok(packets);
    }
  }

  // ---------- Conservation ----------

  /** A session with everything accepted and everything emitted since it was opened or closed. */
  datatype Account = Account(session: Session, accepted: seq<bytes>, emitted: seq<bytes>)

  function Step(u: Setup, a: Account, op: Op): Account {
    if op.Close? then Account(After(u, a.session, op), [], [])
    else Account(After(u, a.session, op), a.accepted + Accepts(u, a.session, op), a.emitted + Emits(u, a.session, op))
  }

  const OPENED := Account(Session(Idle, None, [], None), [], [])

  function Run(u: Setup, ops: seq<Op>): Account {
    if ops == [] then OPENED else Step(u, Run(u, ops[..|ops| - 1]), ops[|ops| - 1])
  }

  /** Nothing accepted is lost or invented. */
  ghost predicate Conserved(a: Account) { multiset(a.accepted) == multiset(a.emitted) + multiset(a.session.held) }

  /** The two ways to lose messages: replaying one that does not fit, and resuming from a snapshot that is not what is
      held. */
  ghost predicate Loses(u: Setup, s: Session, op: Op) {
    || (op.Replay? && s.phase == Active && !AllFit(u, s.held))
    || (op.Resume? && s.phase == Suspended && u.storage && s.disk.Some?
        && multiset(s.disk.value.held) != multiset(s.held))
  }

  /** An operation keeps the account balanced exactly when it is not one of those two. */
  lemma ConservesExactly(u: Setup, a: Account, op: Op)
    requires Conserved(a)
    ensures Conserved(Step(u, a, op)) <==> !Loses(u, a.session, op)
  {
    match op {
      case Replay => ReplayConserves(u, a);
      case Resume => ResumeConserves(u, a);
      case Send(m) => SendConserves(u, a, m);
      case Close =>
      case _ => assert Step(u, a, op).accepted == a.accepted && Step(u, a, op).emitted == a.emitted;
    }
  }

  lemma ReplayConserves(u: Setup, a: Account)
    requires Conserved(a)
    ensures Conserved(Step(u, a, Replay)) <==> !Loses(u, a.session, Replay)
  {
    var b, held := Step(u, a, Replay), a.session.held;
    assert b.accepted == a.accepted;
    if a.session.phase == Active && !AllFit(u, held) {
      assert b.emitted == a.emitted && held != [];
      assert |multiset(a.accepted)| == |multiset(a.emitted)| + |multiset(held)|;
      assert |multiset(b.accepted)| != |multiset(b.emitted) + multiset(b.session.held)|;
    } else if a.session.phase == Active {
      assert b.emitted == a.emitted + held;
    } else {
      assert b.emitted == a.emitted;
    }
  }

  lemma ResumeConserves(u: Setup, a: Account)
    requires Conserved(a)
    ensures Conserved(Step(u, a, Resume)) <==> !Loses(u, a.session, Resume)
  {
    var b := Step(u, a, Resume);
    assert b.accepted == a.accepted && b.emitted == a.emitted;
    Cancel(multiset(a.emitted), multiset(a.session.held), multiset(b.session.held));
  }

  lemma Cancel(e: multiset<bytes>, h: multiset<bytes>, h': multiset<bytes>)
    ensures e + h == e + h' <==> h == h'
  {
    if e + h == e + h' {
      assert h == (e + h) - e == (e + h') - e == h';
    }
  }

  lemma Balance(accepted: seq<bytes>, emitted: seq<bytes>, held: seq<bytes>, m: bytes)
    requires multiset(accepted) == multiset(emitted) + multiset(held)
    ensures multiset(accepted + [m]) == multiset(emitted + [m]) + multiset(held) ==
      multiset(emitted) + multiset(held + [m])
  {
  }

  lemma SendConserves(u: Setup, a: Account, m: bytes)
    requires Conserved(a)
    ensures Conserved(Step(u, a, Send(m)))
  {
    var s, b := a.session, Step(u, a, Send(m));
    Balance(a.accepted, a.emitted, s.held, m);
    if s.phase == Active && Fits(u, m) {
      assert b == Account(s, a.accepted + [m], a.emitted + [m]);
    } else if s.phase == Suspended || s.phase == Handshake {
      assert b == Account(s.(held := s.held + [m]), a.accepted + [m], a.emitted + []);
      assert a.emitted + [] == a.emitted;
    } else {
      assert b == Account(s, a.accepted + [], a.emitted + []);
      assert a.accepted + [] == a.accepted && a.emitted + [] == a.emitted;
    }
  }

  /** An active or suspended link has the derived key, and no link has another. */
  ghost predicate Keyed(u: Setup, a: Account) {
    && (a.session.phase == Active || a.session.phase == Suspended ==> a.session.key == Some(u.derived))
    && (a.session.key.Some? ==> a.session.key.value == u.derived)
  }

  lemma {:induction false} KeyIsFixed(u: Setup, ops: seq<Op>)
    ensures Keyed(u, Run(u, ops))
  {
    if ops != [] {
      KeyIsFixed(u, ops[..|ops| - 1]);
    }
  }

  // ---------- The state machine, over whole runs ----------

  /** The phase before operation `k`, or after all of them. */
  function PhaseAt(u: Setup, ops: seq<Op>, k: nat): Phase
    requires k <= |ops|
  {
    Run(u, ops[..k]).session.phase
  }

  /** Operation `i` takes the link into the phase. */
  predicate Enters(u: Setup, ops: seq<Op>, i: nat, phase: Phase)
    requires i < |ops|
  {
    var op, at := ops[i], PhaseAt(u, ops, i);
    match phase
    case Idle => op == Close
    case Handshake => (op == Establish && at != Active) || (op == Resume && at == Suspended)
    case Active => op == Complete(true) && at == Handshake
    case Suspended => (op == Suspend || op == Disconnect) && at == Active
  }

  /** The operation takes a link out of the phase. */
  predicate Leaves(op: Op, phase: Phase) {
    match phase
    case Idle => op == Establish
    case Handshake => op == Complete(true) || op == Close
    case Active => op == Suspend || op == Disconnect || op == Close
    case Suspended => op == Resume || op == Establish || op == Close
  }

  ghost predicate StayedSince(u: Setup, ops: seq<Op>, i: nat, phase: Phase) {
    i < |ops| && Enters(u, ops, i, phase) && forall j :: i < j < |ops| ==> !Leaves(ops[j], phase)
  }

  lemma PhaseStep(u: Setup, s: Session, op: Op, phase: Phase)
    ensures After(u, s, op).phase == phase <==>
      (s.phase == phase && !Leaves(op, phase))
      || (match phase
          case Idle => op == Close
          case Handshake => (op == Establish && s.phase != Active) || (op == Resume && s.phase == Suspended)
          case Active => op == Complete(true) && s.phase == Handshake
          case Suspended => (op == Suspend || op == Disconnect) && s.phase == Active)
  {
  }

  lemma PhaseAtPrefix(u: Setup, ops: seq<Op>, k: nat)
    requires k < |ops|
    ensures PhaseAt(u, ops[..|ops| - 1], k) == PhaseAt(u, ops, k)
  {
    assert ops[..|ops| - 1][..k] == ops[..k];
  }

  lemma StayedStep(u: Setup, ops: seq<Op>, i: nat, phase: Phase)
    requires i < |ops| - 1
    ensures StayedSince(u, ops, i, phase) <==>
      StayedSince(u, ops[..|ops| - 1], i, phase) && !Leaves(ops[|ops| - 1], phase)
  {
    var before := ops[..|ops| - 1];
    PhaseAtPrefix(u, ops, i);
    assert before[i] == ops[i];
    assert forall j :: i < j < |before| ==> before[j] == ops[j];
  }

  /** Some operation took the link into the phase and none has taken it out since. */
  ghost predicate StayedIn(u: Setup, ops: seq<Op>, phase: Phase) { exists i: nat :: StayedSince(u, ops, i, phase) }

  lemma StayedInStep(u: Setup, ops: seq<Op>, phase: Phase)
    requires ops != []
    ensures StayedIn(u, ops, phase) <==>
      || Enters(u, ops, |ops| - 1, phase)
      || (StayedIn(u, ops[..|ops| - 1], phase) && !Leaves(ops[|ops| - 1], phase))
  {
    var before, last := ops[..|ops| - 1], |ops| - 1;
    if StayedIn(u, ops, phase) && !Enters(u, ops, last, phase) {
      var i: nat :| StayedSince(u, ops, i, phase);
      StayedStep(u, ops, i, phase);
    }
    if Enters(u, ops, last, phase) {
      assert StayedSince(u, ops, last, phase);
    } else if StayedIn(u, before, phase) && !Leaves(ops[last], phase) {
      var i: nat :| StayedSince(u, before, i, phase);
      StayedStep(u, ops, i, phase);
    }
  }

  /** After any run a link is in a phase if and only if some operation took it there and none has taken it out since; or,
      for the phase it starts in, none ever has. */
  lemma {:induction false} PhaseExactly(u: Setup, ops: seq<Op>, phase: Phase)
    ensures Run(u, ops).session.phase == phase <==>
      StayedIn(u, ops, phase) || (phase == Idle && forall j :: 0 <= j < |ops| ==> ops[j] != Establish)
  {
    if ops != [] {
      var before, last := ops[..|ops| - 1], |ops| - 1;
      PhaseExactly(u, before, phase);
      StayedInStep(u, ops, phase);
      PhaseStep(u, Run(u, before).session, ops[last], phase);
      assert PhaseAt(u, ops, last) == Run(u, before).session.phase;
      assert ops == before + [ops[last]];
    }
  }

  // ---------- What is held, and in which order ----------

  /** The link has been suspended without a break since before operation `i`. */
  ghost predicate StillSuspended(u: Setup, ops: seq<Op>, i: nat)
    requires i <= |ops|
  {
    forall k: nat :: i <= k <= |ops| ==> PhaseAt(u, ops, k) == Suspended
  }

  /** Operation `j` takes away what operation `i` held: a close, a replay, or resuming from the snapshot of the
      suspension during which it was held. */
  ghost predicate Drops(u: Setup, ops: seq<Op>, i: nat, j: nat)
    requires i < j < |ops|
  {
    || ops[j] == Close
    || (ops[j] == Replay && PhaseAt(u, ops, j) == Active)
    || (ops[j] == Resume && u.storage && StillSuspended(u, ops[..j], i))
  }

  /** Operation `i` held its message, and nothing has taken it away. */
  ghost predicate HeldSince(u: Setup, ops: seq<Op>, i: nat) {
    && i < |ops| && ops[i].Send? && (PhaseAt(u, ops, i) == Suspended || PhaseAt(u, ops, i) == Handshake)
    && forall j :: i < j < |ops| ==> !Drops(u, ops, i, j)
  }

  lemma HeldSinceStep(u: Setup, ops: seq<Op>, i: nat)
    requires i < |ops| - 1
    ensures HeldSince(u, ops, i) <==> HeldSince(u, ops[..|ops| - 1], i) && !Drops(u, ops, i, |ops| - 1)
  {
    var before := ops[..|ops| - 1];
    PhaseAtPrefix(u, ops, i);
    forall j | i < j < |before| ensures Drops(u, before, i, j) <==> Drops(u, ops, i, j) {
      PhaseAtPrefix(u, ops, j);
      assert before[..j] == ops[..j];
    }
  }

  lemma StillSuspendedStep(u: Setup, ops: seq<Op>, i: nat)
    requires i < |ops|
    ensures StillSuspended(u, ops, i) <==>
      StillSuspended(u, ops[..|ops| - 1], i) && Run(u, ops).session.phase == Suspended
  {
    var before := ops[..|ops| - 1];
    forall k: nat | k <= |before| ensures PhaseAt(u, before, k) == PhaseAt(u, ops, k) {
      PhaseAtPrefix(u, ops, k);
    }
    assert ops[..|ops|] == ops;
    assert PhaseAt(u, ops, |ops|) == Run(u, ops).session.phase;
  }

  /** The operations `senders`, in order, are exactly those whose message is still held, and these are the messages
      held, in that order. The snapshot of a suspended link has the first `saved` of them: those held before the
      suspension. */
  ghost predicate Holds(u: Setup, ops: seq<Op>, senders: seq<nat>, saved: nat) {
    && (forall a, b :: 0 <= a < b < |senders| ==> senders[a] < senders[b])
    && (forall i: nat :: i in senders <==> HeldSince(u, ops, i))
    && SentBy(Run(u, ops).session.held, ops, senders)
    && (u.storage && Run(u, ops).session.phase == Suspended ==> Saves(u, ops, senders, saved))
  }

  predicate SentBy(held: seq<bytes>, ops: seq<Op>, senders: seq<nat>) {
    |held| == |senders| && forall a :: 0 <= a < |senders| ==> senders[a] < |ops| && ops[senders[a]] == Send(held[a])
  }

  ghost predicate Saves(u: Setup, ops: seq<Op>, senders: seq<nat>, saved: nat) {
    var s := Run(u, ops).session;
    && s.disk.Some? && saved <= |senders| && saved <= |s.held| && s.disk.value.held == s.held[..saved]
    && forall a :: 0 <= a < |senders| && senders[a] < |ops| ==> (saved <= a <==> StillSuspended(u, ops, senders[a]))
  }

  /** After any run the messages held are exactly those that were sent while the link was suspended or in a handshake and
      have neither been replayed nor closed away nor lost to a snapshot, in the order they were sent. */
  lemma {:induction false} HeldExactly(u: Setup, ops: seq<Op>) returns (senders: seq<nat>, saved: nat)
    ensures Holds(u, ops, senders, saved)
  {
    if ops == [] {
      senders, saved := [], 0;
    } else {
      var before, last, s := ops[..|ops| - 1], |ops| - 1, Run(u, ops[..|ops| - 1]).session;
      senders, saved := HeldExactly(u, before);
      assert PhaseAt(u, ops, last) == s.phase;
      if ops[last] == Close || (ops[last] == Replay && s.phase == Active) {
        DropsAll(u, ops);
        senders, saved := [], 0;
      } else if ops[last] == Resume && u.storage && s.phase == Suspended {
        ResumeDrops(u, ops, senders, saved);
        senders := senders[..saved];
      } else if ops[last].Send? && (s.phase == Suspended || s.phase == Handshake) {
        SendHolds(u, ops, senders, saved);
        senders := senders + [last];
      } else {
        OthersKeep(u, ops, senders, saved);
        saved := if s.phase == Suspended then saved else |senders|;
      }
    }
  }

  /** The four cases. */
  lemma DropsAll(u: Setup, ops: seq<Op>)
    requires ops != []
    requires var last := |ops| - 1; ops[last] == Close || (ops[last] == Replay && PhaseAt(u, ops, last) == Active)
    ensures Holds(u, ops, [], 0)
  {
    var last := |ops| - 1;
    forall i: nat ensures !HeldSince(u, ops, i) {
      if i < last {
        assert Drops(u, ops, i, last);
      }
    }
  }

  lemma ResumeDrops(u: Setup, ops: seq<Op>, senders: seq<nat>, saved: nat)
    requires ops != [] && Holds(u, ops[..|ops| - 1], senders, saved)
    requires ops[|ops| - 1] == Resume && u.storage && PhaseAt(u, ops, |ops| - 1) == Suspended
    ensures saved <= |senders| && Holds(u, ops, senders[..saved], saved)
  {
    var before, last := ops[..|ops| - 1], |ops| - 1;
    var kept := senders[..saved];
    forall i: nat ensures i in kept <==> HeldSince(u, ops, i) {
      if i < last {
        HeldSinceStep(u, ops, i);
        if i in senders {
          var a :| 0 <= a < |senders| && senders[a] == i;
          assert saved <= a <==> Drops(u, ops, i, last);
          InPrefix(senders, saved, a);
        } else {
          assert i !in kept;
        }
      } else {
        assert i in kept ==> i in senders;
      }
    }
    assert forall j :: 0 <= j < last ==> before[j] == ops[j];
  }

  lemma InPrefix(senders: seq<nat>, saved: nat, a: nat)
    requires (forall j, k :: 0 <= j < k < |senders| ==> senders[j] < senders[k]) && a < |senders| && saved <= |senders|
    ensures senders[a] in senders[..saved] <==> a < saved
  {
    assert a < saved ==> senders[..saved][a] == senders[a];
    if senders[a] in senders[..saved] {
      var b :| 0 <= b < saved && senders[..saved][b] == senders[a];
    }
  }

  lemma SendHolds(u: Setup, ops: seq<Op>, senders: seq<nat>, saved: nat)
    requires ops != [] && Holds(u, ops[..|ops| - 1], senders, saved) && ops[|ops| - 1].Send?
    requires var at := PhaseAt(u, ops, |ops| - 1); at == Suspended || at == Handshake
    ensures Holds(u, ops, senders + [|ops| - 1], saved)
  {
    var before, last := ops[..|ops| - 1], |ops| - 1;
    var all := senders + [last];
    forall i: nat ensures i in all <==> HeldSince(u, ops, i) {
      if i < last {
        HeldSinceStep(u, ops, i);
      }
    }
    assert forall j :: 0 <= j < last ==> before[j] == ops[j];
    forall a | 0 <= a < |all|
      ensures StillSuspended(u, ops, all[a]) <==>
        (a == |senders| || StillSuspended(u, before, all[a])) && Run(u, ops).session.phase == Suspended
    {
      StillSuspendedStep(u, ops, all[a]);
      if a == |senders| {
        OnlyLast(u, before);
      }
    }
  }

  lemma OnlyLast(u: Setup, ops: seq<Op>)
    ensures StillSuspended(u, ops, |ops|) <==> Run(u, ops).session.phase == Suspended
    ensures forall i: nat :: i <= |ops| && StillSuspended(u, ops, i) ==> Run(u, ops).session.phase == Suspended
  {
    assert ops[..|ops|] == ops;
    assert PhaseAt(u, ops, |ops|) == Run(u, ops).session.phase;
  }

  lemma OthersKeep(u: Setup, ops: seq<Op>, senders: seq<nat>, saved: nat)
    requires ops != [] && Holds(u, ops[..|ops| - 1], senders, saved) && KeepsHeld(u, ops)
    ensures Holds(u, ops, senders, if PhaseAt(u, ops, |ops| - 1) == Suspended then saved else |senders|)
  {
    var before, last := ops[..|ops| - 1], |ops| - 1;
    forall i: nat ensures i in senders <==> HeldSince(u, ops, i) {
      if i < last {
        OtherDropsNothing(u, ops, i);
      }
    }
    assert Run(u, ops).session.held == Run(u, before).session.held;
    assert forall j :: 0 <= j < last ==> before[j] == ops[j];
    if u.storage {
      OthersSave(u, ops, senders, saved);
    }
  }

  lemma OthersSave(u: Setup, ops: seq<Op>, senders: seq<nat>, saved: nat)
    requires ops != [] && KeepsHeld(u, ops) && u.storage
    requires var before := ops[..|ops| - 1];
      && SentBy(Run(u, before).session.held, before, senders)
      && (Run(u, before).session.phase == Suspended ==> Saves(u, before, senders, saved))
    ensures Run(u, ops).session.phase == Suspended ==>
      Saves(u, ops, senders, if PhaseAt(u, ops, |ops| - 1) == Suspended then saved else |senders|)
  {
    var before := ops[..|ops| - 1];
    OnlyLast(u, before);
    forall a | 0 <= a < |senders|
      ensures StillSuspended(u, ops, senders[a]) <==>
        StillSuspended(u, before, senders[a]) && Run(u, ops).session.phase == Suspended
    {
      StillSuspendedStep(u, ops, senders[a]);
    }
  }

  /** The last operation is none of the three that change what is held. */
  predicate KeepsHeld(u: Setup, ops: seq<Op>)
    requires ops != []
  {
    var op, at := ops[|ops| - 1], PhaseAt(u, ops, |ops| - 1);
    && op != Close && !(op == Replay && at == Active) && !(op == Resume && u.storage && at == Suspended)
    && !(op.Send? && (at == Suspended || at == Handshake))
  }

  lemma OtherDropsNothing(u: Setup, ops: seq<Op>, i: nat)
    requires i < |ops| - 1 && KeepsHeld(u, ops)
    ensures HeldSince(u, ops, i) <==> HeldSince(u, ops[..|ops| - 1], i)
  {
    var before, last := ops[..|ops| - 1], |ops| - 1;
    HeldSinceStep(u, ops, i);
    assert before[..last] == before;
    assert PhaseAt(u, before, last) == Run(u, before).session.phase == PhaseAt(u, ops, last);
  }

  // ---------- Which runs conserve ----------

  /** No operation since the last close loses messages. */
  ghost predicate LosesNothing(u: Setup, ops: seq<Op>) {
    ops != [] ==>
      || ops[|ops| - 1].Close?
      || (LosesNothing(u, ops[..|ops| - 1]) && !Loses(u, Run(u, ops[..|ops| - 1]).session, ops[|ops| - 1]))
  }

  /** With a storage path, the snapshot of a suspended link is the beginning of what is held. */
  ghost predicate SnapshotPrefix(u: Setup, s: Session) {
    u.storage && s.phase == Suspended ==> s.disk.Some? && s.disk.value.held <= s.held
  }

  lemma PrefixStep(u: Setup, s: Session, op: Op)
    requires SnapshotPrefix(u, s)
    ensures SnapshotPrefix(u, After(u, s, op))
  {
  }

  /** Fewer messages are emitted or held than were accepted. */
  predicate Short(a: Account) { |a.emitted| + |a.session.held| < |a.accepted| }

  lemma ConservedIsNotShort(a: Account)
    requires Conserved(a)
    ensures !Short(a) && |a.emitted| + |a.session.held| == |a.accepted|
  {
    assert |multiset(a.accepted)| == |multiset(a.emitted) + multiset(a.session.held)|;
  }

  /** What is missing stays missing until the link is closed. */
  lemma ShortStays(u: Setup, a: Account, op: Op)
    requires SnapshotPrefix(u, a.session) && Short(a) && !op.Close?
    ensures Short(Step(u, a, op))
  {
  }

  lemma LossIsShort(u: Setup, a: Account, op: Op)
    requires SnapshotPrefix(u, a.session) && Conserved(a) && Loses(u, a.session, op)
    ensures Short(Step(u, a, op))
  {
    ConservedIsNotShort(a);
    if op.Resume? {
      var disk, held := a.session.disk.value.held, a.session.held;
      assert |disk| == |held| ==> disk == held;
    }
  }

  lemma {:induction false} RunAccounts(u: Setup, ops: seq<Op>)
    ensures SnapshotPrefix(u, Run(u, ops).session)
    ensures if LosesNothing(u, ops) then Conserved(Run(u, ops)) else Short(Run(u, ops))
  {
    if ops != [] {
      var before, op := ops[..|ops| - 1], ops[|ops| - 1];
      var a := Run(u, before);
      RunAccounts(u, before);
      PrefixStep(u, a.session, op);
      if op.Close? {
        assert Conserved(Run(u, ops));
      } else if !LosesNothing(u, before) {
        ShortStays(u, a, op);
      } else if Loses(u, a.session, op) {
        LossIsShort(u, a, op);
      } else {
        ConservesExactly(u, a, op);
      }
    }
  }

  /** Conservation, exactly: after any run whatever, what was accepted since the last close is what was emitted plus
      what is held, if and only if no operation since then lost messages. */
  lemma RunConservesExactly(u: Setup, ops: seq<Op>)
    ensures Conserved(Run(u, ops)) <==> LosesNothing(u, ops)
  {
    RunAccounts(u, ops);
    if Conserved(Run(u, ops)) {
      ConservedIsNotShort(Run(u, ops));
    }
  }

  /** A message was sent since the link was last suspended, and it still is. */
  predicate SentSinceSuspended(u: Setup, ops: seq<Op>) {
    && ops != [] && Run(u, ops).session.phase == Suspended
    && Run(u, ops[..|ops| - 1]).session.phase == Suspended
    && (ops[|ops| - 1].Send? || SentSinceSuspended(u, ops[..|ops| - 1]))
  }

  /** Entering the suspension takes a snapshot; while it lasts only sending changes what is held. */
  lemma SuspendedStep(u: Setup, s: Session, op: Op)
    requires u.storage && After(u, s, op).phase == Suspended
    ensures var t := After(u, s, op);
      if s.phase == Suspended then t.disk == s.disk && t.held == s.held + (if op.Send? then [op.m] else [])
      else t.disk.Some? && t.disk.value.held == t.held
  {
  }

  lemma {:induction false} SnapshotIsBehind(u: Setup, ops: seq<Op>)
    requires u.storage && Run(u, ops).session.phase == Suspended
    ensures var s := Run(u, ops).session;
      s.disk.Some? && s.disk.value.held <= s.held && (s.disk.value.held != s.held <==> SentSinceSuspended(u, ops))
  {
    RunAccounts(u, ops);
    var before, op := ops[..|ops| - 1], ops[|ops| - 1];
    var s := Run(u, before).session;
    assert Run(u, ops).session == After(u, s, op);
    SuspendedStep(u, s, op);
    if s.phase == Suspended {
      SnapshotIsBehind(u, before);
      assert op.Send? ==> |Run(u, ops).session.held| > |s.disk.value.held|;
    }
  }

  /** Resuming loses messages exactly when there is a storage path and something was sent since the suspension. */
  lemma ResumeLosesExactly(u: Setup, ops: seq<Op>)
    ensures Loses(u, Run(u, ops).session, Resume) <==> u.storage && SentSinceSuspended(u, ops)
  {
    var s := Run(u, ops).session;
    if u.storage && s.phase == Suspended {
      SnapshotIsBehind(u, ops);
      var disk := s.disk.value.held;
      if multiset(disk) == multiset(s.held) {
        assert |multiset(disk)| == |multiset(s.held)|;
      }
    }
  }

  // ---------- A condition on what is sent ----------

  /** The run never sends while suspended. */
  predicate QuietWhileSuspended(u: Setup, ops: seq<Op>) {
    ops != [] ==>
      && QuietWhileSuspended(u, ops[..|ops| - 1])
      && !(ops[|ops| - 1].Send? && Run(u, ops[..|ops| - 1]).session.phase == Suspended)
  }

  predicate SendsFit(u: Setup, ops: seq<Op>) { forall i :: 0 <= i < |ops| && ops[i].Send? ==> Fits(u, ops[i].m) }

  ghost predicate SnapshotCurrent(u: Setup, s: Session) {
    u.storage && s.phase == Suspended ==> s.disk.Some? && s.disk.value.held == s.held
  }

  lemma AllFitConcat(u: Setup, xs: seq<bytes>, ys: seq<bytes>)
    requires AllFit(u, xs) && AllFit(u, ys)
    ensures AllFit(u, xs + ys)
  {
  }

  /** In particular, when every message fits, every reachable account is balanced, provided the link has no storage path
      or nothing is sent while it is suspended. */
  lemma Conservation(u: Setup, ops: seq<Op>)
    requires SendsFit(u, ops) && (!u.storage || QuietWhileSuspended(u, ops))
    ensures Conserved(Run(u, ops))
  {
    FittingLosesNothing(u, ops);
    RunConservesExactly(u, ops);
  }

  lemma {:induction false} FittingLosesNothing(u: Setup, ops: seq<Op>)
    requires SendsFit(u, ops) && (!u.storage || QuietWhileSuspended(u, ops))
    ensures LosesNothing(u, ops)
    ensures AllFit(u, Run(u, ops).session.held) && SnapshotCurrent(u, Run(u, ops).session)
  {
    if ops != [] {
      FittingLosesNothing(u, ops[..|ops| - 1]);
      HeldStep(u, Run(u, ops[..|ops| - 1]).session, ops[|ops| - 1]);
    }
  }

  lemma HeldStep(u: Setup, s: Session, op: Op)
    requires AllFit(u, s.held) && SnapshotCurrent(u, s)
    requires op.Send? ==> Fits(u, op.m) && !(u.storage && s.phase == Suspended)
    ensures !Loses(u, s, op) && AllFit(u, After(u, s, op).held) && SnapshotCurrent(u, After(u, s, op))
  {
    if op.Send? {
      AllFitConcat(u, s.held, [op.m]);
    }
  }

  /** With a storage path, a message sent while suspended is accepted and then gone after resuming. */
  lemma StorageForgets(u: Setup, a: Account, m: bytes)
    requires u.storage && a.session.phase == Suspended && SnapshotCurrent(u, a.session)
    ensures var b := Step(u, Step(u, a, Send(m)), Resume);
      && b.accepted == a.accepted + [m] && b.emitted == a.emitted && b.session.held == a.session.held
      && (Conserved(a) ==> !Conserved(b))
  {
    var c := Step(u, a, Send(m));
    var b := Step(u, c, Resume);
    assert b.accepted == a.accepted + [m] && b.emitted == a.emitted && b.session.held == a.session.held;
    if Conserved(a) {
      assert |multiset(b.accepted)| == |multiset(a.accepted)| + 1;
      assert |multiset(b.emitted) + multiset(b.session.held)| == |multiset(a.accepted)|;
    }
  }
}
