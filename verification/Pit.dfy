/** The pending-interest table (crates/icn/src/pit.rs). Times are parameters. */
module Pits {
  import opened Bytes
  import opened IcnNames
  import opened IcnCodec

  datatype PitEntry = PitEntry(interest: Interest, inFaces: seq<nat>, outFace: Option<nat>, expiresAt: nat,
                               satisfied: bool)

  type Pending = map<Name, PitEntry>

  /** Seen (face, nonce) pairs with the time until which they are kept. */
  type Nonces = map<(nat, Nonce), nat>

  const NONCE_TTL := 60 * SECOND

  function Aggregated(m: Pending, name: Name, inFace: nat, interest: Interest, expiresAt: nat): Pending {
    if name in m && !m[name].satisfied
    then
      var faces := m[name].inFaces;
      m[name := m[name].(inFaces := if inFace in faces then faces else faces + [inFace])]
    else m[name := PitEntry(interest, [inFace], None, expiresAt, false)]
  }

  function OutFaceSet(m: Pending, name: Name, face: nat): Pending {
    if name in m then m[name := m[name].(outFace := Some(face))] else m
  }

  function Satisfied(m: Pending, name: Name): Pending {
    if name in m then m[name := m[name].(satisfied := true)] else m
  }

  /** The entry waits for nothing any more. */
  predicate Done(e: PitEntry, now: nat) { e.satisfied || e.expiresAt <= now }

  function Purged(m: Pending, now: nat): Pending { map n | n in m && !Done(m[n], now) :: m[n] }

  function NoncesPurged(s: Nonces, now: nat): Nonces { map k | k in s && s[k] > now :: s[k] }

  /** No entry waits for data. */
  predicate AllSatisfied(m: Pending) { forall n :: n in m ==> m[n].satisfied }

  class Pit {
    var entries: Pending
    var nonces: Nonces

    constructor ()
      ensures entries == map[] && nonces == map[]
    {
      entries, nonces := map[], map[];
    }

    /** Despite its documentation the check compares the same face only. */
    method CheckLoop(inFace: nat, nonce: Nonce) returns (r: bool)
      ensures r <==> (inFace, nonce) in nonces
    {
      r := (inFace, nonce) in nonces;
    }

    method RecordNonce(inFace: nat, nonce: Nonce, now: nat)
      modifies this`nonces
      ensures nonces == old(nonces)[(inFace, nonce) := now + NONCE_TTL]
    {
      nonces := nonces[(inFace, nonce) := now + NONCE_TTL];
    }

    method InsertOrAggregate(name: Name, inFace: nat, interest: Interest, expiresAt: nat) returns (inserted: bool)
      modifies this`entries
      ensures entries == Aggregated(old(entries), name, inFace, interest, expiresAt)
      ensures inserted <==> name !in old(entries) || old(entries)[name].satisfied
    {
      if name in entries && !entries[name].satisfied {
        var entry := entries[name];
        if inFace !in entry.inFaces {
          entry := entry.(inFaces := entry.inFaces + [inFace]);
        }
        entries := entries[name := entry];
        return false;
      }
      entries := entries[name := PitEntry(interest, [inFace], None, expiresAt, false)];
      return true;
    }

    method SetOutFace(name: Name, face: nat)
      modifies this`entries
      ensures entries == OutFaceSet(old(entries), name, face)
    {
      if name in entries {
        entries := entries[name := entries[name].(outFace := Some(face))];
      }
    }

    method Satisfy(name: Name) returns (inFaces: Option<seq<nat>>)
      modifies this`entries
      ensures entries == Satisfied(old(entries), name)
      ensures inFaces == if name in old(entries) then Some(old(entries)[name].inFaces) else None
    {
      if name !in entries {
        return None;
      }
      entries := entries[name := entries[name].(satisfied := true)];
      return Some(entries[name].inFaces);
    }

    /** Satisfied and expired entries are removed and returned, in no particular order; the others stay as they are. */
    method PurgeExpired(now: nat) returns (removed: seq<PitEntry>)
      modifies this
      ensures entries == Purged(old(entries), now) && nonces == NoncesPurged(old(nonces), now)
      ensures forall n :: n in entries ==> !entries[n].satisfied && now < entries[n].expiresAt
      ensures Lists(removed, old(entries), set n | n in old(entries) && Done(old(entries)[n], now))
    {
      var expired := set n | n in entries && Done(entries[n], now);
      removed := RemoveEntries(expired);
      assert entries == Purged(old(entries), now);
      nonces := map k | k in nonces && nonces[k] > now :: nonces[k];
    }

    method RemoveEntries(names: set<Name>) returns (removed: seq<PitEntry>)
      requires names <= entries.Keys
      modifies this`entries
      ensures entries == old(entries) - names && Lists(removed, old(entries), names)
    {
      var left := names;
      ghost var gone: set<Name> := {};
      removed := [];
      while left != {}
        invariant left !! gone && left + gone == names
        invariant entries == old(entries) - gone && Lists(removed, old(entries), gone)
        decreases |left|
      {
        var name :| name in left;
        ListsMore(removed, old(entries), gone, name);
        removed := removed + [entries[name]];
        entries := entries - {name};
        left := left - {name};
        gone := gone + {name};
      }
      assert gone == names;
    }
  }

  /** A purge keeps exactly the entries that are not satisfied and expire later, and the nonces that do; satisfying and
      recording the outgoing face change one field of one entry. */
  lemma PurgedExactly(m: Pending, s: Nonces, name: Name, face: nat, now: nat)
    ensures Purged(m, now).Keys == set n | n in m && !m[n].satisfied && now < m[n].expiresAt
    ensures NoncesPurged(s, now).Keys == set k | k in s && now < s[k]
    ensures forall n :: n in Purged(m, now) ==> Purged(m, now)[n] == m[n]
    ensures Satisfied(m, name).Keys == OutFaceSet(m, name, face).Keys == m.Keys
    ensures forall n :: n in m ==>
      && Satisfied(m, name)[n] == (if n == name then m[n].(satisfied := true) else m[n])
      && OutFaceSet(m, name, face)[n] == (if n == name then m[n].(outFace := Some(face)) else m[n])
  {
  }

  /** An Interest joins the entry that is pending under its name, once per face, and otherwise starts one. */
  lemma AggregatedExactly(m: Pending, name: Name, inFace: nat, interest: Interest, expiresAt: nat)
    ensures var m' := Aggregated(m, name, inFace, interest, expiresAt);
      if name !in m || m[name].satisfied
      then m' == m[name := PitEntry(interest, [inFace], None, expiresAt, false)]
      else
        && m'.Keys == m.Keys && (forall n :: n in m && n != name ==> m'[n] == m[n])
        && m'[name].inFaces == m[name].inFaces + (if inFace in m[name].inFaces then [] else [inFace])
        && m'[name].(inFaces := []) == m[name].(inFaces := [])
  {
  }

  /** One entry for each of these names. */
  ghost predicate Lists(removed: seq<PitEntry>, m: Pending, names: set<Name>) {
    && |removed| == |names| && names <= m.Keys
    && forall e :: e in removed <==> exists n :: n in names && m[n] == e
  }

  lemma ListsMore(removed: seq<PitEntry>, m: Pending, gone: set<Name>, name: Name)
    requires Lists(removed, m, gone) && name in m && name !in gone
    ensures Lists(removed + [m[name]], m, gone + {name})
  {
    forall e | e in removed + [m[name]] ensures exists n :: n in gone + {name} && m[n] == e {
      if e in removed {
        var n :| n in gone && m[n] == e;
        assert n in gone + {name};
      } else {
        assert name in gone + {name};
      }
    }
    forall n | n in gone + {name} ensures m[n] in removed + [m[name]] {
      assert n != name ==> n in gone && m[n] in removed;
    }
  }

  // ---------- Loop detection ----------

  datatype NonceOp = Record(face: nat, nonce: Nonce, at: nat) | Purge(now: nat)

  /** The nonces after the operations. */
  function NoncesAfter(ops: seq<NonceOp>): Nonces {
    if ops == [] then map[]
    else
      var s := NoncesAfter(ops[..|ops| - 1]);
      match ops[|ops| - 1]
      case Record(face, nonce, at) => s[(face, nonce) := at + NONCE_TTL]
      case Purge(now) => NoncesPurged(s, now)
  }

  /** A later operation that supersedes the record, or purges it 60 seconds or more after. */
  predicate Ends(record: NonceOp, later: NonceOp)
    requires record.Record?
  {
    match later
    case Record(face, nonce, _) => face == record.face && nonce == record.nonce
    case Purge(now) => now >= record.at + 60_000_000_000
  }

  /** Operation `i` recorded the pair and nothing has ended that since. */
  ghost predicate StillKept(ops: seq<NonceOp>, face: nat, nonce: Nonce, i: nat) {
    && i < |ops| && ops[i].Record? && ops[i].face == face && ops[i].nonce == nonce
    && forall j :: i < j < |ops| ==> !Ends(ops[i], ops[j])
  }

  lemma KeptStep(ops: seq<NonceOp>, face: nat, nonce: Nonce, i: nat)
    requires ops != [] && i < |ops| - 1
    ensures StillKept(ops, face, nonce, i) <==>
      StillKept(ops[..|ops| - 1], face, nonce, i) && !Ends(ops[i], ops[|ops| - 1])
  {
    var before := ops[..|ops| - 1];
    assert forall j :: 0 <= j < |before| ==> before[j] == ops[j];
  }

  /** An Interest is taken for a loop exactly while a nonce that the same face sent before is kept. What other faces
      sent plays no part. */
  lemma {:induction false} LoopExactly(ops: seq<NonceOp>, face: nat, nonce: Nonce)
    ensures (face, nonce) in NoncesAfter(ops) <==> exists i: nat :: StillKept(ops, face, nonce, i)
    ensures forall i: nat :: StillKept(ops, face, nonce, i) ==> Expiry(ops, face, nonce) == ops[i].at + NONCE_TTL
  {
    if ops != [] {
      var before, op := ops[..|ops| - 1], ops[|ops| - 1];
      LoopExactly(before, face, nonce);
      forall i: nat | i < |ops| - 1
        ensures StillKept(ops, face, nonce, i) <==> StillKept(before, face, nonce, i) && !Ends(ops[i], op)
      {
        KeptStep(ops, face, nonce, i);
      }
      if op.Record? && op.face == face && op.nonce == nonce {
        assert StillKept(ops, face, nonce, |ops| - 1);
      } else if (face, nonce) in NoncesAfter(ops) {
        var i: nat :| StillKept(before, face, nonce, i);
        assert StillKept(ops, face, nonce, i);
      }
    }
  }

  /** Until when the pair is kept, or 0. */
  function Expiry(ops: seq<NonceOp>, face: nat, nonce: Nonce): nat {
    if (face, nonce) in NoncesAfter(ops) then NoncesAfter(ops)[(face, nonce)] else 0
  }
}
