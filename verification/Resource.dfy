/** Segmented resource transfer (crates/transport/src/resource.rs). SHA-256 is a parameter. */
module Resources {
  import opened Bytes
  import opened Fragments
  import opened FragmentRuns

  type Sha = bytes -> bytes

  const U32 := 0x1_0000_0000

  datatype Segment = Segment(resource: bytes, index: nat, total: nat, data: bytes, checksum: bytes)

  datatype SegmentError = UnknownResource(hash: bytes) | OutOfRange(expected: nat, got: nat) | Duplicate(index: nat)
    | BadChecksum(index: nat)

  function NewSegment(sha: Sha, hash: bytes, index: nat, total: nat, data: bytes): Segment {
    Segment(hash, index, total, data, sha(data))
  }

  predicate ChecksumHolds(sha: Sha, s: Segment) { s.checksum == sha(s.data) }

  // ---------- Tracking segments ----------

  datatype Tracker = Tracker(hash: bytes, total: nat, received: map<nat, Segment>, complete: bool, octets: nat)

  function NewTracker(hash: bytes, total: nat): Tracker { Tracker(hash, total, map[], false, 0) }

  /** Only indices below the total, and complete exactly when there are all of them and at least one. */
  ghost predicate ValidTracker(t: Tracker) {
    && t.received.Keys <= Below(t.total)
    && (t.complete <==> t.total > 0 && t.received.Keys == Below(t.total))
  }

  /** The segment belongs to the transfer and is intact. */
  predicate Acceptable(sha: Sha, t: Tracker, s: Segment) {
    s.resource == t.hash && s.index < t.total && ChecksumHolds(sha, s)
  }

  function SegmentAdded(sha: Sha, t: Tracker, s: Segment): (Tracker, Result<bool, SegmentError>) {
    if s.resource != t.hash then (t, Err(UnknownResource(s.resource)))
    else if s.index >= t.total then (t, Err(OutOfRange(t.total, s.index)))
    else if s.index in t.received then (t, Err(Duplicate(s.index)))
    else if !ChecksumHolds(sha, s) then (t, Err(BadChecksum(s.index)))
    else
      var received := t.received[s.index := s];
      var done := |received| % U32 == t.total;
      (t.(received := received, octets := t.octets + |s.data|, complete := t.complete || done), Ok(done))
  }

  /** A segment is taken exactly when it is acceptable and new; the answer is `true` exactly when it was the last one
      missing; a refused segment changes nothing. */
  lemma AddedExactly(sha: Sha, t: Tracker, s: Segment)
    requires ValidTracker(t) && t.total < U32
    ensures var r := SegmentAdded(sha, t, s);
      && ValidTracker(r.0) && r.0.hash == t.hash && r.0.total == t.total
      && (r.1.Ok? <==>
            s.resource == t.hash && s.index < t.total && s.checksum == sha(s.data) && s.index !in t.received)
      && (r.1.Err? ==> r.0 == t)
      && (r.1.Ok? ==> r.0.octets == t.octets + |s.data|)
      && (r.1.Ok? ==> r.0.received == t.received[s.index := s] && r.1.value == r.0.complete && !t.complete)
  {
    if Acceptable(sha, t, s) && s.index !in t.received {
      CountTells(t.received[s.index := s], t.total);
      MissingOne(t.received, t.total, s.index);
    }
  }

  /** Why a segment is refused: the first of the four checks that fails, in this order. */
  lemma RefusedExactly(sha: Sha, t: Tracker, s: Segment)
    ensures var r := SegmentAdded(sha, t, s).1;
      && (r == Err(UnknownResource(s.resource)) <==> s.resource != t.hash)
      && (r == Err(OutOfRange(t.total, s.index)) <==> s.resource == t.hash && t.total <= s.index)
      && (r == Err(Duplicate(s.index)) <==> s.resource == t.hash && s.index < t.total && s.index in t.received)
      && (r == Err(BadChecksum(s.index)) <==>
            s.resource == t.hash && s.index < t.total && s.index !in t.received && s.checksum != sha(s.data))
  {
  }

  lemma MissingOne(received: map<nat, Segment>, total: nat, index: nat)
    requires received.Keys <= Below(total) && index < total && index !in received
    ensures received.Keys != Below(total) && received.Keys + {index} <= Below(total)
  {
    assert index in Below(total);
  }

  /** Counting the segments tells whether all are there. */
  lemma CountTells(received: map<nat, Segment>, total: nat)
    requires received.Keys <= Below(total) && total < U32
    ensures |received| % U32 == total <==> received.Keys == Below(total)
  {
    assert |received| == |received.Keys|;
    BelowSize(total);
    SubsetBySize(received.Keys, Below(total));
    SubsetSize(received.Keys, Below(total));
  }

  lemma SubsetSize(a: set<nat>, b: set<nat>)
    requires a <= b
    ensures |a| <= |b|
  {
    assert b == a + (b - a);
  }

  /** The data of the segments from `i` on. */
  function Joined(received: map<nat, Segment>, i: nat, total: nat): bytes
    requires i <= total && forall k :: i <= k < total ==> k in received
    decreases total - i
  {
    if i == total then [] else received[i].data + Joined(received, i + 1, total)
  }

  class SegmentTracker {
    const hash: bytes
    const total: nat
    var received: map<nat, Segment>
    var complete: bool
    var octets: nat

    ghost function View(): Tracker
      reads this
    {
      Tracker(hash, total, received, complete, octets)
    }

    ghost predicate Valid()
      reads this
    {
      ValidTracker(View()) && total < U32
    }

    constructor (hash: bytes, total: nat)
      requires total < U32
      ensures Valid() && View() == NewTracker(hash, total)
    {
      this.hash, this.total := hash, total;
      received, complete, octets := map[], false, 0;
      new;
      assert total > 0 ==> 0 in Below(total);
    }

    method AddSegment(sha: Sha, s: Segment) returns (r: Result<bool, SegmentError>)
      requires Valid()
      modifies this
      ensures Valid() && (View(), r) == SegmentAdded(sha, old(View()), s)
    {
      AddedExactly(sha, View(), s);
      if s.resource != hash {
        return Err(UnknownResource(s.resource));
      }
      if s.index >= total {
        return Err(OutOfRange(total, s.index));
      }
      if s.index in received {
        return Err(Duplicate(s.index));
      }
      if !ChecksumHolds(sha, s) {
        return Err(BadChecksum(s.index));
      }
      octets := octets + |s.data|;
      received := received[s.index := s];
      if |received| % U32 == total {
        complete := true;
        return Ok(true);
      }
      return Ok(false);
    }

    method Assemble() returns (r: Option<bytes>)
      requires Valid()
      ensures r == AssembledData(View())
    {
      if !complete {
        return None;
      }
      CompleteHasAll(View());
      var data: bytes := [];
      assert [] + Joined(received, 0, total) == Joined(received, 0, total);
      for i := 0 to total
        invariant data + Joined(received, i, total) == Joined(received, 0, total)
      {
        assert (data + received[i].data) + Joined(received, i + 1, total) == data + Joined(received, i, total);
        data := data + received[i].data;
      }
      assert data + [] == data;
      r := Some(data);
    }

    /** The indices not received, in increasing order. */
    method MissingIndices() returns (r: seq<nat>)
      ensures forall k: nat :: k in r <==> k < total && k !in received
      ensures forall i, j :: 0 <= i < j < |r| ==> r[i] < r[j]
    {
      r := [];
      for i := 0 to total
        invariant forall k: nat :: k in r <==> k < i && k !in received
        invariant forall i, j :: 0 <= i < j < |r| ==> r[i] < r[j]
      {
        if i !in received {
          assert forall j :: 0 <= j < |r| ==> r[j] in r;
          r := r + [i];
        }
      }
    }
  }

  lemma CompleteHasAll(t: Tracker)
    requires ValidTracker(t) && t.complete
    ensures forall k :: 0 <= k < t.total ==> k in t.received
  {
    forall k | 0 <= k < t.total ensures k in t.received {
      assert k in Below(t.total);
    }
  }

  function AssembledData(t: Tracker): Option<bytes>
    requires ValidTracker(t)
  {
    if !t.complete then None
    else
      CompleteHasAll(t);
      Some(Joined(t.received, 0, t.total))
  }

  // ---------- The transfer ----------

  datatype TransferState = Pending | Transferring | Complete | Failed

  datatype Transfer = Transfer(tracker: Tracker, state: TransferState, data: Option<bytes>)

  /** The state becomes `Transferring` even when the segment is then refused. */
  function SegmentReceived(sha: Sha, r: Transfer, s: Segment): (Transfer, Result<bool, SegmentError>)
    requires ValidTracker(r.tracker) && r.tracker.total < U32
  {
    AddedExactly(sha, r.tracker, s);
    var (t, answer) := SegmentAdded(sha, r.tracker, s);
    (if answer == Ok(true) then Transfer(t, Complete, AssembledData(t)) else Transfer(t, Transferring, r.data), answer)
  }

  class Resource {
    const tracker: SegmentTracker
    var state: TransferState
    var data: Option<bytes>

    ghost function View(): Transfer
      reads this, tracker
    {
      Transfer(tracker.View(), state, data)
    }

    /** A resource to receive. */
    constructor ForReceiving(hash: bytes, total: nat)
      requires total < U32
      ensures tracker.Valid() && fresh(tracker) && View() == Transfer(NewTracker(hash, total), Pending, None)
    {
      tracker := new SegmentTracker(hash, total);
      state, data := Pending, None;
    }

    method ReceiveSegment(sha: Sha, s: Segment) returns (r: Result<bool, SegmentError>)
      requires tracker.Valid()
      modifies this, tracker
      ensures tracker.Valid() && (View(), r) == SegmentReceived(sha, old(View()), s)
    {
      state := Transferring;
      r := tracker.AddSegment(sha, s);
      if r == Ok(true) {
        state := Complete;
        data := tracker.Assemble();
      }
    }
  }

  /** The segments prepared for sending. */
  method Segmented(sha: Sha, data: bytes, size: nat) returns (segments: seq<Segment>)
    requires size > 0
    ensures segments == SegmentsOf(sha, data, size)
  {
    var hash, total := sha(data), (|data| + size - 1) / size % U32;
    ChunkCount(data, size);
    ghost var cs := Chunks(data, size);
    segments := [];
    var rest, i := data, 0;
    while rest != []
      invariant i <= |cs| && Chunks(rest, size) == cs[i..]
      invariant segments == SegmentsOf(sha, data, size)[..i]
      decreases |rest|
    {
      var n := if |rest| <= size then |rest| else size;
      assert rest[..n] == cs[i] && Chunks(rest[n..], size) == cs[i + 1..];
      segments := segments + [NewSegment(sha, hash, i % U32, total, rest[..n])];
      rest, i := rest[n..], i + 1;
    }
  }

  function SegmentsOf(sha: Sha, data: bytes, size: nat): seq<Segment>
    requires size > 0
  {
    var cs := Chunks(data, size);
    seq(|cs|, i requires 0 <= i < |cs| => NewSegment(sha, sha(data), i % U32, |cs| % U32, cs[i]))
  }

  // ---------- Every transfer ----------

  /** The receiver after any segments at all: genuine, repeated, foreign or damaged, in any order. */
  function AfterSegments(sha: Sha, hash: bytes, total: nat, segments: seq<Segment>): (r: Transfer)
    requires total < U32
    ensures ValidTracker(r.tracker) && r.tracker.hash == hash && r.tracker.total == total
  {
    if segments == [] then
      assert total > 0 ==> 0 in Below(total);
      Transfer(NewTracker(hash, total), Pending, None)
    else
      var before := AfterSegments(sha, hash, total, segments[..|segments| - 1]);
      AddedExactly(sha, before.tracker, segments[|segments| - 1]);
      SegmentReceived(sha, before, segments[|segments| - 1]).0
  }

  /** The first acceptable segment of each index. */
  function Firsts(sha: Sha, hash: bytes, total: nat, segments: seq<Segment>): map<nat, Segment> {
    if segments == [] then map[]
    else
      var before, s := Firsts(sha, hash, total, segments[..|segments| - 1]), segments[|segments| - 1];
      if Acceptable(sha, NewTracker(hash, total), s) && s.index !in before then before[s.index := s] else before
  }

  /** Every index has landed, and there is at least one. */
  predicate AllLanded(sha: Sha, hash: bytes, total: nat, segments: seq<Segment>) {
    total > 0 && Firsts(sha, hash, total, segments).Keys == Below(total)
  }

  /** The data of the first segments, once there is one for every index. */
  function LandedData(sha: Sha, hash: bytes, total: nat, segments: seq<Segment>): Option<bytes> {
    if AllLanded(sha, hash, total, segments) then
      assert forall k :: 0 <= k < total ==> k in Below(total);
      Some(Joined(Firsts(sha, hash, total, segments), 0, total))
    else None
  }

  lemma {:induction false} TrackerHoldsFirsts(sha: Sha, hash: bytes, total: nat, segments: seq<Segment>)
    requires total < U32
    ensures AfterSegments(sha, hash, total, segments).tracker.received == Firsts(sha, hash, total, segments)
    decreases |segments|
  {
    if segments != [] {
      TrackerHoldsFirsts(sha, hash, total, segments[..|segments| - 1]);
      AddedExactly(sha, AfterSegments(sha, hash, total, segments[..|segments| - 1]).tracker, segments[|segments| - 1]);
    }
  }

  /** Transfer of any segments at all, in any order, with loss, repetition, damage and foreign segments: there is data
      exactly when every index has landed, and then it is the data of the first acceptable segment of each index. The
      empty resource never gets there. The state is `Complete` exactly when the last segment was the one that completed
      it: any later segment sets it back for good, though the data stays. */
  lemma {:induction false} TransferExactly(sha: Sha, hash: bytes, total: nat, segments: seq<Segment>)
    requires total < U32
    ensures var r := AfterSegments(sha, hash, total, segments);
      && r.data == LandedData(sha, hash, total, segments)
      && r.state == (if segments == [] then Pending
                     else if AllLanded(sha, hash, total, segments) && !AllLanded(sha, hash, total, segments[..|segments| - 1])
                     then Complete else Transferring)
    decreases |segments|
  {
    TrackerHoldsFirsts(sha, hash, total, segments);
    if segments != [] {
      var before, s := segments[..|segments| - 1], segments[|segments| - 1];
      TransferExactly(sha, hash, total, before);
      TrackerHoldsFirsts(sha, hash, total, before);
      AddedExactly(sha, AfterSegments(sha, hash, total, before).tracker, s);
    }
  }

  lemma {:induction false} JoinedIsConcat(received: map<nat, Segment>, cs: seq<bytes>, i: nat)
    requires i <= |cs| && forall k :: 0 <= k < |cs| ==> k in received && received[k].data == cs[k]
    ensures Joined(received, i, |cs|) == Concat(cs[i..])
    decreases |cs| - i
  {
    if i < |cs| {
      JoinedIsConcat(received, cs, i + 1);
      assert cs[i..][1..] == cs[i + 1..];
    }
  }

  /** The segment carries the chunk its index names. */
  predicate Authentic(cs: seq<bytes>, s: Segment) { s.index < |cs| && s.data == cs[s.index] }

  /** The segments prepared for sending cut the data every `size` octets. Each has the digest of the whole, its index,
      the number of segments, its part of the data, and the digest of that. */
  lemma SegmentsExactly(sha: Sha, data: bytes, size: nat, i: nat)
    requires size > 0 && i < |SegmentsOf(sha, data, size)|
    ensures var s, total := SegmentsOf(sha, data, size)[i], (|data| + size - 1) / size;
      && |SegmentsOf(sha, data, size)| == total && 0 <= i * size < |data|
      && s.resource == sha(data) && s.index == i % 0x1_0000_0000 && s.total == total % 0x1_0000_0000
      && s.data == (if (i + 1) * size < |data| then data[i * size..(i + 1) * size] else data[i * size..])
      && s.checksum == sha(s.data)
  {
    ChunkCount(data, size);
    ChunkAt(data, size, i);
  }

  /** What counts as the first segment of an index: it belongs to the transfer, is intact, and no earlier one is. */
  lemma {:induction false} FirstsExactly(sha: Sha, hash: bytes, total: nat, segments: seq<Segment>, k: nat)
    ensures k in Firsts(sha, hash, total, segments) <==> exists j: nat :: Lands(sha, hash, total, segments, j, k)
    ensures forall j: nat :: Lands(sha, hash, total, segments, j, k) ==> Firsts(sha, hash, total, segments)[k] == segments[j]
    decreases |segments|
  {
    if segments != [] {
      var before := segments[..|segments| - 1];
      FirstsExactly(sha, hash, total, before, k);
      forall j: nat | j < |before|
        ensures Lands(sha, hash, total, segments, j, k) <==> Lands(sha, hash, total, before, j, k)
      {
        LandsBefore(sha, hash, total, segments, j, k);
      }
      if !exists j: nat :: Lands(sha, hash, total, before, j, k) {
        NoneLanded(sha, hash, total, before, k);
        if Intact(sha, hash, total, segments[|before|], k) {
          assert Lands(sha, hash, total, segments, |before|, k);
        }
      }
    }
  }

  /** A segment for index `k` of the transfer whose checksum is the digest of its data. */
  predicate Intact(sha: Sha, hash: bytes, total: nat, s: Segment, k: nat) {
    s.resource == hash && s.index == k && k < total && s.checksum == sha(s.data)
  }

  /** Segment `j` is the first intact one for index `k`. */
  predicate Lands(sha: Sha, hash: bytes, total: nat, segments: seq<Segment>, j: nat, k: nat) {
    j < |segments| && Intact(sha, hash, total, segments[j], k)
    && forall i :: 0 <= i < j ==> !Intact(sha, hash, total, segments[..j][i], k)
  }

  lemma LandsBefore(sha: Sha, hash: bytes, total: nat, segments: seq<Segment>, j: nat, k: nat)
    requires j < |segments| - 1
    ensures Lands(sha, hash, total, segments, j, k) <==> Lands(sha, hash, total, segments[..|segments| - 1], j, k)
  {
    var before := segments[..|segments| - 1];
    assert before[j] == segments[j] && before[..j] == segments[..j];
  }

  lemma {:induction false} NoneLanded(sha: Sha, hash: bytes, total: nat, segments: seq<Segment>, k: nat)
    requires forall j: nat :: !Lands(sha, hash, total, segments, j, k)
    ensures forall j :: 0 <= j < |segments| ==> !Intact(sha, hash, total, segments[j], k)
    decreases |segments|
  {
    if segments != [] {
      var before := segments[..|segments| - 1];
      forall j: nat ensures !Lands(sha, hash, total, before, j, k) {
        if j < |before| {
          LandsBefore(sha, hash, total, segments, j, k);
          assert !Lands(sha, hash, total, segments, j, k);
        }
      }
      NoneLanded(sha, hash, total, before, k);
      assert !Lands(sha, hash, total, segments, |before|, k);
    }
  }

  /** Every segment prepared for sending is accepted by the receiver and carries its chunk. */
  lemma SentIsAuthentic(sha: Sha, data: bytes, size: nat, i: nat)
    requires size > 0 && |Chunks(data, size)| < U32 && i < |SegmentsOf(sha, data, size)|
    ensures var s, cs := SegmentsOf(sha, data, size)[i], Chunks(data, size);
      s.index == i && Acceptable(sha, NewTracker(sha(data), |cs|), s) && Authentic(cs, s)
  {
  }

  lemma {:induction false} FirstsAreAcceptable(sha: Sha, hash: bytes, total: nat, segments: seq<Segment>, k: nat)
    requires k in Firsts(sha, hash, total, segments)
    ensures var s := Firsts(sha, hash, total, segments)[k];
      s in segments && s.index == k && Acceptable(sha, NewTracker(hash, total), s)
    decreases |segments|
  {
    if segments != [] && k in Firsts(sha, hash, total, segments[..|segments| - 1]) {
      FirstsAreAcceptable(sha, hash, total, segments[..|segments| - 1], k);
    }
  }

  /** When the first acceptable segment of every index is the sender's, the data is the original. The receiver compares
      no digest of the whole, so this is not something it finds out. */
  lemma OriginalArrives(sha: Sha, data: bytes, size: nat, segments: seq<Segment>)
    requires size > 0 && |Chunks(data, size)| < U32
    requires var cs := Chunks(data, size);
      var firsts := Firsts(sha, sha(data), |cs|, segments);
      forall k :: k in firsts ==> Authentic(cs, firsts[k])
    ensures var cs := Chunks(data, size);
      AfterSegments(sha, sha(data), |cs|, segments).data ==
      if AllLanded(sha, sha(data), |cs|, segments) then Some(data) else None
  {
    var cs := Chunks(data, size);
    TransferExactly(sha, sha(data), |cs|, segments);
    if AllLanded(sha, sha(data), |cs|, segments) {
      var firsts := Firsts(sha, sha(data), |cs|, segments);
      forall k | 0 <= k < |cs| ensures k in firsts && firsts[k].data == cs[k] {
        assert k in Below(|cs|);
        FirstsAreAcceptable(sha, sha(data), |cs|, segments, k);
      }
      JoinedIsConcat(firsts, cs, 0);
      assert cs[0..] == cs;
      ConcatChunks(data, size);
    }
  }
}
