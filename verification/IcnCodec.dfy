/** Interest and Data packets on the wire (crates/icn/src/interest.rs). Durations are in nanoseconds. */
module IcnCodec {
  import opened Bytes
  import opened IcnNames

  const MILLI := 1_000_000
  const SECOND := 1_000_000_000

  type Nonce = n: bytes | |n| == 8 witness seq(8, _ => 0)
  type Signature = s: bytes | |s| == 96 witness seq(96, _ => 0)

  datatype Selector = Selector(minSequence: Option<nat>, excludeHashes: seq<Digest>, mustBeFresh: bool)

  datatype Interest = Interest(name: Name, nonce: Nonce, lifetime: nat, canBePrefix: bool, selector: Option<Selector>)

  datatype Freshness = Fresh | Stale(age: nat)

  datatype Metadata = Metadata(contentHash: Option<Digest>, sequence: Option<nat>, freshness: Freshness)

  datatype Data = Data(name: Name, content: bytes, signature: Signature, metadata: Metadata)

  datatype CodecError = TooShort | InvalidName

  /** Three flag bits. */
  function Flags(a: bool, b: bool, c: bool): byte {
    (if a then 1 else 0) + (if b then 2 else 0) + (if c then 4 else 0)
  }

  lemma FlagBits(a: bool, b: bool, c: bool)
    ensures var f := Flags(a, b, c); (f % 2 != 0 <==> a) && (f / 2 % 2 != 0 <==> b) && (f / 4 % 2 != 0 <==> c)
  {
  }

  // ---------- Selectors ----------

  function HashesBytes(hs: seq<Digest>): bytes { if hs == [] then [] else hs[0] + HashesBytes(hs[1..]) }

  function ExcludeBytes(hs: seq<Digest>): bytes {
    if hs == [] then [] else [(|hs| % 256) as byte] + HashesBytes(hs)
  }

  function MinBytes(m: Option<nat>): bytes { if m.Some? then ToBe(m.value, 8) else [] }

  function SelectorBytes(s: Selector): bytes {
    [Flags(s.minSequence.Some?, s.excludeHashes != [], s.mustBeFresh)]
    + MinBytes(s.minSequence) + ExcludeBytes(s.excludeHashes)
  }

  /** `count` hashes from `pos` on. */
  function ReadHashes(s: bytes, pos: nat, count: nat): Result<seq<Digest>, CodecError>
    decreases count
  {
    if count == 0 then Ok([])
    else if pos + 32 > |s| then Err(TooShort)
    else
      match ReadHashes(s, pos + 32, count - 1)
      case Ok(hs) => Ok([s[pos..pos + 32]] + hs)
      case Err(e) => Err(e)
  }

  /** A big-endian 64-bit field that may be absent, and the position after it. */
  function ReadOptional(s: bytes, pos: nat, present: bool): Result<(Option<nat>, nat), CodecError> {
    if !present then Ok((None, pos))
    else if pos + 8 > |s| then Err(TooShort)
    else Ok((Some(FromBe(s[pos..pos + 8])), pos + 8))
  }

  function ReadExcludes(s: bytes, pos: nat, present: bool): Result<seq<Digest>, CodecError> {
    if !present then Ok([])
    else if pos >= |s| then Err(TooShort)
    else ReadHashes(s, pos + 1, s[pos] as int)
  }

  function ParseSelector(s: bytes): Result<Selector, CodecError> {
    if s == [] then Err(TooShort)
    else
      match ReadOptional(s, 1, s[0] % 2 != 0)
      case Err(e) => Err(e)
      case Ok((min, pos)) =>
        match ReadExcludes(s, pos, s[0] / 2 % 2 != 0)
        case Err(e) => Err(e)
        case Ok(hs) => Ok(Selector(min, hs, s[0] / 4 % 2 != 0))
  }

  /** The hash loop of `InterestSelector::read_from`. */
  method DecodeHashes(s: bytes, pos: nat, count: nat) returns (r: Result<seq<Digest>, CodecError>)
    ensures r == ReadHashes(s, pos, count)
  {
    var hashes: seq<Digest> := [];
    var at := pos;
    if ReadHashes(s, pos, count).Ok? {
      assert [] + ReadHashes(s, pos, count).value == ReadHashes(s, pos, count).value;
    }
    for i := 0 to count
      invariant at == pos + 32 * i
      invariant match ReadHashes(s, at, count - i)
        case Ok(hs) => ReadHashes(s, pos, count) == Ok(hashes + hs)
        case Err(e) => ReadHashes(s, pos, count) == Err(e)
    {
      if at + 32 > |s| {
        return Err(TooShort);
      }
      HashStep(s, at, count - i, hashes);
      hashes := hashes + [s[at..at + 32]];
      at := at + 32;
    }
    assert hashes + [] == hashes;
    return Ok(hashes);
  }

  lemma HashStep(s: bytes, at: nat, count: nat, done: seq<Digest>)
    requires count > 0 && at + 32 <= |s|
    ensures match ReadHashes(s, at, count)
      case Ok(hs) =>
        var rest := ReadHashes(s, at + 32, count - 1);
        rest.Ok? && done + hs == done + [s[at..at + 32]] + rest.value
      case Err(e) => ReadHashes(s, at + 32, count - 1) == Err(e)
  {
  }

  predicate GoodSelector(s: Selector) {
    (s.minSequence.Some? ==> s.minSequence.value < U64) && |s.excludeHashes| <= 255
  }

  lemma {:induction false} ReadsHashes(s: bytes, pos: nat, hs: seq<Digest>)
    requires pos + |HashesBytes(hs)| <= |s| && s[pos..pos + |HashesBytes(hs)|] == HashesBytes(hs)
    ensures ReadHashes(s, pos, |hs|) == Ok(hs)
    decreases |hs|
  {
    if hs != [] {
      TwoParts(s, pos, hs[0], HashesBytes(hs[1..]));
      ReadsHashes(s, pos + 32, hs[1..]);
      assert hs == [hs[0]] + hs[1..];
    }
  }

  lemma TwoParts(s: bytes, pos: nat, a: bytes, b: bytes)
    requires pos + |a + b| <= |s| && s[pos..pos + |a + b|] == a + b
    ensures s[pos..pos + |a|] == a && s[pos + |a|..pos + |a| + |b|] == b
  {
    var t := s[pos..pos + |a + b|];
    assert s[pos..pos + |a|] == t[..|a|] && s[pos + |a|..pos + |a| + |b|] == t[|a|..];
  }

  lemma ReadsOptional(s: bytes, pos: nat, m: Option<nat>)
    requires m.Some? ==> m.value < U64
    requires pos + |MinBytes(m)| <= |s| && s[pos..pos + |MinBytes(m)|] == MinBytes(m)
    ensures ReadOptional(s, pos, m.Some?) == Ok((m, pos + |MinBytes(m)|))
  {
    if m.Some? {
      Ranges();
      BeRoundTrip(m.value, 8);
    }
  }

  lemma ReadsExcludes(s: bytes, pos: nat, hs: seq<Digest>)
    requires |hs| <= 255 && pos + |ExcludeBytes(hs)| == |s| && s[pos..] == ExcludeBytes(hs)
    ensures ReadExcludes(s, pos, hs != []) == Ok(hs)
  {
    if hs != [] {
      assert s[pos..pos + |ExcludeBytes(hs)|] == s[pos..];
      TwoParts(s, pos, [|hs| as byte], HashesBytes(hs));
      assert s[pos..pos + 1][0] == s[pos];
      ReadsHashes(s, pos + 1, hs);
    }
  }

  lemma ReadsSelector(x: Selector)
    requires GoodSelector(x)
    ensures ParseSelector(SelectorBytes(x)) == Ok(x)
  {
    var s := SelectorBytes(x);
    FlagBits(x.minSequence.Some?, x.excludeHashes != [], x.mustBeFresh);
    assert s[1..1 + |MinBytes(x.minSequence)|] == MinBytes(x.minSequence);
    ReadsOptional(s, 1, x.minSequence);
    assert s[1 + |MinBytes(x.minSequence)|..] == ExcludeBytes(x.excludeHashes);
    ReadsExcludes(s, 1 + |MinBytes(x.minSequence)|, x.excludeHashes);
  }

  lemma {:induction false} ReadHashesCount(s: bytes, pos: nat, count: nat)
    requires ReadHashes(s, pos, count).Ok?
    ensures |ReadHashes(s, pos, count).value| == count
    decreases count
  {
    if count > 0 {
      ReadHashesCount(s, pos + 32, count - 1);
    }
  }

  lemma OptionalIsGood(s: bytes, pos: nat, present: bool)
    requires ReadOptional(s, pos, present).Ok?
    ensures var m := ReadOptional(s, pos, present).value.0; m.Some? ==> m.value < U64
  {
    if present {
      Ranges();
      FromBeBound(s[pos..pos + 8]);
    }
  }

  lemma ParsedSelectorIsGood(s: bytes)
    requires ParseSelector(s).Ok?
    ensures GoodSelector(ParseSelector(s).value)
  {
    OptionalIsGood(s, 1, s[0] % 2 != 0);
    var pos := ReadOptional(s, 1, s[0] % 2 != 0).value.1;
    if s[0] / 2 % 2 != 0 {
      ReadHashesCount(s, pos + 1, s[pos] as int);
    }
  }

  /** A selector survives the wire exactly when its number has 64 bits and it excludes at most 255 hashes. */
  lemma SelectorRoundTrip(x: Selector)
    ensures ParseSelector(SelectorBytes(x)) == Ok(x) <==> GoodSelector(x)
  {
    if GoodSelector(x) {
      ReadsSelector(x);
    } else if ParseSelector(SelectorBytes(x)).Ok? {
      ParsedSelectorIsGood(SelectorBytes(x));
    }
  }

  // ---------- A length-prefixed name ----------

  function NameField(n: Name): bytes { VarintBytes(|NameBytes(n)|) + NameBytes(n) }

  /** The name and the position after it. */
  function ReadName(s: bytes): Result<(Name, nat), CodecError> {
    match ParseVarint(s)
    case None => Err(TooShort)
    case Some((len, used)) =>
      if used + len > |s| then Err(TooShort)
      else
        match ParseName(s[used..used + len])
        case Ok(n) => Ok((n, used + len))
        case Err(_) => Err(InvalidName)
  }

  lemma {:induction false} ComponentsSize(cs: seq<bytes>)
    requires forall i :: 0 <= i < |cs| ==> |cs[i]| <= 255
    ensures |ComponentsBytes(cs)| <= 256 * |cs|
  {
    if cs != [] {
      ComponentsSize(cs[1..]);
    }
  }

  lemma NameSize(n: Name)
    requires WellFormed(n)
    ensures |NameBytes(n)| < U64
  {
    ComponentsSize(n.components);
  }

  lemma ReadsName(n: Name, rest: bytes)
    requires WellFormed(n)
    ensures ReadName(NameField(n) + rest) == Ok((n, |NameField(n)|))
  {
    NameSize(n);
    NameRoundTrip(n);
    ReadsPrefixed(NameBytes(n), rest);
  }

  /** A length-prefixed field, whatever follows it. */
  lemma ReadsPrefixed(field: bytes, rest: bytes)
    requires |field| < U64
    ensures var s, v := VarintBytes(|field|) + field + rest, VarintBytes(|field|);
      ParseVarint(s) == Some((|field|, |v|)) && |v| + |field| <= |s| && s[|v|..|v| + |field|] == field
  {
    var v := VarintBytes(|field|);
    assert v + field + rest == v + (field + rest);
    VarintRoundTrip(|field|, field + rest);
  }

  // ---------- Interests ----------

  function InterestBytes(i: Interest): bytes {
    NameField(i.name) + (i.nonce + (ToBe(i.lifetime / MILLI, 4) + ([Flags(i.canBePrefix, i.selector.Some?, false)]
    + (if i.selector.Some? then SelectorBytes(i.selector.value) else []))))
  }

  function ParseInterest(s: bytes): Result<Interest, CodecError> {
    match ReadName(s)
    case Err(e) => Err(e)
    case Ok((name, pos)) => if pos > |s| then Err(TooShort) else ParseInterestBody(name, s[pos..])
  }

  function ParseInterestBody(name: Name, s: bytes): Result<Interest, CodecError> {
    if |s| < 13 then Err(TooShort)
    else
      var lifetime := FromBe(s[8..12]) * MILLI;
      if s[12] / 2 % 2 == 0 then Ok(Interest(name, s[..8], lifetime, s[12] % 2 != 0, None))
      else
        match ParseSelector(s[13..])
        case Err(e) => Err(e)
        case Ok(sel) => Ok(Interest(name, s[..8], lifetime, s[12] % 2 != 0, Some(sel)))
  }

  predicate GoodInterest(i: Interest) {
    && WellFormed(i.name)
    && i.lifetime % MILLI == 0 && i.lifetime / MILLI < 0x1_0000_0000
    && (i.selector.Some? ==> GoodSelector(i.selector.value))
  }

  lemma BodyParts(nonce: bytes, lifetime: bytes, f: byte, tail: bytes)
    requires |nonce| == 8 && |lifetime| == 4
    ensures var s := nonce + (lifetime + ([f] + tail));
      |s| >= 13 && s[..8] == nonce && s[8..12] == lifetime && s[12] == f && s[13..] == tail
  {
  }

  lemma ReadsInterestBody(i: Interest)
    requires GoodInterest(i)
    ensures var s := i.nonce + (ToBe(i.lifetime / MILLI, 4) + ([Flags(i.canBePrefix, i.selector.Some?, false)]
        + (if i.selector.Some? then SelectorBytes(i.selector.value) else [])));
      ParseInterestBody(i.name, s) == Ok(i)
  {
    BodyParts(i.nonce, ToBe(i.lifetime / MILLI, 4), Flags(i.canBePrefix, i.selector.Some?, false),
              if i.selector.Some? then SelectorBytes(i.selector.value) else []);
    FlagBits(i.canBePrefix, i.selector.Some?, false);
    Ranges();
    BeRoundTrip(i.lifetime / MILLI, 4);
    assert i.lifetime == i.lifetime / MILLI * MILLI;
    if i.selector.Some? {
      ReadsSelector(i.selector.value);
    }
  }

  lemma ReadsInterest(i: Interest)
    requires GoodInterest(i)
    ensures ParseInterest(InterestBytes(i)) == Ok(i)
  {
    var tail := if i.selector.Some? then SelectorBytes(i.selector.value) else [];
    var body := i.nonce + (ToBe(i.lifetime / MILLI, 4) + ([Flags(i.canBePrefix, i.selector.Some?, false)] + tail));
    ReadsName(i.name, body);
    assert (NameField(i.name) + body)[|NameField(i.name)|..] == body;
    ReadsInterestBody(i);
  }

  lemma ReadNameIsGood(s: bytes)
    requires ReadName(s).Ok?
    ensures WellFormed(ReadName(s).value.0)
  {
    var (len, used) := ParseVarint(s).value;
    ParsedIsWellFormed(s[used..used + len]);
  }

  lemma ParsedInterestIsGood(s: bytes)
    requires ParseInterest(s).Ok?
    ensures GoodInterest(ParseInterest(s).value)
  {
    ReadNameIsGood(s);
    var body := s[ReadName(s).value.1..];
    Ranges();
    FromBeBound(body[8..12]);
    if body[12] / 2 % 2 != 0 {
      ParsedSelectorIsGood(body[13..]);
    }
  }

  /** An Interest survives the wire exactly when it is well formed: a good name, a lifetime of whole milliseconds below
      2^32 of them, and a good selector if it has one. */
  lemma InterestRoundTrip(i: Interest)
    ensures ParseInterest(InterestBytes(i)) == Ok(i) <==> GoodInterest(i)
  {
    if GoodInterest(i) {
      ReadsInterest(i);
    } else if ParseInterest(InterestBytes(i)).Ok? {
      ParsedInterestIsGood(InterestBytes(i));
    }
  }

  // ---------- Data ----------

  function HashField(h: Option<Digest>): bytes { if h.Some? then h.value else [] }

  function AgeOf(f: Freshness): Option<nat> { if f.Stale? then Some(f.age / SECOND) else None }

  function MetadataBytes(m: Metadata): bytes {
    [Flags(m.contentHash.Some?, m.sequence.Some?, m.freshness.Stale?)]
    + HashField(m.contentHash) + MinBytes(m.sequence) + MinBytes(AgeOf(m.freshness))
  }

  function ReadDigest(s: bytes, pos: nat, present: bool): Result<(Option<Digest>, nat), CodecError> {
    if !present then Ok((None, pos))
    else if pos + 32 > |s| then Err(TooShort)
    else Ok((Some(s[pos..pos + 32]), pos + 32))
  }

  function ParseMetadata(s: bytes): Result<Metadata, CodecError> {
    if s == [] then Err(TooShort)
    else
      match ReadDigest(s, 1, s[0] % 2 != 0)
      case Err(e) => Err(e)
      case Ok((h, p)) =>
        match ReadOptional(s, p, s[0] / 2 % 2 != 0)
        case Err(e) => Err(e)
        case Ok((sequence, q)) =>
          match ReadOptional(s, q, s[0] / 4 % 2 != 0)
          case Err(e) => Err(e)
          case Ok((age, _)) => Ok(Metadata(h, sequence, if age.Some? then Stale(age.value * SECOND) else Fresh))
  }

  predicate GoodMetadata(m: Metadata) {
    && (m.sequence.Some? ==> m.sequence.value < U64)
    && (m.freshness.Stale? ==> m.freshness.age % SECOND == 0 && m.freshness.age / SECOND < U64)
  }

  lemma ReadsMetadata(m: Metadata)
    requires GoodMetadata(m)
    ensures ParseMetadata(MetadataBytes(m)) == Ok(m)
  {
    var s := MetadataBytes(m);
    FlagBits(m.contentHash.Some?, m.sequence.Some?, m.freshness.Stale?);
    var p := 1 + |HashField(m.contentHash)|;
    var q := p + |MinBytes(m.sequence)|;
    FourParts(s[0], HashField(m.contentHash), MinBytes(m.sequence), MinBytes(AgeOf(m.freshness)));
    ReadsDigest(s, 1, m.contentHash);
    ReadsOptional(s, p, m.sequence);
    ReadsOptional(s, q, AgeOf(m.freshness));
    if m.freshness.Stale? {
      WholeSeconds(m.freshness.age / SECOND);
    }
  }

  lemma FourParts(f: byte, a: bytes, b: bytes, c: bytes)
    ensures var s, p, q := [f] + a + b + c, 1 + |a|, 1 + |a| + |b|;
      |s| == q + |c| && s[0] == f && s[1..p] == a && s[p..q] == b && s[q..q + |c|] == c
  {
  }

  lemma ReadsDigest(s: bytes, pos: nat, h: Option<Digest>)
    requires pos + |HashField(h)| <= |s| && s[pos..pos + |HashField(h)|] == HashField(h)
    ensures ReadDigest(s, pos, h.Some?) == Ok((h, pos + |HashField(h)|))
  {
  }

  lemma WholeSeconds(n: nat)
    ensures n * SECOND % SECOND == 0 && n * SECOND / SECOND == n
  {
  }

  lemma ParsedMetadataIsGood(s: bytes)
    requires ParseMetadata(s).Ok?
    ensures GoodMetadata(ParseMetadata(s).value)
  {
    var p := ReadDigest(s, 1, s[0] % 2 != 0).value.1;
    var q := ReadOptional(s, p, s[0] / 2 % 2 != 0).value.1;
    var age := ReadOptional(s, q, s[0] / 4 % 2 != 0).value.0;
    OptionalIsGood(s, p, s[0] / 2 % 2 != 0);
    OptionalIsGood(s, q, s[0] / 4 % 2 != 0);
    if age.Some? {
      WholeSeconds(age.value);
    }
  }

  /** Metadata survives the wire exactly when its numbers have 64 bits and its age is in whole seconds. */
  lemma MetadataRoundTrip(m: Metadata)
    ensures ParseMetadata(MetadataBytes(m)) == Ok(m) <==> GoodMetadata(m)
  {
    if GoodMetadata(m) {
      ReadsMetadata(m);
    } else if ParseMetadata(MetadataBytes(m)).Ok? {
      ParsedMetadataIsGood(MetadataBytes(m));
    }
  }

  function MetadataField(m: Metadata): bytes { VarintBytes(|MetadataBytes(m)|) + MetadataBytes(m) }

  function DataBytes(d: Data): bytes {
    NameField(d.name) + (ToBe(|d.content|, 4) + (d.content + (MetadataField(d.metadata) + d.signature)))
  }

  function ParseData(s: bytes): Result<Data, CodecError> {
    match ReadName(s)
    case Err(e) => Err(e)
    case Ok((name, pos)) => if pos > |s| then Err(TooShort) else ParseDataBody(name, s[pos..])
  }

  function ParseDataBody(name: Name, s: bytes): Result<Data, CodecError> {
    if |s| < 4 then Err(TooShort)
    else
      var len := FromBe(s[..4]);
      if 4 + len > |s| then Err(TooShort) else ParseDataTail(name, s[4..4 + len], s[4 + len..])
  }

  /** Metadata and signature. */
  function ParseDataTail(name: Name, content: bytes, s: bytes): Result<Data, CodecError> {
    match ParseVarint(s)
    case None => Err(TooShort)
    case Some((len, used)) =>
      if used + len > |s| then Err(TooShort)
      else
        match ParseMetadata(s[used..used + len])
        case Err(e) => Err(e)
        case Ok(m) =>
          if used + len + 96 > |s| then Err(TooShort)
          else Ok(Data(name, content, s[used + len..used + len + 96], m))
  }

  predicate GoodData(d: Data) { WellFormed(d.name) && |d.content| < 0x1_0000_0000 && GoodMetadata(d.metadata) }

  lemma ReadsDataTail(d: Data)
    requires GoodData(d)
    ensures ParseDataTail(d.name, d.content, MetadataField(d.metadata) + d.signature) == Ok(d)
  {
    var mb, v := MetadataBytes(d.metadata), VarintBytes(|MetadataBytes(d.metadata)|);
    ReadsPrefixed(mb, d.signature);
    ReadsMetadata(d.metadata);
    var s := v + mb + d.signature;
    assert s[|v| + |mb|..|v| + |mb| + 96] == d.signature;
  }

  lemma ContentParts(len: bytes, content: bytes, tail: bytes)
    requires |len| == 4
    ensures var s := len + (content + tail);
      |s| >= 4 + |content| && s[..4] == len && s[4..4 + |content|] == content && s[4 + |content|..] == tail
  {
  }

  lemma ReadsDataBody(d: Data)
    requires GoodData(d)
    ensures var s := ToBe(|d.content|, 4) + (d.content + (MetadataField(d.metadata) + d.signature));
      ParseDataBody(d.name, s) == Ok(d)
  {
    Ranges();
    BeRoundTrip(|d.content|, 4);
    ContentParts(ToBe(|d.content|, 4), d.content, MetadataField(d.metadata) + d.signature);
    ReadsDataTail(d);
  }

  lemma ReadsData(d: Data)
    requires GoodData(d)
    ensures ParseData(DataBytes(d)) == Ok(d)
  {
    var body := ToBe(|d.content|, 4) + (d.content + (MetadataField(d.metadata) + d.signature));
    ReadsName(d.name, body);
    assert (NameField(d.name) + body)[|NameField(d.name)|..] == body;
    ReadsDataBody(d);
  }

  lemma ParsedDataIsGood(s: bytes)
    requires ParseData(s).Ok?
    ensures GoodData(ParseData(s).value)
  {
    ReadNameIsGood(s);
    var body := s[ReadName(s).value.1..];
    Ranges();
    FromBeBound(body[..4]);
    var tail := body[4 + FromBe(body[..4])..];
    var (len, used) := ParseVarint(tail).value;
    ParsedMetadataIsGood(tail[used..used + len]);
  }

  /** A Data packet survives the wire exactly when it is well formed: a good name, less than 2^32 octets of content and
      good metadata. */
  lemma DataRoundTrip(d: Data)
    ensures ParseData(DataBytes(d)) == Ok(d) <==> GoodData(d)
  {
    if GoodData(d) {
      ReadsData(d);
    } else if ParseData(DataBytes(d)).Ok? {
      ParsedDataIsGood(DataBytes(d));
    }
  }

  // ---------- The formats, position by position ----------

  /** A selector stands at the beginning of the octets: the presence bits 1, 2 and 4, the least sequence number, and the
      excluded hashes after their number. */
  predicate SelectorIn(s: bytes, x: Selector) {
    && s != []
    && var at := if s[0] % 2 == 1 then 9 else 1;
      && at <= |s|
      && x.minSequence == (if s[0] % 2 == 1 then Some(FromBe(s[1..9])) else None)
      && (x.mustBeFresh <==> s[0] / 4 % 2 == 1)
      && if s[0] / 2 % 2 == 1 then at < |s| && |x.excludeHashes| == s[at] as int && HashesIn(s, at + 1, x.excludeHashes)
         else x.excludeHashes == []
  }

  predicate HashesIn(s: bytes, at: nat, hs: seq<Digest>) {
    at + 32 * |hs| <= |s| && forall k :: 0 <= k < |hs| ==> s[at + 32 * k..at + 32 * k + 32] == hs[k]
  }

  lemma {:induction false} HashesExactly(s: bytes, at: nat, count: nat, hs: seq<Digest>)
    ensures ReadHashes(s, at, count) == Ok(hs) <==> |hs| == count && (count > 0 ==> HashesIn(s, at, hs))
    decreases count
  {
    if count > 0 && at + 32 <= |s| {
      if hs != [] {
        HashesExactly(s, at + 32, count - 1, hs[1..]);
        HashesTail(s, at, hs);
        assert hs == [hs[0]] + hs[1..];
      } else if ReadHashes(s, at, count).Ok? {
        ReadHashesCount(s, at, count);
      }
    }
  }

  lemma HashesTail(s: bytes, at: nat, hs: seq<Digest>)
    requires hs != []
    ensures HashesIn(s, at, hs) <==> at + 32 <= |s| && s[at..at + 32] == hs[0] && HashesIn(s, at + 32, hs[1..])
  {
    if HashesIn(s, at, hs) {
      assert s[at + 32 * 0..at + 32 * 0 + 32] == hs[0];
      forall k | 0 <= k < |hs| - 1 ensures s[at + 32 + 32 * k..at + 32 + 32 * k + 32] == hs[1..][k] {
        assert hs[1..][k] == hs[k + 1] == s[at + 32 * (k + 1)..at + 32 * (k + 1) + 32];
      }
    }
    if at + 32 <= |s| && s[at..at + 32] == hs[0] && HashesIn(s, at + 32, hs[1..]) {
      forall k | 0 <= k < |hs| ensures s[at + 32 * k..at + 32 * k + 32] == hs[k] {
        if k > 0 {
          assert hs[1..][k - 1] == hs[k];
        }
      }
    }
  }

  /** Which octets parse to which selector, exactly. */
  lemma SelectorParsesExactly(s: bytes, x: Selector)
    ensures ParseSelector(s) == Ok(x) <==> SelectorIn(s, x)
    ensures ParseSelector(s).Err? ==> ParseSelector(s) == Err(TooShort)
  {
    if s != [] {
      var at := if s[0] % 2 == 1 then 9 else 1;
      assert s[0] % 2 != 0 <==> s[0] % 2 == 1;
      assert s[0] / 2 % 2 != 0 <==> s[0] / 2 % 2 == 1;
      assert s[0] / 4 % 2 != 0 <==> s[0] / 4 % 2 == 1;
      if at < |s| {
        HashesExactly(s, at + 1, s[at] as int, x.excludeHashes);
        HashErrors(s, at + 1, s[at] as int);
      }
    }
  }

  lemma {:induction false} HashErrors(s: bytes, at: nat, count: nat)
    ensures ReadHashes(s, at, count).Err? ==> ReadHashes(s, at, count) == Err(TooShort)
    decreases count
  {
    if count > 0 {
      HashErrors(s, at + 32, count - 1);
    }
  }

  /** What writing a selector adds to reading it: the other bits are clear, hashes that are absent take no room, and
      nothing follows. */
  lemma SelectorLayout(x: Selector)
    requires GoodSelector(x)
    ensures var raw, n := SelectorBytes(x), |x.excludeHashes|;
      && SelectorIn(raw, x) && raw[0] < 8 && (raw[0] / 2 % 2 == 1 <==> n > 0)
      && |raw| == 1 + (if x.minSequence.Some? then 8 else 0) + (if n > 0 then 1 + 32 * n else 0)
  {
    ReadsSelector(x);
    SelectorParsesExactly(SelectorBytes(x), x);
    FlagBits(x.minSequence.Some?, x.excludeHashes != [], x.mustBeFresh);
    HashesSize(x.excludeHashes);
  }

  lemma {:induction false} HashesSize(hs: seq<Digest>)
    ensures |HashesBytes(hs)| == 32 * |hs|
  {
    if hs != [] {
      HashesSize(hs[1..]);
    }
  }

  /** Metadata stands at the beginning of the octets: the presence bits 1, 2 and 4, then the content hash, the sequence
      number and the age in seconds, each if it is present. */
  predicate MetadataIn(s: bytes, m: Metadata) {
    && s != []
    && var p := if s[0] % 2 == 1 then 33 else 1;
      var q := p + if s[0] / 2 % 2 == 1 then 8 else 0;
      var end := q + if s[0] / 4 % 2 == 1 then 8 else 0;
      && end <= |s|
      && m.contentHash == (if s[0] % 2 == 1 then Some(s[1..33]) else None)
      && m.sequence == (if s[0] / 2 % 2 == 1 then Some(FromBe(s[p..q])) else None)
      && m.freshness == (if s[0] / 4 % 2 == 1 then Stale(FromBe(s[q..end]) * 1_000_000_000) else Fresh)
  }

  lemma MetadataParsesExactly(s: bytes, m: Metadata)
    ensures ParseMetadata(s) == Ok(m) <==> MetadataIn(s, m)
    ensures ParseMetadata(s).Err? ==> ParseMetadata(s) == Err(TooShort)
  {
    if s != [] {
      assert s[0] % 2 != 0 <==> s[0] % 2 == 1;
      assert s[0] / 2 % 2 != 0 <==> s[0] / 2 % 2 == 1;
      assert s[0] / 4 % 2 != 0 <==> s[0] / 4 % 2 == 1;
    }
  }

  lemma MetadataLayout(m: Metadata)
    requires GoodMetadata(m)
    ensures var raw := MetadataBytes(m);
      && MetadataIn(raw, m) && raw[0] < 8
      && |raw| == 1 + (if m.contentHash.Some? then 32 else 0) + (if m.sequence.Some? then 8 else 0)
                  + (if m.freshness.Stale? then 8 else 0)
  {
    ReadsMetadata(m);
    MetadataParsesExactly(MetadataBytes(m), m);
  }

  /** A name of `len` octets after its length, which takes `used`. */
  predicate NameIn(s: bytes, n: Name, len: nat, used: nat) {
    ParseVarint(s) == Some((len, used)) && used + len <= |s| && ParseName(s[used..used + len]) == Ok(n)
  }

  /** An Interest stands at the beginning of the octets: the name after its length, the nonce, the lifetime in
      milliseconds, the bits 1 for prefix matching and 2 for a selector, and the selector. */
  ghost predicate InterestIn(s: bytes, i: Interest) {
    exists len: nat, used: nat ::
      && NameIn(s, i.name, len, used)
      && var at := used + len;
        && at + 13 <= |s| && i.nonce == s[at..at + 8] && i.lifetime == FromBe(s[at + 8..at + 12]) * 1_000_000
        && (i.canBePrefix <==> s[at + 12] % 2 == 1)
        && if s[at + 12] / 2 % 2 == 1 then i.selector.Some? && SelectorIn(s[at + 13..], i.selector.value)
           else i.selector == None
  }

  /** Where the name ends. */
  lemma NameEnds(s: bytes, n: Name, len: nat, used: nat)
    ensures NameIn(s, n, len, used) <==> ReadName(s) == Ok((n, used + len)) && ParseVarint(s) == Some((len, used))
    ensures ReadName(s) == Err(InvalidName) <==>
      ParseVarint(s).Some? && var (l, u) := ParseVarint(s).value; u + l <= |s| && ParseName(s[u..u + l]).Err?
  {
  }

  lemma BodySlices(s: bytes, at: nat)
    requires at + 13 <= |s|
    ensures var t := s[at..];
      |t| == |s| - at && t[..8] == s[at..at + 8] && t[8..12] == s[at + 8..at + 12] && t[12] == s[at + 12]
      && t[13..] == s[at + 13..]
  {
  }

  lemma InterestBodyExactly(s: bytes, at: nat, name: Name, i: Interest)
    requires at <= |s|
    ensures ParseInterestBody(name, s[at..]) == Ok(i) <==>
      && at + 13 <= |s| && i.name == name
      && i.nonce == s[at..at + 8] && i.lifetime == FromBe(s[at + 8..at + 12]) * 1_000_000
      && (i.canBePrefix <==> s[at + 12] % 2 == 1)
      && if s[at + 12] / 2 % 2 == 1 then i.selector.Some? && SelectorIn(s[at + 13..], i.selector.value)
         else i.selector == None
    ensures ParseInterestBody(name, s[at..]).Err? ==> ParseInterestBody(name, s[at..]) == Err(TooShort)
  {
    if at + 13 <= |s| {
      BodySlices(s, at);
      assert s[at + 12] % 2 != 0 <==> s[at + 12] % 2 == 1;
      assert s[at + 12] / 2 % 2 == 0 <==> !(s[at + 12] / 2 % 2 == 1);
      SelectorParsesExactly(s[at + 13..], if i.selector.Some? then i.selector.value else Selector(None, [], false));
    }
  }

  /** Which octets parse to which Interest, exactly; a name that does not parse is reported as such and everything else
      as too short. */
  lemma InterestParsesExactly(s: bytes, i: Interest)
    ensures ParseInterest(s) == Ok(i) <==> InterestIn(s, i)
    ensures ParseInterest(s) == Err(InvalidName) <==> ReadName(s) == Err(InvalidName)
  {
    if ReadName(s).Ok? {
      var (name, at) := ReadName(s).value;
      var (len, used) := ParseVarint(s).value;
      InterestBodyExactly(s, at, name, i);
      NameEnds(s, i.name, len, used);
      if ParseInterest(s) == Ok(i) {
        assert NameIn(s, i.name, len, used);
      }
    }
  }

  lemma InterestLayout(i: Interest)
    requires GoodInterest(i)
    ensures var raw, name := InterestBytes(i), NameBytes(i.name);
      var size := VarintBytes(|name|);
      && InterestIn(raw, i)
      && size + name <= raw && |raw| >= |size| + |name| + 13 && raw[|size| + |name| + 12] < 4
      && |raw| == |size| + |name| + 13 + (if i.selector.Some? then |SelectorBytes(i.selector.value)| else 0)
  {
    ReadsInterest(i);
    InterestParsesExactly(InterestBytes(i), i);
    var tail := if i.selector.Some? then SelectorBytes(i.selector.value) else [];
    BodyParts(i.nonce, ToBe(i.lifetime / MILLI, 4), Flags(i.canBePrefix, i.selector.Some?, false), tail);
  }

  /** A Data packet stands at the beginning of the octets: the name after its length, the content after its length in
      four octets, the metadata after its length, and 96 octets of signature. */
  ghost predicate DataIn(s: bytes, d: Data) {
    exists len: nat, used: nat ::
      NameIn(s, d.name, len, used) && ContentIn(s, used + len, d)
  }

  predicate ContentIn(s: bytes, at: nat, d: Data) {
    && at + 4 <= |s| && |d.content| == FromBe(s[at..at + 4])
    && at + 4 + |d.content| <= |s| && d.content == s[at + 4..at + 4 + |d.content|]
    && TailIn(s[at + 4 + |d.content|..], d.metadata, d.signature)
  }

  predicate TailIn(s: bytes, m: Metadata, signature: Signature) {
    && ParseVarint(s).Some?
    && var (len, used) := ParseVarint(s).value;
      used + len + 96 <= |s| && MetadataIn(s[used..used + len], m) && signature == s[used + len..used + len + 96]
  }

  lemma TailExactly(name: Name, content: bytes, s: bytes, d: Data)
    ensures ParseDataTail(name, content, s) == Ok(d) <==>
      d.name == name && d.content == content && TailIn(s, d.metadata, d.signature)
    ensures ParseDataTail(name, content, s).Err? ==> ParseDataTail(name, content, s) == Err(TooShort)
  {
    if ParseVarint(s).Some? {
      var (len, used) := ParseVarint(s).value;
      if used + len <= |s| {
        MetadataParsesExactly(s[used..used + len], d.metadata);
      }
    }
  }

  lemma DataBodyExactly(s: bytes, at: nat, name: Name, d: Data)
    requires at <= |s|
    ensures ParseDataBody(name, s[at..]) == Ok(d) <==> d.name == name && ContentIn(s, at, d)
    ensures ParseDataBody(name, s[at..]).Err? ==> ParseDataBody(name, s[at..]) == Err(TooShort)
  {
    var t := s[at..];
    if at + 4 <= |s| {
      assert t[..4] == s[at..at + 4];
      var len := FromBe(t[..4]);
      if 4 + len <= |t| {
        assert t[4..4 + len] == s[at + 4..at + 4 + len] && t[4 + len..] == s[at + 4 + len..];
        TailExactly(name, t[4..4 + len], t[4 + len..], d);
      }
    }
  }

  /** Which octets parse to which Data packet, exactly. */
  lemma DataParsesExactly(s: bytes, d: Data)
    ensures ParseData(s) == Ok(d) <==> DataIn(s, d)
    ensures ParseData(s) == Err(InvalidName) <==> ReadName(s) == Err(InvalidName)
  {
    if ReadName(s).Ok? {
      var (name, at) := ReadName(s).value;
      var (len, used) := ParseVarint(s).value;
      DataBodyExactly(s, at, name, d);
      NameEnds(s, d.name, len, used);
      if ParseData(s) == Ok(d) {
        assert NameIn(s, d.name, len, used);
      }
    }
  }

  lemma DataLayout(d: Data)
    requires GoodData(d)
    ensures var raw, n, m := DataBytes(d), NameBytes(d.name), MetadataBytes(d.metadata);
      var name, metadata := VarintBytes(|n|) + n, VarintBytes(|m|) + m;
      && DataIn(raw, d)
      && name <= raw && |raw| == |name| + 4 + |d.content| + |metadata| + 96
      && raw[|raw| - 96 - |metadata|..|raw| - 96] == metadata
  {
    DataStands(d);
    DataSizes(d);
  }

  lemma DataSizes(d: Data)
    ensures var raw, name, metadata := DataBytes(d), NameField(d.name), MetadataField(d.metadata);
      && name <= raw && |raw| == |name| + 4 + |d.content| + |metadata| + 96
      && raw[|raw| - 96 - |metadata|..|raw| - 96] == metadata
  {
    LastFields(NameField(d.name), ToBe(|d.content|, 4), d.content, MetadataField(d.metadata), d.signature);
  }

  lemma DataStands(d: Data)
    requires GoodData(d)
    ensures DataIn(DataBytes(d), d)
  {
    ReadsData(d);
    DataParsesExactly(DataBytes(d), d);
  }

  lemma LastFields(a: bytes, b: bytes, c: bytes, m: bytes, z: bytes)
    ensures var s := a + (b + (c + (m + z)));
      a <= s && |s| == |a| + |b| + |c| + |m| + |z| && s[|s| - |z| - |m|..|s| - |z|] == m
  {
  }
}
