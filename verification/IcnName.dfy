/** ICN names and varints (crates/icn/src/name.rs and the varints of crates/icn/src/interest.rs). */
module IcnNames {
  import opened Bytes

  type Digest = d: bytes | |d| == 32 witness seq(32, _ => 0)

  /** Equality of names compares the content hash too. */
  datatype Name = Name(components: seq<bytes>, contentHash: Option<Digest>)

  datatype NameError = Empty | BufferTooShort(expected: nat, got: nat)

  const MAX_COMPONENTS := 32
  const HASH_DISCRIMINATOR: byte := 0xFF

  /** The content hash plays no part in prefix matching. */
  predicate StartsWith(n: Name, prefix: Name) { prefix.components <= n.components }

  lemma StartsWithExactly(n: Name, prefix: Name)
    ensures StartsWith(n, prefix) <==>
      && |prefix.components| <= |n.components|
      && forall i :: 0 <= i < |prefix.components| ==> n.components[i] == prefix.components[i]
  {
  }

  predicate HasProducer(n: Name) { |n.components| > 0 && |n.components[0]| == 32 }

  // ---------- Encoding ----------

  function ComponentsBytes(cs: seq<bytes>): bytes {
    if cs == [] then [] else [(|cs[0]| % 256) as byte] + cs[0] + ComponentsBytes(cs[1..])
  }

  function HashBytes(h: Option<Digest>): bytes { if h.Some? then [HASH_DISCRIMINATOR] + h.value else [] }

  function NameBytes(n: Name): bytes {
    [(|n.components| % 256) as byte] + ComponentsBytes(n.components) + HashBytes(n.contentHash)
  }

  lemma {:induction false} ComponentsSnoc(cs: seq<bytes>, c: bytes)
    ensures ComponentsBytes(cs + [c]) == ComponentsBytes(cs) + ([(|c| % 256) as byte] + c)
  {
    var field := [(|c| % 256) as byte] + c;
    if cs == [] {
      assert cs + [c] == [c];
      assert ComponentsBytes([c][1..]) == [];
    } else {
      ComponentsSnoc(cs[1..], c);
      assert (cs + [c])[1..] == cs[1..] + [c] && (cs + [c])[0] == cs[0];
      var head := [(|cs[0]| % 256) as byte] + cs[0];
      assert head + (ComponentsBytes(cs[1..]) + field) == (head + ComponentsBytes(cs[1..])) + field;
    }
  }

  method EncodeName(n: Name) returns (buf: bytes)
    ensures buf == NameBytes(n)
  {
    buf := [(|n.components| % 256) as byte];
    for i := 0 to |n.components|
      invariant buf == [(|n.components| % 256) as byte] + ComponentsBytes(n.components[..i])
    {
      var comp := n.components[i];
      ComponentsSnoc(n.components[..i], comp);
      assert n.components[..i + 1] == n.components[..i] + [comp];
      buf := buf + [(|comp| % 256) as byte] + comp;
    }
    assert n.components[..|n.components|] == n.components;
    if n.contentHash.Some? {
      buf := buf + [HASH_DISCRIMINATOR] + n.contentHash.value;
    }
  }

  // ---------- Decoding ----------

  /** `count` components from `pos` on, and the position after them. */
  function ReadComponents(s: bytes, pos: nat, count: nat): Result<(seq<bytes>, nat), NameError>
    decreases count
  {
    if count == 0 then Ok(([], pos))
    else if pos >= |s| then Err(BufferTooShort(pos + 1, |s|))
    else
      var next := pos + 1 + s[pos] as int;
      if next > |s| then Err(BufferTooShort(next, |s|))
      else
        var rest := ReadComponents(s, next, count - 1);
        if rest.Ok? then Ok(([s[pos + 1..next]] + rest.value.0, rest.value.1)) else rest
  }

  function ReadHash(s: bytes, pos: nat): Result<Option<Digest>, NameError> {
    if pos < |s| && s[pos] == HASH_DISCRIMINATOR then
      if pos + 33 > |s| then Err(BufferTooShort(pos + 33, |s|)) else Ok(Some(s[pos + 1..pos + 33]))
    else Ok(None)
  }

  function ParseName(s: bytes): Result<Name, NameError> {
    if s == [] || s[0] == 0 || s[0] as int > MAX_COMPONENTS then Err(Empty)
    else
      match ReadComponents(s, 1, s[0] as int)
      case Err(e) => Err(e)
      case Ok((cs, end)) =>
        match ReadHash(s, end)
        case Err(e) => Err(e)
        case Ok(h) => Ok(Name(cs, h))
  }

  method DecodeName(s: bytes) returns (r: Result<Name, NameError>)
    ensures r == ParseName(s)
  {
    if s == [] {
      return Err(Empty);
    }
    var count := s[0] as int;
    if count == 0 || count > MAX_COMPONENTS {
      return Err(Empty);
    }
    var pos: nat := 1;
    var components: seq<bytes> := [];
    ReadNothing(s, pos, count);
    for i := 0 to count
      invariant match ReadComponents(s, pos, count - i)
        case Ok((cs, end)) => ReadComponents(s, 1, count) == Ok((components + cs, end))
        case Err(e) => ReadComponents(s, 1, count) == Err(e)
    {
      if pos >= |s| {
        return Err(BufferTooShort(pos + 1, |s|));
      }
      var len := s[pos] as int;
      if pos + 1 + len > |s| {
        return Err(BufferTooShort(pos + 1 + len, |s|));
      }
      ReadStep(s, pos, count - i, components);
      components := components + [s[pos + 1..pos + 1 + len]];
      pos := pos + 1 + len;
    }
    assert components + [] == components;
    match ReadHash(s, pos) {
      case Err(e) => return Err(e);
      case Ok(h) => return Ok(Name(components, h));
    }
  }

  lemma ReadNothing(s: bytes, pos: nat, count: nat)
    ensures ReadComponents(s, pos, count).Ok? ==>
      [] + ReadComponents(s, pos, count).value.0 == ReadComponents(s, pos, count).value.0
  {
  }

  lemma ReadStep(s: bytes, pos: nat, count: nat, done: seq<bytes>)
    requires count > 0 && pos < |s| && pos + 1 + s[pos] as int <= |s|
    ensures var next := pos + 1 + s[pos] as int;
      match ReadComponents(s, pos, count)
      case Ok((cs, end)) =>
        var rest := ReadComponents(s, next, count - 1);
        rest.Ok? && rest.value.1 == end && done + cs == done + [s[pos + 1..next]] + rest.value.0
      case Err(e) => ReadComponents(s, next, count - 1) == Err(e)
  {
  }

  // ---------- Round trip ----------

  predicate WellFormed(n: Name) {
    1 <= |n.components| <= MAX_COMPONENTS && forall i :: 0 <= i < |n.components| ==> |n.components[i]| <= 255
  }

  lemma {:induction false} ReadsComponents(s: bytes, pos: nat, cs: seq<bytes>)
    requires forall i :: 0 <= i < |cs| ==> |cs[i]| <= 255
    requires pos + |ComponentsBytes(cs)| <= |s| && s[pos..pos + |ComponentsBytes(cs)|] == ComponentsBytes(cs)
    ensures ReadComponents(s, pos, |cs|) == Ok((cs, pos + |ComponentsBytes(cs)|))
    decreases |cs|
  {
    if cs != [] {
      SliceParts(s, pos, |cs[0]| as byte, cs[0], ComponentsBytes(cs[1..]));
      ReadsComponents(s, pos + 1 + |cs[0]|, cs[1..]);
      ReadsHead(s, pos, pos + 1 + |cs[0]|, |cs| - 1, cs[1..], pos + |ComponentsBytes(cs)|);
      Rejoined(cs);
    }
  }

  lemma SliceParts(s: bytes, pos: nat, b: byte, c: bytes, tail: bytes)
    requires pos + 1 + |c| + |tail| <= |s| && s[pos..pos + 1 + |c| + |tail|] == [b] + c + tail
    ensures s[pos] == b && s[pos + 1..pos + 1 + |c|] == c && s[pos + 1 + |c|..pos + 1 + |c| + |tail|] == tail
  {
    var end := pos + 1 + |c| + |tail|;
    var t := s[pos..end];
    assert t[0] == b && t[1..1 + |c|] == c && t[1 + |c|..1 + |c| + |tail|] == tail;
    SubSlice(s, pos, end, 1, 1 + |c|);
    SubSlice(s, pos, end, 1 + |c|, 1 + |c| + |tail|);
  }

  lemma ReadsHead(s: bytes, pos: nat, next: nat, count: nat, rest: seq<bytes>, end: nat)
    requires pos < |s| && next == pos + 1 + s[pos] as int <= |s|
    requires ReadComponents(s, next, count) == Ok((rest, end))
    ensures ReadComponents(s, pos, count + 1) == Ok(([s[pos + 1..next]] + rest, end))
  {
  }

  lemma Rejoined(cs: seq<bytes>)
    requires cs != []
    ensures [cs[0]] + cs[1..] == cs
  {
  }

  lemma {:induction false} ReadComponentsShape(s: bytes, pos: nat, count: nat)
    requires ReadComponents(s, pos, count).Ok?
    ensures |ReadComponents(s, pos, count).value.0| == count
    ensures forall i :: 0 <= i < count ==> |ReadComponents(s, pos, count).value.0[i]| <= 255
    decreases count
  {
    if count > 0 {
      ReadComponentsShape(s, pos + 1 + s[pos] as int, count - 1);
    }
  }

  lemma ParsedIsWellFormed(s: bytes)
    requires ParseName(s).Ok?
    ensures WellFormed(ParseName(s).value)
  {
    ReadComponentsShape(s, 1, s[0] as int);
  }

  /** The octets that length-prefixed components take. */
  function FieldsSize(cs: seq<bytes>): nat {
    if cs == [] then 0 else FieldsSize(cs[..|cs| - 1]) + 1 + |cs[|cs| - 1]|
  }

  lemma {:induction false} FieldAt(cs: seq<bytes>, i: nat)
    requires i < |cs| && forall k :: 0 <= k < |cs| ==> |cs[k]| <= 255
    ensures var raw, at := ComponentsBytes(cs), FieldsSize(cs[..i]);
      && |raw| == FieldsSize(cs) && at + 1 + |cs[i]| <= |raw|
      && raw[at] as int == |cs[i]| && raw[at + 1..at + 1 + |cs[i]|] == cs[i]
  {
    var last := |cs| - 1;
    var init, c := cs[..last], cs[last];
    ComponentsSnoc(init, c);
    assert cs == init + [c];
    FieldsTake(init);
    if i < last {
      FieldAt(init, i);
      assert init[..i] == cs[..i];
      var at := FieldsSize(cs[..i]);
      PrefixSlice(ComponentsBytes(init), ComponentsBytes(cs), at + 1, at + 1 + |cs[i]|);
    } else {
      assert ComponentsBytes(cs)[|ComponentsBytes(init)| + 1..] == c;
    }
  }

  lemma {:induction false} FieldsTake(cs: seq<bytes>)
    ensures |ComponentsBytes(cs)| == FieldsSize(cs)
  {
    if cs != [] {
      var init, c := cs[..|cs| - 1], cs[|cs| - 1];
      FieldsTake(init);
      ComponentsSnoc(init, c);
      assert cs == init + [c];
    }
  }

  /** Where each part of a name stands on the wire: the number of components, each component after its length, and the
      content hash after the octet 0xFF. */
  lemma NameLayout(n: Name, i: nat)
    requires WellFormed(n) && i < |n.components|
    ensures var raw, at := NameBytes(n), 1 + FieldsSize(n.components[..i]);
      && raw[0] as int == |n.components|
      && |raw| == 1 + FieldsSize(n.components) + (if n.contentHash.Some? then 33 else 0)
      && at + 1 + |n.components[i]| <= |raw|
      && raw[at] as int == |n.components[i]| && raw[at + 1..at + 1 + |n.components[i]|] == n.components[i]
      && (n.contentHash.Some? ==> raw[|raw| - 33] == 0xFF && raw[|raw| - 32..] == n.contentHash.value)
  {
    var fields, at, c := ComponentsBytes(n.components), FieldsSize(n.components[..i]), n.components[i];
    FieldAt(n.components, i);
    assert NameBytes(n)[1..1 + |fields|] == fields;
    SubSlice(NameBytes(n), 1, 1 + |fields|, at + 1, at + 1 + |c|);
  }

  lemma {:induction false} ReadsBack(s: bytes, pos: nat, count: nat)
    requires pos <= |s| && ReadComponents(s, pos, count).Ok?
    ensures var (cs, end) := ReadComponents(s, pos, count).value;
      pos <= end <= |s| && s[pos..end] == ComponentsBytes(cs)
    decreases count
  {
    if count > 0 {
      var next := pos + 1 + s[pos] as int;
      ReadsBack(s, next, count - 1);
      var (rest, end) := ReadComponents(s, next, count - 1).value;
      var cs := [s[pos + 1..next]] + rest;
      assert cs[1..] == rest;
      assert s[pos..end] == [s[pos]] + s[pos + 1..next] + s[next..end];
    }
  }

  /** Which octets parse to which name, exactly: those that begin with the name's encoding, and do not go on with 0xFF
      if the name has no content hash. */
  lemma NameParsesExactly(s: bytes, n: Name)
    ensures ParseName(s) == Ok(n) <==>
      && WellFormed(n) && NameBytes(n) <= s
      && (n.contentHash.None? && |NameBytes(n)| < |s| ==> s[|NameBytes(n)|] != 0xFF)
    ensures ParseName(s) == Err(Empty) <==> s == [] || s[0] == 0 || s[0] > 32
    ensures ParseName(s).Err? && ParseName(s).error.BufferTooShort? ==>
      ParseName(s).error.got == |s| < ParseName(s).error.expected
  {
    if ParseName(s) == Ok(n) {
      ParsedIsPrefix(s);
    }
    if WellFormed(n) && NameBytes(n) <= s
       && (n.contentHash.None? && |NameBytes(n)| < |s| ==> s[|NameBytes(n)|] != 0xFF) {
      ParsesPrefix(s, n);
    }
    if s != [] {
      ReadErrors(s, 1, s[0] as int);
    }
  }

  /** A name survives the wire exactly when it has 1 to 32 components of at most 255 octets each. */
  lemma NameRoundTrip(n: Name)
    ensures ParseName(NameBytes(n)) == Ok(n) <==> WellFormed(n)
  {
    NameParsesExactly(NameBytes(n), n);
  }

  lemma ParsedIsPrefix(s: bytes)
    requires ParseName(s).Ok?
    ensures var n := ParseName(s).value;
      && WellFormed(n) && NameBytes(n) <= s
      && (n.contentHash.None? && |NameBytes(n)| < |s| ==> s[|NameBytes(n)|] != 0xFF)
  {
    ParsedIsWellFormed(s);
    ReadsBack(s, 1, s[0] as int);
    ReadComponentsShape(s, 1, s[0] as int);
    var (cs, end) := ReadComponents(s, 1, s[0] as int).value;
    var h := ReadHash(s, end).value;
    assert h.Some? ==> s[end..end + 33] == [0xFF] + h.value;
    Assembled(s, end, Name(cs, h));
  }

  /** The parts of a name one after another. */
  lemma Assembled(s: bytes, end: nat, n: Name)
    requires 1 <= end <= |s| && |n.components| < 256 && s[0] as int == |n.components|
    requires s[1..end] == ComponentsBytes(n.components)
    requires n.contentHash.Some? ==> end + 33 <= |s| && s[end..end + 33] == [0xFF] + n.contentHash.value
    ensures NameBytes(n) == if n.contentHash.Some? then s[..end + 33] else s[..end]
  {
    var fields := ComponentsBytes(n.components);
    assert s[..end] == [s[0]] + s[1..end];
    if n.contentHash.Some? {
      assert s[..end + 33] == s[..end] + s[end..end + 33];
    }
  }

  lemma ParsesPrefix(s: bytes, n: Name)
    requires WellFormed(n) && NameBytes(n) <= s
    requires n.contentHash.None? && |NameBytes(n)| < |s| ==> s[|NameBytes(n)|] != 0xFF
    ensures ParseName(s) == Ok(n)
  {
    var end := 1 + |ComponentsBytes(n.components)|;
    Disassembled(s, n);
    ReadsComponents(s, 1, n.components);
    assert ReadHash(s, end) == Ok(n.contentHash);
  }

  lemma Disassembled(s: bytes, n: Name)
    requires NameBytes(n) <= s && |n.components| < 256
    ensures var end := 1 + |ComponentsBytes(n.components)|;
      && end <= |s| && s[0] as int == |n.components| && s[1..end] == ComponentsBytes(n.components)
      && (n.contentHash.Some? ==>
            end + 33 <= |s| && s[end] == 0xFF && s[end + 1..end + 33] == n.contentHash.value)
      && (n.contentHash.None? ==> end == |NameBytes(n)|)
  {
    var fields, raw := ComponentsBytes(n.components), NameBytes(n);
    var end := 1 + |fields|;
    assert s == raw + s[|raw|..];
    assert raw == [|n.components| as byte] + fields + HashBytes(n.contentHash);
    assert s[1..end] == fields;
    if n.contentHash.Some? {
      assert raw[end..] == [0xFF] + n.contentHash.value;
      assert s[end + 1..end + 33] == raw[end + 1..end + 33] == raw[end..][1..33];
    }
  }

  lemma {:induction false} ReadErrors(s: bytes, pos: nat, count: nat)
    ensures var r := ReadComponents(s, pos, count);
      r.Err? ==> r.error.BufferTooShort? && r.error.got == |s| < r.error.expected
    decreases count
  {
    if count > 0 && pos < |s| {
      ReadErrors(s, pos + 1 + s[pos] as int, count - 1);
    }
  }

  // ---------- Varints ----------

  const U64 := 0x1_0000_0000_0000_0000

  function VarintBytes(v: nat): bytes {
    if v >= 128 then [(v % 128 + 128) as byte] + VarintBytes(v / 128) else [v as byte]
  }

  method WriteVarint(v: nat) returns (buf: bytes)
    ensures buf == VarintBytes(v)
  {
    buf := [];
    var value := v;
    while value >= 128
      invariant buf + VarintBytes(value) == VarintBytes(v)
      decreases value
    {
      assert buf + ([(value % 128 + 128) as byte] + VarintBytes(value / 128)) ==
        buf + [(value % 128 + 128) as byte] + VarintBytes(value / 128);
      buf := buf + [(value % 128 + 128) as byte];
      value := value / 128;
    }
    buf := buf + [value as byte];
  }

  /** The weight of the k-th group of seven bits. */
  function Weight(k: nat): (r: nat)
    ensures r > 0
  {
    if k == 0 then 1 else 128 * Weight(k - 1)
  }

  /** Accumulate seven bits per octet, `k` octets having been read; the accumulator is a 64-bit word and the shift
      of `7 * k` bits may not reach 64. */
  function ReadGroups(s: bytes, i: nat, k: nat, value: nat): Option<(nat, nat)>
    requires i <= |s|
    decreases |s| - i
  {
    if i == |s| then None
    else
      var v := Accumulate(value, s[i], k);
      if s[i] < 128 then Some((v, i + 1))
      else if 7 * (k + 1) >= 64 then None
      else ReadGroups(s, i + 1, k + 1, v)
  }

  function Accumulate(value: nat, b: byte, k: nat): nat { (value + (b as int % 128) * Weight(k)) % U64 }

  function ParseVarint(s: bytes): Option<(nat, nat)> { ReadGroups(s, 0, 0, 0) }

  method ReadVarint(s: bytes) returns (r: Option<(nat, nat)>)
    ensures r == ParseVarint(s)
  {
    var value: nat, k: nat := 0, 0;
    for i := 0 to |s|
      invariant ReadGroups(s, i, k, value) == ParseVarint(s)
    {
      value := Accumulate(value, s[i], k);
      if s[i] < 128 {
        return Some((value, i + 1));
      }
      k := k + 1;
      if 7 * k >= 64 {
        return None;
      }
    }
    return None;
  }

  /** Octets as groups of seven bits, the least significant first. */
  function GroupsValue(s: bytes): nat {
    if s == [] then 0 else s[0] as int % 128 + 128 * GroupsValue(s[1..])
  }

  /** A value is written in groups of seven bits, as few as it takes, every octet but the last with its high bit set. */
  lemma {:induction false} VarintLayout(v: nat)
    ensures var s := VarintBytes(v);
      && GroupsValue(s) == v && s != [] && s[|s| - 1] < 128
      && (forall j :: 0 <= j < |s| - 1 ==> s[j] >= 128)
      && (|s| > 1 ==> s[|s| - 1] > 0)
    decreases v
  {
    var s := VarintBytes(v);
    if v >= 128 {
      VarintLayout(v / 128);
      assert s[1..] == VarintBytes(v / 128);
    } else {
      assert s[1..] == [];
    }
  }

  /** Octets from `i` up to `end` are one varint: only the last has its high bit clear. */
  predicate OneVarint(s: bytes, i: nat, end: nat) {
    i < end <= |s| && s[end - 1] < 128 && forall j :: i <= j < end - 1 ==> s[j] >= 128
  }

  lemma WrappedSum(a: nat, b: nat)
    ensures (a % U64 + b) % U64 == (a + b) % U64
  {
  }

  /** Taking in the first group. */
  lemma FirstGroup(s: bytes, i: nat, end: nat, k: nat, value: nat)
    requires i < end <= |s|
    ensures (value + Weight(k) * GroupsValue(s[i..end])) % U64 ==
      (Accumulate(value, s[i], k) + Weight(k + 1) * GroupsValue(s[i + 1..end])) % U64
  {
    var low, g := s[i] as int % 128, GroupsValue(s[i + 1..end]);
    assert s[i..end][1..] == s[i + 1..end];
    assert Weight(k) * (low + 128 * g) == low * Weight(k) + Weight(k + 1) * g;
    WrappedSum(value + low * Weight(k), Weight(k + 1) * g);
  }

  lemma {:induction false} GroupsEnd(s: bytes, i: nat, k: nat, value: nat, end: nat)
    requires i <= |s| && k <= 9
    ensures var r := ReadGroups(s, i, k, value);
      r.Some? && r.value.1 == end <==> OneVarint(s, i, end) && k + (end - i) <= 10
    decreases |s| - i
  {
    if i < |s| {
      if s[i] < 128 {
        assert OneVarint(s, i, end) <==> end == i + 1;
      } else {
        assert OneVarint(s, i, end) <==> OneVarint(s, i + 1, end);
        if k < 9 {
          GroupsEnd(s, i + 1, k + 1, Accumulate(value, s[i], k), end);
        }
      }
    }
  }

  lemma {:induction false} GroupsSum(s: bytes, i: nat, k: nat, value: nat, end: nat)
    requires OneVarint(s, i, end) && k + (end - i) <= 10 && value < U64
    ensures ReadGroups(s, i, k, value).Some?
    ensures ReadGroups(s, i, k, value).value.0 == (value + Weight(k) * GroupsValue(s[i..end])) % U64
    decreases end - i
  {
    var next := Accumulate(value, s[i], k);
    FirstGroup(s, i, end, k, value);
    if s[i] < 128 {
      assert end == i + 1;
      assert s[i + 1..end] == [] && GroupsValue([]) == 0;
    } else {
      GroupsSum(s, i + 1, k + 1, next, end);
    }
  }

  /** Which octets read as which value, exactly: at most ten octets, of which only the last has its high bit clear, and
      the value of their groups cut to 64 bits. */
  lemma VarintParsesExactly(s: bytes, v: nat, end: nat)
    ensures ParseVarint(s) == Some((v, end)) <==> OneVarint(s, 0, end) && end <= 10 && v == GroupsValue(s[..end]) % U64
  {
    GroupsEnd(s, 0, 0, 0, end);
    if OneVarint(s, 0, end) && end <= 10 {
      GroupsSum(s, 0, 0, 0, end);
      assert s[0..end] == s[..end];
    }
  }

  lemma {:induction false} VarintSize(v: nat, k: nat)
    requires k > 0 && v < Weight(k)
    ensures |VarintBytes(v)| <= k
    decreases k
  {
    if v >= 128 {
      assert Weight(0) == 1 && Weight(1) == 128 * Weight(0);
      VarintSize(v / 128, k - 1);
    }
  }

  lemma TenGroups(v: nat)
    requires v < U64
    ensures |VarintBytes(v)| <= 10
  {
    assert Weight(2) == 128 * Weight(1) == 128 * 128 * Weight(0);
    assert Weight(4) == 128 * Weight(3) == 128 * 128 * Weight(2);
    assert Weight(6) == 128 * Weight(5) == 128 * 128 * Weight(4);
    assert Weight(8) == 128 * Weight(7) == 128 * 128 * Weight(6);
    assert Weight(10) == 128 * Weight(9) == 128 * 128 * Weight(8);
    VarintSize(v, 10);
  }

  /** Every 64-bit value survives, whatever follows it, and the length read is the length written. */
  lemma VarintRoundTrip(v: nat, rest: bytes)
    requires v < U64
    ensures ParseVarint(VarintBytes(v) + rest) == Some((v, |VarintBytes(v)|))
  {
    var s, end := VarintBytes(v) + rest, |VarintBytes(v)|;
    TenGroups(v);
    VarintLayout(v);
    assert s[..end] == VarintBytes(v);
    VarintParsesExactly(s, v, end);
  }
}
