/** Decoders fed one octet at a time. */
module ByteMachines {
  import opened Bytes

  /** The state after the octets, and the outputs on the way. */
  function Run<S, O>(step: (S, byte) -> (S, seq<O>), s: S, input: bytes): (S, seq<O>)
    decreases |input|
  {
    if input == [] then (s, [])
    else
      var (s1, o1) := step(s, input[0]);
      var (s2, o2) := Run(step, s1, input[1..]);
      (s2, o1 + o2)
  }

  lemma {:induction false} RunConcat<S, O>(step: (S, byte) -> (S, seq<O>), s: S, a: bytes, b: bytes)
    ensures Run(step, s, a + b) ==
      (Run(step, Run(step, s, a).0, b).0, Run(step, s, a).1 + Run(step, Run(step, s, a).0, b).1)
    decreases |a|
  {
    if a == [] {
      assert a + b == b;
      assert [] + Run(step, s, b).1 == Run(step, s, b).1;
    } else {
      var (s1, o1) := step(s, a[0]);
      RunConcat(step, s1, a[1..], b);
      assert (a + b)[0] == a[0] && (a + b)[1..] == a[1..] + b;
      var (s2, o2) := Run(step, s1, a[1..]);
      assert o1 + (o2 + Run(step, s2, b).1) == o1 + o2 + Run(step, s2, b).1;
    }
  }

  lemma RunOne<S, O>(step: (S, byte) -> (S, seq<O>), s: S, b: byte)
    ensures Run(step, s, [b]) == step(s, b)
  {
    var (s1, o1) := step(s, b);
    assert [b][1..] == [];
    assert Run(step, s1, []) == (s1, []);
    assert o1 + [] == o1;
  }

  /** The first octet, then the rest. */
  lemma RunCons<S, O>(step: (S, byte) -> (S, seq<O>), s: S, b: byte, rest: bytes)
    ensures Run(step, s, [b] + rest) ==
      (Run(step, step(s, b).0, rest).0, step(s, b).1 + Run(step, step(s, b).0, rest).1)
  {
    assert ([b] + rest)[1..] == rest;
  }

  /** An octet without output can be taken off the front. */
  lemma RunSilent<S, O>(step: (S, byte) -> (S, seq<O>), s: S, b: byte, rest: bytes, s': S)
    requires step(s, b) == (s', [])
    ensures Run(step, s, [b] + rest) == Run(step, s', rest)
  {
    RunCons(step, s, b, rest);
    assert [] + Run(step, s', rest).1 == Run(step, s', rest).1;
  }

  /** So can octets without output. */
  lemma RunPast<S, O>(step: (S, byte) -> (S, seq<O>), s: S, a: bytes, b: bytes, s': S)
    requires Run(step, s, a) == (s', [])
    ensures Run(step, s, a + b) == Run(step, s', b)
  {
    RunConcat(step, s, a, b);
    assert [] + Run(step, s', b).1 == Run(step, s', b).1;
  }

  /** A machine that stays put without output on every octet of `s` ignores `s`. */
  lemma {:induction false} RunIgnores<S, O>(step: (S, byte) -> (S, seq<O>), s: S, input: bytes)
    requires forall b :: b in input ==> step(s, b) == (s, [])
    ensures Run(step, s, input) == (s, [])
    decreases |input|
  {
    if input != [] {
      assert input == [input[0]] + input[1..];
      RunSilent(step, s, input[0], input[1..], s);
      RunIgnores(step, s, input[1..]);
    }
  }

  lemma MoveHead(buffer: bytes, data: bytes)
    requires data != []
    ensures buffer + [data[0]] + data[1..] == buffer + data
  {
    assert [data[0]] + data[1..] == data;
  }
}
