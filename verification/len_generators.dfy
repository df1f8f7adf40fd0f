/** `StdinLenGenerator` and `ArgcGenerator` (src/generators/mod.rs): one-round
    generators that offer every length from `min` to `max` in turn. Both hold
    the same three `u32` fields and differ only in the input a length becomes,
    so the counting is modelled once, as `LenSweep`. */
module LenGenerators {
  import opened Machine
  import opened Common

  /** The `len`/`max` counter: `len` is the next length to offer. */
  datatype LenSweep = LenSweep(len: u32, max: u32)

  /** `len += 1` after offering `len` must not overflow. */
  predicate CanTick(s: LenSweep)
  {
    s.len <= s.max ==> s.len < U32_MAX
  }

  /** The counting half of `next`: nothing once `len` has passed `max`,
      otherwise `len` is offered and the counter moves on by one. */
  function Tick(s: LenSweep): (r: (Option<u32>, LenSweep))
    requires CanTick(s)
    ensures r.0.None? <==> s.len > s.max
    ensures r.0.None? ==> r.1 == s
    ensures r.0.Some? ==> r.0.value == s.len && r.1.max == s.max && r.1.len == s.len + 1
  {
    if s.len > s.max then (None, s) else (Some(s.len), s.(len := s.len + 1))
  }

  /** A round can be drained without overflow unless `max` is `u32::MAX`. */
  predicate CanDrain(s: LenSweep)
  {
    s.len > s.max || s.max < U32_MAX
  }

  /** The identifiers a whole round offers, in the order `next` returns them,
      with `build` turning each length into its value. */
  function Drain<T>(s: LenSweep, build: u32 -> T): seq<(u32, T)>
    requires CanDrain(s)
    decreases s.max + 1 - s.len
  {
    match Tick(s)
    case (None, _) => []
    case (Some(n), s') => [(n, build(n))] + Drain(s', build)
  }

  /** A round offers exactly `len, len + 1, ..., max`, each with its built
      value, and then nothing. */
  lemma {:induction false} DrainEnumerates<T>(s: LenSweep, build: u32 -> T)
    requires CanDrain(s)
    ensures |Drain(s, build)| == |Interval(s.len, s.max)|
    ensures forall k :: 0 <= k < |Drain(s, build)| ==>
      Drain(s, build)[k] == (s.len + k, build(s.len + k))
    decreases s.max + 1 - s.len
  {
    if s.len <= s.max {
      var s' := s.(len := s.len + 1);
      DrainEnumerates(s', build);
      var d := Drain(s, build);
      assert d == [(s.len, build(s.len))] + Drain(s', build);
      forall k | 0 < k < |d| ensures d[k] == (s.len + k, build(s.len + k)) {
        assert d[k] == Drain(s', build)[k - 1];
      }
    }
  }

  /** `StdinLenGenerator` or `ArgcGenerator`: the counter plus the length
      chosen in the (single) round. */
  datatype LenGenerator = LenGenerator(sweep: LenSweep, correct: u32)

  /** `new(min, max)`. */
  function NewLenGenerator(min: u32, max: u32): (g: LenGenerator)
    ensures g.sweep == LenSweep(min, max) && g.correct == 0
  {
    LenGenerator(LenSweep(min, max), 0)
  }

  /** The input `StdinLenGenerator` offers for length `sz`: `sz` bytes of
      `'A'` with `stdinlen` set. */
  function StdinLenInput(sz: u32): (r: Input)
    ensures r.stdinlen == sz && r.stdin == Repeat(PAD_A, sz)
    ensures r.argc == 0 && r.argv == [] && r.mem == []
  {
    EmptyInput().(stdinlen := sz, stdin := Repeat(PAD_A, sz))
  }

  /** The input `ArgcGenerator` offers for count `sz`: `sz` empty arguments
      with `argc` set. */
  function ArgcInput(sz: u32): (r: Input)
    ensures r.argc == sz && |r.argv| == sz
    ensures forall i :: 0 <= i < sz ==> r.argv[i] == []
    ensures r.stdinlen == 0 && r.stdin == [] && r.mem == []
  {
    EmptyInput().(argc := sz, argv := Repeat([], sz))
  }

  /** `StdinLenGenerator::next`. */
  function StdinLenNext(g: LenGenerator): (r: (Option<Candidate<u32>>, LenGenerator))
    requires CanTick(g.sweep)
    ensures r.0.None? <==> g.sweep.len > g.sweep.max
    ensures r.0.None? ==> r.1 == g
    ensures r.0.Some? ==>
      && r.0.value.id == g.sweep.len
      && r.0.value.input == StdinLenInput(g.sweep.len)
      && r.1 == g.(sweep := g.sweep.(len := g.sweep.len + 1))
  {
    match Tick(g.sweep)
    case (None, _) => (None, g)
    case (Some(sz), s') => (Some(Candidate(sz, StdinLenInput(sz))), g.(sweep := s'))
  }

  /** `ArgcGenerator::next`. */
  function ArgcNext(g: LenGenerator): (r: (Option<Candidate<u32>>, LenGenerator))
    requires CanTick(g.sweep)
    ensures r.0.None? <==> g.sweep.len > g.sweep.max
    ensures r.0.None? ==> r.1 == g
    ensures r.0.Some? ==>
      && r.0.value.id == g.sweep.len
      && r.0.value.input == ArgcInput(g.sweep.len)
      && r.1 == g.(sweep := g.sweep.(len := g.sweep.len + 1))
  {
    match Tick(g.sweep)
    case (None, _) => (None, g)
    case (Some(sz), s') => (Some(Candidate(sz, ArgcInput(sz))), g.(sweep := s'))
  }

  /** `update` of both generators: record the chosen length and report that
      no further round is needed. */
  function LenUpdate(g: LenGenerator, chosen: u32): (r: (bool, LenGenerator))
    ensures !r.0
    ensures r.1.correct == chosen && r.1.sweep == g.sweep
  {
    (false, g.(correct := chosen))
  }

  /** The whole round of `StdinLenGenerator::new(min, max)`: lengths `min`
      to `max` in order, each as that many `'A'` bytes; the round after the
      update is never asked for. */
  lemma StdinLenRound(min: u32, max: u32, chosen: u32)
    requires max < U32_MAX
    ensures var d := Drain(NewLenGenerator(min, max).sweep, StdinLenInput);
      && |d| == |Interval(min, max)|
      && forall k :: 0 <= k < |d| ==>
           d[k].0 == min + k && d[k].1.stdin == Repeat(PAD_A, min + k) && d[k].1.stdinlen == min + k
    ensures LenUpdate(NewLenGenerator(min, max), chosen) == (false, LenGenerator(LenSweep(min, max), chosen))
  {
    DrainEnumerates(LenSweep(min, max), StdinLenInput);
  }

  /** The whole round of `ArgcGenerator::new(min, max)`: counts `min` to
      `max` in order, each as that many empty arguments. */
  lemma ArgcRound(min: u32, max: u32)
    requires max < U32_MAX
    ensures var d := Drain(NewLenGenerator(min, max).sweep, ArgcInput);
      && |d| == |Interval(min, max)|
      && forall k :: 0 <= k < |d| ==>
           && d[k].0 == min + k && d[k].1.argc == min + k
           && d[k].1.argv == Repeat([], min + k)
  {
    DrainEnumerates(LenSweep(min, max), ArgcInput);
  }

  /** Each `next` step of either length generator agrees with the drained
      round: the first offer is the head of the round and the rest of the
      round is what the advanced generator drains. */
  lemma NextIsDrainHead(g: LenGenerator)
    requires CanDrain(g.sweep) && g.sweep.len <= g.sweep.max
    ensures var (c, g') := StdinLenNext(g);
      && c.Some?
      && Drain(g.sweep, StdinLenInput) == [(c.value.id, c.value.input)] + Drain(g'.sweep, StdinLenInput)
    ensures var (c, g') := ArgcNext(g);
      && c.Some?
      && Drain(g.sweep, ArgcInput) == [(c.value.id, c.value.input)] + Drain(g'.sweep, ArgcInput)
  {
  }
}
