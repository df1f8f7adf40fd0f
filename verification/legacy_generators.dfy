/** The older generator module (src/generators.rs): an `Input` of only
    arguments and standard input, a `StdinLenGenerator` and a
    `StdinCharGenerator` that always sweeps the bytes from 0. */
module LegacyGenerators {
  import opened Machine
  import Common
  import LenGenerators
  import StdinGenerator

  /** The older `Input`: arguments and standard input only. */
  datatype LegacyInput = LegacyInput(argv: seq<bytes>, stdin: bytes)

  /** `Input::new(argv, stdin)`. */
  function NewLegacyInput(argv: seq<bytes>, stdin: bytes): (r: LegacyInput)
    ensures r.argv == argv && r.stdin == stdin
  {
    LegacyInput(argv, stdin)
  }

  /** The input the older `StdinLenGenerator` offers for length `sz`: no
      arguments and `sz` bytes of `'A'`. */
  function LegacyStdinLenInput(sz: u32): (r: LegacyInput)
    ensures r.argv == [] && r.stdin == Repeat(PAD_A, sz)
  {
    NewLegacyInput([], Repeat(PAD_A, sz))
  }

  /** The older `StdinLenGenerator::next`: the same `len`/`max` counter as the
      current one, with the older input shape. */
  function LegacyStdinLenNext(g: LenGenerators.LenGenerator): (r: (Option<(u32, LegacyInput)>, LenGenerators.LenGenerator))
    requires LenGenerators.CanTick(g.sweep)
    ensures r.0.None? <==> g.sweep.len > g.sweep.max
    ensures r.0.None? ==> r.1 == g
    ensures r.0.Some? ==>
      && r.0.value.0 == g.sweep.len
      && r.0.value.1.argv == [] && |r.0.value.1.stdin| == g.sweep.len
      && (forall i :: 0 <= i < |r.0.value.1.stdin| ==> r.0.value.1.stdin[i] == PAD_A)
      && r.1 == g.(sweep := g.sweep.(len := g.sweep.len + 1))
  {
    match LenGenerators.Tick(g.sweep)
    case (None, _) => (None, g)
    case (Some(sz), s') => (Some((sz, LegacyStdinLenInput(sz))), g.(sweep := s'))
  }

  /** The whole round of the older `StdinLenGenerator::new(min, max)`:
      `min` to `max` in order, each as that many `'A'` bytes, and `update`
      records the choice and ends the search. */
  lemma LegacyStdinLenRound(min: u32, max: u32, chosen: u32)
    requires max < U32_MAX
    ensures var d := LenGenerators.Drain(LenGenerators.LenSweep(min, max), LegacyStdinLenInput);
      && |d| == |Interval(min, max)|
      && forall k :: 0 <= k < |d| ==> d[k].0 == min + k && d[k].1 == LegacyInput([], Repeat(PAD_A, min + k))
    ensures LenGenerators.LenUpdate(LenGenerators.NewLenGenerator(min, max), chosen).1.correct == chosen
    ensures !LenGenerators.LenUpdate(LenGenerators.NewLenGenerator(min, max), chosen).0
  {
    LenGenerators.DrainEnumerates(LenGenerators.LenSweep(min, max), LegacyStdinLenInput);
  }

  /** The older `StdinCharGenerator`: no `min`/`max`, bytes swept from 0. */
  datatype LegacyStdinChar = LegacyStdinChar(
    padlen: u32,
    padchr: u8,
    prefix: bytes,
    suffix: bytes,
    idx: u32,
    cur: u16,
    correct: bytes)

  /** The older `StdinCharGenerator::new(padlen)`. */
  function NewLegacyStdinChar(padlen: u32): (g: LegacyStdinChar)
    ensures g.padlen == padlen && g.padchr == PAD_A
    ensures g.idx == 0 && g.cur == 0
    ensures g.prefix == [] && g.suffix == [] && g.correct == []
  {
    LegacyStdinChar(padlen, PAD_A, [], [], 0, 0, [])
  }

  /** `set_padchr`. */
  function LegacySetPadchr(g: LegacyStdinChar, padchr: u8): (g': LegacyStdinChar)
    ensures g'.padchr == padchr && g' == g.(padchr := g'.padchr)
    ensures Current(g') == StdinGenerator.SetPadchr(Current(g), padchr)
  {
    g.(padchr := padchr)
  }

  /** `set_prefix`. */
  function LegacySetPrefix(g: LegacyStdinChar, prefix: bytes): (g': LegacyStdinChar)
    ensures g'.prefix == prefix && g' == g.(prefix := g'.prefix)
    ensures Current(g') == StdinGenerator.SetPrefix(Current(g), prefix)
  {
    g.(prefix := prefix)
  }

  /** `set_suffix`. */
  function LegacySetSuffix(g: LegacyStdinChar, suffix: bytes): (g': LegacyStdinChar)
    ensures g'.suffix == suffix && g' == g.(suffix := g'.suffix)
    ensures Current(g') == StdinGenerator.SetSuffix(Current(g), suffix)
  {
    g.(suffix := suffix)
  }

  /** The older `next`: nothing once every position is solved or `cur` has
      passed 255; otherwise byte `cur` inside a `padlen`-byte input. */
  function LegacyStdinCharNext(g: LegacyStdinChar): (r: (Option<(u8, LegacyInput)>, LegacyStdinChar))
    ensures r.0.None? <==> g.idx >= g.padlen || g.cur > 255
    ensures r.0.None? ==> r.1 == g
    ensures r.0.Some? ==>
      && r.0.value.0 == g.cur
      && r.0.value.1.argv == []
      && |r.0.value.1.stdin| == g.padlen
      && (|g.prefix| + |g.correct| < g.padlen ==> r.0.value.1.stdin[|g.prefix| + |g.correct|] == r.0.value.0)
    ensures r.0.Some? ==> r.1 == g.(cur := g.cur + 1)
  {
    if g.idx >= g.padlen || g.cur > 255 then (None, g)
    else
      var chr: u8 := g.cur;
      var inp := Fit(g.prefix + g.correct + [chr] + g.suffix, g.padlen, g.padchr);
      (Some((chr, NewLegacyInput([], inp))), g.(cur := g.cur + 1))
  }

  /** The older `update`: append the chosen byte, move on, restart at 0. */
  function LegacyStdinCharUpdate(g: LegacyStdinChar, chosen: u8): (r: (bool, LegacyStdinChar))
    requires g.idx < U32_MAX
    ensures r.1 == g.(correct := g.correct + [chosen], idx := g.idx + 1, cur := 0)
    ensures r.0 <==> g.idx + 1 < g.padlen
  {
    var g' := g.(correct := g.correct + [chosen], idx := g.idx + 1, cur := 0);
    (g'.idx < g'.padlen, g')
  }

  /** The current generator with the bytes swept over all of 0..255 that
      this older one corresponds to. */
  function Current(g: LegacyStdinChar): (c: StdinGenerator.StdinCharGenerator)
    ensures c.min == 0 && c.max == 255
  {
    StdinGenerator.StdinCharGenerator(g.padlen, g.padchr, g.prefix, g.suffix, g.idx, g.cur, g.correct, 0, 255)
  }

  /** The older generator behaves as the current one with `min = 0` and
      `max = 255`: `new` agrees with `new` of an input whose solved length is
      `padlen`, and `next` and `update` make the same offers and the same
      moves, up to the shape of `Input`. */
  lemma LegacyIsCurrentFullRange(g: LegacyStdinChar, chosen: u8, input: Common.Input)
    requires input.stdinlen == g.padlen
    ensures Current(NewLegacyStdinChar(g.padlen)) == StdinGenerator.NewStdinChar(input, 0, 255)
    ensures var (l, l') := LegacyStdinCharNext(g);
      var (c, c') := StdinGenerator.StdinCharNext(Current(g));
      && (l.None? <==> c.None?)
      && Current(l') == c'
      && (l.Some? ==> l.value.0 == c.value.id && l.value.1.stdin == c.value.input.stdin && l.value.1.argv == [])
    ensures g.idx < U32_MAX ==>
      var (lb, l') := LegacyStdinCharUpdate(g, chosen);
      var (cb, c') := StdinGenerator.StdinCharUpdate(Current(g), chosen);
      lb == cb && Current(l') == c'
  {
  }

  /** Every round of the older generator: the bytes `cur`, ..., 255 in
      order, each in a `padlen`-byte input, and so at most 256 candidates. */
  function LegacyRound(g: LegacyStdinChar): seq<(u8, LegacyInput)>
    decreases 256 - g.cur
  {
    match LegacyStdinCharNext(g)
    case (None, _) => []
    case (Some(c), g') => [c] + LegacyRound(g')
  }

  lemma {:induction false} LegacyRoundOffers(g: LegacyStdinChar)
    ensures g.idx >= g.padlen ==> LegacyRound(g) == []
    ensures g.idx < g.padlen ==>
      && |LegacyRound(g)| == |Interval(g.cur, 255)|
      && |LegacyRound(g)| <= 256
      && forall k :: 0 <= k < |LegacyRound(g)| ==>
           LegacyRound(g)[k].0 == g.cur + k && |LegacyRound(g)[k].1.stdin| == g.padlen
    decreases 256 - g.cur
  {
    if g.idx < g.padlen && g.cur <= 255 {
      var g' := g.(cur := g.cur + 1);
      LegacyRoundOffers(g');
      var r := LegacyRound(g);
      assert r == [LegacyStdinCharNext(g).0.value] + LegacyRound(g');
      forall k | 0 < k < |r|
        ensures r[k].0 == g.cur + k && |r[k].1.stdin| == g.padlen
      {
        assert r[k] == LegacyRound(g')[k - 1];
      }
    }
  }
}
