/** `ArgvLenGenerator` and `ArgvGenerator` (src/generators/mod.rs): first the
    length of every argument, one argument per round, then their bytes, one
    byte per round. */
module ArgvGenerators {
  import opened Machine
  import opened Common
  import opened LenGenerators

  /* ---------------------------------------------------------------------- */
  /* ArgvLenGenerator                                                        */

  /** `sweep` is the length counter of the argument at `pos`; `correct` holds
      the lengths found so far (zero for those still unknown). */
  datatype ArgvLenGenerator = ArgvLenGenerator(
    sweep: LenSweep,
    min: u32,
    pos: usize,
    argc: u32,
    correct: seq<u32>)

  /** What `new` establishes and every update keeps. */
  predicate ArgvLenValid(g: ArgvLenGenerator)
  {
    |g.correct| == g.argc && g.pos <= g.argc
  }

  /** `ArgvLenGenerator::new(argc, min, max)`. */
  function NewArgvLen(argc: u32, min: u32, max: u32): (g: ArgvLenGenerator)
    ensures ArgvLenValid(g) && g.argc == argc && g.pos == 0 && g.sweep == LenSweep(min, max)
    ensures g.min == min
    ensures forall i :: 0 <= i < argc ==> g.correct[i] == 0
  {
    ArgvLenGenerator(LenSweep(min, max), min, 0, argc, Repeat(0, argc))
  }

  /** `argc` arguments of `'A'`s: length `sz` at `pos`, the recorded length
      everywhere else. */
  function ArgvLenArguments(g: ArgvLenGenerator, sz: u32): (argv: seq<bytes>)
    requires ArgvLenValid(g)
    ensures |argv| == g.argc
    ensures forall i :: 0 <= i < g.argc ==>
      argv[i] == Repeat(PAD_A, if i == g.pos then sz else g.correct[i])
  {
    seq(g.argc, i requires 0 <= i < g.argc =>
      if i == g.pos then Repeat(PAD_A, sz) else Repeat(PAD_A, g.correct[i]))
  }

  /** `ArgvLenGenerator::next`. */
  function ArgvLenNext(g: ArgvLenGenerator): (r: (Option<Candidate<u32>>, ArgvLenGenerator))
    requires ArgvLenValid(g) && CanTick(g.sweep)
    ensures r.0.None? <==> g.sweep.len > g.sweep.max
    ensures r.0.None? ==> r.1 == g
    ensures r.0.Some? ==>
      var c := r.0.value;
      && c.id == g.sweep.len
      && |c.input.argv| == g.argc
      && (forall i :: 0 <= i < g.argc && i != g.pos ==> |c.input.argv[i]| == g.correct[i])
      && (g.pos < g.argc ==> |c.input.argv[g.pos]| == c.id)
      && (forall i, j :: 0 <= i < g.argc && 0 <= j < |c.input.argv[i]| ==> c.input.argv[i][j] == PAD_A)
      && c.input.argc == 0 && c.input.stdin == [] && c.input.mem == []
      && r.1 == g.(sweep := g.sweep.(len := g.sweep.len + 1))
  {
    match Tick(g.sweep)
    case (None, _) => (None, g)
    case (Some(sz), s') =>
      (Some(Candidate(sz, EmptyInput().(argv := ArgvLenArguments(g, sz)))), g.(sweep := s'))
  }

  /** `ArgvLenGenerator::update`: record the chosen length of the argument at
      `pos`, move to the next argument, restart its counter at `min`, and ask
      for another round while arguments remain. */
  function ArgvLenUpdate(g: ArgvLenGenerator, chosen: u32): (r: (bool, ArgvLenGenerator))
    requires ArgvLenValid(g) && g.pos < g.argc
    ensures ArgvLenValid(r.1) && r.1.argc == g.argc && r.1.min == g.min
    ensures r.1.correct[g.pos] == chosen
    ensures forall i :: 0 <= i < g.argc && i != g.pos ==> r.1.correct[i] == g.correct[i]
    ensures r.1.pos == g.pos + 1 && r.1.sweep == LenSweep(g.min, g.sweep.max)
    ensures r.0 <==> r.1.pos < g.argc
  {
    var g' := g.(correct := g.correct[g.pos := chosen], pos := g.pos + 1,
                 sweep := g.sweep.(len := g.min));
    (g'.pos < g.argc, g')
  }

  /** The state after the rounds that chose `cs`, one length per round. */
  function ArgvLenUpdates(g: ArgvLenGenerator, cs: seq<u32>): (r: ArgvLenGenerator)
    requires ArgvLenValid(g) && g.pos + |cs| <= g.argc
    ensures ArgvLenValid(r) && r.argc == g.argc && r.pos == g.pos + |cs|
    decreases |cs|
  {
    if |cs| == 0 then g else ArgvLenUpdates(ArgvLenUpdate(g, cs[0]).1, cs[1..])
  }

  /** The rounds fill the lengths in argument order and touch nothing else. */
  lemma {:induction false} ArgvLenUpdatesRecord(g: ArgvLenGenerator, cs: seq<u32>)
    requires ArgvLenValid(g) && g.pos + |cs| <= g.argc
    ensures var g' := ArgvLenUpdates(g, cs);
      && ArgvLenValid(g') && g'.argc == g.argc
      && g'.pos == g.pos + |cs|
      && g'.correct == g.correct[..g.pos] + cs + g.correct[g.pos + |cs|..]
    decreases |cs|
  {
    if |cs| > 0 {
      var g1 := ArgvLenUpdate(g, cs[0]).1;
      ArgvLenUpdatesRecord(g1, cs[1..]);
      var g' := ArgvLenUpdates(g, cs);
      assert g1.correct == g.correct[..g.pos] + [cs[0]] + g.correct[g.pos + 1..];
      assert g'.correct == g1.correct[..g1.pos] + cs[1..] + g1.correct[g1.pos + |cs| - 1..];
      assert g1.correct[..g1.pos] == g.correct[..g.pos] + [cs[0]];
      assert g1.correct[g1.pos + |cs| - 1..] == g.correct[g.pos + |cs|..];
      assert cs == [cs[0]] + cs[1..];
    }
  }

  /** Starting from `new`, `argc` rounds leave exactly the chosen lengths;
      the last update reports that the generator is done. */
  lemma ArgvLenSolvesAll(argc: u32, min: u32, max: u32, cs: seq<u32>)
    requires |cs| == argc > 0
    ensures var g := ArgvLenUpdates(NewArgvLen(argc, min, max), cs[..argc - 1]);
      && g.correct[..argc - 1] == cs[..argc - 1]
      && g.pos == argc - 1
      && var (more, g') := ArgvLenUpdate(g, cs[argc - 1]);
         !more && g'.correct == cs
  {
    var g0 := NewArgvLen(argc, min, max);
    ArgvLenUpdatesRecord(g0, cs[..argc - 1]);
    var g := ArgvLenUpdates(g0, cs[..argc - 1]);
    assert g.correct == cs[..argc - 1] + g0.correct[argc - 1..];
    assert g.correct[..argc - 1] == cs[..argc - 1];
    var g' := ArgvLenUpdate(g, cs[argc - 1]).1;
    assert g'.correct == g.correct[argc - 1 := cs[argc - 1]];
    assert cs == cs[..argc - 1] + [cs[argc - 1]];
  }

  /* ---------------------------------------------------------------------- */
  /* ArgvGenerator                                                           */

  /** `len` holds the length of every argument; the argument at `pos` is
      being solved, `idx` bytes of it are known, `cur` is the next byte to
      offer and `current` collects every chosen byte. */
  datatype ArgvGenerator = ArgvGenerator(
    len: seq<u32>,
    padchr: u8,
    idx: u32,
    min: u16,
    max: u16,
    pos: usize,
    argc: u32,
    correct: seq<bytes>,
    current: bytes,
    cur: u16)

  /** `ArgvGenerator::new(argc, len, min, max)`. */
  function NewArgv(argc: u32, len: seq<u32>, min: u16, max: u16): (g: ArgvGenerator)
    ensures |g.correct| == argc && g.pos == 0 && g.idx == 0 && g.cur == min
    ensures forall i :: 0 <= i < argc ==> g.correct[i] == []
    ensures g.current == [] && g.padchr == PAD_A && g.len == len
    ensures g.argc == argc && g.min == min && g.max == max
  {
    ArgvGenerator(len, PAD_A, 0, min, max, 0, argc, Repeat([], argc), [], min)
  }

  /** What `next` needs to index safely: a slot per argument, a length per
      argument, and a round is only asked for while an argument is left. */
  predicate ArgvCanNext(g: ArgvGenerator)
  {
    |g.correct| == g.argc && g.argc <= |g.len| && (g.argc == 0 || g.pos < g.argc)
  }

  /** The argument list of a candidate: the solved arguments before `pos`,
      `guess` at `pos`, and padding of the right length after it. */
  function ArgvArguments(g: ArgvGenerator, guess: bytes): (argv: seq<bytes>)
    requires |g.correct| == g.argc && g.argc <= |g.len|
    ensures |argv| == g.argc
    ensures forall i :: 0 <= i < g.argc ==>
      argv[i] == if i == g.pos then guess
                 else if i < g.pos then g.correct[i]
                 else Repeat(g.padchr, g.len[i])
  {
    seq(g.argc, i requires 0 <= i < g.argc =>
      if i == g.pos then guess
      else if i < g.pos then g.correct[i]
      else Repeat(g.padchr, g.len[i]))
  }

  /** The leading part of `next`: skip one zero-length argument, then decide
      whether the argument at `pos` has a byte left to offer. The skip is
      kept even when nothing is offered. */
  function ArgvSkip(g: ArgvGenerator): (g1: ArgvGenerator)
    requires ArgvCanNext(g) && g.argc > 0
    ensures g.len[g.pos] == 0 ==> g1 == g.(pos := g.pos + 1)
    ensures g.len[g.pos] != 0 ==> g1 == g
  {
    if g.len[g.pos] == 0 then g.(pos := g.pos + 1) else g
  }

  /** After the skip: the argument at `pos` exists, still has a byte to
      find, and `cur` is a byte no larger than `max`. */
  predicate ArgvOffers(g1: ArgvGenerator)
    requires g1.argc <= |g1.len|
  {
    g1.pos < g1.argc && g1.idx < g1.len[g1.pos] && g1.cur <= 255 && g1.cur <= g1.max
  }

  /** `ArgvGenerator::next` as written: the guess at `pos` is built from
      `current`, i.e. from every byte chosen so far for any argument. */
  function ArgvNext(g: ArgvGenerator): (r: (Option<Candidate<u8>>, ArgvGenerator))
    requires ArgvCanNext(g)
    ensures r.1 == g.(pos := r.1.pos, cur := r.1.cur)
    ensures r.1.pos == g.pos || (g.pos < g.argc && g.len[g.pos] == 0 && r.1.pos == g.pos + 1)
    ensures g.argc == 0 ==> r == (None, g)
    ensures g.argc > 0 ==> r.1.pos == ArgvSkip(g).pos && (r.0.Some? <==> ArgvOffers(ArgvSkip(g)))
    ensures g.cur > 255 || g.cur > g.max ==> r.0.None?
    ensures r.0.None? ==> r.1.cur == g.cur
    ensures r.0.Some? ==>
      var c := r.0.value;
      var p := r.1.pos;
      && p < g.argc
      && c.id == g.cur && c.id <= g.max && r.1.cur == g.cur + 1
      && g.idx < g.len[p]
      && |c.input.argv| == g.argc
      && |c.input.argv[p]| == g.len[p]
      && (forall i :: 0 <= i < p ==> c.input.argv[i] == g.correct[i])
      && (forall i :: p < i < g.argc ==> c.input.argv[i] == Repeat(g.padchr, g.len[i]))
      && c.input.argv[p] == Fit(g.current + [c.id], g.len[p], g.padchr)
      && c.input.argc == 0 && c.input.stdin == [] && c.input.mem == []
  {
    if g.argc == 0 then (None, g)
    else
      var g1 := ArgvSkip(g);
      if !ArgvOffers(g1) then (None, g1)
      else
        var chr: u8 := g1.cur;
        var guess := Fit(g1.current + [chr], g1.len[g1.pos], g1.padchr);
        (Some(Candidate(chr, EmptyInput().(argv := ArgvArguments(g1, guess)))), g1.(cur := g1.cur + 1))
  }

  /** `ArgvGenerator::next` as evidently intended: the guess at `pos` is the
      part of that argument solved so far followed by the byte on offer. */
  function ArgvNextIntended(g: ArgvGenerator): (r: (Option<Candidate<u8>>, ArgvGenerator))
    requires ArgvCanNext(g)
    ensures g.argc == 0 ==> r == (None, g)
    ensures g.argc > 0 ==> r.1.pos == ArgvSkip(g).pos && (r.0.Some? <==> ArgvOffers(ArgvSkip(g)))
    ensures r.1 == g.(pos := r.1.pos, cur := r.1.cur)
    ensures r.0.None? ==> r.1.cur == g.cur
    ensures r.1 == ArgvNext(g).1 && r.0.None? == ArgvNext(g).0.None?
    ensures r.0.Some? ==>
      var c := r.0.value;
      var p := r.1.pos;
      && p < g.argc && |c.input.argv| == g.argc
      && c.id == g.cur && r.1.cur == g.cur + 1
      && c.input.argc == 0 && c.input.stdin == [] && c.input.mem == []
      && c.input.argv == ArgvArguments(g.(pos := p), Fit(g.correct[p] + [c.id], g.len[p], g.padchr))
      && c.id == ArgvNext(g).0.value.id
      && c.input == ArgvNext(g).0.value.input.(argv := c.input.argv)
      && c.input.argv == ArgvNext(g).0.value.input.argv[p := c.input.argv[p]]
      && c.input.argv[p] == Fit(g.correct[p] + [c.id], g.len[p], g.padchr)
  {
    if g.argc == 0 then (None, g)
    else
      var g1 := ArgvSkip(g);
      if !ArgvOffers(g1) then (None, g1)
      else
        var chr: u8 := g1.cur;
        var guess := Fit(g1.correct[g1.pos] + [chr], g1.len[g1.pos], g1.padchr);
        (Some(Candidate(chr, EmptyInput().(argv := ArgvArguments(g1, guess)))), g1.(cur := g1.cur + 1))
  }

  /** Whether a round from `g` offers anything at all: there is an
      argument, and after the skip it still has a byte to find. */
  predicate ArgvRoundStarts(g: ArgvGenerator)
    requires ArgvCanNext(g)
  {
    g.argc > 0 && ArgvSkip(g).pos < g.argc && g.idx < g.len[ArgvSkip(g).pos]
  }

  /** Every candidate of the round that starts at `g`, as written. */
  function ArgvRound(g: ArgvGenerator): seq<Candidate<u8>>
    requires ArgvCanNext(g)
    decreases 256 - g.cur
  {
    match ArgvNext(g)
    case (None, _) => []
    case (Some(c), g') => [c] + ArgvRound(g')
  }

  /** Every candidate of the round that starts at `g`, as intended. */
  function ArgvIntendedRound(g: ArgvGenerator): seq<Candidate<u8>>
    requires ArgvCanNext(g)
    decreases 256 - g.cur
  {
    match ArgvNextIntended(g)
    case (None, _) => []
    case (Some(c), g') => [c] + ArgvIntendedRound(g')
  }

  /** The argument lists of a generator do not depend on `cur`. */
  lemma ArgumentsIgnoreCur(g: ArgvGenerator, cur: u16, guess: bytes)
    requires |g.correct| == g.argc && g.argc <= |g.len|
    ensures ArgvArguments(g.(cur := cur), guess) == ArgvArguments(g, guess)
  {
  }

  /** A round offers `cur`, `cur + 1`, ... up to `max` (at most 255), in
      order, unless there is no argument left or the one at `pos` is
      complete; the step that skips an empty argument happens at most once,
      on the round's first call. */
  lemma {:induction false} ArgvRoundIds(g: ArgvGenerator)
    requires ArgvCanNext(g)
    ensures !ArgvRoundStarts(g) ==> ArgvRound(g) == []
    ensures ArgvRoundStarts(g) ==>
      && |ArgvRound(g)| == |Interval(g.cur, if g.max < 255 then g.max else 255)|
      && forall k :: 0 <= k < |ArgvRound(g)| ==> ArgvRound(g)[k].id == g.cur + k
    decreases 256 - g.cur
  {
    var (c, g') := ArgvNext(g);
    if c.Some? {
      assert ArgvSkip(g') == g';
      assert ArgvRoundStarts(g');
      ArgvRoundIds(g');
      var r := ArgvRound(g);
      assert r == [c.value] + ArgvRound(g');
      forall k | 0 < k < |r|
        ensures r[k].id == g.cur + k
      {
        assert r[k] == ArgvRound(g')[k - 1];
      }
    }
  }

  /** Every candidate of a round, as written, is built from `current` and its
      own id at the argument chosen by the skip. */
  lemma {:induction false} ArgvRoundInputs(g: ArgvGenerator)
    requires ArgvCanNext(g) && g.argc > 0
    ensures var g1 := ArgvSkip(g);
      forall k :: 0 <= k < |ArgvRound(g)| ==>
        && g1.pos < g.argc
        && ArgvRound(g)[k].input == EmptyInput().(argv := ArgvArguments(g1,
             Fit(g.current + [ArgvRound(g)[k].id], g.len[g1.pos], g.padchr)))
    decreases 256 - g.cur
  {
    var (c, g') := ArgvNext(g);
    if c.Some? {
      var g1 := ArgvSkip(g);
      assert ArgvSkip(g') == g';
      assert g' == g1.(cur := g.cur + 1);
      ArgvRoundInputs(g');
      var r := ArgvRound(g);
      assert r == [c.value] + ArgvRound(g');
      forall k | 0 <= k < |r|
        ensures g1.pos < g.argc
        ensures r[k].input == EmptyInput().(argv := ArgvArguments(g1,
                  Fit(g.current + [r[k].id], g.len[g1.pos], g.padchr)))
      {
        if k > 0 {
          assert r[k] == ArgvRound(g')[k - 1];
          ArgumentsIgnoreCur(g1, g.cur + 1, Fit(g.current + [r[k].id], g.len[g1.pos], g.padchr));
        } else {
          assert r[k] == c.value;
        }
      }
    } else {
      assert ArgvRound(g) == [];
    }
  }

  /** The round as written offers the ids `cur..=min(max, 255)`, each with
      the argument list built for it. */
  lemma ArgvRoundOffers(g: ArgvGenerator)
    requires ArgvCanNext(g)
    ensures !ArgvRoundStarts(g) ==> ArgvRound(g) == []
    ensures ArgvRoundStarts(g) ==>
      var g1 := ArgvSkip(g);
      && |ArgvRound(g)| == |Interval(g.cur, if g.max < 255 then g.max else 255)|
      && forall k :: 0 <= k < |ArgvRound(g)| ==>
           && ArgvRound(g)[k].id == g.cur + k
           && ArgvRound(g)[k].input.argv ==
                ArgvArguments(g1, Fit(g.current + [(g.cur + k) as u8], g.len[g1.pos], g.padchr))
  {
    ArgvRoundIds(g);
    if g.argc > 0 {
      ArgvRoundInputs(g);
    }
  }

  /** The intended round offers the same ids as the round as written, and
      each candidate holds the argument's own solved bytes and its id. */
  lemma {:induction false} ArgvIntendedRoundOffers(g: ArgvGenerator)
    requires ArgvCanNext(g)
    ensures |ArgvIntendedRound(g)| == |ArgvRound(g)|
    ensures forall k :: 0 <= k < |ArgvRound(g)| ==> ArgvIntendedRound(g)[k].id == ArgvRound(g)[k].id
    ensures g.argc > 0 ==>
      var g1 := ArgvSkip(g);
      forall k :: 0 <= k < |ArgvIntendedRound(g)| ==>
        && g1.pos < g.argc
        && ArgvIntendedRound(g)[k].input.argv == ArgvArguments(g1,
             Fit(g.correct[g1.pos] + [ArgvIntendedRound(g)[k].id], g.len[g1.pos], g.padchr))
    decreases 256 - g.cur
  {
    var (c, g') := ArgvNextIntended(g);
    if c.Some? {
      var g1 := ArgvSkip(g);
      assert ArgvSkip(g') == g';
      assert g' == g1.(cur := g.cur + 1);
      ArgvIntendedRoundOffers(g');
      var r := ArgvIntendedRound(g);
      var w := ArgvRound(g);
      assert r == [c.value] + ArgvIntendedRound(g');
      assert w == [ArgvNext(g).0.value] + ArgvRound(g');
      forall k | 0 <= k < |r|
        ensures r[k].id == w[k].id
        ensures r[k].input.argv == ArgvArguments(g1,
                  Fit(g.correct[g1.pos] + [r[k].id], g.len[g1.pos], g.padchr))
      {
        if k > 0 {
          assert r[k] == ArgvIntendedRound(g')[k - 1];
          assert w[k] == ArgvRound(g')[k - 1];
          ArgumentsIgnoreCur(g1, g.cur + 1, Fit(g.correct[g1.pos] + [r[k].id], g.len[g1.pos], g.padchr));
        }
      }
    }
  }

  /** What `update` needs: a slot per argument and, while an argument is
      left, its length and room for `idx += 1`. */
  predicate ArgvCanUpdate(g: ArgvGenerator)
  {
    |g.correct| == g.argc && (g.pos < g.argc ==> g.pos < |g.len| && g.idx < U32_MAX)
  }

  /** `ArgvGenerator::update`: past the last argument nothing changes;
      otherwise the chosen byte is appended to the argument at `pos` (and to
      `current`), `cur` restarts at `min`, and once the argument is complete
      the generator moves to the next one. */
  function ArgvUpdate(g: ArgvGenerator, chosen: u8): (r: (bool, ArgvGenerator))
    requires ArgvCanUpdate(g)
    ensures g.pos >= g.argc ==> r == (false, g)
    ensures r.0 <==> r.1.pos < g.argc
    ensures |r.1.correct| == g.argc && r.1.argc == g.argc && r.1.len == g.len
    ensures g.pos < g.argc ==>
      && r.1.correct[g.pos] == g.correct[g.pos] + [chosen]
      && (forall i :: 0 <= i < g.argc && i != g.pos ==> r.1.correct[i] == g.correct[i])
      && r.1.current == g.current + [chosen]
      && r.1.cur == g.min
      && (g.idx + 1 >= g.len[g.pos] ==> r.1.pos == g.pos + 1 && r.1.idx == 0)
      && (g.idx + 1 < g.len[g.pos] ==> r.1.pos == g.pos && r.1.idx == g.idx + 1)
    ensures g.pos < g.argc ==>
      var done := g.idx + 1 >= g.len[g.pos];
      r.1 == g.(correct := r.1.correct, current := g.current + [chosen], cur := g.min,
                idx := if done then 0 else g.idx + 1,
                pos := if done then g.pos + 1 else g.pos)
  {
    if g.pos >= g.argc then (false, g)
    else
      var g1 := g.(correct := g.correct[g.pos := g.correct[g.pos] + [chosen]],
                   current := g.current + [chosen],
                   cur := g.min,
                   idx := g.idx + 1);
      var g2 := if g1.idx >= g.len[g.pos] then g1.(pos := g.pos + 1, idx := 0) else g1;
      (g2.pos < g.argc, g2)
  }

  /** The bookkeeping the intended generator relies on: arguments before
      `pos` are complete, those after it untouched, and the one at `pos`
      holds exactly `idx` solved bytes, with a byte still to find unless it
      is empty. */
  predicate ArgvAligned(g: ArgvGenerator)
  {
    && |g.correct| == g.argc && g.argc <= |g.len| && g.pos <= g.argc
    && (forall i :: 0 <= i < g.pos ==> |g.correct[i]| == g.len[i])
    && (forall i :: g.pos < i < g.argc ==> g.correct[i] == [])
    && (g.pos < g.argc ==> |g.correct[g.pos]| == g.idx && (g.idx < g.len[g.pos] || g.idx == 0))
  }

  lemma NewArgvAligned(argc: u32, len: seq<u32>, min: u16, max: u16)
    requires argc <= |len|
    ensures ArgvAligned(NewArgv(argc, len, min, max))
  {
  }

  /** `next` keeps the bookkeeping. */
  lemma ArgvNextKeepsAligned(g: ArgvGenerator)
    requires ArgvAligned(g) && ArgvCanNext(g)
    ensures ArgvAligned(ArgvNext(g).1) && ArgvAligned(ArgvNextIntended(g).1)
  {
  }

  /** An update that follows a round in which something was offered keeps
      the bookkeeping. */
  lemma ArgvUpdateKeepsAligned(g: ArgvGenerator, chosen: u8)
    requires ArgvAligned(g) && ArgvCanUpdate(g)
    requires g.pos < g.argc ==> g.idx < g.len[g.pos]
    ensures ArgvAligned(ArgvUpdate(g, chosen).1)
  {
    var g' := ArgvUpdate(g, chosen).1;
    if g.pos < g.argc {
      assert forall i :: 0 <= i < g'.pos ==> |g'.correct[i]| == g'.len[i] by {
        forall i | 0 <= i < g'.pos ensures |g'.correct[i]| == g'.len[i] {
          if i < g.pos { assert g'.correct[i] == g.correct[i]; }
        }
      }
    }
  }

  /** The intended generator puts the byte on offer at position `idx` of the
      argument being solved, after the bytes already found for it. */
  lemma IntendedGuessAtIdx(g: ArgvGenerator)
    requires ArgvAligned(g) && ArgvCanNext(g)
    ensures var (c, g') := ArgvNextIntended(g);
      c.Some? ==>
        && g'.idx < |c.value.input.argv[g'.pos]|
        && c.value.input.argv[g'.pos][g'.idx] == c.value.id
        && c.value.input.argv[g'.pos][..g'.idx] == g'.correct[g'.pos]
  {
  }

  /** The state after the first argument of two one-byte arguments has been
      solved as `'a'`. */
  function AfterFirstArgument(): ArgvGenerator
  {
    ArgvUpdate(NewArgv(2, [1, 1], 0x20, 0x7e), 0x61).1
  }

  /** As written, every candidate for the second argument is `"a"`: the byte
      on offer is cut off because `current` still holds the first argument,
      so the round cannot tell the candidates apart. The intended generator
      offers the byte itself. */
  lemma SecondArgumentIgnoresGuess(c: u16)
    requires 0x20 <= c <= 0x7e
    ensures var g := AfterFirstArgument().(cur := c);
      && ArgvCanNext(g) && g.pos == 1
      && ArgvNext(g).0.Some? && ArgvNext(g).0.value.input.argv[1] == [0x61]
      && ArgvNextIntended(g).0.Some? && ArgvNextIntended(g).0.value.input.argv[1] == [c]
  {
    var g := AfterFirstArgument().(cur := c);
    assert g.current == [0x61] && g.correct == [[0x61], []];
  }
}
