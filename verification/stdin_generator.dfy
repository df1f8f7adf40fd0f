/** `StdinCharGenerator` (src/generators/stdin.rs): solves standard input one
    byte per round. Each candidate is `prefix ++ correct ++ [byte] ++ suffix`
    cut or padded to the solved input length `padlen`. */
module StdinGenerator {
  import opened Machine
  import opened Common

  datatype StdinCharGenerator = StdinCharGenerator(
    padlen: u32,
    padchr: u8,
    prefix: bytes,
    suffix: bytes,
    idx: u32,
    cur: u16,
    correct: bytes,
    min: u16,
    max: u16)

  /** `StdinCharGenerator::new(input, min, max)`: pad to the solved stdin
      length, start at byte `min` of position 0, nothing known yet. */
  function NewStdinChar(input: Input, min: u16, max: u16): (g: StdinCharGenerator)
    ensures g.padlen == input.stdinlen && g.padchr == PAD_A
    ensures g.idx == 0 && g.cur == min && g.min == min && g.max == max
    ensures g.correct == [] && g.prefix == [] && g.suffix == []
  {
    StdinCharGenerator(input.stdinlen, PAD_A, [], [], 0, min, [], min, max)
  }

  /** `StdinCharGenerator::new_start(input, min, max, start)`: as `new`, but
      `start` is a known prefix and solving begins right after it; the index
      is `start.len() as u32`, which truncates modulo 2^32. */
  function NewStdinCharStart(input: Input, min: u16, max: u16, start: bytes): (g: StdinCharGenerator)
    ensures g == NewStdinChar(input, min, max).(prefix := start, idx := g.idx)
    ensures |start| <= U32_MAX ==> g.idx == |start|
  {
    StdinCharGenerator(input.stdinlen, PAD_A, start, [], |start| % 0x1_0000_0000, min, [], min, max)
  }

  /** `set_padchr`. */
  function SetPadchr(g: StdinCharGenerator, padchr: u8): (g': StdinCharGenerator)
    ensures g'.padchr == padchr && g' == g.(padchr := g'.padchr)
  {
    g.(padchr := padchr)
  }

  /** `set_prefix`. */
  function SetPrefix(g: StdinCharGenerator, prefix: bytes): (g': StdinCharGenerator)
    ensures g'.prefix == prefix && g' == g.(prefix := g'.prefix)
  {
    g.(prefix := prefix)
  }

  /** `set_suffix`. */
  function SetSuffix(g: StdinCharGenerator, suffix: bytes): (g': StdinCharGenerator)
    ensures g'.suffix == suffix && g' == g.(suffix := g'.suffix)
  {
    g.(suffix := suffix)
  }

  /** The standard input offered for byte `chr`. */
  function StdinCandidate(g: StdinCharGenerator, chr: u8): (s: bytes)
    ensures |s| == g.padlen
    ensures forall i :: 0 <= i < |g.prefix| && i < g.padlen ==> s[i] == g.prefix[i]
    ensures var k := |g.prefix| + |g.correct|;
      && (forall i :: |g.prefix| <= i < k && i < g.padlen ==> s[i] == g.correct[i - |g.prefix|])
      && (k < g.padlen ==> s[k] == chr)
      && (forall i :: k + 1 <= i < k + 1 + |g.suffix| && i < g.padlen ==> s[i] == g.suffix[i - k - 1])
      && (forall i :: k + 1 + |g.suffix| <= i < g.padlen ==> s[i] == g.padchr)
  {
    Fit(g.prefix + g.correct + [chr] + g.suffix, g.padlen, g.padchr)
  }

  /** `StdinCharGenerator::next`: nothing once every position is solved or
      `cur` has passed 255 or `max`; otherwise byte `cur`. */
  function StdinCharNext(g: StdinCharGenerator): (r: (Option<Candidate<u8>>, StdinCharGenerator))
    ensures r.0.None? <==> g.idx >= g.padlen || g.cur > 255 || g.cur > g.max
    ensures r.0.None? ==> r.1 == g
    ensures r.0.Some? ==>
      && r.0.value.id == g.cur
      && r.0.value.input == EmptyInput().(stdin := StdinCandidate(g, r.0.value.id))
      && r.1 == g.(cur := g.cur + 1)
  {
    if g.idx >= g.padlen || g.cur > 255 || g.cur > g.max then (None, g)
    else
      var chr: u8 := g.cur;
      (Some(Candidate(chr, EmptyInput().(stdin := StdinCandidate(g, chr)))), g.(cur := g.cur + 1))
  }

  /** `StdinCharGenerator::update`: append the chosen byte, move to the next
      position, restart at `min`, and ask for another round while positions
      remain. `idx += 1` needs room below `u32::MAX`. */
  function StdinCharUpdate(g: StdinCharGenerator, chosen: u8): (r: (bool, StdinCharGenerator))
    requires g.idx < U32_MAX
    ensures r.1 == g.(correct := g.correct + [chosen], idx := g.idx + 1, cur := g.min)
    ensures r.0 <==> g.idx + 1 < g.padlen
  {
    var g' := g.(correct := g.correct + [chosen], idx := g.idx + 1, cur := g.min);
    (g'.idx < g'.padlen, g')
  }

  /** Every candidate of the round that starts at `g`, in order. */
  function StdinRound(g: StdinCharGenerator): seq<Candidate<u8>>
    decreases 256 - g.cur
  {
    match StdinCharNext(g)
    case (None, _) => []
    case (Some(c), g') => [c] + StdinRound(g')
  }

  /** A round offers `cur`, `cur + 1`, ... up to `max` (at most 255), in
      strictly increasing order, each as a `padlen`-byte input; a generator
      with every position solved offers nothing. */
  lemma StdinRoundOffers(g: StdinCharGenerator)
    ensures g.idx >= g.padlen ==> StdinRound(g) == []
    ensures g.idx < g.padlen ==>
      && |StdinRound(g)| == |Interval(g.cur, if g.max < 255 then g.max else 255)|
      && forall k :: 0 <= k < |StdinRound(g)| ==>
           && StdinRound(g)[k].id == g.cur + k
           && StdinRound(g)[k].input.stdin == StdinCandidate(g, g.cur + k)
  {
    StdinRoundIds(g);
    StdinRoundInputs(g);
  }

  /** The ids of a round: `cur` counting up to `min(max, 255)`. */
  lemma {:induction false} StdinRoundIds(g: StdinCharGenerator)
    ensures g.idx >= g.padlen ==> StdinRound(g) == []
    ensures g.idx < g.padlen ==>
      && |StdinRound(g)| == |Interval(g.cur, if g.max < 255 then g.max else 255)|
      && forall k :: 0 <= k < |StdinRound(g)| ==> StdinRound(g)[k].id == g.cur + k
    decreases 256 - g.cur
  {
    if g.idx < g.padlen && g.cur <= 255 && g.cur <= g.max {
      var g' := g.(cur := g.cur + 1);
      StdinRoundIds(g');
      var r := StdinRound(g);
      assert r == [StdinCharNext(g).0.value] + StdinRound(g');
      forall k | 0 < k < |r|
        ensures r[k].id == g.cur + k
      {
        assert r[k] == StdinRound(g')[k - 1];
      }
    }
  }

  /** Every candidate of a round carries the input built for its own id. */
  lemma {:induction false} StdinRoundInputs(g: StdinCharGenerator)
    ensures forall k :: 0 <= k < |StdinRound(g)| ==>
      StdinRound(g)[k].input.stdin == StdinCandidate(g, StdinRound(g)[k].id)
    decreases 256 - g.cur
  {
    if g.idx < g.padlen && g.cur <= 255 && g.cur <= g.max {
      var g' := g.(cur := g.cur + 1);
      StdinRoundInputs(g');
      var r := StdinRound(g);
      assert r == [StdinCharNext(g).0.value] + StdinRound(g');
      forall k | 0 < k < |r|
        ensures r[k].input.stdin == StdinCandidate(g, r[k].id)
      {
        assert r[k] == StdinRound(g')[k - 1];
        CandidateIgnoresCur(g, g.cur + 1, r[k].id);
      }
    }
  }

  /** The input on offer does not depend on how far the round has got. */
  lemma CandidateIgnoresCur(g: StdinCharGenerator, cur: u16, chr: u8)
    ensures StdinCandidate(g.(cur := cur), chr) == StdinCandidate(g, chr)
  {
  }

  /** So a round has at most 256 candidates. */
  lemma StdinRoundAtMost256(g: StdinCharGenerator)
    ensures |StdinRound(g)| <= 256
  {
    StdinRoundOffers(g);
  }

  /** The position being solved is `idx`, right after the start and the
      solved bytes. */
  predicate Aligned(g: StdinCharGenerator)
  {
    g.idx == |g.prefix| + |g.correct|
  }

  /** Both constructors start aligned (for a start shorter than 2^32 bytes),
      `update`, `set_padchr` and `set_suffix` keep it, and `next` leaves it
      alone. */
  lemma AlignedKept(input: Input, min: u16, max: u16, start: bytes, g: StdinCharGenerator, b: u8, t: bytes)
    requires |start| <= U32_MAX
    ensures Aligned(NewStdinChar(input, min, max))
    ensures Aligned(NewStdinCharStart(input, min, max, start))
    ensures Aligned(g) && g.idx < U32_MAX ==> Aligned(StdinCharUpdate(g, b).1)
    ensures Aligned(g) ==> Aligned(SetPadchr(g, b)) && Aligned(SetSuffix(g, t))
    ensures Aligned(g) ==> Aligned(StdinCharNext(g).1)
  {
  }

  /** In an aligned generator every candidate carries the byte on offer at
      position `idx`, the known bytes before it, and nothing else varies
      between the candidates of one round. */
  lemma GuessAtIdx(g: StdinCharGenerator)
    requires Aligned(g)
    ensures var (c, _) := StdinCharNext(g);
      c.Some? ==>
        && c.value.input.stdin[g.idx] == c.value.id
        && c.value.input.stdin[..g.idx] == g.prefix + g.correct
  {
    var (c, _) := StdinCharNext(g);
    if c.Some? {
      var s := c.value.input.stdin;
      assert forall i :: 0 <= i < g.idx ==> s[i] == (g.prefix + g.correct)[i];
    }
  }
}
