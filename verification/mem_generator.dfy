/** `MemGenerator` (src/generators/mod.rs): extends the known prefix of a
    memory region by one byte per round, trying all 256 values. */
module MemGenerators {
  import opened Machine
  import opened Common

  /** `cur` is the next byte to try; `correct.bytes` is the prefix found. */
  datatype MemGenerator = MemGenerator(cur: u16, correct: MemInput)

  /** `MemGenerator::new`. */
  function NewMem(m: MemInput): (g: MemGenerator)
    ensures g.cur == 0 && g.correct == m
  {
    MemGenerator(0, m)
  }

  /** `finished`: the prefix has exactly the size of the region. */
  predicate Finished(g: MemGenerator)
  {
    |g.correct.bytes| == g.correct.size
  }

  /** `MemGenerator::next`: nothing once all 256 bytes were offered or the
      region is complete; otherwise the known prefix followed by `cur`, at the
      same address and size, as the only memory input. */
  function MemNext(g: MemGenerator): (r: (Option<Candidate<u8>>, MemGenerator))
    ensures r.0.None? <==> g.cur > 255 || Finished(g)
    ensures r.0.None? ==> r.1 == g
    ensures r.0.Some? ==>
      var c := r.0.value;
      && c.id == g.cur
      && c.input.mem == [MemInput(g.correct.size, g.correct.addr, g.correct.bytes + [c.id])]
      && c.input.argc == 0 && c.input.argv == [] && c.input.stdinlen == 0 && c.input.stdin == []
      && r.1 == g.(cur := g.cur + 1)
  {
    if g.cur > 255 || Finished(g) then (None, g)
    else
      var b: u8 := g.cur;
      (Some(Candidate(b, EmptyInput().(mem := [g.correct.(bytes := g.correct.bytes + [b])]))),
       g.(cur := g.cur + 1))
  }

  /** `MemGenerator::update`: append the chosen byte, restart at 0, and ask
      for another round unless the region is now complete. */
  function MemUpdate(g: MemGenerator, chosen: u8): (r: (bool, MemGenerator))
    ensures r.1.correct.bytes == g.correct.bytes + [chosen]
    ensures r.1.correct.size == g.correct.size && r.1.correct.addr == g.correct.addr
    ensures r.1.cur == 0
    ensures r.0 <==> !Finished(r.1)
  {
    var g' := MemGenerator(0, g.correct.(bytes := g.correct.bytes + [chosen]));
    (!Finished(g'), g')
  }

  /** Every candidate of the round that starts at `g`, in order. */
  function MemRound(g: MemGenerator): seq<Candidate<u8>>
    decreases 256 - g.cur
  {
    match MemNext(g)
    case (None, _) => []
    case (Some(c), g') => [c] + MemRound(g')
  }

  /** A round offers the bytes `cur`, ..., 255 in order, each appended to the
      known prefix; a finished generator offers nothing. */
  lemma {:induction false} MemRoundOffers(g: MemGenerator)
    ensures Finished(g) ==> MemRound(g) == []
    ensures !Finished(g) ==>
      && |MemRound(g)| == |Interval(g.cur, 255)|
      && forall k :: 0 <= k < |MemRound(g)| ==>
           && MemRound(g)[k].id == g.cur + k
           && MemRound(g)[k].input.mem == [g.correct.(bytes := g.correct.bytes + [g.cur + k])]
    decreases 256 - g.cur
  {
    if !Finished(g) && g.cur <= 255 {
      var g' := g.(cur := g.cur + 1);
      MemRoundOffers(g');
      var r := MemRound(g);
      assert r == [MemNext(g).0.value] + MemRound(g');
      forall k | 0 < k < |r|
        ensures r[k].id == g.cur + k
        ensures r[k].input.mem == [g.correct.(bytes := g.correct.bytes + [g.cur + k])]
      {
        assert r[k] == MemRound(g')[k - 1];
      }
    }
  }

  /** A fresh generator offers all 256 byte values, so every round of
      `MemGenerator::new` tries at most 256 candidates. */
  lemma FreshRoundTriesEveryByte(m: MemInput)
    requires |m.bytes| != m.size
    ensures |MemRound(NewMem(m))| == 256
    ensures forall b: u8 :: MemRound(NewMem(m))[b].id == b
  {
    MemRoundOffers(NewMem(m));
  }

  /** The rounds that chose `cs`, one byte per round; the flag is what the
      last `update` returned. */
  function MemUpdates(g: MemGenerator, cs: seq<u8>): (bool, MemGenerator)
  {
    if |cs| == 0 then (!Finished(g), g)
    else MemUpdate(MemUpdates(g, cs[..|cs| - 1]).1, cs[|cs| - 1])
  }

  /** The rounds append the chosen bytes in order and keep the address and
      size; the generator asks for another round exactly until the prefix
      has the size of the region. */
  lemma {:induction false} MemUpdatesAppend(g: MemGenerator, cs: seq<u8>)
    ensures MemUpdates(g, cs).1.correct == g.correct.(bytes := g.correct.bytes + cs)
    ensures MemUpdates(g, cs).0 <==> |g.correct.bytes| + |cs| != g.correct.size
  {
    if |cs| > 0 {
      MemUpdatesAppend(g, cs[..|cs| - 1]);
      assert g.correct.bytes + cs == g.correct.bytes + cs[..|cs| - 1] + [cs[|cs| - 1]];
    }
  }

  /** `finished` compares with `==`: a region given more initial bytes than
      its size is never finished, so every update asks for another round. */
  lemma OverfullNeverFinishes(g: MemGenerator, chosen: u8)
    requires |g.correct.bytes| > g.correct.size
    ensures MemUpdate(g, chosen).0
    ensures |MemUpdate(g, chosen).1.correct.bytes| > g.correct.size
  {
  }
}
