/** The input records every generator produces (src/generators/common.rs) and
    `Input::combine`, the right-biased field-wise merge that lays a
    candidate over the inputs solved so far. */
module Common {
  import opened Machine

  /** Bytes to load into a memory region of the target. */
  datatype MemInput = MemInput(size: usize, addr: usize, bytes: bytes)

  /** Everything the runner hands to the target program. */
  datatype Input = Input(
    argc: u32,
    argv: seq<bytes>,
    stdinlen: u32,
    stdin: bytes,
    mem: seq<MemInput>)

  /** One offer of a generator: its identifier and the input to try. */
  datatype Candidate<Id> = Candidate(id: Id, input: Input)

  /** `Input::new()`, i.e. `Input::default()`. */
  function EmptyInput(): Input
  {
    Input(0, [], 0, [], [])
  }

  /** `over` when it is non-empty, otherwise `base`. */
  function Prefer<T>(base: seq<T>, over: seq<T>): seq<T>
  {
    if |over| != 0 then over else base
  }

  /** `Input::combine` as written: a field of `tmp` wins when it is non-empty
      (non-zero for `stdinlen`), except `argc`, which the source assigns to
      itself and therefore always keeps from `self`. */
  function Combine(self: Input, tmp: Input): (r: Input)
    ensures r.argc == self.argc
    ensures r.argv == tmp.argv <==> |tmp.argv| != 0 || self.argv == tmp.argv
    ensures |tmp.argv| == 0 ==> r.argv == self.argv
    ensures r.stdinlen == (if tmp.stdinlen != 0 then tmp.stdinlen else self.stdinlen)
    ensures r.stdin == tmp.stdin <==> |tmp.stdin| != 0 || self.stdin == tmp.stdin
    ensures |tmp.stdin| == 0 ==> r.stdin == self.stdin
    ensures r.mem == tmp.mem <==> |tmp.mem| != 0 || self.mem == tmp.mem
    ensures |tmp.mem| == 0 ==> r.mem == self.mem
  {
    Input(
      self.argc,
      Prefer(self.argv, tmp.argv),
      if tmp.stdinlen != 0 then tmp.stdinlen else self.stdinlen,
      Prefer(self.stdin, tmp.stdin),
      Prefer(self.mem, tmp.mem))
  }

  /** `Input::combine` as evidently intended: `argc` taken from `tmp` when
      it is non-zero, like every other field. */
  function CombineIntended(self: Input, tmp: Input): (r: Input)
    ensures r.argc == (if tmp.argc != 0 then tmp.argc else self.argc)
    ensures r == Combine(self, tmp).(argc := r.argc)
  {
    Combine(self, tmp).(argc := if tmp.argc != 0 then tmp.argc else self.argc)
  }

  /** Laying the default input over anything changes nothing. */
  lemma CombineEmptyIsIdentity(a: Input)
    ensures Combine(a, EmptyInput()) == a
    ensures CombineIntended(a, EmptyInput()) == a
  {
  }

  /** Laying the same input over twice is the same as laying it once. */
  lemma CombineIdempotent(a: Input, b: Input)
    ensures Combine(Combine(a, b), b) == Combine(a, b)
    ensures CombineIntended(CombineIntended(a, b), b) == CombineIntended(a, b)
  {
  }

  /** Folding a run of rounds' candidates in either grouping gives the same
      input, so `solved` may absorb each round's winner one at a time. */
  lemma CombineAssociative(a: Input, b: Input, c: Input)
    ensures Combine(Combine(a, b), c) == Combine(a, Combine(b, c))
    ensures CombineIntended(CombineIntended(a, b), c)
         == CombineIntended(a, CombineIntended(b, c))
  {
  }

  /** A candidate whose every field is set replaces everything but `argc`. */
  lemma CombineFullCandidateWins(a: Input, b: Input)
    requires |b.argv| != 0 && b.stdinlen != 0 && |b.stdin| != 0 && |b.mem| != 0
    ensures Combine(a, b) == b.(argc := a.argc)
    ensures CombineIntended(a, b) == b.(argc := if b.argc != 0 then b.argc else a.argc)
  {
  }

  /** The argc candidate `ArgcGenerator` offers (argc = 2, two empty
      arguments) loses its `argc` when laid over the default input; the
      intended merge keeps it. */
  lemma CombineDropsArgc()
    ensures Combine(EmptyInput(), EmptyInput().(argc := 2, argv := [[], []])).argc == 0
    ensures CombineIntended(EmptyInput(), EmptyInput().(argc := 2, argv := [[], []])).argc == 2
  {
  }
}
