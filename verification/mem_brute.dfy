/** The sample targets mem_brute/mem_brute.c and
    mem_brute/mem_brute_breakpoint.c (of which
    tests/mem_brute/mem_brute_breakpoint.c is a byte-identical copy): a
    27-byte static buffer compared with a password one byte at a time,
    printing each index before comparing it. The number of lines printed,
    and so the instruction count, grows with the length of the matching
    prefix; that is the side channel the brute-forcer measures. */
module MemBrute {
  import opened Machine

  /** `PASSWORD_SIZE`. */
  const PASSWORD_SIZE: nat := 27

  /** The 26 letters of `PASSWORD`. */
  const LETTERS: bytes := [
    0x41, 0x42, 0x43, 0x44, 0x45, 0x46, 0x47, 0x48, 0x49, 0x4A, 0x4B, 0x4C, 0x4D,
    0x4E, 0x4F, 0x50, 0x51, 0x52, 0x53, 0x54, 0x55, 0x56, 0x57, 0x58, 0x59, 0x5A]

  /** The string literal `PASSWORD` as the 27 bytes `mem_eq` reads: the
      letters and the terminating NUL. */
  const PASSWORD: bytes := LETTERS + [0]

  /** The buffer after `zero_buf`, and also as the program starts: a
      `static` array is zero-initialised (C11 section 6.7.9 paragraph 10). */
  const ZEROED: bytes := Repeat(0, PASSWORD_SIZE)

  /** The output lines of `main`. */
  const CORRECT: string := "Correct!"
  const WRONG: string := "Wrong"

  /** The first index below `size`, from `i` on, where the buffers differ,
      or `size` when they agree from `i` to `size`. */
  function MismatchFrom(s1: bytes, s2: bytes, size: nat, i: nat): (m: nat)
    requires size <= |s1| && size <= |s2|
    decreases size - i
  {
    if i >= size then i
    else if s1[i] != s2[i] then i
    else MismatchFrom(s1, s2, size, i + 1)
  }

  /** The first mismatch, the reference for what `mem_eq` scans. */
  function FirstMismatch(s1: bytes, s2: bytes, size: nat): nat
    requires size <= |s1| && size <= |s2|
  {
    MismatchFrom(s1, s2, size, 0)
  }

  /** `MismatchFrom` finds the first differing index at or after `i`. */
  lemma {:induction false} MismatchFromSpec(s1: bytes, s2: bytes, size: nat, i: nat)
    requires size <= |s1| && size <= |s2| && i <= size
    ensures var m := MismatchFrom(s1, s2, size, i);
      && i <= m <= size
      && (forall j :: i <= j < m ==> s1[j] == s2[j])
      && (m < size ==> s1[m] != s2[m])
    decreases size - i
  {
    if i < size && s1[i] == s2[i] {
      MismatchFromSpec(s1, s2, size, i + 1);
    }
  }

  /** The first mismatch is the least differing index, or `size` when the
      first `size` bytes agree. */
  lemma FirstMismatchSpec(s1: bytes, s2: bytes, size: nat)
    requires size <= |s1| && size <= |s2|
    ensures var m := FirstMismatch(s1, s2, size);
      && m <= size
      && (forall j :: 0 <= j < m ==> s1[j] == s2[j])
      && (m < size ==> s1[m] != s2[m])
      && (m == size <==> forall j :: 0 <= j < size ==> s1[j] == s2[j])
  {
    MismatchFromSpec(s1, s2, size, 0);
  }

  /** How many indices `mem_eq` prints: up to and including the first
      mismatch, or all `size` of them. */
  function Scanned(s1: bytes, s2: bytes, size: nat): nat
    requires size <= |s1| && size <= |s2|
  {
    var m := FirstMismatch(s1, s2, size);
    if m < size then m + 1 else size
  }

  /** `mem_eq`: whether the first `size` bytes agree, and the indices it
      prints on the way, which stop at the first mismatch. Both buffers
      must hold at least `size` bytes. */
  method MemEq(s1: bytes, s2: bytes, size: nat) returns (equal: bool, trace: seq<nat>)
    requires size <= |s1| && size <= |s2|
    ensures equal <==> forall i :: 0 <= i < size ==> s1[i] == s2[i]
    ensures trace == Upto(Scanned(s1, s2, size))
  {
    FirstMismatchSpec(s1, s2, size);
    trace := [];
    var i := 0;
    while i < size
      invariant i <= size
      invariant forall j :: 0 <= j < i ==> s1[j] == s2[j]
      invariant trace == Upto(i)
    {
      trace := trace + [i];
      if s1[i] != s2[i] {
        assert FirstMismatch(s1, s2, size) == i;
        return false, trace;
      }
      i := i + 1;
    }
    return true, trace;
  }

  /** `zero_buf`: the first `size` bytes become 0, the rest stay. */
  method ZeroBuf(buf: bytes, size: nat) returns (r: bytes)
    requires size <= |buf|
    ensures |r| == |buf|
    ensures forall i :: 0 <= i < size ==> r[i] == 0
    ensures forall i :: size <= i < |r| ==> r[i] == buf[i]
  {
    r := buf;
    for i := 0 to size
      invariant |r| == |buf|
      invariant forall j :: 0 <= j < i ==> r[j] == 0
      invariant forall j :: i <= j < |r| ==> r[j] == buf[j]
    {
      r := r[i := 0];
    }
  }

  /** The verdict `main` prints for the buffer contents. */
  function Verdict(password: bytes): (out: string)
    requires |password| == PASSWORD_SIZE
    ensures out == CORRECT <==> password == PASSWORD
    ensures out == CORRECT || out == WRONG
  {
    if password == PASSWORD then CORRECT else WRONG
  }

  /** `main` of mem_brute.c, on the buffer as the brute-forcer left it:
      compare all 27 bytes, then print the verdict. */
  method MemBruteMain(password: bytes) returns (trace: seq<nat>, out: string)
    requires |password| == PASSWORD_SIZE
    ensures out == Verdict(password)
    ensures trace == Upto(Scanned(password, PASSWORD, PASSWORD_SIZE))
  {
    var equal;
    equal, trace := MemEq(password, PASSWORD, PASSWORD_SIZE);
    assert equal <==> password == PASSWORD;
    out := if equal then CORRECT else WRONG;
  }

  /** The memory write the brute-forcer makes: `bytes` over the start of
      the buffer, the rest unchanged. */
  function Write(buf: bytes, bytes: bytes): (r: bytes)
    requires |bytes| <= |buf|
    ensures |r| == |buf|
    ensures forall i :: 0 <= i < |bytes| ==> r[i] == bytes[i]
    ensures forall i :: |bytes| <= i < |buf| ==> r[i] == buf[i]
  {
    bytes + buf[|bytes|..]
  }

  /** `main` of mem_brute_breakpoint.c: zero the buffer, let the
      brute-forcer write `patch` at the breakpoint (when it sets one), then
      compare and print the verdict. */
  method BreakpointMain(password: bytes, patch: Option<bytes>) returns (trace: seq<nat>, out: string)
    requires |password| == PASSWORD_SIZE
    requires patch.Some? ==> |patch.value| <= PASSWORD_SIZE
    ensures var buf := if patch.Some? then Write(ZEROED, patch.value) else ZEROED;
      && out == Verdict(buf)
      && trace == Upto(Scanned(buf, PASSWORD, PASSWORD_SIZE))
  {
    var buf := ZeroBuf(password, PASSWORD_SIZE);
    assert buf == ZEROED;
    if patch.Some? {
      buf := Write(buf, patch.value);
    }
    trace, out := MemBruteMain(buf);
  }

  /** Without a write at the breakpoint the zeroed buffer fails at the very
      first byte: one index printed and `Wrong`, whatever the buffer held
      before. */
  lemma ZeroedFailsAtFirstByte()
    ensures Scanned(ZEROED, PASSWORD, PASSWORD_SIZE) == 1
    ensures Verdict(ZEROED) == WRONG
  {
    assert MismatchFrom(ZEROED, PASSWORD, PASSWORD_SIZE, 0) == 0;
    assert ZEROED[0] != PASSWORD[0];
  }

  /** Writing the 26 letters over a zeroed buffer is enough: the 27th byte
      is already 0, as a `static` array is zero-initialised (C11 section
      6.7.9 paragraph 10) and `zero_buf` clears it again, so all 27 indices
      are printed and the verdict is `Correct!`. */
  lemma LettersOverZeroesSucceed()
    ensures Write(ZEROED, LETTERS) == PASSWORD
    ensures Verdict(PASSWORD) == CORRECT
    ensures Scanned(PASSWORD, PASSWORD, PASSWORD_SIZE) == PASSWORD_SIZE
  {
    FirstMismatchSpec(PASSWORD, PASSWORD, PASSWORD_SIZE);
    var w := Write(ZEROED, LETTERS);
    assert forall i :: 0 <= i < PASSWORD_SIZE ==> w[i] == PASSWORD[i];
  }

  /** The side channel: a buffer that matches the password on its first
      `k` bytes and differs at byte `k` prints exactly `k + 1` indices, so
      each further correct byte prints one more line. */
  lemma TraceGrowsWithPrefix(buf: bytes, k: nat)
    requires |buf| == PASSWORD_SIZE && k < PASSWORD_SIZE
    requires forall i :: 0 <= i < k ==> buf[i] == PASSWORD[i]
    requires buf[k] != PASSWORD[k]
    ensures Scanned(buf, PASSWORD, PASSWORD_SIZE) == k + 1
    ensures Verdict(buf) == WRONG
  {
    FirstMismatchSpec(buf, PASSWORD, PASSWORD_SIZE);
    var m := FirstMismatch(buf, PASSWORD, PASSWORD_SIZE);
    assert m <= k;
    assert !(m < k);
  }

  /** An empty comparison is a match with nothing printed. */
  lemma EmptyCompare(s1: bytes, s2: bytes)
    ensures Scanned(s1, s2, 0) == 0
    ensures FirstMismatch(s1, s2, 0) == 0
  {
  }

  /** The byte brute-forced in one round is visible: for a buffer with the
      first `k` bytes right, trying byte `b` at position `k` prints more
      lines exactly when `b` is the right byte. */
  lemma RightByteScansFurther(buf: bytes, k: nat, b: u8)
    requires |buf| == PASSWORD_SIZE && k + 1 < PASSWORD_SIZE
    requires forall i :: 0 <= i < k ==> buf[i] == PASSWORD[i]
    requires buf[k + 1] != PASSWORD[k + 1]
    ensures Scanned(buf[k := b], PASSWORD, PASSWORD_SIZE) == (if b == PASSWORD[k] then k + 2 else k + 1)
  {
    var t := buf[k := b];
    if b == PASSWORD[k] {
      TraceGrowsWithPrefix(t, k + 1);
    } else {
      TraceGrowsWithPrefix(t, k);
    }
  }
}
