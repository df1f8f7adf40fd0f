/** The state the terminal UI (src/b7tui.rs) keeps between redraws, and how
    `update`, `wait` and `done` change it. Drawing is left out: a key press
    is a pure step on `View`, and reading the keyboard becomes a sequence of
    keys. */
module Tui {
  import opened Machine
  import Arith

  /** A `Vec` of titles: its length is a `usize`. */
  type Titles = s: seq<string> | |s| <= U64_MAX

  /** `TabsState`. */
  datatype TabsState = TabsState(titles: Titles, index: usize)

  /** `TabsState::new`. */
  function NewTabs(titles: Titles): (t: TabsState)
    ensures t.titles == titles && t.index == 0
  {
    TabsState(titles, 0)
  }

  /** The index names a tab. */
  predicate InRange(t: TabsState)
  {
    t.index < |t.titles|
  }

  /** `TabsState::next`: forward with wrap-around. `% titles.len()` panics on
      no titles and `index + 1` must not overflow. */
  function TabsNext(t: TabsState): (t': TabsState)
    requires |t.titles| > 0 && t.index < U64_MAX
    ensures t'.titles == t.titles && InRange(t')
    ensures t.index + 1 < |t.titles| ==> t'.index == t.index + 1
    ensures t.index + 1 == |t.titles| ==> t'.index == 0
  {
    t.(index := (t.index + 1) % |t.titles|)
  }

  /** `TabsState::previous`: back with wrap-around to the last tab.
      `titles.len() - 1` panics on no titles when the index is 0. */
  function TabsPrevious(t: TabsState): (t': TabsState)
    requires t.index > 0 || |t.titles| > 0
    ensures t'.titles == t.titles
    ensures t.index > 0 ==> t'.index == t.index - 1
    ensures t.index == 0 ==> t'.index == |t.titles| - 1
    ensures InRange(t) ==> InRange(t')
  {
    if t.index > 0 then t.(index := t.index - 1) else t.(index := |t.titles| - 1)
  }

  /** `previous` undoes `next` and `next` undoes `previous` on an index in
      range. */
  lemma NextPreviousInverse(t: TabsState)
    requires InRange(t)
    ensures TabsPrevious(TabsNext(t)) == t
    ensures TabsNext(TabsPrevious(t)) == t
  {
  }

  /** `n` presses of `next`. */
  function NextTimes(t: TabsState, n: nat): (t': TabsState)
    requires InRange(t)
    ensures InRange(t') && t'.titles == t.titles
  {
    if n == 0 then t else TabsNext(NextTimes(t, n - 1))
  }

  /** `n` presses of `next` move the index `n` tabs forward, cyclically. */
  lemma NextTimesCycles(t: TabsState, n: nat)
    requires InRange(t)
    ensures NextTimes(t, n).index == (t.index + n) % |t.titles|
  {
    NextTimesWraps(t, n);
    Arith.WrapIsMod(t.index + n, |t.titles|);
  }

  /** The same count, reduced by repeated subtraction. */
  lemma {:induction false} NextTimesWraps(t: TabsState, n: nat)
    requires InRange(t)
    ensures NextTimes(t, n).index == Arith.Wrap(t.index + n, |t.titles|)
  {
    if n == 0 {
      assert Arith.Wrap(t.index, |t.titles|) == t.index;
    } else {
      NextTimesWraps(t, n - 1);
      Arith.WrapSucc(t.index + (n - 1), |t.titles|);
      assert NextTimes(t, n) == TabsNext(NextTimes(t, n - 1));
    }
  }

  datatype Format = Hex | Str | Decimal

  /** The keys the loops react to; everything else is `Other`. */
  datatype Key = Char(c: char) | Left | Right | Up | Down | Other

  /** Panic messages. */
  const QUITTING: string := "Quitting"
  const FORCE_CLOSING: string := "Force Closing"
  const OVERFLOW: string := "attempt to add with overflow"
  const UNDERFLOW: string := "attempt to subtract with overflow"

  /** The two entries of the options list on the second tab. */
  const OPTION_COUNT: nat := 2

  /** The state `redraw` shows: runs recorded (`numrun`) and the one on
      screen (`currun`, counted from 1), bar gap, number format, whether
      to continue without pausing, the tabs, the highlighted list entry,
      the length of the history list, and the two editable options. */
  datatype View = View(
    numrun: u64,
    currun: u64,
    gap: u16,
    format: Format,
    cont: bool,
    tabs: TabsState,
    selected: Option<usize>,
    historyLen: usize,
    repeat: u32,
    timeout: u64)

  /** `Tui::new`, without the terminal: nothing recorded, two tabs. */
  function NewView(): (v: View)
    ensures v.numrun == 0 && v.currun == 0 && v.gap == 0 && v.format == Hex && !v.cont
    ensures v.tabs.titles == ["Tab1", "Tab2"] && v.tabs.index == 0
    ensures v.selected.None? && v.historyLen == 0 && v.repeat == 1 && v.timeout == 5
  {
    View(0, 0, 0, Hex, false, NewTabs(["Tab1", "Tab2"]), None, 0, 1, 5)
  }

  /** `set_timeout`, with the duration given in whole seconds. */
  function SetTimeout(v: View, secs: u64): (v': View)
    ensures v'.timeout == secs && v' == v.(timeout := v'.timeout)
  {
    v.(timeout := secs)
  }

  /** `currun` is 0 only while nothing is recorded, and otherwise names a
      recorded run. */
  predicate RunsValid(v: View)
  {
    v.currun <= v.numrun && (v.numrun > 0 ==> v.currun >= 1)
  }

  /** The bookkeeping of `Ui::update` for a new round of results: a view
      showing the newest run follows it, and the count grows by one. */
  function RecordRun(v: View): (r: Result<View, string>)
    ensures r.Err? <==> v.numrun == U64_MAX
    ensures r.Ok? ==> r.value.numrun == v.numrun + 1
    ensures r.Ok? ==> r.value.currun == (if v.currun == v.numrun then v.currun + 1 else v.currun)
    ensures r.Ok? ==> r.value == v.(numrun := r.value.numrun, currun := r.value.currun)
    ensures r.Ok? && RunsValid(v) ==> RunsValid(r.value)
  {
    if v.numrun == U64_MAX then Err(OVERFLOW)
    else if v.currun == v.numrun then Ok(v.(currun := v.currun + 1, numrun := v.numrun + 1))
    else Ok(v.(numrun := v.numrun + 1))
  }

  /** What one key does inside a loop: go on, leave the loop, or panic. */
  datatype Step = Go(view: View) | Break(view: View) | Panic(msg: string)

  /** The keys shared by `wait` and `done`: `h`/`d`/`s` choose the number
      format, Left steps back to run 1 at most, `=` widens the bar gap
      (which panics at `u16::MAX`), `-` narrows it down to 0. */
  function CommonKey(v: View, k: Key): (r: Option<Step>)
    ensures r.Some? <==> k in {Char('h'), Char('d'), Char('s'), Left, Char('='), Char('-')}
    ensures r == Some(Panic(OVERFLOW)) <==> k == Char('=') && v.gap == U16_MAX
    ensures r.Some? && r.value.Go? ==>
      && r.value.view.numrun == v.numrun && r.value.view.tabs == v.tabs
      && r.value.view.selected == v.selected && r.value.view.cont == v.cont
    ensures k == Char('=') && v.gap < U16_MAX ==> r == Some(Go(v.(gap := v.gap + 1)))
    ensures k == Char('-') ==> r == Some(Go(v.(gap := if v.gap > 0 then v.gap - 1 else 0)))
    ensures k == Left ==> r == Some(Go(v.(currun := if v.currun > 1 then v.currun - 1 else v.currun)))
    ensures k == Char('h') ==> r == Some(Go(v.(format := Hex)))
    ensures k == Char('d') ==> r == Some(Go(v.(format := Decimal)))
    ensures k == Char('s') ==> r == Some(Go(v.(format := Str)))
  {
    match k
    case Char('h') => Some(Go(v.(format := Hex)))
    case Char('d') => Some(Go(v.(format := Decimal)))
    case Char('s') => Some(Go(v.(format := Str)))
    case Left => Some(Go(if v.currun > 1 then v.(currun := v.currun - 1) else v))
    case Char('=') => Some(if v.gap == U16_MAX then Panic(OVERFLOW) else Go(v.(gap := v.gap + 1)))
    case Char('-') => Some(Go(if v.gap > 0 then v.(gap := v.gap - 1) else v))
    case _ => None
  }

  /** Up in a list: to the entry above, stopping at the top; from no
      selection to the first entry. */
  function SelectUp(s: Option<usize>): (s': Option<usize>)
    ensures s.None? ==> s' == Some(0)
    ensures s.Some? ==> s'.Some? && s'.value == (if s.value > 0 then s.value - 1 else 0)
  {
    match s
    case None => Some(0)
    case Some(x) => if x > 0 then Some(x - 1) else s
  }

  /** Down in a list: to the entry below while `x < bound`; from no selection
      to the first entry. */
  function SelectDown(s: Option<usize>, bound: usize): (s': Option<usize>)
    ensures s.None? ==> s' == Some(0)
    ensures s.Some? ==> s'.Some? && s'.value == (if s.value < bound then s.value + 1 else s.value)
  {
    match s
    case None => Some(0)
    case Some(x) => if x < bound then Some(x + 1) else s
  }

  /** One key of `wait` other than Enter on the options tab: `q` panics,
      `c` flips `cont` and leaves when it is now set, Right steps forward or
      leaves at the newest run, Up/Down move in the options list on the
      second tab only, `.`/`,` switch tabs without wrapping. */
  function WaitKey(v: View, k: Key): (r: Step)
    ensures k == Char('q') ==> r == Panic(QUITTING)
    ensures k == Char('c') ==> r == (if v.cont then Go(v.(cont := false)) else Break(v.(cont := true)))
    ensures k == Right ==> r == (if v.currun < v.numrun then Go(v.(currun := v.currun + 1)) else Break(v))
    ensures k == Char('.') && |v.tabs.titles| > 0 ==>
      r == Go(v.(tabs := v.tabs.(index := if v.tabs.index < |v.tabs.titles| - 1 then v.tabs.index + 1 else v.tabs.index)))
    ensures k == Char('.') && |v.tabs.titles| == 0 ==> r == Panic(UNDERFLOW)
    ensures k == Char(',') ==>
      r == Go(v.(tabs := v.tabs.(index := if v.tabs.index > 0 then v.tabs.index - 1 else 0)))
    ensures k == Up ==> r == Go(if v.tabs.index == 1 then v.(selected := SelectUp(v.selected)) else v)
    ensures k == Down ==> r == Go(if v.tabs.index == 1 then v.(selected := SelectDown(v.selected, OPTION_COUNT - 1)) else v)
    ensures CommonKey(v, k).Some? ==> r == CommonKey(v, k).value
    ensures CommonKey(v, k).None? && k !in {Char('q'), Char('c'), Right, Char('.'), Char(','), Up, Down} ==>
      r == Go(v)
  {
    match CommonKey(v, k)
    case Some(step) => step
    case None =>
      match k
      case Char('q') => Panic(QUITTING)
      case Char('c') => if v.cont then Go(v.(cont := false)) else Break(v.(cont := true))
      case Right => if v.currun < v.numrun then Go(v.(currun := v.currun + 1)) else Break(v)
      case Up => Go(if v.tabs.index == 1 then v.(selected := SelectUp(v.selected)) else v)
      case Down => Go(if v.tabs.index == 1 then v.(selected := SelectDown(v.selected, OPTION_COUNT - 1)) else v)
      case Char('.') =>
        if |v.tabs.titles| == 0 then Panic(UNDERFLOW)
        else if v.tabs.index < |v.tabs.titles| - 1 then Go(v.(tabs := v.tabs.(index := v.tabs.index + 1)))
        else Go(v)
      case Char(',') => Go(if v.tabs.index > 0 then v.(tabs := v.tabs.(index := v.tabs.index - 1)) else v)
      case _ => Go(v)
  }

  /** The value of a string of decimal digits. */
  function DecimalValue(s: string): nat
    requires forall i :: 0 <= i < |s| ==> '0' <= s[i] <= '9'
  {
    if |s| == 0 then 0 else 10 * DecimalValue(s[..|s| - 1]) + (s[|s| - 1] as int - '0' as int)
  }

  /** `buffer.parse::<uN>()` on a buffer of decimal digits: an error when
      empty or above `limit`. */
  function ParseDigits(s: string, limit: nat): (r: Option<nat>)
    requires forall i :: 0 <= i < |s| ==> '0' <= s[i] <= '9'
    ensures r.Some? <==> |s| > 0 && DecimalValue(s) <= limit
    ensures r.Some? ==> r.value == DecimalValue(s) <= limit
  {
    if |s| == 0 || DecimalValue(s) > limit then None else Some(DecimalValue(s))
  }

  /** `x as i32` for the selected list entry: the low 32 bits, read as two's
      complement. */
  function AsI32(x: usize): (r: int)
    ensures -0x8000_0000 <= r < 0x8000_0000
    ensures (r - x) % 0x1_0000_0000 == 0
  {
    var t := x % 0x1_0000_0000;
    if t >= 0x8000_0000 then t - 0x1_0000_0000 else t
  }

  /** Only digits enter the buffer. */
  predicate Digits(s: string)
  {
    forall i :: 0 <= i < |s| ==> '0' <= s[i] <= '9'
  }

  /** One key of the option editor after the buffer took it: the selected
      option (`repeat` for entry 0, `timeout` for entry 1) becomes the
      buffer's value, or 0 with the buffer cleared when it does not parse. */
  function ApplyBuffer(v: View, option: int, buffer: string): (r: (View, string))
    requires Digits(buffer)
    ensures Digits(r.1)
    ensures option != 0 && option != 1 ==> r == (v, buffer)
    ensures option == 0 ==> r.0 == v.(repeat := r.0.repeat)
    ensures option == 1 ==> r.0 == v.(timeout := r.0.timeout)
    ensures option == 0 && ParseDigits(buffer, U32_MAX).Some? ==> r == (v.(repeat := DecimalValue(buffer)), buffer)
    ensures option == 0 && ParseDigits(buffer, U32_MAX).None? ==> r == (v.(repeat := 0), "")
    ensures option == 1 && ParseDigits(buffer, U64_MAX).Some? ==> r == (v.(timeout := DecimalValue(buffer)), buffer)
    ensures option == 1 && ParseDigits(buffer, U64_MAX).None? ==> r == (v.(timeout := 0), "")
  {
    if option == 0 then
      match ParseDigits(buffer, U32_MAX)
      case Some(n) => (v.(repeat := n), buffer)
      case None => (v.(repeat := 0), "")
    else if option == 1 then
      match ParseDigits(buffer, U64_MAX)
      case Some(n) => (v.(timeout := n), buffer)
      case None => (v.(timeout := 0), "")
    else (v, buffer)
  }

  /** The option editor Enter opens on the second tab: it reads keys up to
      the next Enter (or the end of input), keeps the digits typed, and
      after every other key stores the parsed buffer into the selected
      option. Returns the view and the keys after the closing Enter. */
  function EditOption(v: View, option: int, buffer: string, keys: seq<Key>): (r: (View, seq<Key>))
    requires Digits(buffer)
    ensures |r.1| < |keys| || (keys == [] && r.1 == [])
    ensures r.0 == v.(repeat := r.0.repeat, timeout := r.0.timeout)
    ensures option != 0 ==> r.0.repeat == v.repeat
    ensures option != 1 ==> r.0.timeout == v.timeout
    decreases |keys|
  {
    if |keys| == 0 then (v, [])
    else if keys[0] == Char('\n') then (v, keys[1..])
    else
      var buffer' := if keys[0].Char? && '0' <= keys[0].c <= '9' then buffer + [keys[0].c] else buffer;
      var (v', buffer'') := ApplyBuffer(v, option, buffer');
      EditOption(v', option, buffer'', keys[1..])
  }

  /** How `wait` ends: input ran out, a key left the loop, or it panicked. */
  datatype Exit = Exhausted | LeftLoop | Panicked(msg: string)

  /** `wait`: return at once when `cont` is set; otherwise handle keys until
      one leaves the loop, one panics, or input runs out. Returns the view,
      how the loop ended, and the unread keys. */
  function Wait(v: View, keys: seq<Key>): (r: (View, Exit, seq<Key>))
    ensures v.cont ==> r == (v, Exhausted, keys)
    ensures |r.2| <= |keys|
    decreases |keys|
  {
    if v.cont then (v, Exhausted, keys)
    else WaitLoop(v, keys)
  }

  /** The key loop of `wait`. */
  function WaitLoop(v: View, keys: seq<Key>): (r: (View, Exit, seq<Key>))
    ensures |r.2| <= |keys|
    ensures r.1 == Exhausted ==> r.2 == []
    decreases |keys|
  {
    if |keys| == 0 then (v, Exhausted, [])
    else if keys[0] == Char('\n') then
      if v.tabs.index == 1 then
        var option := if v.selected.Some? then AsI32(v.selected.value) else -1;
        var (v', rest) := EditOption(v, option, "", keys[1..]);
        WaitLoop(v', rest)
      else WaitLoop(v, keys[1..])
    else
      match WaitKey(v, keys[0])
      case Go(v') => WaitLoop(v', keys[1..])
      case Break(v') => (v', LeftLoop, keys[1..])
      case Panic(m) => (v, Panicked(m), keys[1..])
  }

  /** What `wait` keeps: a valid run position, a tab in range and an options
      selection that stays inside the two-entry list. */
  predicate WaitInvariant(v: View)
  {
    && RunsValid(v)
    && InRange(v.tabs)
    && (v.selected.Some? ==> v.selected.value < OPTION_COUNT)
  }

  /** A single key of `wait` keeps the invariant (unless it panics). */
  lemma WaitKeyKeeps(v: View, k: Key)
    requires WaitInvariant(v)
    ensures WaitKey(v, k).Go? ==> WaitInvariant(WaitKey(v, k).view)
    ensures WaitKey(v, k).Break? ==> WaitInvariant(WaitKey(v, k).view)
  {
  }

  /** The option editor leaves the invariant alone: it only writes `repeat`
      and `timeout`. */
  lemma EditKeeps(v: View, option: int, buffer: string, keys: seq<Key>)
    requires Digits(buffer) && WaitInvariant(v)
    ensures WaitInvariant(EditOption(v, option, buffer, keys).0)
  {
  }

  /** The whole `wait` call keeps the invariant, however it ends. */
  lemma {:induction false} WaitKeeps(v: View, keys: seq<Key>)
    requires WaitInvariant(v)
    ensures WaitInvariant(WaitLoop(v, keys).0)
    ensures WaitInvariant(Wait(v, keys).0)
    decreases |keys|
  {
    if |keys| > 0 {
      if keys[0] == Char('\n') {
        if v.tabs.index == 1 {
          var option := if v.selected.Some? then AsI32(v.selected.value) else -1;
          var (v', rest) := EditOption(v, option, "", keys[1..]);
          EditKeeps(v, option, "", keys[1..]);
          WaitKeeps(v', rest);
        } else {
          WaitKeeps(v, keys[1..]);
        }
      } else {
        WaitKeyKeeps(v, keys[0]);
        if WaitKey(v, keys[0]).Go? {
          WaitKeeps(WaitKey(v, keys[0]).view, keys[1..]);
        }
      }
    }
  }

  /** A key other than Enter extends the buffer when it is a digit, stores
      the buffer into the selected option, and the editor goes on. */
  lemma EditKeyStep(v: View, option: int, buffer: string, k: Key, rest: seq<Key>)
    requires Digits(buffer) && k != Char('\n')
    ensures var buffer' := if k.Char? && '0' <= k.c <= '9' then buffer + [k.c] else buffer;
      var (v', buffer'') := ApplyBuffer(v, option, buffer');
      EditOption(v, option, buffer, [k] + rest) == EditOption(v', option, buffer'', rest)
  {
    assert ([k] + rest)[0] == k && ([k] + rest)[1..] == rest;
  }

  /** Enter closes the editor and leaves the view as it is. */
  lemma EditEnterStep(v: View, option: int, buffer: string, rest: seq<Key>)
    requires Digits(buffer)
    ensures EditOption(v, option, buffer, [Char('\n')] + rest) == (v, rest)
  {
    assert ([Char('\n')] + rest)[0] == Char('\n') && ([Char('\n')] + rest)[1..] == rest;
  }

  /** The keys typed for a string of characters. */
  function Keys(d: string): (r: seq<Key>)
    ensures |r| == |d|
    ensures forall i :: 0 <= i < |d| ==> r[i] == Char(d[i])
  {
    seq(|d|, i requires 0 <= i < |d| => Char(d[i]))
  }

  /** A leading part of a digit string is worth no more than the whole. */
  lemma {:induction false} DecimalPrefixAtMost(s: string, i: nat)
    requires Digits(s) && i <= |s|
    ensures DecimalValue(s[..i]) <= DecimalValue(s)
    decreases |s|
  {
    if i < |s| {
      var t := s[..|s| - 1];
      DecimalPrefixAtMost(t, i);
      assert t[..i] == s[..i];
    } else {
      assert s[..i] == s;
    }
  }

  /** The keys of a non-empty string start with its first character. */
  lemma KeysCons(d: string, rest: seq<Key>)
    requires |d| > 0
    ensures Keys(d) + [Char('\n')] + rest == [Char(d[0])] + (Keys(d[1..]) + [Char('\n')] + rest)
  {
    assert Keys(d) == [Char(d[0])] + Keys(d[1..]);
  }

  /** The selected option (`repeat` for entry 0, `timeout` for entry 1) set
      to `n`. */
  function StoreOption(v: View, option: int, n: nat): View
    requires option == 0 || option == 1
    requires n <= if option == 0 then U32_MAX else U64_MAX
  {
    if option == 0 then v.(repeat := n) else v.(timeout := n)
  }

  /** Storing twice keeps the second value. */
  lemma StoreTwice(v: View, option: int, m: nat, n: nat)
    requires option == 0 || option == 1
    requires m <= n <= if option == 0 then U32_MAX else U64_MAX
    ensures StoreOption(StoreOption(v, option, m), option, n) == StoreOption(v, option, n)
  {
  }

  /** Moving the first digit of `d` onto the buffer keeps the whole text. */
  lemma ShiftDigit(b: string, d: string)
    requires |d| > 0
    ensures (b + [d[0]]) + d[1..] == b + d
  {
  }

  /** One digit typed into the editor: the longer buffer still fits the
      selected option, so the option takes its value. */
  lemma EditDigitStep(v: View, option: int, b: string, c: char, tail: seq<Key>)
    requires option == 0 || option == 1
    requires Digits(b) && '0' <= c <= '9'
    requires DecimalValue(b + [c]) <= if option == 0 then U32_MAX else U64_MAX
    ensures EditOption(v, option, b, [Char(c)] + tail) ==
      EditOption(StoreOption(v, option, DecimalValue(b + [c])), option, b + [c], tail)
  {
    EditKeyStep(v, option, b, Char(c), tail);
  }

  /** The last digit and Enter. */
  lemma EditLastDigit(v: View, option: int, b: string, d: string, rest: seq<Key>)
    requires option == 0 || option == 1
    requires Digits(b) && Digits(d) && |d| == 1
    requires DecimalValue(b + d) <= if option == 0 then U32_MAX else U64_MAX
    ensures EditOption(v, option, b, Keys(d) + [Char('\n')] + rest) ==
      (StoreOption(v, option, DecimalValue(b + d)), rest)
  {
    KeysCons(d, rest);
    assert b + [d[0]] == b + d;
    assert Keys(d[1..]) + [Char('\n')] + rest == [Char('\n')] + rest;
    EditDigitStep(v, option, b, d[0], [Char('\n')] + rest);
    EditEnterStep(StoreOption(v, option, DecimalValue(b + d)), option, b + d, rest);
  }

  /** A digit that is not the last one: its prefix of the number fits too. */
  lemma EditNextDigit(v: View, option: int, b: string, d: string, rest: seq<Key>)
    requires option == 0 || option == 1
    requires Digits(b) && Digits(d) && |d| > 1
    requires DecimalValue(b + d) <= if option == 0 then U32_MAX else U64_MAX
    ensures DecimalValue(b + [d[0]]) <= DecimalValue(b + d)
    ensures EditOption(v, option, b, Keys(d) + [Char('\n')] + rest) ==
      EditOption(StoreOption(v, option, DecimalValue(b + [d[0]])), option, b + [d[0]],
                 Keys(d[1..]) + [Char('\n')] + rest)
  {
    assert b + [d[0]] == (b + d)[..|b| + 1];
    DecimalPrefixAtMost(b + d, |b| + 1);
    KeysCons(d, rest);
    EditDigitStep(v, option, b, d[0], Keys(d[1..]) + [Char('\n')] + rest);
  }

  /** Typing a non-empty number and Enter into the editor, with `repeat` or
      `timeout` selected, stores the number typed (after whatever the buffer
      already held) into that option, provided it fits the option's type, and
      consumes exactly the keys up to that Enter. */
  lemma {:induction false} EditStoresNumber(v: View, option: int, b: string, d: string, rest: seq<Key>)
    requires option == 0 || option == 1
    requires Digits(b) && Digits(d) && |d| > 0
    requires DecimalValue(b + d) <= if option == 0 then U32_MAX else U64_MAX
    ensures EditOption(v, option, b, Keys(d) + [Char('\n')] + rest) ==
      (StoreOption(v, option, DecimalValue(b + d)), rest)
    decreases |d|, 1
  {
    if |d| == 1 {
      EditLastDigit(v, option, b, d, rest);
    } else {
      EditStoresMore(v, option, b, d, rest);
    }
  }

  /** The inductive step of `EditStoresNumber`: the first of several digits. */
  lemma {:induction false} EditStoresMore(v: View, option: int, b: string, d: string, rest: seq<Key>)
    requires option == 0 || option == 1
    requires Digits(b) && Digits(d) && |d| > 1
    requires DecimalValue(b + d) <= if option == 0 then U32_MAX else U64_MAX
    ensures EditOption(v, option, b, Keys(d) + [Char('\n')] + rest) ==
      (StoreOption(v, option, DecimalValue(b + d)), rest)
    decreases |d|, 0
  {
    EditNextDigit(v, option, b, d, rest);
    var b' := b + [d[0]];
    var v' := StoreOption(v, option, DecimalValue(b'));
    ShiftDigit(b, d);
    EditStoresNumber(v', option, b', d[1..], rest);
    StoreTwice(v, option, DecimalValue(b'), DecimalValue(b + d));
  }

  /** Typing `7`, `5` and Enter with `Timeout` selected sets the timeout to
      75 seconds, the value after the last digit. */
  lemma EditTimeoutExample(v: View)
    ensures EditOption(v, 1, "", [Char('7'), Char('5'), Char('\n')]) == (v.(timeout := 75), [])
  {
    var v1 := v.(timeout := 7);
    var v2 := v.(timeout := 75);
    assert [Char('7'), Char('5'), Char('\n')] == [Char('7')] + [Char('5'), Char('\n')];
    assert [Char('5'), Char('\n')] == [Char('5')] + [Char('\n')];
    assert [Char('\n')] == [Char('\n')] + [];
    TimeoutDigits(v);
    EditKeyStep(v, 1, "", Char('7'), [Char('5'), Char('\n')]);
    EditKeyStep(v1, 1, "7", Char('5'), [Char('\n')]);
    EditEnterStep(v2, 1, "75", []);
  }

  /** The two buffers of the example parse to 7 and 75. */
  lemma TimeoutDigits(v: View)
    ensures "" + ['7'] == "7" && "7" + ['5'] == "75"
    ensures ApplyBuffer(v, 1, "7") == (v.(timeout := 7), "7")
    ensures ApplyBuffer(v.(timeout := 7), 1, "75") == (v.(timeout := 75), "75")
  {
    assert "7"[..0] == "";
    assert DecimalValue("7") == 10 * DecimalValue("") + 7;
    assert "75"[..1] == "7";
    assert DecimalValue("75") == 10 * DecimalValue("7") + 5;
  }

  /** One key of `done`: `q` and `p` panic, Right steps forward but never past
      the newest run, Up/Down move in the history list with Down stopping at
      `history.len()`; the loop never breaks. */
  function DoneKey(v: View, k: Key): (r: Step)
    ensures !r.Break?
    ensures k == Char('q') ==> r == Panic(QUITTING)
    ensures k == Char('p') ==> r == Panic(FORCE_CLOSING)
    ensures k == Right ==> r == Go(v.(currun := if v.currun < v.numrun then v.currun + 1 else v.currun))
    ensures k == Up ==> r == Go(v.(selected := SelectUp(v.selected)))
    ensures k == Down ==> r == Go(v.(selected := SelectDown(v.selected, v.historyLen)))
    ensures CommonKey(v, k).Some? ==> r == CommonKey(v, k).value
    ensures k !in {Char('q'), Char('p'), Right, Up, Down} && CommonKey(v, k).None? ==> r == Go(v)
  {
    match CommonKey(v, k)
    case Some(step) => step
    case None =>
      match k
      case Char('q') => Panic(QUITTING)
      case Char('p') => Panic(FORCE_CLOSING)
      case Right => Go(if v.currun < v.numrun then v.(currun := v.currun + 1) else v)
      case Up => Go(v.(selected := SelectUp(v.selected)))
      case Down => Go(v.(selected := SelectDown(v.selected, v.historyLen)))
      case _ => Go(v)
  }

  /** `done`: handle keys until one panics or input runs out. */
  function Done(v: View, keys: seq<Key>): (r: (View, Exit))
    ensures r.1 != LeftLoop
    decreases |keys|
  {
    if |keys| == 0 then (v, Exhausted)
    else
      match DoneKey(v, keys[0])
      case Go(v') => Done(v', keys[1..])
      case Break(v') => (v', LeftLoop)
      case Panic(m) => (v, Panicked(m))
  }

  /** What `done` keeps: a valid run position and a history selection no
      further than one past the last entry. */
  predicate DoneInvariant(v: View)
  {
    RunsValid(v) && (v.selected.Some? ==> v.selected.value <= v.historyLen)
  }

  /** The whole `done` call keeps the invariant. */
  lemma {:induction false} DoneKeeps(v: View, keys: seq<Key>)
    requires DoneInvariant(v)
    ensures DoneInvariant(Done(v, keys).0)
    decreases |keys|
  {
    if |keys| > 0 && DoneKey(v, keys[0]).Go? {
      DoneKeeps(DoneKey(v, keys[0]).view, keys[1..]);
    }
  }

  /** Keys that `done` never panics on, whatever the view. */
  predicate Harmless(keys: seq<Key>)
  {
    forall i :: 0 <= i < |keys| ==> keys[i] != Char('q') && keys[i] != Char('p') && keys[i] != Char('=')
  }

  /** Without `q`, `p` or `=`, `done` reads every key and ends only when
      input runs out. */
  lemma {:induction false} DoneRunsOut(v: View, keys: seq<Key>)
    requires Harmless(keys)
    ensures Done(v, keys).1 == Exhausted
    decreases |keys|
  {
    if |keys| > 0 {
      var k := keys[0];
      assert CommonKey(v, k).Some? ==> CommonKey(v, k).value.Go?;
      DoneRunsOut(DoneKey(v, k).view, keys[1..]);
    }
  }

  /** The first `q` after harmless keys ends `done` with the quitting
      panic, whatever follows it. */
  lemma {:induction false} DoneQuitsAtQ(v: View, pre: seq<Key>, post: seq<Key>)
    requires Harmless(pre)
    ensures Done(v, pre + [Char('q')] + post).1 == Panicked(QUITTING)
    decreases |pre|
  {
    var keys := pre + [Char('q')] + post;
    if |pre| == 0 {
      assert keys[0] == Char('q');
    } else {
      var k := pre[0];
      assert keys[0] == k && keys[1..] == pre[1..] + [Char('q')] + post;
      assert CommonKey(v, k).Some? ==> CommonKey(v, k).value.Go?;
      DoneQuitsAtQ(DoneKey(v, k).view, pre[1..], post);
    }
  }

  /** `-` and `=` in either loop: `-` never takes the gap below 0, `=` adds
      exactly one, and `=` then `-` restores the gap. */
  lemma GapKeys(v: View)
    ensures DoneKey(v, Char('-')).view.gap == (if v.gap > 0 then v.gap - 1 else 0)
    ensures WaitKey(v, Char('-')).view.gap == DoneKey(v, Char('-')).view.gap
    ensures v.gap < U16_MAX ==> DoneKey(v, Char('=')).view.gap == v.gap + 1
    ensures v.gap < U16_MAX ==> DoneKey(DoneKey(v, Char('=')).view, Char('-')).view == v
  {
  }
}
