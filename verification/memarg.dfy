/** `MemInput::parse_from_arg` (src/generators/mod.rs): a memory input given
    on the command line as `addr=XXX,size=YYY,init=ZZZ`. */
module MemArg {
  import opened Machine
  import opened Hex
  import opened Common

  /** `str::split` on one separator character: the pieces between separators,
      at least one (the empty string splits into one empty piece). */
  function Split(s: string, sep: char): (r: seq<string>)
    ensures |r| >= 1
    ensures forall i :: 0 <= i < |r| ==> sep !in r[i]
    decreases |s|
  {
    if |s| == 0 then [""]
    else
      var rest := Split(s[1..], sep);
      if s[0] == sep then [""] + rest
      else [[s[0]] + rest[0]] + rest[1..]
  }

  /** The pieces glued back together with the separator between them. */
  function Join(parts: seq<string>, sep: char): string
  {
    if |parts| == 0 then ""
    else if |parts| == 1 then parts[0]
    else parts[0] + [sep] + Join(parts[1..], sep)
  }

  /** Joining the pieces of a split gives the original text back. */
  lemma {:induction false} JoinSplit(s: string, sep: char)
    ensures Join(Split(s, sep), sep) == s
    decreases |s|
  {
    if |s| > 0 {
      var rest := Split(s[1..], sep);
      JoinSplit(s[1..], sep);
      if s[0] == sep {
        assert Split(s, sep)[1..] == rest;
        assert s == [sep] + s[1..];
      } else {
        var r := Split(s, sep);
        assert r[0] == [s[0]] + rest[0];
        if |rest| == 1 {
          assert s == [s[0]] + rest[0];
        } else {
          assert r[1..] == rest[1..];
          assert Join(rest, sep) == rest[0] + [sep] + Join(rest[1..], sep);
          assert s == [s[0]] + s[1..];
        }
      }
    }
  }

  /** Splitting pieces that were joined gives the pieces back, as long as no
      piece holds the separator. */
  lemma {:induction false} SplitJoin(parts: seq<string>, sep: char)
    requires |parts| >= 1
    requires forall i :: 0 <= i < |parts| ==> sep !in parts[i]
    ensures Split(Join(parts, sep), sep) == parts
    decreases |parts|, |parts[0]|
  {
    if |parts| == 1 {
      SplitPlain(parts[0], sep);
    } else if |parts[0]| == 0 {
      SplitJoin(parts[1..], sep);
      assert Join(parts, sep) == [sep] + Join(parts[1..], sep);
      assert ([sep] + Join(parts[1..], sep))[1..] == Join(parts[1..], sep);
      assert parts == [""] + parts[1..];
    } else {
      var c := parts[0][0];
      var shorter := [parts[0][1..]] + parts[1..];
      assert forall i :: 0 <= i < |shorter| ==> sep !in shorter[i] by {
        forall i | 0 <= i < |shorter| ensures sep !in shorter[i] {
          if i == 0 {
            assert forall x :: x in parts[0][1..] ==> x in parts[0];
          } else {
            assert shorter[i] == parts[i];
          }
        }
      }
      SplitJoin(shorter, sep);
      assert Join(shorter, sep) == parts[0][1..] + [sep] + Join(parts[1..], sep);
      var j := Join(parts, sep);
      assert j == parts[0] + [sep] + Join(parts[1..], sep);
      assert j[0] == c && c != sep;
      assert j[1..] == Join(shorter, sep);
      assert parts[0] == [c] + parts[0][1..];
      assert parts == [[c] + shorter[0]] + shorter[1..];
    }
  }

  lemma {:induction false} SplitPlain(s: string, sep: char)
    requires sep !in s
    ensures Split(s, sep) == [s]
    decreases |s|
  {
    if |s| > 0 {
      assert forall x :: x in s[1..] ==> x in s;
      SplitPlain(s[1..], sep);
      assert s == [s[0]] + s[1..];
    }
  }

  /** How many times `c` occurs in `s`. */
  function Occurrences(s: string, c: char): nat
  {
    if |s| == 0 then 0 else (if s[0] == c then 1 else 0) + Occurrences(s[1..], c)
  }

  /** A split yields one more piece than there are separators. */
  lemma {:induction false} SplitCount(s: string, sep: char)
    ensures |Split(s, sep)| == Occurrences(s, sep) + 1
    decreases |s|
  {
    if |s| > 0 {
      SplitCount(s[1..], sep);
    }
  }

  /** `opt.split('=').collect_tuple()`: a key and a value exactly when the
      item holds exactly one `=`. */
  function KeyValue(item: string): (r: Option<(string, string)>)
    ensures r.Some? <==> Occurrences(item, '=') == 1
    ensures r.Some? ==> r.value.0 + "=" + r.value.1 == item
    ensures r.Some? ==> '=' !in r.value.0 && '=' !in r.value.1
  {
    SplitCount(item, '=');
    var parts := Split(item, '=');
    if |parts| == 2 then
      JoinSplit(item, '=');
      assert Join(parts, '=') == parts[0] + "=" + Join(parts[1..], '=');
      Some((parts[0], parts[1]))
    else None
  }

  /** Every item of the comma-separated list is one `key=value` pair. */
  predicate WellFormed(arg: string)
  {
    forall i :: 0 <= i < |Split(arg, ',')| ==> KeyValue(Split(arg, ',')[i]).Some?
  }

  /** The pairs of a list of items, or `None` at the first malformed item:
      collecting into `SolverResult` stops at the first error. */
  function Pairs(items: seq<string>): (r: Option<seq<(string, string)>>)
    ensures r.Some? <==> forall i :: 0 <= i < |items| ==> KeyValue(items[i]).Some?
    ensures r.Some? ==> |r.value| == |items|
    ensures r.Some? ==> forall i :: 0 <= i < |items| ==> r.value[i] == KeyValue(items[i]).value
  {
    if |items| == 0 then Some([])
    else
      match KeyValue(items[0])
      case None => None
      case Some(kv) =>
        match Pairs(items[1..])
        case None =>
          assert forall i :: 0 <= i < |items| - 1 ==> items[1..][i] == items[i + 1];
          None
        case Some(rest) =>
          assert forall i :: 0 <= i < |items| - 1 ==> items[1..][i] == items[i + 1];
          Some([kv] + rest)
  }

  /** Inserting the pairs into a `HashMap` one after another, so a repeated
      key keeps the value of its last occurrence. */
  function ToMap(ps: seq<(string, string)>): map<string, string>
  {
    if |ps| == 0 then map[]
    else ToMap(ps[..|ps| - 1])[ps[|ps| - 1].0 := ps[|ps| - 1].1]
  }

  /** The value of the last pair whose key is `key`, searching backwards:
      the reference the map is checked against. */
  function LastValue(ps: seq<(string, string)>, key: string): (r: Option<string>)
    ensures r.None? <==> forall i :: 0 <= i < |ps| ==> ps[i].0 != key
    ensures r.Some? ==>
      exists i :: 0 <= i < |ps| && ps[i] == (key, r.value) && forall j :: i < j < |ps| ==> ps[j].0 != key
  {
    if |ps| == 0 then None
    else if ps[|ps| - 1].0 == key then Some(ps[|ps| - 1].1)
    else
      var r := LastValue(ps[..|ps| - 1], key);
      assert ps == ps[..|ps| - 1] + [ps[|ps| - 1]];
      r
  }

  /** The map holds exactly the keys that occur, each with its last value. */
  lemma {:induction false} ToMapLastWins(ps: seq<(string, string)>, key: string)
    ensures key in ToMap(ps) <==> LastValue(ps, key).Some?
    ensures key in ToMap(ps) ==> ToMap(ps)[key] == LastValue(ps, key).value
  {
    if |ps| > 0 {
      ToMapLastWins(ps[..|ps| - 1], key);
    }
  }

  /** The options map of a well-formed argument, or `None`. */
  function Options(arg: string): Option<map<string, string>>
  {
    match Pairs(Split(arg, ','))
    case None => None
    case Some(ps) => Some(ToMap(ps))
  }

  /** The value given for `key` in a well-formed argument: its last
      occurrence. */
  function Field(arg: string, key: string): Option<string>
    requires WellFormed(arg)
  {
    LastValue(Pairs(Split(arg, ',')).value, key)
  }

  /** Why a memory argument was refused, one per error message of the source. */
  datatype ParseError =
    | InvalidUsage      // an item is not exactly one `key=value`
    | InvalidInit       // `init` is not base16
    | NoAddress
    | InvalidAddress
    | NoSize
    | InvalidSize

  /** `MemInput::parse_from_arg`, checking in the source's order: the
      `key=value` list, then `init` (absent means no bytes), then `addr`,
      then `size`. */
  function ParseFromArg(arg: string): (r: Result<MemInput, ParseError>)
    ensures r == Err(InvalidUsage) <==> !WellFormed(arg)
    ensures WellFormed(arg) ==>
      var init := if Field(arg, "init").Some? then Field(arg, "init").value else "";
      && (r == Err(InvalidInit) <==> DecodeBase16(init).None?)
      && (DecodeBase16(init).Some? ==>
            && (r == Err(NoAddress) <==> Field(arg, "addr").None?)
            && (Field(arg, "addr").Some? ==>
                  && (r == Err(InvalidAddress) <==> ParseUsizeHex(Field(arg, "addr").value).None?)
                  && (ParseUsizeHex(Field(arg, "addr").value).Some? ==>
                        && (r == Err(NoSize) <==> Field(arg, "size").None?)
                        && (Field(arg, "size").Some? ==>
                              && (r == Err(InvalidSize) <==> ParseUsizeHex(Field(arg, "size").value).None?)
                              && (ParseUsizeHex(Field(arg, "size").value).Some? ==>
                                    r == Ok(MemInput(
                                      ParseUsizeHex(Field(arg, "size").value).value,
                                      ParseUsizeHex(Field(arg, "addr").value).value,
                                      DecodeBase16(init).value)))))))
  {
    match Options(arg)
    case None => Err(InvalidUsage)
    case Some(opts) =>
      var ps := Pairs(Split(arg, ',')).value;
      ToMapLastWins(ps, "init");
      ToMapLastWins(ps, "addr");
      ToMapLastWins(ps, "size");
      var init := if "init" in opts then opts["init"] else "";
      match DecodeBase16(init)
      case None => Err(InvalidInit)
      case Some(bytes) =>
        if "addr" !in opts then Err(NoAddress)
        else
          match ParseUsizeHex(opts["addr"])
          case None => Err(InvalidAddress)
          case Some(addr) =>
            if "size" !in opts then Err(NoSize)
            else
              match ParseUsizeHex(opts["size"])
              case None => Err(InvalidSize)
              case Some(size) => Ok(MemInput(size, addr, bytes))
  }

  /** An item without `=` is refused: `a=b,a` fails to parse. */
  lemma ParseExamples()
    ensures ParseFromArg("a=b,a") == Err(InvalidUsage)
  {
    var s := "a=b,a";
    assert s[4..] == "a";
    SplitPlain("a", ',');
    SplitPlain("a", '=');
    assert s[3..] == [','] + "a";
    assert Split(s[3..], ',') == ["", "a"];
    assert Split(s, ',')[1] == "a" by {
      assert s[2..] == ['b'] + s[3..];
      assert s[1..] == ['='] + s[2..];
    }
    assert KeyValue("a").None?;
  }

  lemma SplitTwo(a: string, b: string, sep: char)
    requires sep !in a && sep !in b
    ensures Split(a + [sep] + b, sep) == [a, b]
  {
    var p := [a, b];
    assert p[1..] == [b];
    SplitJoin(p, sep);
  }

  lemma ExampleSplit()
    ensures Split("addr=f,size=2", ',') == ["addr=f", "size=2"]
  {
    SplitTwo("addr=f", "size=2", ',');
    assert "addr=f" + [','] + "size=2" == "addr=f,size=2";
  }

  lemma ExampleKeyValues()
    ensures KeyValue("addr=f") == Some(("addr", "f"))
    ensures KeyValue("size=2") == Some(("size", "2"))
  {
    SplitTwo("addr", "f", '=');
    assert "addr" + ['='] + "f" == "addr=f";
    SplitTwo("size", "2", '=');
    assert "size" + ['='] + "2" == "size=2";
  }

  lemma ExamplePairs()
    ensures Pairs(["addr=f", "size=2"]) == Some([("addr", "f"), ("size", "2")])
  {
    ExampleKeyValues();
    var items := ["addr=f", "size=2"];
    var r := Pairs(items);
    assert KeyValue(items[0]).Some? && KeyValue(items[1]).Some?;
    assert r.value[0] == ("addr", "f") && r.value[1] == ("size", "2");
    assert r.value == [("addr", "f"), ("size", "2")];
  }

  lemma ExampleFields()
    ensures LastValue([("addr", "f"), ("size", "2")], "addr") == Some("f")
    ensures LastValue([("addr", "f"), ("size", "2")], "size") == Some("2")
    ensures LastValue([("addr", "f"), ("size", "2")], "init") == None
  {
    var ps := [("addr", "f"), ("size", "2")];
    assert ps[..1] == [("addr", "f")];
    assert ps[1].0[0] != "addr"[0];
    assert LastValue(ps, "addr") == LastValue(ps[..1], "addr");
    assert ps[0].0[0] != "init"[0] && ps[1].0[0] != "init"[0];
  }

  lemma ExampleOptions()
    ensures WellFormed("addr=f,size=2")
    ensures Field("addr=f,size=2", "init") == None
    ensures Field("addr=f,size=2", "addr") == Some("f")
    ensures Field("addr=f,size=2", "size") == Some("2")
  {
    ExampleSplit();
    ExamplePairs();
    ExampleFields();
    var ps := [("addr", "f"), ("size", "2")];
    assert Pairs(Split("addr=f,size=2", ',')).value == ps;
  }

  lemma ExampleNumbers()
    ensures ParseUsizeHex("f") == Some(15)
    ensures ParseUsizeHex("2") == Some(2)
  {
    assert DigitsValue("f") == 15 by { assert "f"[..0] == ""; }
    assert DigitsValue("2") == 2 by { assert "2"[..0] == ""; }
  }

  /** `addr=f,size=2` parses to address 0xf, size 2 and no initial bytes. */
  lemma ParseAddrSizeExample(arg: string)
    requires arg == "addr=f,size=2"
    ensures ParseFromArg(arg) == Ok(MemInput(2, 15, []))
  {
    ExampleOptions();
    ExampleNumbers();
    assert DecodeBase16("") == Some([]);
  }
}
