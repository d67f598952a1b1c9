/** The accessor generator (src/generate.py): it scans a device's documentation page line by line,
    decodes the rows of its control tables, and emits for each row a getter and, for a writable
    field, a setter, inside a trait named after the device. The emitted Rust text is represented by
    a descriptor per accessor that holds everything the text is made from. */
module Generator {
  import opened Bytes
  import opened Results
  import opened Text
  import opened Frames
  import Accessors

  /** What aborts a run: an unpacking error on a row with too few cells, or `int` failing on a cell. */
  datatype GenError = TooFewCells | NotANumber

  /** The cells of a control-table row the generator uses. */
  datatype Row = Row(address: string, size: string, dataName: string, description: string,
                     access: string, initialValue: string)

  datatype Kind = Getter | Setter

  /** One emitted accessor: its kind and function name, the address and size each split into a
      (low, high) pair, the size in bytes (the value type is u{8 * size}), and its doc comment parts. */
  datatype Accessor = Accessor(kind: Kind, name: string, address: (int, int), size: int,
                               sizeBytes: (int, int), description: string, initialValue: string)

  /** The emitted module: the trait's name and its accessors, in order. */
  datatype Module = Module(traitName: string, accessors: seq<Accessor>)

  // ---- generate() ----

  /** `(v & 0xFF, v >> 8)`: Python's `&` and `>>` on an int are the Euclidean remainder and
      quotient by 256. The high part is not masked. */
  function ByteSplit(v: int): (int, int)
  {
    (v % 256, v / 256)
  }

  /** The split loses nothing, and it is a pair of bytes exactly when the number fits 16 bits; then
      it is the pair the accessor templates push. */
  lemma ByteSplitParts(v: int)
    ensures var (lo, hi) := ByteSplit(v);
      0 <= lo < 256 && lo + 256 * hi == v && (0 <= hi < 256 <==> 0 <= v < 0x1_0000)
    ensures 0 <= v < 0x1_0000 ==> ByteSplit(v) == (Accessors.Lo(v) as int, Accessors.Hi(v) as int)
  {
  }

  /** Spaces turned to `_`, then `(Shadow)` turned to `_shadow`, then lower-cased. */
  function Normalise(s: string): string
  {
    Lower(Replace(Replace(s, " ", "_"), "(Shadow)", "_shadow"))
  }

  /** The field name as generated: the text before the first `]`, less its first character,
      normalised. */
  function FieldName(dataName: string): string
  {
    var bracketed := Split(dataName, ']')[0];
    Normalise(if bracketed == [] then [] else bracketed[1..])
  }

  /** A generated name is a Rust identifier fragment: no space, no capital, no `]`. */
  lemma FieldNameChars(dataName: string)
    ensures var n := FieldName(dataName);
      forall i :: 0 <= i < |n| ==> n[i] != ' ' && !IsUpper(n[i]) && n[i] != ']'
  {
    var bracketed := Split(dataName, ']')[0];
    SplitJoin(dataName, ']');
    assert ']' !in bracketed;
    var inner := if bracketed == [] then [] else bracketed[1..];
    assert forall c :: c in inner ==> c in bracketed;
    var spaced := Replace(inner, " ", "_");
    ReplaceRemoves(inner, ' ', "_");
    var shadowed := Replace(spaced, "(Shadow)", "_shadow");
    ReplaceChars(spaced, "(Shadow)", "_shadow", ' ');
    ReplaceChars(spaced, "(Shadow)", "_shadow", ']');
    ReplaceChars(inner, " ", "_", ']');
    LowerResult(shadowed);
    forall i | 0 <= i < |shadowed|
      ensures Lower(shadowed)[i] != ' ' && Lower(shadowed)[i] != ']'
    {
      assert shadowed[i] in shadowed;
    }
  }

  /** A row that writes its name as a link, `[Name](#anchor)`, gets the name normalised ... */
  lemma FieldNameOfLink(name: string, link: string)
    requires ']' !in name
    ensures FieldName("[" + name + "]" + link) == Normalise(name)
  {
    SplitAtBracket("[" + name, link);
    assert "[" + name + "]" + link == ("[" + name) + "]" + link;
    assert ("[" + name)[1..] == name;
  }

  /** ... while a row that writes it plain loses its first letter: `Model Information` gives
      `odel_information` where `[Model Information]` gives `model_information`. */
  lemma FieldNameDropsFirstLetter(name: string)
    requires ']' !in name && |name| > 0 && name[0] != ' ' && name[0] != '('
    ensures FieldName("[" + name + "]") == [LowerChar(name[0])] + FieldName(name)
  {
    FieldNameOfLink(name, "");
    assert "[" + name + "]" + "" == "[" + name + "]";
    SplitFree(name, ']');
    NormaliseHead(name[0], name[1..]);
    assert [name[0]] + name[1..] == name;
  }

  /** A first character that starts neither pattern is only lowered. */
  lemma NormaliseHead(c: char, s: string)
    requires c != ' ' && c != '('
    ensures Normalise([c] + s) == [LowerChar(c)] + Normalise(s)
  {
    var x := [c] + s;
    assert x[..1] != " ";
    assert x[1..] == s;
    var t := Replace(s, " ", "_");
    assert Replace(x, " ", "_") == [c] + t;
    var y := [c] + t;
    assert y[1..] == t;
    if |y| >= 8 {
      assert y[..8][0] == c;
      assert y[..8] != "(Shadow)";
    }
    assert Replace(y, "(Shadow)", "_shadow") == [c] + Replace(t, "(Shadow)", "_shadow");
    LowerConcat([c], Replace(t, "(Shadow)", "_shadow"));
  }

  /** `(Shadow)` in a name becomes `_shadow`: `Secondary(Shadow) ID` gives `secondary_shadow_id`. */
  lemma NormaliseShadow(a: string, b: string)
    requires ' ' !in a && '(' !in a && '(' !in b
    ensures Normalise(a + "(Shadow)" + b) == Lower(a) + "_shadow" + Lower(Replace(b, " ", "_"))
  {
    var b' := Replace(b, " ", "_");
    SpacesAfterShadow(a, b);
    ReplaceChars(b, " ", "_", '(');
    ShadowReplaced(a, b');
    LowerShadow(a, b');
  }

  lemma LowerShadow(a: string, b: string)
    ensures Lower(a + "_shadow" + b) == Lower(a) + "_shadow" + Lower(b)
  {
    var w := "_shadow";
    assert Lower(w) == w by {
      forall i | 0 <= i < |w|
        ensures !IsUpper(w[i])
      {
      }
    }
  }

  lemma SpacesAfterShadow(a: string, b: string)
    requires ' ' !in a
    ensures Replace(a + "(Shadow)" + b, " ", "_") == a + "(Shadow)" + Replace(b, " ", "_")
  {
    var p := a + "(Shadow)";
    assert ' ' !in "(Shadow)";
    assert ' ' !in p;
    ReplaceSkip(p, b, " ", "_");
  }

  lemma ShadowReplaced(a: string, b: string)
    requires '(' !in a && '(' !in b
    ensures Replace(a + "(Shadow)" + b, "(Shadow)", "_shadow") == a + "_shadow" + b
  {
    var pat := "(Shadow)";
    var tail := pat + b;
    assert a + pat + b == a + tail;
    ReplaceSkip(a, tail, pat, "_shadow");
    assert tail[..|pat|] == pat && tail[|pat|..] == b;
    assert Replace(tail, pat, "_shadow") == "_shadow" + Replace(b, pat, "_shadow");
    ReplaceSkip(b, [], pat, "_shadow");
    assert b + [] == b;
  }

  lemma LowerConcat(a: string, b: string)
    ensures Lower(a + b) == Lower(a) + Lower(b)
  {
  }

  lemma SplitAtBracket(before: string, after: string)
    requires ']' !in before
    ensures Split(before + "]" + after, ']')[0] == before
  {
    SplitJoin(after, ']');
    var pieces := [before] + Split(after, ']');
    assert Free(pieces, ']') by {
      forall i | 0 <= i < |pieces|
        ensures ']' !in pieces[i]
      {
        if i > 0 {
          assert pieces[i] == Split(after, ']')[i - 1];
        }
      }
    }
    assert pieces[1..] == Split(after, ']');
    assert Join(pieces, ']') == before + "]" + after;
    JoinSplit(pieces, ']');
  }

  /** The name as evidently intended: the opening bracket dropped only when there is one. */
  function FieldNameKeepingFirst(dataName: string): string
  {
    var bracketed := Split(dataName, ']')[0];
    Normalise(if bracketed != [] && bracketed[0] == '[' then bracketed[1..] else bracketed)
  }

  /** With the correction, a name gives the same field name written plain or as a link. */
  lemma PlainAndLinkAgree(name: string, link: string)
    requires ']' !in name && (name == [] || name[0] != '[')
    ensures FieldNameKeepingFirst("[" + name + "]" + link) == FieldNameKeepingFirst(name) == Normalise(name)
  {
    SplitAtBracket("[" + name, link);
    assert ("[" + name)[1..] == name;
    SplitFree(name, ']');
    assert "[" + name + "]" + link == ("[" + name) + "]" + link;
  }

  /** `generate(...)` for one row: a getter always, a setter as well when the access cell is
      exactly `RW`. */
  function Generate(row: Row, motor: string): (r: Result<seq<Accessor>, GenError>)
  {
    match (ParseInt(row.address), ParseInt(row.size))
    case (Some(address), Some(size)) =>
      var name := FieldName(row.dataName);
      var getter := Accessor(Getter, "get_" + motor + "_" + name, ByteSplit(address), size,
                             ByteSplit(size), row.description, row.initialValue);
      if row.access == "RW" then Ok([getter, getter.(kind := Setter, name := "set_" + motor + "_" + name)])
      else Ok([getter])
    case _ => Err(NotANumber)
  }

  /** Every row gets a getter, only `RW` rows a setter, and both name the same field at the same
      address; a row whose address or size is not a number aborts the run. */
  lemma GenerateAccessors(row: Row, motor: string)
    ensures Generate(row, motor).Err? <==> ParseInt(row.address).None? || ParseInt(row.size).None?
    ensures var r := Generate(row, motor);
      r.Ok? ==>
        && |r.value| == (if row.access == "RW" then 2 else 1)
        && r.value[0].kind == Getter
        && r.value[0].name == "get_" + motor + "_" + FieldName(row.dataName)
        && r.value[0].address == ByteSplit(ParseInt(row.address).value)
        && r.value[0].size == ParseInt(row.size).value
        && (|r.value| == 2 ==>
              r.value[1].kind == Setter && r.value[1].name == "set_" + motor + "_" + FieldName(row.dataName)
              && r.value[1].address == r.value[0].address && r.value[1].size == r.value[0].size)
  {
  }

  /** The parameters a generated getter pushes: the address's low byte, its high byte in Protocol
      2.0, the size's low byte, its high byte in Protocol 2.0. */
  function GetterRequest(a: Accessor, v: Version): seq<int>
  {
    if v == V1 then [a.address.0, a.sizeBytes.0] else [a.address.0, a.address.1, a.sizeBytes.0, a.sizeBytes.1]
  }

  /** The parameters a generated setter pushes: the address bytes, then the value's `size`
      little-endian bytes. */
  function SetterRequest(a: Accessor, v: Version, value: nat): seq<int>
    requires a.size >= 0
  {
    (if v == V1 then [a.address.0] else [a.address.0, a.address.1]) + ToLe(value, a.size)
  }

  /** For an address and a size that fit 16 bits, the emitted accessors send the requests of the
      accessor templates. */
  lemma GeneratedRequests(row: Row, motor: string, v: Version, value: nat)
    requires Generate(row, motor).Ok?
    requires 0 <= ParseInt(row.address).value < 0x1_0000 && 0 <= ParseInt(row.size).value < 0x1_0000
    ensures var accessors := Generate(row, motor).value;
      var address, size := ParseInt(row.address).value, ParseInt(row.size).value;
      && GetterRequest(accessors[0], v) == Accessors.ReadRequest(v, address, size)
      && (|accessors| == 2 ==> SetterRequest(accessors[1], v, value) == Accessors.WriteRequest(v, address, value, size))
  {
    ByteSplitParts(ParseInt(row.address).value);
    ByteSplitParts(ParseInt(row.size).value);
  }

  // ---- main(): the scan ----

  const Marker := "control-table-of"

  /** The scan's state: how many control-table sections have begun, whether the lines are table
      data, and whether the last table header had a Description column. */
  datatype ScanState = ScanState(section: nat, data: bool, hasDescription: bool)

  const Start := ScanState(0, false, false)

  /** The state after one line, and whether the scan stops there. */
  datatype Advanced = Advanced(next: ScanState, stop: bool)

  /** The `if`/`elif` chain at the head of the loop. */
  function Advance(st: ScanState, line: string): Advanced
  {
    if Contains(line, Marker) then Advanced(st.(section := st.section + 1, data := false), false)
    else if st.section > 0 && Contains(line, "---") then Advanced(st.(data := true), false)
    else if st.data && Strip(line) == "" then Advanced(st.(data := false), st.section == 2)
    else if Contains(line, "| Address") then Advanced(st.(hasDescription := Contains(line, "Description")), false)
    else Advanced(st, false)
  }

  /** A line is decoded as a row inside table data, unless it is a rule or an ellipsis row. */
  predicate IsRow(st: ScanState, line: string)
  {
    st.section > 0 && st.data
    && !Contains(line, "---") && !Contains(line, "...") && !Contains(line, "\U{00E2}\U{20AC}\U{00A6}")
  }

  /** The stripped cells between the first and the last `|`. */
  function Cells(line: string): (cells: seq<string>)
  {
    var pieces := Split(line, '|');
    var inner := if |pieces| < 2 then [] else pieces[1..|pieces| - 1];
    seq(|inner|, i requires 0 <= i < |inner| => Strip(inner[i]))
  }

  /** The unpacking of the cells: six leading columns when the table has a Description column,
      otherwise five, the name doubling as description. */
  function DecodeRow(line: string, hasDescription: bool): Result<Row, GenError>
  {
    var c := Cells(line);
    if hasDescription then
      if |c| < 6 then Err(TooFewCells) else Ok(Row(c[0], c[1], c[2], c[3], c[4], c[5]))
    else
      if |c| < 5 then Err(TooFewCells) else Ok(Row(c[0], c[1], c[2], c[2], c[3], c[4]))
  }

  /** A row written `| c0 | c1 | ... |` has its cells back, stripped, whatever follows the last bar. */
  lemma CellsOfRow(lead: string, cells: seq<string>, tail: string)
    requires Free([lead] + cells + [tail], '|')
    ensures Cells(Join([lead] + cells + [tail], '|')) == seq(|cells|, i requires 0 <= i < |cells| => Strip(cells[i]))
  {
    var pieces := [lead] + cells + [tail];
    JoinSplit(pieces, '|');
    assert pieces[1..|pieces| - 1] == cells;
  }

  /** With a Description column the six cells keep their places; without one, the name is also the
      description and the access and initial value shift left. Extra cells are ignored. */
  lemma DecodeRowColumns(line: string, hasDescription: bool)
    ensures var c := Cells(line);
      DecodeRow(line, hasDescription).Ok? <==> |c| >= (if hasDescription then 6 else 5)
    ensures var c, r := Cells(line), DecodeRow(line, hasDescription);
      r.Ok? ==>
        && r.value.address == c[0] && r.value.size == c[1] && r.value.dataName == c[2]
        && (hasDescription ==> r.value.description == c[3] && r.value.access == c[4] && r.value.initialValue == c[5])
        && (!hasDescription ==> r.value.description == c[2] && r.value.access == c[3] && r.value.initialValue == c[4])
  {
  }

  /** The accessors of one row line. */
  function RowAccessors(st: ScanState, line: string, motor: string): Result<seq<Accessor>, GenError>
  {
    match DecodeRow(line, st.hasDescription)
    case Err(e) => Err(e)
    case Ok(row) => Generate(row, motor)
  }

  /** `prefix` before a run's result; an error stays an error. */
  function Prepend(prefix: seq<Accessor>, r: Result<seq<Accessor>, GenError>): Result<seq<Accessor>, GenError>
  {
    match r
    case Ok(rest) => Ok(prefix + rest)
    case Err(e) => Err(e)
  }

  /** The accessors of the lines from state `st` on. */
  function ScanFrom(st: ScanState, lines: seq<string>, motor: string): Result<seq<Accessor>, GenError>
    decreases |lines|
  {
    if lines == [] then Ok([])
    else
      var a := Advance(st, lines[0]);
      if a.stop then Ok([])
      else if !IsRow(a.next, lines[0]) then ScanFrom(a.next, lines[1..], motor)
      else
        match RowAccessors(a.next, lines[0], motor)
        case Err(e) => Err(e)
        case Ok(here) => Prepend(here, ScanFrom(a.next, lines[1..], motor))
  }

  /** The module generated from a page's lines. */
  function Emit(lines: seq<string>, motor: string): Result<Module, GenError>
  {
    match ScanFrom(Start, lines, motor)
    case Ok(accessors) => Ok(Module(Upper(motor), accessors))
    case Err(e) => Err(e)
  }

  /** `main(motor, motor_name)`: the loop over the page's lines, with the section counter, the data
      flag and the Description flag as its variables. */
  method Scan(lines: seq<string>, motor: string) returns (r: Result<Module, GenError>)
    ensures r == Emit(lines, motor)
  {
    var section: nat, data, hasDescription := 0, false, false;
    var out: seq<Accessor> := [];
    var i := 0;
    assert lines[0..] == lines;
    assert ScanFrom(Start, lines, motor).Ok? ==> [] + ScanFrom(Start, lines, motor).value == ScanFrom(Start, lines, motor).value;
    while i < |lines|
      invariant 0 <= i <= |lines|
      invariant ScanFrom(Start, lines, motor) == Prepend(out, ScanFrom(ScanState(section, data, hasDescription), lines[i..], motor))
    {
      var line := lines[i];
      ghost var before := ScanState(section, data, hasDescription);
      assert lines[i..][0] == line && lines[i..][1..] == lines[i + 1..];
      if Contains(line, Marker) {
        section, data := section + 1, false;
      } else if section > 0 && Contains(line, "---") {
        data := true;
      } else if data && Strip(line) == "" {
        data := false;
        if section == 2 {
          assert ScanFrom(before, lines[i..], motor) == Ok([]);
          assert out + [] == out;
          break;
        }
      } else if Contains(line, "| Address") {
        hasDescription := Contains(line, "Description");
      }
      var st := ScanState(section, data, hasDescription);
      assert Advance(before, line) == Advanced(st, false);
      if IsRow(st, line) {
        var here := RowAccessors(st, line, motor);
        if here.Err? {
          return Err(here.error);
        }
        PrependTwice(out, here.value, ScanFrom(st, lines[i + 1..], motor));
        out := out + here.value;
      }
      i := i + 1;
    }
    if i == |lines| {
      assert lines[i..] == [];
      assert out + [] == out;
    }
    r := Ok(Module(Upper(motor), out));
  }

  lemma PrependTwice(a: seq<Accessor>, b: seq<Accessor>, r: Result<seq<Accessor>, GenError>)
    ensures Prepend(a, Prepend(b, r)) == Prepend(a + b, r)
  {
    if r.Ok? {
      assert a + (b + r.value) == (a + b) + r.value;
    }
  }

  // ---- what the scan does ----

  /** Nothing is generated before the first control-table marker: with the section counter at 0
      no line is data, whatever it holds. */
  lemma {:induction false} NothingBeforeMarker(st: ScanState, lines: seq<string>, motor: string)
    requires st.section == 0 && !st.data
    requires forall i :: 0 <= i < |lines| ==> !Contains(lines[i], Marker)
    ensures ScanFrom(st, lines, motor) == Ok([])
    decreases |lines|
  {
    if lines != [] {
      var a := Advance(st, lines[0]);
      assert a.next.section == 0 && !a.next.data && !a.stop;
      NothingBeforeMarker(a.next, lines[1..], motor);
    }
  }

  /** A blank line ending the data of the second section stops the scan: the lines after it, such
      as further tables on the page, are never read. */
  lemma StopsAfterSecondSection(st: ScanState, blank: string, rest: seq<string>, motor: string)
    requires st.section == 2 && st.data && AllSpace(blank)
    ensures ScanFrom(st, [blank] + rest, motor) == Ok([])
  {
    BlankContainsNothing(blank, Marker);
    BlankContainsNothing(blank, "---");
    StripResult(blank);
  }

  /** A blank line ending the data of the first section only leaves the data. */
  lemma FirstSectionContinues(st: ScanState, blank: string, rest: seq<string>, motor: string)
    requires st.section == 1 && st.data && AllSpace(blank)
    ensures ScanFrom(st, [blank] + rest, motor) == ScanFrom(st.(data := false), rest, motor)
  {
    BlankContainsNothing(blank, Marker);
    BlankContainsNothing(blank, "---");
    StripResult(blank);
    assert ([blank] + rest)[1..] == rest;
  }

  /** The state the scan is in after `lines`, or None when it stops among them. */
  function Reach(st: ScanState, lines: seq<string>): Option<ScanState>
    decreases |lines|
  {
    if lines == [] then Some(st)
    else
      var a := Advance(st, lines[0]);
      if a.stop then None else Reach(a.next, lines[1..])
  }

  /** Scanning `pre + x` is scanning `pre`, then `x` from the state `pre` leaves: an error in `x`
      is an error of the whole, and without an error in `pre` the accessors of `pre` come first. */
  lemma {:induction false} ScanThrough(st: ScanState, pre: seq<string>, x: seq<string>, motor: string, reached: ScanState)
    requires Reach(st, pre) == Some(reached)
    ensures ScanFrom(reached, x, motor).Err? ==> ScanFrom(st, pre + x, motor).Err?
    ensures ScanFrom(st, pre, motor).Ok? ==>
      ScanFrom(st, pre + x, motor) == Prepend(ScanFrom(st, pre, motor).value, ScanFrom(reached, x, motor))
    decreases |pre|
  {
    if pre == [] {
      assert pre + x == x;
      var r := ScanFrom(reached, x, motor);
      if r.Ok? {
        assert [] + r.value == r.value;
      }
    } else {
      var a := Advance(st, pre[0]);
      assert (pre + x)[0] == pre[0] && (pre + x)[1..] == pre[1..] + x;
      ScanThrough(a.next, pre[1..], x, motor, reached);
      if IsRow(a.next, pre[0]) {
        var here := RowAccessors(a.next, pre[0], motor);
        if here.Ok? {
          var inner := ScanFrom(a.next, pre[1..], motor);
          if inner.Ok? {
            PrependTwice(here.value, inner.value, ScanFrom(reached, x, motor));
          }
        }
      }
    }
  }

  /** A row that fails to decode fails the whole run, whatever the other lines hold; when no row
      before it fails, the run fails with that row's error. */
  lemma BadRowAborts(pre: seq<string>, st: ScanState, line: string, rest: seq<string>, motor: string)
    requires Reach(Start, pre) == Some(st)
    requires !Advance(st, line).stop && IsRow(Advance(st, line).next, line)
    requires RowAccessors(Advance(st, line).next, line, motor).Err?
    ensures Emit(pre + [line] + rest, motor).Err?
    ensures ScanFrom(Start, pre, motor).Ok? ==>
      Emit(pre + [line] + rest, motor) == Err(RowAccessors(Advance(st, line).next, line, motor).error)
  {
    assert pre + [line] + rest == pre + ([line] + rest);
    ScanThrough(Start, pre, [line] + rest, motor, st);
  }

  /** The generated trait's name is the device name in capitals: the same length, each small letter
      raised to its capital, every other character kept. */
  lemma TraitName(lines: seq<string>, motor: string)
    ensures var r := Emit(lines, motor);
      r.Ok? ==> r.value.traitName == Upper(motor)
    ensures var r := Emit(lines, motor);
      r.Ok? ==>
        && |r.value.traitName| == |motor|
        && (forall i :: 0 <= i < |motor| ==> !IsLower(r.value.traitName[i]))
        && (forall i :: 0 <= i < |motor| && !IsLower(motor[i]) ==> r.value.traitName[i] == motor[i])
        && (forall i :: 0 <= i < |motor| && IsLower(motor[i]) ==>
              IsUpper(r.value.traitName[i]) && LowerChar(r.value.traitName[i]) == motor[i])
  {
    UpperResult(motor);
  }

  // ---- the device name ----

  /** The device name from the page's file name: `_` and `-` removed, `+` spelt `plus`. */
  function MotorName(stem: string): string
  {
    Replace(Replace(Replace(stem, "_", ""), "-", ""), "+", "plus")
  }

  /** The device name holds none of `_`, `-`, `+`, so it can join `get_` and the field name. */
  lemma MotorNameChars(stem: string)
    ensures var m := MotorName(stem); '_' !in m && '-' !in m && '+' !in m
  {
    var a := Replace(stem, "_", "");
    var b := Replace(a, "-", "");
    ReplaceRemoves(stem, '_', "");
    ReplaceRemoves(a, '-', "");
    ReplaceChars(a, "-", "", '_');
    ReplaceRemoves(b, '+', "plus");
    ReplaceChars(b, "+", "plus", '_');
    ReplaceChars(b, "+", "plus", '-');
  }

  /** A name already free of those characters is kept as it is. */
  lemma MotorNameKeepsPlain(stem: string)
    requires '_' !in stem && '-' !in stem && '+' !in stem
    ensures MotorName(stem) == stem
  {
    ReplaceSkip(stem, [], "_", "");
    ReplaceSkip(stem, [], "-", "");
    ReplaceSkip(stem, [], "+", "plus");
    assert stem + [] == stem;
  }
}
