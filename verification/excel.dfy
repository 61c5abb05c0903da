/** Spreadsheet forms: the cell converters, form fields, cell-coordinate
    parsing, and how a form maps one cell to a variable.

    A cell read is a `Value`; the worksheet is a sequence of rows handed in
    as a parameter. A form holds its variables and an error manager (the
    `Errors` module, which `ExcelErrorManager` duplicates). */
module Excel {
  import opened Values
  import opened Text
  import Errors

  // ---------------------------------------------------------------------
  // Text of a cell value

  /** `unicode(v)`. */
  function Unicode(v: Value): (text: string)
    ensures v.VStr? ==> text == v.s
  {
    match v
    case VNone => "None"
    case VBool(b) => if b then "True" else "False"
    case VInt(i) => IntToString(i)
    case VStr(t) => t
  }

  /** Equality of host values: a boolean equals the integer 0 or 1. */
  predicate Equal(a: Value, b: Value) {
    match (a, b)
    case (VBool(x), VInt(i)) => i == (if x then 1 else 0)
    case (VInt(i), VBool(x)) => i == (if x then 1 else 0)
    case _ => a == b
  }

  /** `v in xs` for a list. */
  predicate Member(v: Value, xs: seq<Value>) {
    exists i :: 0 <= i < |xs| && Equal(v, xs[i])
  }

  // ---------------------------------------------------------------------
  // Converters

  /** `clean`: the text of the value without surrounding whitespace. */
  function Clean(v: Value): (r: string)
    ensures |r| <= |Unicode(v)|
    ensures |r| > 0 ==> !IsSpace(r[0]) && !IsSpace(r[|r| - 1])
  {
    Strip(Unicode(v))
  }

  /** The cleaned text is the value's text with the whitespace around it
      cut off: a slice with only whitespace before and after it, and none
      at its own ends. */
  lemma CleanSpec(v: Value)
    ensures var r := Clean(v);
            && (exists k :: SpacedSlice(Unicode(v), k, r))
            && (|r| > 0 ==> !IsSpace(r[0]) && !IsSpace(r[|r| - 1]))
  {
    StripSlice(Unicode(v));
  }

  /** `clean_str`: the cleaned text, lower-cased. */
  function CleanStr(v: Value): (r: string)
    ensures |r| == |Clean(v)|
    ensures forall i :: 0 <= i < |r| ==> r[i] == LowerChar(Clean(v)[i])
  {
    Lower(Clean(v))
  }

  lemma LowerCharIdempotent(c: char)
    ensures LowerChar(LowerChar(c)) == LowerChar(c)
  {
  }

  lemma {:induction false} LowerIdempotent(s: string)
    ensures Lower(Lower(s)) == Lower(s)
  {
    forall i | 0 <= i < |s|
      ensures Lower(Lower(s))[i] == Lower(s)[i]
    {
      LowerCharIdempotent(s[i]);
    }
  }

  /** Lower-casing keeps a text's ends free of whitespace. */
  lemma LowerStaysStripped(c: string)
    requires |c| > 0 ==> !IsSpace(c[0]) && !IsSpace(c[|c| - 1])
    ensures Strip(Lower(c)) == Lower(c)
  {
    if |c| > 0 {
      LowerCharKeepsSpaces(c[0]);
      LowerCharKeepsSpaces(c[|c| - 1]);
    }
    StripUnchanged(Lower(c));
  }

  /** Cleaning an already cleaned text changes nothing. */
  lemma CleanIdempotent(v: Value)
    ensures Clean(VStr(Clean(v))) == Clean(v)
  {
    StripIdempotent(Unicode(v));
  }

  lemma CleanStrIdempotent(v: Value)
    ensures CleanStr(VStr(CleanStr(v))) == CleanStr(v)
  {
    var c := Clean(v);
    var r := CleanStr(v);
    assert r == Lower(c);
    LowerStaysStripped(c);
    assert Clean(VStr(r)) == r;
    LowerIdempotent(c);
  }

  /** A value cleans to the empty text exactly when its text is all
      whitespace: the test `map_field` uses for a blank cell. */
  lemma CleanStrBlank(v: Value)
    ensures |CleanStr(v)| == 0 <==> AllSpaces(Unicode(v))
  {
    StripEmptyIffAllSpaces(Unicode(v));
  }

  /** `ChoiceList`: the value itself when the list holds it. */
  function ChoiceList(v: Value, choices: seq<Value>): (r: Result<Value>)
    ensures r.Ok? <==> Member(v, choices)
    ensures r.Ok? ==> r.value == v
    ensures r.Raised? ==> r.exception == ValueError
  {
    if Member(v, choices) then Ok(v) else Raised(ValueError)
  }

  /** `LowerChoiceList`: the cleaned, lower-cased text when the list holds
      it. */
  function LowerChoiceList(v: Value, choices: seq<Value>): (r: Result<Value>)
    ensures r.Ok? <==> Member(VStr(CleanStr(v)), choices)
    ensures r.Ok? ==> r.value == VStr(CleanStr(v))
    ensures r.Raised? ==> r.exception == ValueError
  {
    var c := VStr(CleanStr(v));
    if Member(c, choices) then Ok(c) else Raised(ValueError)
  }

  /** `NormalizedChoiceList`: the value the map gives the cleaned,
      lower-cased text. */
  function NormalizedChoiceList(v: Value, choiceMap: map<string, Value>): (r: Result<Value>)
    ensures r.Ok? <==> CleanStr(v) in choiceMap
    ensures r.Ok? ==> r.value == choiceMap[CleanStr(v)]
    ensures r.Raised? ==> r.exception == ValueError
  {
    var c := CleanStr(v);
    if c in choiceMap then Ok(choiceMap[c]) else Raised(ValueError)
  }

  /** `int(v)`: booleans count as 0 and 1, text must read as a decimal
      integer, and `None` is refused with a type error. */
  function IntOf(v: Value): (r: Result<int>)
    ensures v.VInt? ==> r == Ok(v.i)
    ensures v.VNone? ==> r == Raised(TypeError)
    ensures v.VBool? ==> r == Ok(if v.b then 1 else 0)
    ensures v.VStr? && ParseInt(v.s).Some? ==> r == Ok(ParseInt(v.s).value)
    ensures v.VStr? && ParseInt(v.s).None? ==> r == Raised(ValueError)
    ensures r.Raised? ==> (r.exception == TypeError <==> v.VNone?)
    ensures r.Raised? ==> r.exception == ValueError || r.exception == TypeError
  {
    match v
    case VNone => Raised(TypeError)
    case VBool(b) => Ok(if b then 1 else 0)
    case VInt(i) => Ok(i)
    case VStr(s) =>
      match ParseInt(s)
      case Some(i) => Ok(i)
      case None => Raised(ValueError)
  }

  /** The text of an integer reads back as that integer. */
  lemma IntOfRoundTrip(i: int)
    ensures IntOf(VStr(Unicode(VInt(i)))) == Ok(i)
  {
    IntToStringRoundTrip(i);
  }

  /** `int()` accepts whitespace between the sign and the digits: "- 5"
      reads as -5. */
  lemma IntOfSpaceAfterSign(w: string, n: nat)
    requires AllSpaces(w)
    ensures IntOf(VStr("-" + w + NatToString(n))) == Ok(-(n as int))
    ensures IntOf(VStr("+" + w + NatToString(n))) == Ok(n)
  {
    ParseIntSpaceAfterSign(w, n);
  }

  /** `NormalizedIntChoiceList`: the integer the value reads as, when the
      list holds it. */
  function NormalizedIntChoiceList(v: Value, choices: seq<Value>): (r: Result<Value>)
    ensures r.Ok? <==> IntOf(v).Ok? && Member(VInt(IntOf(v).value), choices)
    ensures r.Ok? ==> r.value == VInt(IntOf(v).value)
    ensures r.Raised? ==> r.exception == ValueError || r.exception == TypeError
  {
    var i :- IntOf(v);
    if Member(VInt(i), choices) then Ok(VInt(i)) else Raised(ValueError)
  }

  /** A choice converter gives back a value it accepts again unchanged. */
  lemma ChoiceListStable(v: Value, choices: seq<Value>)
    requires ChoiceList(v, choices).Ok?
    ensures ChoiceList(ChoiceList(v, choices).value, choices) == ChoiceList(v, choices)
  {
  }

  lemma LowerChoiceListStable(v: Value, choices: seq<Value>)
    requires LowerChoiceList(v, choices).Ok?
    ensures LowerChoiceList(LowerChoiceList(v, choices).value, choices) == LowerChoiceList(v, choices)
  {
    CleanStrIdempotent(v);
  }

  lemma NormalizedIntChoiceListStable(v: Value, choices: seq<Value>)
    requires NormalizedIntChoiceList(v, choices).Ok?
    ensures NormalizedIntChoiceList(NormalizedIntChoiceList(v, choices).value, choices) == NormalizedIntChoiceList(v, choices)
  {
  }

  /** The normalising converter accepts exactly what the lower-casing one
      accepts when the list holds the map's keys. */
  lemma NormalizedMatchesLower(v: Value, choiceMap: map<string, Value>, xs: seq<Value>)
    requires forall k :: k in choiceMap <==> VStr(k) in xs
    ensures NormalizedChoiceList(v, choiceMap).Ok? <==> LowerChoiceList(v, xs).Ok?
  {
    var c := VStr(CleanStr(v));
    if c in xs {
      var i :| 0 <= i < |xs| && xs[i] == c;
      assert Equal(c, xs[i]);
    }
    if Member(c, xs) {
      var i :| 0 <= i < |xs| && Equal(c, xs[i]);
      assert xs[i] == c;
    }
  }


  // ---------------------------------------------------------------------
  // Form fields

  /** The converter a field is declared with, with its cast arguments: a
      choice converter is called with its list or map only when that is
      non-empty. */
  datatype FieldType =
    | NoType
    | CleanType
    | CleanStrType
    | IntType
    | ChoiceListType(choices: seq<Value>)
    | LowerChoiceListType(lowerChoices: seq<Value>)
    | NormalizedChoiceListType(choiceMap: map<string, Value>)
    | NormalizedIntChoiceListType(intChoices: seq<Value>)

  datatype Field = Field(coord: string, fieldType: FieldType, name: Option<string>)

  /** `display_name`: the field's name when it is a non-empty text,
      otherwise its coordinate. */
  function DisplayName(f: Field): (r: string)
    ensures f.name.Some? && |f.name.value| > 0 ==> r == f.name.value
    ensures f.name.None? || |f.name.value| == 0 ==> r == f.coord
  {
    if f.name.Some? && |f.name.value| > 0 then f.name.value else f.coord
  }

  /** `convert_data`. With no type the value passes through, a typed field
      applies its own converter, and a converter
      that needs a list, called without one, is refused with a type error;
      every other failure is a value error. */
  function ConvertData(t: FieldType, v: Value): (r: Result<Value>)
    ensures t.NoType? ==> r == Ok(v)
    ensures r.Raised? ==> r.exception == ValueError || r.exception == TypeError
    ensures r.Raised? && r.exception == TypeError ==>
              || ((t.IntType? || t.NormalizedIntChoiceListType?) && v.VNone?)
              || (t.ChoiceListType? && |t.choices| == 0)
              || (t.LowerChoiceListType? && |t.lowerChoices| == 0)
              || (t.NormalizedChoiceListType? && |t.choiceMap| == 0)
              || (t.NormalizedIntChoiceListType? && |t.intChoices| == 0)
    ensures t.CleanType? ==> r == Ok(VStr(Clean(v)))
    ensures t.CleanStrType? ==> r == Ok(VStr(CleanStr(v)))
    ensures t.IntType? ==> r == (if IntOf(v).Ok? then Ok(VInt(IntOf(v).value)) else Raised(IntOf(v).exception))
    ensures t.ChoiceListType? && |t.choices| > 0 ==> r == ChoiceList(v, t.choices)
    ensures t.LowerChoiceListType? && |t.lowerChoices| > 0 ==> r == LowerChoiceList(v, t.lowerChoices)
    ensures t.NormalizedChoiceListType? && |t.choiceMap| > 0 ==> r == NormalizedChoiceList(v, t.choiceMap)
    ensures t.NormalizedIntChoiceListType? && |t.intChoices| > 0 ==> r == NormalizedIntChoiceList(v, t.intChoices)
  {
    match t
    case NoType => Ok(v)
    case CleanType => Ok(VStr(Clean(v)))
    case CleanStrType => Ok(VStr(CleanStr(v)))
    case IntType =>
      var i := IntOf(v);
      if i.Ok? then Ok(VInt(i.value)) else Raised(i.exception)
    case ChoiceListType(c) => if |c| == 0 then Raised(TypeError) else ChoiceList(v, c)
    case LowerChoiceListType(c) => if |c| == 0 then Raised(TypeError) else LowerChoiceList(v, c)
    case NormalizedChoiceListType(m) => if |m| == 0 then Raised(TypeError) else NormalizedChoiceList(v, m)
    case NormalizedIntChoiceListType(c) => if |c| == 0 then Raised(TypeError) else NormalizedIntChoiceList(v, c)
  }

  /** The cleaning converters never fail, and cleaned text is a fixed point
      of them. */
  lemma CleaningConvertersTotal(v: Value)
    ensures ConvertData(CleanType, v).Ok? && ConvertData(CleanStrType, v).Ok?
    ensures ConvertData(CleanType, ConvertData(CleanType, v).value) == ConvertData(CleanType, v)
    ensures ConvertData(CleanStrType, ConvertData(CleanStrType, v).value) == ConvertData(CleanStrType, v)
  {
    CleanConverterFixed(v);
    CleanStrConverterFixed(v);
  }

  lemma CleanConverterFixed(v: Value)
    ensures ConvertData(CleanType, v) == Ok(VStr(Clean(v)))
    ensures ConvertData(CleanType, VStr(Clean(v))) == Ok(VStr(Clean(v)))
  {
    var c := Clean(v);
    CleanIdempotent(v);
  }

  lemma CleanStrConverterFixed(v: Value)
    ensures ConvertData(CleanStrType, v) == Ok(VStr(CleanStr(v)))
    ensures ConvertData(CleanStrType, VStr(CleanStr(v))) == Ok(VStr(CleanStr(v)))
  {
    var l := CleanStr(v);
    CleanStrIdempotent(v);
  }

  // ---------------------------------------------------------------------
  // Cell coordinates

  predicate IsLetter(c: char) {
    'a' <= c <= 'z' || 'A' <= c <= 'Z'
  }

  predicate IsUpper(c: char) {
    'A' <= c <= 'Z'
  }

  predicate AllUpper(s: string) {
    forall i :: 0 <= i < |s| ==> IsUpper(s[i])
  }

  /** The column letters A to Z. */
  const XlsLetters: string := "ABCDEFGHIJKLMNOPQRSTUVWXYZ"

  lemma XlsLettersInOrder()
    ensures |XlsLetters| == 26
    ensures forall i :: 0 <= i < 26 ==> XlsLetters[i] == ('A' as int + i) as char
  {
  }

  function UpperChar(c: char): (u: char)
    ensures IsLetter(c) ==> IsUpper(u)
  {
    if 'a' <= c <= 'z' then (c as int - 32) as char else c
  }

  function Upper(s: string): (r: string)
    ensures |r| == |s|
    ensures forall i :: 0 <= i < |s| ==> r[i] == UpperChar(s[i])
  {
    if |s| == 0 then [] else [UpperChar(s[0])] + Upper(s[1..])
  }

  /** Length of the longest run of characters satisfying `p` from `from` on. */
  function Run(s: string, from: nat, p: char -> bool): (n: nat)
    requires from <= |s|
    ensures from + n <= |s|
    ensures forall i :: from <= i < from + n ==> p(s[i])
    ensures from + n == |s| || !p(s[from + n])
    decreases |s| - from
  {
    if from < |s| && p(s[from]) then 1 + Run(s, from + 1, p) else 0
  }

  /** The match of `([a-zA-Z]+)([0-9]+)` at the start of `coord`: its two
      groups, or nothing when `coord` does not start with letters followed
      by a digit. */
  function MatchCoord(coord: string): (r: Option<(string, string)>)
    ensures r.Some? ==> |r.value.0| > 0 && forall i :: 0 <= i < |r.value.0| ==> IsLetter(r.value.0[i])
    ensures r.Some? ==> IsDigits(r.value.1)
    ensures r.Some? ==> |r.value.0| + |r.value.1| <= |coord|
    ensures r.Some? ==> coord[..|r.value.0| + |r.value.1|] == r.value.0 + r.value.1
  {
    var k := Run(coord, 0, IsLetter);
    if k == 0 || k == |coord| || !IsDigit(coord[k]) then None
    else
      var m := Run(coord, k, IsDigit);
      assert coord[..k + m] == coord[..k] + coord[k..k + m];
      Some((coord[..k], coord[k..k + m]))
  }

  /** Letters then digits match as those two groups. */
  lemma MatchCoordSplit(a: string, d: string)
    requires |a| > 0 && forall i :: 0 <= i < |a| ==> IsLetter(a[i])
    requires IsDigits(d)
    ensures MatchCoord(a + d) == Some((a, d))
  {
    var s := a + d;
    assert forall i :: 0 <= i < |a| ==> s[i] == a[i];
    assert forall i :: |a| <= i < |s| ==> s[i] == d[i - |a|];
    assert !IsLetter(s[|a|]);
    var k := Run(s, 0, IsLetter);
    assert k == |a|;
    var m := Run(s, k, IsDigit);
    assert k + m == |s|;
    assert s[..k] == a && s[k..k + m] == d;
  }

  /** Coordinate parsing as written: the row is the number minus one, and
      the column is where the upper-cased letters first occur in "A".."Z"
      as a substring, so "AB" finds column 0 and "BA" is a value error. */
  function ParseCoordAsWritten(coord: string): (r: Result<(int, nat)>)
    ensures r.Raised? ==> r.exception == AttributeError || r.exception == ValueError
    ensures r.Raised? && r.exception == AttributeError <==> MatchCoord(coord).None?
    ensures r.Ok? ==> r.value.0 == DigitsValue(MatchCoord(coord).value.1) - 1
    ensures r.Ok? ==> r.value.1 < 26 && OccursAt(XlsLetters, Upper(MatchCoord(coord).value.0), r.value.1)
    ensures MatchCoord(coord).Some? && (exists k :: OccursAt(XlsLetters, Upper(MatchCoord(coord).value.0), k)) ==> r.Ok?
  {
    var groups := MatchCoord(coord);
    if groups.None? then Raised(AttributeError)
    else
      var column := IndexOf(XlsLetters, Upper(groups.value.0));
      if column.None? then Raised(ValueError)
      else Ok((DigitsValue(groups.value.1) - 1, column.value))
  }

  function LetterIndex(c: char): (i: nat)
    requires IsUpper(c)
    ensures i < 26
  {
    c as int - 'A' as int
  }

  /** A column's number in bijective base 26: A is 1, Z is 26, AA is 27. */
  function ColumnNumber(s: string): (n: nat)
    requires AllUpper(s)
    ensures |s| > 0 ==> n > 0
  {
    if |s| == 0 then 0
    else ColumnNumber(s[..|s| - 1]) * 26 + LetterIndex(s[|s| - 1]) + 1
  }

  /** The letters of the column at zero-based position `n`. */
  function ColumnLetters(n: nat): (s: string)
    ensures |s| > 0 && AllUpper(s)
    decreases n
  {
    if n < 26 then [('A' as int + n) as char]
    else ColumnLetters(n / 26 - 1) + [('A' as int + n % 26) as char]
  }

  /** Column letters and column positions are inverse to each other. */
  lemma {:induction false} ColumnRoundTrip(n: nat)
    ensures ColumnNumber(ColumnLetters(n)) == n + 1
    decreases n
  {
    if n >= 26 {
      var p := ColumnLetters(n / 26 - 1);
      var s := p + [('A' as int + n % 26) as char];
      assert s[..|s| - 1] == p;
      ColumnRoundTrip(n / 26 - 1);
      assert ColumnNumber(s) == (n / 26) * 26 + n % 26 + 1;
    }
  }

  lemma {:induction false} ColumnLettersOf(s: string)
    requires |s| > 0 && AllUpper(s)
    ensures ColumnLetters(ColumnNumber(s) - 1) == s
    decreases |s|
  {
    var p := s[..|s| - 1];
    var c := s[|s| - 1];
    var n := ColumnNumber(s) - 1;
    assert n == ColumnNumber(p) * 26 + LetterIndex(c);
    if |p| == 0 {
      assert [s[0]] == s;
    } else {
      DivMod26(ColumnNumber(p), LetterIndex(c));
      ColumnLettersOf(p);
      assert s == p + [c];
    }
  }

  lemma DivMod26(q: nat, r: nat)
    requires r < 26
    ensures (q * 26 + r) / 26 == q && (q * 26 + r) % 26 == r
  {
  }

  /** The coordinate text of a zero-based row and column. */
  function CoordString(row: nat, column: nat): string {
    ColumnLetters(column) + NatToString(row + 1)
  }

  /** Coordinate parsing as intended: columns in bijective base 26, and
      row 0, which names no row, refused. */
  function ParseCoord(coord: string): (r: Result<(nat, nat)>)
    ensures r.Raised? ==> r.exception == AttributeError || r.exception == IndexError
    ensures r.Raised? && r.exception == AttributeError <==> MatchCoord(coord).None?
    ensures r.Ok? ==> r.value.0 + 1 == DigitsValue(MatchCoord(coord).value.1)
  {
    var groups := MatchCoord(coord);
    if groups.None? then Raised(AttributeError)
    else
      var row := DigitsValue(groups.value.1);
      if row == 0 then Raised(IndexError)
      else Ok((row - 1, ColumnNumber(Upper(groups.value.0)) - 1))
  }

  /** Every row and column prints to a coordinate that parses back to it. */
  lemma ParseCoordRoundTrip(row: nat, column: nat)
    ensures ParseCoord(CoordString(row, column)) == Ok((row, column))
  {
    var a := ColumnLetters(column);
    var d := NatToString(row + 1);
    MatchCoordSplit(a, d);
    NatToStringValue(row + 1);
    assert Upper(a) == a;
    ColumnRoundTrip(column);
  }

  /** Every coordinate that parses is the printed form of what it parses to,
      up to the letter case and leading zeros of the row. */
  lemma ParseCoordCanonical(coord: string)
    requires ParseCoord(coord).Ok?
    ensures ColumnLetters(ParseCoord(coord).value.1) == Upper(MatchCoord(coord).value.0)
  {
    ColumnLettersOf(Upper(MatchCoord(coord).value.0));
  }

  /** A single letter is found at its place in A..Z. */
  lemma SingleLetterColumn(c: char)
    requires IsLetter(c)
    ensures IndexOf(XlsLetters, Upper([c])) == Some(LetterIndex(UpperChar(c)))
  {
    XlsLettersInOrder();
    var u := UpperChar(c);
    var k := LetterIndex(u);
    assert Upper([c]) == [u];
    assert XlsLetters[k..k + 1] == [u];
    assert OccursAt(XlsLetters, [u], k);
    forall i | 0 <= i < k
      ensures !OccursAt(XlsLetters, [u], i)
    {
      assert XlsLetters[i..i + 1] == [XlsLetters[i]];
    }
  }

  /** A single-letter column parses alike under both readings: row `n - 1`
      and the letter's place in A..Z. */
  lemma SingleLetterAgrees(c: char, line: string)
    requires IsLetter(c) && IsDigits(line)
    ensures ParseCoordAsWritten([c] + line) == Ok((DigitsValue(line) - 1, LetterIndex(UpperChar(c))))
    ensures DigitsValue(line) > 0 ==> ParseCoord([c] + line) == ParseCoordAsWritten([c] + line)
  {
    MatchCoordSplit([c], line);
    SingleLetterColumn(c);
    assert Upper([c]) == [UpperChar(c)];
    assert ColumnNumber([UpperChar(c)]) == LetterIndex(UpperChar(c)) + 1 by {
      assert [UpperChar(c)][..0] == [];
    }
  }

  /** "AB12" names column 27 but the code as written reads column 0 (A). */
  lemma TwoLetterColumnAsWritten()
    ensures ParseCoordAsWritten("AB12") == Ok((11, 0))
    ensures ParseCoord("AB12") == Ok((11, 27))
  {
    MatchCoordSplit("AB", "12");
    assert "AB12" == "AB" + "12";
    assert Upper("AB") == "AB";
    assert DigitsValue("12") == 12 by {
      assert "12"[..1] == "1";
    }
    XlsLettersInOrder();
    assert XlsLetters[0..2] == "AB";
    assert OccursAt(XlsLetters, "AB", 0);
    assert ColumnNumber("AB") == 28 by {
      assert "AB"[..1] == "A" && "A"[..0] == "";
    }
  }

  /** Letters run forwards in A..Z, so "BA" is nowhere in it. */
  lemma BANotInLetters()
    ensures forall i :: !OccursAt(XlsLetters, "BA", i)
  {
    XlsLettersInOrder();
    forall i
      ensures !OccursAt(XlsLetters, "BA", i)
    {
      if 0 <= i && i + 2 <= 26 {
        assert XlsLetters[i..i + 2][0] == XlsLetters[i];
        assert XlsLetters[i..i + 2][1] == XlsLetters[i + 1];
      }
    }
  }

  /** "BA1" names column 52 but the code as written refuses it. */
  lemma ReversedColumnAsWritten()
    ensures ParseCoordAsWritten("BA1") == Raised(ValueError)
    ensures ParseCoord("BA1") == Ok((0, 52))
  {
    BARefused();
    BAParses();
  }

  lemma BARefused()
    ensures ParseCoordAsWritten("BA1") == Raised(ValueError)
  {
    MatchCoordSplit("BA", "1");
    assert "BA1" == "BA" + "1";
    assert Upper("BA") == "BA";
    BANotInLetters();
  }

  lemma BAParses()
    ensures ParseCoord("BA1") == Ok((0, 52))
  {
    MatchCoordSplit("BA", "1");
    assert "BA1" == "BA" + "1";
    assert Upper("BA") == "BA";
    assert ColumnNumber("BA") == 53 by {
      assert "BA"[..1] == "B" && "B"[..0] == "";
    }
  }

  // ---------------------------------------------------------------------
  // Reading a cell

  /** Host-language list indexing: a negative index counts from the end. */
  function PyIndex<T>(s: seq<T>, i: int): (r: Result<T>)
    ensures 0 <= i < |s| ==> r == Ok(s[i])
    ensures -|s| <= i < 0 ==> r == Ok(s[|s| + i])
    ensures r.Raised? <==> !(-|s| <= i < |s|)
    ensures r.Raised? ==> r.exception == IndexError
  {
    if 0 <= i < |s| then Ok(s[i])
    else if -|s| <= i < 0 then Ok(s[|s| + i])
    else Raised(IndexError)
  }

  /** `data_for_coord` as written, on a worksheet given as rows of cells. */
  function DataForCoordAsWritten(sheet: seq<seq<Value>>, coord: string): Result<Value> {
    var at :- ParseCoordAsWritten(coord);
    var cells :- PyIndex(sheet, at.0);
    PyIndex(cells, at.1)
  }

  /** `data_for_coord` as intended: the cell at the parsed coordinate, an
      index error outside the sheet. */
  function DataForCoord(sheet: seq<seq<Value>>, coord: string): Result<Value> {
    var at :- ParseCoord(coord);
    if at.0 < |sheet| && at.1 < |sheet[at.0]| then Ok(sheet[at.0][at.1]) else Raised(IndexError)
  }

  /** Reading a printed coordinate gives the cell at that row and column. */
  lemma DataForCoordReads(sheet: seq<seq<Value>>, row: nat, column: nat)
    ensures row < |sheet| && column < |sheet[row]| ==> DataForCoord(sheet, CoordString(row, column)) == Ok(sheet[row][column])
    ensures !(row < |sheet| && column < |sheet[row]|) ==> DataForCoord(sheet, CoordString(row, column)) == Raised(IndexError)
  {
    ParseCoordRoundTrip(row, column);
  }

  /** "A0" names no row, yet as written it reads column A of the last row. */
  lemma RowZeroReadsLastRow(sheet: seq<seq<Value>>)
    requires |sheet| > 0 && |sheet[|sheet| - 1]| > 0
    ensures DataForCoordAsWritten(sheet, "A0") == Ok(sheet[|sheet| - 1][0])
    ensures DataForCoord(sheet, "A0") == Raised(IndexError)
  {
    MatchCoordSplit("A", "0");
    SingleLetterColumn('A');
    assert "A0" == "A" + "0";
    assert DigitsValue("0") == 0;
  }

  // ---------------------------------------------------------------------
  // Forms

  /** A form: its variables and its error manager. */
  datatype Form = Form(data: map<string, Value>, errors: Errors.Manager)

  /** A new form as written: fresh errors, but the variables are the one
      dictionary shared by every form, holding whatever earlier forms set. */
  function NewFormAsWritten(shared: map<string, Value>): (f: Form)
    ensures f.data == shared && Errors.Valid(f.errors) && Errors.Flatten(f.errors) == []
  {
    Form(shared, Errors.Reset())
  }

  /** A new form as intended: no variables and no errors. */
  function NewForm(): (f: Form)
    ensures f.data == map[] && Errors.Valid(f.errors) && Errors.Flatten(f.errors) == []
  {
    Form(map[], Errors.Reset())
  }

  function Set(f: Form, variable: string, v: Value): Form {
    f.(data := f.data[variable := v])
  }

  /** `get`: the variable's value; `None` for a missing one when `silent`,
      otherwise a missing-data error. */
  function Get(f: Form, variable: string, silent: bool): (r: Result<Value>)
    ensures variable in f.data ==> r == Ok(f.data[variable])
    ensures variable !in f.data && silent ==> r == Ok(VNone)
    ensures variable !in f.data && !silent ==> r == Raised(MissingData)
  {
    if variable in f.data then Ok(f.data[variable])
    else if silent then Ok(VNone)
    else Raised(MissingData)
  }

  /** A variable reads what was last set, and setting one leaves the others. */
  lemma GetAfterSet(f: Form, variable: string, v: Value, other: string, silent: bool)
    ensures Get(Set(f, variable, v), variable, silent) == Ok(v)
    ensures other != variable ==> Get(Set(f, variable, v), other, silent) == Get(f, other, silent)
  {
  }

  function ValueErrorMessage(data: Value, field: Field): string {
    Unicode(data) + " is not a valid data for " + DisplayName(field)
  }

  /** `value_error`: records the message in the default section. */
  function ValueErrorRecord(f: Form, data: Value, field: Field): (r: Form)
    ensures r.data == f.data
    ensures Errors.Valid(f.errors) ==>
              var msg := ValueErrorMessage(data, field);
              && Errors.Valid(r.errors)
              && Errors.Messages(r.errors, Errors.DefaultSection)
                 == Errors.Messages(f.errors, Errors.DefaultSection)
                    + (if msg in Errors.Messages(f.errors, Errors.DefaultSection) then [] else [msg])
              && (forall name :: name != Errors.DefaultSection ==>
                    Errors.Messages(r.errors, name) == Errors.Messages(f.errors, name))
  {
    var msg := ValueErrorMessage(data, field);
    var r := f.(errors := Errors.Add(f.errors, msg, None).0);
    if Errors.Valid(f.errors) then
      Errors.AddSpec(f.errors, msg, None);
      r
    else
      r
  }

  /** `map_field`: reads the cell and sets the converted value. When the
      conversion fails with a value error, a blank cell sets `None` and any
      other cell records an error and leaves the variable as it was. */
  function MapField(f: Form, sheet: seq<seq<Value>>, field: Field, variable: string): Result<Form> {
    var data :- DataForCoord(sheet, field.coord);
    match ConvertData(field.fieldType, data)
    case Ok(v) => Ok(Set(f, variable, v))
    case Raised(e) =>
      if e != ValueError then Raised(e)
      else if |CleanStr(data)| == 0 then Ok(Set(f, variable, VNone))
      else Ok(ValueErrorRecord(f, data, field))
  }

  /** The four outcomes of `map_field`, with blank meaning a cell whose
      text is all whitespace. */
  lemma MapFieldSpec(f: Form, sheet: seq<seq<Value>>, field: Field, variable: string)
    requires Errors.Valid(f.errors)
    ensures var r := MapField(f, sheet, field, variable);
            var read := DataForCoord(sheet, field.coord);
            && (read.Raised? ==> r == Raised(read.exception))
            && (read.Ok? && ConvertData(field.fieldType, read.value).Ok? ==>
                  r == Ok(Set(f, variable, ConvertData(field.fieldType, read.value).value))
                  && Get(r.value, variable, false) == ConvertData(field.fieldType, read.value)
                  && r.value.errors == f.errors)
            && (read.Ok? && ConvertData(field.fieldType, read.value) == Raised(TypeError) ==>
                  r == Raised(TypeError))
            && (read.Ok? && ConvertData(field.fieldType, read.value) == Raised(ValueError)
                && AllSpaces(Unicode(read.value)) ==>
                  r == Ok(Set(f, variable, VNone))
                  && Get(r.value, variable, false) == Ok(VNone) && r.value.errors == f.errors)
            && (read.Ok? && ConvertData(field.fieldType, read.value) == Raised(ValueError)
                && !AllSpaces(Unicode(read.value)) ==>
                  r.Ok? && r.value.data == f.data && Errors.Valid(r.value.errors)
                  && Errors.Messages(r.value.errors, Errors.DefaultSection)
                     == Errors.Messages(f.errors, Errors.DefaultSection)
                        + (if ValueErrorMessage(read.value, field) in Errors.Messages(f.errors, Errors.DefaultSection)
                           then [] else [ValueErrorMessage(read.value, field)]))
  {
    var read := DataForCoord(sheet, field.coord);
    if read.Ok? {
      CleanStrBlank(read.value);
      AddSpecFor(f.errors, ValueErrorMessage(read.value, field));
    }
  }

  lemma AddSpecFor(m: Errors.Manager, msg: string)
    requires Errors.Valid(m)
    ensures var r := Errors.Add(m, msg, None).0;
            && Errors.Valid(r)
            && Errors.Messages(r, Errors.DefaultSection)
               == Errors.Messages(m, Errors.DefaultSection)
                  + (if msg in Errors.Messages(m, Errors.DefaultSection) then [] else [msg])
  {
    Errors.AddSpec(m, msg, None);
  }

  /** `is_valid`: `is_complete` is always false, so validation never runs
      and a form is valid exactly when no section holds an error. */
  function IsValid(f: Form): (r: bool)
    ensures r <==> forall i :: 0 <= i < |f.errors| ==> f.errors[i].messages == []
  {
    FlattenEmpty(f.errors);
    |Errors.Flatten(f.errors)| == 0
  }

  lemma FlattenEmpty(m: Errors.Manager)
    ensures |Errors.Flatten(m)| == 0 <==> forall i :: 0 <= i < |m| ==> m[i].messages == []
  {
    if |Errors.Flatten(m)| > 0 {
      Errors.FlattenMembership(m, Errors.Flatten(m)[0]);
    } else {
      forall i | 0 <= i < |m|
        ensures m[i].messages == []
      {
        if m[i].messages != [] {
          Errors.FlattenMembership(m, m[i].messages[0]);
        }
      }
    }
  }

  /** A non-blank cell the converter rejects leaves the form invalid. */
  lemma RejectedCellInvalidates(f: Form, sheet: seq<seq<Value>>, field: Field, variable: string)
    requires Errors.Valid(f.errors)
    requires DataForCoord(sheet, field.coord).Ok?
    requires ConvertData(field.fieldType, DataForCoord(sheet, field.coord).value) == Raised(ValueError)
    requires !AllSpaces(Unicode(DataForCoord(sheet, field.coord).value))
    ensures MapField(f, sheet, field, variable).Ok? && !IsValid(MapField(f, sheet, field, variable).value)
  {
    var data := DataForCoord(sheet, field.coord).value;
    MapFieldSpec(f, sheet, field, variable);
    var r := MapField(f, sheet, field, variable).value;
    var msgs := Errors.Messages(r.errors, Errors.DefaultSection);
    assert ValueErrorMessage(data, field) in msgs;
    var i := Errors.Find(r.errors, Errors.DefaultSection).value;
    assert r.errors[i].messages != [];
  }

  /** A variable a new form fails to read keeps the value an earlier form
      left in the shared dictionary, so `get` returns it; a form with its
      own variables reports it missing. */
  lemma StaleValueSurvives(shared: map<string, Value>, sheet: seq<seq<Value>>, field: Field, variable: string)
    requires variable in shared
    requires DataForCoord(sheet, field.coord).Ok?
    requires ConvertData(field.fieldType, DataForCoord(sheet, field.coord).value) == Raised(ValueError)
    requires !AllSpaces(Unicode(DataForCoord(sheet, field.coord).value))
    ensures var r := MapField(NewFormAsWritten(shared), sheet, field, variable);
            r.Ok? && Get(r.value, variable, false) == Ok(shared[variable])
    ensures var r := MapField(NewForm(), sheet, field, variable);
            r.Ok? && Get(r.value, variable, false) == Raised(MissingData)
  {
    MapFieldSpec(NewFormAsWritten(shared), sheet, field, variable);
    MapFieldSpec(NewForm(), sheet, field, variable);
  }
}
