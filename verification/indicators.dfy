/** The indicator table engine: the rows (lines) of a table are its
    methods tagged as indicators; each line gets a value and, optionally,
    a percentage relative to a reference line for every period (column),
    plus an optional total. The table's data is the lines keyed by an
    index slug and sorted by that key.

    A table is described by its members (the tagged methods, in name
    order, as member inspection lists them), its periods, its options, the
    function that evaluates an indicator method for a period, and the
    period validity test that subclasses may override. */
module Indicators {
  import opened Values
  import opened Text
  import opened Dicts
  import Opt = Options
  import Periods

  type Period = Periods.Period

  /** The tags `@indicator(index, reference)` puts on a method. */
  datatype IndicatorTag = IndicatorTag(index: int, reference: Option<string>)

  /** A method of the table with the decorator tags it carries:
      `@indicator`, `@reference` and `@label`. */
  datatype Member = Member(name: string, indicator: Option<IndicatorTag>, isReference: bool, labelText: Option<string>)

  /** What calling an indicator method for a period does: return a value
      (possibly `None`) or raise `NoSourceData`. */
  datatype Outcome = Returned(value: Option<int>) | RaisedNoSourceData

  datatype Table = Table(
    members: seq<Member>,
    periods: seq<Period>,
    options: Opt.Options,
    compute: (string, Period) -> Outcome,
    periodIsValid: Period -> bool)

  /** Members come in strictly increasing name order, so names are distinct. */
  predicate WellFormed(t: Table) {
    forall i, j :: 0 <= i < j < |t.members| ==> Less(t.members[i].name, t.members[j].name)
  }

  lemma WellFormedDistinct(t: Table, i: int, j: int)
    requires WellFormed(t) && 0 <= i < |t.members| && 0 <= j < |t.members| && i != j
    ensures t.members[i].name != t.members[j].name
  {
    if i < j {
      LessIrreflexive(t.members[i].name);
    } else {
      LessIrreflexive(t.members[j].name);
    }
  }

  // ---------------------------------------------------------------------
  // Member inspection

  /** The member called `name` (`getattr(self, name)`). */
  function FindMember(ms: seq<Member>, name: string): (r: Option<Member>)
    ensures r.Some? ==> r.value in ms && r.value.name == name
    ensures r.None? <==> forall m :: m in ms ==> m.name != name
  {
    if |ms| == 0 then None
    else if ms[0].name == name then Some(ms[0])
    else
      var r := FindMember(ms[1..], name);
      assert ms == [ms[0]] + ms[1..];
      r
  }

  lemma FindMemberAt(t: Table, i: int)
    requires WellFormed(t) && 0 <= i < |t.members|
    ensures FindMember(t.members, t.members[i].name) == Some(t.members[i])
  {
    var r := FindMember(t.members, t.members[i].name);
    var k :| 0 <= k < |t.members| && t.members[k] == r.value;
    if k != i {
      WellFormedDistinct(t, i, k);
    }
  }

  predicate IsIndicator(t: Table, name: string) {
    exists m :: m in t.members && m.name == name && m.indicator.Some?
  }

  /** `get_lines`: the names of the indicator methods, in member order. */
  function Lines(ms: seq<Member>): (ls: seq<string>)
    ensures forall n :: n in ls <==> exists m :: m in ms && m.indicator.Some? && m.name == n
  {
    if |ms| == 0 then []
    else
      var rest := Lines(ms[1..]);
      assert ms == [ms[0]] + ms[1..];
      (if ms[0].indicator.Some? then [ms[0].name] else []) + rest
  }

  /** `get_line_label`: the `@label` text, or the method name. */
  function Label(t: Table, name: string): (l: string)
    ensures FindMember(t.members, name).Some? && FindMember(t.members, name).value.labelText.Some? ==>
              l == FindMember(t.members, name).value.labelText.value
    ensures FindMember(t.members, name).None? || FindMember(t.members, name).value.labelText.None? ==> l == name
  {
    match FindMember(t.members, name)
    case Some(m) => if m.labelText.Some? then m.labelText.value else name
    case None => name
  }

  /** The slug of a line with index `index`: the index in decimal, an
      underscore, the name. */
  function Slug(index: int, name: string): string {
    IntToString(index) + "_" + name
  }

  /** `line_index_slug`: the slug of a tagged indicator; any other name,
      which has no index to read, stands for itself. */
  function LineIndexSlug(t: Table, name: string): (s: string)
    ensures FindMember(t.members, name).Some? && FindMember(t.members, name).value.indicator.Some? ==>
              s == Slug(FindMember(t.members, name).value.indicator.value.index, name)
  {
    match FindMember(t.members, name)
    case Some(m) => if m.indicator.Some? then Slug(m.indicator.value.index, name) else name
    case None => name
  }

  /** Distinct (index, name) pairs have distinct slugs: the decimal form of
      an integer holds no underscore, so the first underscore separates
      the index from the name. */
  lemma SlugInjective(i: int, n: string, j: int, m: string)
    requires Slug(i, n) == Slug(j, m)
    ensures i == j && n == m
  {
    var a := IntToString(i);
    var b := IntToString(j);
    var s := Slug(i, n);
    assert s == a + "_" + n && s == b + "_" + m;
    FirstUnderscoreAt(a, n);
    FirstUnderscoreAt(b, m);
    assert a == s[..|a|] == b;
    IntToStringInjective(i, j);
    assert n == s[|a| + 1..] == m;
  }

  /** In `a + "_" + n` with no underscore in `a`, the first underscore is
      the one after `a`. */
  lemma FirstUnderscoreAt(a: string, n: string)
    requires forall k :: 0 <= k < |a| ==> a[k] != '_'
    ensures IndexOf(a + "_" + n, "_") == Some(|a|)
  {
    var s := a + "_" + n;
    assert s[|a|..|a| + 1] == "_";
    assert OccursAt(s, "_", |a|);
    forall k | 0 <= k < |a|
      ensures !OccursAt(s, "_", k)
    {
      assert s[k..k + 1] == [a[k]];
    }
    var r := IndexOf(s, "_");
    assert r.Some? && r.value <= |a|;
  }

  /** Slugs order as text, not by index: a line of index 10 sorts before a
      line of index 2. */
  lemma SlugOrderIsTextual()
    ensures Less(Slug(10, "a"), Slug(2, "b"))
  {
    assert Slug(10, "a") == "10_a" && Slug(2, "b") == "2_b";
  }

  // ---------------------------------------------------------------------
  // Values and references

  /** `get_indicator_data`: the value of the indicator method called
      `name` for period `p`; `NoSourceData` gives `None`, and a name that is
      no indicator method raises when the empty match list is indexed. */
  function IndicatorData(t: Table, name: string, p: Period): (r: Result<Option<int>>)
    ensures !IsIndicator(t, name) <==> r == Raised(IndexError)
    ensures IsIndicator(t, name) && t.compute(name, p) == RaisedNoSourceData ==> r == Ok(None)
    ensures IsIndicator(t, name) && t.compute(name, p).Returned? ==> r == Ok(t.compute(name, p).value)
  {
    if !IsIndicator(t, name) then Raised(IndexError)
    else
      match t.compute(name, p)
      case Returned(v) => Ok(v)
      case RaisedNoSourceData => Ok(None)
  }

  /** The first member tagged `@reference`, in member order. */
  function FirstReference(ms: seq<Member>): (r: Option<string>)
    ensures r.Some? ==> exists i :: 0 <= i < |ms| && ms[i].isReference && ms[i].name == r.value
                          && forall j :: 0 <= j < i ==> !ms[j].isReference
    ensures r.None? <==> forall m :: m in ms ==> !m.isReference
  {
    if |ms| == 0 then None
    else if ms[0].isReference then Some(ms[0].name)
    else
      var r := FirstReference(ms[1..]);
      assert ms == [ms[0]] + ms[1..];
      if r.Some? then
        var i :| 0 <= i < |ms[1..]| && ms[1..][i].isReference && ms[1..][i].name == r.value
                 && forall j :: 0 <= j < i ==> !ms[1..][j].isReference;
        assert ms[i + 1] == ms[1..][i];
        r
      else
        r
  }

  /** With members in name order, the implicit reference is the reference
      line whose name sorts first. */
  lemma ImplicitReferenceIsLeast(t: Table)
    requires WellFormed(t) && FirstReference(t.members).Some?
    ensures forall m :: m in t.members && m.isReference ==> LessEq(FirstReference(t.members).value, m.name)
  {
    var n := FirstReference(t.members).value;
    var i :| 0 <= i < |t.members| && t.members[i].isReference && t.members[i].name == n
             && forall j :: 0 <= j < i ==> !t.members[j].isReference;
    forall m | m in t.members && m.isReference
      ensures LessEq(n, m.name)
    {
      var k :| 0 <= k < |t.members| && t.members[k] == m;
      if k == i {
        assert m.name == n;
      } else {
        assert i < k;
        assert Less(t.members[i].name, t.members[k].name);
      }
    }
  }

  /** An explicitly given reference name counts only when it is non-empty. */
  predicate HasExplicitReference(tag: IndicatorTag) {
    tag.reference.Some? && |tag.reference.value| > 0
  }

  /** `get_refname_for`: the line's own reference name if it has one,
      otherwise the first reference line; a name that is no tagged
      indicator has no reference attribute. */
  function RefName(t: Table, name: string): (r: Result<string>)
    ensures FindMember(t.members, name).None? || FindMember(t.members, name).value.indicator.None? ==>
              r == Raised(AttributeError)
    ensures FindMember(t.members, name).Some? && FindMember(t.members, name).value.indicator.Some? ==>
              var tag := FindMember(t.members, name).value.indicator.value;
              && (HasExplicitReference(tag) ==> r == Ok(tag.reference.value))
              && (!HasExplicitReference(tag) && FirstReference(t.members).Some? ==> r == Ok(FirstReference(t.members).value))
              && (!HasExplicitReference(tag) && FirstReference(t.members).None? ==> r == Raised(IndexError))
  {
    match FindMember(t.members, name)
    case None => Raised(AttributeError)
    case Some(m) =>
      if m.indicator.None? then Raised(AttributeError)
      else if HasExplicitReference(m.indicator.value) then Ok(m.indicator.value.reference.value)
      else
        match FirstReference(t.members)
        case None => Raised(IndexError)
        case Some(n) => Ok(n)
  }

  /** `get_reference_value`: the value of the line's reference line. */
  function ReferenceValue(t: Table, name: string, p: Period): (r: Result<Option<int>>)
    ensures RefName(t, name).Raised? ==> r == Raised(RefName(t, name).exception)
    ensures RefName(t, name).Ok? ==> r == IndicatorData(t, RefName(t, name).value, p)
  {
    var ref :- RefName(t, name);
    IndicatorData(t, ref, p)
  }

  /** `get_indicator_rate`: 1 for a line that is its own reference;
      otherwise the line's value divided by its reference's value, `None`
      when the line has no value, 0 when the reference value is 0, and a
      type error when only the reference has no value. */
  function Rate(t: Table, name: string, p: Period): Result<Option<real>> {
    var ref :- RefName(t, name);
    if ref == name then Ok(Some(1.0))
    else
      var refValue :- ReferenceValue(t, name, p);
      var value :- IndicatorData(t, name, p);
      if value.None? then Ok(None)
      else if refValue.None? then Raised(TypeError)
      else if refValue.value == 0 then Ok(Some(0.0))
      else Ok(Some(value.value as real / refValue.value as real))
  }

  /** The rate of a line against a different reference line: multiplied by
      the reference's value it gives back the line's value; the other
      outcomes follow which of the two values are missing or zero. */
  lemma RateSpec(t: Table, name: string, p: Period, ref: string)
    requires RefName(t, name) == Ok(ref) && ref != name
    requires IndicatorData(t, ref, p).Ok? && IndicatorData(t, name, p).Ok?
    ensures var rv := IndicatorData(t, ref, p).value;
            var v := IndicatorData(t, name, p).value;
            && (v.None? ==> Rate(t, name, p) == Ok(None))
            && (v.Some? && rv.None? ==> Rate(t, name, p) == Raised(TypeError))
            && (v.Some? && rv == Some(0) ==> Rate(t, name, p) == Ok(Some(0.0)))
            && (v.Some? && rv.Some? && rv.value != 0 ==>
                  Rate(t, name, p).Ok? && Rate(t, name, p).value.Some?
                  && Rate(t, name, p).value.value * (rv.value as real) == v.value as real)
  {
  }

  /** A line that is its own reference has rate 1 for every period. */
  lemma RateOfReference(t: Table, name: string, p: Period)
    requires RefName(t, name) == Ok(name)
    ensures Rate(t, name, p) == Ok(Some(1.0))
  {
  }

  /** The rate needs the reference value first: a reference name that is
      no indicator raises even when the line has no value. */
  lemma RateNeedsReference(t: Table, name: string, p: Period, ref: string)
    requires RefName(t, name) == Ok(ref) && ref != name && !IsIndicator(t, ref)
    ensures Rate(t, name, p) == Raised(IndexError)
  {
  }

  // ---------------------------------------------------------------------
  // Lines

  /** The percentage entry of a cell: absent, or present with a rate. */
  datatype Percent = NoPercent | Percent(rate: Option<real>)

  datatype Cell = Cell(value: Option<int>, percent: Percent)

  datatype Total = Total(value: int, percent: int)

  datatype Line = Line(labelText: string, values: Dict<Period, Cell>, total: Option<Total>)

  /** The cell of one period: an invalid period gets an empty value and an
      empty percentage; a valid one gets the indicator's value and, when
      the `with_percentage` option is set, its rate. */
  function CellFor(t: Table, name: string, p: Period): (r: Result<Cell>)
    ensures !t.periodIsValid(p) ==> r == Ok(Cell(None, Percent(None)))
    ensures t.periodIsValid(p) && r.Ok? ==> Ok(r.value.value) == IndicatorData(t, name, p)
    ensures t.periodIsValid(p) && r.Ok? ==> (r.value.percent.Percent? <==> Opt.Enabled(t.options, "with_percentage"))
    ensures t.periodIsValid(p) && r.Ok? && r.value.percent.Percent? ==> Ok(r.value.percent.rate) == Rate(t, name, p)
    ensures (&& t.periodIsValid(p) && IndicatorData(t, name, p).Ok?
             && (!Opt.Enabled(t.options, "with_percentage") || Rate(t, name, p).Ok?)) ==> r.Ok?
    ensures r.Raised? ==> IndicatorData(t, name, p) == Raised(r.exception) || Rate(t, name, p) == Raised(r.exception)
  {
    if !t.periodIsValid(p) then Ok(Cell(None, Percent(None)))
    else
      var value :- IndicatorData(t, name, p);
      if Opt.Enabled(t.options, "with_percentage") then
        var rate :- Rate(t, name, p);
        Ok(Cell(value, Percent(rate)))
      else
        Ok(Cell(value, NoPercent))
  }

  /** The cells of `ps`, stored period by period into `acc`. */
  function LineValues(t: Table, name: string, ps: seq<Period>, acc: Dict<Period, Cell>): Result<Dict<Period, Cell>>
    decreases |ps|
  {
    if |ps| == 0 then Ok(acc)
    else
      var c :- CellFor(t, name, ps[0]);
      LineValues(t, name, ps[1..], Put(acc, ps[0], c))
  }

  /** Every stored cell is the cell of its period. */
  ghost predicate CellsCorrect(t: Table, name: string, d: Dict<Period, Cell>) {
    forall x :: x in d ==> CellFor(t, name, x.0) == Ok(x.1)
  }

  lemma {:induction false} LineValuesSpec(t: Table, name: string, ps: seq<Period>, acc: Dict<Period, Cell>)
    requires DistinctKeys(acc) && CellsCorrect(t, name, acc)
    ensures (forall p :: p in ps ==> CellFor(t, name, p).Ok?) ==> LineValues(t, name, ps, acc).Ok?
    ensures LineValues(t, name, ps, acc).Ok? ==>
              var d := LineValues(t, name, ps, acc).value;
              && DistinctKeys(d) && CellsCorrect(t, name, d)
              && forall p :: p in Keys(d) <==> p in Keys(acc) || p in ps
    ensures LineValues(t, name, ps, acc).Raised? ==>
              exists p :: p in ps && CellFor(t, name, p) == Raised(LineValues(t, name, ps, acc).exception)
  {
    LineValuesTotal(t, name, ps, acc);
    LineValuesCorrect(t, name, ps, acc);
    LineValuesRaised(t, name, ps, acc);
  }

  lemma {:induction false} LineValuesTotal(t: Table, name: string, ps: seq<Period>, acc: Dict<Period, Cell>)
    ensures (forall p :: p in ps ==> CellFor(t, name, p).Ok?) ==> LineValues(t, name, ps, acc).Ok?
    decreases |ps|
  {
    if |ps| > 0 && CellFor(t, name, ps[0]).Ok? {
      var c := CellFor(t, name, ps[0]).value;
      LineValuesTotal(t, name, ps[1..], Put(acc, ps[0], c));
      assert forall p :: p in ps[1..] ==> p in ps;
    }
  }

  lemma {:induction false} LineValuesCorrect(t: Table, name: string, ps: seq<Period>, acc: Dict<Period, Cell>)
    requires DistinctKeys(acc) && CellsCorrect(t, name, acc)
    ensures LineValues(t, name, ps, acc).Ok? ==>
              var d := LineValues(t, name, ps, acc).value;
              && DistinctKeys(d) && CellsCorrect(t, name, d)
              && forall p :: p in Keys(d) <==> p in Keys(acc) || p in ps
    decreases |ps|
  {
    if |ps| > 0 && CellFor(t, name, ps[0]).Ok? {
      var c := CellFor(t, name, ps[0]).value;
      PutCellCorrect(t, name, acc, ps[0], c);
      LineValuesCorrect(t, name, ps[1..], Put(acc, ps[0], c));
      assert ps == [ps[0]] + ps[1..];
    }
  }

  lemma {:induction false} LineValuesRaised(t: Table, name: string, ps: seq<Period>, acc: Dict<Period, Cell>)
    ensures LineValues(t, name, ps, acc).Raised? ==>
              exists p :: p in ps && CellFor(t, name, p) == Raised(LineValues(t, name, ps, acc).exception)
    decreases |ps|
  {
    if |ps| > 0 && CellFor(t, name, ps[0]).Ok? {
      var c := CellFor(t, name, ps[0]).value;
      LineValuesRaised(t, name, ps[1..], Put(acc, ps[0], c));
      if LineValues(t, name, ps, acc).Raised? {
        var p :| p in ps[1..] && CellFor(t, name, p) == Raised(LineValues(t, name, ps, acc).exception);
        assert p in ps;
      }
    } else if |ps| > 0 {
      assert ps[0] in ps;
    }
  }

  /** Storing a period's own cell keeps the stored cells correct. */
  lemma PutCellCorrect(t: Table, name: string, acc: Dict<Period, Cell>, p: Period, c: Cell)
    requires DistinctKeys(acc) && CellsCorrect(t, name, acc) && CellFor(t, name, p) == Ok(c)
    ensures DistinctKeys(Put(acc, p, c)) && CellsCorrect(t, name, Put(acc, p, c))
    ensures forall k :: k in Keys(Put(acc, p, c)) <==> k in Keys(acc) || k == p
  {
    PutSpec(acc, p, c);
  }

  /** The values of a line's cells, in stored order. */
  function CellValues(d: Dict<Period, Cell>): seq<Option<int>> {
    seq(|d|, i requires 0 <= i < |d| => d[i].1.value)
  }

  /** The values that are present, in order: `None` entries dropped. */
  function Known(xs: seq<Option<int>>): (r: seq<int>)
    ensures |r| <= |xs|
  {
    if |xs| == 0 then []
    else (if xs[0].Some? then [xs[0].value] else []) + Known(xs[1..])
  }

  lemma {:induction false} KnownAppend(a: seq<Option<int>>, b: seq<Option<int>>)
    ensures Known(a + b) == Known(a) + Known(b)
    decreases |a|
  {
    if |a| > 0 {
      var h := if a[0].Some? then [a[0].value] else [];
      assert (a + b)[0] == a[0];
      assert (a + b)[1..] == a[1..] + b;
      assert Known(a + b) == h + Known(a[1..] + b);
      assert Known(a) == h + Known(a[1..]);
      KnownAppend(a[1..], b);
      assert h + (Known(a[1..]) + Known(b)) == (h + Known(a[1..])) + Known(b);
    } else {
      assert a + b == b;
    }
  }

  lemma {:induction false} KnownAllPresent(xs: seq<Option<int>>)
    requires forall i :: 0 <= i < |xs| ==> xs[i].Some?
    ensures |Known(xs)| == |xs|
    ensures forall i :: 0 <= i < |xs| ==> xs[i] == Some(Known(xs)[i])
    decreases |xs|
  {
    if |xs| > 0 {
      KnownAllPresent(xs[1..]);
    }
  }

  function Sum(xs: seq<int>): int {
    if |xs| == 0 then 0 else xs[0] + Sum(xs[1..])
  }

  /** `clean_list`: removes the first `None` until none is left. What
      remains is the present values, in order. */
  method CleanList(alist: seq<Option<int>>) returns (r: seq<Option<int>>)
    ensures |r| == |Known(alist)|
    ensures forall i :: 0 <= i < |r| ==> r[i] == Some(Known(alist)[i])
  {
    r := alist;
    while None in r
      invariant Known(r) == Known(alist)
      decreases |r|
    {
      var i := 0;
      while r[i] != None
        invariant 0 <= i < |r| && None in r[i..]
        decreases |r| - i
      {
        assert r[i..] == [r[i]] + r[i + 1..];
        i := i + 1;
      }
      assert r == r[..i] + [None] + r[i + 1..];
      KnownAppend(r[..i] + [None], r[i + 1..]);
      KnownAppend(r[..i], [None]);
      KnownAppend(r[..i], r[i + 1..]);
      r := r[..i] + r[i + 1..];
    }
    forall i | 0 <= i < |r|
      ensures r[i].Some?
    {
      assert r[i] in r;
    }
    KnownAllPresent(r);
  }

  /** `get_line_data`: the label, the cell of every period (a period listed
      twice keeps one entry), and, when the `with_total` option is set, the
      sum of the present values with percentage 1. */
  function LineData(t: Table, name: string): Result<Line> {
    var values :- LineValues(t, name, t.periods, []);
    var total := if Opt.Enabled(t.options, "with_total")
                 then Some(Total(Sum(Known(CellValues(values))), 1)) else None;
    Ok(Line(Label(t, name), values, total))
  }

  /** A line holds exactly one cell per listed period, each the cell of its
      period; the total, when asked for, adds the present values; the line
      fails with the first failing period's error. */
  lemma LineDataSpec(t: Table, name: string)
    ensures (forall p :: p in t.periods ==> CellFor(t, name, p).Ok?) ==> LineData(t, name).Ok?
    ensures LineData(t, name).Ok? ==>
              var line := LineData(t, name).value;
              && line.labelText == Label(t, name)
              && DistinctKeys(line.values)
              && (forall p :: p in Keys(line.values) <==> p in t.periods)
              && (forall x :: x in line.values ==> CellFor(t, name, x.0) == Ok(x.1))
              && (Opt.Enabled(t.options, "with_total") <==> line.total.Some?)
              && (line.total.Some? ==> line.total.value == Total(Sum(Known(CellValues(line.values))), 1))
    ensures LineData(t, name).Raised? ==>
              exists p :: p in t.periods && CellFor(t, name, p) == Raised(LineData(t, name).exception)
  {
    LineValuesSpec(t, name, t.periods, []);
  }

  /** Missing values do not count towards the total: a `None` anywhere in
      the row adds nothing, and a present value adds itself. */
  lemma TotalSkipsMissing(a: seq<Option<int>>, b: seq<Option<int>>, v: int)
    ensures Sum(Known(a + [None] + b)) == Sum(Known(a + b))
    ensures Sum(Known(a + [Some(v)] + b)) == Sum(Known(a + b)) + v
  {
    KnownAppend(a + [None], b);
    KnownAppend(a, [None]);
    KnownAppend(a + [Some(v)], b);
    KnownAppend(a, [Some(v)]);
    KnownAppend(a, b);
    var none: seq<Option<int>> := [None];
    var some: seq<Option<int>> := [Some(v)];
    assert none[1..] == [] && some[1..] == [];
    assert Known(none) == [] && Known(some) == [v];
    assert Known(a) + [] == Known(a);
    SumAppend(Known(a), Known(b));
    SumAppend(Known(a) + [v], Known(b));
    SumAppend(Known(a), [v]);
  }

  lemma {:induction false} SumAppend(xs: seq<int>, ys: seq<int>)
    ensures Sum(xs + ys) == Sum(xs) + Sum(ys)
    decreases |xs|
  {
    if |xs| > 0 {
      assert (xs + ys)[1..] == xs[1..] + ys;
      SumAppend(xs[1..], ys);
    } else {
      assert xs + ys == ys;
    }
  }

  // ---------------------------------------------------------------------
  // Table data

  /** `line_is_ref`. */
  predicate IsRefLine(t: Table, name: string) {
    FindMember(t.members, name).Some? && FindMember(t.members, name).value.isReference
  }

  /** A line is kept unless it is a reference line and the
      `with_reference` option is off. */
  predicate Included(t: Table, name: string) {
    !IsRefLine(t, name) || Opt.Enabled(t.options, "with_reference")
  }

  /** The data of `lines`, stored line by line into `acc`. */
  function Collect(t: Table, lines: seq<string>, acc: Dict<string, Line>): Result<Dict<string, Line>>
    decreases |lines|
  {
    if |lines| == 0 then Ok(acc)
    else if Included(t, lines[0]) then
      var line :- LineData(t, lines[0]);
      Collect(t, lines[1..], Put(acc, LineIndexSlug(t, lines[0]), line))
    else
      Collect(t, lines[1..], acc)
  }

  /** `data_unsorted`: every included line's data under its slug. */
  function DataUnsorted(t: Table): Result<Dict<string, Line>> {
    Collect(t, Lines(t.members), [])
  }

  /** Every stored line is the data of an included line of `lines` stored
      under its slug, or was in `acc` already. */
  ghost predicate CollectedFrom(t: Table, lines: seq<string>, acc: Dict<string, Line>, d: Dict<string, Line>) {
    forall x :: x in d ==>
      x in acc || exists n :: n in lines && Included(t, n) && LineIndexSlug(t, n) == x.0 && LineData(t, n) == Ok(x.1)
  }

  lemma {:induction false} CollectSpec(t: Table, lines: seq<string>, acc: Dict<string, Line>)
    requires DistinctKeys(acc)
    ensures Collect(t, lines, acc).Ok? ==>
              var d := Collect(t, lines, acc).value;
              && DistinctKeys(d)
              && CollectedFrom(t, lines, acc, d)
              && forall k :: k in Keys(d) <==> k in Keys(acc) || exists n :: n in lines && Included(t, n) && LineIndexSlug(t, n) == k
    ensures (forall n :: n in lines && Included(t, n) ==> LineData(t, n).Ok?) ==> Collect(t, lines, acc).Ok?
    ensures Collect(t, lines, acc).Raised? ==>
              exists n :: n in lines && Included(t, n) && LineData(t, n) == Raised(Collect(t, lines, acc).exception)
    decreases |lines|
  {
    CollectTotal(t, lines, acc);
    CollectRaised(t, lines, acc);
    if |lines| > 0 && Included(t, lines[0]) && LineData(t, lines[0]).Ok? {
      var n := lines[0];
      var line := LineData(t, n).value;
      var acc' := Put(acc, LineIndexSlug(t, n), line);
      PutSpec(acc, LineIndexSlug(t, n), line);
      CollectSpec(t, lines[1..], acc');
      if Collect(t, lines, acc).Ok? {
        var d := Collect(t, lines, acc).value;
        assert Collect(t, lines[1..], acc') == Collect(t, lines, acc);
        CollectedAfterPut(t, lines, acc, d);
        KeysAfterPut(t, lines, acc, d);
      }
    } else if |lines| > 0 && !Included(t, lines[0]) {
      CollectSpec(t, lines[1..], acc);
      assert lines == [lines[0]] + lines[1..];
    }
  }

  /** Collecting succeeds when every included line's data does. */
  lemma {:induction false} CollectTotal(t: Table, lines: seq<string>, acc: Dict<string, Line>)
    ensures (forall n :: n in lines && Included(t, n) ==> LineData(t, n).Ok?) ==> Collect(t, lines, acc).Ok?
    decreases |lines|
  {
    if |lines| > 0 {
      var n := lines[0];
      assert forall n' :: n' in lines[1..] ==> n' in lines;
      if Included(t, n) && LineData(t, n).Ok? {
        CollectTotal(t, lines[1..], Put(acc, LineIndexSlug(t, n), LineData(t, n).value));
      } else if !Included(t, n) {
        CollectTotal(t, lines[1..], acc);
      }
    }
  }

  /** A failed collection fails with the error of some included line. */
  lemma {:induction false} CollectRaised(t: Table, lines: seq<string>, acc: Dict<string, Line>)
    ensures Collect(t, lines, acc).Raised? ==>
              exists n :: n in lines && Included(t, n) && LineData(t, n) == Raised(Collect(t, lines, acc).exception)
    decreases |lines|
  {
    if |lines| > 0 && Collect(t, lines, acc).Raised? {
      var n := lines[0];
      var e := Collect(t, lines, acc).exception;
      if Included(t, n) && LineData(t, n).Raised? {
        assert LineData(t, n) == Raised(e);
        assert n in lines;
      } else {
        var acc' := if Included(t, n) then Put(acc, LineIndexSlug(t, n), LineData(t, n).value) else acc;
        assert Collect(t, lines, acc) == Collect(t, lines[1..], acc');
        CollectRaised(t, lines[1..], acc');
        var n' :| n' in lines[1..] && Included(t, n') && LineData(t, n') == Raised(e);
        assert n' in lines;
      }
    }
  }

  /** The first line stored, what the rest collects was collected from all. */
  lemma CollectedAfterPut(t: Table, lines: seq<string>, acc: Dict<string, Line>, d: Dict<string, Line>)
    requires |lines| > 0 && Included(t, lines[0]) && LineData(t, lines[0]).Ok?
    requires DistinctKeys(acc)
    requires CollectedFrom(t, lines[1..], Put(acc, LineIndexSlug(t, lines[0]), LineData(t, lines[0]).value), d)
    ensures CollectedFrom(t, lines, acc, d)
  {
    var n := lines[0];
    var line := LineData(t, n).value;
    PutSpec(acc, LineIndexSlug(t, n), line);
    forall x | x in d
      ensures x in acc || exists n' :: n' in lines && Included(t, n') && LineIndexSlug(t, n') == x.0 && LineData(t, n') == Ok(x.1)
    {
      if x !in acc && x == (LineIndexSlug(t, n), line) {
        assert n in lines;
      } else if x !in acc {
        var n' :| n' in lines[1..] && Included(t, n') && LineIndexSlug(t, n') == x.0 && LineData(t, n') == Ok(x.1);
        assert n' in lines;
      }
    }
  }

  /** The first line stored, the keys of what the rest collects are the
      slugs of all included lines. */
  lemma KeysAfterPut(t: Table, lines: seq<string>, acc: Dict<string, Line>, d: Dict<string, Line>)
    requires |lines| > 0 && Included(t, lines[0]) && LineData(t, lines[0]).Ok?
    requires var acc' := Put(acc, LineIndexSlug(t, lines[0]), LineData(t, lines[0]).value);
             forall k :: k in Keys(d) <==> k in Keys(acc') || exists n :: n in lines[1..] && Included(t, n) && LineIndexSlug(t, n) == k
    ensures forall k :: k in Keys(d) <==> k in Keys(acc) || exists n :: n in lines && Included(t, n) && LineIndexSlug(t, n) == k
  {
    var n := lines[0];
    PutKeySet(acc, LineIndexSlug(t, n), LineData(t, n).value);
    assert lines == [n] + lines[1..];
  }

  /** The unsorted data holds, under each included line's slug, that line's
      data, and nothing else; excluded reference lines are absent. */
  lemma DataUnsortedSpec(t: Table, name: string)
    requires WellFormed(t) && DataUnsorted(t).Ok? && name in Lines(t.members)
    ensures var d := DataUnsorted(t).value;
            && DistinctKeys(d)
            && (Included(t, name) ==> LineData(t, name).Ok? && Get(d, LineIndexSlug(t, name)) == Some(LineData(t, name).value))
            && (!Included(t, name) ==> Get(d, LineIndexSlug(t, name)).None?)
  {
    var d := DataUnsorted(t).value;
    var lines := Lines(t.members);
    CollectSpec(t, lines, []);
    var s := LineIndexSlug(t, name);
    SlugOfNameOnly(t, name);
    if Included(t, name) {
      var v := Get(d, s);
      assert v.Some?;
      assert (s, v.value) in d;
    }
  }

  /** No other line of the table shares a line's slug. */
  lemma SlugOfNameOnly(t: Table, name: string)
    requires WellFormed(t) && name in Lines(t.members)
    ensures forall n :: n in Lines(t.members) && LineIndexSlug(t, n) == LineIndexSlug(t, name) ==> n == name
  {
    var m :| m in t.members && m.indicator.Some? && m.name == name;
    var i :| 0 <= i < |t.members| && t.members[i] == m;
    FindMemberAt(t, i);
    forall n | n in Lines(t.members) && LineIndexSlug(t, n) == LineIndexSlug(t, name)
      ensures n == name
    {
      var m' :| m' in t.members && m'.indicator.Some? && m'.name == n;
      var i' :| 0 <= i' < |t.members| && t.members[i'] == m';
      FindMemberAt(t, i');
      SlugInjective(m'.indicator.value.index, n, m.indicator.value.index, name);
    }
  }

  /** Keys in order, each no later than the next. */
  predicate SortedByKey<V>(d: seq<(string, V)>) {
    forall i, j :: 0 <= i < j < |d| ==> LessEq(d[i].0, d[j].0)
  }

  /** Places `e` before the first entry whose key does not sort before it. */
  function Insert<V>(e: (string, V), d: seq<(string, V)>): (r: seq<(string, V)>)
    ensures multiset(r) == multiset(d) + multiset{e}
  {
    if |d| == 0 then [e]
    else if Less(d[0].0, e.0) then
      assert d == [d[0]] + d[1..];
      [d[0]] + Insert(e, d[1..])
    else [e] + d
  }

  lemma {:induction false} InsertSorted<V>(e: (string, V), d: seq<(string, V)>)
    requires SortedByKey(d)
    ensures SortedByKey(Insert(e, d))
    decreases |d|
  {
    var r := Insert(e, d);
    if |d| > 0 && Less(d[0].0, e.0) {
      InsertSorted(e, d[1..]);
      forall x | x in r[1..]
        ensures LessEq(d[0].0, x.0)
      {
        assert x in multiset(Insert(e, d[1..]));
        if x != e {
          assert x in d[1..];
          var k :| 0 <= k < |d[1..]| && d[1..][k] == x;
          assert d[k + 1] == x;
        }
      }
      forall i, j | 0 <= i < j < |r|
        ensures LessEq(r[i].0, r[j].0)
      {
        if i == 0 {
          assert r[j] in r[1..];
        } else {
          assert r[i] == Insert(e, d[1..])[i - 1] && r[j] == Insert(e, d[1..])[j - 1];
        }
      }
    } else if |d| > 0 {
      NotLessIsLessEq(d[0].0, e.0);
      forall i, j | 0 <= i < j < |r|
        ensures LessEq(r[i].0, r[j].0)
      {
        if i == 0 && j > 1 {
          LessEqTransitive(e.0, d[0].0, d[j - 1].0);
        }
      }
    }
  }

  /** Insertion sort by key. */
  function SortByKey<V>(d: seq<(string, V)>): (r: seq<(string, V)>)
    ensures multiset(r) == multiset(d)
  {
    if |d| == 0 then []
    else
      assert d == [d[0]] + d[1..];
      Insert(d[0], SortByKey(d[1..]))
  }

  lemma {:induction false} SortByKeySorted<V>(d: seq<(string, V)>)
    ensures SortedByKey(SortByKey(d))
    decreases |d|
  {
    if |d| > 0 {
      SortByKeySorted(d[1..]);
      InsertSorted(d[0], SortByKey(d[1..]));
    }
  }

  /** `data`: the unsorted data's entries sorted by key. */
  function Data(t: Table): Result<seq<(string, Line)>> {
    var d :- DataUnsorted(t);
    Ok(SortByKey(d))
  }

  /** The data is the unsorted data's entries, rearranged into key order;
      a failing line fails the whole table, and only a failing line does. */
  lemma DataSpec(t: Table)
    ensures Data(t).Ok? <==> DataUnsorted(t).Ok?
    ensures Data(t).Ok? ==> SortedByKey(Data(t).value)
                            && multiset(Data(t).value) == multiset(DataUnsorted(t).value)
    ensures (forall n :: n in Lines(t.members) && Included(t, n) ==> LineData(t, n).Ok?) ==> Data(t).Ok?
    ensures Data(t).Raised? ==>
              exists n :: n in Lines(t.members) && Included(t, n) && LineData(t, n) == Raised(Data(t).exception)
  {
    CollectTotal(t, Lines(t.members), []);
    CollectRaised(t, Lines(t.members), []);
    if DataUnsorted(t).Ok? {
      SortByKeySorted(DataUnsorted(t).value);
    }
  }
}
