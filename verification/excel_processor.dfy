/**
 * Report generation from spreadsheet rows: the last row is compared with
 * the one before it, every numeric column of the last row becomes a KPI,
 * the KPI with the largest absolute change (the top mover) is named in a
 * templated analysis, and at most four KPIs are kept.
 */
module ExcelProcessor {
  import opened Wrappers
  import opened Types
  import Decimal

  /** A cell as the spreadsheet decoder hands it over: a number, or anything else. */
  datatype Cell = Num(n: real) | Other

  /** One column of a row: its name and its cell. */
  datatype Field = Field(key: string, cell: Cell)

  /**
   * A row: its fields in the order in which the row's keys are enumerated.
   * A decoded row is an object, so its keys are distinct (`DistinctKeys`);
   * the operations below accept any sequence and read the first field of a key.
   */
  type Row = seq<Field>

  predicate DistinctKeys(row: Row)
  {
    forall i, j :: 0 <= i < j < |row| ==> row[i].key != row[j].key
  }

  /** How many KPIs a report shows. */
  const MaxKpis := 4

  const AnalysisOpening := "El desempeño del periodo muestra una tendencia "
  const AnalysisLeader := " liderada por "
  const AnalysisVariation := ", que registró una variación del "

  const Summary := "Resumen ejecutivo: Se observa un comportamiento estable en la mayoría de los indicadores clave, con oportunidades de optimización en las áreas de menor crecimiento."

  const Conclusion := "Basado en los datos analizados, se recomienda mantener la estrategia actual con ajustes tácticos en los indicadores con tendencia negativa."

  function Min(a: int, b: int): int { if a < b then a else b }

  function Abs(x: real): real { if x < 0.0 then -x else x }

  /** Position i holds the first field of row named key. */
  predicate IsFirstKey(row: Row, key: string, i: int)
  {
    0 <= i < |row| && row[i].key == key && forall j :: 0 <= j < i ==> row[j].key != key
  }

  /** `row[key]`: the cell of the first field named key; a missing key reads as Other. */
  function Lookup(row: Row, key: string): (c: Cell)
    ensures c.Num? ==> exists i :: 0 <= i < |row| && row[i] == Field(key, c)
    ensures (forall i :: 0 <= i < |row| ==> row[i].key != key) ==> c == Other
    ensures forall i :: IsFirstKey(row, key, i) ==> c == row[i].cell
  {
    if row == [] then Other
    else if row[0].key == key then row[0].cell
    else
      var c := Lookup(row[1..], key);
      assert c.Num? ==> exists i :: 0 <= i < |row[1..]| && row[1..][i] == Field(key, c);
      assert forall i :: 1 <= i < |row| ==> row[i] == row[1..][i - 1];
      c
  }

  /** In a row with distinct keys, every field's key reads back its own cell. */
  lemma LookupDistinct(row: Row, i: int)
    requires DistinctKeys(row) && 0 <= i < |row|
    ensures Lookup(row, row[i].key) == row[i].cell
  {
    assert IsFirstKey(row, row[i].key, i);
  }

  /** A percentage change times its non-zero base is a hundred times the difference. */
  lemma PercentTimesBase(v: real, p: real)
    requires p != 0.0
    ensures (((v - p) / p) * 100.0) * p == (v - p) * 100.0
  {
    var q := (v - p) / p;
    assert q * p == v - p;
  }

  /** A percentage change against a non-zero base is zero exactly when the values are equal. */
  lemma NoChangeIffEqual(v: real, p: real)
    requires p != 0.0
    ensures ((v - p) / p) * 100.0 == 0.0 <==> v == p
  {
    PercentTimesBase(v, p);
  }

  /**
   * The unrounded percentage change of v against the previous row's value
   * for key: zero when there is no previous row, when its value is not a
   * number, or when it is zero.
   */
  function RawChange(v: real, prev: Option<Row>, key: string): (x: real)
    ensures (prev.None? || !Lookup(prev.value, key).Num? || Lookup(prev.value, key).n == 0.0) ==> x == 0.0
  {
    if prev.None? then 0.0
    else
      var base := Lookup(prev.value, key);
      if base.Num? && base.n != 0.0 then ((v - base.n) / base.n) * 100.0 else 0.0
  }

  /**
   * `x.toFixed(2)` as a whole number of hundredths: the nearest one, a half
   * rounded away from zero.
   */
  function Hundredths(x: real): (h: int)
    ensures x >= 0.0 ==> h as real <= 100.0 * x + 0.5 < h as real + 1.0
    ensures x < 0.0 ==> h as real - 1.0 < 100.0 * x - 0.5 <= h as real
  {
    if x >= 0.0 then (100.0 * x + 0.5).Floor else -((-100.0 * x + 0.5).Floor)
  }

  /** `parseFloat(x.toFixed(2))`. */
  function ToFixed2(x: real): (r: real)
    ensures -0.005 <= r - x <= 0.005
    ensures r > 0.0 ==> x > 0.0
    ensures r < 0.0 ==> x < 0.0
    ensures r == 0.0 <==> -0.005 < x < 0.005
    ensures (100.0 * r).Floor as real == 100.0 * r
  {
    Hundredths(x) as real / 100.0
  }

  /** The trend of a change: its sign. */
  function TrendOf(x: real): (t: Trend)
    ensures t == Up <==> x > 0.0
    ensures t == Down <==> x < 0.0
    ensures t == Neutral <==> x == 0.0
  {
    if x > 0.0 then Up else if x < 0.0 then Down else Neutral
  }

  /** The KPI for column key whose last value is v. */
  function KpiFor(key: string, v: real, prev: Option<Row>, format: real -> string): (k: KPI)
    ensures k.name == key && k.value == format(v)
  {
    var change := RawChange(v, prev, key);
    KPI(key, format(v), ToFixed2(change), TrendOf(change))
  }

  /** The KPIs the columns of `last` yield, in column order. */
  function Emitted(last: Row, prev: Option<Row>, format: real -> string): (ks: seq<KPI>)
    ensures |ks| <= |last|
  {
    if last == [] then []
    else
      var f := last[|last| - 1];
      var init := Emitted(last[..|last| - 1], prev, format);
      match f.cell
      case Num(v) => init + [KpiFor(f.key, v, prev, format)]
      case Other => init
  }

  /** The positions of the numeric cells of a row, in increasing order. */
  function NumericPositions(row: Row): seq<nat>
  {
    if row == [] then []
    else NumericPositions(row[..|row| - 1]) + (if row[|row| - 1].cell.Num? then [|row| - 1] else [])
  }

  /**
   * `kpis.reduce((prev, current) => |prev.change| > |current.change| ? prev : current, seed)`:
   * a left fold over ks that replaces the accumulator unless it is strictly
   * larger in absolute change.
   */
  function Reduce(seed: KPI, ks: seq<KPI>): (r: KPI)
    ensures r == seed || r in ks
    ensures Abs(seed.change) <= Abs(r.change)
    ensures forall j :: 0 <= j < |ks| ==> Abs(ks[j].change) <= Abs(r.change)
  {
    if ks == [] then seed
    else
      var init := ks[..|ks| - 1];
      var acc := Reduce(seed, init);
      var cur := ks[|ks| - 1];
      assert forall j :: 0 <= j < |init| ==> ks[j] == init[j];
      assert acc in init ==> acc in ks;
      if Abs(acc.change) > Abs(cur.change) then acc else cur
  }

  /** ks[t] has the largest absolute change, and every later entry a smaller one. */
  ghost predicate IsLastMaximum(ks: seq<KPI>, t: int)
  {
    && 0 <= t < |ks|
    && (forall j :: 0 <= j < |ks| ==> Abs(ks[j].change) <= Abs(ks[t].change))
    && (forall j :: t < j < |ks| ==> Abs(ks[j].change) < Abs(ks[t].change))
  }

  /** Only an upward trend reads as positive; a neutral one reads as downward. */
  function Wording(t: Trend): (s: string)
    ensures s == "positiva" <==> t == Up
    ensures t != Up ==> s == "a la baja"
  {
    if t == Up then "positiva" else "a la baja"
  }

  /** `${change}` for a change that is a whole number of hundredths. */
  function ChangeText(c: real): string
  {
    Decimal.Text((100.0 * c).Floor)
  }

  /** The opening of the analysis, up to the name of the top mover. */
  function Lead(t: Trend): string
  {
    AnalysisOpening + Wording(t) + AnalysisLeader
  }

  /**
   * The analysis template: the opening with the wording of the trend, then
   * the name, and at the end the change text and a percent sign.
   */
  function Fill(t: Trend, name: string, change: string): (s: string)
    ensures |Lead(t)| + |name| <= |s|
    ensures s[..|Lead(t)|] == Lead(t)
    ensures s[|Lead(t)|..|Lead(t)| + |name|] == name
    ensures |change| + 2 <= |s|
    ensures s[|s| - |change| - 2..] == change + "%."
    ensures |Lead(t)| + |name| + |AnalysisVariation| + |change| + 2 == |s|
    ensures s[|Lead(t)| + |name|..|s| - |change| - 2] == AnalysisVariation
  {
    var lead := Lead(t);
    var head := lead + name;
    var tail := change + "%.";
    var s := head + (AnalysisVariation + tail);
    assert s[..|head|] == head;
    assert head[..|lead|] == lead;
    assert head[|lead|..] == name;
    assert s[|head| + |AnalysisVariation|..] == tail;
    assert s[|head|..|head| + |AnalysisVariation|] == AnalysisVariation;
    s
  }

  /** The analysis of a report whose top mover is top. */
  function Analysis(top: KPI): string
  {
    Fill(top.trend, top.name, ChangeText(top.change))
  }

  /** The last row and the one before it, if any. */
  function LastRow(rows: seq<Row>): Row
    requires |rows| > 0
  {
    rows[|rows| - 1]
  }

  function PrevRow(rows: seq<Row>): Option<Row>
  {
    if |rows| > 1 then Some(rows[|rows| - 2]) else None
  }

  /** What generating a report from rows yields. */
  function ReportOf(rows: seq<Row>, format: real -> string): (r: Result<Generated, Failure>)
    ensures r == Ok(NoFields) <==> rows == []
    ensures r.Ok? && r.value.Fields? ==>
      && 0 < |r.value.kpis| <= MaxKpis
      && r.value.summary == Summary && r.value.conclusion == Conclusion
  {
    if |rows| == 0 then Ok(NoFields)
    else
      var kpis := Emitted(LastRow(rows), PrevRow(rows), format);
      if |kpis| == 0 then Err(TopKpiUndefined)
      else
        var top := Reduce(kpis[0], kpis);
        Ok(Fields(kpis[..Min(MaxKpis, |kpis|)], Analysis(top), Summary, Conclusion))
  }

  /** The `forEach` over the last row's columns: one KPI per numeric cell, in column order. */
  method EmitKpis(last: Row, prev: Option<Row>, format: real -> string) returns (kpis: seq<KPI>)
    ensures kpis == Emitted(last, prev, format)
  {
    kpis := [];
    var i := 0;
    while i < |last|
      invariant 0 <= i <= |last|
      invariant kpis == Emitted(last[..i], prev, format)
    {
      assert last[..i + 1][..i] == last[..i];
      var f := last[i];
      match f.cell {
        case Num(v) =>
          kpis := kpis + [KpiFor(f.key, v, prev, format)];
        case Other =>
      }
      i := i + 1;
    }
    assert last[..|last|] == last;
  }

  /**
   * Generates the report fields from rows; `format` renders a number for
   * display in the current locale.
   */
  method GenerateReportData(rows: seq<Row>, format: real -> string) returns (r: Result<Generated, Failure>)
    ensures r == ReportOf(rows, format)
    ensures r == Ok(NoFields) <==> rows == []
    ensures r.Ok? && r.value.Fields? ==>
      |r.value.kpis| <= MaxKpis && r.value.summary == Summary && r.value.conclusion == Conclusion
  {
    if |rows| == 0 {
      return Ok(NoFields);
    }
    var last := rows[|rows| - 1];
    var prev := if |rows| > 1 then Some(rows[|rows| - 2]) else None;
    assert last == LastRow(rows) && prev == PrevRow(rows);
    var kpis := EmitKpis(last, prev, format);
    if |kpis| == 0 {
      return Err(TopKpiUndefined);
    }
    var top := Reduce(kpis[0], kpis);
    r := Ok(Fields(kpis[..Min(MaxKpis, |kpis|)], Analysis(top), Summary, Conclusion));
  }

  // ---------------------------------------------------------------------
  // Which KPIs are emitted

  /** The numeric positions are exactly the numeric cells, in increasing order. */
  lemma {:induction false} NumericPositionsExact(row: Row)
    ensures forall i :: 0 <= i < |NumericPositions(row)| ==>
      NumericPositions(row)[i] < |row| && row[NumericPositions(row)[i]].cell.Num?
    ensures forall i, j :: 0 <= i < j < |NumericPositions(row)| ==>
      NumericPositions(row)[i] < NumericPositions(row)[j]
    ensures forall j :: 0 <= j < |row| && row[j].cell.Num? ==> j in NumericPositions(row)
  {
    if row != [] {
      var init := row[..|row| - 1];
      NumericPositionsExact(init);
      var ps := NumericPositions(row);
      assert forall j :: 0 <= j < |init| ==> row[j] == init[j];
      assert ps[..|NumericPositions(init)|] == NumericPositions(init);
    }
  }

  /**
   * The i-th emitted KPI is the KPI of the i-th numeric column of the last
   * row: one KPI per numeric column, in column order, none for the others.
   */
  lemma {:induction false} EmittedPerNumericColumn(last: Row, prev: Option<Row>, format: real -> string)
    ensures |Emitted(last, prev, format)| == |NumericPositions(last)|
    ensures forall i :: 0 <= i < |NumericPositions(last)| ==>
      NumericPositions(last)[i] < |last| &&
      last[NumericPositions(last)[i]].cell.Num? &&
      Emitted(last, prev, format)[i] ==
        KpiFor(last[NumericPositions(last)[i]].key, last[NumericPositions(last)[i]].cell.n, prev, format)
  {
    NumericPositionsExact(last);
    if last != [] {
      var init := last[..|last| - 1];
      EmittedPerNumericColumn(init, prev, format);
      assert forall j :: 0 <= j < |init| ==> last[j] == init[j];
      var f := last[|last| - 1];
      if f.cell.Num? {
        assert Emitted(last, prev, format) ==
          Emitted(init, prev, format) + [KpiFor(f.key, f.cell.n, prev, format)];
        assert NumericPositions(last) == NumericPositions(init) + [|last| - 1];
      } else {
        assert Emitted(last, prev, format) == Emitted(init, prev, format);
        assert NumericPositions(last) == NumericPositions(init);
      }
    }
  }

  /** No KPI is emitted exactly when no cell of the last row is a number. */
  lemma NoKpiIffNoNumber(last: Row, prev: Option<Row>, format: real -> string)
    ensures |Emitted(last, prev, format)| == 0 <==> forall j :: 0 <= j < |last| ==> !last[j].cell.Num?
  {
    EmittedPerNumericColumn(last, prev, format);
    NumericPositionsExact(last);
    if |NumericPositions(last)| > 0 {
      assert last[NumericPositions(last)[0]].cell.Num?;
    }
  }

  // ---------------------------------------------------------------------
  // Change and trend of one KPI

  /**
   * The change is zero and the trend neutral when there is no previous row,
   * when the previous value is not a number, or when it is zero; otherwise
   * the change is the percentage change rounded to hundredths and the trend
   * is the sign of the unrounded percentage change.
   */
  lemma ChangeAgainstPrevious(key: string, v: real, prev: Option<Row>, format: real -> string)
    ensures var k := KpiFor(key, v, prev, format);
      (prev.None? || !Lookup(prev.value, key).Num? || Lookup(prev.value, key).n == 0.0) ==>
        k.change == 0.0 && k.trend == Neutral
    ensures var k := KpiFor(key, v, prev, format);
      prev.Some? && Lookup(prev.value, key).Num? && Lookup(prev.value, key).n != 0.0 ==>
        var p := Lookup(prev.value, key).n;
        var x := ((v - p) / p) * 100.0;
        && k.change == ToFixed2(x)
        && (k.trend == Up <==> x > 0.0)
        && (k.trend == Down <==> x < 0.0)
        && (k.trend == Neutral <==> v == p)
  {
    if prev.Some? && Lookup(prev.value, key).Num? && Lookup(prev.value, key).n != 0.0 {
      NoChangeIffEqual(v, Lookup(prev.value, key).n);
    }
  }

  /**
   * The stored change never contradicts the trend, but it may be zero while
   * the trend is up or down: the trend follows the unrounded change.
   */
  lemma TrendAgreesWithChange(key: string, v: real, prev: Option<Row>, format: real -> string)
    ensures var k := KpiFor(key, v, prev, format);
      && (k.change > 0.0 ==> k.trend == Up)
      && (k.change < 0.0 ==> k.trend == Down)
      && (k.trend == Up ==> k.change >= 0.0)
      && (k.trend == Down ==> k.change <= 0.0)
      && (k.trend == Neutral ==> k.change == 0.0)
  {
  }

  // ---------------------------------------------------------------------
  // The top mover

  /**
   * The fold seeded with the first KPI yields the KPI with the largest
   * absolute change, and on a tie the latest of them.
   */
  lemma {:induction false} ReduceFindsLastMaximum(ks: seq<KPI>)
    requires |ks| > 0
    ensures exists t :: IsLastMaximum(ks, t) && Reduce(ks[0], ks) == ks[t]
  {
    var n := |ks|;
    var init := ks[..n - 1];
    if n == 1 {
      assert Reduce(ks[0], init) == ks[0];
      assert IsLastMaximum(ks, 0);
    } else {
      ReduceFindsLastMaximum(init);
      var t' :| IsLastMaximum(init, t') && Reduce(init[0], init) == init[t'];
      assert init[0] == ks[0];
      assert forall j :: 0 <= j < n - 1 ==> ks[j] == init[j];
      if Abs(init[t'].change) > Abs(ks[n - 1].change) {
        assert IsLastMaximum(ks, t');
      } else {
        assert IsLastMaximum(ks, n - 1);
      }
    }
  }

  /** Whichever position is the latest maximum, the fold returns the KPI there. */
  lemma ReduceIsLastMaximum(ks: seq<KPI>, t: int)
    requires IsLastMaximum(ks, t)
    ensures Reduce(ks[0], ks) == ks[t]
  {
    ReduceFindsLastMaximum(ks);
    var t0 :| IsLastMaximum(ks, t0) && Reduce(ks[0], ks) == ks[t0];
    assert Abs(ks[t0].change) <= Abs(ks[t].change);
    assert Abs(ks[t].change) <= Abs(ks[t0].change);
  }

  // ---------------------------------------------------------------------
  // The whole report

  /** The report fails exactly when there are rows and no cell of the last one is a number. */
  lemma ReportFailsIffNoNumber(rows: seq<Row>, format: real -> string)
    ensures ReportOf(rows, format).Err? <==>
      |rows| > 0 && forall j :: 0 <= j < |LastRow(rows)| ==> !LastRow(rows)[j].cell.Num?
  {
    if |rows| > 0 {
      NoKpiIffNoNumber(LastRow(rows), PrevRow(rows), format);
    }
  }

  /**
   * The KPIs of a report are the first min(4, n) of the n KPIs of the
   * numeric columns of the last row, in column order.
   */
  lemma ReportKpis(rows: seq<Row>, format: real -> string)
    requires ReportOf(rows, format).Ok? && ReportOf(rows, format).value.Fields?
    ensures |rows| > 0
    ensures var ks := ReportOf(rows, format).value.kpis;
      var last := LastRow(rows);
      var ps := NumericPositions(last);
      && |ks| == Min(MaxKpis, |ps|)
      && forall i :: 0 <= i < |ks| ==>
           ps[i] < |last| && last[ps[i]].cell.Num? &&
           ks[i] == KpiFor(last[ps[i]].key, last[ps[i]].cell.n, PrevRow(rows), format)
  {
    EmittedPerNumericColumn(LastRow(rows), PrevRow(rows), format);
  }

  /** With a single row every KPI has change zero and a neutral trend. */
  lemma SingleRowIsNeutral(row: Row, format: real -> string)
    requires ReportOf([row], format).Ok?
    ensures ReportOf([row], format).value.Fields?
    ensures forall k :: k in ReportOf([row], format).value.kpis ==> k.change == 0.0 && k.trend == Neutral
  {
    var ks := Emitted(row, None, format);
    EmittedPerNumericColumn(row, None, format);
    assert forall i :: 0 <= i < |ks| ==> ks[i].change == 0.0 && ks[i].trend == Neutral;
  }

  /**
   * A report of rows whose KPI list has its latest maximum at t: the first
   * min(4, n) KPIs and the analysis of the KPI at t.
   */
  lemma ReportShape(rows: seq<Row>, format: real -> string, t: int)
    requires |rows| > 0
    requires IsLastMaximum(Emitted(LastRow(rows), PrevRow(rows), format), t)
    ensures var all := Emitted(LastRow(rows), PrevRow(rows), format);
      ReportOf(rows, format) == Ok(Fields(all[..Min(MaxKpis, |all|)], Analysis(all[t]), Summary, Conclusion))
  {
    var all := Emitted(LastRow(rows), PrevRow(rows), format);
    ReduceIsLastMaximum(all, t);
  }

  /**
   * The analysis names the top mover of the full KPI list, before it is cut
   * to four: the KPI with the largest absolute change, the latest on a tie.
   */
  lemma AnalysisNamesTopMover(rows: seq<Row>, format: real -> string, t: int)
    requires |rows| > 0 && ReportOf(rows, format).Ok?
    requires IsLastMaximum(Emitted(LastRow(rows), PrevRow(rows), format), t)
    ensures ReportOf(rows, format).value.Fields?
    ensures ReportOf(rows, format).value.analysis ==
      Analysis(Emitted(LastRow(rows), PrevRow(rows), format)[t])
  {
    ReportShape(rows, format, t);
  }

  /**
   * With a single row every change is zero, so every KPI ties and the
   * analysis names the last numeric column of the row.
   */
  lemma SingleRowNamesLastColumn(row: Row, format: real -> string)
    requires ReportOf([row], format).Ok?
    ensures var all := Emitted(row, None, format);
      |all| > 0 && ReportOf([row], format).value.Fields? &&
      ReportOf([row], format).value.analysis == Analysis(all[|all| - 1])
  {
    var all := Emitted(row, None, format);
    EmittedPerNumericColumn(row, None, format);
    assert forall i :: 0 <= i < |all| ==> all[i].change == 0.0;
    assert IsLastMaximum(all, |all| - 1);
    AnalysisNamesTopMover([row], format, |all| - 1);
  }

  /** The analysis spells the change of the top mover exactly. */
  lemma ChangeTextExact(x: real)
    ensures Decimal.Parse(ChangeText(ToFixed2(x))) == Some(ToFixed2(x))
  {
    var h := Hundredths(x);
    assert ToFixed2(x) == h as real / 100.0;
    assert 100.0 * ToFixed2(x) == h as real;
    assert ChangeText(ToFixed2(x)) == Decimal.Text(h);
    Decimal.ParseText(h);
  }
}
