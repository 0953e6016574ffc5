/**
 * Reports generated from small concrete spreadsheets, showing the order of
 * operations of report generation on inputs where it matters. Each proof
 * evaluates the report column by column.
 */
module ReportExamples {
  import opened Wrappers
  import opened Types
  import opened ExcelProcessor

  /** The KPIs of the mixed-columns example: A and C, but not B. */
  lemma MixedColumnsEmitted(format: real -> string)
    ensures Emitted([Field("A", Num(150.0)), Field("B", Other), Field("C", Num(50.0))],
                    Some([Field("A", Num(100.0)), Field("B", Other)]), format) ==
      [KPI("A", format(150.0), 50.0, Up), KPI("C", format(50.0), 0.0, Neutral)]
  {
    var prev := [Field("A", Num(100.0)), Field("B", Other)];
    var last := [Field("A", Num(150.0)), Field("B", Other), Field("C", Num(50.0))];
    var a := KPI("A", format(150.0), 50.0, Up);
    var c := KPI("C", format(50.0), 0.0, Neutral);
    assert last[..2][..1] == last[..1] == [Field("A", Num(150.0))];
    assert last[..1][..0] == [];
    assert Lookup(prev, "A") == Num(100.0);
    assert Lookup(prev, "C") == Other;
    assert Hundredths(50.0) == 5000 && Hundredths(0.0) == 0;
    assert KpiFor("A", 150.0, Some(prev), format) == a;
    assert KpiFor("C", 50.0, Some(prev), format) == c;
    assert Emitted(last[..1], Some(prev), format) == [a];
    assert Emitted(last[..2], Some(prev), format) == [a];
  }

  /**
   * Previous row {A: 100, B: "x"}, last row {A: 150, B: "y", C: 50}: A rose
   * by 50%, B is not a number, C has no numeric previous value.
   */
  lemma MixedColumns(format: real -> string)
    ensures var prev := [Field("A", Num(100.0)), Field("B", Other)];
      var last := [Field("A", Num(150.0)), Field("B", Other), Field("C", Num(50.0))];
      var a := KPI("A", format(150.0), 50.0, Up);
      ReportOf([prev, last], format) ==
        Ok(Fields([a, KPI("C", format(50.0), 0.0, Neutral)], Analysis(a), Summary, Conclusion))
  {
    var prev := [Field("A", Num(100.0)), Field("B", Other)];
    var last := [Field("A", Num(150.0)), Field("B", Other), Field("C", Num(50.0))];
    var rows := [prev, last];
    var a := KPI("A", format(150.0), 50.0, Up);
    var c := KPI("C", format(50.0), 0.0, Neutral);
    assert LastRow(rows) == last && PrevRow(rows) == Some(prev);
    MixedColumnsEmitted(format);
    assert Reduce(a, [a, c][..1]) == a;
    assert Reduce(a, [a, c]) == a;
    assert [a, c][..Min(MaxKpis, 2)] == [a, c];
    assert ReportOf(rows, format) == Ok(Fields([a, c], Analysis(a), Summary, Conclusion));
  }

  /** A previous value of zero gives change zero and a neutral trend. */
  lemma ZeroPreviousValue(format: real -> string)
    ensures var k := KPI("A", format(10.0), 0.0, Neutral);
      ReportOf([[Field("A", Num(0.0))], [Field("A", Num(10.0))]], format) ==
        Ok(Fields([k], Analysis(k), Summary, Conclusion))
  {
    var prev := [Field("A", Num(0.0))];
    var last := [Field("A", Num(10.0))];
    var rows := [prev, last];
    var k := KPI("A", format(10.0), 0.0, Neutral);
    assert last[..0] == [];
    assert LastRow(rows) == last && PrevRow(rows) == Some(prev);
    assert RawChange(10.0, Some(prev), "A") == 0.0;
    assert Hundredths(0.0) == 0;
    assert KpiFor("A", 10.0, Some(prev), format) == k;
    assert Emitted(last, Some(prev), format) == [k];
    assert Reduce(k, [k]) == k;
    assert [k][..Min(MaxKpis, 1)] == [k];
    assert ReportOf(rows, format) == Ok(Fields([k], Analysis(k), Summary, Conclusion));
  }

  /** A change of 0.001% is stored as 0, yet its trend is up. */
  lemma TinyChangeKeepsTrend(format: real -> string)
    ensures var k := KPI("A", format(100001.0), 0.0, Up);
      ReportOf([[Field("A", Num(100000.0))], [Field("A", Num(100001.0))]], format) ==
        Ok(Fields([k], Analysis(k), Summary, Conclusion))
  {
    var prev := [Field("A", Num(100000.0))];
    var last := [Field("A", Num(100001.0))];
    var rows := [prev, last];
    var k := KPI("A", format(100001.0), 0.0, Up);
    assert last[..0] == [];
    assert LastRow(rows) == last && PrevRow(rows) == Some(prev);
    assert RawChange(100001.0, Some(prev), "A") == 0.001;
    assert Hundredths(0.001) == 0;
    assert KpiFor("A", 100001.0, Some(prev), format) == k;
    assert Emitted(last, Some(prev), format) == [k];
    assert Reduce(k, [k]) == k;
    assert [k][..Min(MaxKpis, 1)] == [k];
    assert ReportOf(rows, format) == Ok(Fields([k], Analysis(k), Summary, Conclusion));
  }

  /**
   * Against a negative previous value a rise reads as a fall: from -100 to
   * -50 the change is -50% and the trend is down.
   */
  lemma NegativeBaseInvertsTrend(format: real -> string)
    ensures var k := KPI("A", format(-50.0), -50.0, Down);
      ReportOf([[Field("A", Num(-100.0))], [Field("A", Num(-50.0))]], format) ==
        Ok(Fields([k], Analysis(k), Summary, Conclusion))
  {
    var prev := [Field("A", Num(-100.0))];
    var last := [Field("A", Num(-50.0))];
    var rows := [prev, last];
    var k := KPI("A", format(-50.0), -50.0, Down);
    assert last[..0] == [];
    assert LastRow(rows) == last && PrevRow(rows) == Some(prev);
    assert RawChange(-50.0, Some(prev), "A") == -50.0;
    assert Hundredths(-50.0) == -5000;
    assert KpiFor("A", -50.0, Some(prev), format) == k;
    assert Emitted(last, Some(prev), format) == [k];
    assert Reduce(k, [k]) == k;
    assert [k][..Min(MaxKpis, 1)] == [k];
    assert ReportOf(rows, format) == Ok(Fields([k], Analysis(k), Summary, Conclusion));
  }

  /** The KPIs of the tie example: A up by 10%, B down by 10%. */
  lemma TieEmitted(format: real -> string)
    ensures Emitted([Field("A", Num(110.0)), Field("B", Num(90.0))],
                    Some([Field("A", Num(100.0)), Field("B", Num(100.0))]), format) ==
      [KPI("A", format(110.0), 10.0, Up), KPI("B", format(90.0), -10.0, Down)]
  {
    var prev := [Field("A", Num(100.0)), Field("B", Num(100.0))];
    var last := [Field("A", Num(110.0)), Field("B", Num(90.0))];
    var a := KPI("A", format(110.0), 10.0, Up);
    var b := KPI("B", format(90.0), -10.0, Down);
    assert last[..1] == [Field("A", Num(110.0))];
    assert last[..1][..0] == [];
    assert Lookup(prev, "A") == Num(100.0);
    assert Lookup(prev, "B") == Num(100.0);
    assert Hundredths(10.0) == 1000 && Hundredths(-10.0) == -1000;
    assert KpiFor("A", 110.0, Some(prev), format) == a;
    assert KpiFor("B", 90.0, Some(prev), format) == b;
    assert Emitted(last[..1], Some(prev), format) == [a];
  }

  /** On a tie in absolute change the later KPI becomes the top mover. */
  lemma TieGoesToLaterKpi(format: real -> string)
    ensures var a := KPI("A", format(110.0), 10.0, Up);
      var b := KPI("B", format(90.0), -10.0, Down);
      ReportOf([[Field("A", Num(100.0)), Field("B", Num(100.0))],
                [Field("A", Num(110.0)), Field("B", Num(90.0))]], format) ==
        Ok(Fields([a, b], Analysis(b), Summary, Conclusion))
  {
    var prev := [Field("A", Num(100.0)), Field("B", Num(100.0))];
    var last := [Field("A", Num(110.0)), Field("B", Num(90.0))];
    var rows := [prev, last];
    var a := KPI("A", format(110.0), 10.0, Up);
    var b := KPI("B", format(90.0), -10.0, Down);
    assert LastRow(rows) == last && PrevRow(rows) == Some(prev);
    TieEmitted(format);
    assert IsLastMaximum([a, b], 1);
    ReduceIsLastMaximum([a, b], 1);
    assert [a, b][..Min(MaxKpis, 2)] == [a, b];
  }

  /** The KPIs of the five-column example, one per column. */
  lemma FiveColumnsEmitted(format: real -> string)
    ensures Emitted([Field("A", Num(1.0)), Field("B", Num(2.0)), Field("C", Num(3.0)),
                     Field("D", Num(4.0)), Field("E", Num(300.0))], Some([Field("E", Num(100.0))]), format) ==
      [KPI("A", format(1.0), 0.0, Neutral), KPI("B", format(2.0), 0.0, Neutral),
       KPI("C", format(3.0), 0.0, Neutral), KPI("D", format(4.0), 0.0, Neutral),
       KPI("E", format(300.0), 200.0, Up)]
  {
    var prev := Some([Field("E", Num(100.0))]);
    var last := [Field("A", Num(1.0)), Field("B", Num(2.0)), Field("C", Num(3.0)),
                 Field("D", Num(4.0)), Field("E", Num(300.0))];
    var ka := KPI("A", format(1.0), 0.0, Neutral);
    var kb := KPI("B", format(2.0), 0.0, Neutral);
    var kc := KPI("C", format(3.0), 0.0, Neutral);
    var kd := KPI("D", format(4.0), 0.0, Neutral);
    var ke := KPI("E", format(300.0), 200.0, Up);
    assert Hundredths(0.0) == 0 && Hundredths(200.0) == 20000;
    assert KpiFor("A", 1.0, prev, format) == ka;
    assert KpiFor("B", 2.0, prev, format) == kb;
    assert KpiFor("C", 3.0, prev, format) == kc;
    assert KpiFor("D", 4.0, prev, format) == kd;
    assert KpiFor("E", 300.0, prev, format) == ke;
    assert Emitted(last[..1], prev, format) == [ka] by {
      assert last[..1][..0] == [];
    }
    assert Emitted(last[..2], prev, format) == [ka, kb] by {
      assert last[..2][..1] == last[..1];
    }
    assert Emitted(last[..3], prev, format) == [ka, kb, kc] by {
      assert last[..3][..2] == last[..2];
    }
    assert Emitted(last[..4], prev, format) == [ka, kb, kc, kd] by {
      assert last[..4][..3] == last[..3];
    }
    assert last[..5] == last && last[..5][..4] == last[..4];
  }

  /**
   * Five numeric columns of which only E has a previous value, from which
   * it rose by 200%. The report shows A to D, and its analysis names E,
   * which it does not show.
   */
  lemma TopMoverOutsideShownKpis(format: real -> string)
    ensures ReportOf([[Field("E", Num(100.0))],
                      [Field("A", Num(1.0)), Field("B", Num(2.0)), Field("C", Num(3.0)),
                       Field("D", Num(4.0)), Field("E", Num(300.0))]], format) ==
      Ok(Fields([KPI("A", format(1.0), 0.0, Neutral), KPI("B", format(2.0), 0.0, Neutral),
                 KPI("C", format(3.0), 0.0, Neutral), KPI("D", format(4.0), 0.0, Neutral)],
                Analysis(KPI("E", format(300.0), 200.0, Up)), Summary, Conclusion))
  {
    var prev := [Field("E", Num(100.0))];
    var last := [Field("A", Num(1.0)), Field("B", Num(2.0)), Field("C", Num(3.0)),
                 Field("D", Num(4.0)), Field("E", Num(300.0))];
    var rows := [prev, last];
    var ka := KPI("A", format(1.0), 0.0, Neutral);
    var kb := KPI("B", format(2.0), 0.0, Neutral);
    var kc := KPI("C", format(3.0), 0.0, Neutral);
    var kd := KPI("D", format(4.0), 0.0, Neutral);
    var ke := KPI("E", format(300.0), 200.0, Up);
    var all := [ka, kb, kc, kd, ke];
    assert LastRow(rows) == last && PrevRow(rows) == Some(prev);
    FiveColumnsEmitted(format);
    assert IsLastMaximum(all, 4);
    ReduceIsLastMaximum(all, 4);
    assert all[..Min(MaxKpis, 5)] == [ka, kb, kc, kd];
  }
}
