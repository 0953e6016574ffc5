/** The records the report is built from. */
module Types {

  datatype Trend = Up | Down | Neutral

  /**
   * One key performance indicator: the column it comes from (`label` in the source; `label` is a keyword here), the displayed
   * value, the percentage change against the previous period and its
   * direction.
   */
  datatype KPI = KPI(name: string, value: string, change: real, trend: Trend)

  /**
   * The part of a report that generating it fills in: nothing at all (an
   * empty record, so the caller keeps its own fields), or the KPI list and
   * the three narrative texts.
   */
  datatype Generated =
    | NoFields
    | Fields(kpis: seq<KPI>, analysis: string, summary: string, conclusion: string)

  /**
   * Why generating a report fails: the list of KPIs is empty, so the top
   * mover is undefined and reading its trend throws.
   */
  datatype Failure = TopKpiUndefined
}
