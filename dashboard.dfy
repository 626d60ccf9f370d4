/**
 * What each metric's statistics panel shows: p50, p90 and p99 of its
 * history, as a byte rate for the PCIe and NVLink throughput metrics and as a
 * percentage for every other metric.
 */
module Dashboard {
  import Catalog
  import Statistics
  import Units

  /** One displayed statistic, before it is turned into text. */
  datatype StatValue = Percent(percent: real) | Rate(rate: Units.Scaled)

  /** How metric `name` shows the statistic `p`. */
  function Display(name: string, p: real): (d: StatValue)
    ensures d.Rate? <==> Catalog.IsByteRateMetric(name)
    ensures d.Percent? ==> d.percent == p * 100.0
    ensures d.Rate? ==> d.rate.value * Units.Threshold(d.rate.unit) == p
    ensures d.Rate? ==> d.rate == Units.FormatBytesPerSec(p)
  {
    if Catalog.IsByteRateMetric(name) then Rate(Units.FormatBytesPerSec(p)) else Percent(p * 100.0)
  }

  /** The statistics panel of one metric. */
  datatype Panel = Panel(name: string, p50: StatValue, p90: StatValue, p99: StatValue)

  /** The panel of metric `i` drawn from that metric's history. */
  function MetricPanel(i: nat, history: seq<real>): (panel: Panel)
    requires i < |Catalog.METRIC_NAMES|
    ensures panel.name == Catalog.METRIC_NAMES[i]
    ensures panel.p50 == Display(panel.name, Statistics.Summarize(history).p50)
    ensures panel.p90 == Display(panel.name, Statistics.Summarize(history).p90)
    ensures panel.p99 == Display(panel.name, Statistics.Summarize(history).p99)
  {
    var name := Catalog.METRIC_NAMES[i];
    var t := Statistics.Summarize(history);
    Panel(name, Display(name, t.p50), Display(name, t.p90), Display(name, t.p99))
  }

  /**
   * A panel's three statistics come in order: the percentages never
   * decrease from p50 to p99, and neither do the byte-rate units.
   */
  lemma PanelOrdered(i: nat, history: seq<real>)
    requires i < |Catalog.METRIC_NAMES|
    ensures var panel := MetricPanel(i, history);
      if 7 <= i then
        && panel.p50.Rate? && panel.p90.Rate? && panel.p99.Rate?
        && Units.Order(panel.p50.rate.unit) <= Units.Order(panel.p90.rate.unit) <= Units.Order(panel.p99.rate.unit)
      else
        && panel.p50.Percent? && panel.p90.Percent? && panel.p99.Percent?
        && panel.p50.percent <= panel.p90.percent <= panel.p99.percent
  {
    Catalog.CatalogShape();
    var t := Statistics.Summarize(history);
    if 7 <= i {
      Units.FormatMonotone(t.p50, t.p90);
      Units.FormatMonotone(t.p90, t.p99);
    }
  }

  /** A metric with no positive sample shows zero everywhere: 0.0% or 0 B/s. */
  lemma IdlePanel(i: nat, history: seq<real>)
    requires i < |Catalog.METRIC_NAMES|
    requires forall k :: 0 <= k < |history| ==> history[k] <= 0.0
    ensures var panel := MetricPanel(i, history);
      var zero := if 7 <= i then Rate(Units.Scaled(0.0, Units.B)) else Percent(0.0);
      panel.p50 == zero && panel.p90 == zero && panel.p99 == zero
  {
    Catalog.CatalogShape();
  }
}
