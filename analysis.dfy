/** The analysis step of the report analyser (`identify_passive_sources` and
    the active/passive split of `analyze_report` in krm.py): sources whose
    revision is overdue and which carry neither limit nor risk are passive;
    only the remaining, active sources are checked for anomalies. */
module Analysis {
  import opened Text
  import opened Numbers
  import opened Extraction
  import opened Anomalies

  /** A limit source is passive when its revision is overdue and both its
      total limit and its total risk (0 when it has no risk record) are 0. */
  predicate IsPassive(limits: map<string, LimitRecord>, risks: map<string, RiskRecord>, k: string)
    ensures k !in risks ==> (IsPassive(limits, risks, k) <==> k in limits && limits[k].revizeGecmis && limits[k].toplam == 0.0)
    ensures IsPassive(limits, risks, k) ==> k in limits
  {
    k in limits && limits[k].revizeGecmis && limits[k].toplam == 0.0 && RiskOf(risks, k).toplam == 0.0
  }

  predicate NoDuplicates(s: seq<string>)
  {
    forall i, j :: 0 <= i < j < |s| ==> s[i] != s[j]
  }

  /** `identify_passive_sources`: walks the limit sources and collects the
      passive ones. Sources that appear only in the risk table are never
      looked at, so they are never passive. */
  method IdentifyPassiveSources(limits: map<string, LimitRecord>, risks: map<string, RiskRecord>)
    returns (passive: seq<string>)
    ensures forall k :: k in passive <==> IsPassive(limits, risks, k)
    ensures forall k :: k in passive ==> k in limits
    ensures NoDuplicates(passive)
  {
    passive := [];
    var remaining := limits.Keys;
    ghost var seen: set<string> := {};
    while remaining != {}
      invariant remaining + seen == limits.Keys && remaining !! seen
      invariant forall k :: k in passive <==> k in seen && IsPassive(limits, risks, k)
      invariant NoDuplicates(passive)
      decreases remaining
    {
      var kaynak :| kaynak in remaining;
      var limit := limits[kaynak];
      var risk := RiskOf(risks, kaynak);
      if limit.revizeGecmis && limit.toplam == 0.0 && risk.toplam == 0.0 {
        passive := passive + [kaynak];
      }
      remaining := remaining - {kaynak};
      seen := seen + {kaynak};
    }
  }

  /** `{k: v for k, v in m.items() if k in keys}` */
  function Restrict<V>(m: map<string, V>, keys: set<string>): (r: map<string, V>)
    ensures forall k :: k in r <==> k in m && k in keys
    ensures forall k :: k in r ==> r[k] == m[k]
  {
    map k | k in m && k in keys :: m[k]
  }

  /** The parts of the analysis result the model covers. */
  datatype Report = Report(
    limits: map<string, LimitRecord>,
    risks: map<string, RiskRecord>,
    activeSources: set<string>,
    passiveSources: seq<string>,
    anomalies: seq<Anomaly>)

  /** The analysis of one document: extract the tables, split the sources
      into passive and active, and check only the active ones. */
  method AnalyzeReport(doc: seq<Page>, cutoff: DateTime) returns (report: Report)
    ensures Extracted(report.limits, report.risks) == ExtractDocument(doc, cutoff)
    ensures forall k :: k in report.passiveSources <==> IsPassive(report.limits, report.risks, k)
    ensures NoDuplicates(report.passiveSources)
    ensures forall k :: k in report.activeSources <==>
              (k in report.limits || k in report.risks) && k !in report.passiveSources
    ensures Sorted(report.anomalies)
    ensures forall sev, k :: Select(report.anomalies, sev, k) ==
              Expected(Restrict(report.limits, report.activeSources),
                       Restrict(report.risks, report.activeSources), sev, k)
    ensures forall i :: 0 <= i < |report.anomalies| ==> report.anomalies[i].kaynak in report.activeSources
  {
    var limits, risks := ParseTables(doc, cutoff);
    var passive := IdentifyPassiveSources(limits, risks);
    var allSources := limits.Keys + risks.Keys;
    var active := allSources - (set k | k in passive);
    var activeLimits := Restrict(limits, active);
    var activeRisks := Restrict(risks, active);
    var anomalies := FindAnomalies(activeLimits, activeRisks);
    report := Report(limits, risks, active, passive, anomalies);
  }

  /** Active sources are checked exactly as if the whole tables were given:
      the split only removes the passive sources' findings. */
  lemma ActiveFindingsUnchanged(limits: map<string, LimitRecord>, risks: map<string, RiskRecord>,
                                active: set<string>, sev: Severity, k: string)
    ensures Expected(Restrict(limits, active), Restrict(risks, active), sev, k) ==
            if k in active then Expected(limits, risks, sev, k) else []
  {
    var l, r := Restrict(limits, active), Restrict(risks, active);
    if k in active {
      assert LimitOf(l, k) == LimitOf(limits, k);
      assert RiskOf(r, k) == RiskOf(risks, k);
    }
  }

  /** A passive source never appears among the anomalies of the report. */
  lemma PassiveSourcesRaiseNothing(report: Report, sev: Severity, k: string)
    requires forall k :: k in report.activeSources <==>
               (k in report.limits || k in report.risks) && k !in report.passiveSources
    requires forall sev, k :: Select(report.anomalies, sev, k) ==
               Expected(Restrict(report.limits, report.activeSources),
                        Restrict(report.risks, report.activeSources), sev, k)
    requires k in report.passiveSources
    ensures Select(report.anomalies, sev, k) == []
  {
    ActiveFindingsUnchanged(report.limits, report.risks, report.activeSources, sev, k);
  }
}
