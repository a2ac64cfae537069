/** The anomaly rule engine of the report analyser (`find_anomalies` in
    krm.py): five threshold rules per source over its limit and risk
    records, then a stable sort that puts critical findings first and
    orders by source name. The human-readable `detail` text is not part of
    the model. */
module Anomalies {
  import opened Text
  import opened Extraction

  const HighUsageThreshold: real := 95.0
  const CriticalUsageThreshold: real := 100.0
  const CriticalDelayDays: int := 30

  datatype Severity = Critical | Warning

  datatype AnomalyKind =
    | CashLimitShort        // cash risk over the cash limit, total limit covers it
    | CashLimitExceeded     // cash risk over the cash limit
    | NonCashLimitExceeded  // non-cash risk over the non-cash limit
    | UnlimitedUse          // risk carried without any total limit
    | Delay                 // overdue payment days
    | TotalLimitExceeded    // usage above 100 %
    | HighUsage             // usage above 95 %

  /** The `type` string of each kind. */
  function Label(kind: AnomalyKind): string
  {
    match kind
    case CashLimitShort => "NAKD\U{130} L\U{130}M\U{130}T YETERS\U{130}Z"
    case CashLimitExceeded => "NAKD\U{130} L\U{130}M\U{130}T A\U{15E}IMI"
    case NonCashLimitExceeded => "GAYR\U{130}NAKD\U{130} L\U{130}M\U{130}T A\U{15E}IMI"
    case UnlimitedUse => "LIMITSIZ KULLANIM"
    case Delay => "GECIKME"
    case TotalLimitExceeded => "TOPLAM LIMIT ASIMI"
    case HighUsage => "YUKSEK KULLANIM"
  }

  datatype Anomaly = Anomaly(kaynak: string, kind: AnomalyKind, severity: Severity, value: real)

  /** `limits.get(kaynak, {})` read with default 0 for every field. */
  const NoLimit := LimitRecord(0.0, 0.0, 0.0, 0.0, None, false)
  const NoRisk := RiskRecord(0.0, 0.0, 0.0, 0)

  function LimitOf(limits: map<string, LimitRecord>, k: string): LimitRecord
  {
    if k in limits then limits[k] else NoLimit
  }

  function RiskOf(risks: map<string, RiskRecord>, k: string): RiskRecord
  {
    if k in risks then risks[k] else NoRisk
  }

  // ---------------------------------------------------------------------
  // The five rules

  /** Rule 1: cash risk above a positive cash limit. */
  function CashRule(k: string, l: LimitRecord, r: RiskRecord): (a: Option<Anomaly>)
    ensures a.Some? <==> r.nakdi > l.nakdi > 0.0
    ensures a.Some? ==> a.value.kaynak == k && a.value.value == r.nakdi - l.nakdi > 0.0
    ensures a.Some? ==> (a.value.severity == Warning <==> 0.0 < l.toplam && r.nakdi <= l.toplam)
    ensures a.Some? ==> a.value.kind == (if a.value.severity == Warning then CashLimitShort else CashLimitExceeded)
  {
    if r.nakdi > l.nakdi && l.nakdi > 0.0 then
      var excess := r.nakdi - l.nakdi;
      if l.toplam > 0.0 && r.nakdi <= l.toplam then Some(Anomaly(k, CashLimitShort, Warning, excess))
      else Some(Anomaly(k, CashLimitExceeded, Critical, excess))
    else None
  }

  /** Rule 2: non-cash risk above a positive non-cash limit; critical when it
      also exceeds a positive total limit, and then valued against it. */
  function NonCashRule(k: string, l: LimitRecord, r: RiskRecord): (a: Option<Anomaly>)
    ensures a.Some? <==> r.gayrinakdi > l.gayrinakdi > 0.0
    ensures a.Some? ==> a.value.kaynak == k && a.value.kind == NonCashLimitExceeded && a.value.value > 0.0
    ensures a.Some? ==> (a.value.severity == Critical <==> 0.0 < l.toplam < r.gayrinakdi)
    ensures a.Some? && a.value.severity == Critical ==> a.value.value == r.gayrinakdi - l.toplam
    ensures a.Some? && a.value.severity == Warning ==> a.value.value == r.gayrinakdi - l.gayrinakdi
  {
    if r.gayrinakdi > l.gayrinakdi && l.gayrinakdi > 0.0 then
      if l.toplam > 0.0 && r.gayrinakdi > l.toplam then
        Some(Anomaly(k, NonCashLimitExceeded, Critical, r.gayrinakdi - l.toplam))
      else Some(Anomaly(k, NonCashLimitExceeded, Warning, r.gayrinakdi - l.gayrinakdi))
    else None
  }

  /** Rule 3: risk carried without a total limit. */
  function UnlimitedRule(k: string, l: LimitRecord, r: RiskRecord): (a: Option<Anomaly>)
    ensures a.Some? <==> r.toplam > 0.0 && l.toplam == 0.0
    ensures a.Some? ==> a == Some(Anomaly(k, UnlimitedUse, Critical, r.toplam))
  {
    if r.toplam > 0.0 && l.toplam == 0.0 then Some(Anomaly(k, UnlimitedUse, Critical, r.toplam)) else None
  }

  /** Rule 4: overdue days; critical beyond thirty. */
  function DelayRule(k: string, r: RiskRecord): (a: Option<Anomaly>)
    ensures a.Some? <==> r.gecikme > 0
    ensures a.Some? ==> a.value.kaynak == k && a.value.kind == Delay && a.value.value == r.gecikme as real
    ensures a.Some? ==> (a.value.severity == Critical <==> r.gecikme > CriticalDelayDays)
  {
    if r.gecikme > 0 then
      Some(Anomaly(k, Delay, if r.gecikme > CriticalDelayDays then Critical else Warning, r.gecikme as real))
    else None
  }

  /** Usage of the total limit, in percent. */
  function Usage(l: LimitRecord, r: RiskRecord): real
    requires l.toplam > 0.0
  {
    (r.toplam / l.toplam) * 100.0
  }

  /** Rule 5: usage above 100 % exceeds the total limit; otherwise usage
      above 95 % is high. */
  function UsageRule(k: string, l: LimitRecord, r: RiskRecord): (a: Option<Anomaly>)
    ensures a.Some? ==> l.toplam > 0.0 && a.value.kaynak == k
    ensures a.Some? && a.value.kind == TotalLimitExceeded ==>
              a.value.severity == Critical && a.value.value == r.toplam - l.toplam
    ensures a.Some? && a.value.kind == HighUsage ==>
              a.value.severity == Warning && a.value.value == Usage(l, r)
    ensures a.Some? ==> a.value.kind == TotalLimitExceeded || a.value.kind == HighUsage
  {
    if l.toplam > 0.0 then
      var usage := Usage(l, r);
      if usage > CriticalUsageThreshold then Some(Anomaly(k, TotalLimitExceeded, Critical, r.toplam - l.toplam))
      else if usage > HighUsageThreshold then Some(Anomaly(k, HighUsage, Warning, usage))
      else None
    else None
  }

  /** Usage compared with a threshold is risk compared with that share of
      the limit. */
  lemma UsageAbove(l: LimitRecord, r: RiskRecord, threshold: real)
    requires l.toplam > 0.0
    ensures Usage(l, r) > threshold <==> r.toplam * 100.0 > threshold * l.toplam
  {
    var q := r.toplam / l.toplam;
    assert q * l.toplam == r.toplam;
    assert Usage(l, r) * l.toplam == r.toplam * 100.0;
    if Usage(l, r) > threshold {
      assert Usage(l, r) * l.toplam > threshold * l.toplam;
    } else {
      assert Usage(l, r) * l.toplam <= threshold * l.toplam;
    }
  }

  /** The usage rule in terms of the amounts: the total limit is exceeded
      exactly when risk exceeds it, and usage is high exactly when risk is
      above 95 % of the limit and at most the limit. */
  lemma UsageRuleThresholds(k: string, l: LimitRecord, r: RiskRecord)
    ensures UsageRule(k, l, r).Some? && UsageRule(k, l, r).value.kind == TotalLimitExceeded <==>
              l.toplam > 0.0 && r.toplam > l.toplam
    ensures UsageRule(k, l, r).Some? && UsageRule(k, l, r).value.kind == HighUsage <==>
              l.toplam > 0.0 && 0.95 * l.toplam < r.toplam <= l.toplam
  {
    if l.toplam > 0.0 {
      UsageAbove(l, r, CriticalUsageThreshold);
      UsageAbove(l, r, HighUsageThreshold);
    }
  }

  /** Exactly 95 % usage raises nothing; exactly 100 % is not above the
      critical threshold, so it raises the high-usage warning. */
  lemma UsageBoundaries(k: string, l: LimitRecord, r: RiskRecord)
    requires l.toplam > 0.0
    ensures r.toplam == 0.95 * l.toplam ==> UsageRule(k, l, r).None?
    ensures r.toplam == l.toplam ==> UsageRule(k, l, r) == Some(Anomaly(k, HighUsage, Warning, 100.0))
  {
    UsageRuleThresholds(k, l, r);
    if r.toplam == l.toplam {
      assert r.toplam / l.toplam == 1.0;
    }
  }

  /** The rules of one source, in the order they are appended. */
  function RulesFor(k: string, l: LimitRecord, r: RiskRecord): (found: seq<Anomaly>)
    ensures |found| <= 5
    ensures forall i :: 0 <= i < |found| ==> found[i].kaynak == k
  {
    var cash, nonCash := Found(CashRule(k, l, r)), Found(NonCashRule(k, l, r));
    var unlimited, delay, usage := Found(UnlimitedRule(k, l, r)), Found(DelayRule(k, r)), Found(UsageRule(k, l, r));
    SameSourceAppend(cash, nonCash, k);
    SameSourceAppend(cash + nonCash, unlimited, k);
    SameSourceAppend(cash + nonCash + unlimited, delay, k);
    SameSourceAppend(cash + nonCash + unlimited + delay, usage, k);
    cash + nonCash + unlimited + delay + usage
  }

  lemma SameSourceAppend(a: seq<Anomaly>, b: seq<Anomaly>, k: string)
    requires forall i :: 0 <= i < |a| ==> a[i].kaynak == k
    requires forall i :: 0 <= i < |b| ==> b[i].kaynak == k
    ensures forall i :: 0 <= i < |a + b| ==> (a + b)[i].kaynak == k
  {
  }

  function Found(a: Option<Anomaly>): (s: seq<Anomaly>)
    ensures |s| <= 1
  {
    if a.Some? then [a.value] else []
  }

  /** Every anomaly's value is positive. */
  lemma RuleValuesArePositive(k: string, l: LimitRecord, r: RiskRecord)
    ensures forall i :: 0 <= i < |RulesFor(k, l, r)| ==> RulesFor(k, l, r)[i].value > 0.0
  {
    var u := UsageRule(k, l, r);
    if u.Some? {
      UsageRuleThresholds(k, l, r);
      if u.value.kind == HighUsage {
        UsageAbove(l, r, HighUsageThreshold);
      }
    }
  }

  // ---------------------------------------------------------------------
  // Ordering: (0 if CRITICAL else 1, kaynak)

  function Rank(s: Severity): nat
  {
    if s == Critical then 0 else 1
  }

  /** Python's string order: code point by code point, a proper prefix first. */
  predicate StrLess(a: string, b: string)
  {
    if a == [] then b != []
    else b != [] && (a[0] < b[0] || (a[0] == b[0] && StrLess(a[1..], b[1..])))
  }

  lemma {:induction false} StrLessIrreflexive(a: string)
    ensures !StrLess(a, a)
  {
    if a != [] {
      StrLessIrreflexive(a[1..]);
    }
  }

  lemma {:induction false} StrLessTransitive(a: string, b: string, c: string)
    requires StrLess(a, b) && StrLess(b, c)
    ensures StrLess(a, c)
  {
    if a != [] && a[0] == b[0] && b[0] == c[0] {
      StrLessTransitive(a[1..], b[1..], c[1..]);
    }
  }

  lemma {:induction false} StrLessTotal(a: string, b: string)
    ensures a == b || StrLess(a, b) || StrLess(b, a)
  {
    if a != [] && b != [] && a[0] == b[0] {
      StrLessTotal(a[1..], b[1..]);
      if a[1..] == b[1..] {
        assert a == [a[0]] + a[1..] && b == [b[0]] + b[1..];
      }
    }
  }

  lemma {:induction false} StrLessAsymmetric(a: string, b: string)
    requires StrLess(a, b)
    ensures !StrLess(b, a)
  {
    if a != [] && a[0] == b[0] {
      StrLessAsymmetric(a[1..], b[1..]);
    }
  }

  /** The sort key of `x` is strictly below that of `y`. */
  predicate Less(x: Anomaly, y: Anomaly)
  {
    Rank(x.severity) < Rank(y.severity) || (x.severity == y.severity && StrLess(x.kaynak, y.kaynak))
  }

  /** `x` and `y` have the same sort key. */
  predicate SameKey(x: Anomaly, y: Anomaly)
  {
    x.severity == y.severity && x.kaynak == y.kaynak
  }

  lemma LessIsStrictTotal(x: Anomaly, y: Anomaly, z: Anomaly)
    ensures !Less(x, x)
    ensures Less(x, y) ==> !Less(y, x) && !SameKey(x, y)
    ensures Less(x, y) && Less(y, z) ==> Less(x, z)
    ensures SameKey(x, y) || Less(x, y) || Less(y, x)
  {
    StrLessIrreflexive(x.kaynak);
    if Less(x, y) && x.severity == y.severity {
      StrLessAsymmetric(x.kaynak, y.kaynak);
    }
    if Less(x, y) && Less(y, z) && x.severity == y.severity == z.severity {
      StrLessTransitive(x.kaynak, y.kaynak, z.kaynak);
    }
    StrLessTotal(x.kaynak, y.kaynak);
  }

  predicate Sorted(s: seq<Anomaly>)
  {
    forall i :: 0 < i < |s| ==> !Less(s[i], s[i - 1])
  }

  /** The anomalies of source `k` with severity `sev`, in order. */
  function Select(s: seq<Anomaly>, sev: Severity, k: string): seq<Anomaly>
  {
    if s == [] then []
    else (if s[0].severity == sev && s[0].kaynak == k then [s[0]] else []) + Select(s[1..], sev, k)
  }

  lemma {:induction false} SelectAppend(a: seq<Anomaly>, b: seq<Anomaly>, sev: Severity, k: string)
    ensures Select(a + b, sev, k) == Select(a, sev, k) + Select(b, sev, k)
  {
    if a == [] {
      assert a + b == b;
    } else {
      var ab := a + b;
      assert ab[0] == a[0] && ab[1..] == a[1..] + b;
      SelectAppend(a[1..], b, sev, k);
    }
  }

  /** Insert `x` after every element whose key is not above its own. */
  function Insert(s: seq<Anomaly>, x: Anomaly): (r: seq<Anomaly>)
    ensures multiset(r) == multiset(s) + multiset{x}
    ensures r[0] == x || (s != [] && r[0] == s[0])
  {
    if s == [] || Less(x, s[0]) then [x] + s
    else
      assert s == [s[0]] + s[1..];
      [s[0]] + Insert(s[1..], x)
  }

  lemma {:induction false} InsertSorted(s: seq<Anomaly>, x: Anomaly)
    requires Sorted(s)
    ensures Sorted(Insert(s, x))
  {
    if s == [] {
    } else if Less(x, s[0]) {
      LessIsStrictTotal(x, s[0], x);
    } else {
      InsertSorted(s[1..], x);
      LessIsStrictTotal(x, s[0], x);
      var t := Insert(s[1..], x);
      assert t[0] == x || t[0] == s[1];
    }
  }

  /** Everything after the head of a sorted sequence is not below it. */
  lemma {:induction false} SortedTail(s: seq<Anomaly>, x: Anomaly)
    requires Sorted(s) && s != [] && Less(x, s[0])
    ensures forall i :: 0 <= i < |s| ==> Less(x, s[i])
  {
    if |s| > 1 {
      assert Sorted(s[1..]);
      LessIsStrictTotal(x, s[0], s[1]);
      LessIsStrictTotal(s[1], s[0], s[1]);
      SortedTail(s[1..], x);
      assert forall i :: 1 <= i < |s| ==> s[i] == s[1..][i - 1];
    }
  }

  /** Elements above `x` do not share its key. */
  lemma {:induction false} SelectAbove(s: seq<Anomaly>, x: Anomaly)
    requires forall i :: 0 <= i < |s| ==> Less(x, s[i])
    ensures Select(s, x.severity, x.kaynak) == []
  {
    if s != [] {
      LessIsStrictTotal(x, s[0], x);
      assert forall i :: 0 <= i < |s[1..]| ==> s[1..][i] == s[i + 1];
      SelectAbove(s[1..], x);
    }
  }

  /** Insertion is stable: `x` lands after every element of its own key. */
  lemma {:induction false} InsertStable(s: seq<Anomaly>, x: Anomaly, sev: Severity, k: string)
    requires Sorted(s)
    ensures Select(Insert(s, x), sev, k) == Select(s, sev, k) + Select([x], sev, k)
  {
    if s == [] {
      assert Insert(s, x) == [x];
    } else if Less(x, s[0]) {
      InsertInFront(s, x, sev, k);
    } else {
      InsertStable(s[1..], x, sev, k);
      InsertBehind(s, x, sev, k);
    }
  }

  /** Inserting behind the head: the head's selection stays in front. */
  lemma InsertBehind(s: seq<Anomaly>, x: Anomaly, sev: Severity, k: string)
    requires s != [] && !Less(x, s[0])
    requires Select(Insert(s[1..], x), sev, k) == Select(s[1..], sev, k) + Select([x], sev, k)
    ensures Select(Insert(s, x), sev, k) == Select(s, sev, k) + Select([x], sev, k)
  {
    var rest, t := Insert(s[1..], x), Insert(s, x);
    var head := if s[0].severity == sev && s[0].kaynak == k then [s[0]] else [];
    var tail, last := Select(s[1..], sev, k), Select([x], sev, k);
    assert t == [s[0]] + rest;
    assert t[0] == s[0] && t[1..] == rest;
    assert Select(t, sev, k) == head + (tail + last);
    assert Select(s, sev, k) == head + tail;
    SeqAssoc(head, tail, last);
  }

  /** Inserting in front of larger elements. */
  lemma InsertInFront(s: seq<Anomaly>, x: Anomaly, sev: Severity, k: string)
    requires Sorted(s) && s != [] && Less(x, s[0])
    ensures Select([x] + s, sev, k) == Select(s, sev, k) + Select([x], sev, k)
  {
    SelectAppend([x], s, sev, k);
    if x.severity == sev && x.kaynak == k {
      SortedTail(s, x);
      SelectAbove(s, x);
    } else {
      assert Select([x], sev, k) == [];
    }
  }

  /** `sorted(anomalies, key=...)`: Python's sort is stable, so anomalies of
      equal key keep their order. */
  function SortAnomalies(xs: seq<Anomaly>): (r: seq<Anomaly>)
    ensures Sorted(r)
    ensures multiset(r) == multiset(xs)
    ensures forall sev, k :: Select(r, sev, k) == Select(xs, sev, k)
  {
    if xs == [] then []
    else
      var init := xs[..|xs| - 1];
      var x := xs[|xs| - 1];
      var r := Insert(SortAnomalies(init), x);
      InsertSorted(SortAnomalies(init), x);
      assert init + [x] == xs;
      forall sev, k
        ensures Select(r, sev, k) == Select(xs, sev, k)
      {
        InsertStable(SortAnomalies(init), x, sev, k);
        SelectAppend(init, [x], sev, k);
      }
      r
  }

  /** A selection splits at the head of the sequence. */
  lemma SelectCons(a: seq<Anomaly>, sev: Severity, k: string)
    requires a != []
    ensures Select(a, sev, k) == Select([a[0]], sev, k) + Select(a[1..], sev, k)
  {
    SelectAppend([a[0]], a[1..], sev, k);
    assert [a[0]] + a[1..] == a;
  }

  /** The heads of two sorted sequences with the same selections share
      their key. */
  lemma HeadsShareKey(a: seq<Anomaly>, b: seq<Anomaly>)
    requires Sorted(a) && Sorted(b) && a != [] && b != []
    requires forall sev, k :: Select(a, sev, k) == Select(b, sev, k)
    ensures SameKey(a[0], b[0])
  {
    var x, y := a[0], b[0];
    LessIsStrictTotal(x, y, x);
    if Less(x, y) {
      SortedTail(b, x);
      SelectAbove(b, x);
      SelectCons(a, x.severity, x.kaynak);
    } else if Less(y, x) {
      SortedTail(a, y);
      SelectAbove(a, y);
      SelectCons(b, y.severity, y.kaynak);
    }
  }

  /** A sorted sequence is determined by its per-key selections: the order
      in which the sources were visited cannot change the result. */
  lemma {:induction false} SortedUnique(a: seq<Anomaly>, b: seq<Anomaly>)
    requires Sorted(a) && Sorted(b)
    requires forall sev, k :: Select(a, sev, k) == Select(b, sev, k)
    ensures a == b
    decreases |a| + |b|
  {
    if a == [] && b != [] {
      SelectCons(b, b[0].severity, b[0].kaynak);
    } else if a != [] && b == [] {
      SelectCons(a, a[0].severity, a[0].kaynak);
    } else if a != [] {
      var x, y := a[0], b[0];
      HeadsShareKey(a, b);
      assert x == y by {
        SelectCons(a, x.severity, x.kaynak);
        SelectCons(b, x.severity, x.kaynak);
        assert Select(a, x.severity, x.kaynak)[0] == x;
        assert Select(b, x.severity, x.kaynak)[0] == y;
      }
      assert Sorted(a[1..]) && Sorted(b[1..]);
      forall sev, k
        ensures Select(a[1..], sev, k) == Select(b[1..], sev, k)
      {
        SelectCons(a, sev, k);
        SelectCons(b, sev, k);
        var front := Select([x], sev, k);
        assert Select(a[1..], sev, k) == (front + Select(a[1..], sev, k))[|front|..];
        assert Select(b[1..], sev, k) == (front + Select(b[1..], sev, k))[|front|..];
      }
      SortedUnique(a[1..], b[1..]);
      assert a == [x] + a[1..] && b == [y] + b[1..];
    }
  }

  // ---------------------------------------------------------------------
  // The engine

  /** What the engine reports for source `k` with severity `sev`: the
      source's own rule findings of that severity, in rule order, when the
      source appears in either table, and nothing otherwise. */
  function Expected(limits: map<string, LimitRecord>, risks: map<string, RiskRecord>,
                    sev: Severity, k: string): (r: seq<Anomaly>)
    ensures |r| <= 5
    ensures forall a :: a in r ==> a.severity == sev && a.kaynak == k
  {
    if k in limits || k in risks then
      var found := RulesFor(k, LimitOf(limits, k), RiskOf(risks, k));
      SelectPicks(found, sev, k);
      Select(found, sev, k)
    else []
  }

  /** A selection keeps only findings of its severity and source, and
      never more than it was given. */
  lemma {:induction false} SelectPicks(s: seq<Anomaly>, sev: Severity, k: string)
    ensures |Select(s, sev, k)| <= |s|
    ensures forall a :: a in Select(s, sev, k) ==> a.severity == sev && a.kaynak == k
  {
    if s != [] {
      SelectPicks(s[1..], sev, k);
    }
  }

  /** Rule findings of one source are invisible to every other source. */
  lemma {:induction false} SelectOtherSource(s: seq<Anomaly>, k: string, sev: Severity, other: string)
    requires forall i :: 0 <= i < |s| ==> s[i].kaynak == k
    requires other != k
    ensures Select(s, sev, other) == []
  {
    if s != [] {
      assert forall i :: 0 <= i < |s[1..]| ==> s[1..][i] == s[i + 1];
      SelectOtherSource(s[1..], k, sev, other);
    }
  }

  /** `find_anomalies`: every source of either table, in any order, gets its
      five rules applied and the findings appended; the list is then sorted
      by (severity, source). */
  method FindAnomalies(limits: map<string, LimitRecord>, risks: map<string, RiskRecord>)
    returns (anomalies: seq<Anomaly>)
    ensures Sorted(anomalies)
    ensures forall sev, k :: Select(anomalies, sev, k) == Expected(limits, risks, sev, k)
    ensures forall i :: 0 <= i < |anomalies| ==>
              anomalies[i].kaynak in limits || anomalies[i].kaynak in risks
  {
    var found := CollectFindings(limits, risks);
    anomalies := SortAnomalies(found);
    SourcesSurviveSorting(found, anomalies, limits.Keys + risks.Keys);
  }

  /** The loop of `find_anomalies` over `set(limits) | set(risks)`, before
      sorting. */
  method CollectFindings(limits: map<string, LimitRecord>, risks: map<string, RiskRecord>)
    returns (found: seq<Anomaly>)
    ensures forall sev, k :: Select(found, sev, k) == Expected(limits, risks, sev, k)
    ensures forall i :: 0 <= i < |found| ==> found[i].kaynak in limits.Keys + risks.Keys
  {
    found := [];
    var remaining := limits.Keys + risks.Keys;
    ghost var visited: set<string> := {};
    while remaining != {}
      invariant remaining + visited == limits.Keys + risks.Keys && remaining !! visited
      invariant Summarizes(found, limits, risks, visited)
      decreases remaining
    {
      var kaynak :| kaynak in remaining;
      ghost var before := found;
      found := AppendRules(found, kaynak, LimitOf(limits, kaynak), RiskOf(risks, kaynak));
      VisitSource(limits, risks, visited, kaynak, before, found);
      remaining := remaining - {kaynak};
      visited := visited + {kaynak};
    }
    SummarizesAll(found, limits, risks, visited);
  }

  /** Sorting keeps the sources of the findings. */
  lemma SourcesSurviveSorting(found: seq<Anomaly>, sorted: seq<Anomaly>, sources: set<string>)
    requires multiset(sorted) == multiset(found)
    requires forall i :: 0 <= i < |found| ==> found[i].kaynak in sources
    ensures forall i :: 0 <= i < |sorted| ==> sorted[i].kaynak in sources
  {
    forall i | 0 <= i < |sorted|
      ensures sorted[i].kaynak in sources
    {
      assert sorted[i] in multiset(sorted);
      assert sorted[i] in found;
    }
  }

  /** The findings expected once the sources in `visited` are done. */
  function Visited(limits: map<string, LimitRecord>, risks: map<string, RiskRecord>, visited: set<string>,
                   sev: Severity, k: string): seq<Anomaly>
  {
    if k in visited then Expected(limits, risks, sev, k) else []
  }

  /** `found` holds exactly the findings of the sources in `visited`, grouped
      by severity and source, and nothing from any other source. */
  ghost predicate Summarizes(found: seq<Anomaly>, limits: map<string, LimitRecord>,
                             risks: map<string, RiskRecord>, visited: set<string>)
  {
    (forall sev, k :: Select(found, sev, k) == Visited(limits, risks, visited, sev, k)) &&
    (forall i :: 0 <= i < |found| ==> found[i].kaynak in visited)
  }

  /** Once every source is visited, the summary is the expected one. */
  lemma SummarizesAll(found: seq<Anomaly>, limits: map<string, LimitRecord>,
                      risks: map<string, RiskRecord>, visited: set<string>)
    requires visited == limits.Keys + risks.Keys
    requires Summarizes(found, limits, risks, visited)
    ensures forall sev, k :: Select(found, sev, k) == Expected(limits, risks, sev, k)
    ensures forall i :: 0 <= i < |found| ==> found[i].kaynak in limits.Keys + risks.Keys
  {
    forall sev, k
      ensures Select(found, sev, k) == Expected(limits, risks, sev, k)
    {
      assert Select(found, sev, k) == Visited(limits, risks, visited, sev, k);
      assert k in visited <==> k in limits || k in risks;
    }
  }

  /** The loop body: the five rules of one source, appended in order. */
  method AppendRules(found0: seq<Anomaly>, kaynak: string, l: LimitRecord, r: RiskRecord)
    returns (found: seq<Anomaly>)
    ensures found == found0 + RulesFor(kaynak, l, r)
  {
    var rules := [];
    var cash := CashRule(kaynak, l, r);
    if cash.Some? {
      rules := rules + [cash.value];
    }
    assert rules == Found(cash);
    var nonCash := NonCashRule(kaynak, l, r);
    if nonCash.Some? {
      rules := rules + [nonCash.value];
    }
    assert rules == Found(cash) + Found(nonCash);
    var unlimited := UnlimitedRule(kaynak, l, r);
    if unlimited.Some? {
      rules := rules + [unlimited.value];
    }
    assert rules == Found(cash) + Found(nonCash) + Found(unlimited);
    var delay := DelayRule(kaynak, r);
    if delay.Some? {
      rules := rules + [delay.value];
    }
    assert rules == Found(cash) + Found(nonCash) + Found(unlimited) + Found(delay);
    var usage := UsageRule(kaynak, l, r);
    if usage.Some? {
      rules := rules + [usage.value];
    }
    assert rules == RulesFor(kaynak, l, r);
    found := found0 + rules;
  }

  /** Visiting one more source adds exactly its own findings. */
  lemma VisitSource(limits: map<string, LimitRecord>, risks: map<string, RiskRecord>, visited: set<string>,
                    kaynak: string, before: seq<Anomaly>, after: seq<Anomaly>)
    requires kaynak in limits || kaynak in risks
    requires kaynak !in visited
    requires Summarizes(before, limits, risks, visited)
    requires after == before + RulesFor(kaynak, LimitOf(limits, kaynak), RiskOf(risks, kaynak))
    ensures Summarizes(after, limits, risks, visited + {kaynak})
  {
    var rules := RulesFor(kaynak, LimitOf(limits, kaynak), RiskOf(risks, kaynak));
    forall sev, k
      ensures Select(after, sev, k) == Visited(limits, risks, visited + {kaynak}, sev, k)
    {
      VisitSourceAt(limits, risks, visited, kaynak, before, after, sev, k);
    }
    forall i | 0 <= i < |after|
      ensures after[i].kaynak in visited + {kaynak}
    {
      if i >= |before| {
        assert after[i] == rules[i - |before|];
      }
    }
  }

  /** `VisitSource` for one severity and source. */
  lemma VisitSourceAt(limits: map<string, LimitRecord>, risks: map<string, RiskRecord>, visited: set<string>,
                      kaynak: string, before: seq<Anomaly>, after: seq<Anomaly>, sev: Severity, k: string)
    requires kaynak in limits || kaynak in risks
    requires kaynak !in visited
    requires Select(before, sev, k) == Visited(limits, risks, visited, sev, k)
    requires after == before + RulesFor(kaynak, LimitOf(limits, kaynak), RiskOf(risks, kaynak))
    ensures Select(after, sev, k) == Visited(limits, risks, visited + {kaynak}, sev, k)
  {
    var rules := RulesFor(kaynak, LimitOf(limits, kaynak), RiskOf(risks, kaynak));
    SelectAppend(before, rules, sev, k);
    if k != kaynak {
      SelectOtherSource(rules, kaynak, sev, k);
    } else {
      assert Select(before, sev, k) == [];
    }
  }

  // ---------------------------------------------------------------------
  // Worked examples

  /** Cash risk 1200 against a cash limit of 1000: critical with overage 200
      when there is no total limit, a warning when a total limit of 5000
      absorbs it. */
  lemma CashLimitExamples(k: string)
    ensures CashRule(k, LimitRecord(0.0, 1000.0, 0.0, 0.0, None, false), RiskRecord(1200.0, 0.0, 0.0, 0))
              == Some(Anomaly(k, CashLimitExceeded, Critical, 200.0))
    ensures CashRule(k, LimitRecord(0.0, 1000.0, 0.0, 5000.0, None, false), RiskRecord(1200.0, 0.0, 0.0, 0))
              == Some(Anomaly(k, CashLimitShort, Warning, 200.0))
  {
  }

  /** One source with cash limit 1000, cash risk 1100, total limit 2000,
      total risk 1100 and 45 days overdue yields exactly a critical delay
      and a cash-limit warning, the critical one first. */
  lemma SingleSourceExample(k: string)
    ensures SortAnomalies(RulesFor(k, LimitRecord(0.0, 1000.0, 0.0, 2000.0, None, false),
                                   RiskRecord(1100.0, 0.0, 1100.0, 45)))
              == [Anomaly(k, Delay, Critical, 45.0), Anomaly(k, CashLimitShort, Warning, 100.0)]
  {
    var l := LimitRecord(0.0, 1000.0, 0.0, 2000.0, None, false);
    var r := RiskRecord(1100.0, 0.0, 1100.0, 45);
    var warning := Anomaly(k, CashLimitShort, Warning, 100.0);
    var critical := Anomaly(k, Delay, Critical, 45.0);
    UsageRuleThresholds(k, l, r);
    assert UsageRule(k, l, r).None?;
    assert RulesFor(k, l, r) == [warning] + [] + [] + [critical] + [];
    TwoSorted(warning, critical);
  }

  /** Sorting two anomalies puts the one with the lower key first. */
  lemma TwoSorted(x: Anomaly, y: Anomaly)
    requires Less(y, x)
    ensures SortAnomalies([x, y]) == [y, x]
  {
    assert [x, y][..1] == [x];
    assert SortAnomalies([x]) == Insert([], x) == [x];
  }
}
