/**
 Which observation is best: src/python/zigopt/experiment/best.py over the measurements of
 src/python/zigopt/data/model.py. Values are real.
 */
module BestObservations {
  import opened Sequences

  /** A field that is not set reads as the empty name. */
  datatype Measurement = Measurement(name: string, value: Option<real>)

  datatype Metric = Metric(name: Option<string>, minimized: bool, threshold: Option<real>)

  /** An observation with its reported values in name order, and the cost of its task. */
  datatype Observation = Observation(id: int, failed: bool, cost: real, values: seq<Measurement>)

  function NameOf(m: Metric): string {
    if m.name.Some? then m.name.value else ""
  }

  // ---------- Measurements ----------

  function SortedMeasurements(o: Observation): seq<Measurement> {
    if o.failed then [] else if o.values != [] then o.values else [Measurement("", None)]
  }

  function GetAllMeasurements(metrics: seq<Metric>, o: Observation): seq<Measurement>
    requires metrics != []
  {
    var measurements := SortedMeasurements(o);
    if |measurements| == 1 && |metrics| == 1 && metrics[0].name.Some?
    then [measurements[0].(name := metrics[0].name.value)]
    else measurements
  }

  /** Negating a value that is not set negates the zero it reads as, and so sets it. */
  function Negated(m: Measurement): Measurement {
    m.(value := if m.value.Some? then Some(-m.value.value) else Some(0.0))
  }

  /**
   The measurements with the sign of minimized metrics flipped, position by position; none if a position is
   missing.
   */
  method GetAllMeasurementsForMaximization(metrics: seq<Metric>, o: Observation) returns (r: Option<seq<Measurement>>)
    requires metrics != []
    ensures r == ForMaximization(metrics, GetAllMeasurements(metrics, o))
    ensures var all := GetAllMeasurements(metrics, o);
            && (r.None? <==> exists k :: 0 <= k < |metrics| && metrics[k].minimized && k >= |all|)
            && (r.Some? ==>
                  && |r.value| == |all|
                  && forall k :: 0 <= k < |all| ==>
                       if k < |metrics| && metrics[k].minimized
                       then r.value[k] == Measurement(all[k].name,
                         Some(if all[k].value.Some? then -all[k].value.value else 0.0))
                       else r.value[k] == all[k])
  {
    var all := GetAllMeasurements(metrics, o);
    for i := 0 to |metrics|
      invariant |all| == |GetAllMeasurements(metrics, o)|
      invariant forall k :: 0 <= k < i && metrics[k].minimized ==> k < |all|
      invariant forall k :: 0 <= k < |all| ==>
        all[k] == if k < i && metrics[k].minimized
          then Negated(GetAllMeasurements(metrics, o)[k]) else GetAllMeasurements(metrics, o)[k]
    {
      if metrics[i].minimized {
        if i >= |all| {
          return None;
        }
        all := all[i := Negated(all[i])];
      }
    }
    assert forall k :: 0 <= k < |metrics| && metrics[k].minimized ==> k < |all|;
    assert all == ForMaximization(metrics, GetAllMeasurements(metrics, o)).value;
    return Some(all);
  }

  function ForMaximization(metrics: seq<Metric>, all: seq<Measurement>): Option<seq<Measurement>> {
    if exists k :: 0 <= k < |metrics| && metrics[k].minimized && k >= |all| then None
    else
      Some(seq(|all|, k requires 0 <= k < |all| => if k < |metrics| && metrics[k].minimized
        then Negated(all[k]) else all[k]))
  }

  /** The first measurement of that name. */
  function FindValue(all: seq<Measurement>, name: string): Option<real> {
    if all == [] then None else if all[0].name == name then all[0].value else FindValue(all[1..], name)
  }

  function MetricValue(metrics: seq<Metric>, o: Observation, name: string): Option<real>
    requires metrics != []
  {
    FindValue(GetAllMeasurements(metrics, o), name)
  }

  function ValueForMaximization(metrics: seq<Metric>, o: Observation, name: string): Option<real>
    requires metrics != []
  {
    match ForMaximization(metrics, GetAllMeasurements(metrics, o))
    case None => None
    case Some(all) => FindValue(all, name)
  }

  predicate WithinMetricThreshold(metrics: seq<Metric>, o: Observation, m: Metric)
    requires metrics != []
  {
    var value := MetricValue(metrics, o, NameOf(m));
    && value.Some?
    && (m.threshold.Some? ==>
         if m.minimized then value.value <= m.threshold.value else value.value >= m.threshold.value)
  }

  predicate WithinMetricThresholds(metrics: seq<Metric>, o: Observation)
    requires metrics != []
  {
    forall m :: m in metrics ==> WithinMetricThreshold(metrics, o, m)
  }

  /**
   Names tell metrics apart, and an observation that did not fail and has values has one for each metric, in the
   same order.
   */
  predicate Consistent(metrics: seq<Metric>, o: Observation) {
    && metrics != []
    && (forall j, k :: 0 <= j < k < |metrics| ==> NameOf(metrics[j]) != NameOf(metrics[k]))
    && (o.failed || o.values == [] || Aligned(metrics, GetAllMeasurements(metrics, o)))
  }

  predicate Aligned(metrics: seq<Metric>, all: seq<Measurement>) {
    |all| == |metrics| && forall k :: 0 <= k < |all| ==> all[k].name == NameOf(metrics[k])
  }

  lemma {:induction false} FindValueAt(all: seq<Measurement>, k: nat)
    requires k < |all| && forall j :: 0 <= j < k ==> all[j].name != all[k].name
    ensures FindValue(all, all[k].name) == all[k].value
  {
    if k > 0 {
      assert all[1..][k - 1] == all[k];
      FindValueAt(all[1..], k - 1);
    }
  }

  lemma {:induction false} UnsetIsNotFound(all: seq<Measurement>, name: string)
    requires forall m :: m in all ==> m.value.None?
    ensures FindValue(all, name).None?
  {
    if all != [] {
      UnsetIsNotFound(all[1..], name);
    }
  }

  /** With one metric that has a name, the only value is its value, whatever it is called; otherwise names decide. */
  lemma OnlyValueIsOnlyMetrics(metrics: seq<Metric>, o: Observation)
    requires metrics != []
    ensures |metrics| == 1 && metrics[0].name.Some? && !o.failed && |o.values| == 1 ==>
              MetricValue(metrics, o, NameOf(metrics[0])) == o.values[0].value
    ensures |metrics| > 1 && !o.failed && o.values != [] ==> GetAllMeasurements(metrics, o) == o.values
    ensures o.failed ==> GetAllMeasurements(metrics, o) == []
  {
  }

  /** Within the thresholds every metric has a number, and its sign is flipped exactly when that metric is minimized. */
  lemma SignFollowsMetric(metrics: seq<Metric>, o: Observation, k: nat)
    requires Consistent(metrics, o) && k < |metrics| && WithinMetricThresholds(metrics, o)
    ensures var raw, value :=
              MetricValue(metrics, o, NameOf(metrics[k])), ValueForMaximization(metrics, o, NameOf(metrics[k]));
            && raw.Some? && value.Some?
            && value.value == if metrics[k].minimized then -raw.value else raw.value
  {
    var all := GetAllMeasurements(metrics, o);
    assert metrics[k] in metrics && WithinMetricThreshold(metrics, o, metrics[k]);
    if o.failed || o.values == [] {
      UnsetIsNotFound(all, NameOf(metrics[k]));
    }
    assert Aligned(metrics, all);
    var flipped := ForMaximization(metrics, all).value;
    assert forall j :: 0 <= j < |all| ==> flipped[j].name == all[j].name;
    FindValueAt(all, k);
    FindValueAt(flipped, k);
  }

  // ---------- The first maximum and the stable sort ----------

  type Key = Observation -> real

  /** The first of the greatest. */
  function FirstMax(s: seq<Observation>, key: Key): Option<Observation> {
    if s == [] then None
    else
      var rest := FirstMax(s[1..], key);
      if rest.Some? && key(rest.value) > key(s[0]) then rest else Some(s[0])
  }

  /** Python's `max`: a later element has to be strictly greater. */
  method MaxOption(s: seq<Observation>, key: Key) returns (r: Option<Observation>)
    ensures r == FirstMax(s, key)
  {
    if s == [] {
      return None;
    }
    var best := s[0];
    for i := 1 to |s|
      invariant best in s
      invariant FirstMax(s, key) == match FirstMax(s[i..], key)
                                    case None => Some(best)
                                    case Some(later) => if key(later) > key(best) then Some(later) else Some(best)
    {
      assert s[i..][1..] == s[i + 1..];
      if key(s[i]) > key(best) {
        best := s[i];
      }
    }
    return Some(best);
  }

  predicate IsFirstMax(s: seq<Observation>, key: Key, i: nat) {
    && i < |s|
    && (forall j :: 0 <= j < i ==> key(s[j]) < key(s[i]))
    && (forall j :: i <= j < |s| ==> key(s[j]) <= key(s[i]))
  }

  lemma {:induction false} FirstMaxIsFirst(s: seq<Observation>, key: Key) returns (i: nat)
    requires s != []
    ensures IsFirstMax(s, key, i) && FirstMax(s, key) == Some(s[i])
  {
    i := 0;
    if |s| > 1 {
      var k := FirstMaxIsFirst(s[1..], key);
      assert forall j :: 1 <= j < |s| ==> s[1..][j - 1] == s[j];
      if key(s[k + 1]) > key(s[0]) {
        i := k + 1;
      }
    }
  }

  /** Python's stable `sort` with `reverse=True`: equal keys keep their order. */
  function SortDescending(s: seq<Observation>, key: Key): seq<Observation> {
    if s == [] then [] else Insert(s[0], SortDescending(s[1..], key), key)
  }

  function Insert(o: Observation, sorted: seq<Observation>, key: Key): seq<Observation> {
    if sorted == [] || key(sorted[0]) <= key(o) then [o] + sorted else [sorted[0]] + Insert(o, sorted[1..], key)
  }

  predicate Descending(s: seq<Observation>, key: Key) {
    forall i, j :: 0 <= i < j < |s| ==> key(s[i]) >= key(s[j])
  }

  function Keep(s: seq<Observation>, p: Observation -> bool): seq<Observation> {
    if s == [] then [] else if p(s[0]) then [s[0]] + Keep(s[1..], p) else Keep(s[1..], p)
  }

  function HasKey(key: Key, v: real): Observation -> bool {
    (o: Observation) => key(o) == v
  }

  /** The elements with the given key, in order. */
  function Ties(s: seq<Observation>, key: Key, v: real): seq<Observation> {
    Keep(s, HasKey(key, v))
  }

  lemma {:induction false} InsertPermutes(o: Observation, sorted: seq<Observation>, key: Key)
    ensures multiset(Insert(o, sorted, key)) == multiset([o]) + multiset(sorted)
  {
    if !(sorted == [] || key(sorted[0]) <= key(o)) {
      InsertPermutes(o, sorted[1..], key);
      assert sorted == [sorted[0]] + sorted[1..];
    }
  }

  lemma {:induction false} InsertDescends(o: Observation, sorted: seq<Observation>, key: Key)
    requires Descending(sorted, key)
    ensures Descending(Insert(o, sorted, key), key)
    ensures sorted != [] ==>
              key(Insert(o, sorted, key)[0]) == if key(sorted[0]) <= key(o) then key(o) else key(sorted[0])
  {
    if !(sorted == [] || key(sorted[0]) <= key(o)) {
      InsertDescends(o, sorted[1..], key);
    }
  }

  lemma {:induction false} InsertKeepsTies(o: Observation, sorted: seq<Observation>, key: Key, v: real)
    requires Descending(sorted, key)
    ensures Ties(Insert(o, sorted, key), key, v) == if key(o) == v
              then [o] + Ties(sorted, key, v) else Ties(sorted, key, v)
  {
    if sorted == [] || key(sorted[0]) <= key(o) {
      assert ([o] + sorted)[1..] == sorted;
    } else {
      var r := Insert(o, sorted[1..], key);
      InsertKeepsTies(o, sorted[1..], key, v);
      assert ([sorted[0]] + r)[1..] == r;
    }
  }

  lemma {:induction false} SortDescends(s: seq<Observation>, key: Key)
    ensures Descending(SortDescending(s, key), key) && multiset(SortDescending(s, key)) == multiset(s)
  {
    if s != [] {
      SortDescends(s[1..], key);
      InsertPermutes(s[0], SortDescending(s[1..], key), key);
      InsertDescends(s[0], SortDescending(s[1..], key), key);
      assert s == [s[0]] + s[1..];
    }
  }

  /** Equal keys keep their order. */
  lemma {:induction false} SortKeepsTies(s: seq<Observation>, key: Key, v: real)
    ensures Ties(SortDescending(s, key), key, v) == Ties(s, key, v)
  {
    if s != [] {
      SortKeepsTies(s[1..], key, v);
      SortDescends(s[1..], key);
      InsertKeepsTies(s[0], SortDescending(s[1..], key), key, v);
    }
  }

  /** Sorting and taking the head is taking the first maximum. */
  lemma {:induction false} HeadIsFirstMax(s: seq<Observation>, key: Key)
    ensures FirstMax(s, key) == if s == [] then None else Some(SortDescending(s, key)[0])
    ensures s != [] ==> SortDescending(s, key) != []
  {
    if s != [] {
      HeadIsFirstMax(s[1..], key);
    }
  }

  // ---------- Best observations ----------

  function HasCost(cost: Option<real>): Observation -> bool {
    (o: Observation) => cost.None? || o.cost == cost.value
  }

  function IsValid(cost: Option<real>): Observation -> bool {
    (o: Observation) => !o.failed && HasCost(cost)(o)
  }

  function IsWithin(metrics: seq<Metric>): Observation -> bool
    requires metrics != []
  {
    (o: Observation) => WithinMetricThresholds(metrics, o)
  }

  function IsNumeric(metrics: seq<Metric>, name: string): Observation -> bool
    requires metrics != []
  {
    (o: Observation) => ValueForMaximization(metrics, o, name).Some?
  }

  function Score(metrics: seq<Metric>, name: string): Key
    requires metrics != []
  {
    (o: Observation) =>
      var value := ValueForMaximization(metrics, o, name);
      if value.Some? then value.value else 0.0
  }

  function Candidates(metrics: seq<Metric>, observations: seq<Observation>, cost: Option<real>): seq<Observation>
    requires metrics != []
  {
    Keep(Keep(observations, IsValid(cost)), IsWithin(metrics))
  }

  /** `a` has the better raw value. */
  predicate Better(m: Metric, a: real, b: real) {
    if m.minimized then a < b else a > b
  }

  /** The observation has a value for the metric, and the threshold, if there is one, is no better. */
  predicate Meets(metrics: seq<Metric>, o: Observation, m: Metric)
    requires metrics != []
  {
    match (MetricValue(metrics, o, NameOf(m)), m.threshold)
    case (None, _) => false
    case (Some(_), None) => true
    case (Some(v), Some(threshold)) => !Better(m, threshold, v)
  }

  /** It did not fail, it has the cost asked for, and it meets every metric. */
  predicate Qualifies(metrics: seq<Metric>, o: Observation, cost: Option<real>)
    requires metrics != []
  {
    && !o.failed
    && (cost.Some? ==> o.cost == cost.value)
    && forall m :: m in metrics ==> Meets(metrics, o, m)
  }

  lemma WithinIsMeeting(metrics: seq<Metric>, o: Observation)
    requires metrics != []
    ensures WithinMetricThresholds(metrics, o) <==> forall m :: m in metrics ==> Meets(metrics, o, m)
  {
    forall m | m in metrics ensures WithinMetricThreshold(metrics, o, m) <==> Meets(metrics, o, m) {
    }
  }

  lemma CandidatesQualify(metrics: seq<Metric>, observations: seq<Observation>, cost: Option<real>, o: Observation)
    requires metrics != []
    ensures o in Candidates(metrics, observations, cost) <==> o in observations && Qualifies(metrics, o, cost)
  {
    KeepFrom(Keep(observations, IsValid(cost)), IsWithin(metrics), o);
    KeepFrom(observations, IsValid(cost), o);
    WithinIsMeeting(metrics, o);
    assert HasCost(cost)(o) <==> (cost.Some? ==> o.cost == cost.value);
    assert IsValid(cost)(o) <==> !o.failed && HasCost(cost)(o);
    assert IsWithin(metrics)(o) <==> WithinMetricThresholds(metrics, o);
  }

  /** The best observation, if there is one. An experiment's default metric is metrics[k]. */
  method SingleMetricBest(metrics: seq<Metric>, k: nat, observations: seq<Observation>, cost: Option<real>)
    returns (best: Option<Observation>)
    requires k < |metrics|
    ensures best == FirstMax(Candidates(metrics, observations, cost), Score(metrics, NameOf(metrics[k])))
    ensures best.Some? ==> best.value in observations && Qualifies(metrics, best.value, cost)
    ensures best.None? ==> forall o :: o in observations ==> !Qualifies(metrics, o, cost)
  {
    var valid := Filtered(observations, IsValid(cost));
    var within := Filtered(valid, IsWithin(metrics));
    best := MaxOption(within, Score(metrics, NameOf(metrics[k])));
    forall o ensures o in within <==> o in observations && Qualifies(metrics, o, cost) {
      CandidatesQualify(metrics, observations, cost, o);
    }
    if within != [] {
      ghost var i := FirstMaxIsFirst(within, Score(metrics, NameOf(metrics[k])));
    }
  }

  function Both(p: Observation -> bool, q: Observation -> bool): Observation -> bool {
    (o: Observation) => p(o) && q(o)
  }

  /** In the thresholds, with a number for the default metric. */
  function IsEligible(metrics: seq<Metric>, k: nat): Observation -> bool
    requires k < |metrics|
  {
    Both(IsWithin(metrics), IsNumeric(metrics, NameOf(metrics[k])))
  }

  /**
   The ranking of observations: by descending score, and for every score exactly the eligible observations
   that have it, in their order. There is only one such list.
   */
  ghost predicate IsRanking(metrics: seq<Metric>, k: nat, observations: seq<Observation>, ranking: seq<Observation>)
    requires k < |metrics|
  {
    var key := Score(metrics, NameOf(metrics[k]));
    && Descending(ranking, key)
    && forall v :: Ties(ranking, key, v) == Keep(observations, Both(IsEligible(metrics, k), HasKey(key, v)))
  }

  /** The eligible observations, best first. */
  method MultiMetricBest(metrics: seq<Metric>, k: nat, observations: seq<Observation>) returns (best: seq<Observation>)
    requires k < |metrics|
    ensures IsRanking(metrics, k, observations, best)
    ensures forall o :: multiset(best)[o] == if IsEligible(metrics, k)(o) then multiset(observations)[o] else 0
    ensures AllConsistent(metrics, observations) ==>
              forall o :: multiset(best)[o] == if Qualifies(metrics, o, None) then multiset(observations)[o] else 0
  {
    var name := NameOf(metrics[k]);
    best := Filtered(observations, IsWithin(metrics));
    best := Filtered(best, IsNumeric(metrics, name));
    best := SortDescending(best, Score(metrics, name));
    SortRanks(metrics, k, observations);
    if AllConsistent(metrics, observations) {
      forall o | o in observations ensures IsEligible(metrics, k)(o) <==> Qualifies(metrics, o, None) {
        EligibleQualifies(metrics, k, o);
      }
      forall o ensures multiset(best)[o] == if Qualifies(metrics, o, None) then multiset(observations)[o] else 0 {
        assert o !in observations ==> multiset(observations)[o] == 0;
      }
    }
  }

  method Filtered(s: seq<Observation>, p: Observation -> bool) returns (r: seq<Observation>)
    ensures r == Keep(s, p)
  {
    r := [];
    for i := 0 to |s|
      invariant r == Keep(s[..i], p)
    {
      assert s[..i + 1] == s[..i] + [s[i]];
      KeepAppend(s[..i], s[i], p);
      if p(s[i]) {
        r := r + [s[i]];
      }
    }
    assert s[..|s|] == s;
  }

  lemma {:induction false} KeepAppend(s: seq<Observation>, o: Observation, p: Observation -> bool)
    ensures Keep(s + [o], p) == if p(o) then Keep(s, p) + [o] else Keep(s, p)
  {
    if s == [] {
      assert s + [o] == [o];
    } else {
      assert (s + [o])[1..] == s[1..] + [o];
      KeepAppend(s[1..], o, p);
    }
  }

  lemma {:induction false} KeepFrom(s: seq<Observation>, p: Observation -> bool, o: Observation)
    ensures multiset(Keep(s, p))[o] == if p(o) then multiset(s)[o] else 0
    ensures o in Keep(s, p) <==> o in s && p(o)
  {
    if s != [] {
      KeepFrom(s[1..], p, o);
      assert s == [s[0]] + s[1..];
    }
  }

  lemma {:induction false} KeepBoth(s: seq<Observation>, p: Observation -> bool, q: Observation -> bool)
    ensures Keep(Keep(s, p), q) == Keep(s, Both(p, q))
  {
    if s != [] {
      KeepBoth(s[1..], p, q);
      assert p(s[0]) ==> Keep(s, p)[0] == s[0] && Keep(s, p)[1..] == Keep(s[1..], p);
    }
  }

  lemma {:induction false} KeepSame(s: seq<Observation>, p: Observation -> bool, q: Observation -> bool)
    requires forall o :: o in s ==> (p(o) <==> q(o))
    ensures Keep(s, p) == Keep(s, q)
  {
    if s != [] {
      KeepSame(s[1..], p, q);
    }
  }

  /** Filtering twice and sorting is a ranking. */
  lemma SortRanks(metrics: seq<Metric>, k: nat, observations: seq<Observation>)
    requires k < |metrics|
    ensures var name := NameOf(metrics[k]);
            var sorted := SortDescending(Keep(Keep(observations, IsWithin(metrics)), IsNumeric(metrics, name)),
              Score(metrics, name));
            && IsRanking(metrics, k, observations, sorted)
            && forall o :: multiset(sorted)[o] == if IsEligible(metrics, k)(o) then multiset(observations)[o] else 0
  {
    var name := NameOf(metrics[k]);
    var key, eligible := Score(metrics, name), Keep(observations, IsEligible(metrics, k));
    KeepBoth(observations, IsWithin(metrics), IsNumeric(metrics, name));
    SortDescends(eligible, key);
    forall v ensures Ties(SortDescending(eligible, key), key, v)
      == Keep(observations, Both(IsEligible(metrics, k), HasKey(key, v))) {
      SortKeepsTies(eligible, key, v);
      KeepBoth(observations, IsEligible(metrics, k), HasKey(key, v));
    }
    forall o ensures multiset(eligible)[o] == if IsEligible(metrics, k)(o) then multiset(observations)[o] else 0 {
      KeepFrom(observations, IsEligible(metrics, k), o);
    }
  }

  lemma TiesHead(s: seq<Observation>, key: Key)
    requires s != []
    ensures Ties(s, key, key(s[0])) != [] && Ties(s, key, key(s[0]))[0] == s[0]
    ensures forall v :: Ties(s[1..], key, v) == if key(s[0]) == v then Ties(s, key, v)[1..] else Ties(s, key, v)
  {
  }

  lemma HeadIsGreatest(s: seq<Observation>, t: seq<Observation>, key: Key)
    requires s != [] && Descending(t, key) && Ties(s, key, key(s[0])) == Ties(t, key, key(s[0]))
    ensures t != [] && key(t[0]) >= key(s[0])
  {
    TiesHead(s, key);
    KeepFrom(t, HasKey(key, key(s[0])), s[0]);
    assert s[0] in Ties(t, key, key(s[0]));
  }

  /** Two descending lists with the same ties are the same list. */
  lemma {:induction false} RankingIsUnique(s: seq<Observation>, t: seq<Observation>, key: Key)
    requires Descending(s, key) && Descending(t, key)
    requires forall v :: Ties(s, key, v) == Ties(t, key, v)
    ensures s == t
  {
    if s != [] {
      HeadIsGreatest(s, t, key);
      HeadIsGreatest(t, s, key);
      TiesHead(s, key);
      TiesHead(t, key);
      RankingIsUnique(s[1..], t[1..], key);
      assert s == [s[0]] + s[1..] && t == [t[0]] + t[1..];
    } else if t != [] {
      HeadIsGreatest(t, s, key);
    }
  }

  ghost predicate AllConsistent(metrics: seq<Metric>, observations: seq<Observation>) {
    forall o :: o in observations ==> Consistent(metrics, o)
  }

  /** An observation within the thresholds did not fail and has a number for every metric. */
  lemma WithinIsValid(metrics: seq<Metric>, o: Observation, k: nat)
    requires Consistent(metrics, o) && k < |metrics| && IsWithin(metrics)(o)
    ensures !o.failed && IsNumeric(metrics, NameOf(metrics[k]))(o)
  {
    SignFollowsMetric(metrics, o, k);
  }

  /** The ranking is of the observations that did not fail and meet every metric. */
  lemma EligibleQualifies(metrics: seq<Metric>, k: nat, o: Observation)
    requires Consistent(metrics, o) && k < |metrics|
    ensures IsEligible(metrics, k)(o) <==> Qualifies(metrics, o, None)
  {
    WithinIsMeeting(metrics, o);
    if WithinMetricThresholds(metrics, o) {
      WithinIsValid(metrics, o, k);
    }
  }

  /** The single best observation is the head of the ranking, ties included. */
  lemma SingleBestHeadsRanking(
    metrics: seq<Metric>, k: nat, observations: seq<Observation>, cost: Option<real>, ranking: seq<Observation>)
    requires k < |metrics| && AllConsistent(metrics, observations)
    requires IsRanking(metrics, k, Keep(observations, HasCost(cost)), ranking)
    ensures FirstMax(Candidates(metrics, observations, cost), Score(metrics, NameOf(metrics[k])))
         == if ranking == [] then None else Some(ranking[0])
  {
    var name, within, affordable := NameOf(metrics[k]), IsWithin(metrics), Keep(observations, HasCost(cost));
    var key := Score(metrics, name);
    SortRanks(metrics, k, affordable);
    RankingIsUnique(ranking, SortDescending(Keep(Keep(affordable, within), IsNumeric(metrics, name)), key), key);
    forall o | o in observations ensures within(o) ==> !o.failed && IsNumeric(metrics, name)(o) {
      if within(o) {
        WithinIsValid(metrics, o, k);
      }
    }
    KeepBoth(observations, IsValid(cost), within);
    KeepBoth(observations, HasCost(cost), within);
    KeepBoth(observations, Both(HasCost(cost), within), IsNumeric(metrics, name));
    KeepSame(observations, Both(IsValid(cost), within), Both(Both(HasCost(cost), within), IsNumeric(metrics, name)));
    HeadIsFirstMax(Candidates(metrics, observations, cost), key);
  }

  ghost predicate IsFirstBest(metrics: seq<Metric>, k: nat, candidates: seq<Observation>, i: nat)
    requires k < |metrics| && i < |candidates|
  {
    forall j :: 0 <= j < |candidates| ==>
      var mine, its := MetricValue(metrics, candidates[i], NameOf(metrics[k])),
        MetricValue(metrics, candidates[j], NameOf(metrics[k]));
      && mine.Some? && its.Some?
      && !Better(metrics[k], its.value, mine.value)
      && (j < i ==> Better(metrics[k], mine.value, its.value))
  }

  /** In raw values: the first of the least for a minimized metric, of the greatest otherwise. */
  lemma SingleBestIsFirstBest(
    metrics: seq<Metric>, k: nat, observations: seq<Observation>, cost: Option<real>) returns (i: nat)
    requires k < |metrics| && AllConsistent(metrics, observations) && Candidates(metrics, observations, cost) != []
    ensures var candidates := Candidates(metrics, observations, cost);
            && i < |candidates|
            && FirstMax(candidates, Score(metrics, NameOf(metrics[k]))) == Some(candidates[i])
            && IsFirstBest(metrics, k, candidates, i)
  {
    var candidates, key := Candidates(metrics, observations, cost), Score(metrics, NameOf(metrics[k]));
    i := FirstMaxIsFirst(candidates, key);
    forall o | o in candidates
      ensures var raw := MetricValue(metrics, o, NameOf(metrics[k]));
              raw.Some? && key(o) == if metrics[k].minimized then -raw.value else raw.value
    {
      KeepFrom(Keep(observations, IsValid(cost)), IsWithin(metrics), o);
      KeepFrom(observations, IsValid(cost), o);
      SignFollowsMetric(metrics, o, k);
    }
    assert candidates[i] in candidates;
  }
}
