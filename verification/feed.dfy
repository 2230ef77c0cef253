/** The visible case list (`filtered` in the page component): the accumulated
    demands narrowed by the search text, the status selector, the category
    chips, the locally declined ids and the radius, then sorted by the chosen
    order. */
module Feed {
  import opened Wrappers
  import opened Supabase
  import opened Seqs
  import opened StableSort
  import opened Text
  import opened Geo

  /** The four-way status selector. */
  datatype StatusFilter = Todas | Aguardando | Minhas | Concluidas

  /** The sort selector: nearest, highest risk, most recent. */
  datatype Order = MaisProximas | MaiorRisco | MaisRecentes

  /** The controls and local state the list depends on. */
  datatype View = View(
    search: string,
    status: StatusFilter,
    problemFilter: seq<SuggestedProblem>,
    radiusKm: real,
    order: Order,
    volLat: Option<real>,
    volLng: Option<real>,
    dismissedIds: seq<string>)

  /** The state the page starts in, before any geolocation reply. */
  const InitialView := View("", Todas, [], 999.0, MaisProximas, None, None, [])

  // ----- the predicates -----

  /** The text filter runs only when the search has a non-blank character. */
  predicate TextActive(search: string) {
    Trim(search) != []
  }

  /** `q` (already lower-cased) occurs in the lower-cased name,
      neighbourhood or school, a missing field counting as "". */
  predicate MatchesText(q: string, d: Demand) {
    || Contains(Lower(d.studentName), q)
    || Contains(Lower(d.addressNeighborhood.GetOr("")), q)
    || Contains(Lower(d.schoolName.GetOr("")), q)
  }

  /** The selector mapped onto the lifecycle; "minhas" keeps every case in
      progress, whoever was assigned. */
  predicate MatchesStatus(sel: StatusFilter, st: Status) {
    match sel
    case Todas => true
    case Aguardando => st == AguardandoVoluntario
    case Minhas => st == EmProgresso
    case Concluidas => st == Concluida
  }

  predicate MatchesProblem(problemFilter: seq<SuggestedProblem>, d: Demand) {
    d.suggestedProblem.Some? && d.suggestedProblem.value in problemFilter
  }

  /** The distance from the volunteer to the case, unknown when either
      position is incomplete. */
  function DistanceTo(metric: Metric, volLat: Option<real>, volLng: Option<real>, d: Demand): Option<real> {
    DistanceKm(metric, volLat, volLng, d.geoLat, d.geoLng)
  }

  /** Without a volunteer position everything passes; otherwise a case passes
      when its distance is unknown or within the radius. */
  predicate WithinRadius(v: View, metric: Metric, d: Demand) {
    if v.volLat.None? || v.volLng.None? then true
    else
      var dist := DistanceTo(metric, v.volLat, v.volLng, d);
      dist.None? || dist.value <= v.radiusKm
  }

  /** Every active predicate of `v` holds of `d`. */
  predicate Keep(v: View, metric: Metric, d: Demand) {
    && (TextActive(v.search) ==> MatchesText(Lower(v.search), d))
    && (v.status != Todas ==> MatchesStatus(v.status, d.status))
    && (|v.problemFilter| > 0 ==> MatchesProblem(v.problemFilter, d))
    && d.id !in v.dismissedIds
    && WithinRadius(v, metric, d)
  }

  function KeepIn(v: View, metric: Metric): Demand -> bool {
    d => Keep(v, metric, d)
  }

  // ----- the stages, as the page runs them -----

  function TextPred(q: string): Demand -> bool {
    d => MatchesText(q, d)
  }

  function StatusPred(sel: StatusFilter): Demand -> bool {
    (d: Demand) => MatchesStatus(sel, d.status)
  }

  function ProblemPred(problemFilter: seq<SuggestedProblem>): Demand -> bool {
    d => MatchesProblem(problemFilter, d)
  }

  function NotDismissedPred(dismissedIds: seq<string>): Demand -> bool {
    (d: Demand) => d.id !in dismissedIds
  }

  function RadiusPred(v: View, metric: Metric): Demand -> bool {
    d => WithinRadius(v, metric, d)
  }

  /** The five filter stages in the page's order, each conditional stage
      skipped when its control is empty. */
  function Stages(demands: seq<Demand>, v: View, metric: Metric): seq<Demand> {
    var l1 := if TextActive(v.search) then Filter(TextPred(Lower(v.search)), demands) else demands;
    var l2 := if v.status != Todas then Filter(StatusPred(v.status), l1) else l1;
    var l3 := if |v.problemFilter| > 0 then Filter(ProblemPred(v.problemFilter), l2) else l2;
    var l4 := Filter(NotDismissedPred(v.dismissedIds), l3);
    Filter(RadiusPred(v, metric), l4)
  }

  /** The conditional stages as unconditional predicates. */
  function TextStage(v: View): Demand -> bool {
    d => TextActive(v.search) ==> MatchesText(Lower(v.search), d)
  }

  function StatusStage(v: View): Demand -> bool {
    (d: Demand) => v.status != Todas ==> MatchesStatus(v.status, d.status)
  }

  function ProblemStage(v: View): Demand -> bool {
    d => |v.problemFilter| > 0 ==> MatchesProblem(v.problemFilter, d)
  }

  /** Each conditional stage is an unconditional filter. */
  lemma StagesUnconditional(demands: seq<Demand>, v: View, metric: Metric)
    ensures Stages(demands, v, metric) ==
      Filter(RadiusPred(v, metric), Filter(NotDismissedPred(v.dismissedIds),
        Filter(ProblemStage(v), Filter(StatusStage(v), Filter(TextStage(v), demands)))))
  {
    StageIsFilter(TextActive(v.search), TextPred(Lower(v.search)), TextStage(v), demands);
    var l1 := Filter(TextStage(v), demands);
    StageIsFilter(v.status != Todas, StatusPred(v.status), StatusStage(v), l1);
    var l2 := Filter(StatusStage(v), l1);
    StageIsFilter(|v.problemFilter| > 0, ProblemPred(v.problemFilter), ProblemStage(v), l2);
  }

  /** `Keep` is the conjunction of the stages. */
  lemma KeepIsConjunction(v: View, metric: Metric, d: Demand)
    ensures Keep(v, metric, d) <==>
      TextStage(v)(d) && StatusStage(v)(d) && ProblemStage(v)(d)
      && NotDismissedPred(v.dismissedIds)(d) && RadiusPred(v, metric)(d)
  {
  }

  /** The staged filters are one filter by `Keep`, so the stage order does
      not matter. */
  lemma StagesAreOneFilter(demands: seq<Demand>, v: View, metric: Metric)
    ensures Stages(demands, v, metric) == Filter(KeepIn(v, metric), demands)
  {
    StagesUnconditional(demands, v, metric);
    var c2 := (d: Demand) => TextStage(v)(d) && StatusStage(v)(d);
    var c3 := (d: Demand) => c2(d) && ProblemStage(v)(d);
    var c4 := (d: Demand) => c3(d) && NotDismissedPred(v.dismissedIds)(d);
    FilterFilter(TextStage(v), StatusStage(v), c2, demands);
    FilterFilter(c2, ProblemStage(v), c3, demands);
    FilterFilter(c3, NotDismissedPred(v.dismissedIds), c4, demands);
    forall d ensures KeepIn(v, metric)(d) == (c4(d) && RadiusPred(v, metric)(d)) {
      KeepIsConjunction(v, metric, d);
    }
    FilterFilter(c4, RadiusPred(v, metric), KeepIn(v, metric), demands);
  }

  // ----- the order -----

  /** `distance ?? Infinity`. */
  function DistanceRank(dist: Option<real>): Rank {
    if dist.None? then Infinite else At(dist.value)
  }

  /** The sort key of each mode, as the comparator subtracts it: risk and
      creation time are negated so that larger values come first; an unknown
      distance is `Infinity`. */
  function SortKey(order: Order, volLat: Option<real>, volLng: Option<real>, metric: Metric): Demand -> Rank {
    match order
    case MaiorRisco => (d: Demand) => At(-d.riskScore.GetOr(0.0))
    case MaisRecentes => (d: Demand) => At(-(d.createdAt as real))
    case MaisProximas => (d: Demand) => DistanceRank(DistanceTo(metric, volLat, volLng, d))
  }

  function KeyOf(v: View, metric: Metric): Demand -> Rank {
    SortKey(v.order, v.volLat, v.volLng, metric)
  }

  /** `a` may be listed before `b`: the comparator of the order mode is not
      positive. Highest risk first (a missing score counts as 0); most recent
      first; nearest first, unknown distances last. */
  predicate Precedes(v: View, metric: Metric, a: Demand, b: Demand) {
    match v.order
    case MaiorRisco => b.riskScore.GetOr(0.0) <= a.riskScore.GetOr(0.0)
    case MaisRecentes => b.createdAt <= a.createdAt
    case MaisProximas =>
      var da, db := DistanceTo(metric, v.volLat, v.volLng, a), DistanceTo(metric, v.volLat, v.volLng, b);
      db.None? || (da.Some? && da.value <= db.value)
  }

  /** The sort key ranks `a` no later than `b` exactly when `a` precedes `b`. */
  lemma KeyOrderIsPrecedes(v: View, metric: Metric, a: Demand, b: Demand)
    ensures RankLe(KeyOf(v, metric)(a), KeyOf(v, metric)(b)) <==> Precedes(v, metric, a, b)
  {
  }

  lemma SortedPrecedes(v: View, metric: Metric, r: seq<Demand>)
    requires Sorted(KeyOf(v, metric), r)
    ensures forall i, j :: 0 <= i < j < |r| ==> Precedes(v, metric, r[i], r[j])
  {
    forall i, j | 0 <= i < j < |r| ensures Precedes(v, metric, r[i], r[j]) {
      KeyOrderIsPrecedes(v, metric, r[i], r[j]);
    }
  }

  // ----- the list -----

  /** The `filtered` list. */
  function Filtered(demands: seq<Demand>, v: View, metric: Metric): (r: seq<Demand>)
    ensures forall d :: multiset(r)[d] == if Keep(v, metric, d) then multiset(demands)[d] else 0
    ensures |r| <= |demands|
    ensures forall i :: 0 <= i < |r| ==> Keep(v, metric, r[i])
    ensures forall i :: 0 <= i < |r| ==> r[i].id !in v.dismissedIds
    ensures forall d :: d in demands && Keep(v, metric, d) ==> d in r
    ensures forall i, j :: 0 <= i < j < |r| ==> Precedes(v, metric, r[i], r[j])
    ensures forall k :: KeyClass(KeyOf(v, metric), k, r) == KeyClass(KeyOf(v, metric), k, Filter(KeepIn(v, metric), demands))
  {
    var kept := Stages(demands, v, metric);
    StagesAreOneFilter(demands, v, metric);
    var r := Sort(KeyOf(v, metric), kept);
    KeptExactly(demands, v, metric, r);
    SortedPrecedes(v, metric, r);
    r
  }

  /** A rearrangement of the kept records holds each record that passes, as
      often as the input does, and nothing else. */
  lemma KeptExactly(demands: seq<Demand>, v: View, metric: Metric, r: seq<Demand>)
    requires multiset(r) == multiset(Filter(KeepIn(v, metric), demands))
    ensures forall d :: multiset(r)[d] == if Keep(v, metric, d) then multiset(demands)[d] else 0
    ensures forall i :: 0 <= i < |r| ==> Keep(v, metric, r[i])
    ensures forall i :: 0 <= i < |r| ==> r[i].id !in v.dismissedIds
    ensures forall d :: d in demands && Keep(v, metric, d) ==> d in r
  {
    FilterCountAll(KeepIn(v, metric), demands);
    assert forall i :: 0 <= i < |r| ==> r[i] in multiset(r);
    assert forall d :: d in demands ==> d in multiset(demands);
  }

  /** Nearest-first without a volunteer position ranks every case
      `Infinity`, so the kept cases stay in the order they were loaded. */
  lemma NoPositionKeepsLoadOrder(demands: seq<Demand>, v: View, metric: Metric)
    requires v.order == MaisProximas && (v.volLat.None? || v.volLng.None?)
    ensures Filtered(demands, v, metric) == Filter(KeepIn(v, metric), demands)
  {
    var kept := Filter(KeepIn(v, metric), demands);
    StagesAreOneFilter(demands, v, metric);
    forall i, j | 0 <= i < j < |kept| ensures RankLe(KeyOf(v, metric)(kept[i]), KeyOf(v, metric)(kept[j])) {
      assert KeyOf(v, metric)(kept[j]) == Infinite;
    }
    SortOfSorted(KeyOf(v, metric), kept);
  }

  /** On first render, with no search, no selector, no chip, nothing
      declined and no position yet, the list is the loaded list as is. */
  lemma InitialViewShowsAll(demands: seq<Demand>, metric: Metric)
    ensures Filtered(demands, InitialView, metric) == demands
  {
    NoPositionKeepsLoadOrder(demands, InitialView, metric);
    assert !TextActive(InitialView.search);
    FilterAll(KeepIn(InitialView, metric), demands);
  }

  /** When every record passes, the list is the loaded records sorted. */
  lemma AllKeptIsSorted(demands: seq<Demand>, v: View, metric: Metric)
    requires forall i :: 0 <= i < |demands| ==> Keep(v, metric, demands[i])
    ensures Filtered(demands, v, metric) == Sort(KeyOf(v, metric), demands)
  {
    StagesAreOneFilter(demands, v, metric);
    FilterAll(KeepIn(v, metric), demands);
  }

  /** Three keys in the order 10, 90, 50 of negated risk sort as 90, 50, 10. */
  lemma SortThree(key: Demand -> Rank, a: Demand, b: Demand, c: Demand)
    requires key(a) == At(-10.0) && key(b) == At(-90.0) && key(c) == At(-50.0)
    ensures Sort(key, [a, b, c]) == [b, c, a]
  {
    assert [a, b, c][1..] == [b, c] && [b, c][1..] == [c] && [c][1..] == [];
    assert Sort(key, [c]) == [c];
    assert Sort(key, [b, c]) == Insert(key, b, [c]) == [b, c];
    assert [c, a] == [c] + Insert(key, a, []);
    assert Insert(key, a, [b, c]) == [b] + Insert(key, a, [c]) == [b, c, a];
  }

  /** Highest risk first: cases scored 10, 90 and 50 that all pass the
      filters are listed 90, 50, 10. */
  lemma HighestRiskFirstExample(a: Demand, b: Demand, c: Demand, v: View, metric: Metric)
    requires a.riskScore == Some(10.0) && b.riskScore == Some(90.0) && c.riskScore == Some(50.0)
    requires v.order == MaiorRisco
    requires Keep(v, metric, a) && Keep(v, metric, b) && Keep(v, metric, c)
    ensures Filtered([a, b, c], v, metric) == [b, c, a]
  {
    var s, key := [a, b, c], KeyOf(v, metric);
    assert Filtered(s, v, metric) == Sort(key, s) by {
      assert s[0] == a && s[1] == b && s[2] == c;
      AllKeptIsSorted(s, v, metric);
    }
    assert Sort(key, s) == [b, c, a] by {
      assert key(a) == At(-10.0) && key(b) == At(-90.0) && key(c) == At(-50.0);
      SortThree(key, a, b, c);
    }
  }

  /** The radius filter: a volunteer at (0, 0) with a 50 km radius sees the
      case at (0, 0) (0 km away) and not the one at (0, 1) (111.2 km away). */
  lemma RadiusExample(a: Demand, b: Demand, v: View, metric: Metric)
    requires metric(0.0, 0.0, 0.0, 0.0) == 0.0 && metric(0.0, 0.0, 0.0, 1.0) == 111.2
    requires v.volLat == Some(0.0) && v.volLng == Some(0.0) && v.radiusKm == 50.0
    requires a.geoLat == Some(0.0) && a.geoLng == Some(0.0)
    requires b.geoLat == Some(0.0) && b.geoLng == Some(1.0)
    requires !TextActive(v.search) && v.status == Todas && v.problemFilter == [] && v.dismissedIds == []
    ensures Filtered([a, b], v, metric) == [a]
  {
    StagesAreOneFilter([a, b], v, metric);
    assert Keep(v, metric, a) && !Keep(v, metric, b);
    FilterCons(KeepIn(v, metric), a, [b]);
    FilterCons(KeepIn(v, metric), b, []);
    assert [a, b] == [a] + [b] && [b] == [b] + [];
    SortOfSorted(KeyOf(v, metric), [a]);
  }
}
