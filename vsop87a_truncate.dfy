/** vsop87a_truncate.py: each term t^alpha a cos(b + c t) of the VSOP87A series gets the
    shortest literals for a, b and c that keep the term within a per-body error limit over
    |t| <= T_MAX; a term whose amplitude simplifies to zero is dropped. */
module Vsop87aTruncate {
  import opened Outcomes
  import opened DecimalText
  import opened RoundCompact
  import Tools

  const TMax: real := 5.0
  const ThresholdExp: nat := 7
  /** np.power(10.0, -THRESHOLD_EXP) */
  const ThresholdBase: real := 0.0000001

  const Earth: string := "EARTH"
  const EarthMoon: string := "EARTH-MOON"

  const MeanDistanceFromSun: map<string, real> := map[
    "MERCURY" := 0.39, "VENUS" := 0.72, "MARS" := 1.52, "JUPITER" := 5.2, "SATURN" := 9.54,
    "URANUS" := 19.2, "NEPTUNE" := 30.06, EarthMoon := 1.0]

  function Min(u: real, v: real): real {
    if u <= v then u else v
  }

  /** The weight of a body at mean distance d: min(d, |1 - d|), where the Earth-Moon
      barycentre compares d with 1.0 instead. */
  function WeightOf(key: string, d: real): real {
    Min(d, if key != EarthMoon then Tools.Abs(1.0 - d) else 1.0)
  }

  const ThresholdWeight: map<string, real> :=
    map key | key in MeanDistanceFromSun.Keys :: WeightOf(key, MeanDistanceFromSun[key])

  /** The weights: every listed body has a positive one, the Earth-Moon barycentre 1.0, and
      each planet the nearer of its distance to the Sun and to the Earth's orbit. */
  lemma ThresholdWeights()
    ensures ThresholdWeight.Keys == MeanDistanceFromSun.Keys
    ensures forall key :: key in ThresholdWeight ==> ThresholdWeight[key] > 0.0
    ensures ThresholdWeight[EarthMoon] == 1.0
    ensures ThresholdWeight["MERCURY"] == 0.39 && ThresholdWeight["VENUS"] == 0.28
    ensures ThresholdWeight["MARS"] == 0.52 && ThresholdWeight["NEPTUNE"] == 29.06
    ensures Earth !in ThresholdWeight
  {
    assert WeightOf("VENUS", 0.72) == 0.28;
  }

  // ---------------------------------------------------------------------------
  // simplify
  // ---------------------------------------------------------------------------

  /** A double of the raw series: its exact decimal expansion and its repr, the text str()
      gives. */
  datatype Double = Double(exact: ExactDecimal, repr: string) {
    function Value(): real
      requires exact.Valid()
    {
      exact.Value()
    }

    /** The repr is a literal that reads back as the double's value. */
    predicate Valid() {
      exact.Valid() && ParseLiteral(repr).Some? && ParseLiteral(repr).value.Value() == exact.Value()
    }
  }

  /** A double: its expansion is always a well-formed decimal. */
  type Float64 = d: Double | d.exact.Valid() witness Double(ExactDecimal(false, [0], 0), "0")

  /** delta_a = limit / T_MAX^alpha */
  function DeltaA(limit: real, alpha: nat): real {
    PowerPositive(TMax, alpha);
    limit / Power(TMax, alpha)
  }

  /** The simplified coefficients of one term. */
  datatype Term = Term(amplitude: FormattedFloat, phase: FormattedFloat, frequency: FormattedFloat)

  /** round_compact_in_interval(v, v - delta, v + delta) */
  function Around(v: Float64, delta: real): Result<FormattedFloat>
  {
    RoundCompactInIntervalSpec(v.exact, v.Value() - delta, v.Value() + delta, v.repr)
  }

  /** simplify: three zeros for a zero amplitude; otherwise the shortest literals within
      delta_a of a, delta_a / |a| of b and delta_a / |a| / T_MAX of c. */
  function Simplify(a: Float64, b: Float64, c: Float64, limit: real, alpha: nat): Result<Term>
  {
    if a.Value() == 0.0 then Ok(Term(ZeroFloat, ZeroFloat, ZeroFloat))
    else
      var deltaA := DeltaA(limit, alpha);
      var deltaB := deltaA / Tools.Abs(a.Value());
      var deltaC := deltaA / Tools.Abs(a.Value()) / TMax;
      Combine(Around(a, deltaA), Around(b, deltaB), Around(c, deltaC))
  }

  /** The three results in order: the first error, or the three literals. */
  function Combine(ra: Result<FormattedFloat>, rb: Result<FormattedFloat>, rc: Result<FormattedFloat>): Result<Term> {
    match ra
    case Err(e) => Err(e)
    case Ok(ap) =>
      match rb
      case Err(e) => Err(e)
      case Ok(bp) =>
        match rc
        case Err(e) => Err(e)
        case Ok(cp) => Ok(Term(ap, bp, cp))
  }

  /** The perturbation budget: |a' - a| <= delta_a changes the term by at most limit, and so
      do |b' - b| <= delta_b and |c' - c| <= delta_c over |t| <= T_MAX. */
  lemma PerturbationBudget(amplitude: real, limit: real, alpha: nat)
    requires amplitude != 0.0
    ensures DeltaA(limit, alpha) * Power(TMax, alpha) == limit
    ensures DeltaA(limit, alpha) / Tools.Abs(amplitude) * Tools.Abs(amplitude) * Power(TMax, alpha) == limit
    ensures DeltaA(limit, alpha) / Tools.Abs(amplitude) / TMax * Tools.Abs(amplitude) * Power(TMax, alpha + 1) == limit
  {
    var p := Power(TMax, alpha);
    PowerPositive(TMax, alpha);
    var d := limit / p;
    var m := Tools.Abs(amplitude);
    assert d * p == limit;
    assert d / m * m == d;
    assert d / m / TMax * m * (TMax * p) == d * p;
  }

  /** One literal within delta of a double, when delta >= 0. */
  lemma AroundWithin(v: Float64, delta: real)
    requires v.Valid() && delta >= 0.0
    ensures Around(v, delta).Ok? && Within(Around(v, delta).value, v.Value() - delta, v.Value() + delta)
  {
    var x, text := v.exact, v.repr;
    assert ParseLiteral(text).Some? && ParseLiteral(text).value.Value() == x.Value();
    IntervalResultWithin(x, x.Value() - delta, x.Value() + delta, text, Around(v, delta));
  }

  /** A zero amplitude gives three zero literals. */
  lemma SimplifyZero(a: Float64, b: Float64, c: Float64, limit: real, alpha: nat)
    requires a.Value() == 0.0
    ensures Simplify(a, b, c, limit, alpha) == Ok(Term(ZeroFloat, ZeroFloat, ZeroFloat))
  {
  }

  lemma DeltaANonNegative(limit: real, alpha: nat)
    requires limit >= 0.0
    ensures DeltaA(limit, alpha) >= 0.0
  {
    PowerPositive(TMax, alpha);
  }

  lemma QuotientNonNegative(u: real, v: real)
    requires u >= 0.0 && v > 0.0
    ensures u / v >= 0.0
  {
    assert u / v * v == u;
  }

  lemma CombineWithin(a: Float64, b: Float64, c: Float64, deltaA: real, deltaB: real, deltaC: real, r: Result<Term>)
    requires a.Valid() && b.Valid() && c.Valid() && deltaA >= 0.0 && deltaB >= 0.0 && deltaC >= 0.0
    requires r == Combine(Around(a, deltaA), Around(b, deltaB), Around(c, deltaC))
    ensures r.Ok?
    ensures Within(r.value.amplitude, a.Value() - deltaA, a.Value() + deltaA)
    ensures Within(r.value.phase, b.Value() - deltaB, b.Value() + deltaB)
    ensures Within(r.value.frequency, c.Value() - deltaC, c.Value() + deltaC)
  {
    AroundWithin(a, deltaA);
    AroundWithin(b, deltaB);
    AroundWithin(c, deltaC);
  }

  /** Each simplified coefficient lies within its interval. */
  lemma SimplifyWithin(a: Float64, b: Float64, c: Float64, limit: real, alpha: nat, deltaA: real, deltaB: real, deltaC: real)
    requires a.Valid() && b.Valid() && c.Valid() && limit >= 0.0 && a.Value() != 0.0
    requires deltaA == DeltaA(limit, alpha) && deltaB == deltaA / Tools.Abs(a.Value()) && deltaC == deltaB / TMax
    ensures Simplify(a, b, c, limit, alpha).Ok?
    ensures Within(Simplify(a, b, c, limit, alpha).value.amplitude, a.Value() - deltaA, a.Value() + deltaA)
    ensures Within(Simplify(a, b, c, limit, alpha).value.phase, b.Value() - deltaB, b.Value() + deltaB)
    ensures Within(Simplify(a, b, c, limit, alpha).value.frequency, c.Value() - deltaC, c.Value() + deltaC)
  {
    DeltaANonNegative(limit, alpha);
    QuotientNonNegative(deltaA, Tools.Abs(a.Value()));
    QuotientNonNegative(deltaB, TMax);
    CombineWithin(a, b, c, deltaA, deltaB, deltaC, Simplify(a, b, c, limit, alpha));
  }

  /** simplify always succeeds on the series' doubles, and an amplitude can only become 0
      when |a| <= delta_a. */
  lemma SimplifyDrops(a: Float64, b: Float64, c: Float64, limit: real, alpha: nat)
    requires a.Valid() && b.Valid() && c.Valid() && limit >= 0.0
    ensures Simplify(a, b, c, limit, alpha).Ok?
    ensures Simplify(a, b, c, limit, alpha).value.amplitude.asFloat == 0.0 ==> Tools.Abs(a.Value()) <= DeltaA(limit, alpha)
  {
    DeltaANonNegative(limit, alpha);
    if a.Value() != 0.0 {
      var deltaA := DeltaA(limit, alpha);
      var deltaB := deltaA / Tools.Abs(a.Value());
      SimplifyWithin(a, b, c, limit, alpha, deltaA, deltaB, deltaB / TMax);
    }
  }

  // ---------------------------------------------------------------------------
  // truncate_series
  // ---------------------------------------------------------------------------

  /** A group of the raw series: its coordinate, its power of t, and its coefficients, three
      per term. */
  datatype RawGroup = RawGroup(coord: int, alpha: nat, coeffs: seq<Float64>)

  datatype Group = Group(coord: int, alpha: nat, coeffs: seq<FormattedFloat>)

  /** The raw series: the rotation matrix, passed through, and the bodies in the order of the
      JSON object, each with its groups. */
  datatype RawSeries<M> = RawSeries(matrix: M, bodies: seq<(string, seq<RawGroup>)>)

  datatype Truncated<M> = Truncated(comment: string, matrix: M, bodies: seq<(string, seq<Group>)>)

  const Comment: string := "VSOP87A truncated series with T_MAX=5.0, THRESHOLD_EXP=7"

  /** What the loops call for each term (a, b, c), with the body's limit and the group's
      alpha. The loops are written for any such function; truncate_series passes simplify. */
  type Simplifier = (Float64, Float64, Float64, real, nat) -> Result<Term>

  /** simplify, as the loops of truncate_series call it. */
  const SimplifyFn: Simplifier :=
    (a: Float64, b: Float64, c: Float64, limit: real, alpha: nat) => Simplify(a, b, c, limit, alpha)

  /** term_count after k more kept terms of a body: term_count.get(name, 0) + k. */
  function Bump(counts: map<string, nat>, name: string, k: nat): map<string, nat> {
    if k == 0 then counts else counts[name := (if name in counts then counts[name] else 0) + k]
  }

  /** A row (a, b, c) of the reshaped coefficients: one term. */
  type Row = (Float64, Float64, Float64)

  /** numpy's reshape(-1, 3): the coefficients in rows of three, when their count allows. */
  function Reshape(cs: seq<Float64>): Option<seq<Row>>
    decreases |cs|
  {
    if cs == [] then Some([])
    else if |cs| < 3 then None
    else
      match Reshape(cs[3..])
      case None => None
      case Some(rows) => Some([(cs[0], cs[1], cs[2])] + rows)
  }

  /** The rows read back in order. */
  function Flatten(rows: seq<Row>): seq<Float64> {
    if rows == [] then [] else [rows[0].0, rows[0].1, rows[0].2] + Flatten(rows[1..])
  }

  /** The reshape succeeds exactly when the count is a multiple of three, and then reading
      the rows back gives the coefficients. */
  lemma {:induction false} ReshapeFlatten(cs: seq<Float64>)
    ensures Reshape(cs).Some? <==> |cs| % 3 == 0
    ensures Reshape(cs).Some? ==> Flatten(Reshape(cs).value) == cs && 3 * |Reshape(cs).value| == |cs|
    decreases |cs|
  {
    if |cs| >= 3 {
      ReshapeFlatten(cs[3..]);
      if Reshape(cs).Some? {
        var rows := Reshape(cs).value;
        assert rows[1..] == Reshape(cs[3..]).value;
        assert cs == [cs[0], cs[1], cs[2]] + cs[3..];
      }
    }
  }

  /** Reshaping the rows read back gives the rows. */
  lemma {:induction false} FlattenReshape(rows: seq<Row>)
    ensures Reshape(Flatten(rows)) == Some(rows)
  {
    if rows != [] {
      FlattenReshape(rows[1..]);
      var cs := Flatten(rows);
      assert cs[3..] == Flatten(rows[1..]);
      assert rows == [(cs[0], cs[1], cs[2])] + rows[1..];
    }
  }

  /** The literals kept from the first n rows. */
  function KeptCoeffs(rows: seq<Row>, n: nat, limit: real, alpha: nat, f: Simplifier): Result<seq<FormattedFloat>>
    requires n <= |rows|
  {
    if n == 0 then Ok([])
    else
      match KeptCoeffs(rows, n - 1, limit, alpha, f)
      case Err(e) => Err(e)
      case Ok(kept) => KeepTerm(kept, f(rows[n - 1].0, rows[n - 1].1, rows[n - 1].2, limit, alpha))
  }

  /** A simplified term is kept unless its amplitude reads as 0. */
  function KeepTerm(kept: seq<FormattedFloat>, t: Result<Term>): Result<seq<FormattedFloat>> {
    match t
    case Err(e) => Err(e)
    case Ok(t) => Ok(if t.amplitude.asFloat == 0.0 then kept else kept + [t.amplitude, t.phase, t.frequency])
  }

  /** One group: the reshape into rows fails unless the count is a multiple of three; then
      every term is simplified and the dropped ones are left out. */
  function TruncateGroup(g: RawGroup, limit: real, f: Simplifier): Result<seq<FormattedFloat>>
  {
    match Reshape(g.coeffs)
    case None => Err(ValueError)
    case Some(rows) => KeptCoeffs(rows, |rows|, limit, g.alpha, f)
  }

  /** The first n groups of a body: the groups left with coefficients, and the number of terms
      kept. */
  function TruncateGroups(gs: seq<RawGroup>, n: nat, limit: real, f: Simplifier): Result<(seq<Group>, nat)>
    requires n <= |gs|
  {
    if n == 0 then Ok(([], 0))
    else
      match TruncateGroups(gs, n - 1, limit, f)
      case Err(e) => Err(e)
      case Ok(acc) =>
        var g := gs[n - 1];
        match TruncateGroup(g, limit, f)
        case Err(e) => Err(e)
        case Ok(kept) =>
          Ok((if kept == [] then acc.0 else acc.0 + [Group(g.coord, g.alpha, kept)], acc.1 + |kept| / 3))
  }

  /** The first n bodies: EARTH is skipped, every other body must have a weight, and a body
      appears in the result, and in the term counts, only when some term of it is kept. */
  function TruncateBodies(bs: seq<(string, seq<RawGroup>)>, n: nat, weights: map<string, real>, f: Simplifier)
    : Result<(seq<(string, seq<Group>)>, map<string, nat>)>
    requires n <= |bs|
  {
    if n == 0 then Ok(([], map[]))
    else
      match TruncateBodies(bs, n - 1, weights, f)
      case Err(e) => Err(e)
      case Ok(acc) =>
        var name := bs[n - 1].0;
        if name == Earth then Ok(acc)
        else if name !in weights then Err(KeyError)
        else
          match TruncateGroups(bs[n - 1].1, |bs[n - 1].1|, weights[name] * ThresholdBase, f)
          case Err(e) => Err(e)
          case Ok(r) => Ok((if r.0 == [] then acc.0 else acc.0 + [(name, r.0)], Bump(acc.1, name, r.1)))
  }

  /** truncate_series: the truncated series and the term counts it prints. */
  function TruncateSeriesSpec<M>(raw: RawSeries<M>): Result<(Truncated<M>, map<string, nat>)>
  {
    match TruncateBodies(raw.bodies, |raw.bodies|, ThresholdWeight, SimplifyFn)
    case Err(e) => Err(e)
    case Ok(r) => Ok((Truncated(Comment, raw.matrix, r.0), r.1))
  }

  // ---------------------------------------------------------------------------
  // The loops of truncate_series, proved to compute the functions above
  // ---------------------------------------------------------------------------

  /** Counting j terms and then k more is counting j + k. */
  lemma BumpAdd(counts: map<string, nat>, name: string, j: nat, k: nat, total: nat, counted: map<string, nat>,
                next: map<string, nat>)
    requires counted == Bump(counts, name, j) && next == Bump(counted, name, k) && total == j + k
    ensures next == Bump(counts, name, total)
  {
  }

  /** term_count[body] = term_count.get(body, 0) + 1: the body's count, n terms above what it
      was in counts, is raised by one more term. */
  method CountTerm(counted: map<string, nat>, name: string, ghost counts: map<string, nat>, ghost n: nat)
    returns (next: map<string, nat>)
    requires counted == Bump(counts, name, n)
    ensures next == Bump(counts, name, n + 1)
  {
    next := counted[name := (if name in counted then counted[name] else 0) + 1];
  }

  lemma ThirdOf(m: nat, t: nat)
    requires m == 3 * t
    ensures m / 3 == t
  {
  }

  /** Once a term fails, the group fails with that error. */
  lemma {:induction false} KeptErrorStays(rows: seq<Row>, m: nat, n: nat, limit: real, alpha: nat, f: Simplifier)
    requires m <= n <= |rows| && KeptCoeffs(rows, m, limit, alpha, f).Err?
    ensures KeptCoeffs(rows, n, limit, alpha, f) == KeptCoeffs(rows, m, limit, alpha, f)
    decreases n
  {
    if m < n {
      KeptErrorStays(rows, m, n - 1, limit, alpha, f);
    }
  }

  /** Once a group fails, the body fails with that error. */
  lemma {:induction false} GroupsErrorStays(gs: seq<RawGroup>, m: nat, n: nat, limit: real, f: Simplifier)
    requires m <= n <= |gs| && TruncateGroups(gs, m, limit, f).Err?
    ensures TruncateGroups(gs, n, limit, f) == TruncateGroups(gs, m, limit, f)
    decreases n
  {
    if m < n {
      GroupsErrorStays(gs, m, n - 1, limit, f);
    }
  }

  /** Once a body fails, the series fails with that error. */
  lemma {:induction false} BodiesErrorStays(bs: seq<(string, seq<RawGroup>)>, m: nat, n: nat, weights: map<string, real>, f: Simplifier)
    requires m <= n <= |bs| && TruncateBodies(bs, m, weights, f).Err?
    ensures TruncateBodies(bs, n, weights, f) == TruncateBodies(bs, m, weights, f)
    decreases n
  {
    if m < n {
      BodiesErrorStays(bs, m, n - 1, weights, f);
    }
  }

  /** A failing term fails the group. */
  lemma KeptStepError(rows: seq<Row>, k: nat, limit: real, alpha: nat, f: Simplifier, t: Result<Term>)
    requires k < |rows| && KeptCoeffs(rows, k, limit, alpha, f).Ok?
    requires t == f(rows[k].0, rows[k].1, rows[k].2, limit, alpha) && t.Err?
    ensures KeptCoeffs(rows, |rows|, limit, alpha, f) == Err(t.error)
  {
    assert KeptCoeffs(rows, k + 1, limit, alpha, f) == Err(t.error);
    KeptErrorStays(rows, k + 1, |rows|, limit, alpha, f);
  }

  /** One step of the fold over the terms of a group. */
  lemma KeptStep(rows: seq<Row>, k: nat, limit: real, alpha: nat, f: Simplifier, kept: seq<FormattedFloat>,
                 t: Term, kept': seq<FormattedFloat>)
    requires k < |rows| && KeptCoeffs(rows, k, limit, alpha, f) == Ok(kept)
    requires Ok(t) == f(rows[k].0, rows[k].1, rows[k].2, limit, alpha)
    requires kept' == if t.amplitude.asFloat == 0.0 then kept else kept + [t.amplitude, t.phase, t.frequency]
    ensures KeptCoeffs(rows, k + 1, limit, alpha, f) == Ok(kept')
  {
  }

  /** A failing group fails the body. */
  lemma GroupsStepError(gs: seq<RawGroup>, j: nat, limit: real, f: Simplifier, kept: Result<seq<FormattedFloat>>)
    requires j < |gs| && TruncateGroups(gs, j, limit, f).Ok?
    requires kept == TruncateGroup(gs[j], limit, f) && kept.Err?
    ensures TruncateGroups(gs, |gs|, limit, f) == Err(kept.error)
  {
    assert TruncateGroups(gs, j + 1, limit, f) == Err(kept.error);
    GroupsErrorStays(gs, j + 1, |gs|, limit, f);
  }

  /** One step of the fold over the groups of a body. */
  lemma GroupsStep(gs: seq<RawGroup>, j: nat, limit: real, f: Simplifier, groups: seq<Group>, terms: nat,
                   kept: seq<FormattedFloat>, groups': seq<Group>, terms': nat)
    requires j < |gs| && TruncateGroups(gs, j, limit, f) == Ok((groups, terms))
    requires TruncateGroup(gs[j], limit, f) == Ok(kept)
    requires groups' == (if kept == [] then groups else groups + [Group(gs[j].coord, gs[j].alpha, kept)])
    requires terms' == terms + |kept| / 3
    ensures TruncateGroups(gs, j + 1, limit, f) == Ok((groups', terms'))
  {
  }

  /** The innermost loop: the terms of one group, simplified and kept or dropped, with the
      body's term count raised by one per kept term. */
  method TruncateTerms(g: RawGroup, limit: real, name: string, counts: map<string, nat>, f: Simplifier)
    returns (r: Result<seq<FormattedFloat>>, counted: map<string, nat>)
    ensures r == TruncateGroup(g, limit, f)
    ensures r.Ok? ==> counted == Bump(counts, name, |r.value| / 3)
  {
    var reshaped := Reshape(g.coeffs);
    if reshaped.None? {
      return Err(ValueError), counts;
    }
    r, counted := KeepTerms(reshaped.value, limit, g.alpha, name, counts, f);
  }

  /** The loop over the rows (a, b, c) of a group. */
  method KeepTerms(rows: seq<Row>, limit: real, alpha: nat, name: string, counts: map<string, nat>, f: Simplifier)
    returns (r: Result<seq<FormattedFloat>>, counted: map<string, nat>)
    ensures r == KeptCoeffs(rows, |rows|, limit, alpha, f)
    ensures r.Ok? ==> counted == Bump(counts, name, |r.value| / 3)
  {
    counted := counts;
    var kept: seq<FormattedFloat> := [];
    ghost var terms: nat := 0;
    var k := 0;
    while k < |rows|
      invariant k <= |rows|
      invariant KeptCoeffs(rows, k, limit, alpha, f) == Ok(kept)
      invariant |kept| == 3 * terms && counted == Bump(counts, name, terms)
    {
      var row := rows[k];
      var t := f(row.0, row.1, row.2, limit, alpha);
      if t.Err? {
        KeptStepError(rows, k, limit, alpha, f, t);
        return Err(t.error), counted;
      }
      ghost var kept0 := kept;
      if t.value.amplitude.asFloat != 0.0 {
        kept := kept + [t.value.amplitude, t.value.phase, t.value.frequency];
        counted := CountTerm(counted, name, counts, terms);
        terms := terms + 1;
      }
      KeptStep(rows, k, limit, alpha, f, kept0, t.value, kept);
      assert |kept| == 3 * terms;
      k := k + 1;
    }
    ThirdOf(|kept|, terms);
    r := Ok(kept);
  }

  /** The loop over the groups of one body. */
  method TruncateBody(gs: seq<RawGroup>, limit: real, name: string, counts: map<string, nat>, f: Simplifier)
    returns (r: Result<seq<Group>>, counted: map<string, nat>)
    ensures TruncateGroups(gs, |gs|, limit, f).Ok? <==> r.Ok?
    ensures r.Ok? ==> r.value == TruncateGroups(gs, |gs|, limit, f).value.0
    ensures r.Ok? ==> counted == Bump(counts, name, TruncateGroups(gs, |gs|, limit, f).value.1)
    ensures r.Err? ==> r.error == TruncateGroups(gs, |gs|, limit, f).error
  {
    counted := counts;
    var groups: seq<Group> := [];
    ghost var terms: nat := 0;
    var j := 0;
    while j < |gs|
      invariant j <= |gs|
      invariant TruncateGroups(gs, j, limit, f) == Ok((groups, terms))
      invariant counted == Bump(counts, name, terms)
    {
      var g := gs[j];
      var kept, next := TruncateTerms(g, limit, name, counted, f);
      if kept.Err? {
        GroupsStepError(gs, j, limit, f, kept);
        return Err(kept.error), counted;
      }
      ghost var terms' := terms + |kept.value| / 3;
      BumpAdd(counts, name, terms, |kept.value| / 3, terms', counted, next);
      ghost var groups0 := groups;
      if kept.value != [] {
        groups := groups + [Group(g.coord, g.alpha, kept.value)];
      }
      GroupsStep(gs, j, limit, f, groups0, terms, kept.value, groups, terms');
      counted := next;
      terms := terms';
      j := j + 1;
    }
    r := Ok(groups);
  }

  /** EARTH is skipped. */
  lemma BodiesStepSkip(bs: seq<(string, seq<RawGroup>)>, i: nat, weights: map<string, real>, f: Simplifier,
                       bodies: seq<(string, seq<Group>)>, counts: map<string, nat>)
    requires i < |bs| && TruncateBodies(bs, i, weights, f) == Ok((bodies, counts)) && bs[i].0 == Earth
    ensures TruncateBodies(bs, i + 1, weights, f) == Ok((bodies, counts))
  {
  }

  /** A body without a weight, or whose groups fail, fails the series. */
  lemma BodiesStepError(bs: seq<(string, seq<RawGroup>)>, i: nat, weights: map<string, real>, f: Simplifier, e: PyError)
    requires i < |bs| && TruncateBodies(bs, i, weights, f).Ok? && bs[i].0 != Earth
    requires if bs[i].0 in weights then BodyGroups(bs, i, weights, f) == Err(e) else e == KeyError
    ensures TruncateBodies(bs, |bs|, weights, f) == Err(e)
  {
    assert TruncateBodies(bs, i + 1, weights, f) == Err(e);
    BodiesErrorStays(bs, i + 1, |bs|, weights, f);
  }

  /** One step of the fold over the bodies, for a body with a weight whose groups succeed. */
  lemma BodiesStepOk(bs: seq<(string, seq<RawGroup>)>, i: nat, weights: map<string, real>, f: Simplifier,
                     bodies: seq<(string, seq<Group>)>, counts: map<string, nat>, groups: seq<Group>,
                     bodies': seq<(string, seq<Group>)>, counts': map<string, nat>)
    requires i < |bs| && TruncateBodies(bs, i, weights, f) == Ok((bodies, counts))
    requires bs[i].0 != Earth && bs[i].0 in weights
    requires BodyGroups(bs, i, weights, f).Ok? && groups == BodyGroups(bs, i, weights, f).value.0
    requires bodies' == (if groups == [] then bodies else bodies + [(bs[i].0, groups)])
    requires counts' == Bump(counts, bs[i].0, BodyGroups(bs, i, weights, f).value.1)
    ensures TruncateBodies(bs, i + 1, weights, f) == Ok((bodies', counts'))
  {
  }

  /** The loop over the bodies of the raw series, for a given simplifier. */
  method TruncateBodiesWith(bs: seq<(string, seq<RawGroup>)>, weights: map<string, real>, f: Simplifier)
    returns (r: Result<seq<(string, seq<Group>)>>, termCount: map<string, nat>)
    ensures TruncateBodies(bs, |bs|, weights, f).Ok? <==> r.Ok?
    ensures r.Ok? ==> r.value == TruncateBodies(bs, |bs|, weights, f).value.0 && termCount == TruncateBodies(bs, |bs|, weights, f).value.1
    ensures r.Err? ==> r.error == TruncateBodies(bs, |bs|, weights, f).error
  {
    var bodies: seq<(string, seq<Group>)> := [];
    termCount := map[];
    var i := 0;
    while i < |bs|
      invariant i <= |bs|
      invariant TruncateBodies(bs, i, weights, f) == Ok((bodies, termCount))
    {
      var name := bs[i].0;
      if name == Earth {
        BodiesStepSkip(bs, i, weights, f, bodies, termCount);
      } else {
        if name !in weights {
          BodiesStepError(bs, i, weights, f, KeyError);
          return Err(KeyError), termCount;
        }
        var groups, counted := TruncateBody(bs[i].1, weights[name] * ThresholdBase, name, termCount, f);
        if groups.Err? {
          BodiesStepError(bs, i, weights, f, groups.error);
          return Err(groups.error), termCount;
        }
        ghost var bodies0, counts0 := bodies, termCount;
        termCount := counted;
        if groups.value != [] {
          bodies := bodies + [(name, groups.value)];
        }
        BodiesStepOk(bs, i, weights, f, bodies0, counts0, groups.value, bodies, termCount);
      }
      i := i + 1;
    }
    r := Ok(bodies);
  }

  /** truncate_series: the loops with simplify, and the comment and matrix around them. */
  method TruncateSeries<M>(raw: RawSeries<M>) returns (r: Result<Truncated<M>>, termCount: map<string, nat>)
    ensures TruncateSeriesSpec(raw).Ok? <==> r.Ok?
    ensures r.Ok? ==> r.value == TruncateSeriesSpec(raw).value.0 && termCount == TruncateSeriesSpec(raw).value.1
    ensures r.Err? ==> r.error == TruncateSeriesSpec(raw).error
  {
    var bodies;
    bodies, termCount := TruncateBodiesWith(raw.bodies, ThresholdWeight, SimplifyFn);
    if bodies.Err? {
      return Err(bodies.error), termCount;
    }
    r := Ok(Truncated(Comment, raw.matrix, bodies.value));
  }

  // ---------------------------------------------------------------------------
  // What truncate_series produces
  // ---------------------------------------------------------------------------

  /** Kept literals come in threes, and every amplitude among them (each third literal,
      from the first) reads as a nonzero number. */
  predicate KeptShape(kept: seq<FormattedFloat>) {
    && |kept| % 3 == 0
    && forall i :: 0 <= i < |kept| && i % 3 == 0 ==> kept[i].asFloat != 0.0
  }

  /** An output group: at least one term, and only kept terms. */
  predicate GoodGroup(g: Group) {
    g.coeffs != [] && KeptShape(g.coeffs)
  }

  /** The number of terms in a list of groups. */
  function TermsIn(gs: seq<Group>): nat {
    if gs == [] then 0 else TermsIn(gs[..|gs| - 1]) + |gs[|gs| - 1].coeffs| / 3
  }

  /** The number of the first n terms whose simplified amplitude does not read as 0. */
  function NumKept(rows: seq<Row>, n: nat, limit: real, alpha: nat, f: Simplifier): nat
    requires n <= |rows|
  {
    if n == 0 then 0
    else
      var t := f(rows[n - 1].0, rows[n - 1].1, rows[n - 1].2, limit, alpha);
      NumKept(rows, n - 1, limit, alpha, f) + (if t.Ok? && t.value.amplitude.asFloat != 0.0 then 1 else 0)
  }

  /** The kept literals: three per term whose amplitude does not read as 0, and no amplitude
      among them reads as 0. */
  lemma {:induction false} KeptCoeffsShape(rows: seq<Row>, n: nat, limit: real, alpha: nat, f: Simplifier)
    requires n <= |rows| && KeptCoeffs(rows, n, limit, alpha, f).Ok?
    ensures KeptShape(KeptCoeffs(rows, n, limit, alpha, f).value)
    ensures |KeptCoeffs(rows, n, limit, alpha, f).value| == 3 * NumKept(rows, n, limit, alpha, f)
    ensures |KeptCoeffs(rows, n, limit, alpha, f).value| <= 3 * n
  {
    if n > 0 {
      KeptCoeffsShape(rows, n - 1, limit, alpha, f);
      var kept := KeptCoeffs(rows, n - 1, limit, alpha, f).value;
      var t := f(rows[n - 1].0, rows[n - 1].1, rows[n - 1].2, limit, alpha);
      if t.value.amplitude.asFloat != 0.0 {
        var next := kept + [t.value.amplitude, t.value.phase, t.value.frequency];
        forall i | 0 <= i < |next| && i % 3 == 0
          ensures next[i].asFloat != 0.0
        {
          if i < |kept| {
            assert next[i] == kept[i];
          } else {
            assert i == |kept|;
          }
        }
      }
    }
  }

  /** A list of output groups has no terms only when it is empty. */
  lemma {:induction false} TermsInPositive(gs: seq<Group>)
    requires forall i :: 0 <= i < |gs| ==> GoodGroup(gs[i])
    ensures TermsIn(gs) == 0 <==> gs == []
  {
    if gs != [] {
      var last := gs[|gs| - 1];
      assert GoodGroup(last);
      assert |last.coeffs| >= 3;
    }
  }

  /** Soundness: each group has terms, all of them kept, and comes from an input group with
      the same coordinate and alpha; the count is the number of terms they hold. */
  lemma {:induction false} TruncateGroupsSound(gs: seq<RawGroup>, n: nat, limit: real, f: Simplifier)
    requires n <= |gs| && TruncateGroups(gs, n, limit, f).Ok?
    ensures var r := TruncateGroups(gs, n, limit, f).value;
      && |r.0| <= n
      && (forall i :: 0 <= i < |r.0| ==> GoodGroup(r.0[i]))
      && (forall i :: 0 <= i < |r.0| ==>
            exists j :: 0 <= j < n && gs[j].coord == r.0[i].coord && gs[j].alpha == r.0[i].alpha)
      && r.1 == TermsIn(r.0)
  {
    if n > 0 {
      TruncateGroupsSound(gs, n - 1, limit, f);
      var acc := TruncateGroups(gs, n - 1, limit, f).value;
      var g := gs[n - 1];
      var kept := TruncateGroup(g, limit, f).value;
      TruncateGroupShape(g, limit, f);
      if kept != [] {
        assert TruncateGroups(gs, n, limit, f).value == (acc.0 + [Group(g.coord, g.alpha, kept)], acc.1 + |kept| / 3);
        GroupsSoundStep(gs, n, acc.0, Group(g.coord, g.alpha, kept));
      } else {
        assert TruncateGroups(gs, n, limit, f).value == (acc.0, acc.1);
      }
    }
  }

  /** A group's truncation holds only kept terms, in threes. */
  lemma TruncateGroupShape(g: RawGroup, limit: real, f: Simplifier)
    requires TruncateGroup(g, limit, f).Ok?
    ensures KeptShape(TruncateGroup(g, limit, f).value)
  {
    var rows := Reshape(g.coeffs).value;
    KeptCoeffsShape(rows, |rows|, limit, g.alpha, f);
  }

  /** Appending a well-formed group taken from input group n - 1 keeps the soundness facts. */
  lemma GroupsSoundStep(gs: seq<RawGroup>, n: nat, acc: seq<Group>, o: Group)
    requires 0 < n <= |gs| && GoodGroup(o) && o.coord == gs[n - 1].coord && o.alpha == gs[n - 1].alpha
    requires forall i :: 0 <= i < |acc| ==> GoodGroup(acc[i])
    requires forall i :: 0 <= i < |acc| ==>
      exists j :: 0 <= j < n - 1 && gs[j].coord == acc[i].coord && gs[j].alpha == acc[i].alpha
    ensures var out := acc + [o];
      && (forall i :: 0 <= i < |out| ==> GoodGroup(out[i]))
      && (forall i :: 0 <= i < |out| ==>
            exists j :: 0 <= j < n && gs[j].coord == out[i].coord && gs[j].alpha == out[i].alpha)
      && TermsIn(out) == TermsIn(acc) + |o.coeffs| / 3
  {
    var out := acc + [o];
    assert out[..|out| - 1] == acc;
    forall i | 0 <= i < |out|
      ensures GoodGroup(out[i])
      ensures exists j :: 0 <= j < n && gs[j].coord == out[i].coord && gs[j].alpha == out[i].alpha
    {
      if i < |acc| {
        assert out[i] == acc[i];
      } else {
        assert gs[n - 1].coord == out[i].coord;
      }
    }
  }

  /** The groups of a body: in input order, the truncation of every group that keeps a term
      and nothing else; each has terms, all of them kept; and the count is the number of terms
      they hold. */
  lemma {:induction false} TruncateGroupsShape(gs: seq<RawGroup>, n: nat, limit: real, f: Simplifier)
    requires n <= |gs| && TruncateGroups(gs, n, limit, f).Ok?
    ensures var r := TruncateGroups(gs, n, limit, f).value;
      && |r.0| <= n
      && (forall i :: 0 <= i < |r.0| ==> GoodGroup(r.0[i]))
      && (forall i :: 0 <= i < |r.0| ==>
            exists j :: 0 <= j < n && gs[j].coord == r.0[i].coord && gs[j].alpha == r.0[i].alpha)
      && r.1 == TermsIn(r.0)
    ensures ListsKeptGroups(gs, n, limit, f, TruncateGroups(gs, n, limit, f).value.0, KeptGroupIndices(gs, n, limit, f))
  {
    TruncateGroupsSound(gs, n, limit, f);
    TruncateGroupsComplete(gs, n, limit, f);
  }

  /** The group keeps a term: its truncation succeeds and is not empty. */
  predicate GroupKept(g: RawGroup, limit: real, f: Simplifier) {
    TruncateGroup(g, limit, f).Ok? && TruncateGroup(g, limit, f).value != []
  }

  /** The indices of the groups among the first n that keep a term, in increasing order. */
  function KeptGroupIndices(gs: seq<RawGroup>, n: nat, limit: real, f: Simplifier): seq<nat>
    requires n <= |gs|
  {
    if n == 0 then []
    else KeptGroupIndices(gs, n - 1, limit, f) + (if GroupKept(gs[n - 1], limit, f) then [n - 1] else [])
  }

  /** out holds, at the increasing indices idx among the first n groups, the truncation of
      each group that keeps a term, and of no other group. */
  predicate ListsKeptGroups(gs: seq<RawGroup>, n: nat, limit: real, f: Simplifier, out: seq<Group>, idx: seq<nat>)
    requires n <= |gs|
  {
    && |idx| == |out|
    && (forall i :: 0 <= i < |idx| ==>
          && idx[i] < n && GroupKept(gs[idx[i]], limit, f)
          && out[i] == Group(gs[idx[i]].coord, gs[idx[i]].alpha, TruncateGroup(gs[idx[i]], limit, f).value))
    && (forall i, k :: 0 <= i < k < |idx| ==> idx[i] < idx[k])
    && (forall j :: 0 <= j < n && GroupKept(gs[j], limit, f) ==> j in idx)
  }

  /** Completeness and order: a body's groups are the truncations of every group that keeps
      a term, in input order, and nothing else. */
  lemma {:induction false} TruncateGroupsComplete(gs: seq<RawGroup>, n: nat, limit: real, f: Simplifier)
    requires n <= |gs| && TruncateGroups(gs, n, limit, f).Ok?
    ensures ListsKeptGroups(gs, n, limit, f, TruncateGroups(gs, n, limit, f).value.0, KeptGroupIndices(gs, n, limit, f))
  {
    if n > 0 {
      TruncateGroupsComplete(gs, n - 1, limit, f);
      var acc, idx := TruncateGroups(gs, n - 1, limit, f).value.0, KeptGroupIndices(gs, n - 1, limit, f);
      var g := gs[n - 1];
      if GroupKept(g, limit, f) {
        assert TruncateGroups(gs, n, limit, f).value.0 == acc + [Group(g.coord, g.alpha, TruncateGroup(g, limit, f).value)];
        ListsKeptGroupsAppend(gs, n, limit, f, acc, idx);
      } else {
        assert TruncateGroups(gs, n, limit, f).value.0 == acc;
        ListsKeptGroupsSkip(gs, n, limit, f, acc, idx);
      }
    }
  }

  /** A group that keeps a term adds its truncation and its index at the end. */
  lemma ListsKeptGroupsAppend(gs: seq<RawGroup>, n: nat, limit: real, f: Simplifier, acc: seq<Group>, idx: seq<nat>)
    requires 0 < n <= |gs| && ListsKeptGroups(gs, n - 1, limit, f, acc, idx) && GroupKept(gs[n - 1], limit, f)
    ensures var g := gs[n - 1];
      ListsKeptGroups(gs, n, limit, f, acc + [Group(g.coord, g.alpha, TruncateGroup(g, limit, f).value)], idx + [n - 1])
  {
    var g := gs[n - 1];
    var out, idx' := acc + [Group(g.coord, g.alpha, TruncateGroup(g, limit, f).value)], idx + [n - 1];
    forall i | 0 <= i < |idx'|
      ensures idx'[i] < n && GroupKept(gs[idx'[i]], limit, f)
      ensures out[i] == Group(gs[idx'[i]].coord, gs[idx'[i]].alpha, TruncateGroup(gs[idx'[i]], limit, f).value)
    {
      if i < |idx| {
        assert idx'[i] == idx[i] && out[i] == acc[i];
      }
    }
    forall i, k | 0 <= i < k < |idx'|
      ensures idx'[i] < idx'[k]
    {
      assert idx'[i] == idx[i];
      if k < |idx| {
        assert idx'[k] == idx[k];
      }
    }
    forall j | 0 <= j < n && GroupKept(gs[j], limit, f)
      ensures j in idx'
    {
      if j < n - 1 {
        assert j in idx;
      } else {
        assert idx'[|idx|] == j;
      }
    }
  }

  /** A group that keeps no term changes nothing. */
  lemma ListsKeptGroupsSkip(gs: seq<RawGroup>, n: nat, limit: real, f: Simplifier, acc: seq<Group>, idx: seq<nat>)
    requires 0 < n <= |gs| && ListsKeptGroups(gs, n - 1, limit, f, acc, idx) && !GroupKept(gs[n - 1], limit, f)
    ensures ListsKeptGroups(gs, n, limit, f, acc, idx)
  {
  }

  /** The bodies of a result: never EARTH, each with a weight and at least one group, every
      group well formed; a body has a term count exactly when it is in the result; and all
      the names are among the first n input names. */
  ghost predicate BodiesShape(bs: seq<(string, seq<RawGroup>)>, n: nat, weights: map<string, real>, out: seq<(string, seq<Group>)>, counts: map<string, nat>)
    requires n <= |bs|
  {
    && (forall i :: 0 <= i < |out| ==>
          && out[i].0 != Earth && out[i].0 in weights && out[i].1 != []
          && forall j :: 0 <= j < |out[i].1| ==> GoodGroup(out[i].1[j]))
    && (forall name :: name in counts <==> exists i :: 0 <= i < |out| && out[i].0 == name)
    && (forall i :: 0 <= i < |out| ==> exists j :: 0 <= j < n && bs[j].0 == out[i].0)
    && (forall name :: name in counts ==> exists j :: 0 <= j < n && bs[j].0 == name)
  }

  /** Adding one body's groups keeps the shape. */
  lemma BodiesShapeStep(bs: seq<(string, seq<RawGroup>)>, n: nat, weights: map<string, real>, out: seq<(string, seq<Group>)>, counts: map<string, nat>,
                        groups: seq<Group>, terms: nat, out': seq<(string, seq<Group>)>, counts': map<string, nat>)
    requires 0 < n <= |bs| && BodiesShape(bs, n - 1, weights, out, counts)
    requires bs[n - 1].0 != Earth && bs[n - 1].0 in weights
    requires (forall i :: 0 <= i < |groups| ==> GoodGroup(groups[i])) && (terms == 0 <==> groups == [])
    requires out' == (if groups == [] then out else out + [(bs[n - 1].0, groups)])
    requires counts' == Bump(counts, bs[n - 1].0, terms)
    ensures BodiesShape(bs, n, weights, out', counts')
  {
    var name := bs[n - 1].0;
    forall i | 0 <= i < |out'|
      ensures exists j :: 0 <= j < n && bs[j].0 == out'[i].0
    {
      if i < |out| {
        assert out'[i] == out[i];
        var j :| 0 <= j < n - 1 && bs[j].0 == out[i].0;
      } else {
        assert bs[n - 1].0 == out'[i].0;
      }
    }
    forall nm | nm in counts'
      ensures exists j :: 0 <= j < n && bs[j].0 == nm
    {
      if nm in counts {
        var j :| 0 <= j < n - 1 && bs[j].0 == nm;
      } else {
        assert bs[n - 1].0 == nm;
      }
    }
    forall nm
      ensures nm in counts' <==> exists i :: 0 <= i < |out'| && out'[i].0 == nm
    {
      if nm in counts' && groups != [] && nm == name {
        assert out'[|out|].0 == nm;
      }
      if nm in counts' && nm in counts {
        var i :| 0 <= i < |out| && out[i].0 == nm;
        assert out'[i] == out[i];
      }
      if i :| 0 <= i < |out'| && out'[i].0 == nm {
        if i < |out| {
          assert out'[i] == out[i];
        }
      }
    }
    forall i | 0 <= i < |out'|
      ensures out'[i].0 != Earth && out'[i].0 in weights && out'[i].1 != []
      ensures forall j :: 0 <= j < |out'[i].1| ==> GoodGroup(out'[i].1[j])
    {
      if i < |out| {
        assert out'[i] == out[i];
      }
    }
  }

  /** Soundness of the bodies truncate_series' loops produce. */
  lemma {:induction false} TruncateBodiesSound(bs: seq<(string, seq<RawGroup>)>, n: nat, weights: map<string, real>, f: Simplifier)
    requires n <= |bs| && TruncateBodies(bs, n, weights, f).Ok?
    ensures BodiesShape(bs, n, weights, TruncateBodies(bs, n, weights, f).value.0, TruncateBodies(bs, n, weights, f).value.1)
  {
    if n > 0 {
      TruncateBodiesSound(bs, n - 1, weights, f);
      var acc := TruncateBodies(bs, n - 1, weights, f).value;
      var name := bs[n - 1].0;
      if name != Earth {
        var limit := weights[name] * ThresholdBase;
        var gs := bs[n - 1].1;
        TruncateGroupsShape(gs, |gs|, limit, f);
        var r := TruncateGroups(gs, |gs|, limit, f).value;
        TermsInPositive(r.0);
        BodiesShapeStep(bs, n, weights, acc.0, acc.1, r.0, r.1, TruncateBodies(bs, n, weights, f).value.0, TruncateBodies(bs, n, weights, f).value.1);
      } else {
        assert BodiesShape(bs, n, weights, acc.0, acc.1) by {
          forall nm | nm in acc.1
            ensures exists j :: 0 <= j < n && bs[j].0 == nm
          {
            var j :| 0 <= j < n - 1 && bs[j].0 == nm;
          }
          forall i | 0 <= i < |acc.0|
            ensures exists j :: 0 <= j < n && bs[j].0 == acc.0[i].0
          {
            var j :| 0 <= j < n - 1 && bs[j].0 == acc.0[i].0;
          }
        }
      }
    }
  }

  /** The body at i is in the result: it is not EARTH, it has a weight, and some group of it
      keeps a term. */
  predicate BodyKept(bs: seq<(string, seq<RawGroup>)>, i: nat, weights: map<string, real>, f: Simplifier)
    requires i < |bs|
  {
    && bs[i].0 != Earth && bs[i].0 in weights
    && BodyGroups(bs, i, weights, f).Ok? && BodyGroups(bs, i, weights, f).value.0 != []
  }

  /** The indices of the bodies among the first n that are in the result, in increasing order. */
  function KeptBodyIndices(bs: seq<(string, seq<RawGroup>)>, n: nat, weights: map<string, real>, f: Simplifier): seq<nat>
    requires n <= |bs|
  {
    if n == 0 then []
    else KeptBodyIndices(bs, n - 1, weights, f) + (if BodyKept(bs, n - 1, weights, f) then [n - 1] else [])
  }

  /** out holds, at the increasing indices idx among the first n bodies, each body that keeps
      a term, with its truncated groups, and no other body. */
  predicate ListsKeptBodies(bs: seq<(string, seq<RawGroup>)>, n: nat, weights: map<string, real>, f: Simplifier,
                            out: seq<(string, seq<Group>)>, idx: seq<nat>)
    requires n <= |bs|
  {
    && |idx| == |out|
    && (forall i :: 0 <= i < |idx| ==>
          && idx[i] < n && BodyKept(bs, idx[i], weights, f)
          && out[i] == (bs[idx[i]].0, BodyGroups(bs, idx[i], weights, f).value.0))
    && (forall i, k :: 0 <= i < k < |idx| ==> idx[i] < idx[k])
    && (forall j :: 0 <= j < n && BodyKept(bs, j, weights, f) ==> j in idx)
  }

  /** The body names of the series are distinct, as the keys of a JSON object are. */
  predicate DistinctNames(bs: seq<(string, seq<RawGroup>)>) {
    forall i, j :: 0 <= i < j < |bs| ==> bs[i].0 != bs[j].0
  }

  /** Completeness and order: the result lists every body that keeps a term, in input order,
      with its truncated groups, and nothing else. */
  lemma {:induction false} TruncateBodiesComplete(bs: seq<(string, seq<RawGroup>)>, n: nat, weights: map<string, real>, f: Simplifier)
    requires n <= |bs| && TruncateBodies(bs, n, weights, f).Ok?
    ensures ListsKeptBodies(bs, n, weights, f, TruncateBodies(bs, n, weights, f).value.0, KeptBodyIndices(bs, n, weights, f))
  {
    if n > 0 {
      TruncateBodiesComplete(bs, n - 1, weights, f);
      var acc, idx := TruncateBodies(bs, n - 1, weights, f).value.0, KeptBodyIndices(bs, n - 1, weights, f);
      var out, idx' := TruncateBodies(bs, n, weights, f).value.0, KeptBodyIndices(bs, n, weights, f);
      if BodyKept(bs, n - 1, weights, f) {
        assert out == acc + [(bs[n - 1].0, BodyGroups(bs, n - 1, weights, f).value.0)];
        assert idx' == idx + [n - 1];
        forall i | 0 <= i < |idx'|
          ensures idx'[i] < n && BodyKept(bs, idx'[i], weights, f)
          ensures out[i] == (bs[idx'[i]].0, BodyGroups(bs, idx'[i], weights, f).value.0)
        {
          if i < |idx| {
            assert idx'[i] == idx[i] && out[i] == acc[i];
          }
        }
        forall i, k | 0 <= i < k < |idx'|
          ensures idx'[i] < idx'[k]
        {
          if k < |idx| {
            assert idx'[i] == idx[i] && idx'[k] == idx[k];
          } else {
            assert idx'[i] == idx[i];
          }
        }
        forall j | 0 <= j < n && BodyKept(bs, j, weights, f)
          ensures j in idx'
        {
          if j < n - 1 {
            assert j in idx;
          } else {
            assert idx'[|idx|] == j;
          }
        }
      } else {
        assert out == acc && idx' == idx;
      }
    }
  }

  /** term_count holds, for each listed body, the number of terms its groups hold. */
  predicate CountsMatch(out: seq<(string, seq<Group>)>, counts: map<string, nat>) {
    forall i :: 0 <= i < |out| ==> out[i].0 in counts && counts[out[i].0] == TermsIn(out[i].1)
  }

  /** With distinct names, the body at n - 1 is neither listed nor counted yet. */
  lemma NameIsNew(bs: seq<(string, seq<RawGroup>)>, n: nat, weights: map<string, real>,
                  out: seq<(string, seq<Group>)>, counts: map<string, nat>)
    requires 0 < n <= |bs| && DistinctNames(bs) && BodiesShape(bs, n - 1, weights, out, counts)
    ensures bs[n - 1].0 !in counts
    ensures forall i :: 0 <= i < |out| ==> out[i].0 != bs[n - 1].0
  {
    forall nm | nm in counts
      ensures nm != bs[n - 1].0
    {
      var j :| 0 <= j < n - 1 && bs[j].0 == nm;
    }
    forall i | 0 <= i < |out|
      ensures out[i].0 != bs[n - 1].0
    {
      var j :| 0 <= j < n - 1 && bs[j].0 == out[i].0;
    }
  }

  /** Listing a new body with its groups, and counting its terms, keeps the counts matched. */
  lemma CountsMatchStep(out: seq<(string, seq<Group>)>, counts: map<string, nat>, name: string,
                        groups: seq<Group>, terms: nat)
    requires CountsMatch(out, counts) && name !in counts
    requires forall i :: 0 <= i < |out| ==> out[i].0 != name
    requires terms == TermsIn(groups) && (terms == 0 <==> groups == [])
    ensures CountsMatch(if groups == [] then out else out + [(name, groups)], Bump(counts, name, terms))
  {
    if groups != [] {
      var out' := out + [(name, groups)];
      forall i | 0 <= i < |out'|
        ensures out'[i].0 in Bump(counts, name, terms) && Bump(counts, name, terms)[out'[i].0] == TermsIn(out'[i].1)
      {
        if i < |out| {
          assert out'[i] == out[i];
        }
      }
    }
  }

  /** With distinct body names, term_count holds, for each body of the result, the number
      of terms kept in its groups. */
  lemma {:induction false} TruncateBodiesCounts(bs: seq<(string, seq<RawGroup>)>, n: nat, weights: map<string, real>, f: Simplifier)
    requires n <= |bs| && TruncateBodies(bs, n, weights, f).Ok? && DistinctNames(bs)
    ensures CountsMatch(TruncateBodies(bs, n, weights, f).value.0, TruncateBodies(bs, n, weights, f).value.1)
  {
    if n > 0 {
      TruncateBodiesCounts(bs, n - 1, weights, f);
      var acc := TruncateBodies(bs, n - 1, weights, f).value;
      var name := bs[n - 1].0;
      if name != Earth {
        TruncateBodiesSound(bs, n - 1, weights, f);
        NameIsNew(bs, n, weights, acc.0, acc.1);
        var gs := bs[n - 1].1;
        var r := BodyGroups(bs, n - 1, weights, f).value;
        TruncateGroupsSound(gs, |gs|, weights[name] * ThresholdBase, f);
        TermsInPositive(r.0);
        CountsMatchStep(acc.0, acc.1, name, r.0, r.1);
      }
    }
  }

  /** What truncate_series' loops produce: the bodies that keep a term, in input order, with
      their truncated groups; never EARTH; each with a weight and well-formed groups; a term
      count for exactly the listed bodies, which with distinct body names is the number of
      terms each keeps. */
  lemma TruncateBodiesShape(bs: seq<(string, seq<RawGroup>)>, n: nat, weights: map<string, real>, f: Simplifier)
    requires n <= |bs| && TruncateBodies(bs, n, weights, f).Ok?
    ensures BodiesShape(bs, n, weights, TruncateBodies(bs, n, weights, f).value.0, TruncateBodies(bs, n, weights, f).value.1)
    ensures ListsKeptBodies(bs, n, weights, f, TruncateBodies(bs, n, weights, f).value.0, KeptBodyIndices(bs, n, weights, f))
    ensures DistinctNames(bs) ==>
      CountsMatch(TruncateBodies(bs, n, weights, f).value.0, TruncateBodies(bs, n, weights, f).value.1)
  {
    TruncateBodiesSound(bs, n, weights, f);
    TruncateBodiesComplete(bs, n, weights, f);
    if DistinctNames(bs) {
      TruncateBodiesCounts(bs, n, weights, f);
    }
  }

  // ---------------------------------------------------------------------------
  // When truncate_series succeeds
  // ---------------------------------------------------------------------------

  /** f succeeds on every term of doubles whose repr reads back, at any limit >= 0. */
  ghost predicate Succeeds(f: Simplifier) {
    forall a: Float64, b: Float64, c: Float64, limit: real, alpha: nat
      :: a.Valid() && b.Valid() && c.Valid() && limit >= 0.0 ==> f(a, b, c, limit, alpha).Ok?
  }

  lemma SimplifySucceeds()
    ensures Succeeds(SimplifyFn)
  {
    forall a: Float64, b: Float64, c: Float64, limit: real, alpha: nat
      | a.Valid() && b.Valid() && c.Valid() && limit >= 0.0
      ensures SimplifyFn(a, b, c, limit, alpha).Ok?
    {
      SimplifyDrops(a, b, c, limit, alpha);
    }
  }

  predicate ValidCoeffs(cs: seq<Float64>) {
    forall i :: 0 <= i < |cs| ==> cs[i].Valid()
  }

  predicate ValidRows(rows: seq<Row>) {
    forall k :: 0 <= k < |rows| ==> rows[k].0.Valid() && rows[k].1.Valid() && rows[k].2.Valid()
  }

  /** The rows of valid doubles hold valid doubles. */
  lemma {:induction false} ReshapeValid(cs: seq<Float64>)
    requires ValidCoeffs(cs) && Reshape(cs).Some?
    ensures ValidRows(Reshape(cs).value)
    decreases |cs|
  {
    if cs != [] {
      ReshapeValid(cs[3..]);
      var rows := Reshape(cs).value;
      forall k | 0 <= k < |rows|
        ensures rows[k].0.Valid() && rows[k].1.Valid() && rows[k].2.Valid()
      {
        if k > 0 {
          assert rows[k] == Reshape(cs[3..]).value[k - 1];
        }
      }
    }
  }

  /** One step of the fold over the terms: it succeeds when the terms so far and this term do. */
  lemma KeptOkStep(rows: seq<Row>, k: nat, limit: real, alpha: nat, f: Simplifier, t: Result<Term>)
    requires k < |rows| && t == f(rows[k].0, rows[k].1, rows[k].2, limit, alpha)
    ensures KeptCoeffs(rows, k + 1, limit, alpha, f).Ok? <==> KeptCoeffs(rows, k, limit, alpha, f).Ok? && t.Ok?
  {
  }

  /** The terms of a group fail exactly when one of them fails to simplify. */
  lemma {:induction false} KeptCoeffsOk(rows: seq<Row>, n: nat, limit: real, alpha: nat, f: Simplifier)
    requires n <= |rows|
    ensures KeptCoeffs(rows, n, limit, alpha, f).Ok?
      <==> forall k :: 0 <= k < n ==> f(rows[k].0, rows[k].1, rows[k].2, limit, alpha).Ok?
  {
    if n > 0 {
      KeptCoeffsOk(rows, n - 1, limit, alpha, f);
      KeptOkStep(rows, n - 1, limit, alpha, f, f(rows[n - 1].0, rows[n - 1].1, rows[n - 1].2, limit, alpha));
    }
  }

  /** A group of valid doubles, under a simplifier that succeeds on them, fails only on the
      reshape. */
  lemma TruncateGroupOk(g: RawGroup, limit: real, f: Simplifier)
    requires ValidCoeffs(g.coeffs) && Succeeds(f) && limit >= 0.0
    ensures TruncateGroup(g, limit, f).Ok? <==> |g.coeffs| % 3 == 0
  {
    ReshapeFlatten(g.coeffs);
    if |g.coeffs| % 3 == 0 {
      ReshapeValid(g.coeffs);
      var rows := Reshape(g.coeffs).value;
      forall k | 0 <= k < |rows|
        ensures f(rows[k].0, rows[k].1, rows[k].2, limit, g.alpha).Ok?
      {
        SucceedsOn(f, rows[k].0, rows[k].1, rows[k].2, limit, g.alpha);
      }
      KeptCoeffsOk(rows, |rows|, limit, g.alpha, f);
    }
  }

  lemma SucceedsOn(f: Simplifier, a: Float64, b: Float64, c: Float64, limit: real, alpha: nat)
    requires Succeeds(f) && a.Valid() && b.Valid() && c.Valid() && limit >= 0.0
    ensures f(a, b, c, limit, alpha).Ok?
  {
  }

  /** One step of the fold over the groups: it succeeds when the groups so far and this one do. */
  lemma GroupsOkStep(gs: seq<RawGroup>, j: nat, limit: real, f: Simplifier, kept: Result<seq<FormattedFloat>>)
    requires j < |gs| && kept == TruncateGroup(gs[j], limit, f)
    ensures TruncateGroups(gs, j + 1, limit, f).Ok? <==> TruncateGroups(gs, j, limit, f).Ok? && kept.Ok?
  {
  }

  /** A body fails exactly when one of its groups fails. */
  lemma {:induction false} TruncateGroupsOk(gs: seq<RawGroup>, n: nat, limit: real, f: Simplifier)
    requires n <= |gs|
    ensures TruncateGroups(gs, n, limit, f).Ok? <==> forall j :: 0 <= j < n ==> TruncateGroup(gs[j], limit, f).Ok?
  {
    if n > 0 {
      TruncateGroupsOk(gs, n - 1, limit, f);
      GroupsOkStep(gs, n - 1, limit, f, TruncateGroup(gs[n - 1], limit, f));
    }
  }

  /** Every group's coefficients are doubles whose repr reads back. */
  predicate ValidGroups(gs: seq<RawGroup>) {
    forall j :: 0 <= j < |gs| ==> ValidCoeffs(gs[j].coeffs)
  }

  /** Every group's coefficients come in threes. */
  predicate InThrees(gs: seq<RawGroup>) {
    forall j :: 0 <= j < |gs| ==> |gs[j].coeffs| % 3 == 0
  }

  /** Every body's groups hold doubles whose repr reads back. */
  predicate ValidBodies(bs: seq<(string, seq<RawGroup>)>) {
    forall i :: 0 <= i < |bs| ==> ValidGroups(bs[i].1)
  }

  /** What truncate_series needs of its input: each body is EARTH, or has a weight and its
      groups' coefficients in threes. */
  predicate Truncatable(bs: seq<(string, seq<RawGroup>)>, weights: map<string, real>) {
    forall i :: 0 <= i < |bs| ==> bs[i].0 == Earth || (bs[i].0 in weights && InThrees(bs[i].1))
  }

  /** The groups of the body at i, at that body's limit. */
  function BodyGroups(bs: seq<(string, seq<RawGroup>)>, i: nat, weights: map<string, real>, f: Simplifier)
    : Result<(seq<Group>, nat)>
    requires i < |bs| && bs[i].0 in weights
  {
    TruncateGroups(bs[i].1, |bs[i].1|, weights[bs[i].0] * ThresholdBase, f)
  }

  /** One step of the fold over the bodies. */
  lemma BodiesOkStep(bs: seq<(string, seq<RawGroup>)>, i: nat, weights: map<string, real>, f: Simplifier)
    requires i < |bs|
    ensures TruncateBodies(bs, i + 1, weights, f).Ok?
      <==> TruncateBodies(bs, i, weights, f).Ok?
           && (bs[i].0 == Earth || (bs[i].0 in weights && BodyGroups(bs, i, weights, f).Ok?))
  {
  }

  /** The series fails exactly when a body other than EARTH has no weight or fails. */
  lemma {:induction false} TruncateBodiesOk(bs: seq<(string, seq<RawGroup>)>, n: nat, weights: map<string, real>, f: Simplifier)
    requires n <= |bs|
    ensures TruncateBodies(bs, n, weights, f).Ok?
      <==> forall i :: 0 <= i < n ==> bs[i].0 == Earth || (bs[i].0 in weights && BodyGroups(bs, i, weights, f).Ok?)
  {
    if n > 0 {
      TruncateBodiesOk(bs, n - 1, weights, f);
      BodiesOkStep(bs, n - 1, weights, f);
    }
  }

  /** A body of valid doubles with a positive weight fails only on a group whose coefficients
      do not come in threes. */
  lemma BodyGroupsOk(bs: seq<(string, seq<RawGroup>)>, i: nat, weights: map<string, real>, f: Simplifier)
    requires i < |bs| && bs[i].0 in weights && weights[bs[i].0] > 0.0
    requires ValidGroups(bs[i].1) && Succeeds(f)
    ensures BodyGroups(bs, i, weights, f).Ok? <==> InThrees(bs[i].1)
  {
    var gs, limit := bs[i].1, weights[bs[i].0] * ThresholdBase;
    TruncateGroupsOk(gs, |gs|, limit, f);
    forall j | 0 <= j < |gs|
      ensures TruncateGroup(gs[j], limit, f).Ok? <==> |gs[j].coeffs| % 3 == 0
    {
      TruncateGroupOk(gs[j], limit, f);
    }
  }

  /** truncate_series on a series of doubles: it fails exactly when a body other than EARTH has
      no weight or a group whose coefficients do not come in threes; otherwise the comment
      names T_MAX and THRESHOLD_EXP, the matrix passes through, and the bodies have the shape
      BodiesShape describes. */
  lemma TruncateSeriesResult<M>(raw: RawSeries<M>)
    requires ValidBodies(raw.bodies)
    ensures TruncateSeriesSpec(raw).Ok? <==> Truncatable(raw.bodies, ThresholdWeight)
    ensures TruncateSeriesSpec(raw).Ok? ==>
      var (t, counts) := TruncateSeriesSpec(raw).value;
      && t.comment == Comment && t.matrix == raw.matrix
      && BodiesShape(raw.bodies, |raw.bodies|, ThresholdWeight, t.bodies, counts)
      && ListsKeptBodies(raw.bodies, |raw.bodies|, ThresholdWeight, SimplifyFn, t.bodies,
                         KeptBodyIndices(raw.bodies, |raw.bodies|, ThresholdWeight, SimplifyFn))
      && (DistinctNames(raw.bodies) ==> CountsMatch(t.bodies, counts))
  {
    TruncateSeriesOk(raw);
    if TruncateSeriesSpec(raw).Ok? {
      TruncateBodiesShape(raw.bodies, |raw.bodies|, ThresholdWeight, SimplifyFn);
    }
  }

  /** With the module's weights and simplifier, truncate_series succeeds exactly when every
      body other than EARTH has a weight and its coefficients in threes. */
  lemma TruncateSeriesOk<M>(raw: RawSeries<M>)
    requires ValidBodies(raw.bodies)
    ensures TruncateSeriesSpec(raw).Ok? <==> Truncatable(raw.bodies, ThresholdWeight)
  {
    var bs := raw.bodies;
    ThresholdWeights();
    SimplifySucceeds();
    TruncateBodiesOk(bs, |bs|, ThresholdWeight, SimplifyFn);
    forall i | 0 <= i < |bs| && bs[i].0 != Earth && bs[i].0 in ThresholdWeight
      ensures BodyGroups(bs, i, ThresholdWeight, SimplifyFn).Ok? <==> InThrees(bs[i].1)
    {
      BodyGroupsOk(bs, i, ThresholdWeight, SimplifyFn);
    }
  }
}
