/** mpp02_truncate.py: each term c0 t^alpha sin(c1 + c2 t + c3 t^2 + c4 t^3 + c5 t^4) of the
    ELP/MPP02 lunar series gets, coefficient by coefficient, the simplest number within a
    leeway that keeps the term within a per-coordinate limit over |t| <= T_MAX (the
    magnitude-scan simplifier of tools.py); a term whose amplitude simplifies to zero is
    dropped, and so is a group left without terms. */
module Mpp02Truncate {
  import opened Outcomes
  import opened DecimalText
  import Tools

  type PyValue = Tools.PyValue

  const TMax: real := 30.0
  const ThresholdExp: nat := 7
  /** np.power(10.0, -THRESHOLD_EXP) */
  const Threshold: real := 0.0000001
  /** tools.ARCSEC = pi / 180 / 3600, with pi the double 3.141592653589793. */
  const ArcSec: real := 3.141592653589793 / 180.0 / 3600.0
  /** The mean Earth-Moon distance in km, the unit of coordinate 2. */
  const MoonDistance: real := 384399.0

  /** The limit for one term: coordinates 0 and 1 (longitude and latitude, in arcseconds)
      are normalised to the unit sphere by THRESHOLD / ARCSEC, coordinate 2 (distance, in km)
      by THRESHOLD * 384399. */
  function Limit(coord: int): real {
    if coord != 2 then Threshold / ArcSec else Threshold * MoonDistance
  }

  /** Every coordinate has a positive limit; the angles share theirs. */
  lemma Limits(coord: int)
    ensures Limit(coord) > 0.0
    ensures coord != 2 ==> Limit(coord) == Limit(0) && Limit(0) * ArcSec == Threshold
    ensures Limit(2) == 0.0384399
  {
  }

  // ---------------------------------------------------------------------------
  // simplify
  // ---------------------------------------------------------------------------

  /** leeway0 = limit * T_MAX^-alpha: how far the amplitude c0 may move. */
  function Leeway0(limit: real, alpha: nat): real {
    PowerPositive(TMax, alpha);
    limit / Power(TMax, alpha)
  }

  /** leeway0 * T_MAX^-k / |c0|: how far the phase coefficient of t^k may move. */
  function PhaseLeeway(limit: real, alpha: nat, amplitude: real, k: nat): real
    requires amplitude != 0.0
  {
    PowerPositive(TMax, k);
    Leeway0(limit, alpha) / Power(TMax, k) / Tools.Abs(amplitude)
  }

  /** The leeway of coefficient i of a term whose amplitude is c0. */
  function Leeway(c0: real, limit: real, alpha: nat, i: nat): real
    requires c0 != 0.0
  {
    if i == 0 then Leeway0(limit, alpha) else PhaseLeeway(limit, alpha, c0, i - 1)
  }

  /** convert_integer_floats(simplest_float_in(v, v - leeway, v + leeway)) */
  function Simplest(v: real, leeway: real): PyValue {
    Tools.ConvertIntegerFloats(Tools.FloatValue(Tools.SimplestFloatIn(v, v - leeway, v + leeway)))
  }

  /** Python's `v == 0` for an int or a float. */
  predicate EqualsZero(v: PyValue) {
    match v
    case IntValue(i) => i == 0
    case FloatValue(f) => f == 0.0
    case OtherValue(_) => false
  }

  /** The number an int or a float stands for. */
  function Number(v: PyValue): real
    requires !v.OtherValue?
  {
    if v.IntValue? then v.i as real else v.f
  }

  /** [0, 0, 0, 0, 0, 0] */
  const SixZeros: seq<PyValue> := seq(6, _ => Tools.IntValue(0))

  /** simplify(c, alpha, limit): six int zeros for a zero amplitude; otherwise each
      coefficient replaced by the simplest number within its leeway. */
  function SimplifySpec(c: seq<real>, alpha: nat, limit: real): (r: seq<PyValue>)
    requires |c| == 6
  {
    if c[0] == 0.0 then SixZeros
    else seq(6, i requires 0 <= i < 6 => Simplest(c[i], Leeway(c[0], limit, alpha, i)))
  }

  /** simplify: the amplitude first, then the five phase coefficients in a loop, and the
      integral floats turned into ints at the end. */
  method Simplify(c: seq<real>, alpha: nat, limit: real) returns (r: seq<PyValue>)
    requires |c| == 6
    ensures r == SimplifySpec(c, alpha, limit)
  {
    if c[0] == 0.0 {
      return SixZeros;
    }
    var leeway0 := Leeway0(limit, alpha);
    var cNew := [Tools.SimplestFloatIn(c[0], c[0] - leeway0, c[0] + leeway0)];
    for k := 0 to 5
      invariant |cNew| == k + 1
      invariant forall i :: 0 <= i <= k ==>
        cNew[i] == Tools.SimplestFloatIn(c[i], c[i] - Leeway(c[0], limit, alpha, i), c[i] + Leeway(c[0], limit, alpha, i))
    {
      PowerPositive(TMax, k);
      var leeway := leeway0 / Power(TMax, k) / Tools.Abs(c[0]);
      assert leeway == Leeway(c[0], limit, alpha, k + 1);
      cNew := cNew + [Tools.SimplestFloatIn(c[k + 1], c[k + 1] - leeway, c[k + 1] + leeway)];
    }
    r := seq(6, i requires 0 <= i < 6 => Tools.ConvertIntegerFloats(Tools.FloatValue(cNew[i])));
  }

  lemma MulDivCancel(u: real, p: real)
    requires p > 0.0
    ensures u / p * p == u
  {
  }

  /** The sensitivity budget: moving c0 by leeway0 changes the term by at most
      leeway0 T_MAX^alpha = limit, and moving the coefficient of t^k inside the sine by its
      leeway changes it by at most |c0| T_MAX^alpha * leeway * T_MAX^k = limit. */
  lemma LeewayBudget(limit: real, alpha: nat, amplitude: real, k: nat)
    requires amplitude != 0.0
    ensures Leeway0(limit, alpha) * Power(TMax, alpha) == limit
    ensures PhaseLeeway(limit, alpha, amplitude, k) * Tools.Abs(amplitude) * Power(TMax, alpha + k) == limit
  {
    var p, q, m := Power(TMax, alpha), Power(TMax, k), Tools.Abs(amplitude);
    PowerPositive(TMax, alpha);
    PowerPositive(TMax, k);
    PowerAdd(TMax, alpha, k);
    var l0 := limit / p;
    var a := l0 / q;
    var b := a / m;
    assert PhaseLeeway(limit, alpha, amplitude, k) == b;
    MulDivCancel(limit, p);
    MulDivCancel(a, m);
    MulDivCancel(l0, q);
    calc {
      b * m * (p * q);
      a * (p * q);
      { MulAssoc(a, p, q); }
      a * q * p;
      l0 * p;
    }
  }

  lemma MulAssoc(a: real, p: real, q: real)
    ensures a * (p * q) == a * q * p
  {
  }

  lemma ShrinkQuotient(u: real, p: real, m: real)
    requires u >= 0.0 && p > 0.0 && m > 0.0
    ensures 0.0 <= u / (TMax * p) / m <= u / p / m
  {
    var v := u / p;
    assert u / (TMax * p) == v / TMax;
    assert v >= 0.0;
    assert v / TMax <= v;
    assert v / TMax / m <= v / m;
  }

  /** With T_MAX > 1 the leeways are non-negative and shrink as the power of t grows. */
  lemma LeewaysShrink(limit: real, alpha: nat, amplitude: real, k: nat)
    requires amplitude != 0.0 && limit >= 0.0
    ensures 0.0 <= Leeway0(limit, alpha)
    ensures 0.0 <= PhaseLeeway(limit, alpha, amplitude, k + 1) <= PhaseLeeway(limit, alpha, amplitude, k)
  {
    PowerPositive(TMax, alpha);
    PowerPositive(TMax, k);
    assert Power(TMax, k + 1) == TMax * Power(TMax, k);
    ShrinkQuotient(Leeway0(limit, alpha), Power(TMax, k), Tools.Abs(amplitude));
  }

  /** A zero amplitude gives six int zeros, whatever the other coefficients. */
  lemma SimplifyZero(c: seq<real>, alpha: nat, limit: real)
    requires |c| == 6 && c[0] == 0.0
    ensures SimplifySpec(c, alpha, limit) == SixZeros
    ensures forall i :: 0 <= i < 6 ==> EqualsZero(SimplifySpec(c, alpha, limit)[i])
  {
  }

  /** A converted float keeps its value. */
  lemma ConvertedNumber(f: real)
    ensures !Tools.ConvertIntegerFloats(Tools.FloatValue(f)).OtherValue?
    ensures Number(Tools.ConvertIntegerFloats(Tools.FloatValue(f))) == f
  {
  }

  /** The simplest number within a non-negative leeway of v lies within it, and reads as 0
      exactly when 0 does. */
  lemma SimplestWithin(v: real, leeway: real)
    requires leeway >= 0.0
    ensures !Simplest(v, leeway).OtherValue?
    ensures v - leeway <= Number(Simplest(v, leeway)) <= v + leeway
    ensures EqualsZero(Simplest(v, leeway)) <==> Tools.Abs(v) <= leeway
  {
    var s := Tools.SimplestFloatIn(v, v - leeway, v + leeway);
    Tools.SimplestWithin(v, v - leeway, v + leeway);
    ConvertedNumber(s);
    if Tools.Abs(v) <= leeway {
      Tools.SimplestEarlyExits(v, v - leeway, v + leeway);
    }
  }

  /** Each coefficient of a term with a non-zero amplitude moves by at most its leeway. */
  lemma SimplifyWithin(c: seq<real>, alpha: nat, limit: real)
    requires |c| == 6 && c[0] != 0.0 && limit >= 0.0
    ensures var r := SimplifySpec(c, alpha, limit);
      forall i :: 0 <= i < 6 ==>
        && !r[i].OtherValue?
        && c[i] - Leeway(c[0], limit, alpha, i) <= Number(r[i]) <= c[i] + Leeway(c[0], limit, alpha, i)
  {
    var r := SimplifySpec(c, alpha, limit);
    forall i | 0 <= i < 6
      ensures !r[i].OtherValue?
      ensures c[i] - Leeway(c[0], limit, alpha, i) <= Number(r[i]) <= c[i] + Leeway(c[0], limit, alpha, i)
    {
      if i == 0 {
        LeewaysShrink(limit, alpha, c[0], 0);
      } else {
        LeewaysShrink(limit, alpha, c[0], i - 1);
      }
      SimplestWithin(c[i], Leeway(c[0], limit, alpha, i));
    }
  }

  /** A term is dropped (its new amplitude == 0) exactly when |c0| <= leeway0. */
  lemma SimplifyDrops(c: seq<real>, alpha: nat, limit: real)
    requires |c| == 6 && limit >= 0.0
    ensures EqualsZero(SimplifySpec(c, alpha, limit)[0]) <==> Tools.Abs(c[0]) <= Leeway0(limit, alpha)
  {
    PowerPositive(TMax, alpha);
    if c[0] != 0.0 {
      LeewaysShrink(limit, alpha, c[0], 0);
      SimplestWithin(c[0], Leeway0(limit, alpha));
    }
  }

  /** Every result is an int, or a float with a fractional part. */
  lemma SimplifyIntegral(c: seq<real>, alpha: nat, limit: real)
    requires |c| == 6
    ensures var r := SimplifySpec(c, alpha, limit);
      forall i :: 0 <= i < 6 ==> r[i].IntValue? || (r[i].FloatValue? && r[i].f != r[i].f.Floor as real)
  {
  }

  // ---------------------------------------------------------------------------
  // truncate_series
  // ---------------------------------------------------------------------------

  /** A group of the series: its coordinate, its power of t, and its coefficients, six per
      term (reals in the raw series, ints and floats after truncation). */
  datatype Group<C> = Group(coord: int, alpha: nat, coeffs: seq<C>)

  /** The series: its comment, the polynomial W passed through, and the groups. */
  datatype Series<C, W> = Series(comment: string, w: W, groups: seq<Group<C>>)

  /** f' :: Truncated ({T_MAX=}, {THRESHOLD=})' */
  const Suffix: string := " :: Truncated (T_MAX=30.0, THRESHOLD=1e-07)"

  /** A row of the reshaped coefficients: one term. */
  predicate Sixes(rows: seq<seq<real>>) {
    forall k :: 0 <= k < |rows| ==> |rows[k]| == 6
  }

  /** numpy's reshape(-1, 6): the coefficients in rows of six, when their count allows. */
  function Reshape(cs: seq<real>): (r: Option<seq<seq<real>>>)
    ensures r.Some? ==> Sixes(r.value)
    decreases |cs|
  {
    if cs == [] then Some([])
    else if |cs| < 6 then None
    else
      match Reshape(cs[6..])
      case None => None
      case Some(rows) => Some([cs[..6]] + rows)
  }

  /** The rows read back in order. */
  function Flatten(rows: seq<seq<real>>): seq<real> {
    if rows == [] then [] else rows[0] + Flatten(rows[1..])
  }

  /** The reshape succeeds exactly when the count is a multiple of six, and then reading the
      rows back gives the coefficients. */
  lemma {:induction false} ReshapeFlatten(cs: seq<real>)
    ensures Reshape(cs).Some? <==> |cs| % 6 == 0
    ensures Reshape(cs).Some? ==> Flatten(Reshape(cs).value) == cs && 6 * |Reshape(cs).value| == |cs|
    decreases |cs|
  {
    if |cs| >= 6 {
      ReshapeFlatten(cs[6..]);
      if Reshape(cs).Some? {
        var rows := Reshape(cs).value;
        assert rows[1..] == Reshape(cs[6..]).value;
        assert cs == cs[..6] + cs[6..];
      }
    }
  }

  /** The coefficients kept from the first n rows: simplified, and left out when the new
      amplitude reads as 0. */
  function KeptCoeffs(rows: seq<seq<real>>, n: nat, coord: int, alpha: nat): seq<PyValue>
    requires n <= |rows| && Sixes(rows)
  {
    if n == 0 then []
    else
      var kept := KeptCoeffs(rows, n - 1, coord, alpha);
      var cNew := SimplifySpec(rows[n - 1], alpha, Limit(coord));
      if EqualsZero(cNew[0]) then kept else kept + cNew
  }

  /** One group: the reshape fails unless the count is a multiple of six. */
  function TruncateGroup(g: Group<real>): Result<seq<PyValue>> {
    match Reshape(g.coeffs)
    case None => Err(ValueError)
    case Some(rows) => Ok(KeptCoeffs(rows, |rows|, g.coord, g.alpha))
  }

  /** The first n groups, those left without terms omitted. */
  function TruncateGroups(gs: seq<Group<real>>, n: nat): Result<seq<Group<PyValue>>>
    requires n <= |gs|
  {
    if n == 0 then Ok([])
    else
      match TruncateGroups(gs, n - 1)
      case Err(e) => Err(e)
      case Ok(acc) =>
        var g := gs[n - 1];
        match TruncateGroup(g)
        case Err(e) => Err(e)
        case Ok(kept) => Ok(if kept == [] then acc else acc + [Group(g.coord, g.alpha, kept)])
  }

  /** truncate_series: the truncated groups, W passed through, the comment extended. */
  function TruncateSeriesSpec<W>(raw: Series<real, W>): Result<Series<PyValue, W>> {
    match TruncateGroups(raw.groups, |raw.groups|)
    case Err(e) => Err(e)
    case Ok(groups) => Ok(Series(raw.comment + Suffix, raw.w, groups))
  }

  /** One step of the fold over the terms. */
  lemma KeptStep(rows: seq<seq<real>>, k: nat, coord: int, alpha: nat, kept: seq<PyValue>, cNew: seq<PyValue>, kept': seq<PyValue>)
    requires k < |rows| && Sixes(rows) && KeptCoeffs(rows, k, coord, alpha) == kept
    requires cNew == SimplifySpec(rows[k], alpha, Limit(coord))
    requires kept' == if EqualsZero(cNew[0]) then kept else kept + cNew
    ensures KeptCoeffs(rows, k + 1, coord, alpha) == kept'
  {
  }

  /** The loop over the terms of one group. */
  method TruncateTerms(g: Group<real>) returns (r: Result<seq<PyValue>>)
    ensures r == TruncateGroup(g)
  {
    var reshaped := Reshape(g.coeffs);
    if reshaped.None? {
      return Err(ValueError);
    }
    var rows := reshaped.value;
    var coeffsTruncated: seq<PyValue> := [];
    var k := 0;
    while k < |rows|
      invariant k <= |rows|
      invariant KeptCoeffs(rows, k, g.coord, g.alpha) == coeffsTruncated
    {
      var limit := Limit(g.coord);
      var cNew := Simplify(rows[k], g.alpha, limit);
      ghost var kept0 := coeffsTruncated;
      if !EqualsZero(cNew[0]) {
        coeffsTruncated := coeffsTruncated + cNew;
      }
      KeptStep(rows, k, g.coord, g.alpha, kept0, cNew, coeffsTruncated);
      k := k + 1;
    }
    r := Ok(coeffsTruncated);
  }

  /** Once a group fails, the series fails with that error. */
  lemma {:induction false} GroupsErrorStays(gs: seq<Group<real>>, m: nat, n: nat)
    requires m <= n <= |gs| && TruncateGroups(gs, m).Err?
    ensures TruncateGroups(gs, n) == TruncateGroups(gs, m)
    decreases n
  {
    if m < n {
      GroupsErrorStays(gs, m, n - 1);
    }
  }

  /** truncate_series: the loop over the groups, then the comment and W. */
  method TruncateSeries<W>(raw: Series<real, W>) returns (r: Result<Series<PyValue, W>>)
    ensures r == TruncateSeriesSpec(raw)
  {
    var gs := raw.groups;
    var groupsTruncated: seq<Group<PyValue>> := [];
    var j := 0;
    while j < |gs|
      invariant j <= |gs|
      invariant TruncateGroups(gs, j) == Ok(groupsTruncated)
    {
      var g := gs[j];
      var coeffsTruncated := TruncateTerms(g);
      if coeffsTruncated.Err? {
        assert TruncateGroups(gs, j + 1) == Err(coeffsTruncated.error);
        GroupsErrorStays(gs, j + 1, |gs|);
        return Err(coeffsTruncated.error);
      }
      if coeffsTruncated.value != [] {
        groupsTruncated := groupsTruncated + [Group(g.coord, g.alpha, coeffsTruncated.value)];
      }
      j := j + 1;
    }
    var comment := raw.comment + Suffix;
    r := Ok(Series(comment, raw.w, groupsTruncated));
  }

  // ---------------------------------------------------------------------------
  // What truncate_series produces
  // ---------------------------------------------------------------------------

  /** The number of terms of the first n rows with |c0| > leeway0: the ones kept. */
  function NumKept(rows: seq<seq<real>>, n: nat, coord: int, alpha: nat): nat
    requires n <= |rows| && Sixes(rows)
  {
    if n == 0 then 0
    else NumKept(rows, n - 1, coord, alpha) + (if Tools.Abs(rows[n - 1][0]) > Leeway0(Limit(coord), alpha) then 1 else 0)
  }

  /** Kept coefficients come in sixes, and every amplitude among them (each sixth one, from
      the first) is an int or float other than 0. */
  predicate KeptShape(kept: seq<PyValue>) {
    && |kept| % 6 == 0
    && forall i :: 0 <= i < |kept| && i % 6 == 0 ==> !EqualsZero(kept[i])
  }

  /** The terms kept are exactly those with |c0| > leeway0, six coefficients each. */
  lemma {:induction false} KeptCoeffsShape(rows: seq<seq<real>>, n: nat, coord: int, alpha: nat)
    requires n <= |rows| && Sixes(rows)
    ensures KeptShape(KeptCoeffs(rows, n, coord, alpha))
    ensures |KeptCoeffs(rows, n, coord, alpha)| == 6 * NumKept(rows, n, coord, alpha)
  {
    if n > 0 {
      KeptCoeffsShape(rows, n - 1, coord, alpha);
      Limits(coord);
      SimplifyDrops(rows[n - 1], alpha, Limit(coord));
      var kept := KeptCoeffs(rows, n - 1, coord, alpha);
      var cNew := SimplifySpec(rows[n - 1], alpha, Limit(coord));
      if !EqualsZero(cNew[0]) {
        KeptShapeAppend(kept, cNew);
      }
    }
  }

  /** Appending a kept term keeps the shape. */
  lemma KeptShapeAppend(kept: seq<PyValue>, cNew: seq<PyValue>)
    requires KeptShape(kept) && |cNew| == 6 && !EqualsZero(cNew[0])
    ensures KeptShape(kept + cNew)
  {
    var next := kept + cNew;
    forall i | 0 <= i < |next| && i % 6 == 0
      ensures !EqualsZero(next[i])
    {
      if i < |kept| {
        assert next[i] == kept[i];
      } else {
        assert i == |kept|;
      }
    }
  }

  /** The terms in a list of groups: six coefficients each. */
  function TermsOf<C>(gs: seq<Group<C>>): nat {
    if gs == [] then 0 else TermsOf(gs[..|gs| - 1]) + |gs[|gs| - 1].coeffs| / 6
  }

  /** An output group: at least one term, and only kept terms. */
  predicate GoodGroup(g: Group<PyValue>) {
    g.coeffs != [] && KeptShape(g.coeffs)
  }

  /** A group keeps at most the terms it had. */
  lemma TruncateGroupShape(g: Group<real>)
    requires TruncateGroup(g).Ok?
    ensures KeptShape(TruncateGroup(g).value)
    ensures |TruncateGroup(g).value| / 6 <= |g.coeffs| / 6
  {
    var rows := Reshape(g.coeffs).value;
    ReshapeFlatten(g.coeffs);
    KeptCoeffsShape(rows, |rows|, g.coord, g.alpha);
    NumKeptAtMost(rows, |rows|, g.coord, g.alpha);
  }

  lemma {:induction false} NumKeptAtMost(rows: seq<seq<real>>, n: nat, coord: int, alpha: nat)
    requires n <= |rows| && Sixes(rows)
    ensures NumKept(rows, n, coord, alpha) <= n
  {
    if n > 0 {
      NumKeptAtMost(rows, n - 1, coord, alpha);
    }
  }

  /** Soundness: each group has terms, all of them kept, and is the truncation of an input
      group with the same coordinate and alpha; together they hold no more terms than the
      input groups. */
  lemma {:induction false} TruncateGroupsSound(gs: seq<Group<real>>, n: nat)
    requires n <= |gs| && TruncateGroups(gs, n).Ok?
    ensures var out := TruncateGroups(gs, n).value;
      && |out| <= n && AllGood(out) && FromInput(gs, n, out) && TermsOf(out) <= TermsOf(gs[..n])
  {
    if n > 0 {
      TruncateGroupsSound(gs, n - 1);
      var acc := TruncateGroups(gs, n - 1).value;
      var g := gs[n - 1];
      var kept := TruncateGroup(g).value;
      TruncateGroupShape(g);
      assert TermsOf(gs[..n]) == TermsOf(gs[..n - 1]) + |g.coeffs| / 6 by {
        assert gs[..n][..n - 1] == gs[..n - 1];
      }
      var out := if kept == [] then acc else acc + [Group(g.coord, g.alpha, kept)];
      assert TruncateGroups(gs, n) == Ok(out);
      if kept != [] {
        GroupsShapeStep(gs, n, acc, out);
      } else {
        GroupsFromFewer(gs, n, acc);
      }
    }
  }

  /** The groups of a result: in input order, the truncation of every group that keeps a
      term and nothing else; each has terms, all of them kept, and together they hold no more
      terms than the input groups. */
  lemma TruncateGroupsShape(gs: seq<Group<real>>, n: nat)
    requires n <= |gs| && TruncateGroups(gs, n).Ok?
    ensures var out := TruncateGroups(gs, n).value;
      && |out| <= n && AllGood(out) && FromInput(gs, n, out) && TermsOf(out) <= TermsOf(gs[..n])
    ensures ListsKeptGroups(gs, n, TruncateGroups(gs, n).value, KeptGroupIndices(gs, n))
  {
    TruncateGroupsSound(gs, n);
    TruncateGroupsComplete(gs, n);
  }

  /** Every group has terms, all of them kept. */
  predicate AllGood(out: seq<Group<PyValue>>) {
    forall i :: 0 <= i < |out| ==> GoodGroup(out[i])
  }

  /** Every group is the truncation of one of the first n input groups, with the same
      coordinate and alpha. */
  ghost predicate FromInput(gs: seq<Group<real>>, n: nat, out: seq<Group<PyValue>>)
    requires n <= |gs|
  {
    forall i :: 0 <= i < |out| ==> HasOrigin(gs, n, out[i])
  }

  /** o is the truncation of one of the first n input groups. */
  ghost predicate HasOrigin(gs: seq<Group<real>>, n: nat, o: Group<PyValue>)
    requires n <= |gs|
  {
    exists j :: 0 <= j < n && TruncationOf(gs[j], o)
  }

  /** o is what truncating g keeps, under g's coordinate and alpha. */
  predicate TruncationOf(g: Group<real>, o: Group<PyValue>) {
    g.coord == o.coord && g.alpha == o.alpha && TruncateGroup(g) == Ok(o.coeffs)
  }

  /** Appending the truncation of group n - 1 keeps the shape. */
  lemma GroupsShapeStep(gs: seq<Group<real>>, n: nat, acc: seq<Group<PyValue>>, out: seq<Group<PyValue>>)
    requires 0 < n <= |gs| && TruncateGroup(gs[n - 1]).Ok? && TruncateGroup(gs[n - 1]).value != []
    requires KeptShape(TruncateGroup(gs[n - 1]).value)
    requires out == acc + [Group(gs[n - 1].coord, gs[n - 1].alpha, TruncateGroup(gs[n - 1]).value)]
    requires AllGood(acc) && FromInput(gs, n - 1, acc)
    ensures AllGood(out) && FromInput(gs, n, out)
    ensures TermsOf(out) == TermsOf(acc) + |TruncateGroup(gs[n - 1]).value| / 6
  {
    assert out[..|out| - 1] == acc;
    forall i | 0 <= i < |out|
      ensures GoodGroup(out[i])
      ensures HasOrigin(gs, n, out[i])
    {
      if i < |acc| {
        assert out[i] == acc[i];
      } else {
        assert TruncationOf(gs[n - 1], out[i]);
      }
    }
  }

  lemma GroupsFromFewer(gs: seq<Group<real>>, n: nat, acc: seq<Group<PyValue>>)
    requires 0 < n <= |gs| && FromInput(gs, n - 1, acc)
    ensures FromInput(gs, n, acc)
  {
    forall i | 0 <= i < |acc|
      ensures HasOrigin(gs, n, acc[i])
    {
      var j :| 0 <= j < n - 1 && TruncationOf(gs[j], acc[i]);
      assert 0 <= j < n;
    }
  }

  /** The series fails exactly when a group's coefficients do not come in sixes. */
  lemma {:induction false} TruncateGroupsOk(gs: seq<Group<real>>, n: nat)
    requires n <= |gs|
    ensures TruncateGroups(gs, n).Ok? <==> forall j :: 0 <= j < n ==> |gs[j].coeffs| % 6 == 0
  {
    if n > 0 {
      TruncateGroupsOk(gs, n - 1);
      ReshapeFlatten(gs[n - 1].coeffs);
      assert TruncateGroup(gs[n - 1]).Ok? <==> |gs[n - 1].coeffs| % 6 == 0;
      assert (forall j :: 0 <= j < n ==> |gs[j].coeffs| % 6 == 0) <==>
        (forall j :: 0 <= j < n - 1 ==> |gs[j].coeffs| % 6 == 0) && |gs[n - 1].coeffs| % 6 == 0;
    }
  }

  /** The group keeps a term: its truncation succeeds and is not empty. */
  predicate GroupKept(g: Group<real>) {
    TruncateGroup(g).Ok? && TruncateGroup(g).value != []
  }

  /** The indices of the groups among the first n that keep a term, in increasing order. */
  function KeptGroupIndices(gs: seq<Group<real>>, n: nat): seq<nat>
    requires n <= |gs|
  {
    if n == 0 then []
    else KeptGroupIndices(gs, n - 1) + (if GroupKept(gs[n - 1]) then [n - 1] else [])
  }

  /** out holds, at the increasing indices idx among the first n groups, the truncation of
      each group that keeps a term, and of no other group. */
  predicate ListsKeptGroups(gs: seq<Group<real>>, n: nat, out: seq<Group<PyValue>>, idx: seq<nat>)
    requires n <= |gs|
  {
    && |idx| == |out|
    && (forall i :: 0 <= i < |idx| ==>
          && idx[i] < n && GroupKept(gs[idx[i]])
          && out[i] == Group(gs[idx[i]].coord, gs[idx[i]].alpha, TruncateGroup(gs[idx[i]]).value))
    && (forall i, k :: 0 <= i < k < |idx| ==> idx[i] < idx[k])
    && (forall j :: 0 <= j < n && GroupKept(gs[j]) ==> j in idx)
  }

  /** Completeness and order: the result lists the truncation of every group that keeps a
      term, in input order, and nothing else. */
  lemma {:induction false} TruncateGroupsComplete(gs: seq<Group<real>>, n: nat)
    requires n <= |gs| && TruncateGroups(gs, n).Ok?
    ensures ListsKeptGroups(gs, n, TruncateGroups(gs, n).value, KeptGroupIndices(gs, n))
  {
    if n > 0 {
      TruncateGroupsComplete(gs, n - 1);
      var acc, idx := TruncateGroups(gs, n - 1).value, KeptGroupIndices(gs, n - 1);
      var g := gs[n - 1];
      if GroupKept(g) {
        assert TruncateGroups(gs, n).value == acc + [Group(g.coord, g.alpha, TruncateGroup(g).value)];
        ListsKeptGroupsAppend(gs, n, acc, idx);
      } else {
        assert TruncateGroups(gs, n).value == acc;
        ListsKeptGroupsSkip(gs, n, acc, idx);
      }
    }
  }

  /** A group that keeps a term adds its truncation and its index at the end. */
  lemma ListsKeptGroupsAppend(gs: seq<Group<real>>, n: nat, acc: seq<Group<PyValue>>, idx: seq<nat>)
    requires 0 < n <= |gs| && ListsKeptGroups(gs, n - 1, acc, idx) && GroupKept(gs[n - 1])
    ensures var g := gs[n - 1];
      ListsKeptGroups(gs, n, acc + [Group(g.coord, g.alpha, TruncateGroup(g).value)], idx + [n - 1])
  {
    var g := gs[n - 1];
    var out, idx' := acc + [Group(g.coord, g.alpha, TruncateGroup(g).value)], idx + [n - 1];
    forall i | 0 <= i < |idx'|
      ensures idx'[i] < n && GroupKept(gs[idx'[i]])
      ensures out[i] == Group(gs[idx'[i]].coord, gs[idx'[i]].alpha, TruncateGroup(gs[idx'[i]]).value)
    {
      if i < |idx| {
        assert idx'[i] == idx[i] && out[i] == acc[i];
      }
    }
    forall i, k | 0 <= i < k < |idx'|
      ensures idx'[i] < idx'[k]
    {
      assert idx'[i] == idx[i];
      if k < |idx| {
        assert idx'[k] == idx[k];
      }
    }
    forall j | 0 <= j < n && GroupKept(gs[j])
      ensures j in idx'
    {
      if j < n - 1 {
        assert j in idx;
      } else {
        assert idx'[|idx|] == j;
      }
    }
  }

  /** A group that keeps no term changes nothing. */
  lemma ListsKeptGroupsSkip(gs: seq<Group<real>>, n: nat, acc: seq<Group<PyValue>>, idx: seq<nat>)
    requires 0 < n <= |gs| && ListsKeptGroups(gs, n - 1, acc, idx) && !GroupKept(gs[n - 1])
    ensures ListsKeptGroups(gs, n, acc, idx)
  {
  }

  /** Some term of the first n rows has |c0| > leeway0 exactly when a term is kept. */
  lemma {:induction false} NumKeptPositive(rows: seq<seq<real>>, n: nat, coord: int, alpha: nat)
    requires n <= |rows| && Sixes(rows)
    ensures NumKept(rows, n, coord, alpha) > 0
      <==> exists k :: 0 <= k < n && Tools.Abs(rows[k][0]) > Leeway0(Limit(coord), alpha)
  {
    if n > 0 {
      NumKeptPositive(rows, n - 1, coord, alpha);
      if Tools.Abs(rows[n - 1][0]) > Leeway0(Limit(coord), alpha) {
        assert 0 <= n - 1 < n;
      } else {
        assert forall k :: 0 <= k < n && Tools.Abs(rows[k][0]) > Leeway0(Limit(coord), alpha) ==> k < n - 1;
      }
    }
  }

  /** A group whose coefficients come in sixes keeps a term exactly when one of its terms
      has an amplitude larger than leeway0: the groups truncate_series drops are those where
      every amplitude is within its leeway. */
  lemma GroupKeptIff(g: Group<real>)
    requires |g.coeffs| % 6 == 0
    ensures Reshape(g.coeffs).Some?
    ensures GroupKept(g) <==>
      exists k :: 0 <= k < |Reshape(g.coeffs).value|
        && Tools.Abs(Reshape(g.coeffs).value[k][0]) > Leeway0(Limit(g.coord), g.alpha)
  {
    ReshapeFlatten(g.coeffs);
    var rows := Reshape(g.coeffs).value;
    KeptCoeffsShape(rows, |rows|, g.coord, g.alpha);
    NumKeptPositive(rows, |rows|, g.coord, g.alpha);
  }

  /** truncate_series fails exactly when some group's coefficients do not come in sixes;
      otherwise W passes through, the comment gets the suffix, and the groups are those
      TruncateGroupsShape describes. */
  lemma TruncateSeriesResult<W>(raw: Series<real, W>)
    ensures TruncateSeriesSpec(raw).Ok? <==> forall j :: 0 <= j < |raw.groups| ==> |raw.groups[j].coeffs| % 6 == 0
    ensures TruncateSeriesSpec(raw).Ok? ==>
      var t := TruncateSeriesSpec(raw).value;
      && t.w == raw.w && t.comment == raw.comment + Suffix
      && |t.groups| <= |raw.groups| && AllGood(t.groups)
      && FromInput(raw.groups, |raw.groups|, t.groups)
      && TermsOf(t.groups) <= TermsOf(raw.groups)
      && ListsKeptGroups(raw.groups, |raw.groups|, t.groups, KeptGroupIndices(raw.groups, |raw.groups|))
  {
    TruncateGroupsOk(raw.groups, |raw.groups|);
    if TruncateSeriesSpec(raw).Ok? {
      TruncateGroupsShape(raw.groups, |raw.groups|);
      assert raw.groups[..|raw.groups|] == raw.groups;
    }
  }

  // ---------------------------------------------------------------------------
  // count_coeffs
  // ---------------------------------------------------------------------------

  /** A group's key: its coordinate and alpha. The dict spells it as KeyText; two keys
      spell the same text only if they are equal, so the dict is keyed by the pair. */
  datatype GroupKey = GroupKey(coord: int, alpha: nat)

  function Key<C>(g: Group<C>): GroupKey {
    GroupKey(g.coord, g.alpha)
  }

  /** The text f'({coord},{alpha})' of a key. */
  function KeyText(k: GroupKey): (s: string)
    ensures |s| >= 5 && s[0] == '(' && s[|s| - 1] == ')'
  {
    "(" + IntToString(k.coord) + "," + IntToString(k.alpha) + ")"
  }

  /** The position of the first comma in s, or |s| when there is none. */
  function CommaIndex(s: string): nat {
    if s == [] || s[0] == ',' then 0 else 1 + CommaIndex(s[1..])
  }

  lemma {:induction false} CommaIndexAfter(u: string, v: string)
    requires forall i :: 0 <= i < |u| ==> u[i] != ','
    ensures CommaIndex(u + "," + v) == |u|
  {
    if u != [] {
      assert (u + "," + v)[0] == u[0];
      assert (u + "," + v)[1..] == u[1..] + "," + v;
      CommaIndexAfter(u[1..], v);
    }
  }

  /** str() of an integer holds no comma. */
  lemma IntTextNoComma(e: int)
    ensures forall i :: 0 <= i < |IntToString(e)| ==> IntToString(e)[i] != ','
  {
    if e < 0 {
      assert IntToString(e) == "-" + NatToString(-e);
      assert forall i :: 1 <= i < |IntToString(e)| ==> IntToString(e)[i] == NatToString(-e)[i - 1];
    }
  }

  /** "(" + u + "," + v + ")" with no comma in u gives back u and v. */
  lemma PairTextInjective(u1: string, v1: string, u2: string, v2: string)
    requires forall i :: 0 <= i < |u1| ==> u1[i] != ','
    requires forall i :: 0 <= i < |u2| ==> u2[i] != ','
    requires "(" + u1 + "," + v1 + ")" == "(" + u2 + "," + v2 + ")"
    ensures u1 == u2 && v1 == v2
  {
    var s := "(" + u1 + "," + v1 + ")";
    assert s[1..|s| - 1] == u1 + "," + v1;
    assert s[1..|s| - 1] == u2 + "," + v2;
    CommaIndexAfter(u1, v1);
    CommaIndexAfter(u2, v2);
    assert u1 == (u1 + "," + v1)[..|u1|] == u2;
    assert v1 == (u1 + "," + v1)[|u1| + 1..] == v2;
  }

  /** Two keys spell the same text only when they are equal, so a dict keyed by the pair
      (coord, alpha) has the entries of the one keyed by f'({coord},{alpha})'. */
  lemma KeyTextInjective(k1: GroupKey, k2: GroupKey)
    ensures KeyText(k1) == KeyText(k2) ==> k1 == k2
  {
    if KeyText(k1) == KeyText(k2) {
      IntTextNoComma(k1.coord);
      IntTextNoComma(k2.coord);
      PairTextInjective(IntToString(k1.coord), IntToString(k1.alpha), IntToString(k2.coord), IntToString(k2.alpha));
      IntToStringInjective(k1.coord, k2.coord);
      IntToStringInjective(k1.alpha, k2.alpha);
    }
  }

  /** A Python dict from keys to counts, as its entries in insertion order. */
  type Dict = seq<(GroupKey, nat)>

  /** d[key] = v: an existing key keeps its place and takes the new value; a new key goes
      last. */
  function Assign(d: Dict, key: GroupKey, v: nat): Dict {
    if d == [] then [(key, v)]
    else if d[0].0 == key then [(key, v)] + d[1..]
    else [d[0]] + Assign(d[1..], key, v)
  }

  predicate HasKey(d: Dict, key: GroupKey) {
    exists i :: 0 <= i < |d| && d[i].0 == key
  }

  /** sum(d.values()) */
  function SumValues(d: Dict): nat {
    if d == [] then 0 else d[0].1 + SumValues(d[1..])
  }

  /** The dict after the first n groups. */
  function CountsOf<C>(gs: seq<Group<C>>, n: nat): Dict
    requires n <= |gs|
  {
    if n == 0 then [] else Assign(CountsOf(gs, n - 1), Key(gs[n - 1]), |gs[n - 1].coeffs| / 6)
  }

  /** What count_coeffs returns: the dict with report_all, the total without. */
  datatype CountReport = Counts(entries: Dict) | Total(total: nat)

  function CountCoeffsSpec<C>(gs: seq<Group<C>>, reportAll: bool): CountReport {
    var counts := CountsOf(gs, |gs|);
    if reportAll then Counts(counts) else Total(SumValues(counts))
  }

  /** count_coeffs: one dict entry per group key (a later group with the same key overwrites
      it), then the sum of the entries. */
  method CountCoeffs<C>(gs: seq<Group<C>>, reportAll: bool) returns (r: CountReport)
    ensures r == CountCoeffsSpec(gs, reportAll)
  {
    var counts: Dict := [];
    for j := 0 to |gs|
      invariant counts == CountsOf(gs, j)
    {
      counts := Assign(counts, Key(gs[j]), |gs[j].coeffs| / 6);
    }
    if reportAll {
      return Counts(counts);
    }
    var totalCount := 0;
    var i := |counts|;
    assert counts[..i] == counts;
    while i > 0
      invariant 0 <= i <= |counts|
      invariant totalCount + SumValues(counts[..i]) == SumValues(counts)
    {
      SumValuesLast(counts[..i]);
      assert counts[..i][..i - 1] == counts[..i - 1];
      totalCount := totalCount + counts[i - 1].1;
      i := i - 1;
    }
    assert counts[..0] == [];
    r := Total(totalCount);
  }

  lemma {:induction false} SumValuesLast(d: Dict)
    requires d != []
    ensures SumValues(d) == SumValues(d[..|d| - 1]) + d[|d| - 1].1
  {
    if |d| > 1 {
      SumValuesLast(d[1..]);
      assert d[1..][..|d| - 2] == d[..|d| - 1][1..];
    }
  }

  /** Assigning a value v adds v to the sum, less the value it replaces. */
  lemma {:induction false} SumAssign(d: Dict, key: GroupKey, v: nat)
    ensures SumValues(Assign(d, key, v)) <= SumValues(d) + v
    ensures !HasKey(d, key) ==> Assign(d, key, v) == d + [(key, v)] && SumValues(Assign(d, key, v)) == SumValues(d) + v
  {
    if d != [] && d[0].0 != key {
      SumAssign(d[1..], key, v);
      if !HasKey(d, key) {
        forall i | 0 <= i < |d[1..]|
          ensures d[1..][i].0 != key
        {
          assert d[1..][i] == d[i + 1];
        }
      }
    } else if d != [] {
      assert HasKey(d, key) by {
        assert d[0].0 == key;
      }
    }
  }

  /** Overwritten entries can only lower the total: it never exceeds the terms of all the
      groups. */
  lemma {:induction false} CountsAtMost<C>(gs: seq<Group<C>>, n: nat)
    requires n <= |gs|
    ensures SumValues(CountsOf(gs, n)) <= TermsOf(gs[..n])
  {
    if n > 0 {
      CountsAtMost(gs, n - 1);
      SumAssign(CountsOf(gs, n - 1), Key(gs[n - 1]), |gs[n - 1].coeffs| / 6);
      assert gs[..n][..n - 1] == gs[..n - 1];
    }
  }

  /** No two groups share a key. */
  predicate DistinctKeys<C>(gs: seq<Group<C>>) {
    forall i, j :: 0 <= i < j < |gs| ==> Key(gs[i]) != Key(gs[j])
  }

  /** One entry per group, in order. */
  function Entries<C>(gs: seq<Group<C>>, n: nat): Dict
    requires n <= |gs|
  {
    if n == 0 then [] else Entries(gs, n - 1) + [(Key(gs[n - 1]), |gs[n - 1].coeffs| / 6)]
  }

  lemma {:induction false} EntriesAt<C>(gs: seq<Group<C>>, n: nat, i: nat)
    requires i < n <= |gs|
    ensures |Entries(gs, n)| == n && Entries(gs, n)[i] == (Key(gs[i]), |gs[i].coeffs| / 6)
  {
    if i < n - 1 {
      EntriesAt(gs, n - 1, i);
    } else {
      EntriesLength(gs, n - 1);
    }
  }

  lemma {:induction false} EntriesLength<C>(gs: seq<Group<C>>, n: nat)
    requires n <= |gs|
    ensures |Entries(gs, n)| == n
  {
    if n > 0 {
      EntriesLength(gs, n - 1);
    }
  }

  /** With distinct keys, the key of group n - 1 is not among the entries before it. */
  lemma NoKeyYet<C>(gs: seq<Group<C>>, n: nat)
    requires 0 < n <= |gs| && DistinctKeys(gs)
    ensures !HasKey(Entries(gs, n - 1), Key(gs[n - 1]))
  {
    var d := Entries(gs, n - 1);
    EntriesLength(gs, n - 1);
    forall i | 0 <= i < |d|
      ensures d[i].0 != Key(gs[n - 1])
    {
      EntriesAt(gs, n - 1, i);
    }
  }

  /** With distinct keys the dict has one entry per group, in order. */
  lemma {:induction false} CountsDistinct<C>(gs: seq<Group<C>>, n: nat)
    requires n <= |gs| && DistinctKeys(gs)
    ensures CountsOf(gs, n) == Entries(gs, n)
  {
    if n > 0 {
      CountsDistinct(gs, n - 1);
      NoKeyYet(gs, n);
      SumAssign(Entries(gs, n - 1), Key(gs[n - 1]), |gs[n - 1].coeffs| / 6);
    }
  }

  /** One entry per group sums to the number of terms. */
  lemma {:induction false} EntriesSum<C>(gs: seq<Group<C>>, n: nat)
    requires n <= |gs|
    ensures SumValues(Entries(gs, n)) == TermsOf(gs[..n])
  {
    if n > 0 {
      EntriesSum(gs, n - 1);
      var e := Entries(gs, n);
      assert e[..|e| - 1] == Entries(gs, n - 1);
      SumValuesLast(e);
      assert gs[..n][..n - 1] == gs[..n - 1];
    }
  }

  /** The report printed by truncate_series: with distinct group keys in the raw series,
      the truncated total never exceeds the raw total. */
  lemma TruncatedTotalAtMost<W>(raw: Series<real, W>)
    requires DistinctKeys(raw.groups) && TruncateSeriesSpec(raw).Ok?
    ensures CountCoeffsSpec(TruncateSeriesSpec(raw).value.groups, false).total
      <= CountCoeffsSpec(raw.groups, false).total
  {
    var out := TruncateSeriesSpec(raw).value.groups;
    TruncateSeriesResult(raw);
    CountsAtMost(out, |out|);
    CountsDistinct(raw.groups, |raw.groups|);
    EntriesSum(raw.groups, |raw.groups|);
    assert out[..|out|] == out;
    assert raw.groups[..|raw.groups|] == raw.groups;
  }
}
