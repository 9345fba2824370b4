/** The factor model: eight multiplicative affine terms applied to a cell's
    base emission (src/App.tsx:440-476), and the severity-band slider
    defaults (src/App.tsx:122-172). */
module Factors {
  import opened Types

  /** Multiplier of the industrial-activity factor: industrial zones react
      with slope 1/80, every other zone with slope 1/200. */
  function IndustrialTerm(zone: Zone, industrial: real): real
  {
    if zone == Industrial then 0.5 + industrial / 80.0 else 0.7 + industrial / 200.0
  }

  /** Multiplier of the congestion factor: transport zones react with slope
      1/100, every other zone with slope 1/200. */
  function CongestionTerm(zone: Zone, congestion: real): real
  {
    if zone == Transport then 0.6 + congestion / 100.0 else 0.8 + congestion / 200.0
  }

  /** The eight multipliers, one per slider, in the order they are applied:
      green cover, building density, water, vehicles, industrial activity,
      energy, congestion, public transport. */
  function Terms(zone: Zone, p: Params): (t: seq<real>)
    ensures |t| == 8
  {
    [1.0 - p.green / 200.0, 0.5 + p.building / 100.0, 1.0 - p.water / 300.0,
     0.4 + p.vehicles / 100.0, IndustrialTerm(zone, p.industrial),
     0.5 + p.energy / 100.0, CongestionTerm(zone, p.congestion),
     1.2 - p.publicTransport / 150.0]
  }

  /** `acc` multiplied by the terms of `s` one at a time, left to right,
      as the successive `emission *=` statements do. */
  function MultiplyInOrder(acc: real, s: seq<real>): real
    decreases |s|
  {
    if |s| == 0 then acc else MultiplyInOrder(acc * s[0], s[1..])
  }

  function Floor0(v: real): real { if v > 0.0 then v else 0.0 }

  /** The emission the parameter handler writes for a cell: its base
      emission multiplied by the eight terms in order, then floored at 0
      (`Math.max(0, emission)`). */
  function ApplyFactors(base: real, zone: Zone, p: Params): (r: real)
    ensures r >= 0.0
  {
    Floor0(MultiplyInOrder(base, Terms(zone, p)))
  }

  // ---------------------------------------------------------------------------
  // Reference definition: the floored product of the eight terms

  function Product(s: seq<real>): real
  {
    if |s| == 0 then 1.0 else s[0] * Product(s[1..])
  }

  predicate AllPositive(s: seq<real>)
  {
    forall i :: 0 <= i < |s| ==> s[i] > 0.0
  }

  lemma MulAssoc(a: real, b: real, c: real)
    ensures (a * b) * c == a * (b * c)
  {
  }

  lemma MulMonotone(a: real, b: real, c: real, d: real)
    requires 0.0 <= a <= b && 0.0 <= c <= d
    ensures a * c <= b * d
  {
    assert a * c <= a * d;
    assert a * d <= b * d;
  }

  lemma MulStrict(a: real, b: real, c: real)
    requires a < b && c > 0.0
    ensures a * c < b * c && c * a < c * b
  {
  }

  lemma MulSign(a: real, b: real)
    requires a >= 0.0 && b > 0.0
    ensures a * b >= 0.0
    ensures a > 0.0 ==> a * b > 0.0
  {
  }

  /** Multiplying term by term is multiplying by the product. */
  lemma {:induction false} MultiplyInOrderIsProduct(acc: real, s: seq<real>)
    ensures MultiplyInOrder(acc, s) == acc * Product(s)
    decreases |s|
  {
    if |s| > 0 {
      MultiplyInOrderIsProduct(acc * s[0], s[1..]);
      MulAssoc(acc, s[0], Product(s[1..]));
    }
  }

  /** The factor model is the base emission times the product of the eight
      terms, floored at 0. */
  lemma FactorsAsProduct(base: real, zone: Zone, p: Params)
    ensures ApplyFactors(base, zone, p) == Floor0(base * Product(Terms(zone, p)))
  {
    MultiplyInOrderIsProduct(base, Terms(zone, p));
  }

  lemma {:induction false} ProductPositive(s: seq<real>)
    requires AllPositive(s)
    ensures Product(s) > 0.0
  {
    if |s| > 0 {
      ProductPositive(s[1..]);
      MulSign(s[0], Product(s[1..]));
    }
  }

  /** Termwise larger positive factors give a larger product. */
  lemma {:induction false} ProductMonotone(s: seq<real>, t: seq<real>)
    requires |s| == |t| && AllPositive(s)
    requires forall i :: 0 <= i < |s| ==> s[i] <= t[i]
    ensures Product(s) <= Product(t)
  {
    if |s| > 0 {
      ProductMonotone(s[1..], t[1..]);
      ProductPositive(s[1..]);
      MulMonotone(s[0], t[0], Product(s[1..]), Product(t[1..]));
    }
  }

  /** With positive terms and a non-negative start the floor never applies. */
  lemma FloorInactive(base: real, s: seq<real>)
    requires base >= 0.0 && AllPositive(s)
    ensures Floor0(MultiplyInOrder(base, s)) == base * Product(s)
    ensures base > 0.0 ==> base * Product(s) > 0.0
  {
    MultiplyInOrderIsProduct(base, s);
    ProductPositive(s);
    MulSign(base, Product(s));
  }

  lemma FloorMonotone(b1: real, b2: real, s: seq<real>, t: seq<real>)
    requires 0.0 <= b1 <= b2 && |s| == |t| && AllPositive(s)
    requires forall i :: 0 <= i < |s| ==> s[i] <= t[i]
    ensures Floor0(MultiplyInOrder(b1, s)) <= Floor0(MultiplyInOrder(b2, t))
  {
    assert AllPositive(t) by {
      forall i | 0 <= i < |t| ensures t[i] > 0.0 {
        assert s[i] > 0.0;
      }
    }
    FloorInactive(b1, s);
    FloorInactive(b2, t);
    ProductMonotone(s, t);
    ProductPositive(s);
    MulMonotone(b1, b2, Product(s), Product(t));
  }

  lemma FloorStrictFirst(base: real, s: seq<real>, t: seq<real>)
    requires base > 0.0 && |s| == |t| > 0 && AllPositive(t)
    requires 0.0 < s[0] < t[0] && s[1..] == t[1..]
    ensures Floor0(MultiplyInOrder(base, s)) < Floor0(MultiplyInOrder(base, t))
  {
    assert AllPositive(s) by {
      forall i | 0 <= i < |s| ensures s[i] > 0.0 {
        if i > 0 {
          assert s[i] == s[1..][i - 1] == t[1..][i - 1] == t[i];
        }
      }
    }
    FloorInactive(base, s);
    FloorInactive(base, t);
    ProductPositive(t[1..]);
    ScaledStrict(base, s[0], t[0], Product(t[1..]));
  }

  lemma ScaledStrict(base: real, a: real, b: real, r: real)
    requires base > 0.0 && a < b && r > 0.0
    ensures base * (a * r) < base * (b * r)
  {
    MulStrict(a, b, r);
    MulStrict(a * r, b * r, base);
  }

  // ---------------------------------------------------------------------------
  // Slider domains: every slider input ranges over 0..100

  predicate InDomain(p: Params)
  {
    && 0.0 <= p.green <= 100.0 && 0.0 <= p.building <= 100.0
    && 0.0 <= p.water <= 100.0 && 0.0 <= p.vehicles <= 100.0
    && 0.0 <= p.industrial <= 100.0 && 0.0 <= p.energy <= 100.0
    && 0.0 <= p.congestion <= 100.0 && 0.0 <= p.publicTransport <= 100.0
  }

  /** On the slider domain each term stays in a fixed range: green
      0.5..1, density 0.5..1.5, water 2/3..1, vehicles 0.4..1.4, industrial
      0.5..1.75 (industrial zone) or 0.7..1.2, energy 0.5..1.5, congestion
      0.6..1.6 (transport zone) or 0.8..1.3, public transport 8/15..1.2. */
  lemma TermRanges(zone: Zone, p: Params)
    requires InDomain(p)
    ensures var t := Terms(zone, p);
      && 0.5 <= t[0] <= 1.0 && 0.5 <= t[1] <= 1.5 && 2.0 / 3.0 <= t[2] <= 1.0
      && 0.4 <= t[3] <= 1.4
      && (zone == Industrial ==> 0.5 <= t[4] <= 1.75)
      && (zone != Industrial ==> 0.7 <= t[4] <= 1.2)
      && 0.5 <= t[5] <= 1.5
      && (zone == Transport ==> 0.6 <= t[6] <= 1.6)
      && (zone != Transport ==> 0.8 <= t[6] <= 1.3)
      && 8.0 / 15.0 <= t[7] <= 1.2
    ensures AllPositive(Terms(zone, p))
  {
  }

  /** On the slider domain the floor never applies to a non-negative base:
      the result is exactly base times the product of the terms, and it is
      positive when the base is. */
  lemma NoFloorOnDomain(base: real, zone: Zone, p: Params)
    requires InDomain(p) && base >= 0.0
    ensures ApplyFactors(base, zone, p) == base * Product(Terms(zone, p))
    ensures base > 0.0 ==> ApplyFactors(base, zone, p) > 0.0
  {
    TermRanges(zone, p);
    FloorInactive(base, Terms(zone, p));
  }

  /** q is at least as polluting as p: no more green, water or public
      transport, and no less of the five emitting factors. */
  predicate AtLeastAsPolluting(p: Params, q: Params)
  {
    && q.green <= p.green && q.water <= p.water && q.publicTransport <= p.publicTransport
    && p.building <= q.building && p.vehicles <= q.vehicles && p.industrial <= q.industrial
    && p.energy <= q.energy && p.congestion <= q.congestion
  }

  /** Every factor moves emission in its own direction (green cover, water and
      public transport lower it, the other five raise it), and emission
      grows with the base: a larger base under sliders that are at least as
      polluting never gives a lower emission. */
  lemma FactorsMonotone(b1: real, b2: real, zone: Zone, p: Params, q: Params)
    requires InDomain(p) && InDomain(q) && 0.0 <= b1 <= b2
    requires AtLeastAsPolluting(p, q)
    ensures ApplyFactors(b1, zone, p) <= ApplyFactors(b2, zone, q)
  {
    TermRanges(zone, p);
    FloorMonotone(b1, b2, Terms(zone, p), Terms(zone, q));
  }

  /** More green cover strictly lowers the emission of a cell whose base is positive. */
  lemma GreenCoverReduces(base: real, zone: Zone, p: Params, green: real)
    requires InDomain(p) && base > 0.0 && p.green < green <= 100.0
    ensures ApplyFactors(base, zone, p.(green := green)) < ApplyFactors(base, zone, p)
  {
    TermRanges(zone, p);
    var q := p.(green := green);
    assert Terms(zone, q)[1..] == Terms(zone, p)[1..];
    FloorStrictFirst(base, Terms(zone, q), Terms(zone, p));
  }

  // ---------------------------------------------------------------------------
  // Slider values

  /** The sliders' values when a session starts (src/App.tsx:110-119). */
  const InitialSliders: Params := Params(30.0, 60.0, 15.0, 70.0, 50.0, 65.0, 55.0, 40.0)

  /** An industrial cell of base 100 under the initial sliders: the eight
      terms are 0.85, 1.1, 0.95, 1.1, 1.125, 1.15, 1.075 and 14/15. */
  lemma InitialSlidersIndustrialExample()
    ensures ApplyFactors(100.0, Industrial, InitialSliders) == 126.83044171875
  {
  }

  /** Default sliders for a cell, chosen by the severity band of its
      emission: at least 250, at least 150, at least 50, below 50. */
  function DefaultParams(emission: real): (p: Params)
    ensures InDomain(p)
  {
    if emission >= 250.0 then Params(10.0, 90.0, 5.0, 95.0, 90.0, 95.0, 90.0, 15.0)
    else if emission >= 150.0 then Params(20.0, 80.0, 10.0, 85.0, 75.0, 85.0, 75.0, 25.0)
    else if emission >= 50.0 then Params(40.0, 60.0, 25.0, 65.0, 55.0, 70.0, 60.0, 45.0)
    else Params(70.0, 30.0, 60.0, 35.0, 25.0, 40.0, 30.0, 75.0)
  }

  /** A more severe band never gets greener defaults. */
  lemma DefaultParamsBySeverity(e1: real, e2: real)
    requires e1 <= e2
    ensures AtLeastAsPolluting(DefaultParams(e1), DefaultParams(e2))
  {
  }

  /** Applying a cell's own default sliders keeps cells with a higher base
      emission at least as high (the defaults never invert the ranking). */
  lemma DefaultsPreserveRanking(b1: real, b2: real, zone: Zone)
    requires 0.0 <= b1 <= b2
    ensures ApplyFactors(b1, zone, DefaultParams(b1)) <= ApplyFactors(b2, zone, DefaultParams(b2))
  {
    DefaultParamsBySeverity(b1, b2);
    FactorsMonotone(b1, b2, zone, DefaultParams(b1), DefaultParams(b2));
  }
}
