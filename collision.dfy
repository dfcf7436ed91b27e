/** The collision record of the LXCat/BOLSIG catalog and its cross-section
    lookup (collision.go). Energies are in electronvolts and cross sections in
    square metres; both are exact reals here. */
module CrossSections {
  import opened Results

  /** The six process types a block header may name. */
  datatype CollisionType = Elastic | Effective | Excitation | Attachment | Ionization | Rotation

  /** The header keyword of each type, which is also its Go string value. */
  function Keyword(t: CollisionType): string {
    match t
    case Elastic => "ELASTIC"
    case Effective => "EFFECTIVE"
    case Excitation => "EXCITATION"
    case Attachment => "ATTACHMENT"
    case Ionization => "IONIZATION"
    case Rotation => "ROTATION"
  }

  /** The type a header keyword names, if it is one of the six (exact,
      case-sensitive match). */
  function KeywordType(s: string): Option<CollisionType> {
    if s == "ELASTIC" then Some(Elastic)
    else if s == "EFFECTIVE" then Some(Effective)
    else if s == "EXCITATION" then Some(Excitation)
    else if s == "ATTACHMENT" then Some(Attachment)
    else if s == "IONIZATION" then Some(Ionization)
    else if s == "ROTATION" then Some(Rotation)
    else None
  }

  /** KeywordType recognises exactly the six keywords and inverts Keyword. */
  lemma KeywordTypeInverts(s: string, t: CollisionType)
    ensures KeywordType(s) == Some(t) <==> Keyword(t) == s
  {
  }

  /** A cross section `value` [m^2] at `energy` [eV]. */
  datatype CrossSectionPoint = Point(energy: real, value: real)

  /** One process block of the file. Which numeric fields are meaningful
      depends on `kind`; the others keep their defaults. */
  datatype Collision = Collision(
    kind: CollisionType,
    massRatio: real,
    species: string,
    data: seq<CrossSectionPoint>,
    threshold: real,
    statWeightRatio: real,
    lowerEnergy: real,
    lowerStatWeight: real,
    upperEnergy: real,
    upperStatWeight: real,
    info: map<string, string>)

  predicate Sorted(data: seq<CrossSectionPoint>) {
    forall i, j :: 0 <= i < j < |data| ==> data[i].energy <= data[j].energy
  }

  predicate StrictlySorted(data: seq<CrossSectionPoint>) {
    forall i, j :: 0 <= i < j < |data| ==> data[i].energy < data[j].energy
  }

  // ---------------------------------------------------------------------
  // Extremes of the tabulated values

  function MaxValue(data: seq<CrossSectionPoint>): (m: real)
    requires |data| >= 1
    ensures forall i :: 0 <= i < |data| ==> data[i].value <= m
    ensures exists i :: 0 <= i < |data| && data[i].value == m
  {
    if |data| == 1 then data[0].value
    else
      var m := MaxValue(data[1..]);
      var i :| 0 <= i < |data[1..]| && data[1..][i].value == m;
      assert data[i + 1].value == m;
      if data[0].value >= m then data[0].value else m
  }

  function MinValue(data: seq<CrossSectionPoint>): (m: real)
    requires |data| >= 1
    ensures forall i :: 0 <= i < |data| ==> m <= data[i].value
    ensures exists i :: 0 <= i < |data| && data[i].value == m
  {
    if |data| == 1 then data[0].value
    else
      var m := MinValue(data[1..]);
      var i :| 0 <= i < |data[1..]| && data[1..][i].value == m;
      assert data[i + 1].value == m;
      if data[0].value <= m then data[0].value else m
  }

  // ---------------------------------------------------------------------
  // Interpolation on one segment

  /** Position of `e` within the segment from `a` to `b`, as a fraction. */
  function Weight(a: CrossSectionPoint, b: CrossSectionPoint, e: real): real
    requires a.energy < b.energy
  {
    (e - a.energy) / (b.energy - a.energy)
  }

  /** The straight line through `a` and `b`, evaluated at `e`. */
  function Lerp(a: CrossSectionPoint, b: CrossSectionPoint, e: real): real
    requires a.energy < b.energy
  {
    a.value + (b.value - a.value) * Weight(a, b, e)
  }

  lemma WeightInUnit(a: CrossSectionPoint, b: CrossSectionPoint, e: real)
    requires a.energy <= e < b.energy
    ensures 0.0 <= Weight(a, b, e) < 1.0
  {
    QuotientInUnit(e - a.energy, b.energy - a.energy);
  }

  lemma QuotientInUnit(n: real, d: real)
    requires 0.0 <= n < d
    ensures 0.0 <= n / d < 1.0
  {
    var q := n / d;
    assert q * d == n;
    assert q < 0.0 ==> q * d < 0.0;
    assert q >= 1.0 ==> (q - 1.0) * d >= 0.0;
  }

  /** A fraction `w` in [0, 1] of `d` lies between 0 and `d`. */
  lemma FractionBetween(d: real, w: real)
    requires 0.0 <= w <= 1.0
    ensures d >= 0.0 ==> 0.0 <= d * w <= d
    ensures d <= 0.0 ==> d <= d * w <= 0.0
  {
    assert d - d * w == d * (1.0 - w);
    if d >= 0.0 {
      MulNonNegative(d, w);
      MulNonNegative(d, 1.0 - w);
    } else {
      MulNonNegative(-d, w);
      MulNonNegative(-d, 1.0 - w);
    }
  }

  lemma MulNonNegative(x: real, y: real)
    requires 0.0 <= x && 0.0 <= y
    ensures 0.0 <= x * y
  {
  }

  /** Inside a segment the line stays between the two end values. */
  lemma LerpBetween(a: CrossSectionPoint, b: CrossSectionPoint, e: real)
    requires a.energy <= e < b.energy
    ensures a.value <= b.value ==> a.value <= Lerp(a, b, e) <= b.value
    ensures b.value <= a.value ==> b.value <= Lerp(a, b, e) <= a.value
  {
    WeightInUnit(a, b, e);
    FractionBetween(b.value - a.value, Weight(a, b, e));
  }

  // ---------------------------------------------------------------------
  // The halving search of CrossSectionAt

  /** `k` and `k + 1` bracket `e` the way CrossSectionAt's loop leaves `l`
      and `r`: a point at `k` other than the first is at or below `e`, and a
      point at `k + 1`, if there is one, is above it. */
  predicate Brackets(data: seq<CrossSectionPoint>, e: real, k: nat) {
    && k < |data|
    && (k > 0 ==> data[k].energy <= e)
    && (k + 1 < |data| ==> e < data[k + 1].energy)
  }

  /** Where the search narrows `(l, r)` to `(k, k + 1)`: the left index the
      loop of CrossSectionAt ends with when it starts from `(l, r)`. */
  function Settle(data: seq<CrossSectionPoint>, e: real, l: nat, r: nat): (k: nat)
    requires l < r <= |data|
    requires l > 0 ==> data[l].energy <= e
    requires r < |data| ==> e < data[r].energy
    ensures l <= k < r
    ensures Brackets(data, e, k)
    decreases r - l
  {
    if l + 1 < r then
      var c := (l + r) / 2;
      if e < data[c].energy then Settle(data, e, l, c) else Settle(data, e, c, r)
    else l
  }

  /** The value CrossSectionAt returns once the search has settled on `k`:
      the value at `k` on the first point and on the last one, the line to
      `k + 1` everywhere else. */
  function SegmentValue(data: seq<CrossSectionPoint>, e: real, k: nat): real
    requires Brackets(data, e, k)
  {
    if k == 0 || k + 1 == |data| then data[k].value
    else Lerp(data[k], data[k + 1], e)
  }

  /** What CrossSectionAt computes for `data` at `e`. Whatever the order of
      the points, it lies between the smallest and the largest value. */
  function At(data: seq<CrossSectionPoint>, e: real): (v: real)
    requires |data| >= 1
    ensures MinValue(data) <= v <= MaxValue(data)
  {
    var k := Settle(data, e, 0, |data|);
    if k == 0 || k + 1 == |data| then data[k].value
    else
      LerpBetween(data[k], data[k + 1], e);
      SegmentValue(data, e, k)
  }

  /** The interpolation step of CrossSectionAt: the weight of `e` in the
      segment from `a` to `b`, then the value at that weight. */
  method Interpolate(a: CrossSectionPoint, b: CrossSectionPoint, e: real) returns (v: real)
    requires a.energy < b.energy
    ensures v == Lerp(a, b, e)
    ensures a.energy <= e < b.energy ==> (a.value <= b.value ==> a.value <= v <= b.value)
    ensures a.energy <= e < b.energy ==> (b.value <= a.value ==> b.value <= v <= a.value)
  {
    var w := (e - a.energy) / (b.energy - a.energy);
    v := a.value + (b.value - a.value) * w;
    if a.energy <= e < b.energy {
      LerpBetween(a, b, e);
    }
  }

  /** Cross section of `p` at `energy`: a binary search for the bracketing
      pair of points, then the boundary value or a linear interpolation.
      On a sorted table this is the documented piecewise-linear function
      except on the first segment, which the code keeps at its first value. */
  method CrossSectionAt(p: Collision, energy: real) returns (v: real)
    requires |p.data| >= 1
    ensures v == At(p.data, energy)
    ensures Sorted(p.data) ==>
      v == if |p.data| == 1 || energy < p.data[1].energy then p.data[0].value
           else Piecewise(p.data, energy)
  {
    var data := p.data;
    var l, r := 0, |data|;
    while l + 1 < r
      invariant 0 <= l < r <= |data|
      invariant l > 0 ==> data[l].energy <= energy
      invariant r < |data| ==> energy < data[r].energy
      invariant Settle(data, energy, l, r) == Settle(data, energy, 0, |data|)
      decreases r - l
    {
      var c := (l + r) / 2;
      if energy < data[c].energy {
        r := c;
      } else {
        l := c;
      }
    }
    if l == 0 || r == |data| {
      v := data[l].value;
    } else {
      v := Interpolate(data[l], data[r], energy);
    }
    SettledValue(data, energy, l, r, v);
  }

  /** Where the loop of CrossSectionAt stops, what it returns is At, and on
      a sorted table the documented function outside the first segment. */
  lemma SettledValue(data: seq<CrossSectionPoint>, e: real, l: nat, r: nat, v: real)
    requires 0 <= l < r <= |data| && l + 1 >= r
    requires l > 0 ==> data[l].energy <= e
    requires r < |data| ==> e < data[r].energy
    requires Settle(data, e, l, r) == Settle(data, e, 0, |data|)
    requires v == if l == 0 || r == |data| then data[l].value else Lerp(data[l], data[r], e)
    ensures v == At(data, e)
    ensures Sorted(data) ==>
      v == if |data| == 1 || e < data[1].energy then data[0].value else Piecewise(data, e)
  {
    assert Settle(data, e, l, r) == l;
    assert v == SegmentValue(data, e, l);
    if Sorted(data) {
      AtOnSortedTable(data, e);
    }
  }

  // ---------------------------------------------------------------------
  // The documented function and what the code computes on sorted tables

  /** The function the doc comment of CrossSectionAt describes: linear
      between neighbouring points, constant below the first point and
      beyond the last one. */
  function Piecewise(data: seq<CrossSectionPoint>, e: real): real
    requires |data| >= 1
    decreases |data|
  {
    if |data| == 1 || e < data[0].energy then data[0].value
    else if e < data[1].energy then Lerp(data[0], data[1], e)
    else Piecewise(data[1..], e)
  }

  /** On a sorted table whose first point is at or below `e`, the documented
      function at `e` is the line of any segment that brackets `e`. */
  lemma {:induction false} PiecewiseOnSegment(data: seq<CrossSectionPoint>, e: real, k: nat)
    requires Sorted(data)
    requires k < |data| && data[0].energy <= e && data[k].energy <= e
    requires k + 1 < |data| ==> e < data[k + 1].energy
    ensures Piecewise(data, e) ==
      if k + 1 == |data| then data[k].value else Lerp(data[k], data[k + 1], e)
  {
    if k > 0 {
      assert data[1].energy <= data[k].energy;
      PiecewiseOnSegment(data[1..], e, k - 1);
    }
  }

  /** On a sorted table CrossSectionAt is the documented function, except
      that below the second point it returns the first value. */
  lemma AtOnSortedTable(data: seq<CrossSectionPoint>, e: real)
    requires |data| >= 1 && Sorted(data)
    ensures At(data, e) ==
      if |data| == 1 || e < data[1].energy then data[0].value else Piecewise(data, e)
  {
    var k := Settle(data, e, 0, |data|);
    if k > 0 {
      assert data[0].energy <= data[1].energy <= data[k].energy;
      PiecewiseOnSegment(data, e, k);
    }
  }

  /** The two agree everywhere outside the open first segment... */
  lemma AtMatchesDocOutsideFirstSegment(data: seq<CrossSectionPoint>, e: real)
    requires |data| >= 1 && Sorted(data)
    requires |data| == 1 || e <= data[0].energy || data[1].energy <= e
    ensures At(data, e) == Piecewise(data, e)
  {
    AtOnSortedTable(data, e);
    if |data| > 1 && e == data[0].energy && e < data[1].energy {
      LerpAtStart(data[0], data[1]);
    }
  }

  /** A segment's line starts at the segment's first value. */
  lemma LerpAtStart(a: CrossSectionPoint, b: CrossSectionPoint)
    requires a.energy < b.energy
    ensures Lerp(a, b, a.energy) == a.value
  {
    assert Weight(a, b, a.energy) == 0.0;
  }

  /** ...and not inside it: on {(10, 0), (16, 1)} the documented function
      is 0.5 at 13 eV while the code returns 0. */
  lemma FirstSegmentNotInterpolated()
    ensures At([Point(10.0, 0.0), Point(16.0, 1.0)], 13.0) == 0.0
    ensures Piecewise([Point(10.0, 0.0), Point(16.0, 1.0)], 13.0) == 0.5
  {
    var data := [Point(10.0, 0.0), Point(16.0, 1.0)];
    AtOnSortedTable(data, 13.0);
    assert Weight(data[0], data[1], 13.0) == 0.5;
  }

  // ---------------------------------------------------------------------
  // Boundary behaviour and interpolation

  /** Flat extrapolation on the right: at or beyond the last point the
      result is exactly the last value. */
  lemma AtBeyondLast(data: seq<CrossSectionPoint>, e: real)
    requires |data| >= 1 && Sorted(data)
    requires data[|data| - 1].energy <= e
    ensures At(data, e) == data[|data| - 1].value
  {
    var k := Settle(data, e, 0, |data|);
  }

  /** Below the second point (or on a one-point table) the result is
      exactly the first value: below-range inputs and the whole first
      segment alike. */
  lemma AtBelowSecond(data: seq<CrossSectionPoint>, e: real)
    requires |data| >= 1 && Sorted(data)
    requires |data| == 1 || e < data[1].energy
    ensures At(data, e) == data[0].value
  {
    var k := Settle(data, e, 0, |data|);
  }

  /** Between the second and the last point the result is the line through
      the segment that holds `e`, at a weight in [0, 1). No order of the
      points is needed for this. */
  lemma AtInterior(data: seq<CrossSectionPoint>, e: real) returns (k: nat)
    requires |data| >= 2
    requires data[1].energy <= e < data[|data| - 1].energy
    ensures 1 <= k < |data| - 1
    ensures data[k].energy <= e < data[k + 1].energy
    ensures 0.0 <= Weight(data[k], data[k + 1], e) < 1.0
    ensures At(data, e) == Lerp(data[k], data[k + 1], e)
  {
    k := Settle(data, e, 0, |data|);
    WeightInUnit(data[k], data[k + 1], e);
  }

  /** At a tabulated energy of a strictly increasing table the result is the
      tabulated value. */
  lemma AtKnot(data: seq<CrossSectionPoint>, i: nat)
    requires StrictlySorted(data) && i < |data|
    ensures At(data, data[i].energy) == data[i].value
  {
    var e := data[i].energy;
    var k := Settle(data, e, 0, |data|);
    if k != 0 && k + 1 != |data| {
      assert Weight(data[k], data[k + 1], e) == 0.0;
    }
  }

  /** The table of TestCrossSectionAt (lxgata_test.go). */
  function TestTable(): (data: seq<CrossSectionPoint>)
    ensures |data| == 4 && Sorted(data)
  {
    var data := [Point(10.0, 0.0), Point(16.0, 1.0), Point(32.0, 2.0), Point(500.0, 7.0)];
    assert forall i, j | 0 <= i < j < |data| :: data[i].energy <= data[j].energy;
    data
  }

  /** "energy < any in Collision.Data": 1 eV gives 0. */
  lemma TestBelowRange()
    ensures At(TestTable(), 1.0) == 0.0
  {
    AtBelowSecond(TestTable(), 1.0);
  }

  /** "energy exactly at lowest point": 10 eV gives 0. */
  lemma TestAtLowest()
    ensures At(TestTable(), 10.0) == 0.0
  {
    AtBelowSecond(TestTable(), 10.0);
  }

  /** "energy between two points": 266 eV gives 4.5. */
  lemma TestBetween()
    ensures At(TestTable(), 266.0) == 4.5
  {
    var data := TestTable();
    assert Settle(data, 266.0, 0, 4) == Settle(data, 266.0, 2, 4) == Settle(data, 266.0, 2, 3) == 2;
    var a, b := data[2], data[3];
    assert a == Point(32.0, 2.0) && b == Point(500.0, 7.0);
    assert Weight(a, b, 266.0) == 234.0 / 468.0 == 0.5;
  }

  /** "energy exactly at maximum": 500 eV gives 7. */
  lemma TestAtMaximum()
    ensures At(TestTable(), 500.0) == 7.0
  {
    AtBeyondLast(TestTable(), 500.0);
  }

  /** "energy > any in Collision.Data": 600 eV gives 7. */
  lemma TestAboveRange()
    ensures At(TestTable(), 600.0) == 7.0
  {
    AtBeyondLast(TestTable(), 600.0);
  }

  /** The five expected results of TestCrossSectionAt (lxgata_test.go). */
  lemma CrossSectionAtTestTable()
    ensures var data := TestTable();
      && At(data, 1.0) == 0.0
      && At(data, 10.0) == 0.0
      && At(data, 266.0) == 4.5
      && At(data, 500.0) == 7.0
      && At(data, 600.0) == 7.0
  {
    TestBelowRange();
    TestAtLowest();
    TestBetween();
    TestAtMaximum();
    TestAboveRange();
  }
}
