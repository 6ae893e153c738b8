/** The fixed layout data of the island: the three rings of rocks and the
    phyllotactic distances of the trees. Angles need `cos`/`sin`; the caller
    supplies the unit direction `(cos(angle), sin(angle))` of each angle. */
module Placement {
  import opened Geometry

  /** One entry of `rockPositions`: `count` rocks spread evenly on a circle. */
  datatype Ring = Ring(radius: real, count: nat)

  /** The `index`-th rock of `ring`, at angle `index * 2π / ring.count`. */
  datatype Slot = Slot(ring: Ring, index: nat)

  /** Outer, middle and inner circles. */
  const RockRings: seq<Ring> := [Ring(120.0, 10), Ring(80.0, 8), Ring(40.0, 3)]

  /** Every rock carries `collisionRadius = 2`. */
  const RockCollisionRadius: real := 2.0
  /** Rocks and trees stand at height 2.5. */
  const ObstacleHeight: real := 2.5

  function RockTotal(rings: seq<Ring>): nat {
    if rings == [] then 0 else rings[0].count + RockTotal(rings[1..])
  }

  /** The slots of `rockPositions.forEach(circle => for i < circle.count ...)`, in that order. */
  function SlotsOf(rings: seq<Ring>): (slots: seq<Slot>)
    ensures |slots| == RockTotal(rings)
    ensures forall k :: 0 <= k < |slots| ==> slots[k].ring in rings && slots[k].index < slots[k].ring.count
  {
    if rings == [] then []
    else seq(rings[0].count, (i: int) requires 0 <= i => Slot(rings[0], i)) + SlotsOf(rings[1..])
  }

  function RockSlots(): seq<Slot> {
    SlotsOf(RockRings)
  }

  /** The island has 21 rocks, each on a circle of radius 120, 80 or 40. */
  lemma RockLayout()
    ensures |RockSlots()| == 21
    ensures forall k :: 0 <= k < |RockSlots()| ==>
      RockSlots()[k].ring.radius in {120.0, 80.0, 40.0} && RockSlots()[k].index < RockSlots()[k].ring.count
  {
    assert RockRings[1..][1..][1..] == [];
    assert RockTotal(RockRings) == 21;
  }

  /** A direction of unit length, as `(cos(angle), sin(angle))` is. */
  predicate Unit(u: Point2) {
    u.x * u.x + u.z * u.z == 1.0
  }

  /** `(cos(angle) * radius, sin(angle) * radius)`, for the unit direction `u` of `angle`. */
  function OnCircle(radius: real, u: Point2): Point2 {
    Point2(radius * u.x, radius * u.z)
  }

  /** A point placed along a unit direction lies at ground distance `radius` from the centre. */
  lemma OnCircleDistance(radius: real, u: Point2)
    requires Unit(u)
    ensures var p := OnCircle(radius, u); p.x * p.x + p.z * p.z == radius * radius
  {
    var p := OnCircle(radius, u);
    assert p.x * p.x == (radius * radius) * (u.x * u.x);
    assert p.z * p.z == (radius * radius) * (u.z * u.z);
    assert p.x * p.x + p.z * p.z == (radius * radius) * (u.x * u.x + u.z * u.z);
  }

  const TreeCount: nat := 100
  const TreeInnerRadius: real := 20.0
  const TreeOuterRadius: real := 100.0
  /** The "growth ring" weights of the tree spiral. */
  const Weights: seq<int> := [2, 11, 17, 22, 36, 22, 27, 33, 30, 13, 19, 16, 23, 29]
  /** Every tree carries `collisionRadius = 1`. */
  const TreeCollisionRadius: real := 1.0

  /** The distance of tree `i` from the centre:
      `innerRadius + (outerRadius - innerRadius) * fibonacci[i % 14] / fibonacci[13]`.
      The weights are divided by the last one, 29, and not by the largest, 36,
      so the distance ranges from `20 + 80 * 2 / 29` up to `20 + 80 * 36 / 29`. */
  function TreeDistance(i: nat): (d: real)
    ensures TreeInnerRadius + 160.0 / 29.0 <= d <= TreeInnerRadius + 2880.0 / 29.0
  {
    var w := Weights[i % |Weights|];
    assert 2 <= w <= 36;
    TreeInnerRadius + (TreeOuterRadius - TreeInnerRadius) * ((w as real) / (Weights[|Weights| - 1] as real))
  }

  /** Trees whose weight is above 29 (positions 4, 7 and 8 of every cycle of
      14) stand beyond the outer radius of 100; the one with weight 29 stands
      exactly on it; every other tree is inside. */
  lemma TreesBeyondOuterRadius(i: nat)
    ensures TreeDistance(i) > TreeOuterRadius <==> i % 14 in {4, 7, 8}
    ensures TreeDistance(i) == TreeOuterRadius <==> i % 14 == 13
  {
    var k := i % 14;
    assert Weights[k] > 29 <==> k in {4, 7, 8};
    assert Weights[k] == 29 <==> k == 13;
  }

  /** The first tree beyond the outer radius is tree 4, at `20 + 80 * 36 / 29`. */
  lemma FourthTreeOutside()
    ensures TreeDistance(4) == 20.0 + 2880.0 / 29.0
    ensures TreeDistance(4) > TreeOuterRadius
  {}
}
