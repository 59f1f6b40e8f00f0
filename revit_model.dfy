/**
 The Revit API values the command works with: element ids, points and
 vectors, the hits a ray cast returns, walls and levels. Only the members
 the command reads are modelled.
 */
module RevitModel {

  /** Revit's `ElementId`, held as the 32 bits (two's complement) of its
      `IntegerValue`; its `==` compares those values. */
  datatype ElementId = ElementId(bits: bv32)

  /** `ElementId.InvalidElementId` (integer value -1), the `LinkedElementId`
      of a reference into the host document rather than into a linked model. */
  const InvalidElementId: ElementId := ElementId(0xFFFF_FFFF)

  /** Revit's `XYZ`, with exact reals instead of doubles. */
  datatype Xyz = Xyz(x: real, y: real, z: real)

  function Plus(a: Xyz, b: Xyz): Xyz
  {
    Xyz(a.x + b.x, a.y + b.y, a.z + b.z)
  }

  function Minus(a: Xyz, b: Xyz): Xyz
  {
    Xyz(a.x - b.x, a.y - b.y, a.z - b.z)
  }

  function Scale(a: Xyz, t: real): Xyz
  {
    Xyz(a.x * t, a.y * t, a.z * t)
  }

  function Dot(a: Xyz, b: Xyz): real
  {
    a.x * b.x + a.y * b.y + a.z * b.z
  }

  /** Scaling either argument of a dot product scales the product. */
  lemma DotScale(a: Xyz, b: Xyz, t: real)
    ensures Dot(Scale(a, t), b) == t * Dot(a, b)
    ensures Dot(a, Scale(b, t)) == t * Dot(a, b)
  {
    assert (a.x * t) * b.x == t * (a.x * b.x);
    assert (a.y * t) * b.y == t * (a.y * b.y);
    assert (a.z * t) * b.z == t * (a.z * b.z);
    assert a.x * (b.x * t) == t * (a.x * b.x);
    assert a.y * (b.y * t) == t * (a.y * b.y);
    assert a.z * (b.z * t) == t * (a.z * b.z);
  }

  /** `start + direction * t`. Along a unit direction, t is what `Proximity`
      means: the point lies t ahead of the start when projected on the
      direction, at squared distance t * t from the start. */
  function PointAt(start: Xyz, direction: Xyz, t: real): (p: Xyz)
    ensures Dot(direction, direction) == 1.0 ==>
              && Dot(Minus(p, start), direction) == t
              && Dot(Minus(p, start), Minus(p, start)) == t * t
  {
    var p := Plus(start, Scale(direction, t));
    assert Minus(p, start) == Scale(direction, t);
    DotScale(direction, direction, t);
    DotScale(direction, Scale(direction, t), t);
    p
  }

  /** With 0 <= t <= length along a unit direction, PointAt lies on the
      segment of that length from the start: its squared distance from the
      start is at most the squared length. */
  lemma PointAtDistance(start: Xyz, direction: Xyz, t: real, length: real)
    requires Dot(direction, direction) == 1.0
    requires 0.0 <= t <= length
    ensures Dot(Minus(PointAt(start, direction, t), start), Minus(PointAt(start, direction, t), start)) <= length * length
  {
    assert t * t <= t * length <= length * length;
  }

  /** One `ReferenceWithContext` returned by `ReferenceIntersector.Find`:
      its `Proximity` and the `ElementId` and `LinkedElementId` of its
      `Reference`. */
  datatype Hit = Hit(proximity: real, elementId: ElementId, linkedId: ElementId)

  /** A wall of the architectural document, with its `LevelId`. */
  datatype Wall = Wall(id: ElementId, levelId: ElementId)

  /** A level of the architectural document. */
  datatype Level = Level(id: ElementId)
}
