/**
 `ReferenceWithContextElemetEqualityComparer`: two hits are the same when
 their references name the same element in the same link. A null argument
 is `None`.
 */
module ReferenceComparer {
  import opened Wrappers
  import opened RevitModel

  /** The pair the comparer looks at: (`ElementId`, `LinkedElementId`). */
  datatype HitKey = HitKey(elementId: ElementId, linkedId: ElementId)

  function Key(h: Hit): HitKey
  {
    HitKey(h.elementId, h.linkedId)
  }

  /** `Equals(x, y)`. `ReferenceEquals` is modelled as equality of the two
      values: two distinct objects with equal fields are not reference-equal,
      but the field comparison that follows then answers true for them, so
      the result is the same. */
  predicate Equals(x: Option<Hit>, y: Option<Hit>)
    ensures Equals(x, y) <==> (x.None? && y.None?) || (x.Some? && y.Some? && Key(x.value) == Key(y.value))
  {
    if x == y then true
    else if x.None? then false
    else if y.None? then false
    else x.value.linkedId == y.value.linkedId && x.value.elementId == y.value.elementId
  }

  /** On non-null hits the comparer is equality of keys. */
  lemma EqualsIffSameKey(x: Hit, y: Hit)
    ensures Equals(Some(x), Some(y)) <==> Key(x) == Key(y)
  {
  }

  /** A null hit equals only null. */
  lemma NullEqualsOnlyNull(x: Option<Hit>)
    ensures Equals(None, x) <==> x.None?
    ensures Equals(x, None) <==> x.None?
  {
  }

  lemma EqualsReflexive(x: Option<Hit>)
    ensures Equals(x, x)
  {
  }

  lemma EqualsSymmetric(x: Option<Hit>, y: Option<Hit>)
    ensures Equals(x, y) <==> Equals(y, x)
  {
  }

  lemma EqualsTransitive(x: Option<Hit>, y: Option<Hit>, z: Option<Hit>)
    requires Equals(x, y) && Equals(y, z)
    ensures Equals(x, z)
  {
  }

  /** `(linked * 397) ^ element` in unchecked 32-bit arithmetic: `bv32`
      multiplication wraps around as `unchecked` does. The hash of an
      `ElementId` is taken to be that of its integer value, whose .NET hash
      is the value's own bits. */
  function Combine(linked: bv32, element: bv32): bv32
  {
    (linked * 397) ^ element
  }

  /** `GetHashCode(obj)`. */
  function GetHashCode(h: Hit): bv32
  {
    Combine(h.linkedId.bits, h.elementId.bits)
  }

  /** Equal hits have equal hash codes, as `IEqualityComparer` requires. */
  lemma HashConsistent(x: Hit, y: Hit)
    requires Equals(Some(x), Some(y))
    ensures GetHashCode(x) == GetHashCode(y)
  {
  }

  /** The hash does not separate all keys: element 397 with
      `LinkedElementId` 0 and element 0 with `LinkedElementId` 1 share a hash
      code. The comparer's `Equals` still tells them apart, so `Distinct`
      keeps both. */
  lemma HashCollides()
    ensures GetHashCode(Hit(0.0, ElementId(397), ElementId(0)))
         == GetHashCode(Hit(0.0, ElementId(0), ElementId(1)))
    ensures !Equals(Some(Hit(0.0, ElementId(397), ElementId(0))), Some(Hit(0.0, ElementId(0), ElementId(1))))
  {
  }

  /** The multiplication wraps: linked id 0x0100_0000 times 397 leaves 32
      bits, and only the low 32 bits of the product remain. */
  lemma HashWrapsAround()
    ensures GetHashCode(Hit(0.0, ElementId(0), ElementId(0x0100_0000))) == 0x8D00_0000
  {
  }

  /** For a fixed linked part, `Combine` is one-to-one in the element part. */
  lemma CombineInjective(linked: bv32, e1: bv32, e2: bv32)
    requires e1 != e2
    ensures Combine(linked, e1) != Combine(linked, e2)
  {
    assert Combine(linked, e1) ^ Combine(linked, e2) == e1 ^ e2;
  }

  /** Within one link, in particular among hits in the host document, the
      hash does separate keys: hits on different elements hash differently. */
  lemma HashSeparatesWithinLink(x: Hit, y: Hit)
    requires x.linkedId == y.linkedId && x.elementId != y.elementId
    ensures GetHashCode(x) != GetHashCode(y)
  {
    CombineInjective(x.linkedId.bits, x.elementId.bits, y.elementId.bits);
  }
}
