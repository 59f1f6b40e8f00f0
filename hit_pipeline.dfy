/**
 The per-run hit pipeline of `Execute`: the hits of the ray cast from the
 run's start along its direction, filtered to those whose proximity is at
 most the run's length, then deduplicated with the reference comparer and
 collected into a list.
 LINQ's `Where` and `Distinct` are modelled as the iterators they are:
 `Where` yields, in order, the hits the predicate accepts; `Distinct` keeps a
 set of the elements it has yielded and yields an element only when the set
 has no element equal to it under the comparer.
 */
module HitPipeline {
  import opened Wrappers
  import opened RevitModel
  import opened ReferenceComparer

  /** The keys of the hits of s. */
  function KeySet(s: seq<Hit>): set<HitKey>
  {
    set h | h in s :: Key(h)
  }

  /** No two hits of s share both `ElementId` and `LinkedElementId`. */
  predicate Unique(s: seq<Hit>)
  {
    forall i, j | 0 <= i < j < |s| :: Key(s[i]) != Key(s[j])
  }

  /** a is s with some elements left out and the rest in their order. */
  ghost predicate IsSubsequence(a: seq<Hit>, s: seq<Hit>)
    decreases |s|
  {
    if |a| == 0 then true
    else if |s| == 0 then false
    else (a[0] == s[0] && IsSubsequence(a[1..], s[1..])) || IsSubsequence(a, s[1..])
  }

  /** The first hit of s with key k, if any: the reference definition of the
      representative `Distinct` keeps. */
  function FirstWithKey(s: seq<Hit>, k: HitKey): (r: Option<Hit>)
    ensures r.Some? ==> r.value in s && Key(r.value) == k
    ensures r.Some? ==> exists i | 0 <= i < |s| :: s[i] == r.value && forall j | 0 <= j < i :: Key(s[j]) != k
    ensures r.None? <==> k !in KeySet(s)
  {
    if |s| == 0 then None
    else if Key(s[0]) == k then Some(s[0])
    else
      assert KeySet(s) == {Key(s[0])} + KeySet(s[1..]) by { assert s == [s[0]] + s[1..]; }
      FirstWithKey(s[1..], k)
  }

  /** The position of the first hit of s with key k, or |s| when there is
      none. */
  function FirstIndex(s: seq<Hit>, k: HitKey): (i: nat)
    ensures i <= |s|
    ensures i < |s| ==> Key(s[i]) == k
    ensures forall j | 0 <= j < i :: Key(s[j]) != k
  {
    if |s| == 0 then 0
    else if Key(s[0]) == k then 0
    else 1 + FirstIndex(s[1..], k)
  }

  /** The `Where` filter on proximity: exactly the hits no farther than the
      end of the run, the boundary included. */
  function InRange(hits: seq<Hit>, length: real): (r: seq<Hit>)
    ensures forall h :: h in r <==> h in hits && h.proximity <= length
  {
    if |hits| == 0 then []
    else if hits[0].proximity <= length then [hits[0]] + InRange(hits[1..], length)
    else InRange(hits[1..], length)
  }

  /** The lookup of the set LINQ's `Distinct` keeps: some element whose hash
      code, masked to its low 31 bits as the set stores it, matches h's, and
      that the comparer calls equal. */
  predicate SetContains(seen: seq<Hit>, h: Hit)
  {
    exists x | x in seen :: StoredHash(x) == StoredHash(h) && Equals(Some(x), Some(h))
  }

  /** The hash code as the set stores it: the sign bit cleared. */
  function StoredHash(h: Hit): bv32
  {
    GetHashCode(h) & 0x7FFF_FFFF
  }

  /** Because equal hits hash alike, the set holds an element equal to h
      exactly when h's key is among the keys already seen. */
  lemma SetContainsIffKey(seen: seq<Hit>, h: Hit)
    ensures SetContains(seen, h) <==> Key(h) in KeySet(seen)
  {
    if Key(h) in KeySet(seen) {
      var x :| x in seen && Key(x) == Key(h);
      EqualsIffSameKey(x, h);
      HashConsistent(x, h);
    }
    if SetContains(seen, h) {
      var x :| x in seen && StoredHash(x) == StoredHash(h) && Equals(Some(x), Some(h));
      EqualsIffSameKey(x, h);
    }
  }

  /** `Distinct`'s iterator over hits, having already yielded seen: it yields
      each hit whose key it has not met, in order, and nothing twice. */
  function DistinctFrom(hits: seq<Hit>, seen: seq<Hit>): (r: seq<Hit>)
    ensures forall h | h in r :: h in hits
    ensures Unique(r)
    ensures KeySet(r) == KeySet(hits) - KeySet(seen)
    decreases |hits|
  {
    if |hits| == 0 then []
    else
      var h := hits[0];
      assert KeySet(hits) == {Key(h)} + KeySet(hits[1..]) by { assert hits == [h] + hits[1..]; }
      assert KeySet(seen + [h]) == KeySet(seen) + {Key(h)};
      SetContainsIffKey(seen, h);
      if SetContains(seen, h) then DistinctFrom(hits[1..], seen)
      else
        var rest := DistinctFrom(hits[1..], seen + [h]);
        assert KeySet([h] + rest) == {Key(h)} + KeySet(rest);
        assert forall x | x in rest :: Key(x) in KeySet(rest);
        [h] + rest
  }

  /** `Distinct` with the reference comparer, from an empty set. */
  function Distinct(hits: seq<Hit>): (r: seq<Hit>)
    ensures forall h | h in r :: h in hits
    ensures Unique(r)
    ensures KeySet(r) == KeySet(hits)
  {
    DistinctFrom(hits, [])
  }

  /** The hits a run keeps: all within its length, none sharing a key with
      another, and every key met within the length represented. */
  function KeptHits(hits: seq<Hit>, length: real): (r: seq<Hit>)
    ensures forall h | h in r :: h in hits && h.proximity <= length
    ensures Unique(r)
    ensures KeySet(r) == KeySet(InRange(hits, length))
  {
    Distinct(InRange(hits, length))
  }

  lemma {:induction false} SubsequenceTransitive(a: seq<Hit>, b: seq<Hit>, c: seq<Hit>)
    requires IsSubsequence(a, b) && IsSubsequence(b, c)
    ensures IsSubsequence(a, c)
    decreases |c|
  {
    if |a| > 0 {
      if IsSubsequence(b, c[1..]) {
        SubsequenceTransitive(a, b, c[1..]);
      } else if a[0] == b[0] && IsSubsequence(a[1..], b[1..]) {
        SubsequenceTransitive(a[1..], b[1..], c[1..]);
      } else {
        SubsequenceTransitive(a, b[1..], c[1..]);
      }
    }
  }

  /** `Where` keeps the order of the hits it lets through. */
  lemma {:induction false} InRangeIsSubsequence(hits: seq<Hit>, length: real)
    ensures IsSubsequence(InRange(hits, length), hits)
    decreases |hits|
  {
    if |hits| > 0 {
      InRangeIsSubsequence(hits[1..], length);
    }
  }

  /** `Distinct` keeps the order of the hits it yields. */
  lemma {:induction false} DistinctFromIsSubsequence(hits: seq<Hit>, seen: seq<Hit>)
    ensures IsSubsequence(DistinctFrom(hits, seen), hits)
    decreases |hits|
  {
    if |hits| > 0 {
      var h := hits[0];
      SetContainsIffKey(seen, h);
      if SetContains(seen, h) {
        DistinctFromIsSubsequence(hits[1..], seen);
      } else {
        DistinctFromIsSubsequence(hits[1..], seen + [h]);
      }
    }
  }

  /** The kept hits are the raw hits with some left out, in the order the ray
      caster returned them. */
  lemma KeptIsSubsequence(hits: seq<Hit>, length: real)
    ensures IsSubsequence(KeptHits(hits, length), hits)
  {
    InRangeIsSubsequence(hits, length);
    DistinctFromIsSubsequence(InRange(hits, length), []);
    SubsequenceTransitive(KeptHits(hits, length), InRange(hits, length), hits);
  }

  /** Each hit `Distinct` yields is the first hit of its input with that key. */
  lemma {:induction false} DistinctFromFirstSeen(hits: seq<Hit>, seen: seq<Hit>, i: nat)
    requires i < |DistinctFrom(hits, seen)|
    ensures FirstWithKey(hits, Key(DistinctFrom(hits, seen)[i])) == Some(DistinctFrom(hits, seen)[i])
    decreases |hits|
  {
    var r := DistinctFrom(hits, seen);
    var h := hits[0];
    assert Key(r[i]) in KeySet(r);
    assert Key(h) in KeySet(seen + [h]);
    SetContainsIffKey(seen, h);
    if SetContains(seen, h) {
      DistinctFromFirstSeen(hits[1..], seen, i);
    } else if i > 0 {
      var rest := DistinctFrom(hits[1..], seen + [h]);
      assert Key(rest[i - 1]) in KeySet(rest);
      DistinctFromFirstSeen(hits[1..], seen + [h], i - 1);
    }
  }

  /** The hit kept for a key is the first in-range raw hit with that key:
      filtering runs before `Distinct`, so an out-of-range hit earlier on the
      ray does not suppress it. */
  lemma KeptIsFirstInRange(hits: seq<Hit>, length: real)
    ensures forall i | 0 <= i < |KeptHits(hits, length)| ::
      FirstWithKey(InRange(hits, length), Key(KeptHits(hits, length)[i])) == Some(KeptHits(hits, length)[i])
  {
    forall i | 0 <= i < |KeptHits(hits, length)|
      ensures FirstWithKey(InRange(hits, length), Key(KeptHits(hits, length)[i])) == Some(KeptHits(hits, length)[i])
    {
      DistinctFromFirstSeen(InRange(hits, length), [], i);
    }
  }

  /** `Distinct` yields its hits in the order in which their keys first
      occur in its input. */
  lemma {:induction false} DistinctFromOrder(hits: seq<Hit>, seen: seq<Hit>, i: nat, j: nat)
    requires i < j < |DistinctFrom(hits, seen)|
    ensures FirstIndex(hits, Key(DistinctFrom(hits, seen)[i])) < FirstIndex(hits, Key(DistinctFrom(hits, seen)[j]))
    decreases |hits|
  {
    var r := DistinctFrom(hits, seen);
    var h := hits[0];
    var ki, kj := Key(r[i]), Key(r[j]);
    SetContainsIffKey(seen, h);
    if SetContains(seen, h) {
      assert ki != Key(h) && kj != Key(h) by {
        assert ki in KeySet(r) && kj in KeySet(r);
      }
      DistinctFromOrder(hits[1..], seen, i, j);
      FirstIndexTail(hits, ki);
      FirstIndexTail(hits, kj);
    } else {
      var rest := DistinctFrom(hits[1..], seen + [h]);
      assert r == [h] + rest;
      assert kj != Key(h) by {
        assert Key(h) in KeySet(seen + [h]);
        assert kj == Key(rest[j - 1]) && Key(rest[j - 1]) in KeySet(rest);
      }
      FirstIndexTail(hits, kj);
      if i > 0 {
        assert ki != Key(h) by {
          assert Key(h) in KeySet(seen + [h]);
          assert ki == Key(rest[i - 1]) && Key(rest[i - 1]) in KeySet(rest);
        }
        DistinctFromOrder(hits[1..], seen + [h], i - 1, j - 1);
        FirstIndexTail(hits, ki);
      }
    }
  }

  lemma FirstIndexTail(s: seq<Hit>, k: HitKey)
    requires |s| > 0 && Key(s[0]) != k
    ensures FirstIndex(s, k) == 1 + FirstIndex(s[1..], k)
  {
  }

  /** The kept hits come in the order in which their keys first occur among
      the in-range raw hits, whatever duplicates the ray caster reports. */
  lemma KeptOrder(hits: seq<Hit>, length: real)
    ensures forall i, j | 0 <= i < j < |KeptHits(hits, length)| ::
      FirstIndex(InRange(hits, length), Key(KeptHits(hits, length)[i]))
        < FirstIndex(InRange(hits, length), Key(KeptHits(hits, length)[j]))
  {
    forall i, j | 0 <= i < j < |KeptHits(hits, length)|
      ensures FirstIndex(InRange(hits, length), Key(KeptHits(hits, length)[i]))
            < FirstIndex(InRange(hits, length), Key(KeptHits(hits, length)[j]))
    {
      DistinctFromOrder(InRange(hits, length), [], i, j);
    }
  }

  /** Every key among the in-range raw hits has a kept hit. */
  lemma KeptIsComplete(hits: seq<Hit>, length: real, h: Hit)
    requires h in hits && h.proximity <= length
    ensures exists k | k in KeptHits(hits, length) :: Key(k) == Key(h)
  {
    assert Key(h) in KeySet(InRange(hits, length));
  }

  /** A run keeps nothing exactly when the ray caster reports no hit within
      its length, in particular when it reports no hit at all. */
  lemma KeptEmptyIff(hits: seq<Hit>, length: real)
    ensures KeptHits(hits, length) == [] <==> forall h | h in hits :: h.proximity > length
  {
    var r := KeptHits(hits, length);
    if r != [] {
      assert r[0] in r;
    } else {
      forall h | h in hits
        ensures h.proximity > length
      {
        if h.proximity <= length {
          KeptIsComplete(hits, length, h);
        }
      }
    }
  }

  /** A sequence with unique keys has as many keys as elements. */
  lemma {:induction false} UniqueKeyCount(s: seq<Hit>)
    requires Unique(s)
    ensures |KeySet(s)| == |s|
  {
    if |s| > 0 {
      assert KeySet(s) == {Key(s[0])} + KeySet(s[1..]) by { assert s == [s[0]] + s[1..]; }
      assert Key(s[0]) !in KeySet(s[1..]);
      UniqueKeyCount(s[1..]);
    }
  }

  /** A run keeps one hit per distinct (element, link) pair met within its
      length. */
  lemma KeptCount(hits: seq<Hit>, length: real)
    ensures |KeptHits(hits, length)| == |KeySet(InRange(hits, length))|
  {
    UniqueKeyCount(KeptHits(hits, length));
  }

  lemma {:induction false} InRangeKeepsAll(s: seq<Hit>, length: real)
    requires forall h | h in s :: h.proximity <= length
    ensures InRange(s, length) == s
  {
    if |s| > 0 {
      InRangeKeepsAll(s[1..], length);
    }
  }

  /** `Distinct` over hits with unique keys, none of them seen, yields them
      all. */
  lemma {:induction false} DistinctFromUnique(s: seq<Hit>, seen: seq<Hit>)
    requires Unique(s) && KeySet(s) !! KeySet(seen)
    ensures DistinctFrom(s, seen) == s
    decreases |s|
  {
    if |s| > 0 {
      var h := s[0];
      assert Key(h) in KeySet(s);
      SetContainsIffKey(seen, h);
      assert KeySet(seen + [h]) == KeySet(seen) + {Key(h)};
      assert Key(h) !in KeySet(s[1..]);
      assert KeySet(s[1..]) <= KeySet(s);
      DistinctFromUnique(s[1..], seen + [h]);
      assert s == [h] + s[1..];
    }
  }

  /** Running the filter and `Distinct` again on the kept hits changes
      nothing. */
  lemma KeptIdempotent(hits: seq<Hit>, length: real)
    ensures KeptHits(KeptHits(hits, length), length) == KeptHits(hits, length)
  {
    var r := KeptHits(hits, length);
    InRangeKeepsAll(r, length);
    DistinctFromUnique(r, []);
  }

  /** A one-hit list within the run is kept as it is. */
  lemma KeptSingle(h: Hit, length: real)
    ensures KeptHits([h], length) == if h.proximity <= length then [h] else []
  {
    assert [h][1..] == [];
    assert InRange([], length) == [];
    assert !SetContains([], h);
    assert [] + [h] == [h];
    assert DistinctFrom([], [h]) == [];
    assert DistinctFrom([], []) == [];
  }

  /** Two hits on one key, both within the run: only the first is kept. */
  lemma KeptPairSameKey(a: Hit, b: Hit, length: real)
    requires Key(a) == Key(b)
    requires a.proximity <= length && b.proximity <= length
    ensures KeptHits([a, b], length) == [a]
  {
    assert [a, b][1..] == [b];
    assert [b][1..] == [];
    assert InRange([], length) == [];
    assert InRange([b], length) == [b];
    assert InRange([a, b], length) == [a, b];
    assert !SetContains([], a);
    assert [] + [a] == [a];
    SetContainsIffKey([a], b);
    assert Key(a) in KeySet([a]);
    assert DistinctFrom([], [a]) == [];
    assert DistinctFrom([b], [a]) == [];
  }

  /** Two faces of one wall at 398 and 402 give one kept hit, the first
      reported. */
  lemma TwoFacesOneHit()
    ensures KeptHits([Hit(398.0, ElementId(7), InvalidElementId), Hit(402.0, ElementId(7), InvalidElementId)], 1000.0)
         == [Hit(398.0, ElementId(7), InvalidElementId)]
  {
    KeptPairSameKey(Hit(398.0, ElementId(7), InvalidElementId), Hit(402.0, ElementId(7), InvalidElementId), 1000.0);
  }

  /** The kept hit is the first reported, not the nearest. */
  lemma FirstSeenNotNearest()
    ensures KeptHits([Hit(402.0, ElementId(7), InvalidElementId), Hit(398.0, ElementId(7), InvalidElementId)], 1000.0)
         == [Hit(402.0, ElementId(7), InvalidElementId)]
  {
    KeptPairSameKey(Hit(402.0, ElementId(7), InvalidElementId), Hit(398.0, ElementId(7), InvalidElementId), 1000.0);
  }

  /** A hit past the end of the run, reported first, does not suppress an
      in-range hit on the same wall. */
  lemma OutOfRangeDoesNotSuppress()
    ensures KeptHits([Hit(1500.0, ElementId(7), InvalidElementId), Hit(400.0, ElementId(7), InvalidElementId)], 1000.0)
         == [Hit(400.0, ElementId(7), InvalidElementId)]
  {
    var far, near := Hit(1500.0, ElementId(7), InvalidElementId), Hit(400.0, ElementId(7), InvalidElementId);
    assert [far, near][1..] == [near];
    assert InRange([far, near], 1000.0) == InRange([near], 1000.0);
    KeptSingle(near, 1000.0);
  }

  /** The boundary is inclusive: a hit exactly at the end of the run is kept,
      one any distance beyond it is dropped. */
  lemma BoundaryInclusive(h: Hit, length: real, beyond: real)
    requires beyond > 0.0
    ensures KeptHits([h.(proximity := length)], length) == [h.(proximity := length)]
    ensures KeptHits([h.(proximity := length + beyond)], length) == []
  {
    KeptSingle(h.(proximity := length), length);
    KeptSingle(h.(proximity := length + beyond), length);
  }
}
