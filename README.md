# AddOpeningPlugin — a Dafny model of the opening placer

The Revit add-in `AddOpenings` puts a rectangular "Opening" family instance in
every wall that a duct or a pipe of the linked mechanical model passes through.
For each duct, and then each pipe, it casts a ray from the start of the
element's centreline along its direction. It keeps the wall hits no farther than
the centreline's length and removes duplicate hits on the same
(`ElementId`, `LinkedElementId`) pair with a custom equality comparer. For each
hit that is left it creates one opening: at `start + direction * proximity`,
hosted by the wall on the wall's level, with width and height both
`diameter + offset` (offset = 30 mm).

The model has five modules:

- `Wrappers`: `Option`, which stands for a .NET reference that may be null.
- `RevitModel`: the Revit values the command reads. These are `ElementId`
  (held as the 32 bits of its integer value), `XYZ` over exact reals, the ray
  cast `Hit` (`Proximity`, `ElementId`, `LinkedElementId`), `Wall` and `Level`.
- `ReferenceComparer`: `ReferenceWithContextElemetEqualityComparer.Equals` and
  `GetHashCode`. The hash uses `bv32` arithmetic, so the `unchecked`
  multiplication wraps around.
- `HitPipeline`: `Where(x => x.Proximity <= length)` and `Distinct(comparer)`,
  written as the LINQ iterators they are. `Distinct` keeps a set of the hits it
  has already yielded and looks a hit up by hash code and `Equals`, as .NET's
  hash set does. The properties of the kept list are proved here: bounds,
  unique keys, order-preserving subsequence, first-seen representative,
  completeness, count and idempotence.
- `AddOpenings`: the placement arithmetic and the functions `RunOpenings` and
  `BatchOpenings`, which specify the openings the loops produce. The class
  `ArchDocument` holds the created openings and the opening type's `IsActive`
  flag. Its methods are the activation check, the per-hit loop, the per-run
  loop and `Execute`. Each method is proved against those functions.

The ray caster (`ReferenceIntersector.Find`) is a parameter of type
`(Xyz, Xyz) -> seq<Hit>`. The order of its hits is arbitrary. `arDoc.GetElement`
is the pair of maps `ArchElements` (walls by id, levels by id). The clearance
`offset` is a parameter.

Behaviour of the code that the model keeps as written:

- A hit whose wall or level lookup fails is not skipped. The code reads the
  level id of the wall it looked up without a null check
  (AddOpeningPlugin/AddOpenings.cs:85-86, 118-119), so a hit on something
  other than a wall throws. The level it looks up is passed on to
  `NewFamilyInstance` unchecked (AddOpeningPlugin/AddOpenings.cs:89, 122);
  what Revit does with a null level is not visible in the code. The model
  requires that every kept hit names a wall and that the wall's level is
  found, the latter as a modelling choice.
- No transaction is rolled back by the code. Each one is started and
  committed unconditionally, with no error handling around it.
- The hash `(linked * 397) ^ element` collides across links
  (`ReferenceComparer.HashCollides`), though never within one link
  (`ReferenceComparer.HashSeparatesWithinLink`). `Distinct` still decides
  by `Equals` after comparing hashes, so a collision does not merge hits.
- When one wall reports several hits, the hit kept is the first one within
  the run's length that the ray caster reports, which need not be the nearest
  (`HitPipeline.FirstSeenNotNearest`). An earlier hit beyond the length does
  not count (`HitPipeline.OutOfRangeDoesNotSuppress`).

## Model

| member | source | states |
|---|---|---|
| `RevitModel.PointAt` | AddOpeningPlugin/AddOpenings.cs:87 | `start + direction * proximity`; along a unit direction the point projects exactly `proximity` ahead of the start and lies at squared distance `proximity²` from it |
| `RevitModel.PointAtDistance` | AddOpeningPlugin/AddOpenings.cs:87 | with a unit direction and 0 ≤ t ≤ length, the point lies within the length of the start (squared distance ≤ length²) |
| `ReferenceComparer.Equals` | AddOpeningPlugin/AddOpenings.cs:137-151 | the comparer, with its reference-equality and null shortcuts; it holds exactly when both arguments are null or both are non-null with the same `ElementId` and `LinkedElementId` |
| `ReferenceComparer.EqualsIffSameKey` | AddOpeningPlugin/AddOpenings.cs:137-151 | on non-null hits, `Equals` holds exactly when `ElementId` and `LinkedElementId` both agree |
| `ReferenceComparer.NullEqualsOnlyNull` | AddOpeningPlugin/AddOpenings.cs:139-144 | a null argument equals only null; null against a non-null hit is false, in either position |
| `ReferenceComparer.EqualsReflexive` | AddOpeningPlugin/AddOpenings.cs:139-140 | every hit (and null) equals itself |
| `ReferenceComparer.EqualsSymmetric` | AddOpeningPlugin/AddOpenings.cs:137-151 | `Equals(x, y)` iff `Equals(y, x)` |
| `ReferenceComparer.EqualsTransitive` | AddOpeningPlugin/AddOpenings.cs:137-151 | `Equals` is transitive, so it is an equivalence relation |
| `ReferenceComparer.HashConsistent` | AddOpeningPlugin/AddOpenings.cs:153-160 | hits that `Equals` calls equal have the same `GetHashCode` |
| `ReferenceComparer.Combine` | AddOpeningPlugin/AddOpenings.cs:157-160 | computes `(linked * 397) ^ element` in wrapping 32-bit arithmetic (no contract; see `CombineInjective`) |
| `ReferenceComparer.GetHashCode` | AddOpeningPlugin/AddOpenings.cs:153-160 | the hash of a hit from its `LinkedElementId` and `ElementId` (no contract; see `HashConsistent`, `HashSeparatesWithinLink`) |
| `ReferenceComparer.CombineInjective` | AddOpeningPlugin/AddOpenings.cs:159 | for a fixed linked part, different element parts give different hashes |
| `ReferenceComparer.HashSeparatesWithinLink` | AddOpeningPlugin/AddOpenings.cs:153-160 | hits with the same `LinkedElementId` (e.g. all host-document hits) on different elements have different hash codes |
| `ReferenceComparer.HashCollides` | AddOpeningPlugin/AddOpenings.cs:159 | two hits that `Equals` separates (element 397 with `LinkedElementId` 0, element 0 with `LinkedElementId` 1) share a hash code |
| `ReferenceComparer.HashWrapsAround` | AddOpeningPlugin/AddOpenings.cs:157-160 | the `unchecked` product keeps only its low 32 bits |
| `HitPipeline.FirstWithKey` | AddOpeningPlugin/AddOpenings.cs:79 | reference definition of the first hit with a key: it is in the list with that key and no earlier hit has the key; it is absent exactly when no hit has the key |
| `HitPipeline.FirstIndex` | AddOpeningPlugin/AddOpenings.cs:79 | reference definition of the position of the first hit with a key: no earlier hit has the key, and the hit there has it (the list length when absent) |
| `HitPipeline.InRange` | AddOpeningPlugin/AddOpenings.cs:78 | a hit is in the filtered list iff it is a raw hit with proximity ≤ length |
| `HitPipeline.SetContains` | AddOpeningPlugin/AddOpenings.cs:79 | the lookup of the set `Distinct` keeps: some yielded hit whose hash, with the sign bit cleared as the set stores it, matches, and that `Equals` relates (no contract; see `SetContainsIffKey`) |
| `HitPipeline.SetContainsIffKey` | AddOpeningPlugin/AddOpenings.cs:79 | the hash-set lookup (same stored hash and `Equals`) finds a hit exactly when its key is among the keys already yielded |
| `HitPipeline.DistinctFrom` | AddOpeningPlugin/AddOpenings.cs:79 | `Distinct`'s iterator yields only input hits and no two with one key; its keys are exactly the input's keys minus those already seen |
| `HitPipeline.Distinct` | AddOpeningPlugin/AddOpenings.cs:79 | `Distinct` keeps only input hits, no two sharing a key, and every input key |
| `HitPipeline.KeptHits` | AddOpeningPlugin/AddOpenings.cs:77-80 | every kept hit is a raw hit with proximity ≤ length; no two kept hits share both ids; the kept keys are exactly the in-range keys |
| `HitPipeline.InRangeIsSubsequence` | AddOpeningPlugin/AddOpenings.cs:78 | the filter keeps the raw order |
| `HitPipeline.DistinctFromIsSubsequence` | AddOpeningPlugin/AddOpenings.cs:79 | `Distinct` keeps the input order |
| `HitPipeline.KeptIsSubsequence` | AddOpeningPlugin/AddOpenings.cs:77-80 | the kept list is an order-preserving subsequence of the raw hits |
| `HitPipeline.DistinctFromFirstSeen` | AddOpeningPlugin/AddOpenings.cs:79 | each hit `Distinct` yields is the first of its input with that key |
| `HitPipeline.KeptIsFirstInRange` | AddOpeningPlugin/AddOpenings.cs:77-80 | each kept hit is the first in-range raw hit with its key (the filter runs before `Distinct`) |
| `HitPipeline.DistinctFromOrder` | AddOpeningPlugin/AddOpenings.cs:79 | `Distinct` yields hits in the order in which their keys first occur in its input |
| `HitPipeline.KeptOrder` | AddOpeningPlugin/AddOpenings.cs:77-80 | kept hits come in the order in which their keys first occur among the in-range raw hits, even when the caster repeats a hit |
| `HitPipeline.KeptIsComplete` | AddOpeningPlugin/AddOpenings.cs:77-80 | every key of an in-range raw hit has a kept hit |
| `HitPipeline.KeptEmptyIff` | AddOpeningPlugin/AddOpenings.cs:77-81 | nothing is kept exactly when every raw hit (if any) is beyond the length |
| `HitPipeline.KeptCount` | AddOpeningPlugin/AddOpenings.cs:77-80 | the number of kept hits equals the number of distinct keys among the in-range hits |
| `HitPipeline.InRangeKeepsAll` | AddOpeningPlugin/AddOpenings.cs:78 | filtering hits that are all in range returns them unchanged |
| `HitPipeline.DistinctFromUnique` | AddOpeningPlugin/AddOpenings.cs:79 | `Distinct` over unique, unseen keys returns its input unchanged |
| `HitPipeline.KeptIdempotent` | AddOpeningPlugin/AddOpenings.cs:77-80 | filtering and deduplicating the kept list again returns it unchanged |
| `HitPipeline.KeptSingle` | AddOpeningPlugin/AddOpenings.cs:77-80 | a single raw hit is kept iff its proximity is ≤ the length |
| `HitPipeline.KeptPairSameKey` | AddOpeningPlugin/AddOpenings.cs:79 | of two in-range hits on one key only the first is kept |
| `HitPipeline.TwoFacesOneHit` | AddOpeningPlugin/AddOpenings.cs:79 | two faces of one wall (398, 402) give one kept hit |
| `HitPipeline.FirstSeenNotNearest` | AddOpeningPlugin/AddOpenings.cs:79 | when the farther face is reported first, it is the one kept |
| `HitPipeline.OutOfRangeDoesNotSuppress` | AddOpeningPlugin/AddOpenings.cs:77-80 | an out-of-range hit reported first does not suppress a later in-range hit on the same wall |
| `HitPipeline.BoundaryInclusive` | AddOpeningPlugin/AddOpenings.cs:78 | a hit exactly at the length is kept; one any distance beyond is dropped |
| `AddOpenings.RunHits` | AddOpeningPlugin/AddOpenings.cs:74-80 | the hits a run keeps from the ray cast from its line's first end point along its direction (no contract; see the `HitPipeline.Kept*` lemmas) |
| `AddOpenings.OpeningFor` | AddOpeningPlugin/AddOpenings.cs:83-94 | the opening for one kept hit, at `start + direction * proximity`, in the hit's wall and on that wall's level, `diameter + offset` wide and high; it is square, and along a unit direction its point projects `proximity` ahead of the start |
| `AddOpenings.RunOpenings` | AddOpeningPlugin/AddOpenings.cs:81-95 | one opening per kept hit of a run, in kept order (no contract; see `RunOpeningCount`, `RunOpeningsFromHits`, `EveryPenetrationGetsOpening`, `NoOpeningsIff`) |
| `AddOpenings.BatchOpenings` | AddOpeningPlugin/AddOpenings.cs:72-96 | the openings of a list of runs, run after run (no contract; see `BatchOpeningsAppend`, `BatchOpeningsSized`) |
| `AddOpenings.RunOpeningCount` | AddOpeningPlugin/AddOpenings.cs:77-95 | a run makes exactly one opening per distinct (wall, link) pair its ray meets within its length |
| `AddOpenings.RunOpeningsFromHits` | AddOpeningPlugin/AddOpenings.cs:81-94 | every opening is square with side `diameter + offset`, stands at `start + direction * proximity` of an in-range raw hit, is hosted by that hit's wall, and is placed on that wall's level |
| `AddOpenings.EveryPenetrationGetsOpening` | AddOpeningPlugin/AddOpenings.cs:77-94 | every in-range raw hit's wall gets an opening, placed at the first in-range hit on that wall and link |
| `AddOpenings.NoOpeningsIff` | AddOpeningPlugin/AddOpenings.cs:77-81 | a run makes no opening exactly when no wall is met within its length |
| `AddOpenings.OpeningsWithinLength` | AddOpeningPlugin/AddOpenings.cs:74-87 | with a unit direction and forward hits, every opening lies within the run's length of its start |
| `AddOpenings.BatchOpeningsAppend` | AddOpeningPlugin/AddOpenings.cs:72-129 | the duct loop followed by the pipe loop makes the openings of one loop over ducts then pipes |
| `AddOpenings.BatchOpeningsStep` | AddOpeningPlugin/AddOpenings.cs:72-96 | one more iteration of the run loop appends that run's openings to the batch |
| `AddOpenings.BatchOpeningsSized` | AddOpeningPlugin/AddOpenings.cs:93-94 | every opening of a batch is square, sized from some run's diameter plus the offset |
| `AddOpenings.SingleWallScenario` | AddOpeningPlugin/AddOpenings.cs:81-94 | a 200-diameter, 1000-long duct along +X meeting one wall at 400 gets one opening at x + 400, 230 × 230 |
| `AddOpenings.ArchDocument.ActivateOpeningType` | AddOpeningPlugin/AddOpenings.cs:70-71 | afterwards the type is active; on an active type the check changes nothing; openings are untouched |
| `AddOpenings.ArchDocument.PlaceRunOpenings` | AddOpeningPlugin/AddOpenings.cs:81-95 | the per-hit loop appends exactly the run's openings, in kept order |
| `AddOpenings.ArchDocument.PlaceOpenings` | AddOpeningPlugin/AddOpenings.cs:72-96 | the per-run loop appends exactly the batch's openings, run after run |
| `AddOpenings.ArchDocument.Execute` | AddOpeningPlugin/AddOpenings.cs:67-131 | the type ends active, and the document gains the duct openings followed by the pipe openings, i.e. the openings of ducts ++ pipes |

## Left out

- AddOpenings.ArchDocument.Execute: starts after the pre-flight checks. Finding the mechanical document by title, the "Opening" family type and a non-template 3D view, with the `TaskDialog` and `Result.Cancelled` return for each, are Revit queries and UI. So are the duct and pipe collectors, whose results are the `ducts` and `pipes` parameters. The `Result.Succeeded` return is not modelled.
- `ReferenceIntersector` and its wall filter: a foreign geometry kernel. It is the `cast` parameter, and the order of its hits is unconstrained.
- `UnitUtils.ConvertToInternalUnits(30, Millimeters)`: a foreign conversion. Its result is the `offset` parameter.
- Centreline extraction: `(Location as LocationCurve).Curve as Line` is taken as given (`LinearRun`). A curved duct or pipe makes the source fail with a null dereference, which is not modelled.
- `ReferenceComparer.GetHashCode`: takes the hash of an `ElementId` to be its 32-bit integer value, as `Int32.GetHashCode` is. `ElementId.GetHashCode` is Revit's own. A 64-bit id would hash differently, but the hash-consistency result holds for any id hash.
- `ReferenceComparer.Equals`: `ReferenceEquals` is modelled as equality of values. Distinct objects with equal fields reach the field comparison, which also answers true, so the result is the same.
- The ray caster is a fixed function for the whole command. Openings created by the duct loop could change the wall geometry that the pipe loop's rays meet; such changes are not modelled.
- Floating-point rounding in `XYZ` arithmetic and in `diameter + offset`: the model uses exact reals.
- Transactions (`Start`/`Commit`): there is no rollback in the source.
- A kept hit whose element is not a wall: the source then reads `LevelId` of a null wall (AddOpeningPlugin/AddOpenings.cs:86, 119) and throws; the model requires that every kept hit names a wall. A wall whose level is not found gives a null level, which the source passes on to `NewFamilyInstance` (AddOpeningPlugin/AddOpenings.cs:89, 122) without dereferencing it; what Revit does with it is not visible in the code, and the model requires, as a modelling choice, that the level is found.
- `LookupParameter("Width"/"Height")` and `Parameter.Set`: only the values written are modelled, as the opening's `width` and `height`.
- `FamilySymbol.Activate` side effects other than making the type active (regeneration), and `Duct.Diameter` for non-round ducts: Revit internals.
