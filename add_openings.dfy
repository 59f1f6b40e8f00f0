/**
 `AddOpenings.Execute`: for every duct, then every pipe, cast a ray along its
 centreline, keep the hits the pipeline keeps, and create one opening per
 kept hit in the architectural document, after making sure the opening
 type is active.
 */
module AddOpenings {
  import opened RevitModel
  import opened ReferenceComparer
  import opened HitPipeline

  /** A duct or a pipe, through the straight `Line` of its `LocationCurve`:
      the line's first end point, its `Direction`, its `Length`, and the
      element's `Diameter`. Ducts and pipes are handled by the same code. */
  datatype LinearRun = LinearRun(start: Xyz, direction: Xyz, length: real, diameter: real)

  /** `ReferenceIntersector.Find(origin, direction)` over the walls seen in
      the 3D view; the order of the hits it returns is its own. */
  type RayCaster = (Xyz, Xyz) -> seq<Hit>

  /** An opening instance as created by `NewFamilyInstance(point, openingType,
      wall, level, StructuralType.NonStructural)`, with the values written to
      its "Width" and "Height" parameters. */
  datatype Opening = Opening(point: Xyz, host: Wall, level: Level, width: real, height: real)

  /** What `arDoc.GetElement` finds: the walls and the levels of the
      architectural document, by id. */
  datatype ArchElements = ArchElements(walls: map<ElementId, Wall>, levels: map<ElementId, Level>)
  {
    /** `GetElement(ElementId) as Wall` and `GetElement(wall.LevelId) as
        Level` both find an element for h. */
    predicate Resolves(h: Hit)
    {
      h.elementId in walls && walls[h.elementId].levelId in levels
    }

    /** Every hit the run keeps resolves to a wall on a level. */
    predicate RunResolves(run: LinearRun, cast: RayCaster)
    {
      forall h | h in RunHits(run, cast) :: Resolves(h)
    }
  }

  /** The hits a run keeps from the ray cast from its start along its
      direction. */
  function RunHits(run: LinearRun, cast: RayCaster): seq<Hit>
  {
    KeptHits(cast(run.start, run.direction), run.length)
  }

  /** The opening made for one kept hit: at `start + direction * proximity`,
      hosted by the hit's wall on that wall's level, `diameter + offset` wide
      and high. */
  function OpeningFor(run: LinearRun, h: Hit, elements: ArchElements, offset: real): (o: Opening)
    requires elements.Resolves(h)
    ensures o.width == o.height
    ensures Dot(run.direction, run.direction) == 1.0 ==>
              Dot(Minus(o.point, run.start), run.direction) == h.proximity
  {
    var wall := elements.walls[h.elementId];
    Opening(PointAt(run.start, run.direction, h.proximity), wall, elements.levels[wall.levelId],
            run.diameter + offset, run.diameter + offset)
  }

  /** The openings one run makes: one per kept hit, in the kept order. */
  function RunOpenings(run: LinearRun, cast: RayCaster, elements: ArchElements, offset: real): seq<Opening>
    requires elements.RunResolves(run, cast)
  {
    var kept := RunHits(run, cast);
    seq(|kept|, i requires 0 <= i < |kept| => OpeningFor(run, kept[i], elements, offset))
  }

  /** The openings a sequence of runs makes, run after run. */
  function BatchOpenings(runs: seq<LinearRun>, cast: RayCaster, elements: ArchElements, offset: real): seq<Opening>
    requires forall r | r in runs :: elements.RunResolves(r, cast)
  {
    if |runs| == 0 then []
    else BatchOpenings(runs[..|runs| - 1], cast, elements, offset)
         + RunOpenings(runs[|runs| - 1], cast, elements, offset)
  }

  /** A run makes one opening per distinct (wall, link) pair its ray meets
      within the run's length. */
  lemma RunOpeningCount(run: LinearRun, cast: RayCaster, elements: ArchElements, offset: real)
    requires elements.RunResolves(run, cast)
    ensures |RunOpenings(run, cast, elements, offset)| == |KeySet(InRange(cast(run.start, run.direction), run.length))|
  {
    KeptCount(cast(run.start, run.direction), run.length);
  }

  /** Every opening of a run comes from a raw hit within the run's length:
      it stands at that hit's point on the centreline, in that hit's wall,
      on that wall's level, and is square, `diameter + offset` on each side. */
  lemma RunOpeningsFromHits(run: LinearRun, cast: RayCaster, elements: ArchElements, offset: real)
    requires elements.RunResolves(run, cast)
    ensures forall o | o in RunOpenings(run, cast, elements, offset) ::
      && o.width == o.height == run.diameter + offset
      && exists h | h in cast(run.start, run.direction) ::
           && h.proximity <= run.length
           && o.point == PointAt(run.start, run.direction, h.proximity)
           && h.elementId in elements.walls
           && o.host == elements.walls[h.elementId]
    ensures forall o | o in RunOpenings(run, cast, elements, offset) ::
      o.host.levelId in elements.levels && o.level == elements.levels[o.host.levelId]
  {
    var kept := RunHits(run, cast);
    var os := RunOpenings(run, cast, elements, offset);
    forall o | o in os
      ensures o.width == o.height == run.diameter + offset
      ensures exists h | h in cast(run.start, run.direction) ::
           && h.proximity <= run.length
           && o.point == PointAt(run.start, run.direction, h.proximity)
           && h.elementId in elements.walls
           && o.host == elements.walls[h.elementId]
      ensures o.host.levelId in elements.levels && o.level == elements.levels[o.host.levelId]
    {
      var i :| 0 <= i < |os| && os[i] == o;
      assert kept[i] in kept;
    }
  }

  /** No wall the ray meets within the run is missed: for every in-range raw
      hit, the run makes an opening in that hit's wall, at the first in-range
      hit on that wall and link. */
  lemma EveryPenetrationGetsOpening(run: LinearRun, cast: RayCaster, elements: ArchElements, offset: real, h: Hit)
    requires elements.RunResolves(run, cast)
    requires h in cast(run.start, run.direction) && h.proximity <= run.length
    ensures h.elementId in elements.walls
    ensures exists o | o in RunOpenings(run, cast, elements, offset) ::
      && o.host == elements.walls[h.elementId]
      && FirstWithKey(InRange(cast(run.start, run.direction), run.length), Key(h)).Some?
      && o.point == PointAt(run.start, run.direction,
                            FirstWithKey(InRange(cast(run.start, run.direction), run.length), Key(h)).value.proximity)
  {
    var hits := cast(run.start, run.direction);
    var kept := RunHits(run, cast);
    KeptIsComplete(hits, run.length, h);
    var k :| k in kept && Key(k) == Key(h);
    var i :| 0 <= i < |kept| && kept[i] == k;
    KeptIsFirstInRange(hits, run.length);
    var os := RunOpenings(run, cast, elements, offset);
    assert os[i] in os;
  }

  /** A run makes no opening exactly when its ray meets no wall within the
      run's length, in particular when it meets none at all. */
  lemma NoOpeningsIff(run: LinearRun, cast: RayCaster, elements: ArchElements, offset: real)
    requires elements.RunResolves(run, cast)
    ensures RunOpenings(run, cast, elements, offset) == []
        <==> forall h | h in cast(run.start, run.direction) :: h.proximity > run.length
  {
    KeptEmptyIff(cast(run.start, run.direction), run.length);
  }

  /** Along a unit direction, and with the ray caster reporting distances
      forward of the start, every opening of a run lies within the run's
      length of its start: its squared distance from the start is at most
      the squared length. */
  lemma OpeningsWithinLength(run: LinearRun, cast: RayCaster, elements: ArchElements, offset: real)
    requires elements.RunResolves(run, cast)
    requires Dot(run.direction, run.direction) == 1.0
    requires forall h | h in cast(run.start, run.direction) :: 0.0 <= h.proximity
    ensures forall o | o in RunOpenings(run, cast, elements, offset) ::
      Dot(Minus(o.point, run.start), Minus(o.point, run.start)) <= run.length * run.length
  {
    var kept := RunHits(run, cast);
    var os := RunOpenings(run, cast, elements, offset);
    forall o | o in os
      ensures Dot(Minus(o.point, run.start), Minus(o.point, run.start)) <= run.length * run.length
    {
      var i :| 0 <= i < |os| && os[i] == o;
      assert kept[i] in kept;
      PointAtDistance(run.start, run.direction, kept[i].proximity, run.length);
    }
  }

  /** Handling two lists of runs one after the other makes the openings of
      their concatenation: the duct loop followed by the pipe loop is one
      loop over ducts then pipes. */
  lemma {:induction false} BatchOpeningsAppend(a: seq<LinearRun>, b: seq<LinearRun>, cast: RayCaster, elements: ArchElements, offset: real)
    requires forall r | r in a + b :: elements.RunResolves(r, cast)
    ensures BatchOpenings(a + b, cast, elements, offset)
         == BatchOpenings(a, cast, elements, offset) + BatchOpenings(b, cast, elements, offset)
    decreases |b|
  {
    if |b| == 0 {
      assert a + b == a;
    } else {
      var b' := b[..|b| - 1];
      assert (a + b)[..|a + b| - 1] == a + b';
      assert (a + b)[|a + b| - 1] == b[|b| - 1];
      BatchOpeningsAppend(a, b', cast, elements, offset);
    }
  }

  /** The batch of the first i + 1 runs is the batch of the first i runs
      followed by the openings of run i. */
  lemma BatchOpeningsStep(runs: seq<LinearRun>, i: nat, cast: RayCaster, elements: ArchElements, offset: real)
    requires i < |runs|
    requires forall r | r in runs :: elements.RunResolves(r, cast)
    ensures BatchOpenings(runs[..i + 1], cast, elements, offset)
         == BatchOpenings(runs[..i], cast, elements, offset) + RunOpenings(runs[i], cast, elements, offset)
  {
    assert runs[..i + 1][..i] == runs[..i];
  }

  /** Every opening of a batch is square and sized from the diameter of one
      of the batch's runs plus the clearance. */
  lemma {:induction false} BatchOpeningsSized(runs: seq<LinearRun>, cast: RayCaster, elements: ArchElements, offset: real)
    requires forall r | r in runs :: elements.RunResolves(r, cast)
    ensures forall o | o in BatchOpenings(runs, cast, elements, offset) ::
      o.width == o.height && exists r | r in runs :: o.width == r.diameter + offset
  {
    if |runs| > 0 {
      var init, last := runs[..|runs| - 1], runs[|runs| - 1];
      BatchOpeningsSized(init, cast, elements, offset);
      RunOpeningsFromHits(last, cast, elements, offset);
      assert forall r | r in init :: r in runs;
    }
  }

  /** A duct of diameter 200 and length 1000 along +X whose ray meets one
      wall at 400 gets exactly one opening, at 400 along X, 230 wide and
      high with a clearance of 30. */
  lemma SingleWallScenario(origin: Xyz, wall: Wall, level: Level, cast: RayCaster)
    requires wall.levelId == level.id
    requires cast(origin, Xyz(1.0, 0.0, 0.0)) == [Hit(400.0, wall.id, InvalidElementId)]
    ensures var run := LinearRun(origin, Xyz(1.0, 0.0, 0.0), 1000.0, 200.0);
            var elements := ArchElements(map[wall.id := wall], map[level.id := level]);
            && elements.RunResolves(run, cast)
            && RunOpenings(run, cast, elements, 30.0)
               == [Opening(Xyz(origin.x + 400.0, origin.y, origin.z), wall, level, 230.0, 230.0)]
  {
    var run := LinearRun(origin, Xyz(1.0, 0.0, 0.0), 1000.0, 200.0);
    var elements := ArchElements(map[wall.id := wall], map[level.id := level]);
    var h := Hit(400.0, wall.id, InvalidElementId);
    KeptSingle(h, 1000.0);
    assert RunHits(run, cast) == [h];
    assert elements.Resolves(h);
    assert OpeningFor(run, h, elements, 30.0)
        == Opening(Xyz(origin.x + 400.0, origin.y, origin.z), wall, level, 230.0, 230.0);
  }

  /** The architectural document, as far as the command changes it: the
      openings created so far and whether the opening family type is
      active. */
  class ArchDocument {
    const elements: ArchElements
    var openings: seq<Opening>
    var openingTypeActive: bool

    constructor (elements: ArchElements, openingTypeActive: bool)
      ensures this.elements == elements && this.openingTypeActive == openingTypeActive
      ensures openings == []
    {
      this.elements := elements;
      this.openingTypeActive := openingTypeActive;
      openings := [];
    }

    /** Activates the opening type if it is not already active: afterwards
        the type is active, and on an active type the check changes nothing. */
    method ActivateOpeningType()
      modifies this
      ensures openingTypeActive
      ensures openings == old(openings)
      ensures old(openingTypeActive) ==> unchanged(this)
    {
      if !openingTypeActive {
        openingTypeActive := true;
      }
    }

    /** The `foreach` over one run's kept hits: appends the run's openings,
        one per kept hit, in order, and changes nothing else. */
    method PlaceRunOpenings(run: LinearRun, cast: RayCaster, offset: real)
      requires elements.RunResolves(run, cast)
      modifies this
      ensures openings == old(openings) + RunOpenings(run, cast, elements, offset)
      ensures openingTypeActive == old(openingTypeActive)
    {
      var point := run.start;
      var direction := run.direction;
      var intersections := KeptHits(cast(point, direction), run.length);
      assert intersections == RunHits(run, cast);
      for j := 0 to |intersections|
        invariant openings == old(openings) + RunOpenings(run, cast, elements, offset)[..j]
        invariant openingTypeActive == old(openingTypeActive)
      {
        var refer := intersections[j];
        assert refer in intersections && elements.Resolves(refer);
        var wall := elements.walls[refer.elementId];
        var level := elements.levels[wall.levelId];
        var pointOpening := PointAt(point, direction, refer.proximity);
        openings := openings + [Opening(pointOpening, wall, level, run.diameter + offset, run.diameter + offset)];
      }
    }

    /** The `foreach` over the runs of one discipline: appends the openings
        of the batch, run after run, and changes nothing else. */
    method PlaceOpenings(runs: seq<LinearRun>, cast: RayCaster, offset: real)
      requires forall r | r in runs :: elements.RunResolves(r, cast)
      modifies this
      ensures openings == old(openings) + BatchOpenings(runs, cast, elements, offset)
      ensures openingTypeActive == old(openingTypeActive)
    {
      for i := 0 to |runs|
        invariant forall r | r in runs[..i] :: elements.RunResolves(r, cast)
        invariant openings == old(openings) + BatchOpenings(runs[..i], cast, elements, offset)
        invariant openingTypeActive == old(openingTypeActive)
      {
        assert runs[i] in runs;
        PlaceRunOpenings(runs[i], cast, offset);
        BatchOpeningsStep(runs, i, cast, elements, offset);
      }
      assert runs[..|runs|] == runs;
    }

    /** The body of `Execute` past its pre-flight checks: activate the type
        and place the ducts' openings, then check the type again and place
        the pipes' openings. */
    method Execute(ducts: seq<LinearRun>, pipes: seq<LinearRun>, cast: RayCaster, offset: real)
      requires forall r | r in ducts + pipes :: elements.RunResolves(r, cast)
      modifies this
      ensures openingTypeActive
      ensures openings == old(openings) + BatchOpenings(ducts, cast, elements, offset)
                                        + BatchOpenings(pipes, cast, elements, offset)
      ensures openings == old(openings) + BatchOpenings(ducts + pipes, cast, elements, offset)
    {
      ActivateOpeningType();
      PlaceOpenings(ducts, cast, offset);
      ActivateOpeningType();
      PlaceOpenings(pipes, cast, offset);
      BatchOpeningsAppend(ducts, pipes, cast, elements, offset);
    }
  }
}
