/** `Road`: lane sections in ascending order of start coordinate, road
    links, road objects; the `<lanes>` and `<objects>` handlers of the road
    parser, the end of `Road::parseXml`, reference resolution, validation
    and the global lane index range. */
module Roads {
  import opened Wrappers
  import opened ParseResults
  import opened ObjectRefs
  import opened RoadLinks
  import LaneSections
  import RoadObjects

  type LaneSection = LaneSections.LaneSection
  type Lane = LaneSections.Lane

  /** `Road`. Of the reference line only its end coordinate (`referenceLine().endS()`)
      is needed here. */
  datatype Road = Road(
    name: string,
    id: string,
    length: real,
    junctionRef: ObjectRef,
    referenceLineEndS: real,
    laneSections: seq<LaneSection>,
    roadObjects: seq<RoadObjects.RoadObject>,
    links: RoadLinks)

  // ---- accessors ----

  /** `Road::roadLink`. */
  function RoadLinkOf(road: Road, t: RoadLinkType): (l: RoadLink)
    ensures t == Predecessor ==> l == road.links.predecessor
    ensures t == Successor ==> l == road.links.successor
  {
    LinkOfType(road.links, t)
  }

  /** `laneSectionIndexForContactPoint`: `size() - 1` is -1 for a road without sections. */
  function LaneSectionIndexForContactPoint(road: Road, cp: ContactPoint): (i: int)
    requires cp != ContactPoint.NotSpecified
    ensures |road.laneSections| > 0 ==> 0 <= i < |road.laneSections|
    ensures cp == Start ==> i == 0
    ensures cp == End ==> i + 1 == |road.laneSections|
  {
    match cp
    case Start => 0
    case End => |road.laneSections| - 1
  }

  /** `laneSectionForContactPoint`. */
  function LaneSectionForContactPoint(road: Road, cp: ContactPoint): (sec: LaneSection)
    requires cp != ContactPoint.NotSpecified && |road.laneSections| > 0
    ensures cp == Start ==> sec == road.laneSections[0]
    ensures cp == End ==> sec == road.laneSections[|road.laneSections| - 1]
  {
    road.laneSections[LaneSectionIndexForContactPoint(road, cp)]
  }

  /** `laneSectionIndexForExternalLinkType`. */
  function LaneSectionIndexForExternalLinkType(road: Road, t: RoadLinkType): (i: int)
    ensures |road.laneSections| > 0 ==> 0 <= i < |road.laneSections|
    ensures t == Predecessor ==> i == 0
    ensures t == Successor ==> i + 1 == |road.laneSections|
  {
    match t
    case Predecessor => 0
    case Successor => |road.laneSections| - 1
  }

  /** `laneSectionForExternalLinkType`: `front()` or `back()`. */
  function LaneSectionForExternalLinkType(road: Road, t: RoadLinkType): (sec: LaneSection)
    requires |road.laneSections| > 0
    ensures sec == road.laneSections[LaneSectionIndexForExternalLinkType(road, t)]
  {
    match t
    case Predecessor => road.laneSections[0]
    case Successor => road.laneSections[|road.laneSections| - 1]
  }

  /** The lane section whose lanes carry a road's external links of type `t`
      is the one at the contact point that link type leaves from. */
  lemma ExternalLinkSectionIsContactSection(road: Road, t: RoadLinkType, cp: ContactPoint)
    requires cp != ContactPoint.NotSpecified
    ensures LaneSectionIndexForExternalLinkType(road, t) == LaneSectionIndexForContactPoint(road, ContactPointForLinkType(t))
    ensures LaneSectionIndexForContactPoint(road, cp) == LaneSectionIndexForExternalLinkType(road, LinkTypeForContactPoint(cp))
  {
  }

  // ---- validation ----

  /** `Road::validate`: the first lane section that fails validation gives the exception. */
  function Validate(sections: seq<LaneSection>): (err: Option<string>)
    ensures err.None? <==> forall i :: 0 <= i < |sections| ==> LaneSections.ValidateSection(sections[i]).None?
    ensures err.Some? ==> exists i :: 0 <= i < |sections| && LaneSections.ValidateSection(sections[i]) == err
  {
    var results := seq(|sections|, i requires 0 <= i < |sections| => LaneSections.ValidateSection(sections[i]));
    var err := FirstProblem(results);
    assert err.None? ==> forall i :: 0 <= i < |sections| ==> LaneSections.ValidateSection(sections[i]).None? by {
      if err.None? {
        forall i | 0 <= i < |sections| ensures LaneSections.ValidateSection(sections[i]).None? {
          assert results[i].None?;
        }
      }
    }
    assert err.Some? ==> exists i :: 0 <= i < |sections| && LaneSections.ValidateSection(sections[i]) == err by {
      if err.Some? {
        var i :| 0 <= i < |results| && results[i] == err;
        assert LaneSections.ValidateSection(sections[i]) == err;
      }
    }
    err
  }

  /** The first problem reported in a list of checks, in order. */
  function FirstProblem(results: seq<Option<string>>): (err: Option<string>)
    ensures err.None? <==> forall i :: 0 <= i < |results| ==> results[i].None?
    ensures err.Some? ==> exists i :: 0 <= i < |results| && results[i] == err
    decreases |results|
  {
    if |results| == 0 then None
    else if results[0].Some? then results[0]
    else
      var rest := FirstProblem(results[1..]);
      assert forall i :: 1 <= i < |results| ==> results[i] == results[1..][i - 1];
      rest
  }

  // ---- the `<lanes>` handler ----

  function FirstSectionError(id: string): (e: XodrParseError)
    ensures e.InvalidatesRoadGeometry()
  {
    XodrParseError(Message("The first <laneSection> of the road with id '" + id + "' does not start at s-coordinate 0."), GEOMETRY)
  }

  function SectionOrderError(id: string): (e: XodrParseError)
    ensures e.InvalidatesRoadGeometry()
  {
    XodrParseError(Message("The <laneSection>s of the road with id '" + id
                           + "' do not appear in ascending order of starting s-coordinates."), GEOMETRY)
  }

  function InvalidEndSError(id: string): (e: XodrParseError)
    ensures e.InvalidatesRoadGeometry()
  {
    XodrParseError(Message("A laneSection of the road with id '" + id + "' has invalid endS."), GEOMETRY)
  }

  /** The checks the `<laneSection>` handler makes before appending a section
      that starts at `startS`: the first must start at 0, later ones strictly
      after their predecessor. */
  function SectionChecks(sections: seq<LaneSection>, id: string, startS: real): (errs: seq<XodrParseError>)
    ensures |errs| <= 1
    ensures |errs| == 1 ==> errs[0].InvalidatesRoadGeometry()
    ensures HasValidGeometry(errs) <==> errs == []
    ensures errs == [] <==>
              if |sections| == 0 then startS == 0.0 else sections[|sections| - 1].startS < startS
  {
    if |sections| == 0 then
      (if startS != 0.0 then [FirstSectionError(id)] else [])
    else
      (if sections[|sections| - 1].startS >= startS then [SectionOrderError(id)] else [])
  }

  /** Appends `next` and closes the previous section at the new start coordinate. */
  function Chain(sections: seq<LaneSection>, next: LaneSection): (r: seq<LaneSection>)
    ensures |r| == |sections| + 1 && r[|sections|] == next
    ensures forall i :: 0 <= i < |sections| ==> r[i].(endS := sections[i].endS) == sections[i]
    ensures forall i :: 0 <= i < |sections| - 1 ==> r[i] == sections[i]
    ensures |sections| > 0 ==> r[|sections| - 1].endS == next.startS
  {
    if |sections| == 0 then [next]
    else sections[..|sections| - 1] + [sections[|sections| - 1].(endS := next.startS)] + [next]
  }

  /** The `<laneSection>` handler as written: the section's own parse errors are dropped. */
  function AddLaneSectionAsWritten(road: ParseResult<Road>, sec: ParseResult<LaneSection>): (r: ParseResult<Road>)
    ensures r.value == road.value.(laneSections := Chain(road.value.laneSections, sec.value))
    ensures r.errors == road.errors + SectionChecks(road.value.laneSections, road.value.id, sec.value.startS)
  {
    var secs := road.value.laneSections;
    ParseResult(road.value.(laneSections := Chain(secs, sec.value)),
                road.errors + SectionChecks(secs, road.value.id, sec.value.startS))
  }

  /** A lane section whose own parse reported a geometry error is accepted
      by the handler as written without any error reaching the road. */
  lemma LaneSectionErrorsDropped(road: ParseResult<Road>, sec: ParseResult<LaneSection>)
    requires road.errors == [] && road.value.laneSections == []
    requires sec.value.startS == 0.0 && !HasValidGeometry(sec.errors)
    ensures AddLaneSectionAsWritten(road, sec).errors == []
    ensures HasValidGeometry(AddLaneSectionAsWritten(road, sec).errors)
  {
  }

  /** The handler with the section's own errors kept, as every other child parser does. */
  function AddLaneSection(road: ParseResult<Road>, sec: ParseResult<LaneSection>): (r: ParseResult<Road>)
    ensures r.value == road.value.(laneSections := Chain(road.value.laneSections, sec.value))
    ensures r.errors == road.errors + sec.errors + SectionChecks(road.value.laneSections, road.value.id, sec.value.startS)
  {
    var secs := road.value.laneSections;
    ParseResult(road.value.(laneSections := Chain(secs, sec.value)),
                road.errors + sec.errors + SectionChecks(secs, road.value.id, sec.value.startS))
  }

  /** The sections of a `<lanes>` element, handled in document order. */
  function AddLaneSections(road: ParseResult<Road>, secs: seq<ParseResult<LaneSection>>): (r: ParseResult<Road>)
    ensures |r.value.laneSections| == |road.value.laneSections| + |secs|
    ensures r.value == road.value.(laneSections := r.value.laneSections)
    ensures |r.errors| >= |road.errors| && r.errors[..|road.errors|] == road.errors
    decreases |secs|
  {
    if |secs| == 0 then road
    else AddLaneSection(AddLaneSections(road, secs[..|secs| - 1]), secs[|secs| - 1])
  }

  /** The sections start at 0 and in strictly ascending order. */
  predicate StartsAscending(secs: seq<ParseResult<LaneSection>>) {
    && (|secs| > 0 ==> secs[0].value.startS == 0.0)
    && forall i :: 0 <= i < |secs| - 1 ==> secs[i].value.startS < secs[i + 1].value.startS
  }

  predicate AllValidGeometry(secs: seq<ParseResult<LaneSection>>) {
    forall i :: 0 <= i < |secs| ==> HasValidGeometry(secs[i].errors)
  }

  lemma StartsAscendingSnoc(secs: seq<ParseResult<LaneSection>>)
    requires |secs| > 0
    ensures var n := |secs|;
            StartsAscending(secs) <==>
              StartsAscending(secs[..n - 1])
              && (if n == 1 then secs[0].value.startS == 0.0 else secs[n - 2].value.startS < secs[n - 1].value.startS)
  {
    var n := |secs|;
    var init := secs[..n - 1];
    assert forall i :: 0 <= i < n - 1 ==> init[i] == secs[i];
    if n > 1 && StartsAscending(init) && secs[n - 2].value.startS < secs[n - 1].value.startS {
      forall i | 0 <= i < n - 1
        ensures secs[i].value.startS < secs[i + 1].value.startS
      {
        if i < n - 2 {
          assert init[i].value.startS < init[i + 1].value.startS;
        }
      }
    }
  }

  lemma AllValidGeometrySnoc(secs: seq<ParseResult<LaneSection>>)
    requires |secs| > 0
    ensures AllValidGeometry(secs) <==>
              AllValidGeometry(secs[..|secs| - 1]) && HasValidGeometry(secs[|secs| - 1].errors)
  {
    var init := secs[..|secs| - 1];
    assert forall i :: 0 <= i < |init| ==> init[i] == secs[i];
  }

  /** Handling the sections of a road that has none yet keeps each section
      (only its end moves), and each one ends where the next starts. */
  lemma {:induction false} LaneSectionsKept(road: ParseResult<Road>, secs: seq<ParseResult<LaneSection>>)
    requires road.value.laneSections == []
    ensures var ls := AddLaneSections(road, secs).value.laneSections;
            && |ls| == |secs|
            && (forall i :: 0 <= i < |secs| ==> ls[i] == secs[i].value.(endS := ls[i].endS))
            && (forall i :: 0 <= i < |secs| - 1 ==> ls[i].endS == secs[i + 1].value.startS)
            && (|secs| > 0 ==> ls[|secs| - 1] == secs[|secs| - 1].value)
    decreases |secs|
  {
    if |secs| > 0 {
      var n := |secs|;
      var init := secs[..n - 1];
      LaneSectionsKept(road, init);
      var mid := AddLaneSections(road, init);
      var ls0 := mid.value.laneSections;
      var ls := Chain(ls0, secs[n - 1].value);
      assert AddLaneSections(road, secs).value.laneSections == ls;
      forall i | 0 <= i < n
        ensures ls[i] == secs[i].value.(endS := ls[i].endS)
      {
        if i < n - 1 {
          assert init[i] == secs[i];
          assert ls[i].(endS := ls0[i].endS) == ls0[i];
        }
      }
      forall i | 0 <= i < n - 1
        ensures ls[i].endS == secs[i + 1].value.startS
      {
        if i < n - 2 {
          assert init[i + 1] == secs[i + 1];
          assert ls[i] == ls0[i];
        }
      }
    }
  }

  /** The road's geometry stays valid exactly when no section reported a
      geometry error and the sections start at 0 in strictly ascending order. */
  lemma {:induction false} LaneSectionsValidity(road: ParseResult<Road>, secs: seq<ParseResult<LaneSection>>)
    requires road.value.laneSections == []
    ensures HasValidGeometry(AddLaneSections(road, secs).errors) <==>
              HasValidGeometry(road.errors) && AllValidGeometry(secs) && StartsAscending(secs)
    decreases |secs|
  {
    if |secs| > 0 {
      var n := |secs|;
      var init := secs[..n - 1];
      LaneSectionsValidity(road, init);
      var mid := AddLaneSections(road, init);
      var ls0 := mid.value.laneSections;
      var checks := SectionChecks(ls0, road.value.id, secs[n - 1].value.startS);
      assert AddLaneSections(road, secs).errors == mid.errors + secs[n - 1].errors + checks;
      ValidityAppend(mid.errors, secs[n - 1].errors);
      ValidityAppend(mid.errors + secs[n - 1].errors, checks);
      AllValidGeometrySnoc(secs);
      StartsAscendingSnoc(secs);
      if n > 1 {
        assert ls0[n - 2].startS == init[n - 2].value.startS;
        assert init[n - 2] == secs[n - 2];
      }
    }
  }

  /** Both halves: the sections kept and chained, and the validity condition. */
  lemma LaneSectionsParsed(road: ParseResult<Road>, secs: seq<ParseResult<LaneSection>>)
    requires road.value.laneSections == []
    ensures var ls := AddLaneSections(road, secs).value.laneSections;
            && |ls| == |secs|
            && (forall i :: 0 <= i < |secs| ==> ls[i] == secs[i].value.(endS := ls[i].endS))
            && (forall i :: 0 <= i < |secs| - 1 ==> ls[i].endS == secs[i + 1].value.startS)
    ensures HasValidGeometry(AddLaneSections(road, secs).errors) <==>
              HasValidGeometry(road.errors) && AllValidGeometry(secs) && StartsAscending(secs)
  {
    LaneSectionsKept(road, secs);
    LaneSectionsValidity(road, secs);
  }

  /** The `MISSING_CHILD_ELEMENT` error for a `<lanes>` element without
      `<laneSection>`, carrying the invalidation bits its parser was registered with. */
  function MissingLaneSectionError(invalidations: nat): (e: XodrParseError)
    ensures e.data.XmlError? && e.data.xml.category == MissingChildElement
  {
    XodrParseError(XmlError(XmlParseError(MissingChildElement, "lanes", "laneSection")), invalidations)
  }

  /** The `<laneSection>` parser is registered without invalidation bits. */
  const LANE_SECTION_INVALIDATIONS_AS_WRITTEN: nat := 0

  /** The `<lanes>` handler: its sections, or the missing-child error carrying
      `invalidations` when there are none. */
  function ParseLanes(road: ParseResult<Road>, secs: seq<ParseResult<LaneSection>>, invalidations: nat)
    : (r: ParseResult<Road>)
    ensures |secs| == 0 ==> r.value == road.value && r.errors == road.errors + [MissingLaneSectionError(invalidations)]
    ensures |secs| > 0 ==> r == AddLaneSections(road, secs)
    ensures HasGeometryBit(invalidations) && HasValidGeometry(r.errors) ==> |r.value.laneSections| > 0
  {
    if |secs| == 0 then
      var errs := road.errors + [MissingLaneSectionError(invalidations)];
      assert errs[|errs| - 1] == MissingLaneSectionError(invalidations);
      ParseResult(road.value, errs)
    else AddLaneSections(road, secs)
  }

  // ---- the end of `Road::parseXml` ----

  /** `Road::parseXml` after the child parsers, as written: with valid geometry
      it reads `laneSections_.back()`, which is undefined for an empty vector. */
  function FinishRoadAsWritten(ret: ParseResult<Road>): (r: Result<ParseResult<Road>, string>)
    ensures r.Failure? <==> HasValidGeometry(ret.errors) && |ret.value.laneSections| == 0
    ensures r.Success? ==> r.value == FinishRoad(ret)
  {
    if HasValidGeometry(ret.errors) && |ret.value.laneSections| == 0 then Failure("back() of an empty vector")
    else Success(FinishRoad(ret))
  }

  /** With the `<laneSection>` parser registered as written, a `<lanes>`
      element without sections leaves the geometry valid and reaches `back()`. */
  lemma EmptyLanesReachesBack(road: ParseResult<Road>)
    requires road.errors == [] && road.value.laneSections == []
    ensures FinishRoadAsWritten(ParseLanes(road, [], LANE_SECTION_INVALIDATIONS_AS_WRITTEN)).Failure?
  {
    var r := ParseLanes(road, [], LANE_SECTION_INVALIDATIONS_AS_WRITTEN);
    assert r.errors == [MissingLaneSectionError(0)];
  }

  /** `Road::parseXml` after the child parsers: nothing more when the geometry
      is invalid; otherwise the last section must start before the reference
      line ends, and it is closed at that end. */
  function FinishRoad(ret: ParseResult<Road>): (r: ParseResult<Road>)
    requires HasValidGeometry(ret.errors) ==> |ret.value.laneSections| > 0
    ensures !HasValidGeometry(ret.errors) ==> r == ret
    ensures |r.value.laneSections| == |ret.value.laneSections|
    ensures r.value == ret.value.(laneSections := r.value.laneSections)
    ensures forall i :: 0 <= i < |ret.value.laneSections| ==>
              r.value.laneSections[i].(endS := ret.value.laneSections[i].endS) == ret.value.laneSections[i]
    ensures forall i :: 0 <= i < |ret.value.laneSections| - 1 ==> r.value.laneSections[i] == ret.value.laneSections[i]
    ensures HasValidGeometry(ret.errors) ==>
              r.value.laneSections[|r.value.laneSections| - 1].endS == ret.value.referenceLineEndS
    ensures |r.errors| >= |ret.errors| && r.errors[..|ret.errors|] == ret.errors
    ensures HasValidGeometry(r.errors) <==>
              HasValidGeometry(ret.errors)
              && ret.value.laneSections[|ret.value.laneSections| - 1].startS < ret.value.referenceLineEndS
  {
    if !HasValidGeometry(ret.errors) then ret
    else
      var ls := ret.value.laneSections;
      var last := ls[|ls| - 1];
      var errs := if last.startS >= ret.value.referenceLineEndS then [InvalidEndSError(ret.value.id)] else [];
      assert HasValidGeometry(errs) <==> last.startS < ret.value.referenceLineEndS by {
        if errs != [] {
          assert errs[0].InvalidatesRoadGeometry();
        }
      }
      ValidityAppend(ret.errors, errs);
      assert (ret.errors + errs)[..|ret.errors|] == ret.errors;
      ParseResult(ret.value.(laneSections := ls[..|ls| - 1] + [last.(endS := ret.value.referenceLineEndS)]),
                  ret.errors + errs)
  }

  /** A road whose sections started at 0 in ascending order and started before
      the reference line's end is tiled by its sections: each ends where the
      next begins and the last ends with the reference line. */
  lemma FinishedSectionsTile(road: ParseResult<Road>, secs: seq<ParseResult<LaneSection>>)
    requires road.value.laneSections == []
    requires HasValidGeometry(ParseLanes(road, secs, GEOMETRY).errors)
    ensures var ls := FinishRoad(ParseLanes(road, secs, GEOMETRY)).value.laneSections;
            && |ls| == |secs| > 0
            && ls[0].startS == 0.0
            && (forall i :: 0 <= i < |ls| - 1 ==> ls[i].endS == ls[i + 1].startS && ls[i].startS < ls[i].endS)
            && ls[|ls| - 1].endS == road.value.referenceLineEndS
  {
    LaneSectionsParsed(road, secs);
    var mid := ParseLanes(road, secs, GEOMETRY);
    var ls := FinishRoad(mid).value.laneSections;
    assert mid == AddLaneSections(road, secs);
    forall i | 0 <= i < |ls| - 1
      ensures ls[i].endS == ls[i + 1].startS && ls[i].startS < ls[i].endS
    {
      assert ls[i] == mid.value.laneSections[i];
      assert ls[i + 1].startS == mid.value.laneSections[i + 1].startS == secs[i + 1].value.startS;
    }
    assert ls[0].startS == mid.value.laneSections[0].startS == secs[0].value.startS;
  }

  // ---- the `<objects>` handler ----

  /** The children of `<objects>` the road parser handles. */
  datatype ObjectsChild =
    | Object(parsed: ParseResult<RoadObjects.RoadObject>)
    | ObjectReference
    | Tunnel
    | Bridge

  /** The warning for a child element that is not implemented. */
  function NotImplementedWarning(element: string): (e: XodrParseError)
    ensures !e.InvalidatesRoadGeometry() && !e.InvalidatesConnectivity() && e.IsFatal()
  {
    PlainError(Message("WARNING: <" + element + "> element not implemented yet."))
  }

  function AddObjectsChild(road: ParseResult<Road>, child: ObjectsChild): (r: ParseResult<Road>)
    ensures child.Object? ==> r.value == road.value.(roadObjects := road.value.roadObjects + [child.parsed.value])
                              && r.errors == road.errors + child.parsed.errors
    ensures !child.Object? ==> r.value == road.value && |r.errors| == |road.errors| + 1
                               && r.errors[..|road.errors|] == road.errors
                               && HasValidGeometry(r.errors[|road.errors|..])
                               && HasValidConnectivity(r.errors[|road.errors|..])
  {
    match child
    case Object(parsed) =>
      ParseResult(road.value.(roadObjects := road.value.roadObjects + [parsed.value]), road.errors + parsed.errors)
    case ObjectReference => ParseResult(road.value, road.errors + [NotImplementedWarning("objectReference")])
    case Tunnel => ParseResult(road.value, road.errors + [NotImplementedWarning("tunnel")])
    case Bridge => ParseResult(road.value, road.errors + [NotImplementedWarning("bridge")])
  }

  function ParseObjects(road: ParseResult<Road>, children: seq<ObjectsChild>): (r: ParseResult<Road>)
    ensures r.value == road.value.(roadObjects := r.value.roadObjects)
    decreases |children|
  {
    if |children| == 0 then road
    else AddObjectsChild(ParseObjects(road, children[..|children| - 1]), children[|children| - 1])
  }

  /** The `<object>` children, in order. */
  function ObjectsOf(children: seq<ObjectsChild>): (objs: seq<RoadObjects.RoadObject>)
    decreases |children|
  {
    if |children| == 0 then []
    else
      var init := ObjectsOf(children[..|children| - 1]);
      match children[|children| - 1]
      case Object(parsed) => init + [parsed.value]
      case _ => init
  }

  predicate ObjectsValid(children: seq<ObjectsChild>) {
    forall i :: 0 <= i < |children| && children[i].Object? ==>
      HasValidGeometry(children[i].parsed.errors) && HasValidConnectivity(children[i].parsed.errors)
  }

  /** `<objects>` appends the road objects in document order, and the
      not-implemented warnings leave geometry and connectivity valid. */
  lemma {:induction false} ObjectsParsed(road: ParseResult<Road>, children: seq<ObjectsChild>)
    ensures ParseObjects(road, children).value.roadObjects == road.value.roadObjects + ObjectsOf(children)
    ensures ObjectsValid(children) ==>
              (HasValidGeometry(ParseObjects(road, children).errors) <==> HasValidGeometry(road.errors))
              && (HasValidConnectivity(ParseObjects(road, children).errors) <==> HasValidConnectivity(road.errors))
    decreases |children|
  {
    if |children| > 0 {
      var init := children[..|children| - 1];
      var last := children[|children| - 1];
      ObjectsParsed(road, init);
      var mid := ParseObjects(road, init);
      assert ObjectsValid(children) ==> ObjectsValid(init) by {
        assert forall i :: 0 <= i < |init| ==> init[i] == children[i];
      }
      var r := AddObjectsChild(mid, last);
      assert ParseObjects(road, children) == r;
      if last.Object? {
        ValidityAppend(mid.errors, last.parsed.errors);
      } else {
        assert r.errors == mid.errors + r.errors[|mid.errors|..];
        ValidityAppend(mid.errors, r.errors[|mid.errors|..]);
      }
    }
  }

  /** The number of leading `<object>` children. */
  function LeadingObjects(children: seq<ObjectsChild>): (k: nat)
    ensures k <= |children|
    ensures forall i :: 0 <= i < k ==> children[i].Object?
    ensures k < |children| ==> !children[k].Object?
    decreases |children|
  {
    if |children| == 0 || !children[0].Object? then 0
    else 1 + LeadingObjects(children[1..])
  }

  /** The `<objects>` loop as written: the `objectReference`, `tunnel` and
      `bridge` handlers leave the element's end tag unread, so the loop's next
      `tryReadEndElement` consumes it as the end of `<objects>`, and the later
      children are not read as children of `<objects>`. */
  function ParseObjectsAsWritten(road: ParseResult<Road>, children: seq<ObjectsChild>): (r: ParseResult<Road>)
    ensures r.value == road.value.(roadObjects := r.value.roadObjects)
    decreases |children|
  {
    if |children| == 0 then road
    else
      var next := AddObjectsChild(road, children[0]);
      if children[0].Object? then ParseObjectsAsWritten(next, children[1..]) else next
  }

  /** Handling one more child first is handling it as the head of the list. */
  lemma {:induction false} ParseObjectsCons(road: ParseResult<Road>, c: ObjectsChild, rest: seq<ObjectsChild>)
    ensures ParseObjects(AddObjectsChild(road, c), rest) == ParseObjects(road, [c] + rest)
    decreases |rest|
  {
    if |rest| > 0 {
      var n := |rest| - 1;
      ParseObjectsCons(road, c, rest[..n]);
      assert ([c] + rest)[..|[c] + rest| - 1] == [c] + rest[..n];
    } else {
      assert ParseObjects(road, [c]) == AddObjectsChild(ParseObjects(road, []), c);
    }
  }

  /** As written, `<objects>` handles exactly its leading `<object>` children and
      the first child after them, as the corrected loop would handle that prefix. */
  lemma {:induction false} ObjectsAsWrittenStopEarly(road: ParseResult<Road>, children: seq<ObjectsChild>)
    ensures var k := LeadingObjects(children);
            ParseObjectsAsWritten(road, children)
            == ParseObjects(road, children[..if k < |children| then k + 1 else k])
    decreases |children|
  {
    if |children| > 0 {
      var c := children[0];
      var rest := children[1..];
      var next := AddObjectsChild(road, c);
      if c.Object? {
        ObjectsAsWrittenStopEarly(next, rest);
        var k := LeadingObjects(rest);
        var j := if k < |rest| then k + 1 else k;
        ParseObjectsCons(road, c, rest[..j]);
        assert [c] + rest[..j] == children[..j + 1];
      } else {
        ParseObjectsCons(road, c, []);
        assert children[..1] == [c];
      }
    }
  }

  /** `<objects><tunnel/><object .../></objects>`: as written the road gets no
      object, while reading every child appends the object. */
  lemma TunnelEndsObjects(road: ParseResult<Road>, obj: ParseResult<RoadObjects.RoadObject>)
    ensures ParseObjectsAsWritten(road, [Tunnel, Object(obj)]).value.roadObjects == road.value.roadObjects
    ensures ParseObjects(road, [Tunnel, Object(obj)]).value.roadObjects == road.value.roadObjects + [obj.value]
  {
    ObjectsParsed(road, [Tunnel, Object(obj)]);
    assert [Tunnel, Object(obj)][..1] == [Tunnel];
    assert [Tunnel][..0] == [];
    assert ObjectsOf([Tunnel]) == [];
  }

  // ---- reference resolution ----

  /** `Road::resolveReferences`: the junction reference, with "-1" meaning
      "not in a junction", then the road links. */
  function ResolveReferences(road: Road, maps: IdToIndexMaps): (r: Result<Road, string>)
    requires !road.junctionRef.IsResolved() && Unresolved(road.links)
    ensures r.Success? <==>
              ResolveOrNull(road.junctionRef, maps.junctionIdToIndex, "-1", "junction").Success?
              && ResolveRoadLinks(road.links, maps).Success?
    ensures r.Success? ==>
              && r.value == road.(junctionRef := r.value.junctionRef, links := r.value.links)
              && r.value.junctionRef.id == road.junctionRef.id && r.value.junctionRef.IsResolved()
              && r.value.links == ResolveRoadLinks(road.links, maps).value
    ensures r.Failure? && ResolveOrNull(road.junctionRef, maps.junctionIdToIndex, "-1", "junction").Failure? ==>
              r.error == "There's no junction with identifier '" + road.junctionRef.id + "'."
  {
    match ResolveOrNull(road.junctionRef, maps.junctionIdToIndex, "-1", "junction")
    case Failure(e) => Failure(e)
    case Success(j) =>
      match ResolveRoadLinks(road.links, maps)
      case Failure(e) => Failure(e)
      case Success(ls) => Success(road.(junctionRef := j, links := ls))
  }

  // ---- global lane indices ----

  /** The lanes of all sections, in section order. */
  function AllLanes(sections: seq<LaneSection>): (lanes: seq<Lane>)
    decreases |sections|
  {
    if |sections| == 0 then []
    else AllLanes(sections[..|sections| - 1]) + sections[|sections| - 1].lanes
  }

  /** The reader hands out global lane indices one after another as lanes
      are parsed, so a road's lanes carry consecutive indices. */
  predicate ConsecutiveGlobalIndices(road: Road) {
    var lanes := AllLanes(road.laneSections);
    forall k :: 0 <= k < |lanes| ==> lanes[k].globalIndex == lanes[0].globalIndex + k
  }

  /** `globalLaneIndicesBegin`. */
  function GlobalLaneIndicesBegin(road: Road): int
    requires |road.laneSections| > 0 && |road.laneSections[0].lanes| > 0
  {
    road.laneSections[0].lanes[0].globalIndex
  }

  /** `globalLaneIndicesEnd`. */
  function GlobalLaneIndicesEnd(road: Road): int
    requires |road.laneSections| > 0 && |road.laneSections[|road.laneSections| - 1].lanes| > 0
  {
    var last := road.laneSections[|road.laneSections| - 1];
    last.lanes[|last.lanes| - 1].globalIndex + 1
  }

  /** Where lane `j` of section `i` sits in `AllLanes`. */
  lemma {:induction false} AllLanesPosition(sections: seq<LaneSection>, i: nat, j: nat)
    requires i < |sections| && j < |sections[i].lanes|
    ensures |AllLanes(sections[..i])| + j < |AllLanes(sections)|
    ensures AllLanes(sections)[|AllLanes(sections[..i])| + j] == sections[i].lanes[j]
    decreases |sections|
  {
    var n := |sections|;
    var init := sections[..n - 1];
    assert AllLanes(sections) == AllLanes(init) + sections[n - 1].lanes;
    if i < n - 1 {
      AllLanesPosition(init, i, j);
      assert init[..i] == sections[..i];
    } else {
      assert sections[..i] == init;
    }
  }

  /** With consecutive indices, `[globalLaneIndicesBegin, globalLaneIndicesEnd)`
      is exactly the range of the road's lane indices: it starts at the first
      lane, has one index per lane, and contains every lane of every section. */
  lemma GlobalLaneIndexRange(road: Road)
    requires |road.laneSections| > 0 && |road.laneSections[0].lanes| > 0
    requires |road.laneSections[|road.laneSections| - 1].lanes| > 0
    requires ConsecutiveGlobalIndices(road)
    ensures GlobalLaneIndicesEnd(road) - GlobalLaneIndicesBegin(road) == |AllLanes(road.laneSections)|
    ensures forall i, j :: 0 <= i < |road.laneSections| && 0 <= j < |road.laneSections[i].lanes| ==>
              GlobalLaneIndicesBegin(road) <= road.laneSections[i].lanes[j].globalIndex < GlobalLaneIndicesEnd(road)
  {
    var ls := road.laneSections;
    var all := AllLanes(ls);
    var n := |ls|;
    AllLanesPosition(ls, 0, 0);
    assert ls[..0] == [];
    var last := ls[n - 1];
    AllLanesPosition(ls, n - 1, |last.lanes| - 1);
    assert all == AllLanes(ls[..n - 1]) + last.lanes;
    forall i, j | 0 <= i < n && 0 <= j < |ls[i].lanes|
      ensures GlobalLaneIndicesBegin(road) <= ls[i].lanes[j].globalIndex < GlobalLaneIndicesEnd(road)
    {
      AllLanesPosition(ls, i, j);
    }
  }
}
