/** Lane sections: the lanes of a stretch of road, their identifiers and
    indices, the width polynomials that give each lane its lateral extent, and
    the s-offset validation of a lane's attribute records.

    Coordinates are exact reals here; the program computes with `double`. */
module LaneSections {
  import opened Wrappers
  import opened Polynomials
  import opened RoadLinks
  import LaneIds
  import LaneTypes

  /** `WidthPoly3`: a width polynomial that applies from `sOffset` (relative to the section start). */
  datatype WidthPoly3 = WidthPoly3(sOffset: real, poly: Poly3)

  /** `LaneSection::Lane`. Of the attribute records (material, visibility, speed,
      access, height, rule) only their s-offsets take part in any decision, so
      only those are kept. */
  datatype Lane = Lane(
    id: LaneIds.LaneId,
    laneType: LaneTypes.LaneType,
    level: bool,
    widths: seq<WidthPoly3>,
    materials: seq<real>,
    visibilities: seq<real>,
    speedLimits: seq<real>,
    accesses: seq<real>,
    heights: seq<real>,
    rules: seq<real>,
    predecessor: LaneIds.LaneIdOpt,
    successor: LaneIds.LaneIdOpt,
    globalIndex: int)
  {
    /** `hasLink(type)`: the stored predecessor or successor optional holds a lane id. */
    predicate HasLink(t: RoadLinkType) {
      StoredLink(t).HasValue()
    }

    /** `link(type)`: dereferences the stored optional; a missing link is a precondition violation. */
    function Link(t: RoadLinkType): (id: LaneIds.LaneId)
      requires HasLink(t)
      ensures LaneIds.FromId(id) == StoredLink(t)
      ensures id != LaneIds.NULL_TAG
    {
      StoredLink(t).Deref()
    }

    function StoredLink(t: RoadLinkType): LaneIds.LaneIdOpt {
      match t
      case Predecessor => predecessor
      case Successor => successor
    }
  }

  /** `Lane()`: the fields the parser fills in, with both links null. */
  function NewLane(id: LaneIds.LaneId, laneType: LaneTypes.LaneType, level: bool,
                   widths: seq<WidthPoly3>, globalIndex: int): (l: Lane)
    ensures !l.HasLink(Predecessor) && !l.HasLink(Successor)
    ensures l.id == id && l.widths == widths && l.globalIndex == globalIndex
  {
    Lane(id, laneType, level, widths, [], [], [], [], [], [],
         LaneIds.NullOpt(), LaneIds.NullOpt(), globalIndex)
  }

  /** `LaneSection`: lanes stored from left to right without the centre lane;
      the first `numLeftLanes` of them lie left of the reference line. */
  datatype LaneSection = LaneSection(
    startS: real,
    endS: real,
    singleSided: bool,
    lanes: seq<Lane>,
    numLeftLanes: int)
  {
    /** The class invariant the parser establishes and the tessellation asserts. */
    predicate LeftCountInRange() {
      0 <= numLeftLanes <= |lanes|
    }

    /** `numRightLanes`: the lanes after the left ones. */
    function NumRightLanes(): (n: int)
      ensures numLeftLanes + n == |lanes|
    {
      |lanes| - numLeftLanes
    }
  }

  // ---- lane identifiers and indices ----

  /** `laneIndexToId`: index `numLeftLanes - 1 - k` is left lane `k + 1`, index
      `numLeftLanes + k` is right lane `-(k + 1)`; id 0 (the centre) is skipped. */
  function LaneIndexToId(sec: LaneSection, idx: int): (id: int)
    requires 0 <= idx < |sec.lanes|
    ensures id != 0
    ensures id > 0 <==> idx < sec.numLeftLanes
    ensures id <= sec.numLeftLanes
    ensures sec.LeftCountInRange() ==> id >= -sec.NumRightLanes()
  {
    var id := sec.numLeftLanes - idx;
    if id <= 0 then id - 1 else id
  }

  /** `laneIdToIndex`: the inverse conversion; the id must name an existing lane. */
  function LaneIdToIndex(sec: LaneSection, id: int): (idx: int)
    requires id != 0
    requires id <= sec.numLeftLanes
    requires id >= -sec.NumRightLanes()
    ensures sec.LeftCountInRange() ==> 0 <= idx < |sec.lanes|
    ensures idx < sec.numLeftLanes <==> id > 0
  {
    var idx := sec.numLeftLanes - id;
    if idx >= sec.numLeftLanes then idx - 1 else idx
  }

  /** Index to id and back is the identity. */
  lemma IndexToIdRoundTrip(sec: LaneSection, idx: int)
    requires sec.LeftCountInRange()
    requires 0 <= idx < |sec.lanes|
    ensures LaneIdToIndex(sec, LaneIndexToId(sec, idx)) == idx
  {
  }

  /** Id to index and back is the identity. */
  lemma IdToIndexRoundTrip(sec: LaneSection, id: int)
    requires sec.LeftCountInRange()
    requires id != 0 && id <= sec.numLeftLanes && id >= -sec.NumRightLanes()
    ensures LaneIndexToId(sec, LaneIdToIndex(sec, id)) == id
  {
  }

  /** The lanes carry the ids their positions give them: left lanes `n, …, 1`
      from the outside in, right lanes `-1, -2, …` outward. */
  predicate WellNumbered(sec: LaneSection) {
    forall i :: 0 <= i < |sec.lanes| ==> sec.lanes[i].id == LaneIndexToId(sec, i)
  }

  /** `laneById`: the lane at the index of `id`. */
  function LaneById(sec: LaneSection, id: int): (l: Lane)
    requires sec.LeftCountInRange()
    requires id != 0 && id <= sec.numLeftLanes && id >= -sec.NumRightLanes()
    ensures l == sec.lanes[LaneIdToIndex(sec, id)]
    ensures WellNumbered(sec) ==> l.id == id
  {
    sec.lanes[LaneIdToIndex(sec, id)]
  }

  // ---- width polynomial selection ----

  /** The polynomial cursor of the tessellation: starting from `cur`, step to the
      next polynomial as long as `param` has reached its s-offset. */
  function Advance(widths: seq<WidthPoly3>, cur: nat, param: real): (r: nat)
    requires cur < |widths|
    ensures cur <= r < |widths|
    ensures forall j :: cur < j <= r ==> widths[j].sOffset <= param
    ensures r + 1 == |widths| || param < widths[r + 1].sOffset
    decreases |widths| - cur
  {
    if cur + 1 < |widths| && param >= widths[cur + 1].sOffset then Advance(widths, cur + 1, param)
    else cur
  }

  /** Advancing is insensitive to a starting point the cursor would have passed anyway. */
  lemma {:induction false} AdvanceSkip(widths: seq<WidthPoly3>, a: nat, b: nat, param: real)
    requires a <= b < |widths|
    requires forall j :: a < j <= b ==> widths[j].sOffset <= param
    ensures Advance(widths, a, param) == Advance(widths, b, param)
    decreases b - a
  {
    if a < b {
      AdvanceSkip(widths, a + 1, b, param);
    }
  }

  /** The cursor stops at `b` once every offset up to `b` has been passed and the next is ahead. */
  lemma {:induction false} AdvanceStopsAt(widths: seq<WidthPoly3>, a: nat, b: nat, param: real)
    requires a <= b < |widths|
    requires forall j :: a < j <= b ==> widths[j].sOffset <= param
    requires b + 1 == |widths| || param < widths[b + 1].sOffset
    ensures Advance(widths, a, param) == b
  {
    AdvanceSkip(widths, a, b, param);
  }

  /** The s-offsets never decrease (validation demands they strictly increase). */
  predicate OffsetsSorted(widths: seq<WidthPoly3>) {
    forall i, j :: 0 <= i < j < |widths| ==> widths[i].sOffset <= widths[j].sOffset
  }

  /** The selection rule as stated: the last polynomial whose s-offset is at most
      `param`, or the first one when none is. */
  predicate IsSelected(widths: seq<WidthPoly3>, param: real, i: int) {
    0 <= i < |widths|
    && (i == 0 || widths[i].sOffset <= param)
    && forall j :: i < j < |widths| ==> param < widths[j].sOffset
  }

  /** With sorted offsets the cursor from the first polynomial lands on the selected one. */
  lemma AdvanceSelects(widths: seq<WidthPoly3>, param: real)
    requires |widths| > 0
    requires OffsetsSorted(widths)
    ensures IsSelected(widths, param, Advance(widths, 0, param))
  {
  }

  /** The width of a lane `param` past the section start, by the selection rule. */
  function WidthAt(lane: Lane, param: real): real
    requires |lane.widths| > 0
  {
    PolyWidth(lane.widths[Advance(lane.widths, 0, param)], param)
  }

  /** `Lane::widthAtSCoord`: scans from the second polynomial for the first whose
      s-offset lies beyond `s` and evaluates the one before it. */
  method WidthAtSCoord(lane: Lane, s: real) returns (w: real)
    requires |lane.widths| > 0
    ensures w == WidthAt(lane, s)
    ensures OffsetsSorted(lane.widths) ==>
              exists i :: IsSelected(lane.widths, s, i)
                && w == lane.widths[i].poly.Eval(s - lane.widths[i].sOffset)
  {
    var polyIdx := 1;
    while polyIdx < |lane.widths|
      invariant 1 <= polyIdx <= |lane.widths|
      invariant forall j :: 0 < j < polyIdx ==> lane.widths[j].sOffset <= s
    {
      if s < lane.widths[polyIdx].sOffset {
        break;
      }
      polyIdx := polyIdx + 1;
    }
    AdvanceStopsAt(lane.widths, 0, polyIdx - 1, s);
    var poly := lane.widths[polyIdx - 1];
    w := poly.poly.Eval(s - poly.sOffset);
    assert w == WidthAt(lane, s);
    if OffsetsSorted(lane.widths) {
      AdvanceSelects(lane.widths, s);
      assert IsSelected(lane.widths, s, polyIdx - 1);
    }
  }

  /** The polynomial the tessellation's cursor points at for sample `k`: the
      cursor is never reset between samples of one lane. */
  function Cursor(widths: seq<WidthPoly3>, params: seq<real>, k: nat): (c: nat)
    requires |widths| > 0 && k < |params|
    ensures c < |widths|
    decreases k
  {
    Advance(widths, if k == 0 then 0 else Cursor(widths, params, k - 1), params[k])
  }

  /** Samples in non-decreasing s order. */
  predicate NonDecreasing(params: seq<real>) {
    forall i, j :: 0 <= i < j < |params| ==> params[i] <= params[j]
  }

  /** Along non-decreasing samples the never-reset cursor agrees with a fresh search. */
  lemma {:induction false} CursorIsFreshSearch(widths: seq<WidthPoly3>, params: seq<real>, k: nat)
    requires |widths| > 0 && k < |params|
    requires NonDecreasing(params)
    ensures Cursor(widths, params, k) == Advance(widths, 0, params[k])
    decreases k
  {
    if k > 0 {
      CursorIsFreshSearch(widths, params, k - 1);
      var c := Cursor(widths, params, k - 1);
      AdvanceSkip(widths, 0, c, params[k]);
    }
  }

  /** The width the tessellation uses for lane sample `k`. */
  function SampleWidth(lane: Lane, params: seq<real>, k: nat): real
    requires |lane.widths| > 0 && k < |params|
  {
    PolyWidth(lane.widths[Cursor(lane.widths, params, k)], params[k])
  }

  /** A width polynomial evaluated `param` past the section start. */
  function PolyWidth(w: WidthPoly3, param: real): real {
    w.poly.Eval(param - w.sOffset)
  }

  /** Along non-decreasing samples the tessellation and `widthAtSCoord` agree. */
  lemma SampleWidthIsWidthAt(lane: Lane, params: seq<real>, k: nat)
    requires |lane.widths| > 0 && k < |params|
    requires NonDecreasing(params)
    ensures SampleWidth(lane, params, k) == WidthAt(lane, params[k])
  {
    CursorIsFreshSearch(lane.widths, params, k);
  }

  // ---- boundary tessellation (lateral positions) ----

  /** Every lane has at least one width polynomial (the parser demands one or more). */
  predicate AllLanesHaveWidths(sec: LaneSection) {
    forall i :: 0 <= i < |sec.lanes| ==> |sec.lanes[i].widths| > 0
  }

  /** One boundary of `tessellateLaneBoundariesSide`: the outer boundary of a lane
      is its inner boundary moved by the lane's width against `stepDir` (left lanes
      are walked with step -1 and lie at larger lateral positions). */
  method OuterBoundary(inner: seq<real>, lane: Lane, params: seq<real>, stepDir: int)
    returns (outer: seq<real>)
    requires stepDir == -1 || stepDir == 1
    requires |lane.widths| > 0
    requires |inner| == |params|
    ensures |outer| == |params|
    ensures forall k :: 0 <= k < |params| ==> outer[k] == Moved(inner[k], SampleWidth(lane, params, k), stepDir)
  {
    outer := [];
    var cur := 0;
    var k := 0;
    while k < |params|
      invariant 0 <= k <= |params|
      invariant |outer| == k
      invariant cur == if k == 0 then 0 else Cursor(lane.widths, params, k - 1)
      invariant forall m :: 0 <= m < k ==> outer[m] == Moved(inner[m], SampleWidth(lane, params, m), stepDir)
    {
      cur := AdvanceCursor(lane.widths, cur, params[k]);
      assert cur == Cursor(lane.widths, params, k);
      var moved := Moved(inner[k], PolyWidth(lane.widths[cur], params[k]), stepDir);
      assert moved == Moved(inner[k], SampleWidth(lane, params, k), stepDir);
      assert forall m :: 0 <= m < k ==> (outer + [moved])[m] == outer[m];
      outer := outer + [moved];
      k := k + 1;
    }
  }

  /** `inner + width * -stepDir` for a step of ±1. */
  function Moved(inner: real, width: real, stepDir: int): real {
    if stepDir == -1 then inner + width else inner - width
  }

  /** The inner loop of `tessellateLaneBoundariesSide` that moves the polynomial cursor. */
  method AdvanceCursor(widths: seq<WidthPoly3>, start: nat, param: real) returns (cur: nat)
    requires start < |widths|
    ensures cur == Advance(widths, start, param)
  {
    cur := start;
    while cur + 1 < |widths| && param >= widths[cur + 1].sOffset
      invariant start <= cur < |widths|
      invariant Advance(widths, cur, param) == Advance(widths, start, param)
      decreases |widths| - cur
    {
      cur := cur + 1;
    }
  }

  /** The lateral part of `tessellateLaneBoundaries`: `|lanes| + 1` boundaries from
      the left edge of the leftmost lane to the right edge of the rightmost one,
      each sampled at the reference line's s-coordinates; boundary
      `numLeftLanes` is the reference line itself. */
  method TessellateLaneBoundaries(sec: LaneSection, refS: seq<real>) returns (ret: seq<seq<real>>)
    requires |refS| > 0
    requires sec.LeftCountInRange()
    requires AllLanesHaveWidths(sec)
    ensures |ret| == |sec.lanes| + 1
    ensures forall i :: 0 <= i < |ret| ==> |ret[i]| == |refS|
    ensures forall k :: 0 <= k < |refS| ==> ret[sec.numLeftLanes][k] == 0.0
    ensures forall i, k :: 0 <= i < |sec.lanes| && 0 <= k < |refS| ==>
              ret[i][k] - ret[i + 1][k] == SampleWidth(sec.lanes[i], Params(sec, refS), k)
  {
    var params := Params(sec, refS);
    var n := |sec.lanes|;
    var nl := sec.numLeftLanes;
    ret := seq(n + 1, _ => []);
    ret := ret[nl := seq(|refS|, _ => 0.0)];

    // Left lanes, from the centre outward.
    var i := nl;
    while i > 0
      invariant 0 <= i <= nl
      invariant |ret| == n + 1
      invariant forall j :: i <= j <= nl ==> |ret[j]| == |refS|
      invariant forall k :: 0 <= k < |refS| ==> ret[nl][k] == 0.0
      invariant forall j, k :: i <= j < nl && 0 <= k < |refS| ==>
                  ret[j][k] - ret[j + 1][k] == SampleWidth(sec.lanes[j], params, k)
    {
      i := i - 1;
      var row := OuterBoundary(ret[i + 1], sec.lanes[i], params, -1);
      ret := ret[i := row];
    }

    // Right lanes, from the centre outward.
    i := nl;
    while i < n
      invariant nl <= i <= n
      invariant |ret| == n + 1
      invariant forall j :: 0 <= j <= i ==> |ret[j]| == |refS|
      invariant forall k :: 0 <= k < |refS| ==> ret[nl][k] == 0.0
      invariant forall j, k :: 0 <= j < i && 0 <= k < |refS| ==>
                  ret[j][k] - ret[j + 1][k] == SampleWidth(sec.lanes[j], params, k)
    {
      var row := OuterBoundary(ret[i], sec.lanes[i], params, 1);
      ret := ret[i + 1 := row];
      i := i + 1;
    }
  }

  /** The sample parameters: the reference line's s-coordinates relative to the section start. */
  function Params(sec: LaneSection, refS: seq<real>): (params: seq<real>)
    ensures |params| == |refS|
    ensures forall k :: 0 <= k < |refS| ==> params[k] == refS[k] - sec.startS
  {
    seq(|refS|, k requires 0 <= k < |refS| => refS[k] - sec.startS)
  }

  /** With non-negative widths the boundaries are ordered from left to right:
      lateral positions never increase with the boundary index. */
  lemma BoundariesOrdered(sec: LaneSection, refS: seq<real>, ret: seq<seq<real>>, i: int, j: int, k: int)
    requires |ret| == |sec.lanes| + 1 && AllLanesHaveWidths(sec)
    requires forall b :: 0 <= b < |ret| ==> |ret[b]| == |refS|
    requires forall b, m :: 0 <= b < |sec.lanes| && 0 <= m < |refS| ==>
               ret[b][m] - ret[b + 1][m] == SampleWidth(sec.lanes[b], Params(sec, refS), m)
    requires forall b, m :: 0 <= b < |sec.lanes| && 0 <= m < |refS| ==>
               SampleWidth(sec.lanes[b], Params(sec, refS), m) >= 0.0
    requires 0 <= i <= j < |ret| && 0 <= k < |refS|
    ensures ret[i][k] >= ret[j][k]
    decreases j - i
  {
    if i < j {
      BoundariesOrdered(sec, refS, ret, i + 1, j, k);
      assert ret[i][k] - ret[i + 1][k] == SampleWidth(sec.lanes[i], Params(sec, refS), k);
    }
  }

  // ---- validation ----

  /** The two messages of `validateAttribSCoords`. */
  function RangeMessage(name: string): string {
    "The s-offset of the <" + name + "> elements of a lane should fall within the lane's s-range."
  }

  function OrderMessage(name: string): string {
    "The <" + name + "> elements of a lane should occur in increasing s-offset order."
  }

  /** The condition validation is meant to establish: every offset lies in
      `[0, maxSOffset)` and the offsets strictly increase. */
  predicate ValidSOffsets(offsets: seq<real>, maxSOffset: real) {
    (forall i :: 0 <= i < |offsets| ==> 0.0 <= offsets[i] < maxSOffset)
    && (forall i, j :: 0 <= i < j < |offsets| ==> offsets[i] < offsets[j])
  }

  /** `validateAttribSCoords`: checks the first and last offset against the range,
      then each adjacent pair; throws (here: returns the message) on the first failure. */
  function ValidateAttribSCoords(name: string, maxSOffset: real, offsets: seq<real>): (err: Option<string>)
    ensures err.None? <==> ValidSOffsets(offsets, maxSOffset)
    ensures err.Some? ==> err.value == RangeMessage(name) || err.value == OrderMessage(name)
    ensures err == Some(RangeMessage(name)) <==>
              |offsets| > 0 && (offsets[0] < 0.0 || offsets[|offsets| - 1] >= maxSOffset)
  {
    if |offsets| == 0 then None
    else if offsets[0] < 0.0 || offsets[|offsets| - 1] >= maxSOffset then Some(RangeMessage(name))
    else if exists i :: 0 <= i < |offsets| - 1 && offsets[i] >= offsets[i + 1] then Some(OrderMessage(name))
    else
      AdjacentIncreasingIsValid(offsets, maxSOffset);
      None
  }

  /** In-range ends and increasing neighbours make the whole list valid. */
  lemma {:induction false} AdjacentIncreasingIsValid(offsets: seq<real>, maxSOffset: real)
    requires |offsets| > 0
    requires 0.0 <= offsets[0] && offsets[|offsets| - 1] < maxSOffset
    requires forall i :: 0 <= i < |offsets| - 1 ==> offsets[i] < offsets[i + 1]
    ensures ValidSOffsets(offsets, maxSOffset)
  {
    forall i, j | 0 <= i < j < |offsets|
      ensures offsets[i] < offsets[j]
    {
      IncreasingSpan(offsets, i, j);
    }
    forall i | 0 <= i < |offsets|
      ensures 0.0 <= offsets[i] < maxSOffset
    {
      if 0 < i {
        IncreasingSpan(offsets, 0, i);
      }
      if i < |offsets| - 1 {
        IncreasingSpan(offsets, i, |offsets| - 1);
      }
    }
  }

  lemma {:induction false} IncreasingSpan(offsets: seq<real>, i: int, j: int)
    requires 0 <= i < j < |offsets|
    requires forall m :: 0 <= m < |offsets| - 1 ==> offsets[m] < offsets[m + 1]
    ensures offsets[i] < offsets[j]
    decreases j - i
  {
    if i + 1 < j {
      IncreasingSpan(offsets, i + 1, j);
    }
  }

  /** The attribute lists of a lane in the order `Lane::validate` checks them. */
  function AttributeLists(lane: Lane): seq<(string, seq<real>)> {
    [("width", seq(|lane.widths|, i requires 0 <= i < |lane.widths| => lane.widths[i].sOffset)),
     ("material", lane.materials),
     ("visibility", lane.visibilities),
     ("speed", lane.speedLimits),
     ("access", lane.accesses),
     ("height", lane.heights),
     ("rule", lane.rules)]
  }

  /** The first failure among `lists`, checked in order. */
  function FirstFailure(lists: seq<(string, seq<real>)>, maxSOffset: real): (err: Option<string>)
    ensures err.None? <==> forall i :: 0 <= i < |lists| ==> ValidSOffsets(lists[i].1, maxSOffset)
    decreases |lists|
  {
    if |lists| == 0 then None
    else
      match ValidateAttribSCoords(lists[0].0, maxSOffset, lists[0].1)
      case Some(e) => Some(e)
      case None =>
        var rest := FirstFailure(lists[1..], maxSOffset);
        assert forall i :: 1 <= i < |lists| ==> lists[i] == lists[1..][i - 1];
        rest
  }

  /** `Lane::validate`: every attribute list validated against the lane's s-range. */
  function ValidateLane(lane: Lane, maxSOffset: real): (err: Option<string>)
    ensures err.None? <==>
              (forall i :: 0 <= i < |AttributeLists(lane)| ==> ValidSOffsets(AttributeLists(lane)[i].1, maxSOffset))
  {
    FirstFailure(AttributeLists(lane), maxSOffset)
  }

  /** `LaneSection::validate`: every lane, against `endS - startS`. */
  function ValidateSection(sec: LaneSection): (err: Option<string>)
    ensures err.None? <==>
              forall i :: 0 <= i < |sec.lanes| ==> ValidateLane(sec.lanes[i], sec.endS - sec.startS).None?
  {
    ValidateLanes(sec.lanes, sec.endS - sec.startS)
  }

  function ValidateLanes(lanes: seq<Lane>, maxSOffset: real): (err: Option<string>)
    ensures err.None? <==> forall i :: 0 <= i < |lanes| ==> ValidateLane(lanes[i], maxSOffset).None?
    decreases |lanes|
  {
    if |lanes| == 0 then None
    else
      match ValidateLane(lanes[0], maxSOffset)
      case Some(e) => Some(e)
      case None =>
        var rest := ValidateLanes(lanes[1..], maxSOffset);
        assert forall i :: 1 <= i < |lanes| ==> lanes[i] == lanes[1..][i - 1];
        rest
  }

  /** A validated lane's width polynomials start inside the lane's s-range and
      strictly increase, so the selection rule picks a unique polynomial. */
  lemma ValidatedWidthsSorted(lane: Lane, maxSOffset: real)
    requires ValidateLane(lane, maxSOffset).None?
    ensures OffsetsSorted(lane.widths)
  {
    var lists := AttributeLists(lane);
    assert ValidSOffsets(lists[0].1, maxSOffset);
    forall i, j | 0 <= i < j < |lane.widths|
      ensures lane.widths[i].sOffset <= lane.widths[j].sOffset
    {
      assert lists[0].1[i] == lane.widths[i].sOffset;
      assert lists[0].1[j] == lane.widths[j].sOffset;
    }
  }
}
