/** The reference line of a road (`reference_line.cpp`, `reference_line_parser.cpp`):
    the `<planView>` geometries, the search for the geometry containing an
    s-coordinate, and the split of an s-range over the geometries for tessellation.
    Positions and headings need trigonometry and the Fresnel integrals of the spiral;
    only s-coordinates, lengths and the parser's checks are modelled. */
module ReferenceLines {
  import opened Wrappers
  import opened ParseResults
  import ChildElementParsers

  /** `ReferenceLine::PRange`. */
  datatype PRange = ArcLength | Normalized

  /** `parseXmlAttrib<PRange>`: anything else throws `invalid_argument` carrying the text. */
  function ParsePRange(value: string): (r: Result<PRange, string>)
    ensures r.Success? <==> value in {"arcLength", "normalized"}
    ensures r == Success(ArcLength) <==> value == "arcLength"
    ensures r == Success(Normalized) <==> value == "normalized"
    ensures r.Failure? ==> r.error == value
  {
    if value == "arcLength" then Success(ArcLength)
    else if value == "normalized" then Success(Normalized)
    else Failure(value)
  }

  /** The keyword of a p-range: the decoder reads it back. */
  function PRangeKeyword(p: PRange): (k: string)
    ensures ParsePRange(k) == Success(p)
  {
    match p
    case ArcLength => "arcLength"
    case Normalized => "normalized"
  }

  /** The geometry kinds with the parameters the model keeps. */
  datatype GeometryKind =
    | Line
    | Spiral(curvStart: real, curvEnd: real)
    | Arc(curvature: real)
    | Poly3Geom
    | ParamPoly3(pRange: PRange)

  /** A geometry: its start s-coordinate, its length and its kind. */
  datatype Geometry = Geometry(startS: real, length: real, kind: GeometryKind)

  /** `endVertex().sCoord_`, the same for all five kinds: the start plus the length. */
  function EndS(g: Geometry): (s: real)
    ensures s - g.startS == g.length
  {
    g.startS + g.length
  }

  /** The curve parameter at the end of a `<paramPoly3>`: the length for an
      arc-length range, 1 for a normalized one. */
  function ParamPoly3EndParameter(pRange: PRange, length: real): (t: real)
    ensures pRange == ArcLength ==> t == length
    ensures pRange == Normalized ==> t == 1.0
  {
    match pRange
    case ArcLength => length
    case Normalized => 1.0
  }

  /** The tolerance of the range checks. */
  const TOLERANCE: real := 0.00001

  /** `Geometry::inSRange`: the local coordinate lies in `[-TOLERANCE, length + TOLERANCE)`. */
  predicate InSRange(g: Geometry, s: real) {
    var localS := s - g.startS;
    localS >= -TOLERANCE && localS < g.length + TOLERANCE
  }

  /** `GeometryAttribs`: the `s` and `length` attributes (`x`, `y` and `hdg` are
      not modelled). */
  datatype GeometryAttribs = GeometryAttribs(s: real, length: real)

  const NON_POSITIVE_LENGTH: string := "Reference line must have strictly positive length"
  const NEGATIVE_S_OFFSET: string := "Reference line s-offset must not be negative"

  /** The checks after the `<geometry>` attributes: only when they left the geometry
      valid, a non-positive length and a negative `s` each add a GEOMETRY error. */
  function AttribChecks(r: ParseResult<GeometryAttribs>): (errs: seq<XodrParseError>)
    ensures !HasValidGeometry(r.errors) ==> errs == []
    ensures HasValidGeometry(r.errors) ==>
              (MessageError(NON_POSITIVE_LENGTH, GEOMETRY) in errs <==> r.value.length <= 0.0)
              && (MessageError(NEGATIVE_S_OFFSET, GEOMETRY) in errs <==> r.value.s < 0.0)
              && |errs| <= 2
    ensures forall e :: e in errs ==> e.invalidations == GEOMETRY
  {
    if !HasValidGeometry(r.errors) then []
    else
      (if r.value.length <= 0.0 then [MessageError(NON_POSITIVE_LENGTH, GEOMETRY)] else [])
      + (if r.value.s < 0.0 then [MessageError(NEGATIVE_S_OFFSET, GEOMETRY)] else [])
  }

  const EQUAL_SPIRAL_CURVATURES: string := "The 'curvStart' and 'curvEnd' attributes of a <spiral> shouldn't be equal."

  /** `Spiral::curvatureRateOfChange() == 0` in IEEE arithmetic: the rate
      `(curvEnd - curvStart) / length` is zero only for equal curvatures and a
      non-zero length (a zero length gives an infinity or NaN). */
  predicate ZeroCurvatureRate(curvStart: real, curvEnd: real, length: real) {
    length != 0.0 && curvStart == curvEnd
  }

  /** `Spiral::parseXml` after its attributes: with valid geometry, equal curvatures
      add a GEOMETRY error. */
  function ParseSpiral(attribs: GeometryAttribs, curvatures: ParseResult<(real, real)>): (r: ParseResult<GeometryKind>)
    ensures r.value == Spiral(curvatures.value.0, curvatures.value.1)
    ensures |r.errors| >= |curvatures.errors| && r.errors[..|curvatures.errors|] == curvatures.errors
    ensures |r.errors| > |curvatures.errors| <==>
              HasValidGeometry(curvatures.errors) && ZeroCurvatureRate(curvatures.value.0, curvatures.value.1, attribs.length)
    ensures |r.errors| > |curvatures.errors| ==> r.errors == curvatures.errors + [MessageError(EQUAL_SPIRAL_CURVATURES, GEOMETRY)]
  {
    var (c0, c1) := curvatures.value;
    var extra := if HasValidGeometry(curvatures.errors) && ZeroCurvatureRate(c0, c1, attribs.length)
                 then [MessageError(EQUAL_SPIRAL_CURVATURES, GEOMETRY)] else [];
    ParseResult(Spiral(c0, c1), curvatures.errors + extra)
  }

  /** The decoder of the `<arc>` `curvature` attribute accepts a number that is not
      zero; `None` stands for text `std::stod` rejects. */
  predicate ArcCurvatureAccepted(value: Option<real>) {
    value.Some? && value.value != 0.0
  }

  /** The element inside a `<geometry>`: one of the five kinds, with the result of
      its own parser, or an element of another name. */
  datatype GeometryChild = Known(result: ParseResult<GeometryKind>) | Unknown(name: string)

  /** The element name of each kind. */
  function KindName(k: GeometryKind): string {
    match k
    case Line => "line"
    case Spiral(_, _) => "spiral"
    case Arc(_) => "arc"
    case Poly3Geom => "poly3"
    case ParamPoly3(_) => "paramPoly3"
  }

  /** The error for an element that is not a geometry kind. */
  function UnknownGeometryError(name: string): (e: XodrParseError)
    ensures e.invalidations == GEOMETRY && e.IsFatal()
  {
    MessageError("'" + name + "' is not a valid type of geometry. Expected one of 'line', 'spiral', 'arc', 'poly3' or 'paramPoly3'.", GEOMETRY)
  }

  /** One `<geometry>` element: its attribute result and its child. */
  datatype GeometryElement = GeometryElement(attribs: ParseResult<GeometryAttribs>, child: GeometryChild)

  /** The reference line under construction: the geometries and the errors. */
  datatype Builder = Builder(geometries: seq<Geometry>, errors: seq<XodrParseError>)

  /** The function `parseXml` runs on one `<geometry>`: the attribute errors and
      checks, then either a new geometry with its parser's errors or one error. */
  function GeometryStep(b: Builder, e: GeometryElement): (b': Builder)
    ensures e.child.Known? ==>
              b'.geometries == b.geometries + [Geometry(e.attribs.value.s, e.attribs.value.length, e.child.result.value)]
              && b'.errors == b.errors + e.attribs.errors + AttribChecks(e.attribs) + e.child.result.errors
    ensures e.child.Unknown? ==>
              b'.geometries == b.geometries
              && b'.errors == b.errors + e.attribs.errors + AttribChecks(e.attribs) + [UnknownGeometryError(e.child.name)]
  {
    var errs := b.errors + e.attribs.errors + AttribChecks(e.attribs);
    match e.child
    case Known(r) => Builder(b.geometries + [Geometry(e.attribs.value.s, e.attribs.value.length, r.value)], errs + r.errors)
    case Unknown(name) => Builder(b.geometries, errs + [UnknownGeometryError(name)])
  }

  /** The geometry elements in order. */
  function ReadGeometries(elems: seq<GeometryElement>): (b: Builder)
    ensures |b.geometries| <= |elems|
    decreases |elems|
  {
    if |elems| == 0 then Builder([], [])
    else GeometryStep(ReadGeometries(elems[..|elems| - 1]), elems[|elems| - 1])
  }

  /** Every element with a known kind adds one geometry, the others none. */
  function KnownCount(elems: seq<GeometryElement>): nat
    decreases |elems|
  {
    if |elems| == 0 then 0
    else KnownCount(elems[..|elems| - 1]) + (if elems[|elems| - 1].child.Known? then 1 else 0)
  }

  /** One geometry per element with a known kind. */
  lemma {:induction false} ReadGeometriesCount(elems: seq<GeometryElement>)
    ensures |ReadGeometries(elems).geometries| == KnownCount(elems)
    decreases |elems|
  {
    if |elems| > 0 {
      ReadGeometriesCount(elems[..|elems| - 1]);
    }
  }

  /** When every element has a known kind, geometry `k` is element `k`'s, with its
      attributes. */
  lemma {:induction false} ReadGeometriesAllKnown(elems: seq<GeometryElement>)
    requires forall k :: 0 <= k < |elems| ==> elems[k].child.Known?
    ensures |ReadGeometries(elems).geometries| == |elems|
    ensures forall k :: 0 <= k < |elems| ==>
              ReadGeometries(elems).geometries[k] == GeometryOf(elems[k])
    decreases |elems|
  {
    if |elems| > 0 {
      var n := |elems| - 1;
      ReadGeometriesAllKnown(elems[..n]);
      var prev := ReadGeometries(elems[..n]).geometries;
      var g := GeometryOf(elems[n]);
      ReadGeometriesKnownStep(elems);
      assert ReadGeometries(elems).geometries == prev + [g];
      forall k | 0 <= k < |elems|
        ensures ReadGeometries(elems).geometries[k] == GeometryOf(elems[k])
      {
        if k < n {
          assert elems[..n][k] == elems[k];
          assert prev[k] == GeometryOf(elems[..n][k]);
        }
      }
    }
  }

  /** The geometry an element with a known kind contributes. */
  function GeometryOf(e: GeometryElement): Geometry
    requires e.child.Known?
  {
    Geometry(e.attribs.value.s, e.attribs.value.length, e.child.result.value)
  }

  /** The last element, of a known kind, appends its geometry. */
  lemma ReadGeometriesKnownStep(elems: seq<GeometryElement>)
    requires |elems| > 0 && elems[|elems| - 1].child.Known?
    ensures ReadGeometries(elems).geometries
            == ReadGeometries(elems[..|elems| - 1]).geometries + [GeometryOf(elems[|elems| - 1])]
  {
  }

  /** The elements at the given positions, in the order given. */
  function Pick(elems: seq<GeometryElement>, positions: seq<nat>): (picked: seq<GeometryElement>)
    requires forall k :: 0 <= k < |positions| ==> positions[k] < |elems|
    ensures |picked| == |positions|
    ensures forall k :: 0 <= k < |positions| ==> picked[k] == elems[positions[k]]
  {
    seq(|positions|, k requires 0 <= k < |positions| => elems[positions[k]])
  }

  /** `ReferenceLine`: the geometries and the end s-coordinate (`None` until a
      geometry sets `endVertex_`). */
  datatype ReferenceLine = ReferenceLine(geometries: seq<Geometry>, endS: Option<real>)

  /** `ReferenceLine::parseXml` over the children of `<planView>`: `elems[j]` is the
      content of child `j` when it is a `<geometry>`. Other children are skipped;
      without any `<geometry>` an ALL error is appended. `endVertex_` is the last
      geometry's end. */
  function ParsePlanView(names: seq<string>, elems: seq<GeometryElement>): (r: ParseResult<ReferenceLine>)
    requires |names| == |elems|
    ensures EndsWithLastGeometry(r.value)
  {
    var found := ChildElementParsers.ParseOneOrMore("planView", names, "geometry", ALL);
    assert forall k :: 0 <= k < |found.0| ==> found.0[k] < |elems| by {
      forall k | 0 <= k < |found.0| ensures found.0[k] < |elems| {
        assert found.0[k] in found.0;
      }
    }
    PlanViewOf(elems, found.0, found.1)
  }

  /** The reference line read from the `<geometry>` children at `positions`, with
      the errors of the search for them appended. */
  function PlanViewOf(elems: seq<GeometryElement>, positions: seq<nat>, missing: seq<XodrParseError>)
    : (r: ParseResult<ReferenceLine>)
    requires forall k :: 0 <= k < |positions| ==> positions[k] < |elems|
    ensures EndsWithLastGeometry(r.value)
  {
    var b := ReadGeometries(Pick(elems, positions));
    ParseResult(LineOf(b.geometries), b.errors + missing)
  }

  /** How many of the `<geometry>` children at `positions` the loop reads as
      written: an unknown kind leaves its `<geometry>` end tag to the loop, which
      takes it for the end of `<planView>`, so reading stops after that child. */
  function GeometriesReadAsWritten(elems: seq<GeometryElement>, positions: seq<nat>): (k: nat)
    requires forall j :: 0 <= j < |positions| ==> positions[j] < |elems|
    ensures k <= |positions|
    ensures forall j :: 0 <= j < k - 1 ==> elems[positions[j]].child.Known?
    ensures k < |positions| ==> 0 < k && elems[positions[k - 1]].child.Unknown?
    decreases |positions|
  {
    if |positions| == 0 then 0
    else if elems[positions[0]].child.Unknown? then 1
    else
      var rest := GeometriesReadAsWritten(elems, positions[1..]);
      assert forall j :: 0 <= j < rest - 1 ==> positions[1..][j] == positions[j + 1];
      1 + rest
  }

  /** `ReferenceLine::parseXml` as written: the geometries after the first one of
      an unknown kind are not read. */
  function ParsePlanViewAsWritten(names: seq<string>, elems: seq<GeometryElement>): (r: ParseResult<ReferenceLine>)
    requires |names| == |elems|
    ensures EndsWithLastGeometry(r.value)
  {
    var found := ChildElementParsers.ParseOneOrMore("planView", names, "geometry", ALL);
    assert forall k :: 0 <= k < |found.0| ==> found.0[k] < |elems| by {
      forall k | 0 <= k < |found.0| ensures found.0[k] < |elems| {
        assert found.0[k] in found.0;
      }
    }
    var k := GeometriesReadAsWritten(elems, found.0);
    PlanViewOf(elems, found.0[..k], found.1)
  }

  /** Without a `<geometry>` of an unknown kind, the loop as written reads every
      child, as the corrected one does. */
  lemma PlanViewAsWrittenWithoutUnknown(names: seq<string>, elems: seq<GeometryElement>)
    requires |names| == |elems|
    requires forall j :: 0 <= j < |names| && names[j] == "geometry" ==> elems[j].child.Known?
    ensures ParsePlanViewAsWritten(names, elems) == ParsePlanView(names, elems)
  {
    var found := ChildElementParsers.ParseOneOrMore("planView", names, "geometry", ALL);
    assert forall k :: 0 <= k < |found.0| ==> found.0[k] < |elems| by {
      forall k | 0 <= k < |found.0| ensures found.0[k] < |elems| {
        assert found.0[k] in found.0;
      }
    }
    var k := GeometriesReadAsWritten(elems, found.0);
    assert found.0[..k] == found.0;
  }

  /** A `<geometry>` of an unknown kind followed by a line: as written the
      reference line has no geometry, the corrected loop reads the line. */
  lemma UnknownKindEndsPlanView(a: ParseResult<GeometryAttribs>, line: ParseResult<GeometryKind>)
    ensures var names := ["geometry", "geometry"];
            var elems := [GeometryElement(a, Unknown("clothoid")), GeometryElement(a, Known(line))];
            && ParsePlanViewAsWritten(names, elems).value.geometries == []
            && ParsePlanView(names, elems).value.geometries == [Geometry(a.value.s, a.value.length, line.value)]
  {
    var names := ["geometry", "geometry"];
    var elems := [GeometryElement(a, Unknown("clothoid")), GeometryElement(a, Known(line))];
    var found := ChildElementParsers.ParseOneOrMore("planView", names, "geometry", ALL);
    assert 0 in found.0 && 1 in found.0;
    assert found.0 == [0, 1];
    assert GeometriesReadAsWritten(elems, found.0) == 1;
    var one := Pick(elems, [0]);
    assert ReadGeometries(one) == GeometryStep(ReadGeometries(one[..0]), one[0]);
    var both := Pick(elems, [0, 1]);
    assert both[..1] == one;
    assert ReadGeometries(both) == GeometryStep(ReadGeometries(one), both[1]);
  }

  /** A reference line has an end exactly when it has geometries, and it ends
      where its last geometry ends. */
  predicate EndsWithLastGeometry(l: ReferenceLine) {
    (l.geometries == [] <==> l.endS.None?) &&
    (l.endS.Some? ==> l.endS.value == EndS(l.geometries[|l.geometries| - 1]))
  }

  /** A reference line over some geometries: it ends where the last one ends,
      and has no end without geometries. */
  function LineOf(geoms: seq<Geometry>): (l: ReferenceLine)
    ensures l.geometries == geoms
    ensures EndsWithLastGeometry(l)
  {
    ReferenceLine(geoms, if |geoms| == 0 then None else Some(EndS(geoms[|geoms| - 1])))
  }

  /** A `<planView>` without `<geometry>` children yields no geometry and the one
      missing-child error, which invalidates everything. */
  lemma PlanViewWithoutGeometry(names: seq<string>, elems: seq<GeometryElement>)
    requires |names| == |elems|
    requires forall j :: 0 <= j < |names| ==> names[j] != "geometry"
    ensures ParsePlanView(names, elems).value == ReferenceLine([], None)
    ensures ParsePlanView(names, elems).errors
            == [XodrParseError(XmlError(XmlParseError(MissingChildElement, "planView", "geometry")), ALL)]
  {
    var found := ChildElementParsers.ParseOneOrMore("planView", names, "geometry", ALL);
    assert found.0 == [];
  }

  /** Starts that strictly increase. */
  predicate StrictlyIncreasing(geoms: seq<Geometry>) {
    forall i, j :: 0 <= i < j < |geoms| ==> geoms[i].startS < geoms[j].startS
  }

  /** The reference answer of `geometryContaining`: the last geometry after the first
      whose start is at most `s`, or the first geometry. */
  function ContainingIndex(geoms: seq<Geometry>, s: real, n: nat): (k: nat)
    requires 0 < n <= |geoms|
    ensures k < n
    ensures k > 0 ==> geoms[k].startS <= s
    ensures forall i :: k < i < n ==> s < geoms[i].startS
    decreases n
  {
    if n == 1 then 0
    else if geoms[n - 1].startS <= s then n - 1
    else ContainingIndex(geoms, s, n - 1)
  }

  /** `geometryContaining`: a binary search that keeps `min` at a geometry starting
      at or before `s` (or the first) and `max` at one starting after `s` (or the end).
      The source asserts only that `s` lies within the line's range; the search
      also needs a non-empty line, since with none its first step reads
      `geometries_[0]`. */
  method GeometryContaining(geoms: seq<Geometry>, endS: real, s: real) returns (k: nat)
    requires |geoms| > 0 && |geoms| < 0x8000_0000
    requires -TOLERANCE <= s <= endS + TOLERANCE
    ensures k < |geoms|
    ensures k > 0 ==> geoms[k].startS <= s
    ensures k + 1 < |geoms| ==> s < geoms[k + 1].startS
    ensures StrictlyIncreasing(geoms) ==> k == ContainingIndex(geoms, s, |geoms|)
  {
    var geomsMin := 0;
    var geomsMax := |geoms|;
    while geomsMin != geomsMax - 1
      invariant 0 <= geomsMin < geomsMax <= |geoms|
      invariant geomsMin > 0 ==> geoms[geomsMin].startS <= s
      invariant geomsMax < |geoms| ==> s < geoms[geomsMax].startS
      decreases geomsMax - geomsMin
    {
      var mid := (geomsMin + geomsMax) / 2;
      if s < geoms[mid].startS {
        geomsMax := mid;
      } else {
        geomsMin := mid;
      }
    }
    k := geomsMin;
    if StrictlyIncreasing(geoms) {
      ContainingIndexUnique(geoms, s, k);
    }
  }

  /** With strictly increasing starts only one index has the two bracketing properties. */
  lemma ContainingIndexUnique(geoms: seq<Geometry>, s: real, k: nat)
    requires StrictlyIncreasing(geoms) && k < |geoms|
    requires k > 0 ==> geoms[k].startS <= s
    requires k + 1 < |geoms| ==> s < geoms[k + 1].startS
    ensures k == ContainingIndex(geoms, s, |geoms|)
  {
  }

  /** Geometries that follow one another without gaps, the first starting at 0. */
  predicate Chained(geoms: seq<Geometry>) {
    && |geoms| > 0 && geoms[0].startS == 0.0
    && forall i :: 0 <= i < |geoms| - 1 ==> geoms[i + 1].startS == EndS(geoms[i])
  }

  /** On a chained reference line, the geometry `geometryContaining` picks for an
      `s` up to the end accepts `s` in its `inSRange` check. */
  lemma ContainingGeometryInRange(geoms: seq<Geometry>, s: real, k: nat)
    requires Chained(geoms) && -TOLERANCE <= s <= EndS(geoms[|geoms| - 1])
    requires k < |geoms|
    requires k > 0 ==> geoms[k].startS <= s
    requires k + 1 < |geoms| ==> s < geoms[k + 1].startS
    ensures InSRange(geoms[k], s)
  {
  }

  /** One call of a geometry's `tessellate`: geometry `geom` over `[from, to)`, the
      end point included when `to` is the requested end. */
  datatype Piece = Piece(geom: nat, from: real, to: real, includeEnd: bool)

  /** The end of geometry `i` that `tessellate` uses: the next geometry's start, or
      the last geometry's own end. */
  function GeomEnd(geoms: seq<Geometry>, i: nat): real
    requires i < |geoms|
  {
    if i == |geoms| - 1 then EndS(geoms[i]) else geoms[i + 1].startS
  }

  function Max(a: real, b: real): real {
    if a >= b then a else b
  }

  function Min(a: real, b: real): real {
    if a <= b then a else b
  }

  /** The loop of `ReferenceLine::tessellate` from geometry `i` on: each geometry's
      range is clamped to `[startS, endS]` and tessellated when not empty. */
  function Pieces(geoms: seq<Geometry>, startS: real, endS: real, i: nat): (ps: seq<Piece>)
    requires i <= |geoms|
    ensures forall p :: p in ps ==> i <= p.geom < |geoms| && p.from < p.to
    decreases |geoms| - i
  {
    if i == |geoms| then []
    else
      var clampedStart := Max(startS, geoms[i].startS);
      var clampedEnd := Min(endS, GeomEnd(geoms, i));
      (if clampedStart < clampedEnd then [Piece(i, clampedStart, clampedEnd, clampedEnd == endS)] else [])
      + Pieces(geoms, startS, endS, i + 1)
  }

  /** The pieces cover the requested range without gaps or overlaps, in order, and
      only the last one includes its end point. */
  predicate Covers(ps: seq<Piece>, from: real, to: real) {
    && |ps| > 0
    && ps[0].from == from
    && ps[|ps| - 1].to == to
    && (forall j :: 0 <= j < |ps| - 1 ==> ps[j].to == ps[j + 1].from && ps[j].geom < ps[j + 1].geom)
    && (forall j :: 0 <= j < |ps| ==> (ps[j].includeEnd <==> j == |ps| - 1))
  }

  /** Once the clamped start reaches the requested end, no later geometry contributes. */
  lemma {:induction false} PiecesEmpty(geoms: seq<Geometry>, startS: real, endS: real, i: nat)
    requires StrictlyIncreasing(geoms) && i <= |geoms|
    requires i < |geoms| ==> Max(startS, geoms[i].startS) >= endS
    ensures Pieces(geoms, startS, endS, i) == []
    decreases |geoms| - i
  {
    if i < |geoms| {
      if i + 1 < |geoms| {
        assert geoms[i].startS < geoms[i + 1].startS;
      }
      PiecesEmpty(geoms, startS, endS, i + 1);
    }
  }

  /** A single piece ending at the requested end covers its range. */
  lemma CoversSingle(i: nat, lo: real, endS: real)
    ensures Covers([Piece(i, lo, endS, true)], lo, endS)
  {
  }

  /** A piece that ends where a covering of the rest begins extends the covering. */
  lemma CoversPrepend(i: nat, lo: real, next: real, endS: real, rest: seq<Piece>)
    requires Covers(rest, next, endS) && rest[0].geom > i
    ensures Covers([Piece(i, lo, next, false)] + rest, lo, endS)
  {
    var ps := [Piece(i, lo, next, false)] + rest;
    forall j | 0 <= j < |ps| - 1 ensures ps[j].to == ps[j + 1].from && ps[j].geom < ps[j + 1].geom {
      if j > 0 {
        assert ps[j] == rest[j - 1] && ps[j + 1] == rest[j];
      }
    }
    forall j | 0 <= j < |ps| ensures ps[j].includeEnd <==> j == |ps| - 1 {
      if j > 0 {
        assert ps[j] == rest[j - 1];
      }
    }
  }

  /** From geometry `i` on, the pieces cover `[max(startS, start of i), endS]`. */
  lemma {:induction false} PiecesCover(geoms: seq<Geometry>, startS: real, endS: real, i: nat)
    requires StrictlyIncreasing(geoms) && i < |geoms|
    requires endS <= EndS(geoms[|geoms| - 1])
    requires Max(startS, geoms[i].startS) < endS
    ensures Covers(Pieces(geoms, startS, endS, i), Max(startS, geoms[i].startS), endS)
    decreases |geoms| - i
  {
    var lo := Max(startS, geoms[i].startS);
    var ps := Pieces(geoms, startS, endS, i);
    var rest := Pieces(geoms, startS, endS, i + 1);
    if i == |geoms| - 1 {
      assert ps == [Piece(i, lo, endS, true)];
      CoversSingle(i, lo, endS);
    } else {
      var next := geoms[i + 1].startS;
      assert geoms[i].startS < next;
      if endS <= next {
        PiecesEmpty(geoms, startS, endS, i + 1);
        assert ps == [Piece(i, lo, endS, true)];
        CoversSingle(i, lo, endS);
      } else if startS >= next {
        PiecesCover(geoms, startS, endS, i + 1);
        assert ps == rest;
      } else {
        PiecesCover(geoms, startS, endS, i + 1);
        assert ps == [Piece(i, lo, next, false)] + rest;
        assert rest[0] in rest;
        CoversPrepend(i, lo, next, endS, rest);
      }
    }
  }

  /** `ReferenceLine::tessellate`: the source asserts a non-empty line and
      `geometries[0].start <= startS < endS <= end`. With strictly increasing starts
      the geometries' calls cover `[startS, endS]` exactly, in order, and only the
      last includes the end point. */
  lemma TessellateCovers(geoms: seq<Geometry>, startS: real, endS: real)
    requires StrictlyIncreasing(geoms) && |geoms| > 0
    requires geoms[0].startS <= startS < endS <= EndS(geoms[|geoms| - 1])
    ensures Covers(Pieces(geoms, startS, endS, 0), startS, endS)
  {
    PiecesCover(geoms, startS, endS, 0);
  }

  /** `std::ceil` on a non-negative real. */
  function Ceil(r: real): (c: int)
    ensures c as real >= r && (c as real) - 1.0 < r
  {
    -((-r).Floor)
  }

  /** The vertex s-coordinates of `Line::tessellate` (the other kinds sample the
      same s-coordinates): `ceil(endS - startS)` steps of equal size from `startS`,
      plus the end point when asked for. */
  function SampleSCoords(startS: real, endS: real, includeEnd: bool): (ss: seq<real>)
    requires startS < endS
    ensures |ss| == Ceil(endS - startS) + (if includeEnd then 1 else 0)
  {
    var num := Ceil(endS - startS);
    var step := (endS - startS) / num as real;
    var count := if includeEnd then num + 1 else num;
    seq(count, k => startS + k as real * step)
  }

  /** Sample `k` of `num` equal steps over `[startS, endS]` lies below `endS` for
      `k < num` and is `endS` for `k == num`. */
  lemma StepBounds(startS: real, endS: real, num: int, k: int)
    requires startS < endS && num >= 1 && 0 <= k <= num
    ensures var step := (endS - startS) / num as real;
            && step > 0.0
            && startS <= startS + k as real * step
            && (k < num ==> startS + k as real * step < endS)
            && (k == num ==> startS + k as real * step == endS)
  {
    var step := (endS - startS) / num as real;
    assert step * num as real == endS - startS;
    assert 0.0 <= k as real * step;
    if k < num {
      assert k as real * step < num as real * step;
    }
  }

  /** The samples start at `startS` and increase strictly. */
  lemma SampleSCoordsIncrease(startS: real, endS: real, includeEnd: bool)
    requires startS < endS
    ensures var ss := SampleSCoords(startS, endS, includeEnd);
            && |ss| >= 1 && ss[0] == startS
            && forall k :: 0 <= k < |ss| - 1 ==> ss[k] < ss[k + 1]
  {
    var num := Ceil(endS - startS);
    var step := (endS - startS) / num as real;
    var ss := SampleSCoords(startS, endS, includeEnd);
    StepBounds(startS, endS, num, 0);
    forall k | 0 <= k < |ss| - 1 ensures ss[k] < ss[k + 1] {
      assert (k + 1) as real * step == k as real * step + step;
    }
  }

  /** The samples stay below `endS` except for the included end point, which is
      `endS` exactly. */
  lemma SampleSCoordsBounds(startS: real, endS: real, includeEnd: bool)
    requires startS < endS
    ensures var ss := SampleSCoords(startS, endS, includeEnd);
            && (forall k :: 0 <= k < Ceil(endS - startS) ==> startS <= ss[k] < endS)
            && (includeEnd ==> ss[|ss| - 1] == endS)
  {
    var num := Ceil(endS - startS);
    var ss := SampleSCoords(startS, endS, includeEnd);
    forall k | 0 <= k < num ensures startS <= ss[k] < endS {
      StepBounds(startS, endS, num, k);
    }
    if includeEnd {
      StepBounds(startS, endS, num, num);
    }
  }
}
