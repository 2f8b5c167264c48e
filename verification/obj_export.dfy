/** The viewer's Wavefront OBJ export (`XodrView::getObjFile`): for every lane
    section that has a driving or border lane, one object `segment_num_<k>`
    with a top and a bottom layer of vertices along two lane boundaries, and
    faces over them with 1-based vertex indices. Vertex positions come from
    the trigonometric tessellation and are not part of this model: a vertex
    line records which boundary, which sample and which layer it was taken
    from, and a section contributes its lane types and its sample count. */
module ObjExport {
  import LaneTypes

  /** `showLaneType`: the lane types the viewer draws. */
  predicate ShowLaneType(t: LaneTypes.LaneType) {
    t == LaneTypes.Driving || t == LaneTypes.Sidewalk || t == LaneTypes.Border
  }

  /** The lane types whose boundaries bound the exported road surface. */
  predicate IsRoadSurface(t: LaneTypes.LaneType) {
    t == LaneTypes.Border || t == LaneTypes.Driving
  }

  /** The exported surface is drawn by the viewer too; sidewalks are drawn but not exported. */
  lemma SurfaceIsShown(t: LaneTypes.LaneType)
    ensures ShowLaneType(t) <==> IsRoadSurface(t) || t == LaneTypes.Sidewalk
  {
  }

  // ---------------------------------------------------------------------------
  // Boundary selection

  /** The outcome of the first/last scan: the chosen boundary indices, no
      chosen lane (the section is skipped), or a read of `lanes[index]` past
      the end of the lane list. */
  datatype Selection = Selected(left: nat, right: nat) | NothingSelected | ReadsPastEnd(index: nat)

  /** `left` is the first and `right` the last index of a driving or border lane;
      nothing is selected when there is none. */
  predicate Selects(types: seq<LaneTypes.LaneType>, s: Selection) {
    match s
    case Selected(l, r) =>
      l <= r < |types| && IsRoadSurface(types[l]) && IsRoadSurface(types[r]) &&
      (forall i :: 0 <= i < l ==> !IsRoadSurface(types[i])) &&
      (forall i :: r < i < |types| ==> !IsRoadSurface(types[i]))
    case NothingSelected => forall i :: 0 <= i < |types| ==> !IsRoadSurface(types[i])
    case ReadsPastEnd(_) => false
  }

  /** The scan over indices `i .. count-1` with the running `left` and `right`
      (-1 while unset), reading `types[i]` at each step. */
  function Scan(types: seq<LaneTypes.LaneType>, count: nat, i: nat, left: int, right: int): (s: Selection)
    requires i <= count && left >= -1 && right >= -1
    decreases count - i
  {
    if i == count then
      if left == -1 || right == -1 then NothingSelected else Selected(left, right)
    else if i >= |types| then ReadsPastEnd(i)
    else if IsRoadSurface(types[i]) then Scan(types, count, i + 1, if left == -1 then i else left, i)
    else Scan(types, count, i + 1, left, right)
  }

  /** The scan state after visiting `types[..i]`. */
  predicate ScanState(types: seq<LaneTypes.LaneType>, i: nat, left: int, right: int) {
    i <= |types| && (left == -1 <==> right == -1) &&
    (left == -1 ==> forall j :: 0 <= j < i ==> !IsRoadSurface(types[j])) &&
    (left != -1 ==>
      0 <= left <= right < i && IsRoadSurface(types[left]) && IsRoadSurface(types[right]) &&
      (forall j :: 0 <= j < left ==> !IsRoadSurface(types[j])) &&
      (forall j :: right < j < i ==> !IsRoadSurface(types[j])))
  }

  lemma {:induction false} ScanSelects(types: seq<LaneTypes.LaneType>, i: nat, left: int, right: int)
    requires ScanState(types, i, left, right)
    ensures Selects(types, Scan(types, |types|, i, left, right))
    decreases |types| - i
  {
    if i < |types| {
      if IsRoadSurface(types[i]) {
        ScanSelects(types, i + 1, if left == -1 then i else left, i);
      } else {
        ScanSelects(types, i + 1, left, right);
      }
    }
  }

  /** The boundary selection with the scan bounded by the number of lanes. */
  function Select(types: seq<LaneTypes.LaneType>): (s: Selection)
    ensures Selects(types, s)
  {
    ScanSelects(types, 0, -1, -1);
    Scan(types, |types|, 0, -1, -1)
  }

  /** The selection as written: the scan runs over the boundaries, one more
      than there are lanes (`tessellateLaneBoundaryCurves` returns `|lanes| + 1`
      of them). */
  function SelectAsWritten(types: seq<LaneTypes.LaneType>): (s: Selection)
  {
    Scan(types, |types| + 1, 0, -1, -1)
  }

  lemma {:induction false} ScanPastEnd(types: seq<LaneTypes.LaneType>, count: nat, i: nat, left: int, right: int)
    requires i <= |types| < count && left >= -1 && right >= -1
    ensures Scan(types, count, i, left, right) == ReadsPastEnd(|types|)
    decreases |types| - i
  {
    if i < |types| {
      if IsRoadSurface(types[i]) {
        ScanPastEnd(types, count, i + 1, if left == -1 then i else left, i);
      } else {
        ScanPastEnd(types, count, i + 1, left, right);
      }
    }
  }

  /** As written, every lane section's scan reads `lanes[lanes.size()]`. */
  lemma SelectAsWrittenReadsPastEnd(types: seq<LaneTypes.LaneType>)
    ensures SelectAsWritten(types) == ReadsPastEnd(|types|)
  {
    ScanPastEnd(types, |types| + 1, 0, -1, -1);
  }

  // ---------------------------------------------------------------------------
  // Vertices

  /** One line of the OBJ text: `o segment_num_<k>`, a vertex `v x y z` taken
      from sample `sample` of boundary `boundary`, or a face `f i j ...`. */
  datatype ObjLine = Object(segNum: nat) | Vertex(boundary: nat, sample: nat, z: int) | Face(indices: seq<int>)

  /** One layer: for each sample, the left vertex and then the right one. */
  function Layer(left: nat, right: nat, n: nat, z: int): (vs: seq<ObjLine>)
    ensures |vs| == 2 * n
    ensures forall k :: 0 <= k < 2 * n ==> vs[k] == Vertex(if k % 2 == 0 then left else right, k / 2, z)
  {
    if n == 0 then [] else Layer(left, right, n - 1, z) + [Vertex(left, n - 1, z), Vertex(right, n - 1, z)]
  }

  /** The vertex lines of a segment: the top layer (z = 1), then the bottom layer (z = 0). */
  function SegmentVertices(left: nat, right: nat, size: nat): (vs: seq<ObjLine>)
    ensures |vs| == 4 * size
  {
    Layer(left, right, size, 1) + Layer(left, right, size, 0)
  }

  /** The 1-based index, within its segment, of sample `j` of the left or right
      boundary in the top or bottom layer. */
  function VertexIndex(size: nat, onRight: bool, j: nat, top: bool): int {
    (if top then 0 else 2 * size) + 2 * j + (if onRight then 2 else 1)
  }

  /** Vertex indices address the vertex they name, and stay in `[1, 4 size]`. */
  lemma VertexIndexAddresses(left: nat, right: nat, size: nat, onRight: bool, j: nat, top: bool)
    requires j < size
    ensures 1 <= VertexIndex(size, onRight, j, top) <= 4 * size
    ensures SegmentVertices(left, right, size)[VertexIndex(size, onRight, j, top) - 1] ==
            Vertex(if onRight then right else left, j, if top then 1 else 0)
  {
    var vs := SegmentVertices(left, right, size);
    var k := VertexIndex(size, onRight, j, top) - 1;
    if top {
      assert vs[k] == Layer(left, right, size, 1)[k];
    } else {
      assert vs[k] == Layer(left, right, size, 0)[k - 2 * size];
    }
  }

  // ---------------------------------------------------------------------------
  // Faces

  /** Triangles `f j j+1 j+2` for `j = 1 .. count`. */
  function Triangles(count: int): (fs: seq<seq<int>>)
    ensures |fs| == if count < 0 then 0 else count
    ensures forall k :: 0 <= k < |fs| ==> fs[k] == [k + 1, k + 2, k + 3]
    decreases if count < 0 then 0 else count
  {
    if count <= 0 then [] else Triangles(count - 1) + [[count, count + 1, count + 2]]
  }

  /** Side faces `f j j+2size j+2 j+2+2size` for `j = 1 .. count`: a top vertex,
      the bottom vertex under it, and the same two for the next sample of that boundary. */
  function Sides(count: int, size: int): (fs: seq<seq<int>>)
    ensures |fs| == if count < 0 then 0 else count
    ensures forall k :: 0 <= k < |fs| ==> fs[k] == [k + 1, k + 1 + 2 * size, k + 3, k + 3 + 2 * size]
    decreases if count < 0 then 0 else count
  {
    if count <= 0 then []
    else Sides(count - 1, size) + [[count, count + 2 * size, count + 2, count + 2 + 2 * size]]
  }

  /** The two end caps: the first sample's four vertices and the last sample's. */
  function Caps(size: int): seq<seq<int>> {
    [[1, 1 + 2 * size, 2, 2 + 2 * size],
     [2 * size, 4 * size, 2 * size - 1, 4 * size - 1]]
  }

  /** The faces as written: `size - 2` triangles and `size - 1` sides. */
  function FacesAsWritten(size: nat): (fs: seq<seq<int>>)
    ensures size >= 2 ==> |fs| == 2 * size - 1
  {
    Triangles(size - 2) + Sides(size - 1, size) + Caps(size)
  }

  /** The road surface over the whole top strip of `2 size` vertices. */
  function Surface(size: nat): seq<seq<int>> {
    Triangles(2 * size - 2)
  }

  /** The faces with both loops running over the whole top strip of `2 size`
      vertices: `2 size - 2` triangles and `2 size - 2` sides. */
  function Faces(size: nat): (fs: seq<seq<int>>)
    ensures size >= 1 ==> |fs| == 4 * size - 2
  {
    Surface(size) + Sides(2 * size - 2, size) + Caps(size)
  }

  /** Every index of every face lies in `[lo, hi]`. */
  predicate IndicesIn(fs: seq<seq<int>>, lo: int, hi: int) {
    forall k, m :: 0 <= k < |fs| && 0 <= m < |fs[k]| ==> lo <= fs[k][m] <= hi
  }

  /** Some face uses vertex index `v`. */
  predicate Uses(fs: seq<seq<int>>, v: int) {
    exists k, m :: 0 <= k < |fs| && 0 <= m < |fs[k]| && fs[k][m] == v
  }

  lemma IndicesInConcat(a: seq<seq<int>>, b: seq<seq<int>>, lo: int, hi: int)
    requires IndicesIn(a, lo, hi) && IndicesIn(b, lo, hi)
    ensures IndicesIn(a + b, lo, hi)
  {
    forall k, m | 0 <= k < |a + b| && 0 <= m < |(a + b)[k]|
      ensures lo <= (a + b)[k][m] <= hi
    {
      if k < |a| { assert (a + b)[k] == a[k]; } else { assert (a + b)[k] == b[k - |a|]; }
    }
  }

  lemma UsesConcat(a: seq<seq<int>>, b: seq<seq<int>>, v: int)
    ensures Uses(a + b, v) <==> Uses(a, v) || Uses(b, v)
  {
    if Uses(a + b, v) {
      var k, m :| 0 <= k < |a + b| && 0 <= m < |(a + b)[k]| && (a + b)[k][m] == v;
      if k < |a| { assert a[k] == (a + b)[k]; } else { assert b[k - |a|] == (a + b)[k]; }
    }
    if Uses(a, v) {
      var k, m :| 0 <= k < |a| && 0 <= m < |a[k]| && a[k][m] == v;
      assert (a + b)[k] == a[k];
    }
    if Uses(b, v) {
      var k, m :| 0 <= k < |b| && 0 <= m < |b[k]| && b[k][m] == v;
      assert (a + b)[|a| + k] == b[k];
    }
  }

  lemma TrianglesInRange(count: int, hi: int)
    requires count + 2 <= hi
    ensures IndicesIn(Triangles(count), 1, hi)
  {
    var t := Triangles(count);
    forall k, m | 0 <= k < |t| && 0 <= m < |t[k]| ensures 1 <= t[k][m] <= hi {
      assert t[k] == [k + 1, k + 2, k + 3];
    }
  }

  lemma SidesInRange(count: int, size: int, hi: int)
    requires size >= 0 && count + 2 + 2 * size <= hi
    ensures IndicesIn(Sides(count, size), 1, hi)
  {
    var s := Sides(count, size);
    forall k, m | 0 <= k < |s| && 0 <= m < |s[k]| ensures 1 <= s[k][m] <= hi {
      assert s[k] == [k + 1, k + 1 + 2 * size, k + 3, k + 3 + 2 * size];
    }
  }

  lemma CapsInRange(size: int)
    requires size >= 1
    ensures IndicesIn(Caps(size), 1, 4 * size)
  {
  }

  /** For a segment of at least one sample, every face index as written lies in `[1, 4 size]`. */
  lemma FacesAsWrittenInRange(size: nat)
    requires size >= 1
    ensures IndicesIn(FacesAsWritten(size), 1, 4 * size)
  {
    TrianglesInRange(size - 2, 4 * size);
    SidesInRange(size - 1, size, 4 * size);
    CapsInRange(size);
    IndicesInConcat(Triangles(size - 2), Sides(size - 1, size), 1, 4 * size);
    IndicesInConcat(Triangles(size - 2) + Sides(size - 1, size), Caps(size), 1, 4 * size);
  }

  /** For a segment of at least one sample, every face index lies in `[1, 4 size]`. */
  lemma FacesInRange(size: nat)
    requires size >= 1
    ensures IndicesIn(Faces(size), 1, 4 * size)
  {
    TrianglesInRange(2 * size - 2, 4 * size);
    SidesInRange(2 * size - 2, size, 4 * size);
    CapsInRange(size);
    IndicesInConcat(Surface(size), Sides(2 * size - 2, size), 1, 4 * size);
    IndicesInConcat(Surface(size) + Sides(2 * size - 2, size), Caps(size), 1, 4 * size);
  }

  /** As written, the triangles reach only top vertex `size` of `2 size`, and
      from four samples on, top vertex `2 size - 2` (the right boundary's
      next-to-last sample) is in no face at all. */
  lemma FacesAsWrittenMissTopStrip(size: nat)
    requires size >= 1
    ensures IndicesIn(Triangles(size - 2), 1, size)
    ensures size >= 4 ==> !Uses(FacesAsWritten(size), 2 * size - 2)
  {
    var t, s, c := Triangles(size - 2), Sides(size - 1, size), Caps(size);
    TrianglesInRange(size - 2, size);
    if size >= 4 {
      var v := 2 * size - 2;
      forall k, m | 0 <= k < |t| && 0 <= m < |t[k]| ensures t[k][m] != v {
      }
      forall k, m | 0 <= k < |s| && 0 <= m < |s[k]| ensures s[k][m] != v {
        assert s[k] == [k + 1, k + 1 + 2 * size, k + 3, k + 3 + 2 * size];
      }
      forall k, m | 0 <= k < |c| && 0 <= m < |c[k]| ensures c[k][m] != v {
      }
      UsesConcat(t, s, v);
      UsesConcat(t + s, c, v);
    }
  }

  /** With the loops over the whole strip, every vertex of the segment is used
      by some face, and every top vertex by some triangle. */
  lemma FacesUseEveryVertex(size: nat)
    requires size >= 2
    ensures forall v :: 1 <= v <= 2 * size ==> Uses(Surface(size), v)
    ensures forall v :: 1 <= v <= 4 * size ==> Uses(Faces(size), v)
  {
    var t, s, c := Surface(size), Sides(2 * size - 2, size), Caps(size);
    forall v | 1 <= v <= 2 * size ensures Uses(t, v) {
      if v <= 2 * size - 2 { assert t[v - 1][0] == v; } else { assert t[v - 3][2] == v; }
    }
    forall v | 1 <= v <= 4 * size ensures Uses(Faces(size), v) {
      if v > 2 * size {
        if v <= 4 * size - 2 { assert s[v - 2 * size - 1][1] == v; }
        else { assert s[v - 2 * size - 3][3] == v; }
        UsesConcat(t, s, v);
      }
      UsesConcat(t, s, v);
      UsesConcat(t + s, c, v);
    }
  }

  /** The faces with `offset` added to every index. */
  function Shift(fs: seq<seq<int>>, offset: int): (gs: seq<seq<int>>)
    ensures |gs| == |fs|
    ensures forall k :: 0 <= k < |fs| ==> |gs[k]| == |fs[k]|
    ensures forall k, m :: 0 <= k < |fs| && 0 <= m < |fs[k]| ==> gs[k][m] == fs[k][m] + offset
  {
    seq(|fs|, k requires 0 <= k < |fs| => seq(|fs[k]|, m requires 0 <= m < |fs[k]| => fs[k][m] + offset))
  }

  // ---------------------------------------------------------------------------
  // The file

  /** What a lane section contributes: its lane types from left to right, and the
      number of samples of its boundaries (those of the reference line's tessellation). */
  datatype SectionInput = SectionInput(laneTypes: seq<LaneTypes.LaneType>, samples: nat)

  /** An emitted segment: its number, the chosen boundaries, the sample count,
      the number of vertices written before it, and its faces. */
  datatype Segment = Segment(num: nat, left: nat, right: nat, size: nat, verticesBefore: nat, faces: seq<seq<int>>)

  /** The vertices written by a list of segments. */
  function VertexTotal(segs: seq<Segment>): nat {
    if segs == [] then 0 else VertexTotal(segs[..|segs| - 1]) + 4 * segs[|segs| - 1].size
  }

  /** The number of sections that yield a segment. */
  function SelectedCount(sections: seq<SectionInput>): nat {
    if sections == [] then 0
    else SelectedCount(sections[..|sections| - 1]) +
         (if Select(sections[|sections| - 1].laneTypes).Selected? then 1 else 0)
  }

  /** The segments of a list of sections, given how a segment's faces are built
      from its sample count and the vertices before it. */
  predicate Numbered(segs: seq<Segment>) {
    forall k :: 0 <= k < |segs| ==> segs[k].num == k && segs[k].verticesBefore == VertexTotal(segs[..k])
  }

  /** A segment numbered after the ones before it, and counting their vertices,
      extends a numbered list. */
  lemma NumberedSnoc(prev: seq<Segment>, seg: Segment)
    requires Numbered(prev) && seg.num == |prev| && seg.verticesBefore == VertexTotal(prev)
    ensures Numbered(prev + [seg])
    ensures forall k :: 0 <= k < |prev| ==> (prev + [seg])[k] == prev[k]
  {
    var segs := prev + [seg];
    assert segs[..|prev|] == prev;
    assert forall k :: 0 <= k < |prev| ==> segs[..k] == prev[..k];
  }

  /** `getObjFile` as written (with the selection scan bounded by the lanes):
      every segment's faces count from vertex 1, whatever was written before. */
  function EmitAsWritten(sections: seq<SectionInput>): (segs: seq<Segment>)
    ensures |segs| == SelectedCount(sections)
    ensures Numbered(segs)
    ensures forall k :: 0 <= k < |segs| ==> segs[k].faces == FacesAsWritten(segs[k].size)
  {
    if sections == [] then []
    else
      var prev := EmitAsWritten(sections[..|sections| - 1]);
      var sec := sections[|sections| - 1];
      match Select(sec.laneTypes)
      case Selected(l, r) =>
        var seg := Segment(|prev|, l, r, sec.samples, VertexTotal(prev), FacesAsWritten(sec.samples));
        NumberedSnoc(prev, seg);
        prev + [seg]
      case _ => prev
  }

  /** Lane `i` lies between boundaries `i` and `i + 1`, so the selected lanes
      `left .. right` lie between boundary `left` and boundary `right + 1`, which
      exists; boundary `right` is only the inner edge of the last selected lane. */
  lemma SelectedLanesBetween(types: seq<LaneTypes.LaneType>)
    requires Select(types).Selected?
    ensures var s := Select(types);
            && s.right + 1 <= |types| && IsRoadSurface(types[s.left]) && IsRoadSurface(types[s.right])
            && (forall i :: 0 <= i < |types| && IsRoadSurface(types[i]) ==> s.left <= i && i + 1 <= s.right + 1)
  {
  }

  /** `getObjFile` with each segment's face indices offset by the vertices
      written before it, and the strip bounded by the outer boundary of the last
      selected lane. */
  function Emit(sections: seq<SectionInput>): (segs: seq<Segment>)
    ensures |segs| == SelectedCount(sections)
    ensures Numbered(segs)
    ensures forall k :: 0 <= k < |segs| ==>
              segs[k].faces == Shift(Faces(segs[k].size), segs[k].verticesBefore)
    ensures forall k :: 0 <= k < |segs| ==> segs[k].left < segs[k].right
  {
    if sections == [] then []
    else
      var prev := Emit(sections[..|sections| - 1]);
      var sec := sections[|sections| - 1];
      match Select(sec.laneTypes)
      case Selected(l, r) =>
        var seg := Segment(|prev|, l, r + 1, sec.samples, VertexTotal(prev), Shift(Faces(sec.samples), VertexTotal(prev)));
        NumberedSnoc(prev, seg);
        prev + [seg]
      case _ => prev
  }

  /** The lines of the OBJ text for a list of segments. */
  function Render(segs: seq<Segment>): seq<ObjLine> {
    if segs == [] then []
    else
      var s := segs[|segs| - 1];
      Render(segs[..|segs| - 1]) + [Object(s.num)] + SegmentVertices(s.left, s.right, s.size) +
      seq(|s.faces|, k requires 0 <= k < |s.faces| => Face(s.faces[k]))
  }

  /** The number of vertex lines among some lines. */
  function VertexLines(lines: seq<ObjLine>): nat {
    if lines == [] then 0
    else VertexLines(lines[..|lines| - 1]) + (if lines[|lines| - 1].Vertex? then 1 else 0)
  }

  lemma {:induction false} VertexLinesConcat(a: seq<ObjLine>, b: seq<ObjLine>)
    ensures VertexLines(a + b) == VertexLines(a) + VertexLines(b)
    decreases |b|
  {
    if b != [] {
      var b' := b[..|b| - 1];
      assert (a + b)[..|a + b| - 1] == a + b';
      VertexLinesConcat(a, b');
    } else {
      assert a + b == a;
    }
  }

  lemma {:induction false} VertexLinesAll(vs: seq<ObjLine>)
    requires forall k :: 0 <= k < |vs| ==> vs[k].Vertex?
    ensures VertexLines(vs) == |vs|
    decreases |vs|
  {
    if vs != [] {
      VertexLinesAll(vs[..|vs| - 1]);
    }
  }

  lemma {:induction false} VertexLinesNone(fs: seq<ObjLine>)
    requires forall k :: 0 <= k < |fs| ==> !fs[k].Vertex?
    ensures VertexLines(fs) == 0
    decreases |fs|
  {
    if fs != [] {
      VertexLinesNone(fs[..|fs| - 1]);
    }
  }

  /** The text of the segments holds exactly the vertices they count, so the
      vertices of segment `k` are the OBJ indices after `verticesBefore`. */
  lemma {:induction false} RenderVertexCount(segs: seq<Segment>)
    ensures VertexLines(Render(segs)) == VertexTotal(segs)
    decreases |segs|
  {
    if segs != [] {
      var s := segs[|segs| - 1];
      var vs := SegmentVertices(s.left, s.right, s.size);
      var fs := seq(|s.faces|, k requires 0 <= k < |s.faces| => Face(s.faces[k]));
      RenderVertexCount(segs[..|segs| - 1]);
      VertexLinesConcat(Render(segs[..|segs| - 1]), [Object(s.num)]);
      VertexLinesConcat(Render(segs[..|segs| - 1]) + [Object(s.num)], vs);
      VertexLinesConcat(Render(segs[..|segs| - 1]) + [Object(s.num)] + vs, fs);
      assert VertexLines([Object(s.num)]) == 0 by {
        assert [Object(s.num)][..0] == [];
      }
      assert forall k :: 0 <= k < |vs| ==> vs[k].Vertex? by {
        forall k | 0 <= k < |vs| ensures vs[k].Vertex? {
          if k < 2 * s.size {
            assert vs[k] == Layer(s.left, s.right, s.size, 1)[k];
          } else {
            assert vs[k] == Layer(s.left, s.right, s.size, 0)[k - 2 * s.size];
          }
        }
      }
      VertexLinesAll(vs);
      VertexLinesNone(fs);
    }
  }

  /** The segment counter goes up by exactly one per emitted segment, and a
      segment is emitted exactly for each section with a driving or border lane. */
  lemma EmitCountsSegments(sections: seq<SectionInput>, k: nat)
    requires k < |Emit(sections)|
    ensures Emit(sections)[k].num == k
    ensures |Emit(sections)| == SelectedCount(sections)
  {
  }

  /** Each segment's faces use only that segment's own vertices. */
  lemma EmitFacesOwnVertices(sections: seq<SectionInput>, k: nat)
    requires k < |Emit(sections)|
    requires Emit(sections)[k].size >= 1
    ensures var s := Emit(sections)[k];
            IndicesIn(s.faces, s.verticesBefore + 1, s.verticesBefore + 4 * s.size)
  {
    var s := Emit(sections)[k];
    FacesInRange(s.size);
  }

  /** As written, a segment after vertices of at least its own number uses
      none of its own vertices: its indices fall among earlier segments'. */
  lemma EmitAsWrittenReusesIndices(sections: seq<SectionInput>, k: nat)
    requires k < |EmitAsWritten(sections)|
    requires EmitAsWritten(sections)[k].size >= 1
    requires EmitAsWritten(sections)[k].verticesBefore >= 4 * EmitAsWritten(sections)[k].size
    ensures var s := EmitAsWritten(sections)[k];
            IndicesIn(s.faces, 1, s.verticesBefore)
  {
    var s := EmitAsWritten(sections)[k];
    FacesAsWrittenInRange(s.size);
  }

  /** One section with a single driving lane: as written the strip runs between
      boundary 0 and boundary 0, with no width; corrected it runs between the
      lane's two boundaries. */
  lemma SingleLaneStripHasNoWidth()
    ensures var sec := SectionInput([LaneTypes.Driving], 2);
            && |EmitAsWritten([sec])| == 1 && EmitAsWritten([sec])[0].left == EmitAsWritten([sec])[0].right == 0
            && |Emit([sec])| == 1 && Emit([sec])[0].left == 0 && Emit([sec])[0].right == 1
  {
    var sec := SectionInput([LaneTypes.Driving], 2);
    assert Select([LaneTypes.Driving]) == Selected(0, 0);
    assert [sec][..0] == [];
  }

  /** Two sections with a driving lane and two samples each: as written, the
      second segment's faces lie among the first segment's eight vertices. */
  lemma SecondSegmentReusesFirst()
    ensures var sec := SectionInput([LaneTypes.Driving], 2);
            var segs := EmitAsWritten([sec, sec]);
            |segs| == 2 && segs[1].verticesBefore == 8 && IndicesIn(segs[1].faces, 1, 8)
  {
    var sec := SectionInput([LaneTypes.Driving], 2);
    assert Select([LaneTypes.Driving]) == Selected(0, 0);
    assert [sec, sec][..1] == [sec];
    assert [sec][..0] == [];
    var first := Segment(0, 0, 0, 2, 0, FacesAsWritten(2));
    assert EmitAsWritten([sec]) == [first];
    var segs := EmitAsWritten([sec, sec]);
    assert segs == [first, Segment(1, 0, 0, 2, VertexTotal([first]), FacesAsWritten(2))];
    assert VertexTotal([first]) == 8 by {
      assert [first][..0] == [];
    }
    EmitAsWrittenReusesIndices([sec, sec], 1);
  }
}
