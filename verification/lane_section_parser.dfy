/** The lane-identifier checks `LaneSection::parseXml` makes while it collects
    the lanes of a `<laneSection>`: the handlers of `<left>` lanes, the
    `<center>` element and `<right>` lanes, applied in document order. */
module LaneSectionParser {
  import opened ParseResults
  import opened LaneSections

  const POSITIVE_LEFT_MESSAGE: string := "Left lanes must have a positive ID."
  const NEGATIVE_RIGHT_MESSAGE: string := "Right lanes must have a negative ID."
  const CONSECUTIVE_MESSAGE: string := "Lanes should occur with consecutive and descending IDs."

  /** A lane section as `parseXml` starts it: no lanes and `numLeftLanes_ = 0`. */
  predicate IsFresh(st: ParseResult<LaneSection>) {
    st.value.lanes == [] && st.value.numLeftLanes == 0
  }

  function LastId(lanes: seq<Lane>): int
    requires |lanes| > 0
  {
    lanes[|lanes| - 1].id
  }

  /** The id rule of a left lane: positive, and one below the lane before it. */
  predicate LeftIdAccepted(lanes: seq<Lane>, id: int) {
    id > 0 && (|lanes| == 0 || LastId(lanes) - 1 == id)
  }

  /** The id rule of a right lane: negative; `-1` when it follows nothing or the
      innermost left lane (id 1), otherwise one below the lane before it. */
  predicate RightIdAccepted(lanes: seq<Lane>, id: int) {
    id < 0
    && if |lanes| == 0 || LastId(lanes) == 1 then id == -1 else LastId(lanes) - 1 == id
  }

  /** The errors the `<left>` lane handler adds after the lane's own: its checks
      run only when the lane's geometry parsed cleanly, and every error it adds
      invalidates everything. */
  function LeftChecks(lanes: seq<Lane>, pl: ParseResult<Lane>): (checks: seq<XodrParseError>)
    ensures checks == [] <==> (HasValidGeometry(pl.errors) ==> LeftIdAccepted(lanes, pl.value.id))
    ensures |checks| <= 2
    ensures forall i :: 0 <= i < |checks| ==> checks[i].invalidations == ALL
  {
    if !HasValidGeometry(pl.errors) then []
    else
      (if pl.value.id <= 0 then [MessageError(POSITIVE_LEFT_MESSAGE, ALL)] else [])
      + (if |lanes| > 0 && LastId(lanes) - 1 != pl.value.id then [MessageError(CONSECUTIVE_MESSAGE, ALL)] else [])
  }

  /** The errors the `<right>` lane handler adds after the lane's own. */
  function RightChecks(lanes: seq<Lane>, pl: ParseResult<Lane>): (checks: seq<XodrParseError>)
    ensures checks == [] <==> (HasValidGeometry(pl.errors) ==> RightIdAccepted(lanes, pl.value.id))
    ensures |checks| <= 2
    ensures forall i :: 0 <= i < |checks| ==> checks[i].invalidations == ALL
  {
    var id := pl.value.id;
    if !HasValidGeometry(pl.errors) then []
    else
      (if id >= 0 then [MessageError(NEGATIVE_RIGHT_MESSAGE, ALL)] else [])
      + (if |lanes| == 0 || LastId(lanes) == 1
         then (if id != -1 then [MessageError(CONSECUTIVE_MESSAGE, ALL)] else [])
         else (if LastId(lanes) - 1 != id then [MessageError(CONSECUTIVE_MESSAGE, ALL)] else []))
  }

  /** The handler of one `<lane>` inside `<left>`: the lane's errors and the
      checks' are appended, and the lane is stored and counted either way. */
  function AddLeftLane(st: ParseResult<LaneSection>, pl: ParseResult<Lane>): (r: ParseResult<LaneSection>)
    ensures r.value.lanes == st.value.lanes + [pl.value]
    ensures r.value.numLeftLanes == st.value.numLeftLanes + 1
    ensures r.errors == st.errors + pl.errors + LeftChecks(st.value.lanes, pl)
  {
    ParseResult(st.value.(lanes := st.value.lanes + [pl.value], numLeftLanes := st.value.numLeftLanes + 1),
                st.errors + pl.errors + LeftChecks(st.value.lanes, pl))
  }

  /** The handler of one `<lane>` inside `<right>`: like a left lane, but not counted. */
  function AddRightLane(st: ParseResult<LaneSection>, pl: ParseResult<Lane>): (r: ParseResult<LaneSection>)
    ensures r.value.lanes == st.value.lanes + [pl.value]
    ensures r.value.numLeftLanes == st.value.numLeftLanes
    ensures r.errors == st.errors + pl.errors + RightChecks(st.value.lanes, pl)
  {
    ParseResult(st.value.(lanes := st.value.lanes + [pl.value]), st.errors + pl.errors + RightChecks(st.value.lanes, pl))
  }

  /** The `<center>` handler: the lanes so far must end with lane 1. */
  function CheckCenter(st: ParseResult<LaneSection>): (r: ParseResult<LaneSection>)
    ensures r.value == st.value
    ensures r.errors == st.errors <==> (|st.value.lanes| == 0 || LastId(st.value.lanes) == 1)
    ensures r.errors != st.errors ==> r.errors == st.errors + [MessageError(CONSECUTIVE_MESSAGE, ALL)]
  {
    if |st.value.lanes| > 0 && LastId(st.value.lanes) != 1 then
      ParseResult(st.value, st.errors + [MessageError(CONSECUTIVE_MESSAGE, ALL)])
    else st
  }

  /** The children of a lane section, flattened in document order. */
  datatype LaneItem = LeftLane(left: ParseResult<Lane>) | Center | RightLane(right: ParseResult<Lane>)

  function Step(st: ParseResult<LaneSection>, item: LaneItem): ParseResult<LaneSection> {
    match item
    case LeftLane(pl) => AddLeftLane(st, pl)
    case Center => CheckCenter(st)
    case RightLane(pl) => AddRightLane(st, pl)
  }

  function CountLeft(items: seq<LaneItem>): nat
    decreases |items|
  {
    if |items| == 0 then 0
    else CountLeft(items[..|items| - 1]) + (if items[|items| - 1].LeftLane? then 1 else 0)
  }

  /** The handlers applied to `items` in order. Errors are only ever appended,
      and `numLeftLanes` grows by the number of left lanes. */
  function ParseItems(st: ParseResult<LaneSection>, items: seq<LaneItem>): (r: ParseResult<LaneSection>)
    ensures |r.errors| >= |st.errors| && r.errors[..|st.errors|] == st.errors
    ensures r.value.numLeftLanes == st.value.numLeftLanes + CountLeft(items)
    ensures |st.value.lanes| <= |r.value.lanes| && r.value.lanes[..|st.value.lanes|] == st.value.lanes
    decreases |items|
  {
    if |items| == 0 then st
    else
      var prev := ParseItems(st, items[..|items| - 1]);
      var r := Step(prev, items[|items| - 1]);
      assert r.errors[..|prev.errors|] == prev.errors;
      assert r.errors[..|st.errors|] == prev.errors[..|st.errors|];
      assert r.value.lanes[..|prev.value.lanes|] == prev.value.lanes;
      assert r.value.lanes[..|st.value.lanes|] == prev.value.lanes[..|st.value.lanes|];
      r
  }

  /** Applying the handlers to `a + b` is applying them to `a`, then to `b`. */
  lemma {:induction false} ParseItemsAppend(st: ParseResult<LaneSection>, a: seq<LaneItem>, b: seq<LaneItem>)
    ensures ParseItems(st, a + b) == ParseItems(ParseItems(st, a), b)
    decreases |b|
  {
    if |b| == 0 {
      assert a + b == a;
    } else {
      assert (a + b)[..|a + b| - 1] == a + b[..|b| - 1];
      ParseItemsAppend(st, a, b[..|b| - 1]);
    }
  }

  /** The lanes of a list of lane parse results. */
  function Values(pls: seq<ParseResult<Lane>>): (ls: seq<Lane>)
    ensures |ls| == |pls|
    ensures forall i :: 0 <= i < |pls| ==> ls[i] == pls[i].value
    decreases |pls|
  {
    if |pls| == 0 then [] else Values(pls[..|pls| - 1]) + [pls[|pls| - 1].value]
  }

  function Lefts(pls: seq<ParseResult<Lane>>): (items: seq<LaneItem>)
    ensures |items| == |pls|
    ensures forall i :: 0 <= i < |pls| ==> items[i] == LeftLane(pls[i])
  {
    seq(|pls|, i requires 0 <= i < |pls| => LeftLane(pls[i]))
  }

  function Rights(pls: seq<ParseResult<Lane>>): (items: seq<LaneItem>)
    ensures |items| == |pls|
    ensures forall i :: 0 <= i < |pls| ==> items[i] == RightLane(pls[i])
  {
    seq(|pls|, i requires 0 <= i < |pls| => RightLane(pls[i]))
  }

  /** Lanes that parsed without any error of their own. */
  predicate AllClean(pls: seq<ParseResult<Lane>>) {
    forall i :: 0 <= i < |pls| ==> pls[i].errors == []
  }

  /** Left ids that pass every left-lane check: positive and descending by one. */
  predicate LeftIdsConsecutive(pls: seq<ParseResult<Lane>>) {
    forall i :: 0 <= i < |pls| ==> pls[i].value.id > 0 && (i > 0 ==> pls[i - 1].value.id - 1 == pls[i].value.id)
  }

  /** The last handler applied to a non-empty list of children. */
  lemma ParseItemsLast(st: ParseResult<LaneSection>, items: seq<LaneItem>)
    requires |items| > 0
    ensures ParseItems(st, items) == Step(ParseItems(st, items[..|items| - 1]), items[|items| - 1])
  {
  }

  /** The left-lane rule applied lane by lane is the rule for the whole list. */
  lemma LeftIdsConsecutiveSnoc(pls: seq<ParseResult<Lane>>)
    requires |pls| > 0
    ensures LeftIdsConsecutive(pls) <==>
              LeftIdsConsecutive(pls[..|pls| - 1])
              && LeftIdAccepted(Values(pls[..|pls| - 1]), pls[|pls| - 1].value.id)
  {
    var init := pls[..|pls| - 1];
    if |init| > 0 {
      assert LastId(Values(init)) == pls[|pls| - 2].value.id;
    }
  }

  /** The left lanes of a fresh, error-free section: they are stored in order and
      counted, and no error is reported exactly when their ids pass the checks. */
  lemma LeftLanesParsed(st: ParseResult<LaneSection>, pls: seq<ParseResult<Lane>>)
    requires IsFresh(st) && st.errors == []
    requires AllClean(pls)
    ensures ParseItems(st, Lefts(pls)).value.lanes == Values(pls)
    ensures ParseItems(st, Lefts(pls)).value.numLeftLanes == |pls|
    ensures ParseItems(st, Lefts(pls)).errors == [] <==> LeftIdsConsecutive(pls)
  {
    LeftLanesValues(st, pls);
    LeftLanesErrors(st, pls);
  }

  lemma {:induction false} LeftLanesValues(st: ParseResult<LaneSection>, pls: seq<ParseResult<Lane>>)
    requires IsFresh(st) && st.errors == []
    requires AllClean(pls)
    ensures ParseItems(st, Lefts(pls)).value.lanes == Values(pls)
    ensures ParseItems(st, Lefts(pls)).value.numLeftLanes == |pls|
    decreases |pls|
  {
    var items := Lefts(pls);
    if |pls| == 0 {
      assert items == [];
      assert Values(pls) == [];
    } else {
      var n := |pls|;
      var init := pls[..n - 1];
      var last := pls[n - 1];
      assert items[..n - 1] == Lefts(init);
      LeftLanesValues(st, init);
      var prev := ParseItems(st, Lefts(init));
      ParseItemsLast(st, items);
      var r := ParseItems(st, items);
      assert r == AddLeftLane(prev, last);
      assert Values(pls) == Values(init) + [last.value];
    }
  }

  lemma {:induction false} LeftLanesErrors(st: ParseResult<LaneSection>, pls: seq<ParseResult<Lane>>)
    requires IsFresh(st) && st.errors == []
    requires AllClean(pls)
    ensures ParseItems(st, Lefts(pls)).errors == [] <==> LeftIdsConsecutive(pls)
    decreases |pls|
  {
    var items := Lefts(pls);
    if |pls| == 0 {
      assert items == [];
    } else {
      var n := |pls|;
      var init := pls[..n - 1];
      var last := pls[n - 1];
      assert items[..n - 1] == Lefts(init);
      LeftLanesErrors(st, init);
      LeftLanesValues(st, init);
      var prev := ParseItems(st, Lefts(init));
      ParseItemsLast(st, items);
      var r := ParseItems(st, items);
      assert r == AddLeftLane(prev, last);
      assert last.errors == [];
      assert HasValidGeometry(last.errors);
      var checks := LeftChecks(prev.value.lanes, last);
      assert checks == [] <==> LeftIdAccepted(Values(init), last.value.id);
      NoErrorsConcat(prev.errors, last.errors, checks);
      LeftIdsConsecutiveSnoc(pls);
    }
  }

  /** Right ids that pass every right-lane check after a correctly closed left side. */
  predicate RightIdsConsecutive(pls: seq<ParseResult<Lane>>) {
    forall j :: 0 <= j < |pls| ==> pls[j].value.id == -(j + 1)
  }

  /** The right-lane rule applied lane by lane, after lanes ending in 1 (or none). */
  lemma RightIdsConsecutiveSnoc(before: seq<Lane>, pls: seq<ParseResult<Lane>>)
    requires |before| == 0 || LastId(before) == 1
    requires |pls| > 0
    ensures RightIdsConsecutive(pls) <==>
              RightIdsConsecutive(pls[..|pls| - 1])
              && RightIdAccepted(before + Values(pls[..|pls| - 1]), pls[|pls| - 1].value.id)
  {
    var init := pls[..|pls| - 1];
    if |init| > 0 {
      assert LastId(before + Values(init)) == pls[|pls| - 2].value.id;
    } else {
      assert before + Values(init) == before;
    }
  }

  lemma NoErrorsConcat(a: seq<XodrParseError>, b: seq<XodrParseError>, c: seq<XodrParseError>)
    ensures a + b + c == [] <==> a == [] && b == [] && c == []
  {
    assert |a + b + c| == |a| + |b| + |c|;
  }

  lemma ValuesSnoc(lanes: seq<Lane>, pls: seq<ParseResult<Lane>>)
    requires |pls| > 0
    ensures lanes + Values(pls) == (lanes + Values(pls[..|pls| - 1])) + [pls[|pls| - 1].value]
  {
    assert Values(pls) == Values(pls[..|pls| - 1]) + [pls[|pls| - 1].value];
  }

  /** The right lanes after the left side: no new error exactly when their ids
      run `-1, -2, …`. */
  lemma RightLanesParsed(st: ParseResult<LaneSection>, pls: seq<ParseResult<Lane>>)
    requires st.errors == [] ==> |st.value.lanes| == 0 || LastId(st.value.lanes) == 1
    requires AllClean(pls)
    ensures ParseItems(st, Rights(pls)).value.lanes == st.value.lanes + Values(pls)
    ensures ParseItems(st, Rights(pls)).value.numLeftLanes == st.value.numLeftLanes
    ensures ParseItems(st, Rights(pls)).errors == [] <==> st.errors == [] && RightIdsConsecutive(pls)
  {
    RightLanesValues(st, pls);
    RightLanesErrors(st, pls);
  }

  lemma {:induction false} RightLanesValues(st: ParseResult<LaneSection>, pls: seq<ParseResult<Lane>>)
    requires AllClean(pls)
    ensures ParseItems(st, Rights(pls)).value.lanes == st.value.lanes + Values(pls)
    ensures ParseItems(st, Rights(pls)).value.numLeftLanes == st.value.numLeftLanes
    decreases |pls|
  {
    var items := Rights(pls);
    if |pls| == 0 {
      assert items == [];
      assert st.value.lanes + Values(pls) == st.value.lanes;
    } else {
      var n := |pls|;
      var init := pls[..n - 1];
      var last := pls[n - 1];
      assert items[..n - 1] == Rights(init);
      RightLanesValues(st, init);
      var prev := ParseItems(st, Rights(init));
      ParseItemsLast(st, items);
      var r := ParseItems(st, items);
      assert r == AddRightLane(prev, last);
      ValuesSnoc(st.value.lanes, pls);
    }
  }

  lemma {:induction false} RightLanesErrors(st: ParseResult<LaneSection>, pls: seq<ParseResult<Lane>>)
    requires st.errors == [] ==> |st.value.lanes| == 0 || LastId(st.value.lanes) == 1
    requires AllClean(pls)
    ensures ParseItems(st, Rights(pls)).errors == [] <==> st.errors == [] && RightIdsConsecutive(pls)
    decreases |pls|
  {
    var items := Rights(pls);
    if |pls| == 0 {
      assert items == [];
    } else {
      var n := |pls|;
      var init := pls[..n - 1];
      var last := pls[n - 1];
      assert items[..n - 1] == Rights(init);
      RightLanesErrors(st, init);
      RightLanesValues(st, init);
      var prev := ParseItems(st, Rights(init));
      ParseItemsLast(st, items);
      var r := ParseItems(st, items);
      assert r == AddRightLane(prev, last);
      assert last.errors == [];
      assert HasValidGeometry(last.errors);
      var checks := RightChecks(prev.value.lanes, last);
      assert checks == [] <==> RightIdAccepted(st.value.lanes + Values(init), last.value.id);
      NoErrorsConcat(prev.errors, last.errors, checks);
      if st.errors == [] {
        RightIdsConsecutiveSnoc(st.value.lanes, pls);
      }
    }
  }

  /** Left ids `n, n-1, …, 1`: what the left side must carry. */
  predicate LeftIdsCountDown(pls: seq<ParseResult<Lane>>) {
    forall i :: 0 <= i < |pls| ==> pls[i].value.id == |pls| - i
  }

  /** The left-lane checks together with the `<center>` check accept exactly the ids `n, …, 1`. */
  lemma LeftSideClosed(pls: seq<ParseResult<Lane>>)
    ensures (LeftIdsConsecutive(pls) && (|pls| == 0 || LastId(Values(pls)) == 1)) <==> LeftIdsCountDown(pls)
  {
    if |pls| > 0 && LeftIdsConsecutive(pls) && LastId(Values(pls)) == 1 {
      forall i | 0 <= i < |pls|
        ensures pls[i].value.id == |pls| - i
      {
        DescendingSpan(pls, i, |pls| - 1);
      }
    }
  }

  lemma {:induction false} DescendingSpan(pls: seq<ParseResult<Lane>>, i: int, j: int)
    requires 0 <= i <= j < |pls|
    requires LeftIdsConsecutive(pls)
    ensures pls[i].value.id == pls[j].value.id + (j - i)
    decreases j - i
  {
    if i < j {
      DescendingSpan(pls, i + 1, j);
    }
  }

  /** The children in canonical order are handled as the left lanes, then `<center>`, then the right lanes. */
  lemma CanonicalOrderSplits(st: ParseResult<LaneSection>, lefts: seq<ParseResult<Lane>>, rights: seq<ParseResult<Lane>>)
    ensures ParseItems(st, Lefts(lefts) + [Center] + Rights(rights))
              == ParseItems(CheckCenter(ParseItems(st, Lefts(lefts))), Rights(rights))
  {
    var s1 := ParseItems(st, Lefts(lefts));
    assert ParseItems(s1, [Center]) == CheckCenter(s1) by {
      assert [Center][..0] == [];
    }
    ParseItemsAppend(st, Lefts(lefts), [Center]);
    ParseItemsAppend(st, Lefts(lefts) + [Center], Rights(rights));
  }

  /** The numbering of a section whose lanes are the left ones followed by the right ones. */
  lemma WellNumberedSplits(sec: LaneSection, lefts: seq<ParseResult<Lane>>, rights: seq<ParseResult<Lane>>)
    requires sec.lanes == Values(lefts) + Values(rights)
    requires sec.numLeftLanes == |lefts|
    ensures WellNumbered(sec) <==> LeftIdsCountDown(lefts) && RightIdsConsecutive(rights)
  {
    var nl := |lefts|;
    if WellNumbered(sec) {
      forall i | 0 <= i < nl
        ensures lefts[i].value.id == nl - i
      {
        assert sec.lanes[i] == lefts[i].value;
      }
      forall j | 0 <= j < |rights|
        ensures rights[j].value.id == -(j + 1)
      {
        assert sec.lanes[nl + j] == rights[j].value;
      }
    }
    if LeftIdsCountDown(lefts) && RightIdsConsecutive(rights) {
      forall i | 0 <= i < |sec.lanes|
        ensures sec.lanes[i].id == LaneIndexToId(sec, i)
      {
        if i < nl {
          assert sec.lanes[i] == lefts[i].value;
        } else {
          assert sec.lanes[i] == rights[i - nl].value;
        }
      }
    }
  }

  /** A section written in canonical order — left lanes, `<center>`, right lanes,
      each lane clean — parses without error exactly when every lane carries the
      id its position implies. */
  lemma CanonicalSectionParsed(st: ParseResult<LaneSection>, lefts: seq<ParseResult<Lane>>, rights: seq<ParseResult<Lane>>)
    requires IsFresh(st) && st.errors == []
    requires AllClean(lefts) && AllClean(rights)
    ensures ParseItems(st, Lefts(lefts) + [Center] + Rights(rights)).value.lanes == Values(lefts) + Values(rights)
    ensures ParseItems(st, Lefts(lefts) + [Center] + Rights(rights)).value.numLeftLanes == |lefts|
    ensures (ParseItems(st, Lefts(lefts) + [Center] + Rights(rights)).errors == [])
              <==> WellNumbered(ParseItems(st, Lefts(lefts) + [Center] + Rights(rights)).value)
  {
    var s1 := ParseItems(st, Lefts(lefts));
    LeftLanesParsed(st, lefts);
    var s2 := CheckCenter(s1);
    CanonicalOrderSplits(st, lefts, rights);
    RightLanesParsed(s2, rights);
    var r := ParseItems(s2, Rights(rights));
    LeftSideClosed(lefts);
    WellNumberedSplits(r.value, lefts, rights);
  }
}
