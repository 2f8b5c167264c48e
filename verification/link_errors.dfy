/** The link-validation errors (`LinkValidationError` and its subclasses) and the
    `bool success` / error-vector pair every validator threads through. */
module LinkErrors {
  import opened MapKeys

  /** One error record per subclass, with the keys and lane ids it stores. */
  datatype LinkValidationError =
    | LaneBackLinkNotSpecified(aSection: LaneSectionContactPointKey, bSection: LaneSectionContactPointKey,
                               aLane: int, bLane: int)
    | LaneLinkMisMatch(aSection: LaneSectionContactPointKey, bSection: LaneSectionContactPointKey,
                       aLane: int, bLane: int, cLane: int)
    | LaneLinkToCenterLane(aSection: LaneSectionContactPointKey, bSection: LaneSectionContactPointKey, fromLane: int)
    | LaneLinkTargetOutOfRange(aSection: LaneSectionContactPointKey, bSection: LaneSectionContactPointKey,
                               aLane: int, bLane: int)
    | LaneLinkOpposingDirections(aSection: LaneSectionContactPointKey, bSection: LaneSectionContactPointKey,
                                 aLane: int, bLane: int)
    | RoadBackLinkNotSpecified(a: RoadContactPointKey, b: RoadContactPointKey, aToBJunction: int)
    | RoadLinkMisMatch(a: RoadContactPointKey, b: RoadContactPointKey, c: RoadContactPointKey, aToBJunction: int)
    | RoadBackLinkNotSpecifiedInJunction(a: RoadContactPointKey, b: RoadContactPointKey,
                                         aToBJunction: int, backLinkJunction: int)
    | DirectLinkToJunctionRoad(a: RoadContactPointKey, b: RoadContactPointKey)
    | InconsistentJunctionPathDirections(a: RoadContactPointKey, b: RoadContactPointKey,
                                         aToBJunction: int, bToAJunction: int)
  {
    /** The errors about single lane links, as opposed to road links. */
    predicate IsLaneError() {
      || LaneBackLinkNotSpecified? || LaneLinkMisMatch? || LaneLinkToCenterLane?
      || LaneLinkTargetOutOfRange? || LaneLinkOpposingDirections?
    }
  }

  /** What a validator returns (`ok`) together with the errors it appended. */
  datatype Outcome = Outcome(ok: bool, errors: seq<LinkValidationError>) {
    /** The validator reports failure exactly when it appended an error. */
    predicate Honest() {
      ok <==> errors == []
    }
  }

  function Pass(): (o: Outcome)
    ensures o.ok && o.errors == []
  {
    Outcome(true, [])
  }

  /** An error path: one error appended, `false` returned. */
  function Fail(e: LinkValidationError): (o: Outcome)
    ensures !o.ok && o.errors == [e]
  {
    Outcome(false, [e])
  }

  /** `success &= next(errors)`: the second validator runs whatever the first returned. */
  function Also(a: Outcome, b: Outcome): (o: Outcome)
    ensures o.ok <==> a.ok && b.ok
    ensures o.errors == a.errors + b.errors
    ensures a.Honest() && b.Honest() ==> o.Honest()
  {
    Outcome(a.ok && b.ok, a.errors + b.errors)
  }

  /** A loop `for i in [0, n): success &= step(i)`. */
  function Fold(n: nat, step: nat --> Outcome): (o: Outcome)
    requires forall i: nat :: i < n ==> step.requires(i)
    ensures o.ok <==> forall i: nat :: i < n ==> step(i).ok
    ensures o.errors == [] <==> forall i: nat :: i < n ==> step(i).errors == []
    ensures (forall i: nat :: i < n ==> step(i).Honest()) ==> o.Honest()
    ensures (forall i: nat :: i < n ==> forall e :: e in step(i).errors ==> e.IsLaneError()) ==>
              forall e :: e in o.errors ==> e.IsLaneError()
    decreases n
  {
    if n == 0 then Pass()
    else
      var prev := Fold(n - 1, step);
      Also(prev, step(n - 1))
  }

  /** The outcomes of a loop whose steps were computed beforehand, combined in order. */
  function All(outs: seq<Outcome>): (o: Outcome)
    ensures o.ok <==> forall i :: 0 <= i < |outs| ==> outs[i].ok
    ensures (forall i :: 0 <= i < |outs| ==> outs[i].Honest()) ==> o.Honest()
    decreases |outs|
  {
    if |outs| == 0 then Pass()
    else
      var n := |outs| - 1;
      assert forall i :: 0 <= i < n ==> outs[..n][i] == outs[i];
      Also(All(outs[..n]), outs[n])
  }

  /** Every step's errors reach the combined outcome. */
  lemma {:induction false} AllKeepsErrors(outs: seq<Outcome>, i: nat)
    requires i < |outs|
    ensures multiset(outs[i].errors) <= multiset(All(outs).errors)
    decreases |outs|
  {
    var n := |outs| - 1;
    if i < n {
      AllKeepsErrors(outs[..n], i);
      assert outs[..n][i] == outs[i];
    }
  }
}
