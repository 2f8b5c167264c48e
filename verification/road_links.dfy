/** Road links (`RoadLink`, `NeighborLink`, `RoadLinks`), the conversions between
    contact points and link types, and the link parsers' decision rules. */
module RoadLinks {
  import opened Wrappers
  import opened ParseResults
  import opened ObjectRefs

  /** `ContactPoint`, in declaration order. */
  datatype ContactPoint = NotSpecified | Start | End

  /** `RoadLinkType`. */
  datatype RoadLinkType = Predecessor | Successor

  /** `RoadLink::ElementType`, in declaration order. */
  datatype ElementType = NotSpecified | Road | Junction

  /** `NeighborLink::Side` and `NeighborLink::Direction`. */
  datatype Side = Left | Right
  datatype Direction = Same | Opposite

  /** `roadLinkTypeName`. */
  function RoadLinkTypeName(t: RoadLinkType): (name: string)
    ensures (t == Predecessor) <==> (name == "predecessor")
    ensures (t == Successor) <==> (name == "successor")
  {
    match t
    case Predecessor => "predecessor"
    case Successor => "successor"
  }

  /** `contactPointName`: asserts a specified contact point. */
  function ContactPointName(cp: ContactPoint): string
    requires cp != ContactPoint.NotSpecified
  {
    match cp
    case Start => "start"
    case End => "end"
  }

  /** `linkTypeForContactPoint`: a road's start is reached through its predecessor link. */
  function LinkTypeForContactPoint(cp: ContactPoint): (t: RoadLinkType)
    requires cp != ContactPoint.NotSpecified
    ensures t == Predecessor <==> cp == Start
  {
    match cp
    case Start => Predecessor
    case End => Successor
  }

  /** `contactPointForLinkType`. */
  function ContactPointForLinkType(t: RoadLinkType): (cp: ContactPoint)
    ensures cp != ContactPoint.NotSpecified
    ensures LinkTypeForContactPoint(cp) == t
  {
    match t
    case Predecessor => Start
    case Successor => End
  }

  /** The two conversions are inverse bijections. */
  lemma LinkTypeContactPointInverse(cp: ContactPoint, t: RoadLinkType)
    requires cp != ContactPoint.NotSpecified
    ensures ContactPointForLinkType(LinkTypeForContactPoint(cp)) == cp
    ensures LinkTypeForContactPoint(ContactPointForLinkType(t)) == t
  {
  }

  /** `oppositeContactPoint`. */
  function OppositeContactPoint(cp: ContactPoint): (o: ContactPoint)
    requires cp != ContactPoint.NotSpecified
    ensures o != ContactPoint.NotSpecified && o != cp
  {
    match cp
    case Start => End
    case End => Start
  }

  /** The opposite of the opposite is the original contact point. */
  lemma OppositeIsInvolution(cp: ContactPoint)
    requires cp != ContactPoint.NotSpecified
    ensures OppositeContactPoint(OppositeContactPoint(cp)) == cp
  {
  }

  /** `RoadLink`. The contact point is only meaningful for road links; the C++
      leaves it uninitialised otherwise, here it is `NotSpecified`. */
  datatype RoadLink = RoadLink(elementType: ElementType, elementRef: ObjectRef, contactPoint: ContactPoint)

  /** `RoadLink()`: links nothing. */
  function DefaultRoadLink(): (l: RoadLink)
    ensures l.elementType == ElementType.NotSpecified
  {
    RoadLink(ElementType.NotSpecified, DefaultRef(), ContactPoint.NotSpecified)
  }

  /** `RoadLink::roadLink(ref, cp)`. */
  function MakeRoadLink(roadRef: ObjectRef, cp: ContactPoint): (l: RoadLink)
    ensures l.elementType == Road && ContactPointOf(l) == cp && ElementRefOf(l) == roadRef
  {
    RoadLink(Road, roadRef, cp)
  }

  /** `RoadLink::junctionLink(ref)`. */
  function MakeJunctionLink(junctionRef: ObjectRef): (l: RoadLink)
    ensures l.elementType == Junction && ElementRefOf(l) == junctionRef
  {
    RoadLink(Junction, junctionRef, ContactPoint.NotSpecified)
  }

  /** `RoadLink::contactPoint()`: asserts a road link. */
  function ContactPointOf(l: RoadLink): ContactPoint
    requires l.elementType == Road
  {
    l.contactPoint
  }

  /** `RoadLink::elementRef()`: asserts a specified link. */
  function ElementRefOf(l: RoadLink): ObjectRef
    requires l.elementType != ElementType.NotSpecified
  {
    l.elementRef
  }

  /** `NeighborLink`. */
  datatype NeighborLink = NeighborLink(isSpecified: bool, side: Side, direction: Direction, elementRef: ObjectRef)

  function DefaultNeighborLink(): (n: NeighborLink)
    ensures !n.isSpecified
  {
    NeighborLink(false, Left, Same, DefaultRef())
  }

  /** `NeighborLink::parseXml`: a parsed neighbour is always marked as specified. */
  function ParsedNeighborLink(side: Side, direction: Direction, elementId: string): (n: NeighborLink)
    ensures n.isSpecified && n.side == side && n.direction == direction && n.elementRef.id == elementId
  {
    NeighborLink(true, side, direction, ObjectRefs.Parse(elementId))
  }

  /** `RoadLinks`: the `<link>` element of a road. */
  datatype RoadLinks = RoadLinks(predecessor: RoadLink, successor: RoadLink,
                                 leftNeighbor: NeighborLink, rightNeighbor: NeighborLink)

  /** `RoadLinks()`, also the default of an absent `<link>`. */
  function DefaultRoadLinks(): (ls: RoadLinks)
    ensures ls.predecessor.elementType == ElementType.NotSpecified
    ensures ls.successor.elementType == ElementType.NotSpecified
    ensures !ls.leftNeighbor.isSpecified && !ls.rightNeighbor.isSpecified
  {
    RoadLinks(DefaultRoadLink(), DefaultRoadLink(), DefaultNeighborLink(), DefaultNeighborLink())
  }

  /** `Road::roadLink(type)`. */
  function LinkOfType(ls: RoadLinks, t: RoadLinkType): RoadLink
  {
    match t
    case Predecessor => ls.predecessor
    case Successor => ls.successor
  }

  // ---- decoders (`parseXmlAttrib` specialisations) ----

  /** `parseXmlAttrib<ElementType>`. */
  function ParseElementType(s: string): (r: Result<ElementType, string>)
    ensures r.Success? <==> s == "road" || s == "junction"
    ensures r.Success? ==> r.value != ElementType.NotSpecified
  {
    if s == "road" then Success(Road)
    else if s == "junction" then Success(Junction)
    else Failure("Invalid element type.")
  }

  /** `parseXmlAttrib<ContactPoint>`: never yields `NotSpecified`. */
  function ParseContactPoint(s: string): (r: Result<ContactPoint, string>)
    ensures r.Success? ==> r.value != ContactPoint.NotSpecified && ContactPointName(r.value) == s
  {
    if s == "start" then Success(Start)
    else if s == "end" then Success(End)
    else Failure("Invalid contact point.")
  }

  /** The contact-point decoder inverts `contactPointName`. */
  lemma ContactPointNameRoundTrip(cp: ContactPoint)
    requires cp != ContactPoint.NotSpecified
    ensures ParseContactPoint(ContactPointName(cp)) == Success(cp)
  {
  }

  /** `parseXmlAttrib<NeighborLink::Side>`. */
  function ParseSide(s: string): (r: Result<Side, string>)
    ensures r.Success? <==> s == "left" || s == "right"
    ensures r.Success? ==> (r.value == Left <==> s == "left")
  {
    if s == "left" then Success(Left)
    else if s == "right" then Success(Right)
    else Failure("Invalid side.")
  }

  /** `parseXmlAttrib<NeighborLink::Direction>`. */
  function ParseDirection(s: string): (r: Result<Direction, string>)
    ensures r.Success? <==> s == "same" || s == "opposite"
    ensures r.Success? ==> (r.value == Same <==> s == "same")
  {
    if s == "same" then Success(Same)
    else if s == "opposite" then Success(Opposite)
    else Failure("Invalid direction.")
  }

  /** `RoadLink::parseXml` after its attributes were read: `contactPoint` is the
      optional attribute (absent means `NOT_SPECIFIED`); a road link needs one. */
  function FinishRoadLink(elementType: ElementType, elementId: string, contactPoint: Option<ContactPoint>)
    : (r: Result<RoadLink, string>)
    requires contactPoint.Some? ==> contactPoint.value != ContactPoint.NotSpecified
    ensures r.Failure? <==> elementType == Road && contactPoint.None?
    ensures r.Success? ==> r.value.elementType == elementType && r.value.elementRef == ObjectRefs.Parse(elementId)
                           && r.value.contactPoint == contactPoint.GetOr(ContactPoint.NotSpecified)
  {
    var cp := contactPoint.GetOr(ContactPoint.NotSpecified);
    if elementType == Road && cp == ContactPoint.NotSpecified then
      Failure("The contactPoint attribute is required when elementType is 'road'.")
    else
      Success(RoadLink(elementType, ObjectRefs.Parse(elementId), cp))
  }

  /** The `<neighbor>` handler of `RoadLinks::ChildElemParsers`: an error-free
      neighbour fills its side unless that side is taken, in which case a
      connectivity error is recorded; the neighbour's own errors are appended. */
  function AddNeighbor(pair: ParseResult<RoadLinks>, link: ParseResult<NeighborLink>): (r: ParseResult<RoadLinks>)
    requires link.value.isSpecified
    ensures r.value.predecessor == pair.value.predecessor && r.value.successor == pair.value.successor
    ensures pair.value.leftNeighbor.isSpecified ==> r.value.leftNeighbor == pair.value.leftNeighbor
    ensures pair.value.rightNeighbor.isSpecified ==> r.value.rightNeighbor == pair.value.rightNeighbor
    ensures |r.errors| >= |pair.errors| + |link.errors|
    ensures r.errors[..|pair.errors|] == pair.errors && r.errors[|r.errors| - |link.errors|..] == link.errors
  {
    if |link.errors| != 0 then
      ParseResult(pair.value, pair.errors + link.errors)
    else
      match link.value.side
      case Left =>
        if pair.value.leftNeighbor.isSpecified then
          ParseResult(pair.value, pair.errors + [MessageError("At most a single left neighbor may be specified.", CONNECTIVITY)] + link.errors)
        else
          ParseResult(pair.value.(leftNeighbor := link.value), pair.errors + link.errors)
      case Right =>
        if pair.value.rightNeighbor.isSpecified then
          ParseResult(pair.value, pair.errors + [MessageError("At most a single right neighbor may be specified.", CONNECTIVITY)] + link.errors)
        else
          ParseResult(pair.value.(rightNeighbor := link.value), pair.errors + link.errors)
  }

  /** All `<neighbor>` children, in document order. */
  function AddNeighbors(pair: ParseResult<RoadLinks>, links: seq<ParseResult<NeighborLink>>): ParseResult<RoadLinks>
    requires forall i :: 0 <= i < |links| ==> links[i].value.isSpecified
    decreases |links|
  {
    if |links| == 0 then pair else AddNeighbors(AddNeighbor(pair, links[0]), links[1..])
  }

  /** The first error-free neighbour on the given side, if any. */
  function FirstOnSide(links: seq<ParseResult<NeighborLink>>, side: Side): Option<NeighborLink>
    decreases |links|
  {
    if |links| == 0 then None
    else if |links[0].errors| == 0 && links[0].value.side == side then Some(links[0].value)
    else FirstOnSide(links[1..], side)
  }

  /** Starting from no neighbours, the kept left neighbour is the first error-free
      left one (the same holds on the right): later ones never replace it. */
  lemma {:induction false} FirstNeighborKept(pair: ParseResult<RoadLinks>, links: seq<ParseResult<NeighborLink>>, side: Side)
    requires forall i :: 0 <= i < |links| ==> links[i].value.isSpecified
    requires side == Left ==> !pair.value.leftNeighbor.isSpecified
    requires side == Right ==> !pair.value.rightNeighbor.isSpecified
    ensures var n := if side == Left then AddNeighbors(pair, links).value.leftNeighbor
                     else AddNeighbors(pair, links).value.rightNeighbor;
            match FirstOnSide(links, side)
            case Some(first) => n == first
            case None => !n.isSpecified
    decreases |links|
  {
    if |links| > 0 {
      var next := AddNeighbor(pair, links[0]);
      if |links[0].errors| == 0 && links[0].value.side == side {
        KeptAfterSpecified(next, links[1..], side);
      } else {
        FirstNeighborKept(next, links[1..], side);
      }
    }
  }

  /** Once a side is specified, further neighbours leave it unchanged. */
  lemma {:induction false} KeptAfterSpecified(pair: ParseResult<RoadLinks>, links: seq<ParseResult<NeighborLink>>, side: Side)
    requires forall i :: 0 <= i < |links| ==> links[i].value.isSpecified
    requires side == Left ==> pair.value.leftNeighbor.isSpecified
    requires side == Right ==> pair.value.rightNeighbor.isSpecified
    ensures side == Left ==> AddNeighbors(pair, links).value.leftNeighbor == pair.value.leftNeighbor
    ensures side == Right ==> AddNeighbors(pair, links).value.rightNeighbor == pair.value.rightNeighbor
    decreases |links|
  {
    if |links| > 0 {
      KeptAfterSpecified(AddNeighbor(pair, links[0]), links[1..], side);
    }
  }

  /** `RoadLink::resolveReferences`: nothing to do for an unspecified link;
      otherwise the reference is looked up among roads or junctions. */
  function ResolveRoadLink(l: RoadLink, maps: IdToIndexMaps): (r: Result<RoadLink, string>)
    requires l.elementType != ElementType.NotSpecified ==> !l.elementRef.IsResolved()
    ensures l.elementType == ElementType.NotSpecified ==> r == Success(l)
    ensures l.elementType == Road ==> (r.Success? <==> l.elementRef.id in maps.roadIdToIndex)
    ensures l.elementType == Junction ==> (r.Success? <==> l.elementRef.id in maps.junctionIdToIndex)
    ensures r.Success? ==> r.value.elementType == l.elementType && r.value.contactPoint == l.contactPoint
    ensures r.Success? && l.elementType != ElementType.NotSpecified ==>
              r.value.elementRef.index >= 0 && r.value.elementRef.id == l.elementRef.id
  {
    match l.elementType
    case NotSpecified => Success(l)
    case Road =>
      (match Resolve(l.elementRef, maps.roadIdToIndex, "road")
       case Success(ref) => Success(l.(elementRef := ref))
       case Failure(e) => Failure(e))
    case Junction =>
      (match Resolve(l.elementRef, maps.junctionIdToIndex, "junction")
       case Success(ref) => Success(l.(elementRef := ref))
       case Failure(e) => Failure(e))
  }

  /** `NeighborLink::resolveReferences`: only a specified neighbour is resolved, among roads. */
  function ResolveNeighborLink(n: NeighborLink, maps: IdToIndexMaps): (r: Result<NeighborLink, string>)
    requires n.isSpecified ==> !n.elementRef.IsResolved()
    ensures !n.isSpecified ==> r == Success(n)
    ensures n.isSpecified ==> (r.Success? <==> n.elementRef.id in maps.roadIdToIndex)
    ensures r.Success? && n.isSpecified ==> r.value.elementRef.index == maps.roadIdToIndex[n.elementRef.id]
  {
    if !n.isSpecified then Success(n)
    else
      match Resolve(n.elementRef, maps.roadIdToIndex, "road")
      case Success(ref) => Success(n.(elementRef := ref))
      case Failure(e) => Failure(e)
  }

  predicate Unresolved(ls: RoadLinks) {
    && (ls.predecessor.elementType != ElementType.NotSpecified ==> !ls.predecessor.elementRef.IsResolved())
    && (ls.successor.elementType != ElementType.NotSpecified ==> !ls.successor.elementRef.IsResolved())
    && (ls.leftNeighbor.isSpecified ==> !ls.leftNeighbor.elementRef.IsResolved())
    && (ls.rightNeighbor.isSpecified ==> !ls.rightNeighbor.elementRef.IsResolved())
  }

  /** `RoadLinks::resolveReferences`: predecessor, successor, left and right
      neighbour in that order; the first failure is the exception thrown. */
  function ResolveRoadLinks(ls: RoadLinks, maps: IdToIndexMaps): (r: Result<RoadLinks, string>)
    requires Unresolved(ls)
    ensures r.Success? <==> ResolveRoadLink(ls.predecessor, maps).Success? && ResolveRoadLink(ls.successor, maps).Success?
                            && ResolveNeighborLink(ls.leftNeighbor, maps).Success?
                            && ResolveNeighborLink(ls.rightNeighbor, maps).Success?
    ensures r.Failure? && ResolveRoadLink(ls.predecessor, maps).Failure? ==> r == Failure(ResolveRoadLink(ls.predecessor, maps).error)
  {
    match ResolveRoadLink(ls.predecessor, maps)
    case Failure(e) => Failure(e)
    case Success(p) =>
      match ResolveRoadLink(ls.successor, maps)
      case Failure(e) => Failure(e)
      case Success(s) =>
        match ResolveNeighborLink(ls.leftNeighbor, maps)
        case Failure(e) => Failure(e)
        case Success(l) =>
          match ResolveNeighborLink(ls.rightNeighbor, maps)
          case Failure(e) => Failure(e)
          case Success(rn) => Success(RoadLinks(p, s, l, rn))
  }
}
