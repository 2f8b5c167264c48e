/** Road objects (`RoadObject`): the type and orientation decoders, the type
    names, and the size-specification rules of `validateGeometry`. A NaN
    attribute (the parser's "absent" default) is `None` here. */
module RoadObjects {
  import opened Wrappers
  import opened ParseResults

  /** `RoadObject::Type`, in declaration order. */
  datatype ObjectType =
    | None | Obstacle | Car | Truck | Van | Bus | Trailer | Bike | Motorbike | Tram
    | Train | Pedestrian | Pole | Tree | Vegetation | Barrier | Building | ParkingSpace | Wind | Patch

  /** `RoadObject::Orientation`. */
  datatype Orientation = Positive | Negative | None

  /** `RoadObject::typeName`. */
  function TypeName(t: ObjectType): string {
    match t
    case None => "none"
    case Obstacle => "obstacle"
    case Car => "car"
    case Truck => "truck"
    case Van => "van"
    case Bus => "bus"
    case Trailer => "trailer"
    case Bike => "bike"
    case Motorbike => "motorbike"
    case Tram => "tram"
    case Train => "train"
    case Pedestrian => "pedestrian"
    case Pole => "pole"
    case Tree => "tree"
    case Vegetation => "vegetation"
    case Barrier => "barrier"
    case Building => "building"
    case ParkingSpace => "parkingSpace"
    case Wind => "wind"
    case Patch => "patch"
  }

  /** The keyword table of `parseXmlAttrib<RoadObject::Type>` as written: it has
      no entry for "bus". */
  const TYPE_KEYWORDS_AS_WRITTEN: map<string, ObjectType> := map[
    "none" := ObjectType.None, "obstacle" := Obstacle, "car" := Car, "truck" := Truck,
    "van" := Van, "trailer" := Trailer, "bike" := Bike, "motorbike" := Motorbike,
    "tram" := Tram, "train" := Train, "pedestrian" := Pedestrian, "pole" := Pole,
    "tree" := Tree, "vegetation" := Vegetation, "barrier" := Barrier, "building" := Building,
    "parkingSpace" := ParkingSpace, "wind" := Wind, "patch" := Patch]

  /** The keyword table with the missing "bus" entry added. */
  const TYPE_KEYWORDS: map<string, ObjectType> := TYPE_KEYWORDS_AS_WRITTEN["bus" := Bus]

  function TypeError(value: string): string {
    "'" + value + "' isn't a valid road object type."
  }

  /** `parseXmlAttrib<RoadObject::Type>` as written: a table lookup that throws on a miss. */
  function ParseTypeAsWritten(value: string): (r: Result<ObjectType, string>)
    ensures r.Success? <==> value in TYPE_KEYWORDS_AS_WRITTEN
    ensures r.Failure? ==> r.error == TypeError(value)
  {
    if value in TYPE_KEYWORDS_AS_WRITTEN then Success(TYPE_KEYWORDS_AS_WRITTEN[value]) else Failure(TypeError(value))
  }

  /** Every type but `Bus` is decoded from its name by the table as written. */
  lemma ParseTypeAsWrittenRoundTrip(t: ObjectType)
    requires t != Bus
    ensures ParseTypeAsWritten(TypeName(t)) == Success(t)
  {
  }

  /** The table as written rejects the name it prints for `Bus`. */
  lemma BusNameNotDecoded()
    ensures TypeName(Bus) == "bus"
    ensures ParseTypeAsWritten(TypeName(Bus)) == Failure(TypeError("bus"))
  {
    assert "bus" !in TYPE_KEYWORDS_AS_WRITTEN;
  }

  /** The decoder with the complete table. */
  function ParseType(value: string): (r: Result<ObjectType, string>)
    ensures r.Success? <==> value in TYPE_KEYWORDS
    ensures r.Failure? ==> r.error == TypeError(value)
  {
    if value in TYPE_KEYWORDS then Success(TYPE_KEYWORDS[value]) else Failure(TypeError(value))
  }

  /** With the complete table, every type is decoded from its name ... */
  lemma ParseTypeRoundTrip(t: ObjectType)
    ensures ParseType(TypeName(t)) == Success(t)
  {
  }

  /** ... and every accepted keyword is the name of the type it decodes to
      (one lemma per type: only that type's entry maps to it). */
  lemma ParseTypeOnlyNames(value: string)
    requires ParseType(value).Success?
    ensures TypeName(ParseType(value).value) == value
  {
    match TYPE_KEYWORDS[value]
    case None => KeywordOfNone(value);
    case Obstacle => KeywordOfObstacle(value);
    case Car => KeywordOfCar(value);
    case Truck => KeywordOfTruck(value);
    case Van => KeywordOfVan(value);
    case Bus => KeywordOfBus(value);
    case Trailer => KeywordOfTrailer(value);
    case Bike => KeywordOfBike(value);
    case Motorbike => KeywordOfMotorbike(value);
    case Tram => KeywordOfTram(value);
    case Train => KeywordOfTrain(value);
    case Pedestrian => KeywordOfPedestrian(value);
    case Pole => KeywordOfPole(value);
    case Tree => KeywordOfTree(value);
    case Vegetation => KeywordOfVegetation(value);
    case Barrier => KeywordOfBarrier(value);
    case Building => KeywordOfBuilding(value);
    case ParkingSpace => KeywordOfParkingSpace(value);
    case Wind => KeywordOfWind(value);
    case Patch => KeywordOfPatch(value);
  }

  // One lemma per object type keeps each obligation to a single table entry.
  lemma KeywordOfNone(value: string) requires value in TYPE_KEYWORDS && TYPE_KEYWORDS[value] == ObjectType.None ensures value == TypeName(ObjectType.None) {}
  lemma KeywordOfObstacle(value: string) requires value in TYPE_KEYWORDS && TYPE_KEYWORDS[value] == Obstacle ensures value == TypeName(Obstacle) {}
  lemma KeywordOfCar(value: string) requires value in TYPE_KEYWORDS && TYPE_KEYWORDS[value] == Car ensures value == TypeName(Car) {}
  lemma KeywordOfTruck(value: string) requires value in TYPE_KEYWORDS && TYPE_KEYWORDS[value] == Truck ensures value == TypeName(Truck) {}
  lemma KeywordOfVan(value: string) requires value in TYPE_KEYWORDS && TYPE_KEYWORDS[value] == Van ensures value == TypeName(Van) {}
  lemma KeywordOfBus(value: string) requires value in TYPE_KEYWORDS && TYPE_KEYWORDS[value] == Bus ensures value == TypeName(Bus) {}
  lemma KeywordOfTrailer(value: string) requires value in TYPE_KEYWORDS && TYPE_KEYWORDS[value] == Trailer ensures value == TypeName(Trailer) {}
  lemma KeywordOfBike(value: string) requires value in TYPE_KEYWORDS && TYPE_KEYWORDS[value] == Bike ensures value == TypeName(Bike) {}
  lemma KeywordOfMotorbike(value: string) requires value in TYPE_KEYWORDS && TYPE_KEYWORDS[value] == Motorbike ensures value == TypeName(Motorbike) {}
  lemma KeywordOfTram(value: string) requires value in TYPE_KEYWORDS && TYPE_KEYWORDS[value] == Tram ensures value == TypeName(Tram) {}
  lemma KeywordOfTrain(value: string) requires value in TYPE_KEYWORDS && TYPE_KEYWORDS[value] == Train ensures value == TypeName(Train) {}
  lemma KeywordOfPedestrian(value: string) requires value in TYPE_KEYWORDS && TYPE_KEYWORDS[value] == Pedestrian ensures value == TypeName(Pedestrian) {}
  lemma KeywordOfPole(value: string) requires value in TYPE_KEYWORDS && TYPE_KEYWORDS[value] == Pole ensures value == TypeName(Pole) {}
  lemma KeywordOfTree(value: string) requires value in TYPE_KEYWORDS && TYPE_KEYWORDS[value] == Tree ensures value == TypeName(Tree) {}
  lemma KeywordOfVegetation(value: string) requires value in TYPE_KEYWORDS && TYPE_KEYWORDS[value] == Vegetation ensures value == TypeName(Vegetation) {}
  lemma KeywordOfBarrier(value: string) requires value in TYPE_KEYWORDS && TYPE_KEYWORDS[value] == Barrier ensures value == TypeName(Barrier) {}
  lemma KeywordOfBuilding(value: string) requires value in TYPE_KEYWORDS && TYPE_KEYWORDS[value] == Building ensures value == TypeName(Building) {}
  lemma KeywordOfParkingSpace(value: string) requires value in TYPE_KEYWORDS && TYPE_KEYWORDS[value] == ParkingSpace ensures value == TypeName(ParkingSpace) {}
  lemma KeywordOfWind(value: string) requires value in TYPE_KEYWORDS && TYPE_KEYWORDS[value] == Wind ensures value == TypeName(Wind) {}
  lemma KeywordOfPatch(value: string) requires value in TYPE_KEYWORDS && TYPE_KEYWORDS[value] == Patch ensures value == TypeName(Patch) {}

  /** `parseXmlAttrib<RoadObject::Orientation>`. */
  function ParseOrientation(value: string): (r: Result<Orientation, string>)
    ensures r.Success? <==> value == "+" || value == "-" || value == "none"
    ensures r == Success(Positive) <==> value == "+"
    ensures r == Success(Negative) <==> value == "-"
    ensures r == Success(Orientation.None) <==> value == "none"
  {
    if value == "+" then Success(Positive)
    else if value == "-" then Success(Negative)
    else if value == "none" then Success(Orientation.None)
    else Failure("'" + value + "' isn't a valid road object orientation.")
  }

  /** `RoadObject`; `length`, `width`, `radius` and `height` default to NaN (`None`),
      and `hasOutline` says whether an `<outline>` child was parsed. */
  datatype RoadObject = RoadObject(
    objectType: ObjectType,
    name: string,
    id: string,
    s: real,
    t: real,
    zOffset: real,
    validLength: real,
    orientation: Orientation,
    length: Option<real>,
    width: Option<real>,
    radius: Option<real>,
    height: Option<real>,
    hasOutline: bool,
    heading: real,
    pitch: real,
    roll: real)
  {
    /** `hasBoxGeometry`: asserts that length and width are given together. */
    predicate HasBoxGeometry()
      requires length.Some? == width.Some?
    {
      length.Some?
    }

    /** `hasCylinderGeometry`. */
    predicate HasCylinderGeometry() {
      radius.Some?
    }

    /** `hasOutlineGeometry`. */
    predicate HasOutlineGeometry() {
      hasOutline
    }
  }

  /** The conditions `validateGeometry` reports, one per message it can emit. */
  datatype SizeProblem =
    | MissingWidth | LengthAndRadius | MissingBoxHeight | LengthAndOutline
    | MissingLength | MissingCylinderHeight | RadiusAndOutline | NoSize
  {
    function Text(): string {
      match this
      case MissingWidth =>
        "has missing 'width' attribute. A 'length' attribute is specified, so a 'width' attribute must be specified too."
      case LengthAndRadius =>
        "has both 'length' and 'radius' attributes. Either a pair of 'length' and 'width' attributes or a 'radius' attribute should be specified, but not both."
      case MissingBoxHeight =>
        "does not have a 'height' attribute. The 'height' attribute is required if the 'length' and 'width' attributes are specified."
      case LengthAndOutline =>
        "has both 'length' and 'outline' attributes. Either a pair of 'length' and 'width' attributes or an 'outline' attribute should be specified, but not both."
      case MissingLength =>
        "has missing 'length' attribute. A 'width' attribute is specified, so a 'length' attribute must be specified too."
      case MissingCylinderHeight =>
        "has missing 'height' attribute. A 'radius' attribute is specified, so a 'height' attribute must be specified too."
      case RadiusAndOutline =>
        "has both 'radius' and 'outline' attributes. Either a 'radius' attributes or an 'outline' attribute should be specified, but not both."
      case NoSize =>
        "does not have any size specification. Either a pair of 'length' and 'width' attributes, a 'radius' attribute or an 'outline' child element expected."
    }
  }

  function Count(b: bool): nat {
    if b then 1 else 0
  }

  function When(b: bool, p: SizeProblem): seq<SizeProblem> {
    if b then [p] else []
  }

  /** The decision table of `validateGeometry`, over which size attributes are present. */
  function SizeProblems(o: RoadObject): (ps: seq<SizeProblem>)
    ensures o.length.Some? ==>
              |ps| == Count(o.width.None?) + Count(o.radius.Some?) + Count(o.height.None?) + Count(o.hasOutline)
    ensures o.length.None? && o.width.Some? ==> ps == [MissingLength]
    ensures o.length.None? && o.width.None? && o.radius.Some? ==>
              |ps| == Count(o.height.None?) + Count(o.hasOutline)
    ensures o.length.None? && o.width.None? && o.radius.None? ==> |ps| == Count(!o.hasOutline)
  {
    if o.length.Some? then
      When(o.width.None?, MissingWidth) + When(o.radius.Some?, LengthAndRadius)
      + When(o.height.None?, MissingBoxHeight) + When(o.hasOutline, LengthAndOutline)
    else if o.width.Some? then
      [MissingLength]
    else if o.radius.Some? then
      When(o.height.None?, MissingCylinderHeight) + When(o.hasOutline, RadiusAndOutline)
    else
      When(!o.hasOutline, NoSize)
  }

  /** The error `validateGeometry` appends: a string-backed error with no invalidation bits. */
  function SizeError(id: string, p: SizeProblem): (e: XodrParseError)
    ensures e.invalidations == 0 && e.IsFatal()
  {
    PlainError(Message("Road object with ID '" + id + "' " + p.Text()))
  }

  /** `validateGeometry`: one error per problem found, in the order of the table. */
  function ValidateGeometry(o: RoadObject): (errs: seq<XodrParseError>)
    ensures |errs| == |SizeProblems(o)|
    ensures forall i :: 0 <= i < |errs| ==> errs[i] == SizeError(o.id, SizeProblems(o)[i])
    ensures HasValidGeometry(errs) && HasValidConnectivity(errs)
  {
    var ps := SizeProblems(o);
    seq(|ps|, i requires 0 <= i < |ps| => SizeError(o.id, ps[i]))
  }

  /** The size specifications the rules admit: a box (length, width and height),
      a cylinder (radius and height), or an outline, each on its own. */
  predicate WellSpecified(o: RoadObject) {
    (o.length.Some? && o.width.Some? && o.height.Some? && o.radius.None? && !o.hasOutline)
    || (o.length.None? && o.width.None? && o.radius.Some? && o.height.Some? && !o.hasOutline)
    || (o.length.None? && o.width.None? && o.radius.None? && o.hasOutline)
  }

  /** `validateGeometry` reports nothing exactly for the admitted size specifications. */
  lemma ValidateGeometryAcceptsWellSpecified(o: RoadObject)
    ensures ValidateGeometry(o) == [] <==> WellSpecified(o)
  {
    assert |ValidateGeometry(o)| == |SizeProblems(o)|;
  }

  /** An object that passed validation satisfies the precondition of `hasBoxGeometry`. */
  lemma ValidatedHasConsistentBox(o: RoadObject)
    requires ValidateGeometry(o) == []
    ensures o.length.Some? == o.width.Some?
    ensures o.HasBoxGeometry() ==> !o.HasCylinderGeometry() && !o.HasOutlineGeometry()
  {
    ValidateGeometryAcceptsWellSpecified(o);
  }

  /** The end of `RoadObject::parseXml`: the geometry findings are appended to
      whatever the attribute and child parsers reported. */
  function FinishRoadObject(parsed: ParseResult<RoadObject>): (r: ParseResult<RoadObject>)
    ensures r.value == parsed.value
    ensures |r.errors| >= |parsed.errors| && r.errors[..|parsed.errors|] == parsed.errors
    ensures HasValidGeometry(r.errors) <==> HasValidGeometry(parsed.errors)
    ensures HasValidConnectivity(r.errors) <==> HasValidConnectivity(parsed.errors)
    ensures |r.errors| == |parsed.errors| <==> WellSpecified(parsed.value)
  {
    ValidateGeometryAcceptsWellSpecified(parsed.value);
    ParseResult(parsed.value, parsed.errors + ValidateGeometry(parsed.value))
  }
}
