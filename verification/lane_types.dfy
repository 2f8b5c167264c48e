/** `LaneType` (25 enumerators, in declaration order) and its attribute decoder. */
module LaneTypes {
  import opened Wrappers

  datatype LaneType =
    | None
    | Driving
    | Stop
    | Shoulder
    | Biking
    | Sidewalk
    | Border
    | Restricted
    | Parking
    | Bidirectional
    | Median
    | Special1
    | Special2
    | Special3
    | RoadWorks
    | Tram
    | Rail
    | Entry
    | Exit
    | OffRamp
    | OnRamp
    | ConnectingRamp
    | Bus
    | Taxi
    | Hov

  /** The OpenDRIVE keyword of each lane type, as the decoder accepts it. */
  function Keyword(t: LaneType): string
  {
    match t
    case None => "none"
    case Driving => "driving"
    case Stop => "stop"
    case Shoulder => "shoulder"
    case Biking => "biking"
    case Sidewalk => "sidewalk"
    case Border => "border"
    case Restricted => "restricted"
    case Parking => "parking"
    case Bidirectional => "bidirectional"
    case Median => "median"
    case Special1 => "special1"
    case Special2 => "special2"
    case Special3 => "special3"
    case RoadWorks => "roadWorks"
    case Tram => "tram"
    case Rail => "rail"
    case Entry => "entry"
    case Exit => "exit"
    case OffRamp => "offRamp"
    case OnRamp => "onRamp"
    case ConnectingRamp => "connectingRamp"
    case Bus => "bus"
    case Taxi => "taxi"
    case Hov => "hov"
  }

  /** `parseXmlAttrib<LaneType>`: the keywords are tried in declaration order;
      anything else throws `invalid_argument`. */
  function Parse(value: string): (r: Result<LaneType, string>)
    ensures r.Failure? ==> r.error == "Not a valid lane type: " + value
  {
    if value == "none" then Success(LaneType.None)
    else if value == "driving" then Success(Driving)
    else if value == "stop" then Success(Stop)
    else if value == "shoulder" then Success(Shoulder)
    else if value == "biking" then Success(Biking)
    else if value == "sidewalk" then Success(Sidewalk)
    else if value == "border" then Success(Border)
    else if value == "restricted" then Success(Restricted)
    else if value == "parking" then Success(Parking)
    else if value == "bidirectional" then Success(Bidirectional)
    else if value == "median" then Success(Median)
    else if value == "special1" then Success(Special1)
    else if value == "special2" then Success(Special2)
    else if value == "special3" then Success(Special3)
    else if value == "roadWorks" then Success(RoadWorks)
    else if value == "tram" then Success(Tram)
    else if value == "rail" then Success(Rail)
    else if value == "entry" then Success(Entry)
    else if value == "exit" then Success(Exit)
    else if value == "offRamp" then Success(OffRamp)
    else if value == "onRamp" then Success(OnRamp)
    else if value == "connectingRamp" then Success(ConnectingRamp)
    else if value == "bus" then Success(Bus)
    else if value == "taxi" then Success(Taxi)
    else if value == "hov" then Success(Hov)
    else Failure("Not a valid lane type: " + value)
  }

  /** Every lane type is decoded from its keyword (one lemma per type, each
      stepping through the comparisons before its own). */
  lemma ParseKeyword(t: LaneType)
    ensures Parse(Keyword(t)) == Success(t)
  {
    match t
    case None => ParseNone();
    case Driving => ParseDriving();
    case Stop => ParseStop();
    case Shoulder => ParseShoulder();
    case Biking => ParseBiking();
    case Sidewalk => ParseSidewalk();
    case Border => ParseBorder();
    case Restricted => ParseRestricted();
    case Parking => ParseParking();
    case Bidirectional => ParseBidirectional();
    case Median => ParseMedian();
    case Special1 => ParseSpecial1();
    case Special2 => ParseSpecial2();
    case Special3 => ParseSpecial3();
    case RoadWorks => ParseRoadWorks();
    case Tram => ParseTram();
    case Rail => ParseRail();
    case Entry => ParseEntry();
    case Exit => ParseExit();
    case OffRamp => ParseOffRamp();
    case OnRamp => ParseOnRamp();
    case ConnectingRamp => ParseConnectingRamp();
    case Bus => ParseBus();
    case Taxi => ParseTaxi();
    case Hov => ParseHov();
  }

  // One lemma per lane type keeps each decoding obligation to a single keyword.
  lemma ParseNone() ensures Parse(Keyword(LaneType.None)) == Success(LaneType.None) {}
  lemma ParseDriving() ensures Parse(Keyword(Driving)) == Success(Driving) {}
  lemma ParseStop() ensures Parse(Keyword(Stop)) == Success(Stop) {}
  lemma ParseShoulder() ensures Parse(Keyword(Shoulder)) == Success(Shoulder) {}
  lemma ParseBiking() ensures Parse(Keyword(Biking)) == Success(Biking) {}
  lemma ParseSidewalk() ensures Parse(Keyword(Sidewalk)) == Success(Sidewalk) {}
  lemma ParseBorder() ensures Parse(Keyword(Border)) == Success(Border) {}
  lemma ParseRestricted() ensures Parse(Keyword(Restricted)) == Success(Restricted) {}
  lemma ParseParking() ensures Parse(Keyword(Parking)) == Success(Parking) {}
  lemma ParseBidirectional() ensures Parse(Keyword(Bidirectional)) == Success(Bidirectional) {}
  lemma ParseMedian() ensures Parse(Keyword(Median)) == Success(Median) {}
  lemma ParseSpecial1() ensures Parse(Keyword(Special1)) == Success(Special1) {}
  lemma ParseSpecial2() ensures Parse(Keyword(Special2)) == Success(Special2) {}
  lemma ParseSpecial3() ensures Parse(Keyword(Special3)) == Success(Special3) {}
  lemma ParseRoadWorks() ensures Parse(Keyword(RoadWorks)) == Success(RoadWorks) {}
  lemma ParseTram() ensures Parse(Keyword(Tram)) == Success(Tram) {}
  lemma ParseRail() ensures Parse(Keyword(Rail)) == Success(Rail) {}
  lemma ParseEntry() ensures Parse(Keyword(Entry)) == Success(Entry) {}
  lemma ParseExit() ensures Parse(Keyword(Exit)) == Success(Exit) {}
  lemma ParseOffRamp() ensures Parse(Keyword(OffRamp)) == Success(OffRamp) {}
  lemma ParseOnRamp() ensures Parse(Keyword(OnRamp)) == Success(OnRamp) {}
  lemma ParseConnectingRamp() ensures Parse(Keyword(ConnectingRamp)) == Success(ConnectingRamp) {}
  lemma ParseBus() ensures Parse(Keyword(Bus)) == Success(Bus) {}
  lemma ParseTaxi() ensures Parse(Keyword(Taxi)) == Success(Taxi) {}
  lemma ParseHov() ensures Parse(Keyword(Hov)) == Success(Hov) {}

  /** Only keywords are accepted, each for its own lane type. */
  lemma ParseOnlyKeywords(value: string)
    ensures Parse(value).Success? ==> Keyword(Parse(value).value) == value
  {
    if Parse(value).Success? {
      match Parse(value).value
      case None => DecodedFromNone(value);
      case Driving => DecodedFromDriving(value);
      case Stop => DecodedFromStop(value);
      case Shoulder => DecodedFromShoulder(value);
      case Biking => DecodedFromBiking(value);
      case Sidewalk => DecodedFromSidewalk(value);
      case Border => DecodedFromBorder(value);
      case Restricted => DecodedFromRestricted(value);
      case Parking => DecodedFromParking(value);
      case Bidirectional => DecodedFromBidirectional(value);
      case Median => DecodedFromMedian(value);
      case Special1 => DecodedFromSpecial1(value);
      case Special2 => DecodedFromSpecial2(value);
      case Special3 => DecodedFromSpecial3(value);
      case RoadWorks => DecodedFromRoadWorks(value);
      case Tram => DecodedFromTram(value);
      case Rail => DecodedFromRail(value);
      case Entry => DecodedFromEntry(value);
      case Exit => DecodedFromExit(value);
      case OffRamp => DecodedFromOffRamp(value);
      case OnRamp => DecodedFromOnRamp(value);
      case ConnectingRamp => DecodedFromConnectingRamp(value);
      case Bus => DecodedFromBus(value);
      case Taxi => DecodedFromTaxi(value);
      case Hov => DecodedFromHov(value);
    }
  }

  // One lemma per lane type keeps each obligation to a single branch of the decoder.
  lemma DecodedFromNone(value: string) requires Parse(value) == Success(LaneType.None) ensures value == Keyword(LaneType.None) {}
  lemma DecodedFromDriving(value: string) requires Parse(value) == Success(Driving) ensures value == Keyword(Driving) {}
  lemma DecodedFromStop(value: string) requires Parse(value) == Success(Stop) ensures value == Keyword(Stop) {}
  lemma DecodedFromShoulder(value: string) requires Parse(value) == Success(Shoulder) ensures value == Keyword(Shoulder) {}
  lemma DecodedFromBiking(value: string) requires Parse(value) == Success(Biking) ensures value == Keyword(Biking) {}
  lemma DecodedFromSidewalk(value: string) requires Parse(value) == Success(Sidewalk) ensures value == Keyword(Sidewalk) {}
  lemma DecodedFromBorder(value: string) requires Parse(value) == Success(Border) ensures value == Keyword(Border) {}
  lemma DecodedFromRestricted(value: string) requires Parse(value) == Success(Restricted) ensures value == Keyword(Restricted) {}
  lemma DecodedFromParking(value: string) requires Parse(value) == Success(Parking) ensures value == Keyword(Parking) {}
  lemma DecodedFromBidirectional(value: string) requires Parse(value) == Success(Bidirectional) ensures value == Keyword(Bidirectional) {}
  lemma DecodedFromMedian(value: string) requires Parse(value) == Success(Median) ensures value == Keyword(Median) {}
  lemma DecodedFromSpecial1(value: string) requires Parse(value) == Success(Special1) ensures value == Keyword(Special1) {}
  lemma DecodedFromSpecial2(value: string) requires Parse(value) == Success(Special2) ensures value == Keyword(Special2) {}
  lemma DecodedFromSpecial3(value: string) requires Parse(value) == Success(Special3) ensures value == Keyword(Special3) {}
  lemma DecodedFromRoadWorks(value: string) requires Parse(value) == Success(RoadWorks) ensures value == Keyword(RoadWorks) {}
  lemma DecodedFromTram(value: string) requires Parse(value) == Success(Tram) ensures value == Keyword(Tram) {}
  lemma DecodedFromRail(value: string) requires Parse(value) == Success(Rail) ensures value == Keyword(Rail) {}
  lemma DecodedFromEntry(value: string) requires Parse(value) == Success(Entry) ensures value == Keyword(Entry) {}
  lemma DecodedFromExit(value: string) requires Parse(value) == Success(Exit) ensures value == Keyword(Exit) {}
  lemma DecodedFromOffRamp(value: string) requires Parse(value) == Success(OffRamp) ensures value == Keyword(OffRamp) {}
  lemma DecodedFromOnRamp(value: string) requires Parse(value) == Success(OnRamp) ensures value == Keyword(OnRamp) {}
  lemma DecodedFromConnectingRamp(value: string) requires Parse(value) == Success(ConnectingRamp) ensures value == Keyword(ConnectingRamp) {}
  lemma DecodedFromBus(value: string) requires Parse(value) == Success(Bus) ensures value == Keyword(Bus) {}
  lemma DecodedFromTaxi(value: string) requires Parse(value) == Success(Taxi) ensures value == Keyword(Taxi) {}
  lemma DecodedFromHov(value: string) requires Parse(value) == Success(Hov) ensures value == Keyword(Hov) {}

  /** Distinct lane types have distinct keywords, so the decoder is injective. */
  lemma KeywordInjective(t1: LaneType, t2: LaneType)
    ensures Keyword(t1) == Keyword(t2) ==> t1 == t2
  {
    ParseKeyword(t1);
    ParseKeyword(t2);
  }
}
