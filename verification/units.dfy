/** The unit attributes (`units.cpp`): distance, speed and mass units decoded from
    their OpenDRIVE keywords. An unknown keyword throws `invalid_argument`,
    modelled as `Failure` with the message. */
module Units {
  import opened Wrappers

  /** `DistanceUnit`. */
  datatype DistanceUnit = DistanceNotSpecified | Meter | Kilometer | Feet | LandMile

  /** `SpeedUnit`. */
  datatype SpeedUnit = SpeedNotSpecified | MetersPerSecond | MilesPerHour | KilometersPerHour

  /** `MassUnit`. */
  datatype MassUnit = MassNotSpecified | Kilogram | MetricTons

  /** The keyword of each specified distance unit: the decoder reads it back. */
  function DistanceKeyword(u: DistanceUnit): (k: string)
    requires u != DistanceNotSpecified
    ensures ParseDistanceUnit(k) == Success(u)
  {
    match u
    case Meter => "m"
    case Kilometer => "km"
    case Feet => "ft"
    case LandMile => "mile"
  }

  /** `parseXmlAttrib<DistanceUnit>`. */
  function ParseDistanceUnit(value: string): (r: Result<DistanceUnit, string>)
    ensures r.Success? <==> value in {"m", "km", "ft", "mile"}
    ensures r.Success? ==> r.value != DistanceNotSpecified
    ensures r == Success(Meter) <==> value == "m"
    ensures r == Success(Kilometer) <==> value == "km"
    ensures r == Success(Feet) <==> value == "ft"
    ensures r == Success(LandMile) <==> value == "mile"
    ensures r.Failure? ==> r.error == "Not a distance unit: '" + value + "'."
  {
    if value == "m" then Success(Meter)
    else if value == "km" then Success(Kilometer)
    else if value == "ft" then Success(Feet)
    else if value == "mile" then Success(LandMile)
    else Failure("Not a distance unit: '" + value + "'.")
  }

  /** The keyword of each specified speed unit, as OpenDRIVE 1.4 spells it: the
      corrected decoder reads it back. */
  function SpeedKeyword(u: SpeedUnit): (k: string)
    requires u != SpeedNotSpecified
    ensures ParseSpeedUnit(k) == Success(u)
  {
    match u
    case MetersPerSecond => "m/s"
    case MilesPerHour => "mph"
    case KilometersPerHour => "km/h"
  }

  /** `parseXmlAttrib<SpeedUnit>` as written: miles per hour is read from "mps". */
  function ParseSpeedUnitAsWritten(value: string): (r: Result<SpeedUnit, string>)
    ensures r.Success? <==> value in {"m/s", "mps", "km/h"}
    ensures r.Success? ==> r.value != SpeedNotSpecified
    ensures r == Success(MetersPerSecond) <==> value == "m/s"
    ensures r == Success(MilesPerHour) <==> value == "mps"
    ensures r == Success(KilometersPerHour) <==> value == "km/h"
    ensures r.Failure? ==> r.error == "Not a speed unit: '" + value + "'."
  {
    if value == "m/s" then Success(MetersPerSecond)
    else if value == "mps" then Success(MilesPerHour)
    else if value == "km/h" then Success(KilometersPerHour)
    else Failure("Not a speed unit: '" + value + "'.")
  }

  /** As written, a speed given in "mph" is rejected, so miles per hour cannot be
      read from its own keyword. */
  lemma MilesPerHourRejected()
    ensures ParseSpeedUnitAsWritten(SpeedKeyword(MilesPerHour)).Failure?
  {
  }

  /** `parseXmlAttrib<SpeedUnit>` with the keyword "mph". */
  function ParseSpeedUnit(value: string): (r: Result<SpeedUnit, string>)
    ensures r.Success? <==> value in {"m/s", "mph", "km/h"}
    ensures r.Success? ==> r.value != SpeedNotSpecified
    ensures r == Success(MetersPerSecond) <==> value == "m/s"
    ensures r == Success(MilesPerHour) <==> value == "mph"
    ensures r == Success(KilometersPerHour) <==> value == "km/h"
    ensures r.Failure? ==> r.error == "Not a speed unit: '" + value + "'."
  {
    if value == "m/s" then Success(MetersPerSecond)
    else if value == "mph" then Success(MilesPerHour)
    else if value == "km/h" then Success(KilometersPerHour)
    else Failure("Not a speed unit: '" + value + "'.")
  }

  /** The keyword of each specified mass unit: the decoder reads it back. */
  function MassKeyword(u: MassUnit): (k: string)
    requires u != MassNotSpecified
    ensures ParseMassUnit(k) == Success(u)
  {
    match u
    case Kilogram => "kg"
    case MetricTons => "t"
  }

  /** `parseXmlAttrib<MassUnit>`. */
  function ParseMassUnit(value: string): (r: Result<MassUnit, string>)
    ensures r.Success? <==> value in {"kg", "t"}
    ensures r.Success? ==> r.value != MassNotSpecified
    ensures r == Success(Kilogram) <==> value == "kg"
    ensures r == Success(MetricTons) <==> value == "t"
    ensures r.Failure? ==> r.error == "Not a mass unit: '" + value + "'."
  {
    if value == "kg" then Success(Kilogram)
    else if value == "t" then Success(MetricTons)
    else Failure("Not a mass unit: '" + value + "'.")
  }
}
