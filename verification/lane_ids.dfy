/** Lane identifiers (`LaneID`) and optional lane identifiers (`LaneIDOpt`).

    Lane ids are 32-bit C++ `int`s. The two largest values are reserved: the
    null tag marks an empty `LaneIDOpt`, the invalid tag marks a
    default-constructed (uninitialised) id in debug builds. A `LaneId` here is
    an initialised id, so its comparisons are exactly the integer ones. */
module LaneIds {
  import opened Wrappers

  const INT_MIN: int := -0x8000_0000
  const INT_MAX: int := 0x7FFF_FFFF

  type Int32 = x: int | INT_MIN <= x <= INT_MAX

  /** Value stored in a `LaneIDOpt` that holds no lane id. */
  const NULL_TAG: Int32 := INT_MAX

  /** Value of an uninitialised `LaneID` in debug builds. */
  const INVALID_TAG: Int32 := INT_MAX - 1

  /** An initialised lane id: every copy or comparison asserts it is not the invalid tag. */
  type LaneId = x: Int32 | x != INVALID_TAG

  function Pow2(n: nat): (p: nat)
    ensures p >= 1
  {
    if n == 0 then 1 else 2 * Pow2(n - 1)
  }

  lemma {:induction false} Pow2Add(m: nat, n: nat)
    ensures Pow2(m + n) == Pow2(m) * Pow2(n)
    decreases n
  {
    if n > 0 {
      Pow2Add(m, n - 1);
    }
  }

  /** Bitwise exclusive or of two `n`-bit unsigned integers, bit by bit from the lowest. */
  function XorBits(a: nat, b: nat, n: nat): nat
    decreases n
  {
    if n == 0 then 0
    else 2 * XorBits(a / 2, b / 2, n - 1) + (if a % 2 != b % 2 then 1 else 0)
  }

  /** Two's-complement bit pattern of a 32-bit integer, read as an unsigned number. */
  function ToUnsigned(x: Int32): (u: nat)
    ensures u < 0x1_0000_0000
    ensures (u >= 0x8000_0000) <==> (x < 0)
  {
    if x >= 0 then x else x + 0x1_0000_0000
  }

  /** The top bit of an `n`-bit exclusive or is set exactly when the operands' top bits differ. */
  lemma {:induction false} XorTopBit(a: nat, b: nat, n: nat)
    requires n >= 1 && a < Pow2(n) && b < Pow2(n)
    ensures XorBits(a, b, n) < Pow2(n)
    ensures (XorBits(a, b, n) >= Pow2(n - 1)) <==> ((a >= Pow2(n - 1)) != (b >= Pow2(n - 1)))
  {
    if n == 1 {
      assert XorBits(a / 2, b / 2, 0) == 0;
    } else {
      XorTopBit(a / 2, b / 2, n - 1);
      assert Pow2(n - 1) == 2 * Pow2(n - 2);
    }
  }

  /** `id_ ^ b.id_` on 32-bit ints, as the sign test of `sameSide` needs it: the result is
      negative exactly when the xor has its top bit set. */
  function XorIsNegative(a: Int32, b: Int32): bool
  {
    XorBits(ToUnsigned(a), ToUnsigned(b), 32) >= 0x8000_0000
  }

  /** `LaneID::sameSide`: `(id_ ^ b.id_) >= 0`. */
  function SameSide(a: LaneId, b: LaneId): bool
    requires a != 0 && b != 0
  {
    !XorIsNegative(a, b)
  }

  /** `sameSide` holds exactly when both ids lie on the same side of the centre lane. */
  lemma SameSideIffSameSign(a: LaneId, b: LaneId)
    requires a != 0 && b != 0
    ensures SameSide(a, b) <==> ((a > 0) <==> (b > 0))
  {
    assert Pow2(8) == 0x100;
    Pow2Add(8, 8);
    Pow2Add(16, 8);
    Pow2Add(24, 7);
    Pow2Add(31, 1);
    XorTopBit(ToUnsigned(a), ToUnsigned(b), 32);
  }

  /** `LaneID::parse`: `stoi` is the value `std::stoi` produced for the text
      (`None` when it threw); a value at or above the invalid tag is out of range. */
  function Parse(stoi: Option<Int32>): (r: Result<LaneId, string>)
    ensures r.Success? <==> stoi.Some? && stoi.value < INVALID_TAG
    ensures r.Success? ==> r.value == stoi.value && r.value != NULL_TAG
  {
    match stoi
    case None => Failure("invalid lane identifier")
    case Some(v) =>
      if v >= INVALID_TAG then Failure("Lane identifier out of range") else Success(v)
  }

  /** `LaneIDOpt`: the raw stored integer, the null tag meaning "no lane". */
  datatype LaneIdOpt = LaneIdOpt(raw: LaneId) {

    /** `operator bool`: the optional holds a lane id. */
    predicate HasValue() {
      raw != NULL_TAG
    }

    /** `operator*`: dereferencing a null optional is a precondition violation. */
    function Deref(): LaneId
      requires HasValue()
    {
      raw
    }

    /** `operator==(int)`: compares the raw stored value, null tag included. */
    predicate EqualsInt(b: int) {
      raw == b
    }
  }

  /** `LaneIDOpt::null()`. */
  function NullOpt(): (o: LaneIdOpt)
    ensures !o.HasValue()
    ensures o.EqualsInt(INT_MAX)
  {
    LaneIdOpt(NULL_TAG)
  }

  /** `LaneIDOpt(LaneID)`: wraps an id; it holds a value unless the id is the null tag itself. */
  function FromId(id: LaneId): (o: LaneIdOpt)
    ensures o.HasValue() <==> id != NULL_TAG
    ensures o.HasValue() ==> o.Deref() == id
    ensures forall b: int :: o.EqualsInt(b) <==> b == id
  {
    LaneIdOpt(id)
  }

  /** `LaneIDOpt::parse`: a parsed id always yields a non-null optional. */
  function ParseOpt(stoi: Option<Int32>): (r: Result<LaneIdOpt, string>)
    ensures r.Success? <==> stoi.Some? && stoi.value < INVALID_TAG
    ensures r.Success? ==> r.value.HasValue() && r.value.Deref() == stoi.value
  {
    match Parse(stoi)
    case Success(id) => Success(FromId(id))
    case Failure(e) => Failure(e)
  }

  /** Two optionals compare equal as `LaneIDOpt`s exactly when they hold the same raw value;
      in particular a null optional never equals a wrapped parsed id. */
  lemma NullDiffersFromParsed(stoi: Option<Int32>)
    requires ParseOpt(stoi).Success?
    ensures ParseOpt(stoi).value != NullOpt()
  {
  }
}
