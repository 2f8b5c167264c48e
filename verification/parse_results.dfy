/** Parse errors and parse results: `XmlParseError`, `XmlParseResult`,
    `XodrParseError`, `XodrParseResult` and the reader's global lane counter. */
module ParseResults {
  import opened Wrappers

  /** `XmlParseError::Category`, in declaration order. */
  datatype Category =
    | MissingAttribute
    | UnexpectedAttribute
    | MissingChildElement
    | UnexpectedChildElement
    | DuplicateChildElement
    | InvalidAttributeValue

  /** `XmlParseError`: `name` is the attribute or parent element name, `value`
      the attribute value or child element name. */
  datatype XmlParseError = XmlParseError(category: Category, name: string, value: string) {

    /** `isFatal`: everything except an unexpected attribute or child element. */
    predicate IsFatal() {
      category != UnexpectedAttribute && category != UnexpectedChildElement
    }

    /** `description`: a message for each of the six categories. */
    function Description(): (msg: string)
      ensures category == InvalidAttributeValue ==> msg == "Invalid value " + value + " for attribute " + name
      ensures category != InvalidAttributeValue ==>
                |msg| > 13 + |name| && msg[..13] == "XML element <" && msg[13..13 + |name|] == name
    {
      match category
      case MissingAttribute => ElementMessage(name, "> should have attribute named ", value)
      case UnexpectedAttribute => ElementMessage(name, "> has unexpected attribute named ", value)
      case InvalidAttributeValue => "Invalid value " + value + " for attribute " + name
      case MissingChildElement =>
        ElementMessage(name, "> should have at least one child element ", "<" + value + ">")
      case UnexpectedChildElement => ElementMessage(name, "> has unexpected child element ", "<" + value + ">")
      case DuplicateChildElement =>
        ElementMessage(name, "> should not have more than one child element ", "<" + value + ">")
    }
  }

  /** A message about element `name`: "XML element <" + name + middle + tail. */
  function ElementMessage(name: string, middle: string, tail: string): (msg: string)
    ensures |msg| == 13 + |name| + |middle| + |tail|
    ensures msg[..13] == "XML element <" && msg[13..13 + |name|] == name
    ensures msg[|msg| - |tail|..] == tail
  {
    "XML element <" + name + middle + tail
  }

  /** The message ends with the value (or, for child elements, with `<value>`). */
  lemma DescriptionEmbedsValue(e: XmlParseError)
    ensures e.category in {MissingAttribute, UnexpectedAttribute} ==>
              e.Description()[|e.Description()| - |e.value|..] == e.value
    ensures e.category in {MissingChildElement, UnexpectedChildElement, DuplicateChildElement} ==>
              e.Description()[|e.Description()| - |e.value| - 2..] == "<" + e.value + ">"
  {
  }

  /** `XodrInvalidations`: bit masks. */
  const GEOMETRY: nat := 1
  const CONNECTIVITY: nat := 2
  const ALL: nat := 3

  predicate HasGeometryBit(invalidations: nat) {
    invalidations % 2 == 1
  }

  predicate HasConnectivityBit(invalidations: nat) {
    (invalidations / 2) % 2 == 1
  }

  /** `ALL == GEOMETRY | CONNECTIVITY`, and each single mask sets only its own bit. */
  lemma InvalidationBits()
    ensures HasGeometryBit(GEOMETRY) && !HasConnectivityBit(GEOMETRY)
    ensures !HasGeometryBit(CONNECTIVITY) && HasConnectivityBit(CONNECTIVITY)
    ensures HasGeometryBit(ALL) && HasConnectivityBit(ALL)
    ensures !HasGeometryBit(0) && !HasConnectivityBit(0)
  {
  }

  /** `XodrParseError::ErrorData`: a structural XML error or a free-text message. */
  datatype ErrorData = XmlError(xml: XmlParseError) | Message(text: string)

  /** `XodrParseError`. */
  datatype XodrParseError = XodrParseError(data: ErrorData, invalidations: nat) {

    predicate InvalidatesRoadGeometry() {
      HasGeometryBit(invalidations)
    }

    predicate InvalidatesConnectivity() {
      HasConnectivityBit(invalidations)
    }

    /** `description`: delegates for XML errors, the message itself otherwise. */
    function Description(): (msg: string)
      ensures data.Message? ==> msg == data.text
      ensures data.XmlError? ==> msg == data.xml.Description()
    {
      match data
      case XmlError(x) => x.Description()
      case Message(t) => t
    }

    /** `isFatal`: free-text errors are always fatal. */
    predicate IsFatal()
    {
      match data
      case XmlError(x) => x.IsFatal()
      case Message(_) => true
    }
  }

  /** `XodrParseError(data)`: the one-argument constructor invalidates nothing. */
  function PlainError(data: ErrorData): (e: XodrParseError)
    ensures !e.InvalidatesRoadGeometry() && !e.InvalidatesConnectivity()
    ensures e.data == data
  {
    XodrParseError(data, 0)
  }

  /** A free-text error with the given invalidation mask. */
  function MessageError(text: string, invalidations: nat): (e: XodrParseError)
    ensures e.IsFatal() && e.Description() == text
  {
    XodrParseError(Message(text), invalidations)
  }

  /** `XmlParseResult<T, XodrParseError>`: a value and the errors found while producing it. */
  datatype ParseResult<T> = ParseResult(value: T, errors: seq<XodrParseError>)

  /** `XmlParseResult(value)`. */
  function FromValue<T>(v: T): (r: ParseResult<T>)
    ensures r.value == v && |r.errors| == 0
  {
    ParseResult(v, [])
  }

  /** `XmlParseResult(value, warning)`. */
  function WithWarning<T>(v: T, warning: XodrParseError): (r: ParseResult<T>)
    ensures r.value == v && |r.errors| == 1 && r.errors[0] == warning
  {
    ParseResult(v, [warning])
  }

  /** `XmlParseResult(error)`: the value is default-constructed, passed here as `default`. */
  function FromError<T>(default: T, error: XodrParseError): (r: ParseResult<T>)
    ensures r.value == default && |r.errors| == 1 && r.errors[0] == error
  {
    ParseResult(default, [error])
  }

  /** `appendErrors`: the child's errors follow the existing ones, in order. */
  function AppendErrors<T, U>(r: ParseResult<T>, child: ParseResult<U>): (r': ParseResult<T>)
    ensures r'.value == r.value
    ensures |r'.errors| == |r.errors| + |child.errors|
    ensures r'.errors[..|r.errors|] == r.errors && r'.errors[|r.errors|..] == child.errors
  {
    ParseResult(r.value, r.errors + child.errors)
  }

  /** `hasFatalErrors`: scans the errors and stops at the first fatal one. */
  method HasFatalErrors(errors: seq<XodrParseError>) returns (fatal: bool)
    ensures fatal <==> exists i :: 0 <= i < |errors| && errors[i].IsFatal()
  {
    var i := 0;
    while i < |errors|
      invariant 0 <= i <= |errors|
      invariant forall j :: 0 <= j < i ==> !errors[j].IsFatal()
    {
      if errors[i].IsFatal() {
        return true;
      }
      i := i + 1;
    }
    return false;
  }

  /** `hasValidGeometry`: no error invalidates the road geometry. */
  predicate HasValidGeometry(errors: seq<XodrParseError>) {
    forall i :: 0 <= i < |errors| ==> !errors[i].InvalidatesRoadGeometry()
  }

  /** `hasValidConnectivity`: no error invalidates the connectivity. */
  predicate HasValidConnectivity(errors: seq<XodrParseError>) {
    forall i :: 0 <= i < |errors| ==> !errors[i].InvalidatesConnectivity()
  }

  /** Both validity predicates split over a concatenation of error lists. */
  lemma ValidityAppend(a: seq<XodrParseError>, b: seq<XodrParseError>)
    ensures HasValidGeometry(a + b) <==> HasValidGeometry(a) && HasValidGeometry(b)
    ensures HasValidConnectivity(a + b) <==> HasValidConnectivity(a) && HasValidConnectivity(b)
  {
    assert forall i :: 0 <= i < |a| ==> (a + b)[i] == a[i];
    assert forall i :: 0 <= i < |b| ==> (a + b)[|a| + i] == b[i];
  }

  predicate Invalidates(e: XodrParseError) {
    e.InvalidatesRoadGeometry() || e.InvalidatesConnectivity()
  }

  /** `extract_value`: throws with the description of the first error that
      invalidates geometry or connectivity, otherwise returns the value. */
  function ExtractValue<T>(r: ParseResult<T>): (out: Result<T, string>)
    ensures out.Success? <==> HasValidGeometry(r.errors) && HasValidConnectivity(r.errors)
    ensures out.Success? ==> out.value == r.value
    ensures out.Failure? ==>
              (exists i :: 0 <= i < |r.errors| && Invalidates(r.errors[i])
                 && (forall j :: 0 <= j < i ==> !Invalidates(r.errors[j]))
                 && out.error == r.errors[i].Description())
    decreases |r.errors|
  {
    if |r.errors| == 0 then Success(r.value)
    else if Invalidates(r.errors[0]) then Failure(r.errors[0].Description())
    else
      var rest := ExtractValue(ParseResult(r.value, r.errors[1..]));
      assert forall i :: 1 <= i < |r.errors| ==> r.errors[i] == r.errors[1..][i - 1];
      rest
  }

  /** The part of `XodrReader` the model keeps: the global lane-index counter (initially 0). */
  datatype Reader = Reader(nextGlobalLaneIndex: nat)

  function FreshReader(): (r: Reader)
    ensures PeekNextGlobalLaneIndex(r) == 0
  {
    Reader(0)
  }

  /** `newGlobalLaneIndex`: returns the counter and advances it. */
  function NewGlobalLaneIndex(r: Reader): (res: (nat, Reader))
    ensures res.0 == PeekNextGlobalLaneIndex(r)
    ensures PeekNextGlobalLaneIndex(res.1) == res.0 + 1
  {
    (r.nextGlobalLaneIndex, Reader(r.nextGlobalLaneIndex + 1))
  }

  /** `peekNextGlobalLaneIndex`: the value the next call will return. */
  function PeekNextGlobalLaneIndex(r: Reader): nat {
    r.nextGlobalLaneIndex
  }

  /** `k` successive calls of `newGlobalLaneIndex`: the indices handed out and the final reader. */
  function TakeGlobalLaneIndices(r: Reader, k: nat): (res: (seq<nat>, Reader))
    decreases k
  {
    if k == 0 then ([], r)
    else
      var (i, r1) := NewGlobalLaneIndex(r);
      var (rest, r2) := TakeGlobalLaneIndices(r1, k - 1);
      ([i] + rest, r2)
  }

  /** Successive calls return consecutive indices starting at the peeked value. */
  lemma {:induction false} GlobalLaneIndicesConsecutive(r: Reader, k: nat)
    ensures |TakeGlobalLaneIndices(r, k).0| == k
    ensures forall j :: 0 <= j < k ==> TakeGlobalLaneIndices(r, k).0[j] == PeekNextGlobalLaneIndex(r) + j
    ensures PeekNextGlobalLaneIndex(TakeGlobalLaneIndices(r, k).1) == PeekNextGlobalLaneIndex(r) + k
    decreases k
  {
    if k > 0 {
      GlobalLaneIndicesConsecutive(NewGlobalLaneIndex(r).1, k - 1);
    }
  }
}
