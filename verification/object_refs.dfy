/** `XodrObjectReference`: a textual id that is later resolved to an index into
    the map's road or junction list. The index field encodes the state: the
    invalid value while unresolved, the null value for a reference that was
    resolved to "nothing", and a non-negative index otherwise. */
module ObjectRefs {
  import opened Wrappers

  const INVALID_VALUE: int := -2
  const NULL_VALUE: int := -1

  datatype ObjectRef = ObjectRef(id: string, index: int) {

    predicate IsResolved() {
      index != INVALID_VALUE
    }

    /** `hasValue`: asserts the reference was resolved. */
    predicate HasValue()
      requires IsResolved()
    {
      index != NULL_VALUE
    }

    /** `index()`: asserts a non-negative index. */
    function Index(): nat
      requires index >= 0
    {
      index
    }

    /** `operator==(std::string)` compares the id only. */
    predicate EqualsId(s: string) {
      id == s
    }
  }

  /** A default-constructed reference: empty id, unresolved. */
  function DefaultRef(): (r: ObjectRef)
    ensures !r.IsResolved()
  {
    ObjectRef("", INVALID_VALUE)
  }

  /** `parse`: keeps the text as the id and leaves the reference unresolved. */
  function Parse(txt: string): (r: ObjectRef)
    ensures r.EqualsId(txt) && forall s :: r.EqualsId(s) <==> s == txt
    ensures !r.IsResolved()
  {
    ObjectRef(txt, INVALID_VALUE)
  }

  /** `resolve(idToIndex, objTypeName)`: throws when the id is not a key of the map. */
  function Resolve(r: ObjectRef, idToIndex: map<string, nat>, objTypeName: string): (out: Result<ObjectRef, string>)
    requires !r.IsResolved()
    ensures out.Success? <==> r.id in idToIndex
    ensures out.Success? ==> out.value.id == r.id && out.value.IsResolved() && out.value.HasValue() && out.value.index >= 0
                             && out.value.Index() == idToIndex[r.id]
    ensures out.Failure? ==> out.error == "There's no " + objTypeName + " with identifier '" + r.id + "'."
  {
    if r.id !in idToIndex then
      Failure("There's no " + objTypeName + " with identifier '" + r.id + "'.")
    else
      Success(ObjectRef(r.id, idToIndex[r.id]))
  }

  /** `resolve(idToIndex, nullValue, objTypeName)`: the id `nullValue` resolves to "no object". */
  function ResolveOrNull(r: ObjectRef, idToIndex: map<string, nat>, nullValue: string, objTypeName: string)
    : (out: Result<ObjectRef, string>)
    requires !r.IsResolved()
    ensures r.id == nullValue ==> out.Success? && out.value.IsResolved() && !out.value.HasValue()
    ensures r.id != nullValue ==> out == Resolve(r, idToIndex, objTypeName)
    ensures out.Success? ==> out.value.id == r.id
  {
    if r.id == nullValue then Success(ObjectRef(r.id, NULL_VALUE))
    else Resolve(r, idToIndex, objTypeName)
  }

  /** `IdToIndexMaps`: the road and junction id tables the map builds before resolving. */
  datatype IdToIndexMaps = IdToIndexMaps(roadIdToIndex: map<string, nat>, junctionIdToIndex: map<string, nat>)
}
