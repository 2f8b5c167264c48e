/** `XmlAttributeParsers`: the attributes of one XML element are matched against a
    finalized parser table; every attribute either has no entry (reported), is
    decoded into the result, or fails to decode (reported with the entry's
    invalidations); absent entries report a missing attribute or get their default.
    The XML reader is replaced by the element's name and its attribute list, and the
    typed decoders by a predicate saying which values an entry accepts. */
module AttributeParsers {
  import opened Wrappers
  import opened ParseResults
  import opened ParserTables

  /** `XmlReader::Attrib`. */
  datatype Attrib = Attrib(name: string, value: string)

  /** `addParser`, `addFieldParser` and `addSetterParser`: required. */
  function RequiredParser(name: string, failInvalidations: nat): (p: Parser)
    ensures p.name == name && p.failInvalidations == failInvalidations
    ensures p.required && !p.allowMany
  {
    Parser(name, true, false, failInvalidations)
  }

  /** `addOptionalFieldParser` and `addOptionalSetterParser`: optional, with a default. */
  function OptionalParser(name: string, failInvalidations: nat): (p: Parser)
    ensures p.name == name && p.failInvalidations == failInvalidations
    ensures !p.required && !p.allowMany
  {
    Parser(name, false, false, failInvalidations)
  }

  /** What `parse` does, in order: append an error, store the decoded value of
      attribute number `attrib` through entry `parser`, or apply the default of
      entry `parser`. */
  datatype AttribEvent = Report(error: XodrParseError) | Assign(parser: nat, attrib: nat) | ApplyDefault(parser: nat)

  /** The error for an attribute without an entry, naming the attribute: plain,
      it invalidates nothing. */
  function UnexpectedAttribute(element: string, a: Attrib): (e: XodrParseError)
    ensures !e.IsFatal() && e.invalidations == 0
    ensures e.data == XmlError(XmlParseError(Category.UnexpectedAttribute, element, a.name))
  {
    PlainError(XmlError(XmlParseError(Category.UnexpectedAttribute, element, a.name)))
  }

  /** The same error as the source builds it: with the attribute's value where the
      message expects its name. */
  function UnexpectedAttributeAsWritten(element: string, a: Attrib): (e: XodrParseError)
    ensures !e.IsFatal() && e.invalidations == 0
    ensures e.data == XmlError(XmlParseError(Category.UnexpectedAttribute, element, a.value))
  {
    PlainError(XmlError(XmlParseError(Category.UnexpectedAttribute, element, a.value)))
  }

  /** The error an entry's `setErrorFunc_` appends when its decoder throws: the
      entry's name and the rejected value, with the entry's `parseFailArgs`. */
  function InvalidValue(p: Parser, value: string): (e: XodrParseError)
    ensures e.invalidations == p.failInvalidations
    ensures e.data == XmlError(XmlParseError(InvalidAttributeValue, p.name, value))
  {
    XodrParseError(XmlError(XmlParseError(InvalidAttributeValue, p.name, value)), p.failInvalidations)
  }

  /** The error an entry's `setErrorFunc_` appends when a required attribute is absent. */
  function MissingValue(p: Parser, element: string): (e: XodrParseError)
    ensures e.invalidations == p.failInvalidations
    ensures e.data == XmlError(XmlParseError(MissingAttribute, element, p.name))
  {
    XodrParseError(XmlError(XmlParseError(MissingAttribute, element, p.name)), p.failInvalidations)
  }

  /** The loop state: the visited mask (as a set of positions) and the events so far. */
  datatype LoopState = LoopState(visited: set<nat>, events: seq<AttribEvent>)

  /** One attribute: no entry, or an entry whose decoder returns or throws.
      `asWritten` selects the source's unexpected-attribute error. */
  function AttribStep(ps: seq<Parser>, element: string, decodes: (Parser, string) -> bool,
                      asWritten: bool, st: LoopState, j: nat, a: Attrib): (st': LoopState)
    ensures Lookup(ps, a.name).None? ==>
              st'.visited == st.visited
              && st'.events == st.events + [Report(if asWritten then UnexpectedAttributeAsWritten(element, a)
                                                   else UnexpectedAttribute(element, a))]
    ensures Lookup(ps, a.name).Some? ==>
              var i := Lookup(ps, a.name).value;
              && st'.visited == st.visited + {i}
              && st'.events == st.events + [if decodes(ps[i], a.value) then Assign(i, j)
                                            else Report(InvalidValue(ps[i], a.value))]
  {
    match Lookup(ps, a.name)
    case None =>
      var e := if asWritten then UnexpectedAttributeAsWritten(element, a) else UnexpectedAttribute(element, a);
      LoopState(st.visited, st.events + [Report(e)])
    case Some(i) =>
      var ev := if decodes(ps[i], a.value) then Assign(i, j) else Report(InvalidValue(ps[i], a.value));
      LoopState(st.visited + {i}, st.events + [ev])
  }

  /** The loop over the attributes, in order: one event each. */
  function ReadAttributes(ps: seq<Parser>, element: string, decodes: (Parser, string) -> bool,
                          asWritten: bool, attribs: seq<Attrib>): (st: LoopState)
    ensures forall i :: i in st.visited ==> i < |ps|
    ensures |st.events| == |attribs|
    decreases |attribs|
  {
    if |attribs| == 0 then LoopState({}, [])
    else
      var n := |attribs| - 1;
      AttribStep(ps, element, decodes, asWritten, ReadAttributes(ps, element, decodes, asWritten, attribs[..n]),
                 n, attribs[n])
  }

  /** The events of the loop, attribute by attribute. */
  lemma {:induction false} ReadAttributesEvent(ps: seq<Parser>, element: string, decodes: (Parser, string) -> bool,
                                               asWritten: bool, attribs: seq<Attrib>, j: nat)
    requires j < |attribs|
    ensures var ev := ReadAttributes(ps, element, decodes, asWritten, attribs).events[j];
            var a := attribs[j];
            && (Lookup(ps, a.name).None? ==>
                  ev == Report(if asWritten then UnexpectedAttributeAsWritten(element, a) else UnexpectedAttribute(element, a)))
            && (Lookup(ps, a.name).Some? ==>
                  var i := Lookup(ps, a.name).value;
                  ev == if decodes(ps[i], a.value) then Assign(i, j) else Report(InvalidValue(ps[i], a.value)))
    decreases |attribs|
  {
    var n := |attribs| - 1;
    if j < n {
      ReadAttributesEvent(ps, element, decodes, asWritten, attribs[..n], j);
      assert attribs[..n][j] == attribs[j];
    }
  }

  /** Entry `i` is visited exactly when some attribute maps to it. */
  lemma {:induction false} ReadAttributesVisited(ps: seq<Parser>, element: string, decodes: (Parser, string) -> bool,
                                                 asWritten: bool, attribs: seq<Attrib>, i: nat)
    ensures i in ReadAttributes(ps, element, decodes, asWritten, attribs).visited <==>
            exists j :: 0 <= j < |attribs| && Lookup(ps, attribs[j].name) == Some(i)
    decreases |attribs|
  {
    if |attribs| > 0 {
      var n := |attribs| - 1;
      ReadAttributesVisited(ps, element, decodes, asWritten, attribs[..n], i);
      assert forall j :: 0 <= j < n ==> attribs[..n][j] == attribs[j];
    }
  }

  /** The loop after the attributes: every entry not visited gets its error (required)
      or its default (optional), in table order. */
  function FinishEvents(ps: seq<Parser>, element: string, visited: set<nat>, n: nat): (evs: seq<AttribEvent>)
    requires n <= |ps|
    ensures forall i: nat :: ApplyDefault(i) in evs <==> i < n && i !in visited && !ps[i].required
    ensures forall i: nat :: i < n && i !in visited && ps[i].required ==> Report(MissingValue(ps[i], element)) in evs
    ensures forall e :: e in evs ==> e.ApplyDefault? || (e.Report? && e.error.data.XmlError?
                                                          && e.error.data.xml.category == MissingAttribute)
    decreases n
  {
    if n == 0 then []
    else
      var i := n - 1;
      FinishEvents(ps, element, visited, i)
      + (if i in visited then []
         else if ps[i].required then [Report(MissingValue(ps[i], element))]
         else [ApplyDefault(i)])
  }

  /** With unique names, only entries that are absent and required report a missing attribute. */
  lemma {:induction false} FinishReportsOnlyMissing(ps: seq<Parser>, element: string, visited: set<nat>, n: nat, i: nat)
    requires n <= |ps| && i < |ps| && UniqueNames(ps)
    requires Report(MissingValue(ps[i], element)) in FinishEvents(ps, element, visited, n)
    ensures i < n && i !in visited && ps[i].required
    decreases n
  {
    var k := n - 1;
    if Report(MissingValue(ps[i], element)) in FinishEvents(ps, element, visited, k) {
      FinishReportsOnlyMissing(ps, element, visited, k, i);
    }
  }

  /** Once every entry is visited the loop after the attributes does nothing, so
      the `visitedMask != fullMask` test only saves work. */
  lemma {:induction false} FinishEmptyWhenAllVisited(ps: seq<Parser>, element: string, visited: set<nat>, n: nat)
    requires n <= |ps| && AllVisited(n, visited)
    ensures FinishEvents(ps, element, visited, n) == []
    decreases n
  {
    if n > 0 {
      FinishEmptyWhenAllVisited(ps, element, visited, n - 1);
    }
  }

  /** The source asserts that no two attributes select the same entry (XML forbids
      repeated attributes). */
  predicate NoRepeatedEntry(ps: seq<Parser>, attribs: seq<Attrib>) {
    forall j, k :: 0 <= j < k < |attribs| && Lookup(ps, attribs[j].name).Some? ==>
      Lookup(ps, attribs[j].name) != Lookup(ps, attribs[k].name)
  }

  /** Every entry of the table is visited. */
  predicate AllVisited(n: nat, visited: set<nat>) {
    forall i: nat :: i < n ==> i in visited
  }

  /** `parse`, parameterised by the unexpected-attribute error: the attributes, then,
      unless every entry was visited, the absent entries. */
  function ParseWith(t: Table, element: string, decodes: (Parser, string) -> bool, asWritten: bool,
                     attribs: seq<Attrib>): (evs: seq<AttribEvent>)
    requires t.optionalMask.Some? && NoRepeatedEntry(t.parsers, attribs)
    ensures |evs| >= |attribs|
  {
    var st := ReadAttributes(t.parsers, element, decodes, asWritten, attribs);
    if AllVisited(|t.parsers|, st.visited) then st.events
    else st.events + FinishEvents(t.parsers, element, st.visited, |t.parsers|)
  }

  /** Skipping the loop when every entry was visited does not change the events. */
  lemma ParseWithFinishes(t: Table, element: string, decodes: (Parser, string) -> bool, asWritten: bool,
                          attribs: seq<Attrib>)
    requires t.optionalMask.Some? && NoRepeatedEntry(t.parsers, attribs)
    ensures var st := ReadAttributes(t.parsers, element, decodes, asWritten, attribs);
            ParseWith(t, element, decodes, asWritten, attribs)
            == st.events + FinishEvents(t.parsers, element, st.visited, |t.parsers|)
  {
    var st := ReadAttributes(t.parsers, element, decodes, asWritten, attribs);
    if AllVisited(|t.parsers|, st.visited) {
      FinishEmptyWhenAllVisited(t.parsers, element, st.visited, |t.parsers|);
    }
  }

  /** Event lists that agree everywhere except that, for some attributes without
      an entry, the first reports the error with the attribute's value and the
      second with its name. */
  predicate DifferOnlyInUnexpectedName(element: string, attribs: seq<Attrib>, w: seq<AttribEvent>, c: seq<AttribEvent>) {
    |w| == |c| &&
    forall j :: 0 <= j < |w| ==>
      w[j] == c[j]
      || (j < |attribs| && w[j] == Report(UnexpectedAttributeAsWritten(element, attribs[j]))
          && c[j] == Report(UnexpectedAttribute(element, attribs[j])))
  }

  /** Which error an attribute without an entry gets does not change which entries
      the loop visits. */
  lemma {:induction false} AsWrittenVisitsAlike(ps: seq<Parser>, element: string, decodes: (Parser, string) -> bool,
                                                attribs: seq<Attrib>)
    ensures ReadAttributes(ps, element, decodes, true, attribs).visited
            == ReadAttributes(ps, element, decodes, false, attribs).visited
    decreases |attribs|
  {
    if |attribs| > 0 {
      AsWrittenVisitsAlike(ps, element, decodes, attribs[..|attribs| - 1]);
    }
  }

  /** `parse` as written and corrected differ only in the unexpected-attribute errors. */
  lemma ParseAsWrittenDiffers(t: Table, element: string, decodes: (Parser, string) -> bool, attribs: seq<Attrib>)
    requires t.optionalMask.Some? && NoRepeatedEntry(t.parsers, attribs)
    ensures DifferOnlyInUnexpectedName(element, attribs, ParseWith(t, element, decodes, true, attribs),
                                       ParseWith(t, element, decodes, false, attribs))
  {
    var ps := t.parsers;
    var w := ReadAttributes(ps, element, decodes, true, attribs);
    var c := ReadAttributes(ps, element, decodes, false, attribs);
    AsWrittenVisitsAlike(ps, element, decodes, attribs);
    ParseWithFinishes(t, element, decodes, true, attribs);
    ParseWithFinishes(t, element, decodes, false, attribs);
    var fin := FinishEvents(ps, element, c.visited, |ps|);
    forall j | 0 <= j < |w.events| + |fin|
      ensures (w.events + fin)[j] == (c.events + fin)[j]
              || (j < |attribs| && (w.events + fin)[j] == Report(UnexpectedAttributeAsWritten(element, attribs[j]))
                  && (c.events + fin)[j] == Report(UnexpectedAttribute(element, attribs[j])))
    {
      if j < |attribs| {
        ReadAttributesEvent(ps, element, decodes, true, attribs, j);
        ReadAttributesEvent(ps, element, decodes, false, attribs, j);
      }
    }
  }

  /** `parse` as written: the corrected events, except that an attribute without
      an entry is reported under its value. */
  function ParseAsWritten(t: Table, element: string, decodes: (Parser, string) -> bool,
                          attribs: seq<Attrib>): (evs: seq<AttribEvent>)
    requires t.optionalMask.Some? && NoRepeatedEntry(t.parsers, attribs)
    ensures DifferOnlyInUnexpectedName(element, attribs, evs, Parse(t, element, decodes, attribs))
  {
    ParseAsWrittenDiffers(t, element, decodes, attribs);
    ParseWith(t, element, decodes, true, attribs)
  }

  /** `parse`, with the unexpected-attribute error naming the attribute. */
  function Parse(t: Table, element: string, decodes: (Parser, string) -> bool,
                 attribs: seq<Attrib>): (evs: seq<AttribEvent>)
    requires t.optionalMask.Some? && NoRepeatedEntry(t.parsers, attribs)
    ensures |evs| >= |attribs|
    ensures evs[..|attribs|] == ReadAttributes(t.parsers, element, decodes, false, attribs).events
    ensures forall e :: e in evs[|attribs|..] ==> e.ApplyDefault? || (e.Report? && e.error.data.XmlError?
                                                                      && e.error.data.xml.category == MissingAttribute)
  {
    var st := ReadAttributes(t.parsers, element, decodes, false, attribs);
    ParseWithFinishes(t, element, decodes, false, attribs);
    assert (st.events + FinishEvents(t.parsers, element, st.visited, |t.parsers|))[..|attribs|] == st.events;
    ParseWith(t, element, decodes, false, attribs)
  }

  /** Whether some attribute has the name `name`. */
  predicate HasAttribNamed(attribs: seq<Attrib>, name: string) {
    exists j :: 0 <= j < |attribs| && attribs[j].name == name
  }

  /** The events of `parse` split into the loop's and those of the absent entries. */
  lemma ParseSplits(t: Table, element: string, decodes: (Parser, string) -> bool, attribs: seq<Attrib>)
    requires t.optionalMask.Some? && NoRepeatedEntry(t.parsers, attribs)
    ensures var st := ReadAttributes(t.parsers, element, decodes, false, attribs);
            Parse(t, element, decodes, attribs) == st.events + FinishEvents(t.parsers, element, st.visited, |t.parsers|)
  {
    ParseWithFinishes(t, element, decodes, false, attribs);
  }

  /** In a sorted table with unique names, attribute `j` maps to entry `i` exactly
      when it has the entry's name. */
  lemma LookupByName(t: Table, attribs: seq<Attrib>, i: nat)
    requires Sorted(t.parsers) && UniqueNames(t.parsers) && i < |t.parsers|
    ensures forall k :: 0 <= k < |attribs| ==>
              (Lookup(t.parsers, attribs[k].name) == Some(i) <==> attribs[k].name == t.parsers[i].name)
  {
  }

  /** The attribute named like entry `i` is stored when its value decodes and
      reported, with the entry's invalidations, when it does not; entry `i` stores
      no other attribute. */
  lemma ParseDecodesEntry(t: Table, element: string, decodes: (Parser, string) -> bool,
                          attribs: seq<Attrib>, i: nat, j: nat)
    requires t.optionalMask.Some? && Sorted(t.parsers) && UniqueNames(t.parsers)
    requires NoRepeatedEntry(t.parsers, attribs) && i < |t.parsers|
    ensures var p := t.parsers[i];
            var evs := Parse(t, element, decodes, attribs);
            && (j < |attribs| && attribs[j].name == p.name ==>
                  evs[j] == if decodes(p, attribs[j].value) then Assign(i, j) else Report(InvalidValue(p, attribs[j].value)))
            && (Assign(i, j) in evs <==> j < |attribs| && attribs[j].name == p.name && decodes(p, attribs[j].value))
  {
    var ps := t.parsers;
    var st := ReadAttributes(ps, element, decodes, false, attribs);
    var fin := FinishEvents(ps, element, st.visited, |ps|);
    ParseSplits(t, element, decodes, attribs);
    LookupByName(t, attribs, i);
    if j < |attribs| {
      ReadAttributesEvent(ps, element, decodes, false, attribs, j);
    }
    assert Assign(i, j) !in fin;
    if Assign(i, j) in st.events {
      var k :| 0 <= k < |st.events| && st.events[k] == Assign(i, j);
      ReadAttributesEvent(ps, element, decodes, false, attribs, k);
    }
  }

  /** Without an attribute of its name, entry `i` reports a missing attribute when
      required and applies its default otherwise; with one it does neither. */
  lemma ParseHonoursRequired(t: Table, element: string, decodes: (Parser, string) -> bool,
                             attribs: seq<Attrib>, i: nat)
    requires t.optionalMask.Some? && Sorted(t.parsers) && UniqueNames(t.parsers)
    requires NoRepeatedEntry(t.parsers, attribs) && i < |t.parsers|
    ensures var p := t.parsers[i];
            var evs := Parse(t, element, decodes, attribs);
            && (ApplyDefault(i) in evs <==> !HasAttribNamed(attribs, p.name) && !p.required)
            && (Report(MissingValue(p, element)) in evs <==> !HasAttribNamed(attribs, p.name) && p.required)
  {
    var ps := t.parsers;
    var p := ps[i];
    var st := ReadAttributes(ps, element, decodes, false, attribs);
    var fin := FinishEvents(ps, element, st.visited, |ps|);
    ParseSplits(t, element, decodes, attribs);
    LookupByName(t, attribs, i);
    ReadAttributesVisited(ps, element, decodes, false, attribs, i);
    assert i in st.visited <==> HasAttribNamed(attribs, p.name);
    var missing := Report(MissingValue(p, element));
    if missing in st.events {
      var k :| 0 <= k < |st.events| && st.events[k] == missing;
      ReadAttributesEvent(ps, element, decodes, false, attribs, k);
    }
    if missing in fin {
      FinishReportsOnlyMissing(ps, element, st.visited, |ps|, i);
    }
    if ApplyDefault(i) in st.events {
      var k :| 0 <= k < |st.events| && st.events[k] == ApplyDefault(i);
      ReadAttributesEvent(ps, element, decodes, false, attribs, k);
    }
  }

  /** In a sorted table, an attribute without an entry is reported, naming the
      attribute; the error is not fatal. */
  lemma UnexpectedAttributeReported(t: Table, element: string, decodes: (Parser, string) -> bool,
                                    attribs: seq<Attrib>, j: nat)
    requires t.optionalMask.Some? && Sorted(t.parsers) && NoRepeatedEntry(t.parsers, attribs) && j < |attribs|
    requires forall i :: 0 <= i < |t.parsers| ==> t.parsers[i].name != attribs[j].name
    ensures Parse(t, element, decodes, attribs)[j] == Report(UnexpectedAttribute(element, attribs[j]))
    ensures Parse(t, element, decodes, attribs)[j].error.data.xml.Description()
            == "XML element <" + element + "> has unexpected attribute named " + attribs[j].name
  {
    ReadAttributesEvent(t.parsers, element, decodes, false, attribs, j);
  }

  /** As written, an attribute without an entry is reported with its value in the
      place of its name. */
  lemma UnexpectedAttributeAsWrittenReported(t: Table, element: string, decodes: (Parser, string) -> bool,
                                             attribs: seq<Attrib>, j: nat)
    requires t.optionalMask.Some? && Sorted(t.parsers) && NoRepeatedEntry(t.parsers, attribs) && j < |attribs|
    requires forall i :: 0 <= i < |t.parsers| ==> t.parsers[i].name != attribs[j].name
    ensures |ParseAsWritten(t, element, decodes, attribs)| > j
    ensures ParseAsWritten(t, element, decodes, attribs)[j] == Report(UnexpectedAttributeAsWritten(element, attribs[j]))
    ensures ParseAsWritten(t, element, decodes, attribs)[j].error.data.xml.Description()
            == "XML element <" + element + "> has unexpected attribute named " + attribs[j].value
  {
    ReadAttributesEvent(t.parsers, element, decodes, true, attribs, j);
    ParseWithFinishes(t, element, decodes, true, attribs);
  }

  /** The attribute `fluff='blabla'` of `<elem>`: the source's error reads "has
      unexpected attribute named blabla", the value, where the corrected error names
      `fluff`. */
  lemma UnexpectedAttributeNamesValue()
    ensures UnexpectedAttributeAsWritten("elem", Attrib("fluff", "blabla")).data.xml.Description()
            == "XML element <" + "elem" + "> has unexpected attribute named " + "blabla"
    ensures UnexpectedAttributeAsWritten("elem", Attrib("fluff", "blabla")).data.xml.Description()
            != UnexpectedAttribute("elem", Attrib("fluff", "blabla")).data.xml.Description()
  {
    var asWritten := UnexpectedAttributeAsWritten("elem", Attrib("fluff", "blabla")).data.xml.Description();
    var corrected := UnexpectedAttribute("elem", Attrib("fluff", "blabla")).data.xml.Description();
    assert |asWritten| == |corrected| + 1;
  }

  /** `parseXmlAttrib<T>` through `T::parse`: any error makes it throw
      `invalid_argument` carrying the value. */
  function ParseXmlAttribVia<T>(r: ParseResult<T>, value: string): (out: Result<T, string>)
    ensures out.Success? <==> r.errors == []
    ensures out.Success? ==> out.value == r.value
    ensures out.Failure? ==> out.error == value
  {
    if r.errors != [] then Failure(value) else Success(r.value)
  }

  /** `parseXmlAttrib<bool>`: "true" and "1" are true, "false" and "0" false; any other
      text throws `invalid_argument` carrying it. */
  function ParseBool(value: string): (out: Result<bool, string>)
    ensures out.Success? <==> value in {"true", "1", "false", "0"}
    ensures out.Success? ==> (out.value <==> value in {"true", "1"})
    ensures out.Failure? ==> out.error == value
  {
    if value == "true" then Success(true)
    else if value == "false" then Success(false)
    else if value == "1" then Success(true)
    else if value == "0" then Success(false)
    else Failure(value)
  }

  /** The text the writer uses for a boolean. */
  function BoolText(b: bool): string {
    if b then "true" else "false"
  }

  /** Both spellings of a boolean read back as that boolean. */
  lemma ParseBoolRoundTrip(b: bool)
    ensures ParseBool(BoolText(b)) == Success(b)
    ensures ParseBool(if b then "1" else "0") == Success(b)
  {
  }

  /** `parseXmlAttrib<std::string>`: every text is accepted unchanged. */
  function ParseString(value: string): (out: Result<string, string>)
    ensures out.Success? && out.value == value
  {
    Success(value)
  }

  /** The value of the first attribute named `name` (`TiXmlElement::Attribute`). */
  function FindAttrib(attribs: seq<Attrib>, name: string): (r: Option<nat>)
    ensures r.None? <==> !HasAttribNamed(attribs, name)
    ensures r.Some? ==> r.value < |attribs| && attribs[r.value].name == name
                        && forall k :: 0 <= k < r.value ==> attribs[k].name != name
    decreases |attribs|
  {
    if |attribs| == 0 then None
    else if attribs[0].name == name then Some(0)
    else
      match FindAttrib(attribs[1..], name)
      case None => None
      case Some(k) => Some(k + 1)
  }

  /** `parseField`: the attribute must be present (`XmlReader::getAttribute` throws
      otherwise) and its value must decode; `decode` stands for `parseXmlAttrib<FieldT>`. */
  function ParseField<T>(attribs: seq<Attrib>, name: string, decode: string -> Result<T, string>)
    : (out: Result<T, string>)
    ensures !HasAttribNamed(attribs, name) ==> out == Failure("Attribute '" + name + ". expected.")
    ensures HasAttribNamed(attribs, name) ==>
              exists j :: 0 <= j < |attribs| && attribs[j].name == name && out == decode(attribs[j].value)
                          && forall k :: 0 <= k < j ==> attribs[k].name != name
  {
    match FindAttrib(attribs, name)
    case None => Failure("Attribute '" + name + ". expected.")
    case Some(j) => decode(attribs[j].value)
  }
}
