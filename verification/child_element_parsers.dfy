/** `XmlChildElementParsers`: the child elements of one XML element are matched
    against a finalized parser table; unmatched children, repeats and absent
    entries are reported, absent optional entries get their default. The XML
    reader is replaced by the sequence of child element names. */
module ChildElementParsers {
  import opened Wrappers
  import opened ParseResults
  import opened ParserTables

  /** `Multiplicity`. */
  datatype Multiplicity = ZeroOrOne | One | ZeroOrMore | OneOrMore

  /** The entry `addParser` and `addVectorElementParser` push. */
  function MultiplicityParser(name: string, m: Multiplicity, failInvalidations: nat): (p: Parser)
    ensures p.name == name && p.failInvalidations == failInvalidations
    ensures p.required <==> m == One || m == OneOrMore
    ensures p.allowMany <==> m == ZeroOrMore || m == OneOrMore
  {
    Parser(name, m == One || m == OneOrMore, m == ZeroOrMore || m == OneOrMore, failInvalidations)
  }

  /** The multiplicity an entry's two flags encode: the flags determine it. */
  function MultiplicityOf(p: Parser): (m: Multiplicity)
    ensures MultiplicityParser(p.name, m, p.failInvalidations) == p
  {
    if p.required then (if p.allowMany then OneOrMore else One)
    else (if p.allowMany then ZeroOrMore else ZeroOrOne)
  }

  /** `addFieldParser` and `addSetterParser`: required, at most once. */
  function FieldParser(name: string, failInvalidations: nat): (p: Parser)
    ensures p == MultiplicityParser(name, One, failInvalidations)
    ensures p.required && !p.allowMany
  {
    Parser(name, true, false, failInvalidations)
  }

  /** Both `addOptionalFieldParser` overloads and `addOptionalSetterParser`: optional,
      at most once, with a default applied when absent. */
  function OptionalFieldParser(name: string, failInvalidations: nat): (p: Parser)
    ensures p == MultiplicityParser(name, ZeroOrOne, failInvalidations)
    ensures !p.required && !p.allowMany
  {
    Parser(name, false, false, failInvalidations)
  }

  /** What `parse` does, in order: append an error, run entry `parser` on child
      number `child`, or apply the default of entry `parser`. */
  datatype ChildEvent = Report(error: XodrParseError) | Invoke(parser: nat, child: nat) | ApplyDefault(parser: nat)

  /** The error for a child without an entry: plain, it invalidates nothing. */
  function UnexpectedChild(parent: string, child: string): (e: XodrParseError)
    ensures !e.IsFatal() && e.invalidations == 0
  {
    PlainError(XmlError(XmlParseError(UnexpectedChildElement, parent, child)))
  }

  /** The error an entry's `setErrorFunc_` appends: it carries the entry's `parseFailArgs`. */
  function EntryError(p: Parser, category: Category, parent: string): (e: XodrParseError)
    ensures e.invalidations == p.failInvalidations
    ensures e.data == XmlError(XmlParseError(category, parent, p.name))
  {
    XodrParseError(XmlError(XmlParseError(category, parent, p.name)), p.failInvalidations)
  }

  /** The loop state: the visited mask (as a set of positions) and the events so far. */
  datatype LoopState = LoopState(visited: set<nat>, events: seq<ChildEvent>)

  /** One child: no entry, a repeat, or a first match. The entry runs in both match cases. */
  function ChildStep(ps: seq<Parser>, parent: string, st: LoopState, j: nat, child: string): (st': LoopState)
    ensures Lookup(ps, child).None? ==>
              st' == LoopState(st.visited, st.events + [Report(UnexpectedChild(parent, child))])
    ensures Lookup(ps, child).Some? ==>
              var i := Lookup(ps, child).value;
              && st'.visited == st.visited + {i}
              && st'.events == st.events
                               + (if i in st.visited && !ps[i].allowMany
                                  then [Report(EntryError(ps[i], DuplicateChildElement, parent))] else [])
                               + [Invoke(i, j)]
  {
    match Lookup(ps, child)
    case None => LoopState(st.visited, st.events + [Report(UnexpectedChild(parent, child))])
    case Some(i) =>
      var dup := if i in st.visited && !ps[i].allowMany
                 then [Report(EntryError(ps[i], DuplicateChildElement, parent))] else [];
      LoopState(st.visited + {i}, st.events + dup + [Invoke(i, j)])
  }

  /** The `while (!xml.tryReadEndElement())` loop over the children, in order. */
  function ReadChildren(ps: seq<Parser>, parent: string, children: seq<string>): (st: LoopState)
    ensures forall i :: i in st.visited ==> i < |ps|
    decreases |children|
  {
    if |children| == 0 then LoopState({}, [])
    else
      var n := |children| - 1;
      ChildStep(ps, parent, ReadChildren(ps, parent, children[..n]), n, children[n])
  }

  /** How many of the children the search maps to entry `i`. */
  function FoundCount(ps: seq<Parser>, children: seq<string>, i: nat): (c: nat)
    ensures c <= |children|
    decreases |children|
  {
    if |children| == 0 then 0
    else
      var n := |children| - 1;
      FoundCount(ps, children[..n], i) + (if Lookup(ps, children[n]) == Some(i) then 1 else 0)
  }

  /** Entry `i` is visited exactly when some child maps to it. */
  lemma {:induction false} ReadChildrenVisited(ps: seq<Parser>, parent: string, children: seq<string>, i: nat)
    ensures i in ReadChildren(ps, parent, children).visited <==> FoundCount(ps, children, i) > 0
    decreases |children|
  {
    if |children| > 0 {
      ReadChildrenVisited(ps, parent, children[..|children| - 1], i);
    }
  }

  /** Entry `i` runs on exactly the children that map to it. */
  lemma ReadChildrenVisits(ps: seq<Parser>, parent: string, children: seq<string>, i: nat)
    ensures i in ReadChildren(ps, parent, children).visited <==> FoundCount(ps, children, i) > 0
    ensures forall j: nat :: Invoke(i, j) in ReadChildren(ps, parent, children).events <==>
                          0 <= j < |children| && Lookup(ps, children[j]) == Some(i)
  {
    ReadChildrenVisited(ps, parent, children, i);
    ReadChildrenInvokes(ps, parent, children, i);
  }

  lemma {:induction false} ReadChildrenInvokes(ps: seq<Parser>, parent: string, children: seq<string>, i: nat)
    ensures forall j: nat :: Invoke(i, j) in ReadChildren(ps, parent, children).events <==>
                          0 <= j < |children| && Lookup(ps, children[j]) == Some(i)
    decreases |children|
  {
    if |children| > 0 {
      var n := |children| - 1;
      var prev := ReadChildren(ps, parent, children[..n]);
      var st := ChildStep(ps, parent, prev, n, children[n]);
      ReadChildrenInvokes(ps, parent, children[..n], i);
      assert forall j :: 0 <= j < n ==> children[..n][j] == children[j];
      assert ReadChildren(ps, parent, children) == st;
      forall j: nat
        ensures Invoke(i, j) in st.events <==>
                Invoke(i, j) in prev.events || (j == n && Lookup(ps, children[n]) == Some(i))
      {
      }
    }
  }

  /** Every child without an entry is reported, with its own name. */
  lemma {:induction false} ReadChildrenReportsUnexpected(ps: seq<Parser>, parent: string, children: seq<string>, j: nat)
    requires j < |children| && Lookup(ps, children[j]).None?
    ensures Report(UnexpectedChild(parent, children[j])) in ReadChildren(ps, parent, children).events
    decreases |children|
  {
    var n := |children| - 1;
    if j < n {
      ReadChildrenReportsUnexpected(ps, parent, children[..n], j);
      assert children[..n][j] == children[j];
    }
  }

  /** How many duplicates `c` matches of entry `p` should report. */
  function Repeats(p: Parser, c: nat): nat {
    if p.allowMany || c == 0 then 0 else c - 1
  }

  /** With unique names, an entry that may not repeat reports one duplicate for
      every matching child after the first. */
  lemma {:induction false} ReadChildrenDuplicates(ps: seq<Parser>, parent: string, children: seq<string>, i: nat)
    requires UniqueNames(ps) && i < |ps|
    ensures multiset(ReadChildren(ps, parent, children).events)[Report(EntryError(ps[i], DuplicateChildElement, parent))]
            == Repeats(ps[i], FoundCount(ps, children, i))
    decreases |children|
  {
    if |children| > 0 {
      var n := |children| - 1;
      var prev := ReadChildren(ps, parent, children[..n]);
      var found := Lookup(ps, children[n]) == Some(i);
      var c := FoundCount(ps, children[..n], i);
      assert FoundCount(ps, children, i) == c + (if found then 1 else 0);
      ReadChildrenDuplicates(ps, parent, children[..n], i);
      ReadChildrenVisited(ps, parent, children[..n], i);
      StepDuplicates(ps, parent, prev, n, children[n], i);
      RepeatsStep(ps[i], c, found);
      assert ReadChildren(ps, parent, children) == ChildStep(ps, parent, prev, n, children[n]);
    }
  }

  /** One more match adds a repeat exactly when there was a match before. */
  lemma RepeatsStep(p: Parser, c: nat, found: bool)
    ensures Repeats(p, c + (if found then 1 else 0)) == Repeats(p, c) + (if found && c > 0 && !p.allowMany then 1 else 0)
  {
  }

  /** One child adds a duplicate of entry `i` exactly when it maps to `i` a second time. */
  lemma StepDuplicates(ps: seq<Parser>, parent: string, st: LoopState, j: nat, child: string, i: nat)
    requires UniqueNames(ps) && i < |ps|
    ensures var dupI := Report(EntryError(ps[i], DuplicateChildElement, parent));
            multiset(ChildStep(ps, parent, st, j, child).events)[dupI]
            == multiset(st.events)[dupI]
               + (if Lookup(ps, child) == Some(i) && i in st.visited && !ps[i].allowMany then 1 else 0)
  {
    match Lookup(ps, child)
    case None =>
    case Some(k) =>
      if k != i {
        DuplicateErrorsDiffer(ps, parent, i, k);
      }
  }

  /** Distinct entries of a table with unique names report distinct duplicates. */
  lemma DuplicateErrorsDiffer(ps: seq<Parser>, parent: string, i: nat, k: nat)
    requires UniqueNames(ps) && i < |ps| && k < |ps| && i != k
    ensures Report(EntryError(ps[k], DuplicateChildElement, parent)) != Report(EntryError(ps[i], DuplicateChildElement, parent))
  {
  }

  /** The loop after the children: every entry not visited gets its error (required)
      or its default (optional), in table order. */
  function FinishEvents(ps: seq<Parser>, parent: string, visited: set<nat>, n: nat): (evs: seq<ChildEvent>)
    requires n <= |ps|
    ensures forall i: nat :: ApplyDefault(i) in evs <==> i < n && i !in visited && !ps[i].required
    ensures forall i: nat :: i < n && i !in visited && ps[i].required ==>
              Report(EntryError(ps[i], MissingChildElement, parent)) in evs
    ensures forall e :: e in evs ==> e.ApplyDefault? || e.Report?
    decreases n
  {
    if n == 0 then []
    else
      var i := n - 1;
      FinishEvents(ps, parent, visited, i)
      + (if i in visited then []
         else if ps[i].required then [Report(EntryError(ps[i], MissingChildElement, parent))]
         else [ApplyDefault(i)])
  }

  /** With unique names, only entries that are absent and required report a missing child. */
  lemma {:induction false} FinishReportsOnlyMissing(ps: seq<Parser>, parent: string, visited: set<nat>, n: nat, i: nat)
    requires n <= |ps| && i < |ps| && UniqueNames(ps)
    requires Report(EntryError(ps[i], MissingChildElement, parent)) in FinishEvents(ps, parent, visited, n)
    ensures i < n && i !in visited && ps[i].required
    decreases n
  {
    var k := n - 1;
    if Report(EntryError(ps[i], MissingChildElement, parent)) in FinishEvents(ps, parent, visited, k) {
      FinishReportsOnlyMissing(ps, parent, visited, k, i);
    }
  }

  /** `parse`: the children, then the absent entries. It asserts a finalized table. */
  function Parse(t: Table, parent: string, children: seq<string>): (evs: seq<ChildEvent>)
    requires t.optionalMask.Some?
    ensures forall e :: e in evs && e.Invoke? ==> e.parser < |t.parsers| && e.child < |children|
  {
    var st := ReadChildren(t.parsers, parent, children);
    forall e | e in st.events && e.Invoke?
      ensures e.parser < |t.parsers| && e.child < |children|
    {
      ReadChildrenVisits(t.parsers, parent, children, e.parser);
    }
    st.events + FinishEvents(t.parsers, parent, st.visited, |t.parsers|)
  }

  /** Whether some child has the name `name`. */
  predicate HasChildNamed(children: seq<string>, name: string) {
    exists j :: 0 <= j < |children| && children[j] == name
  }

  /** The multiplicity rules of `parse` for a finalized table whose names are unique:
      an entry runs once for every child of its name; if there is none it reports a
      missing child when required and applies its default otherwise. */
  lemma ParseHonoursMultiplicity(t: Table, parent: string, children: seq<string>, i: nat)
    requires t.optionalMask.Some? && Sorted(t.parsers) && UniqueNames(t.parsers) && i < |t.parsers|
    ensures var p := t.parsers[i];
            && (forall j: nat :: Invoke(i, j) in Parse(t, parent, children) <==> 0 <= j < |children| && children[j] == p.name)
            && (ApplyDefault(i) in Parse(t, parent, children) <==> !HasChildNamed(children, p.name) && !p.required)
            && (Report(EntryError(p, MissingChildElement, parent)) in Parse(t, parent, children) <==>
                  !HasChildNamed(children, p.name) && p.required)
  {
    var ps := t.parsers;
    var p := ps[i];
    var st := ReadChildren(ps, parent, children);
    var fin := FinishEvents(ps, parent, st.visited, |ps|);
    ReadChildrenVisits(ps, parent, children, i);
    assert Parse(t, parent, children) == st.events + fin;
    assert forall j :: 0 <= j < |children| ==> (Lookup(ps, children[j]) == Some(i) <==> children[j] == p.name);
    FoundCountPositive(ps, children, i);
    assert i in st.visited <==> HasChildNamed(children, p.name);
    var missing := Report(EntryError(p, MissingChildElement, parent));
    if missing in st.events {
      ReadChildrenReportsNoMissing(ps, parent, children);
      assert false;
    }
    if missing in fin {
      FinishReportsOnlyMissing(ps, parent, st.visited, |ps|, i);
    }
    if ApplyDefault(i) in st.events {
      ReadChildrenReportsNoMissing(ps, parent, children);
      assert false;
    }
  }

  /** Some child maps to entry `i` exactly when the count is positive. */
  lemma {:induction false} FoundCountPositive(ps: seq<Parser>, children: seq<string>, i: nat)
    ensures FoundCount(ps, children, i) > 0 <==> exists j :: 0 <= j < |children| && Lookup(ps, children[j]) == Some(i)
    decreases |children|
  {
    if |children| > 0 {
      var n := |children| - 1;
      FoundCountPositive(ps, children[..n], i);
      assert forall j :: 0 <= j < n ==> children[..n][j] == children[j];
    }
  }

  /** The loop over the children neither applies defaults nor reports missing children. */
  lemma {:induction false} ReadChildrenReportsNoMissing(ps: seq<Parser>, parent: string, children: seq<string>)
    ensures forall e :: e in ReadChildren(ps, parent, children).events ==>
              !e.ApplyDefault? && (e.Report? && e.error.data.XmlError? ==> e.error.data.xml.category != MissingChildElement)
    decreases |children|
  {
    if |children| > 0 {
      ReadChildrenReportsNoMissing(ps, parent, children[..|children| - 1]);
    }
  }

  /** With unique names, a child is reported as unexpected exactly when no entry has its name. */
  lemma UnexpectedChildrenReported(t: Table, parent: string, children: seq<string>, j: nat)
    requires t.optionalMask.Some? && Sorted(t.parsers) && j < |children|
    requires forall i :: 0 <= i < |t.parsers| ==> t.parsers[i].name != children[j]
    ensures Report(UnexpectedChild(parent, children[j])) in Parse(t, parent, children)
    ensures forall i: nat :: Invoke(i, j) !in Parse(t, parent, children)
  {
    ReadChildrenReportsUnexpected(t.parsers, parent, children, j);
    forall i: nat ensures Invoke(i, j) !in Parse(t, parent, children) {
      ReadChildrenVisits(t.parsers, parent, children, i);
    }
  }

  /** `parseOneOrMore`: the function runs on every child named `elemName`, in order;
      other children are skipped silently; with no match one missing-child error is
      appended, carrying `parseFailArgs`. */
  function ParseOneOrMore(parent: string, children: seq<string>, elemName: string, failInvalidations: nat)
    : (r: (seq<nat>, seq<XodrParseError>))
    ensures forall j :: j in r.0 <==> 0 <= j < |children| && children[j] == elemName
    ensures r.0 == [] <==> forall j :: 0 <= j < |children| ==> children[j] != elemName
    ensures forall a, b :: 0 <= a < b < |r.0| ==> r.0[a] < r.0[b]
    ensures r.1 == [] <==> |r.0| > 0
    ensures r.1 != [] ==>
              r.1 == [XodrParseError(XmlError(XmlParseError(MissingChildElement, parent, elemName)), failInvalidations)]
  {
    var calls := Matching(children, elemName);
    if |calls| > 0 then (calls, [])
    else
      assert forall j :: 0 <= j < |children| ==> children[j] != elemName by {
        forall j | 0 <= j < |children| ensures children[j] != elemName {
          assert j !in calls;
        }
      }
      (calls, [XodrParseError(XmlError(XmlParseError(MissingChildElement, parent, elemName)), failInvalidations)])
  }

  /** The positions of the children named `elemName`, ascending. */
  function Matching(children: seq<string>, elemName: string): (calls: seq<nat>)
    ensures forall j :: j in calls <==> 0 <= j < |children| && children[j] == elemName
    ensures calls == [] <==> forall j :: 0 <= j < |children| ==> children[j] != elemName
    ensures forall a, b :: 0 <= a < b < |calls| ==> calls[a] < calls[b]
    ensures forall a :: 0 <= a < |calls| ==> calls[a] < |children|
    decreases |children|
  {
    if |children| == 0 then []
    else
      var n := |children| - 1;
      var prev := Matching(children[..n], elemName);
      assert forall j :: 0 <= j < n ==> children[..n][j] == children[j];
      if children[n] == elemName then prev + [n] else prev
  }
}
