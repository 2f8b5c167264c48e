/** The parser table shared by `XmlChildElementParsers` and `XmlAttributeParsers`:
    named entries, `finalize` (sort by name, compute the optional mask) and the
    binary search of `parse`. */
module ParserTables {
  import opened Wrappers

  /** `std::string::operator<`: lexicographic on characters, a proper prefix first. */
  predicate NameLess(a: string, b: string)
    decreases |a|
  {
    if |a| == 0 then |b| > 0
    else if |b| == 0 then false
    else if a[0] != b[0] then a[0] < b[0]
    else NameLess(a[1..], b[1..])
  }

  lemma {:induction false} NameLessIrreflexive(a: string)
    ensures !NameLess(a, a)
    decreases |a|
  {
    if |a| > 0 {
      NameLessIrreflexive(a[1..]);
    }
  }

  lemma {:induction false} NameLessTrichotomy(a: string, b: string)
    ensures NameLess(a, b) || a == b || NameLess(b, a)
    ensures !(NameLess(a, b) && NameLess(b, a))
    decreases |a|
  {
    if |a| > 0 && |b| > 0 && a[0] == b[0] {
      NameLessTrichotomy(a[1..], b[1..]);
      if a[1..] == b[1..] {
        assert a == [a[0]] + a[1..] && b == [b[0]] + b[1..];
      }
    }
  }

  lemma {:induction false} NameLessTransitive(a: string, b: string, c: string)
    requires NameLess(a, b) && NameLess(b, c)
    ensures NameLess(a, c)
    decreases |a|
  {
    if |a| > 0 && a[0] == b[0] && b[0] == c[0] {
      NameLessTransitive(a[1..], b[1..], c[1..]);
    }
  }

  /** `std::string::compare`: negative, zero or positive as `a` sorts before, equals or after `b`. */
  function Compare(a: string, b: string): (c: int)
    ensures c < 0 <==> NameLess(a, b)
    ensures c == 0 <==> a == b
    ensures c > 0 <==> NameLess(b, a)
  {
    NameLessTrichotomy(a, b);
    NameLessIrreflexive(a);
    if NameLess(a, b) then -1 else if a == b then 0 else 1
  }

  /** One table entry: the element or attribute name, whether it must occur,
      whether it may repeat, and the invalidation bits its errors carry
      (the `parseFailArgs` the entry was added with). */
  datatype Parser = Parser(name: string, required: bool, allowMany: bool, failInvalidations: nat)

  /** The table. `optionalMask` is `None` until `finalize` (the C++ value `(uint32_t)-1`);
      the mask is kept as the set of its bit positions. */
  datatype Table = Table(parsers: seq<Parser>, optionalMask: Option<set<nat>>)

  /** A default-constructed table. */
  function EmptyTable(): (t: Table)
    ensures t.parsers == [] && t.optionalMask.None?
  {
    Table([], None)
  }

  /** `parsers_.push_back`: the `add*Parser` functions assert at most 31 entries beforehand. */
  function Add(t: Table, p: Parser): (t': Table)
    requires |t.parsers| <= 31
    ensures t'.parsers == t.parsers + [p] && t'.optionalMask == t.optionalMask
  {
    Table(t.parsers + [p], t.optionalMask)
  }

  /** Entries ordered by name, equal names allowed. */
  predicate Sorted(ps: seq<Parser>) {
    forall i, j :: 0 <= i < j < |ps| ==> !NameLess(ps[j].name, ps[i].name)
  }

  /** Insertion of one entry in front of the first entry that does not sort before it. */
  function Insert(p: Parser, ps: seq<Parser>): (r: seq<Parser>)
    requires Sorted(ps)
    ensures Sorted(r)
    ensures multiset(r) == multiset(ps) + multiset{p}
    decreases |ps|
  {
    if |ps| == 0 then [p]
    else if !NameLess(ps[0].name, p.name) then
      InsertFrontSorted(p, ps);
      [p] + ps
    else
      var rest := Insert(p, ps[1..]);
      assert ps == [ps[0]] + ps[1..];
      InsertBehindSorted(ps[0], p, ps[1..], rest);
      [ps[0]] + rest
  }

  lemma InsertFrontSorted(p: Parser, ps: seq<Parser>)
    requires Sorted(ps) && |ps| > 0 && !NameLess(ps[0].name, p.name)
    ensures Sorted([p] + ps)
  {
    forall j | 0 <= j < |ps| ensures !NameLess(ps[j].name, p.name) {
      if j > 0 && NameLess(ps[j].name, p.name) {
        NameLessTrichotomy(ps[0].name, ps[j].name);
        if NameLess(ps[0].name, ps[j].name) {
          NameLessTransitive(ps[0].name, ps[j].name, p.name);
        }
      }
    }
    forall i, j | 0 <= i < j < |[p] + ps| ensures !NameLess(([p] + ps)[j].name, ([p] + ps)[i].name) {
      if i > 0 {
        assert ([p] + ps)[i] == ps[i - 1] && ([p] + ps)[j] == ps[j - 1];
      }
    }
  }

  lemma InsertBehindSorted(first: Parser, p: Parser, tail: seq<Parser>, rest: seq<Parser>)
    requires Sorted([first] + tail) && NameLess(first.name, p.name)
    requires Sorted(rest) && multiset(rest) == multiset(tail) + multiset{p}
    ensures Sorted([first] + rest)
  {
    forall k | 0 <= k < |rest| ensures !NameLess(rest[k].name, first.name) {
      var x := rest[k];
      assert x in multiset(rest);
      if x == p {
        NameLessTrichotomy(first.name, p.name);
      } else {
        assert x in multiset(tail);
        assert x in tail;
        var m :| 0 <= m < |tail| && tail[m] == x;
        assert ([first] + tail)[0] == first && ([first] + tail)[m + 1] == x;
        assert !NameLess(x.name, first.name);
      }
    }
    forall i, j | 0 <= i < j < |[first] + rest| ensures !NameLess(([first] + rest)[j].name, ([first] + rest)[i].name) {
      if i > 0 {
        assert ([first] + rest)[i] == rest[i - 1] && ([first] + rest)[j] == rest[j - 1];
      }
    }
  }

  /** `std::sort` by name: a sorted permutation of the entries. */
  function SortByName(ps: seq<Parser>): (r: seq<Parser>)
    ensures Sorted(r)
    ensures multiset(r) == multiset(ps)
    ensures |r| == |ps|
    decreases |ps|
  {
    if |ps| == 0 then []
    else
      assert ps == [ps[0]] + ps[1..];
      Insert(ps[0], SortByName(ps[1..]))
  }

  /** The positions of the optional entries. */
  function OptionalPositions(ps: seq<Parser>): (mask: set<nat>)
    ensures forall i: nat :: i in mask <==> i < |ps| && !ps[i].required
  {
    set i: nat | i < |ps| && !ps[i].required
  }

  /** `finalize`. */
  function Finalize(t: Table): (t': Table)
    ensures Sorted(t'.parsers) && multiset(t'.parsers) == multiset(t.parsers)
    ensures t'.optionalMask.Some?
    ensures forall i: nat :: i in t'.optionalMask.value <==> i < |t'.parsers| && !t'.parsers[i].required
  {
    var sorted := SortByName(t.parsers);
    Table(sorted, Some(OptionalPositions(sorted)))
  }

  /** Finalizing keeps every entry, with its flags, and adds none. */
  lemma FinalizeKeepsEntries(t: Table, p: Parser)
    ensures p in Finalize(t).parsers <==> p in t.parsers
  {
    assert p in multiset(Finalize(t).parsers) <==> p in multiset(t.parsers);
  }

  /** The binary search of `parse` over the range `[lo, hi)`. */
  function Search(ps: seq<Parser>, name: string, lo: nat, hi: nat): (r: Option<nat>)
    requires lo <= hi <= |ps|
    ensures r.Some? ==> lo <= r.value < hi && ps[r.value].name == name
    ensures r.None? && Sorted(ps) ==> forall i :: lo <= i < hi ==> ps[i].name != name
    decreases hi - lo
  {
    if lo == hi then None
    else
      var mid := (lo + hi) / 2;
      var c := Compare(ps[mid].name, name);
      if c < 0 then Search(ps, name, mid + 1, hi)
      else if c > 0 then Search(ps, name, lo, mid)
      else Some(mid)
  }

  /** Names that occur once in the table. */
  predicate UniqueNames(ps: seq<Parser>) {
    forall i, j :: 0 <= i < j < |ps| ==> ps[i].name != ps[j].name
  }

  /** The entry for `name`, searched over the whole table: in a sorted table it fails
      exactly when no entry has the name, and with unique names it returns the
      position of that name. */
  function Lookup(ps: seq<Parser>, name: string): (r: Option<nat>)
    ensures r.Some? ==> r.value < |ps| && ps[r.value].name == name
    ensures r.None? && Sorted(ps) ==> forall i :: 0 <= i < |ps| ==> ps[i].name != name
    ensures Sorted(ps) && UniqueNames(ps) ==> forall i :: 0 <= i < |ps| ==> (r == Some(i) <==> ps[i].name == name)
  {
    Search(ps, name, 0, |ps|)
  }

  /** The loop of `parse`: `min`/`max` narrow until the range is empty or the middle matches. */
  method FindParser(ps: seq<Parser>, name: string) returns (idx: int)
    requires |ps| < 0x8000_0000
    ensures idx >= 0 ==> idx < |ps| && ps[idx].name == name
    ensures idx < 0 && Sorted(ps) ==> forall i :: 0 <= i < |ps| ==> ps[i].name != name
    ensures idx == (match Lookup(ps, name) case Some(i) => i case None => -1)
  {
    var min := 0;
    var max := |ps|;
    while true
      invariant 0 <= min <= max <= |ps|
      invariant Search(ps, name, min, max) == Lookup(ps, name)
      decreases max - min
    {
      if min == max {
        return -1;
      }
      var mid := (min + max) / 2;
      var cmpRes := Compare(ps[mid].name, name);
      if cmpRes < 0 {
        min := mid + 1;
      } else if cmpRes > 0 {
        max := mid;
      } else {
        return mid;
      }
    }
  }
}
