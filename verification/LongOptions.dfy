/** Resolution of long option names, which may be abbreviated (src/getopt.c:641-687). */
module LongOptions {
  import opened Options

  /** `struct option`; `flag` names the variable that a non-NULL flag pointer points to. */
  datatype LongOption = LongOption(name: string, hasArg: int, flag: Option<nat>, val: int)

  datatype Resolution = Exact(index: nat) | Abbreviation(index: nat) | Ambiguous | Unknown

  predicate Abbreviates(name: string, o: LongOption) {
    name <= o.name
  }

  /** Two options that do the same thing, so that abbreviating both is harmless. */
  predicate Interchangeable(o: LongOption, p: LongOption) {
    o.hasArg == p.hasArg && o.flag == p.flag && o.val == p.val
  }

  ghost predicate Named(table: seq<LongOption>, name: string) {
    exists i :: 0 <= i < |table| && table[i].name == name
  }

  /** What a name means, stated without a search order: the first exact match wins, then an abbreviation
      whose readings are all interchangeable. */
  ghost predicate Resolves(table: seq<LongOption>, name: string, r: Resolution) {
    match r
    case Exact(i) =>
      && i < |table| && table[i].name == name
      && forall j :: 0 <= j < i ==> table[j].name != name
    case Abbreviation(i) =>
      && !Named(table, name)
      && i < |table| && Abbreviates(name, table[i])
      && (forall j :: 0 <= j < i ==> !Abbreviates(name, table[j]))
      && (forall j :: 0 <= j < |table| && Abbreviates(name, table[j]) ==> Interchangeable(table[i], table[j]))
    case Ambiguous =>
      && !Named(table, name)
      && exists i, j :: 0 <= i < j < |table| && Abbreviates(name, table[i]) && Abbreviates(name, table[j])
                        && !Interchangeable(table[i], table[j])
    case Unknown =>
      forall j :: 0 <= j < |table| ==> !Abbreviates(name, table[j])
  }

  /** Every table gives every name exactly one meaning. */
  lemma ResolutionUnique(table: seq<LongOption>, name: string, r: Resolution, s: Resolution)
    requires Resolves(table, name, r) && Resolves(table, name, s)
    ensures r == s
  {
    assert forall j :: 0 <= j < |table| && table[j].name == name ==> Abbreviates(name, table[j]);
    if r.Exact? && s.Exact? {
      assert !(r.index < s.index) && !(s.index < r.index);
    } else if r.Abbreviation? && s.Abbreviation? {
      assert !(r.index < s.index) && !(s.index < r.index);
    }
  }

  /** The first index from `from` on whose entry satisfies `p`, or the table's length. */
  function First(table: seq<LongOption>, p: LongOption -> bool, from: nat := 0): (i: nat)
    requires from <= |table|
    ensures from <= i <= |table|
    ensures forall j :: from <= j < i ==> !p(table[j])
    ensures i < |table| ==> p(table[i])
    decreases |table| - from
  {
    if from == |table| || p(table[from]) then from else First(table, p, from + 1)
  }

  function Resolve(table: seq<LongOption>, name: string): (r: Resolution)
    ensures Resolves(table, name, r)
  {
    var e := First(table, (o: LongOption) => o.name == name);
    var a := First(table, (o: LongOption) => Abbreviates(name, o));
    if e < |table| then Exact(e)
    else if a == |table| then Unknown
    else
      var b := First(table, (o: LongOption) => Abbreviates(name, o) && !Interchangeable(table[a], o), a);
      if b == |table| then Abbreviation(a) else Ambiguous
  }

  /** No entry has exactly the name, and two that begin with it differ in what they do. */
  ghost predicate Conflicting(table: seq<LongOption>, name: string) {
    && (forall i :: 0 <= i < |table| ==> table[i].name != name)
    && exists i, j :: 0 <= i < j < |table| && name <= table[i].name && name <= table[j].name
                      && (table[i].hasArg != table[j].hasArg || table[i].flag != table[j].flag
                          || table[i].val != table[j].val)
  }

  /** The meaning of a name, field by field. */
  lemma NameMeans(table: seq<LongOption>, name: string, r: Resolution)
    requires Resolves(table, name, r)
    ensures r.Ambiguous? <==> Conflicting(table, name)
    ensures r.Unknown? <==> forall i :: 0 <= i < |table| ==> !(name <= table[i].name)
    ensures r.Exact? <==> exists i :: 0 <= i < |table| && table[i].name == name
    ensures r.Exact? ==> r.index < |table| && table[r.index].name == name
    ensures r.Exact? ==> forall i :: 0 <= i < r.index ==> table[i].name != name
    ensures r.Abbreviation? ==> r.index < |table| && name <= table[r.index].name
    ensures r.Abbreviation? ==> forall i :: 0 <= i < r.index ==> !(name <= table[i].name)
  {
    assert forall i :: 0 <= i < |table| && table[i].name == name ==> Abbreviates(name, table[i]);
    if r.Abbreviation? {
      forall i, j | 0 <= i < j < |table| && name <= table[i].name && name <= table[j].name
        ensures table[i].hasArg == table[j].hasArg && table[i].flag == table[j].flag && table[i].val == table[j].val
      {
        assert Abbreviates(name, table[i]) && Abbreviates(name, table[j]);
      }
    } else if r.Ambiguous? {
      var i, j :| 0 <= i < j < |table| && Abbreviates(name, table[i]) && Abbreviates(name, table[j])
                  && !Interchangeable(table[i], table[j]);
      assert name <= table[i].name && name <= table[j].name;
    }
  }

  /** The scan over the table, one pass with an early exit at an exact match. */
  method MatchLongOption(table: seq<LongOption>, name: string) returns (r: Resolution)
    ensures r == Resolve(table, name)
    ensures r.Ambiguous? <==> Conflicting(table, name)
    ensures r.Unknown? <==> forall i :: 0 <= i < |table| ==> !(name <= table[i].name)
    ensures r.Exact? <==> exists i :: 0 <= i < |table| && table[i].name == name
  {
    var pfound: Option<nat> := None;
    var exact, ambig := false, false;
    var i := 0;
    while i < |table| && !exact
      invariant 0 <= i <= |table|
      invariant !exact ==> forall j :: 0 <= j < i ==> table[j].name != name
      invariant !exact ==> (pfound.None? <==> forall j :: 0 <= j < i ==> !Abbreviates(name, table[j]))
      invariant pfound.Some? ==> pfound.value < i && Abbreviates(name, table[pfound.value])
      invariant !exact && pfound.Some? ==> forall j :: 0 <= j < pfound.value ==> !Abbreviates(name, table[j])
      invariant !exact && pfound.Some? ==> (!ambig <==> forall j :: 0 <= j < i && Abbreviates(name, table[j])
                                                          ==> Interchangeable(table[pfound.value], table[j]))
      invariant !exact && ambig ==> pfound.Some?
      invariant exact ==> pfound.Some? && Resolves(table, name, Exact(pfound.value))
      decreases |table| - i, !exact
    {
      if name <= table[i].name {
        if |name| == |table[i].name| {
          pfound, exact := Some(i), true;
        } else if pfound.None? {
          pfound := Some(i);
        } else if !Interchangeable(table[pfound.value], table[i]) {
          ambig := true;
        }
      }
      i := i + 1;
    }
    r := if ambig && !exact then Ambiguous
         else if pfound.None? then Unknown
         else if exact then Exact(pfound.value)
         else Abbreviation(pfound.value);
    ResolutionUnique(table, name, r, Resolve(table, name));
    NameMeans(table, name, r);
  }
}
