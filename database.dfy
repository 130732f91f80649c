/** The term store: the four tables of medicalgrouplibrary/database.py as
    sequences of rows, the constraints the schema declares on them, and the
    `.first()` / `.all()` query shapes the core uses. */
module Database {
  import opened Wrappers

  /** A canonical analysis name (table standard_names). */
  datatype StandardName = StandardName(id: nat, name: string)

  /** An alias of a canonical name (table analysis_synonyms). */
  datatype Synonym = Synonym(standardNameId: nat, text: string)

  /** A measurement unit scoped to a canonical name (table units). */
  datatype Unit = Unit(id: nat, standardNameId: nat, text: string, isStandard: bool)

  /** A directed, formula-bearing conversion edge (table unit_conversions). */
  datatype ConversionRow = ConversionRow(fromUnitId: nat, toUnitId: nat, formula: string, standardNameId: nat)

  /** A snapshot of the whole store, rows in insertion order. */
  datatype Tables = Tables(
    names: seq<StandardName>,
    synonyms: seq<Synonym>,
    units: seq<Unit>,
    conversions: seq<ConversionRow>)

  /** What an administrative insert did; each value stands for one of the
      messages the repository prints. */
  datatype AddOutcome = Added | NameMissing | UnitMissing | AlreadyExists | ConstraintViolation

  /** The tables after an insert, and which message the insert printed. */
  datatype Insert = Insert(tables: Tables, outcome: AddOutcome)

  /** Index of the first row satisfying `p`: a filtered query's `.first()`. */
  function Find<T>(s: seq<T>, p: T -> bool): (r: Option<nat>)
    ensures r.Some? ==> r.value < |s| && p(s[r.value])
    ensures r.Some? ==> forall j :: 0 <= j < r.value ==> !p(s[j])
    ensures r.None? ==> forall j :: 0 <= j < |s| ==> !p(s[j])
  {
    if s == [] then None
    else if p(s[0]) then Some(0)
    else match Find(s[1..], p)
      case None => None
      case Some(i) => Some(i + 1)
  }

  /** The first row satisfying `p`, if any. */
  function First<T>(s: seq<T>, p: T -> bool): (r: Option<T>)
    ensures r.Some? ==> r.value in s && p(r.value)
    ensures r.None? <==> forall j :: 0 <= j < |s| ==> !p(s[j])
  {
    match Find(s, p)
    case None => None
    case Some(i) => Some(s[i])
  }

  /** The rows satisfying `p`, in table order: a filtered query's `.all()`. */
  function Filter<T>(s: seq<T>, p: T -> bool): (r: seq<T>)
    ensures |r| <= |s|
    ensures forall i :: 0 <= i < |r| ==> r[i] in s && p(r[i])
    ensures forall i :: 0 <= i < |s| && p(s[i]) ==> s[i] in r
  {
    if s == [] then [] else (if p(s[0]) then [s[0]] else []) + Filter(s[1..], p)
  }

  /** `.all()` returns each matching row exactly as often as the table holds
      it, and no other row. */
  lemma {:induction false} FilterCount<T>(s: seq<T>, p: T -> bool, x: T)
    ensures multiset(Filter(s, p))[x] == if p(x) then multiset(s)[x] else 0
  {
    if s != [] {
      FilterCount(s[1..], p, x);
      assert s == [s[0]] + s[1..];
      var head := if p(s[0]) then [s[0]] else [];
      assert Filter(s, p) == head + Filter(s[1..], p);
      assert multiset(Filter(s, p)) == multiset(head) + multiset(Filter(s[1..], p));
    }
  }

  /** `.all()` keeps table order: filtering a concatenation filters each part
      and concatenates the results. */
  lemma {:induction false} FilterAppend<T>(a: seq<T>, b: seq<T>, p: T -> bool)
    ensures Filter(a + b, p) == Filter(a, p) + Filter(b, p)
  {
    if a != [] {
      assert (a + b)[0] == a[0];
      assert (a + b)[1..] == a[1..] + b;
      FilterAppend(a[1..], b, p);
    } else {
      assert a + b == b;
    }
  }

  function NameById(names: seq<StandardName>, id: nat): Option<StandardName>
  {
    First(names, (n: StandardName) => n.id == id)
  }

  function NameByText(names: seq<StandardName>, name: string): Option<StandardName>
  {
    First(names, (n: StandardName) => n.name == name)
  }

  function UnitById(units: seq<Unit>, id: nat): Option<Unit>
  {
    First(units, (u: Unit) => u.id == id)
  }

  function UnitByText(units: seq<Unit>, standardNameId: nat, text: string): Option<Unit>
  {
    First(units, (u: Unit) => u.standardNameId == standardNameId && u.text == text)
  }

  /** The units of a canonical name, each as often as the table holds it. */
  function UnitsOf(units: seq<Unit>, standardNameId: nat): (r: seq<Unit>)
    ensures forall u :: multiset(r)[u] == if u.standardNameId == standardNameId then multiset(units)[u] else 0
  {
    var p := (u: Unit) => u.standardNameId == standardNameId;
    assert forall u :: multiset(Filter(units, p))[u] == if p(u) then multiset(units)[u] else 0 by {
      forall u {
        FilterCount(units, p, u);
      }
    }
    Filter(units, p)
  }

  function ConversionsOf(conversions: seq<ConversionRow>, standardNameId: nat): seq<ConversionRow>
  {
    Filter(conversions, (c: ConversionRow) => c.standardNameId == standardNameId)
  }

  /** The first unit of a canonical name flagged standard. */
  function StandardUnitOf(units: seq<Unit>, standardNameId: nat): Option<Unit>
  {
    First(units, (u: Unit) => u.standardNameId == standardNameId && u.isStandard)
  }

  /** The first conversion row from one unit to another under a canonical name. */
  function ConversionBetween(conversions: seq<ConversionRow>, fromUnitId: nat, toUnitId: nat, standardNameId: nat)
    : Option<ConversionRow>
  {
    First(conversions, (c: ConversionRow) =>
      c.fromUnitId == fromUnitId && c.toUnitId == toUnitId && c.standardNameId == standardNameId)
  }

  /** The id SQLite gives a new row of an INTEGER PRIMARY KEY table: one
      more than the largest id in use, and 1 in an empty table. */
  function NextUnitId(units: seq<Unit>): (r: nat)
    ensures r >= 1
    ensures forall i :: 0 <= i < |units| ==> units[i].id < r
    ensures units == [] ==> r == 1
    ensures units != [] ==> exists i :: 0 <= i < |units| && units[i].id == r - 1
    decreases |units|
  {
    if units == [] then 1
    else
      var m := NextUnitId(units[..|units| - 1]);
      var last := units[|units| - 1].id;
      assert forall i :: 0 <= i < |units| - 1 ==> units[..|units| - 1][i] == units[i];
      if last + 1 > m then last + 1 else m
  }

  /** The store invariant. Canonical names are never deleted, so their ids
      are 1, 2, 3, ... in row order. Units can be deleted, so unit ids are
      only positive and distinct, and a conversion may still name a deleted
      unit (SQLite does not enforce the foreign keys by default). The unique
      constraints of the schema hold (name; (standard_name_id, synonym);
      (standard_name_id, unit); (from_unit_id, to_unit_id)), and a synonym's
      and a unit's canonical name exist. The standard-unit flag is NOT
      required unique. */
  ghost predicate Consistent(t: Tables)
  {
    && (forall i :: 0 <= i < |t.names| ==> t.names[i].id == i + 1)
    && (forall i, j :: 0 <= i < j < |t.names| ==> t.names[i].name != t.names[j].name)
    && (forall i :: 0 <= i < |t.synonyms| ==> 1 <= t.synonyms[i].standardNameId <= |t.names|)
    && (forall i, j :: 0 <= i < j < |t.synonyms| ==> t.synonyms[i] != t.synonyms[j])
    && (forall i :: 0 <= i < |t.units| ==> 1 <= t.units[i].id)
    && (forall i, j :: 0 <= i < j < |t.units| ==> t.units[i].id != t.units[j].id)
    && (forall i :: 0 <= i < |t.units| ==> 1 <= t.units[i].standardNameId <= |t.names|)
    && (forall i, j :: 0 <= i < j < |t.units| ==>
          t.units[i].standardNameId != t.units[j].standardNameId || t.units[i].text != t.units[j].text)
    && (forall i, j :: 0 <= i < j < |t.conversions| ==>
          t.conversions[i].fromUnitId != t.conversions[j].fromUnitId
          || t.conversions[i].toUnitId != t.conversions[j].toUnitId)
  }

  /** With ids assigned in order, the name with a given id is found exactly
      when the id is in range, and it is the row at that position. */
  lemma NameByIdInRange(t: Tables, id: nat)
    requires Consistent(t)
    ensures NameById(t.names, id).Some? <==> 1 <= id <= |t.names|
    ensures 1 <= id <= |t.names| ==> NameById(t.names, id) == Some(t.names[id - 1])
  {
    if 1 <= id <= |t.names| {
      assert t.names[id - 1].id == id;
    }
  }

  /** Unit ids are distinct, so looking a stored unit up by its id finds
      that very row, wherever deletions have left it. */
  lemma UnitByIdFound(t: Tables, i: nat)
    requires Consistent(t) && i < |t.units|
    ensures UnitById(t.units, t.units[i].id) == Some(t.units[i])
  {
    var k := Find(t.units, (u: Unit) => u.id == t.units[i].id);
    assert k.Some? && k.value <= i;
    assert t.units[k.value].id == t.units[i].id;
  }

  // --------------------------------------------------------- the delete routes

  /** The sequence without its `i`-th element. */
  function RemoveAt<T>(s: seq<T>, i: nat): (r: seq<T>)
    requires i < |s|
    ensures |r| == |s| - 1
    ensures forall j :: 0 <= j < |r| ==> r[j] == s[if j < i then j else j + 1]
  {
    s[..i] + s[i + 1..]
  }

  /** delete_unit: the first unit with that id goes, and nothing else; its
      conversions stay. An unknown id is refused with a 404 and changes
      nothing. */
  function DeleteUnit(t: Tables, unitId: nat): (r: Tables)
    ensures r.names == t.names && r.synonyms == t.synonyms && r.conversions == t.conversions
    ensures UnitById(t.units, unitId).None? ==> r == t
    ensures UnitById(t.units, unitId).Some? ==>
      multiset(r.units) == multiset(t.units) - multiset{UnitById(t.units, unitId).value}
  {
    match Find(t.units, (u: Unit) => u.id == unitId)
    case None => t
    case Some(i) =>
      assert t.units == t.units[..i] + [t.units[i]] + t.units[i + 1..];
      t.(units := RemoveAt(t.units, i))
  }

  /** delete_conversion: the conversion row the route found by its id goes. */
  function DeleteConversion(t: Tables, i: nat): (r: Tables)
    requires i < |t.conversions|
    ensures r.names == t.names && r.synonyms == t.synonyms && r.units == t.units
    ensures multiset(r.conversions) == multiset(t.conversions) - multiset{t.conversions[i]}
  {
    assert t.conversions == t.conversions[..i] + [t.conversions[i]] + t.conversions[i + 1..];
    t.(conversions := RemoveAt(t.conversions, i))
  }

  /** delete_synonym: the synonym row the route found by its id goes. */
  function DeleteSynonym(t: Tables, i: nat): (r: Tables)
    requires i < |t.synonyms|
    ensures r.names == t.names && r.units == t.units && r.conversions == t.conversions
    ensures multiset(r.synonyms) == multiset(t.synonyms) - multiset{t.synonyms[i]}
  {
    assert t.synonyms == t.synonyms[..i] + [t.synonyms[i]] + t.synonyms[i + 1..];
    t.(synonyms := RemoveAt(t.synonyms, i))
  }

  /** Deleting a unit keeps the store consistent, though it leaves a gap in
      the unit ids and may leave conversions naming the deleted unit. */
  lemma DeleteUnitConsistent(t: Tables, unitId: nat)
    requires Consistent(t)
    ensures Consistent(DeleteUnit(t, unitId))
  {
    match Find(t.units, (u: Unit) => u.id == unitId)
    case None =>
    case Some(i) =>
      var v := RemoveAt(t.units, i);
      forall a, b | 0 <= a < b < |v|
        ensures v[a].id != v[b].id
        ensures v[a].standardNameId != v[b].standardNameId || v[a].text != v[b].text
      {
        assert v[a] == t.units[if a < i then a else a + 1];
        assert v[b] == t.units[if b < i then b else b + 1];
      }
  }

  /** Deleting a conversion keeps the store consistent. */
  lemma DeleteConversionConsistent(t: Tables, i: nat)
    requires Consistent(t) && i < |t.conversions|
    ensures Consistent(DeleteConversion(t, i))
  {
    var v := RemoveAt(t.conversions, i);
    forall a, b | 0 <= a < b < |v|
      ensures v[a].fromUnitId != v[b].fromUnitId || v[a].toUnitId != v[b].toUnitId
    {
      assert v[a] == t.conversions[if a < i then a else a + 1];
      assert v[b] == t.conversions[if b < i then b else b + 1];
    }
  }

  /** Deleting a synonym keeps the store consistent. */
  lemma DeleteSynonymConsistent(t: Tables, i: nat)
    requires Consistent(t) && i < |t.synonyms|
    ensures Consistent(DeleteSynonym(t, i))
  {
    var v := RemoveAt(t.synonyms, i);
    forall a, b | 0 <= a < b < |v|
      ensures v[a] != v[b]
    {
      assert v[a] == t.synonyms[if a < i then a else a + 1];
      assert v[b] == t.synonyms[if b < i then b else b + 1];
    }
  }

  /** The store the session talks to; the inserts of units.py and
      unificator.py reassign its tables. */
  class Store {
    var names: seq<StandardName>
    var synonyms: seq<Synonym>
    var units: seq<Unit>
    var conversions: seq<ConversionRow>

    function Snapshot(): Tables
      reads this
    {
      Tables(names, synonyms, units, conversions)
    }

    ghost predicate Valid()
      reads this
    {
      Consistent(Snapshot())
    }

    /** An empty store, as a freshly created database. */
    constructor ()
      ensures Valid()
      ensures names == [] && synonyms == [] && units == [] && conversions == []
    {
      names, synonyms, units, conversions := [], [], [], [];
    }
  }
}
