/** The unit operations of medicalgrouplibrary/units.py: the guarded inserts
    for units and conversions, the two read-only unit lookups, the one-hop
    conversion to the standard unit and the breadth-first conversion between
    any two units of a canonical name. */
module Units {
  import opened Wrappers
  import opened Database
  import opened ConversionGraph

  // ---------------------------------------------------------------- add_unit

  /** add_unit on a snapshot: refuse a missing canonical name, refuse a unit
      text the name already has, otherwise append the unit with the id SQLite
      assigns, one more than the largest unit id in use. */
  function InsertUnit(t: Tables, standardNameId: nat, text: string, isStandard: bool): (r: Insert)
    ensures r.tables.names == t.names && r.tables.synonyms == t.synonyms
    ensures r.tables.conversions == t.conversions
    ensures r.outcome == NameMissing <==> NameById(t.names, standardNameId).None?
    ensures r.outcome == AlreadyExists <==>
      NameById(t.names, standardNameId).Some? && UnitByText(t.units, standardNameId, text).Some?
    ensures r.outcome in {Added, NameMissing, AlreadyExists}
    ensures r.outcome == Added ==>
      r.tables.units == t.units + [Unit(NextUnitId(t.units), standardNameId, text, isStandard)]
    ensures r.outcome != Added ==> r.tables == t
  {
    if NameById(t.names, standardNameId).None? then Insert(t, NameMissing)
    else if UnitByText(t.units, standardNameId, text).Some? then Insert(t, AlreadyExists)
    else Insert(t.(units := t.units + [Unit(NextUnitId(t.units), standardNameId, text, isStandard)]), Added)
  }

  /** Appending a unit with a fresh id, an existing canonical name and a
      text new to that name keeps the schema's constraints. */
  lemma AppendUnitConsistent(t: Tables, u: Unit)
    requires Consistent(t)
    requires 1 <= u.id && 1 <= u.standardNameId <= |t.names|
    requires forall i :: 0 <= i < |t.units| ==> t.units[i].id < u.id
    requires forall i :: 0 <= i < |t.units| ==> t.units[i].standardNameId != u.standardNameId || t.units[i].text != u.text
    ensures Consistent(t.(units := t.units + [u]))
  {
    var v := t.units + [u];
    forall i | 0 <= i < |v|
      ensures 1 <= v[i].id && 1 <= v[i].standardNameId <= |t.names|
    {
      if i < |t.units| {
        assert v[i] == t.units[i];
      }
    }
    forall i, j | 0 <= i < j < |v|
      ensures v[i].id != v[j].id
      ensures v[i].standardNameId != v[j].standardNameId || v[i].text != v[j].text
    {
      assert v[i] == t.units[i];
      if j < |t.units| {
        assert v[j] == t.units[j];
      }
    }
  }

  /** An insert of a unit keeps the schema's constraints. */
  lemma InsertUnitConsistent(t: Tables, standardNameId: nat, text: string, isStandard: bool)
    requires Consistent(t)
    ensures Consistent(InsertUnit(t, standardNameId, text, isStandard).tables)
  {
    if NameById(t.names, standardNameId).Some? && UnitByText(t.units, standardNameId, text).None? {
      NameByIdInRange(t, standardNameId);
      AppendUnitConsistent(t, Unit(NextUnitId(t.units), standardNameId, text, isStandard));
    }
  }

  /** Adding the same unit twice: the second call changes nothing. */
  lemma InsertUnitTwice(t: Tables, standardNameId: nat, text: string, isStandard: bool)
    ensures var once := InsertUnit(t, standardNameId, text, isStandard);
            InsertUnit(once.tables, standardNameId, text, isStandard).tables == once.tables
  {
    var once := InsertUnit(t, standardNameId, text, isStandard);
    if once.outcome == Added {
      var u := once.tables.units;
      assert u[|u| - 1].standardNameId == standardNameId && u[|u| - 1].text == text;
    }
  }

  /** add_unit: the session inserts the row decided on the snapshot. */
  method AddUnit(db: Store, standardNameId: nat, text: string, isStandard: bool) returns (outcome: AddOutcome)
    modifies db
    ensures old(db.Valid()) ==> db.Valid()
    ensures Insert(db.Snapshot(), outcome) == InsertUnit(old(db.Snapshot()), standardNameId, text, isStandard)
  {
    if db.Valid() {
      InsertUnitConsistent(db.Snapshot(), standardNameId, text, isStandard);
    }
    if NameById(db.names, standardNameId).None? {
      return NameMissing;
    }
    if UnitByText(db.units, standardNameId, text).Some? {
      return AlreadyExists;
    }
    db.units := db.units + [Unit(NextUnitId(db.units), standardNameId, text, isStandard)];
    outcome := Added;
  }

  // ---------------------------------------------------- add_unit_conversation

  /** add_unit_conversation on a snapshot. Both units must exist and the
      (from, to, standard name) triple must be new; a row with the same
      (from, to) pair under another standard name makes the commit violate
      the pair's unique constraint, which the function reports and stores
      nothing for. */
  function InsertConversion(t: Tables, fromUnitId: nat, toUnitId: nat, formula: string, standardNameId: nat)
    : (r: Insert)
    ensures r.tables.names == t.names && r.tables.synonyms == t.synonyms && r.tables.units == t.units
    ensures r.outcome == UnitMissing <==> UnitById(t.units, fromUnitId).None? || UnitById(t.units, toUnitId).None?
    ensures r.outcome == AlreadyExists <==>
      UnitById(t.units, fromUnitId).Some? && UnitById(t.units, toUnitId).Some? &&
      ConversionBetween(t.conversions, fromUnitId, toUnitId, standardNameId).Some?
    ensures r.outcome == ConstraintViolation ==>
      exists i :: 0 <= i < |t.conversions| && t.conversions[i].fromUnitId == fromUnitId &&
        t.conversions[i].toUnitId == toUnitId && t.conversions[i].standardNameId != standardNameId
    ensures r.outcome == Added <==>
      UnitById(t.units, fromUnitId).Some? && UnitById(t.units, toUnitId).Some? &&
      forall i :: 0 <= i < |t.conversions| ==>
        t.conversions[i].fromUnitId != fromUnitId || t.conversions[i].toUnitId != toUnitId
    ensures r.outcome in {Added, UnitMissing, AlreadyExists, ConstraintViolation}
    ensures r.outcome == Added ==>
      r.tables.conversions == t.conversions + [ConversionRow(fromUnitId, toUnitId, formula, standardNameId)]
    ensures r.outcome != Added ==> r.tables == t
  {
    if UnitById(t.units, fromUnitId).None? || UnitById(t.units, toUnitId).None? then Insert(t, UnitMissing)
    else if ConversionBetween(t.conversions, fromUnitId, toUnitId, standardNameId).Some? then Insert(t, AlreadyExists)
    else if PairTaken(t.conversions, fromUnitId, toUnitId) then Insert(t, ConstraintViolation)
    else Insert(t.(conversions := t.conversions + [ConversionRow(fromUnitId, toUnitId, formula, standardNameId)]), Added)
  }

  /** Some row already joins the two units, under whatever canonical name. */
  predicate PairTaken(conversions: seq<ConversionRow>, fromUnitId: nat, toUnitId: nat)
  {
    exists i :: 0 <= i < |conversions| && conversions[i].fromUnitId == fromUnitId && conversions[i].toUnitId == toUnitId
  }

  /** Appending a conversion whose (from, to) pair is new keeps the schema's
      constraints. */
  lemma AppendConversionConsistent(t: Tables, c: ConversionRow)
    requires Consistent(t)
    requires !PairTaken(t.conversions, c.fromUnitId, c.toUnitId)
    ensures Consistent(t.(conversions := t.conversions + [c]))
  {
    var d := t.conversions + [c];
    forall i, j | 0 <= i < j < |d|
      ensures d[i].fromUnitId != d[j].fromUnitId || d[i].toUnitId != d[j].toUnitId
    {
      assert d[i] == t.conversions[i];
      if j < |t.conversions| {
        assert d[j] == t.conversions[j];
      }
    }
  }

  /** An insert of a conversion keeps the schema's constraints. */
  lemma InsertConversionConsistent(t: Tables, fromUnitId: nat, toUnitId: nat, formula: string, standardNameId: nat)
    requires Consistent(t)
    ensures Consistent(InsertConversion(t, fromUnitId, toUnitId, formula, standardNameId).tables)
  {
    if InsertConversion(t, fromUnitId, toUnitId, formula, standardNameId).outcome == Added {
      AppendConversionConsistent(t, ConversionRow(fromUnitId, toUnitId, formula, standardNameId));
    }
  }

  /** Adding the same conversion twice: the second call changes nothing. */
  lemma InsertConversionTwice(t: Tables, fromUnitId: nat, toUnitId: nat, formula: string, standardNameId: nat)
    ensures var once := InsertConversion(t, fromUnitId, toUnitId, formula, standardNameId);
            InsertConversion(once.tables, fromUnitId, toUnitId, formula, standardNameId).tables == once.tables
  {
    var once := InsertConversion(t, fromUnitId, toUnitId, formula, standardNameId);
    if once.outcome == Added {
      var d := once.tables.conversions;
      assert d[|d| - 1].fromUnitId == fromUnitId && d[|d| - 1].toUnitId == toUnitId;
    }
  }

  /** add_unit_conversation: the session inserts the row decided on the snapshot. */
  method AddUnitConversion(db: Store, fromUnitId: nat, toUnitId: nat, formula: string, standardNameId: nat)
    returns (outcome: AddOutcome)
    modifies db
    ensures old(db.Valid()) ==> db.Valid()
    ensures Insert(db.Snapshot(), outcome) ==
      InsertConversion(old(db.Snapshot()), fromUnitId, toUnitId, formula, standardNameId)
  {
    if db.Valid() {
      InsertConversionConsistent(db.Snapshot(), fromUnitId, toUnitId, formula, standardNameId);
    }
    if UnitById(db.units, fromUnitId).None? || UnitById(db.units, toUnitId).None? {
      return UnitMissing;
    }
    if ConversionBetween(db.conversions, fromUnitId, toUnitId, standardNameId).Some? {
      return AlreadyExists;
    }
    if PairTaken(db.conversions, fromUnitId, toUnitId) {
      return ConstraintViolation;
    }
    db.conversions := db.conversions + [ConversionRow(fromUnitId, toUnitId, formula, standardNameId)];
    outcome := Added;
  }

  // ------------------------------------------------------- read-only lookups

  datatype LookupError = StandardNameNotFound(standardNameId: nat) | StandardUnitNotFound(standardNameId: nat)

  /** get_units_for_standard_name: every unit of an existing canonical name,
      in table order. */
  function GetUnitsForStandardName(t: Tables, standardNameId: nat): (r: Result<seq<Unit>, LookupError>)
    ensures r.Failure? <==> !exists i :: 0 <= i < |t.names| && t.names[i].id == standardNameId
    ensures r.Failure? ==> r.error == StandardNameNotFound(standardNameId)
    ensures r.Success? ==> forall u :: u in r.value <==> u in t.units && u.standardNameId == standardNameId
    ensures r.Success? ==> forall u: Unit :: u.standardNameId == standardNameId ==> multiset(r.value)[u] == multiset(t.units)[u]
  {
    if NameById(t.names, standardNameId).None? then Failure(StandardNameNotFound(standardNameId))
    else Success(UnitsOf(t.units, standardNameId))
  }

  /** get_standard_unit_for_standard_name: the first unit of an existing
      canonical name flagged standard. */
  function GetStandardUnitForStandardName(t: Tables, standardNameId: nat): (r: Result<Unit, LookupError>)
    ensures r.Failure? && r.error.StandardNameNotFound? <==>
      !exists i :: 0 <= i < |t.names| && t.names[i].id == standardNameId
    ensures r.Failure? ==> r.error.standardNameId == standardNameId
    ensures r.Failure? && r.error.StandardUnitNotFound? <==>
      (exists i :: 0 <= i < |t.names| && t.names[i].id == standardNameId) &&
      forall i :: 0 <= i < |t.units| ==> t.units[i].standardNameId != standardNameId || !t.units[i].isStandard
    ensures r.Success? ==> r.value in t.units && r.value.standardNameId == standardNameId && r.value.isStandard
  {
    if NameById(t.names, standardNameId).None? then Failure(StandardNameNotFound(standardNameId))
    else match StandardUnitOf(t.units, standardNameId)
      case None => Failure(StandardUnitNotFound(standardNameId))
      case Some(u) => Success(u)
  }

  // -------------------------------------------------- convert_to_standard_unit

  /** A successful one-hop conversion: the value and the two units' rows. */
  datatype StandardConversion = StandardConversion(value: real, fromUnit: Unit, toUnit: Unit, standardNameId: nat)

  datatype ConvertError =
    | NoStandardUnit(standardNameId: nat)
    | UnitIdNotFound(unitId: nat)
    | FormulaFailed(formula: string)
    | InverseFormulaFailed(formula: string)
    | NoConversion(fromUnit: string, toUnit: string)

  /** How the reverse branch turns a standard-to-source formula `g` into a
      value in the standard unit. */
  datatype Inversion = AsWritten | Proportional

  /** `AsWritten` is the source's `value / (g)` with `g` evaluated at the
      value itself; `Proportional` divides by `g` evaluated at one, which is
      the inverse when `g` multiplies by a constant. A failing `g` and a zero
      divisor are both errors. */
  function Invert(how: Inversion, eval: Evaluator, g: string, value: real): (r: Option<real>)
    ensures r.Some? ==> exists d: real :: d != 0.0 && r.value == value / d &&
                          eval(g, if how == AsWritten then value else 1.0) == Some(d)
    ensures r.None? <==> eval(g, if how == AsWritten then value else 1.0) in {None, Some(0.0)}
  {
    match eval(g, if how == AsWritten then value else 1.0)
    case None => None
    case Some(d) => if d == 0.0 then None else Some(value / d)
  }

  /** The cascade of convert_to_standard_unit, with the reverse branch's
      inversion as a parameter. */
  function Standardize(t: Tables, eval: Evaluator, value: real, fromUnitId: nat, standardNameId: nat, how: Inversion)
    : (r: Result<StandardConversion, ConvertError>)
    ensures (r == Failure(NoStandardUnit(standardNameId))) <==> StandardUnitOf(t.units, standardNameId).None?
    ensures r == Failure(UnitIdNotFound(fromUnitId)) <==>
      StandardUnitOf(t.units, standardNameId).Some? && UnitById(t.units, fromUnitId).None?
    ensures r.Success? ==>
      && r.value.toUnit in t.units && r.value.toUnit.standardNameId == standardNameId && r.value.toUnit.isStandard
      && r.value.fromUnit in t.units && r.value.fromUnit.id == fromUnitId
      && r.value.standardNameId == standardNameId
    ensures r.Success? && r.value.toUnit.id != fromUnitId ==>
      || (exists c :: c in t.conversions && c == ConversionRow(fromUnitId, r.value.toUnit.id, c.formula, standardNameId)
                      && eval(c.formula, value) == Some(r.value.value))
      || (exists c :: c in t.conversions && c == ConversionRow(r.value.toUnit.id, fromUnitId, c.formula, standardNameId)
                      && Invert(how, eval, c.formula, value) == Some(r.value.value))
  {
    match StandardUnitOf(t.units, standardNameId)
    case None => Failure(NoStandardUnit(standardNameId))
    case Some(std) =>
      match UnitById(t.units, fromUnitId)
      case None => Failure(UnitIdNotFound(fromUnitId))
      case Some(from) =>
        if fromUnitId == std.id then Success(StandardConversion(value, from, std, standardNameId))
        else match ConversionBetween(t.conversions, fromUnitId, std.id, standardNameId)
          case Some(c) =>
            (match eval(c.formula, value)
             case None => Failure(FormulaFailed(c.formula))
             case Some(v) => Success(StandardConversion(v, from, std, standardNameId)))
          case None =>
            match ConversionBetween(t.conversions, std.id, fromUnitId, standardNameId)
            case Some(c) =>
              (match Invert(how, eval, c.formula, value)
               case None => Failure(InverseFormulaFailed(c.formula))
               case Some(v) => Success(StandardConversion(v, from, std, standardNameId)))
            case None => Failure(NoConversion(from.text, std.text))
  }

  /** convert_to_standard_unit as written. */
  function ConvertToStandardUnit(t: Tables, eval: Evaluator, value: real, fromUnitId: nat, standardNameId: nat)
    : (r: Result<StandardConversion, ConvertError>)
    ensures r.Success? ==>
      r.value.fromUnit in t.units && r.value.fromUnit.id == fromUnitId &&
      r.value.toUnit in t.units && r.value.toUnit.standardNameId == standardNameId && r.value.toUnit.isStandard
  {
    Standardize(t, eval, value, fromUnitId, standardNameId, AsWritten)
  }

  /** convert_to_standard_unit with the reverse formula inverted as a constant
      factor. */
  function ConvertToStandardUnitCorrected(t: Tables, eval: Evaluator, value: real, fromUnitId: nat, standardNameId: nat)
    : (r: Result<StandardConversion, ConvertError>)
    ensures r.Success? ==>
      r.value.fromUnit in t.units && r.value.fromUnit.id == fromUnitId &&
      r.value.toUnit in t.units && r.value.toUnit.standardNameId == standardNameId && r.value.toUnit.isStandard
  {
    Standardize(t, eval, value, fromUnitId, standardNameId, Proportional)
  }

  /** The standard unit converts to itself unchanged, whatever conversions
      are stored. */
  lemma StandardizeIdentity(t: Tables, eval: Evaluator, value: real, standardNameId: nat, how: Inversion)
    requires Consistent(t) && StandardUnitOf(t.units, standardNameId).Some?
    ensures var std := StandardUnitOf(t.units, standardNameId).value;
            Standardize(t, eval, value, std.id, standardNameId, how) == Success(StandardConversion(value, std, std, standardNameId))
  {
    var std := StandardUnitOf(t.units, standardNameId).value;
    assert std in t.units;
    var i :| 0 <= i < |t.units| && t.units[i] == std;
    UnitByIdFound(t, i);
  }

  /** A direct row from the source unit to the standard unit decides the
      result on its own: its formula's value, or its formula's failure; no
      reverse row is consulted. */
  lemma DirectPreferred(t: Tables, eval: Evaluator, value: real, fromUnitId: nat, standardNameId: nat,
                        how: Inversion, std: Unit, c: ConversionRow)
    requires StandardUnitOf(t.units, standardNameId) == Some(std) && std.id != fromUnitId
    requires UnitById(t.units, fromUnitId).Some?
    requires ConversionBetween(t.conversions, fromUnitId, std.id, standardNameId) == Some(c)
    ensures var r := Standardize(t, eval, value, fromUnitId, standardNameId, how);
            && (r.Success? <==> eval(c.formula, value).Some?)
            && (r.Success? ==> Some(r.value.value) == eval(c.formula, value))
            && (r.Failure? ==> r.error == FormulaFailed(c.formula))
  {
  }

  /** With no direct row, the first reverse row from the standard unit
      decides the result: the inverted value, or the inverse formula's
      failure when its formula fails or yields zero. */
  lemma ReverseBranch(t: Tables, eval: Evaluator, value: real, fromUnitId: nat, standardNameId: nat,
                      how: Inversion, std: Unit, c: ConversionRow)
    requires StandardUnitOf(t.units, standardNameId) == Some(std) && std.id != fromUnitId
    requires UnitById(t.units, fromUnitId).Some?
    requires ConversionBetween(t.conversions, fromUnitId, std.id, standardNameId).None?
    requires ConversionBetween(t.conversions, std.id, fromUnitId, standardNameId) == Some(c)
    ensures var r := Standardize(t, eval, value, fromUnitId, standardNameId, how);
            && (r.Success? <==> Invert(how, eval, c.formula, value).Some?)
            && (r.Success? ==> Some(r.value.value) == Invert(how, eval, c.formula, value))
            && (r.Failure? ==> r.error == InverseFormulaFailed(c.formula))
  {
  }

  /** With neither a direct nor a reverse row the error names both units. */
  lemma NeitherRow(t: Tables, eval: Evaluator, value: real, fromUnitId: nat, standardNameId: nat,
                   how: Inversion, std: Unit, from: Unit)
    requires StandardUnitOf(t.units, standardNameId) == Some(std) && std.id != fromUnitId
    requires UnitById(t.units, fromUnitId) == Some(from)
    requires ConversionBetween(t.conversions, fromUnitId, std.id, standardNameId).None?
    requires ConversionBetween(t.conversions, std.id, fromUnitId, standardNameId).None?
    ensures Standardize(t, eval, value, fromUnitId, standardNameId, how) == Failure(NoConversion(from.text, std.text))
  {
  }

  /** `x` multiplied by `k`: what a formula that scales by a constant computes. */
  function Times(x: real, k: real): real
  {
    x * k
  }

  /** As written, inverting a formula that multiplies by a nonzero constant
      `k` gives `1 / k` for every nonzero value: the value cancels. */
  lemma AsWrittenCancels(eval: Evaluator, g: string, k: real, value: real)
    requires k != 0.0 && forall x: real :: eval(g, x) == Some(Times(x, k))
    requires value != 0.0
    ensures Invert(AsWritten, eval, g, value) == Some(1.0 / k)
  {
    var d := Times(value, k);
    assert eval(g, value) == Some(d);
    assert d != 0.0;
    assert value / d == 1.0 / k by {
      assert value / d * k == 1.0;
    }
  }

  /** The proportional inversion undoes a formula that multiplies by a
      nonzero constant: converting the result back with `g` gives the
      original value. */
  lemma ProportionalRoundTrip(eval: Evaluator, g: string, k: real, value: real)
    requires k != 0.0 && forall x: real :: eval(g, x) == Some(Times(x, k))
    ensures Invert(Proportional, eval, g, value) == Some(value / k)
    ensures eval(g, value / k) == Some(value)
  {
    assert eval(g, 1.0) == Some(Times(1.0, k));
    assert eval(g, value / k) == Some(Times(value / k, k));
    assert Times(value / k, k) == value;
  }

  /** Corrected, a conversion through a reverse row whose formula multiplies
      by a nonzero constant is undone by that formula: applying it to the
      result gives back the input. */
  lemma CorrectedRoundTrip(t: Tables, eval: Evaluator, value: real, fromUnitId: nat, standardNameId: nat,
                           std: Unit, c: ConversionRow, k: real)
    requires StandardUnitOf(t.units, standardNameId) == Some(std) && std.id != fromUnitId
    requires UnitById(t.units, fromUnitId).Some?
    requires ConversionBetween(t.conversions, fromUnitId, std.id, standardNameId).None?
    requires ConversionBetween(t.conversions, std.id, fromUnitId, standardNameId) == Some(c)
    requires k != 0.0 && forall x: real :: eval(c.formula, x) == Some(Times(x, k))
    ensures var r := ConvertToStandardUnitCorrected(t, eval, value, fromUnitId, standardNameId);
            r.Success? && r.value.toUnit == std && eval(c.formula, r.value.value) == Some(value)
  {
    ProportionalRoundTrip(eval, c.formula, k, value);
  }

  /** A store with one reverse row `x * 10` from the standard unit (1) to unit
      2: 120 in unit 2 is 12 in the standard unit, but the code as written
      returns 0.1. */
  function Sample(): Tables
  {
    Tables([StandardName(1, "glucose")], [],
           [Unit(1, 1, "mmol/L", true), Unit(2, 1, "mg/dL", false)],
           [ConversionRow(1, 2, "x * 10", 1)])
  }

  function TimesTen(f: string, x: real): Option<real>
  {
    if f == "x * 10" then Some(x * 10.0) else None
  }

  lemma ReverseCounterexample()
    ensures ConvertToStandardUnit(Sample(), TimesTen, 120.0, 2, 1).Success?
    ensures ConvertToStandardUnit(Sample(), TimesTen, 120.0, 2, 1).value.value == 0.1
    ensures ConvertToStandardUnitCorrected(Sample(), TimesTen, 120.0, 2, 1).Success?
    ensures ConvertToStandardUnitCorrected(Sample(), TimesTen, 120.0, 2, 1).value.value == 12.0
  {
    var t := Sample();
    assert StandardUnitOf(t.units, 1) == Some(t.units[0]);
    assert UnitById(t.units, 2) == Some(t.units[1]);
    assert ConversionBetween(t.conversions, 2, 1, 1).None?;
    assert ConversionBetween(t.conversions, 1, 2, 1) == Some(t.conversions[0]);
  }

  // --------------------------------------------------- calculate_conversion

  /** A successful search: the final value, the path of (from, to, formula)
      steps, and the two unit texts as given. */
  datatype Converted = Converted(value: real, path: seq<Step>, fromUnit: string, toUnit: string)

  datatype ConversionError =
    | NoUnits
    | UnitsNotFound(fromUnit: string, toUnit: string)
    | FormulaError(formula: string)
    | NoPath(fromUnit: string, toUnit: string)

  /** Both unit texts are known under the canonical name. */
  predicate BothKnown(t: Tables, standardNameId: nat, fromUnit: string, toUnit: string)
  {
    UnitByText(t.units, standardNameId, fromUnit).Some? && UnitByText(t.units, standardNameId, toUnit).Some?
  }

  /** The id of a unit text known under the canonical name. */
  function IdOf(t: Tables, standardNameId: nat, text: string): nat
    requires UnitByText(t.units, standardNameId, text).Some?
  {
    UnitByText(t.units, standardNameId, text).value.id
  }

  /** calculate_conversion: builds the graph of the canonical name's
      conversion rows and searches it breadth first from one unit to the
      other, applying each formula to the running value. */
  method CalculateConversion(t: Tables, eval: Evaluator, value: real, fromUnit: string, toUnit: string,
                             standardNameId: nat)
    returns (r: Result<Converted, ConversionError>)
    ensures r == Failure(NoUnits) <==> UnitsOf(t.units, standardNameId) == []
    ensures r == Failure(UnitsNotFound(fromUnit, toUnit)) <==>
      UnitsOf(t.units, standardNameId) != [] && !BothKnown(t, standardNameId, fromUnit, toUnit)
    ensures r.Failure? && r.error.UnitsNotFound? ==> r.error == UnitsNotFound(fromUnit, toUnit)
    ensures r.Success? ==> BothKnown(t, standardNameId, fromUnit, toUnit)
    ensures r.Success? ==> r.value.fromUnit == fromUnit && r.value.toUnit == toUnit
    ensures r.Success? ==>
      var rows, a, b := ConversionsOf(t.conversions, standardNameId), IdOf(t, standardNameId, fromUnit), IdOf(t, standardNameId, toUnit);
      && IsChain(rows, a, r.value.path, b)
      && Apply(eval, value, r.value.path) == Some(r.value.value)
      && (forall p :: IsChain(rows, a, p, b) ==> |r.value.path| <= |p|)
      && (forall w: nat, q: seq<Step> :: IsChain(rows, a, q, w) && |q| < |r.value.path| ==>
            ExpandedCleanly(rows, eval, value, a, w, |q|))
      && (r.value.path != [] ==> forall e :: e in EdgesFrom(rows, a) ==> eval(e.formula, value).Some?)
    ensures r.Failure? && r.error.NoPath? ==>
      && BothKnown(t, standardNameId, fromUnit, toUnit)
      && r.error == NoPath(fromUnit, toUnit)
      && var rows, a, b := ConversionsOf(t.conversions, standardNameId), IdOf(t, standardNameId, fromUnit), IdOf(t, standardNameId, toUnit);
         && (forall p :: !IsChain(rows, a, p, b))
         && (forall w: nat, q: seq<Step> :: IsChain(rows, a, q, w) ==> ExpandedCleanly(rows, eval, value, a, w, |q|))
    ensures r.Failure? && r.error.FormulaError? ==>
      && BothKnown(t, standardNameId, fromUnit, toUnit)
      && var rows, a, b := ConversionsOf(t.conversions, standardNameId), IdOf(t, standardNameId, fromUnit), IdOf(t, standardNameId, toUnit);
         exists p: seq<Step> ::
           && BreaksOn(rows, eval, value, a, p, r.error.formula)
           && p[|p| - 1].from != b
           && forall q :: IsChain(rows, a, q, b) ==> |p| <= |q| + 1
    ensures UnitsOf(t.units, standardNameId) != [] && BothKnown(t, standardNameId, fromUnit, toUnit) && fromUnit == toUnit ==>
      r == Success(Converted(value, [], fromUnit, toUnit))
  {
    var units := UnitsOf(t.units, standardNameId);
    if units == [] {
      return Failure(NoUnits);
    }
    var rows := ConversionsOf(t.conversions, standardNameId);
    var graph := BuildGraph(rows);
    var fromEntry := UnitByText(t.units, standardNameId, fromUnit);
    var toEntry := UnitByText(t.units, standardNameId, toUnit);
    if fromEntry.None? || toEntry.None? {
      return Failure(UnitsNotFound(fromUnit, toUnit));
    }
    var outcome := Search(rows, graph, eval, value, fromEntry.value.id, toEntry.value.id);
    match outcome
    case Reached(v, path) => r := Success(Converted(v, path, fromUnit, toUnit));
    case Unreachable => r := Failure(NoPath(fromUnit, toUnit));
    case Broken(f) =>
      ghost var p: seq<Step> :|
        && BreaksOn(rows, eval, value, fromEntry.value.id, p, f)
        && p[|p| - 1].from != toEntry.value.id
        && forall q :: IsChain(rows, fromEntry.value.id, q, toEntry.value.id) ==> |p| <= |q| + 1;
      assert IdOf(t, standardNameId, fromUnit) == fromEntry.value.id;
      assert IdOf(t, standardNameId, toUnit) == toEntry.value.id;
      r := Failure(FormulaError(f));
  }
}
