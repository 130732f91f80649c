# MedicalGroupLibrary core in Dafny

MedicalGroupLibrary keeps a store of canonical laboratory analysis names,
their synonyms, their measurement units and directed formula-bearing
conversions between units. This project models the two parts of it that
compute something:

- the unit engine of `medicalgrouplibrary/units.py`:
  - the guarded inserts `add_unit` and `add_unit_conversation`;
  - the lookups `get_units_for_standard_name` and `get_standard_unit_for_standard_name`;
  - the one-hop `convert_to_standard_unit`;
  - `calculate_conversion`, which builds an adjacency map from a canonical name's conversion rows and searches it breadth first, carrying the running value and the path in each queued state;
- the term resolver of `medicalgrouplibrary/unificator.py`:
  - `get_unification_name`, which tries an exact synonym, then an exact canonical name, then the best whole-string fuzzy match over synonyms and names, then the best partial match over names;
  - the guarded insert `add_synonym`.

Files and modules:

- `wrappers.dfy`, module `Wrappers`: `Option` and `Result`.
- `database.dfy`, module `Database`:
  - the four tables as sequences of rows;
  - the `.first()` / `.all()` query shapes (`Find`, `First`, `Filter`);
  - the store invariant `Consistent`: positional canonical-name ids, distinct unit ids, and the schema's unique constraints;
  - the id SQLite gives a new unit (`NextUnitId`), and the delete routes of the web layer, which the invariant survives;
  - the `Store` class whose tables the inserts reassign.
- `graph.dfy`, module `ConversionGraph`:
  - the adjacency map build;
  - the breadth-first search as an imperative method, proved against a reference definition of stored chains (`IsChain`) and of folding formulas along a path (`Apply`).
- `units.dfy`, module `Units`: the operations of `units.py`.
- `unificator.dfy`, module `Unificator`: the operations of `unificator.py`.

Formula evaluation (Python `eval` after replacing `x` by `value`) is an
abstract `Evaluator`, a function from (formula, value) to an optional real.
The rapidfuzz scorers `fuzz.ratio` and `fuzz.partial_ratio` are abstract
`Scorer` parameters with scores in 0..100. Values are `real`. Each insert is
specified by a pure function on a snapshot of the tables (`InsertUnit`,
`InsertConversion`, `InsertSynonym`). The method that updates the `Store`
ensures it did exactly what that function says, and the function's
properties are proved as lemmas.

Two behaviours of the code worth noting:

- The reverse branch of `convert_to_standard_unit` divides the value by the stored formula evaluated at the value itself (`value / (g(value))`). It does not divide by g(1). See "## Findings".
- The conversion table's unique constraint is the (from unit, to unit) pair over the whole table (`database.py:76-78`), not per canonical name. That is why `add_unit_conversation` can fail at commit.

## Model

| member | source | states |
|---|---|---|
| Database.Find | medicalgrouplibrary/units.py:16 | a filtered `.first()`: the index found satisfies the filter and no earlier row does; None exactly when no row does |
| Database.First | medicalgrouplibrary/units.py:23 | the row returned is in the table and satisfies the filter; None exactly when no row satisfies it |
| Database.Filter | medicalgrouplibrary/units.py:60 | a filtered `.all()`: every returned row is in the table and satisfies the filter, and every satisfying row is returned |
| Database.FilterCount | medicalgrouplibrary/units.py:60 | `.all()` returns each satisfying row exactly as often as the table holds it, and no other row |
| Database.FilterAppend | medicalgrouplibrary/units.py:60 | `.all()` keeps the model's row order: the result for two concatenated parts is the two results concatenated |
| Database.UnitsOf | medicalgrouplibrary/units.py:60 | the units of a canonical name, each exactly as often as the table holds it, and no unit of another name |
| Database.NameByIdInRange | medicalgrouplibrary/database.py:14 | canonical names are never deleted, so their ids are 1, 2, 3, ...: a name id is found exactly when it is in range, and the row found is the one at that position |
| Database.NextUnitId | medicalgrouplibrary/database.py:46 | a new unit's id is one more than the largest unit id in use (1 in an empty table), so it differs from every stored id |
| Database.UnitByIdFound | medicalgrouplibrary/database.py:46 | unit ids are distinct, so looking a stored unit up by its id finds that very row, whatever gaps deletions left |
| Database.DeleteUnit | routes/units.py:191-200 | the first unit with the id is removed and nothing else; conversions naming it stay; an unknown id changes nothing |
| Database.DeleteConversion | routes/units.py:203-212 | exactly the chosen conversion row is removed |
| Database.DeleteSynonym | routes/synonyms.py:82-94 | exactly the chosen synonym row is removed |
| Database.DeleteUnitConsistent | routes/units.py:191-200 | deleting a unit keeps the store invariant, leaving a gap in the unit ids and possibly conversions naming the deleted unit |
| Database.DeleteConversionConsistent | routes/units.py:203-212 | deleting a conversion keeps the store invariant |
| Database.DeleteSynonymConsistent | routes/synonyms.py:82-94 | deleting a synonym keeps the store invariant |
| Database.Store.constructor | medicalgrouplibrary/database.py:80-81 | a freshly created store is empty and satisfies every constraint |
| ConversionGraph.EdgesFromIff | medicalgrouplibrary/units.py:291-294 | an edge is in a unit's adjacency list exactly when some row goes from that unit with that target and formula: no row is lost and no reverse edge is added |
| ConversionGraph.EdgesFromAppend | medicalgrouplibrary/units.py:291-294 | adjacency lists follow row order and keep duplicates: the lists of concatenated rows are the concatenated lists |
| ConversionGraph.BuildGraph | medicalgrouplibrary/units.py:289-294 | the loop-built map gives every unit exactly its reference adjacency list, and has a key exactly for the units with an outgoing row |
| ConversionGraph.ChainLinks | medicalgrouplibrary/units.py:337 | a chain starts at its source and ends at its target, every step is a stored edge, and each step's target is the next step's source |
| ConversionGraph.Pop | medicalgrouplibrary/units.py:313 | dequeuing the front state keeps the queue well formed and everything it covered is still covered |
| ConversionGraph.Expand | medicalgrouplibrary/units.py:328-337 | the inner loop either queues one successor per edge, in order, each with the edge's formula applied to the value, or stops at the first edge whose formula fails with all earlier formulas evaluated |
| ConversionGraph.SuccessorChain | medicalgrouplibrary/units.py:332-337 | a successor of a state on a stored chain is on a stored chain one step longer, and its value is the fold of the formulas along it |
| ConversionGraph.AppendSuccessors | medicalgrouplibrary/units.py:337 | appending the successors of the front state keeps every queued state a stored chain with the right value, and keeps path lengths in order |
| ConversionGraph.AppendSorted | medicalgrouplibrary/units.py:337 | successors one step longer than the front state, appended behind states no shorter than it, keep the queue ordered by path length |
| ConversionGraph.VisitLayered | medicalgrouplibrary/units.py:326 | a unit marked visited at the current depth has no chain shorter than that depth |
| ConversionGraph.VisitCovered | medicalgrouplibrary/units.py:326-337 | after visiting a unit and queueing its successors, every edge out of a visited unit leads to a visited unit or to a queued state no more than one step deeper |
| ConversionGraph.DepthAdvance | medicalgrouplibrary/units.py:312-337 | when the queue's front is one step deeper, every unit some chain reaches within the old depth is visited |
| ConversionGraph.ClosedReach | medicalgrouplibrary/units.py:339 | a visited set that holds the source and is closed under edges holds the end of every chain |
| ConversionGraph.FrontExpanded | medicalgrouplibrary/units.py:326-337 | a front state whose formulas all succeeded expands its unit cleanly: its chain is stored, its fold is defined, and every formula out of the unit evaluates on it |
| ConversionGraph.VisitClean | medicalgrouplibrary/units.py:326 | recording a unit expanded cleanly from a chain as long as its level keeps the record of clean expansions |
| ConversionGraph.TargetDeep | medicalgrouplibrary/units.py:315-324 | while the target is unvisited, no chain reaches it in fewer steps than the current depth |
| ConversionGraph.CleanBefore | medicalgrouplibrary/units.py:315-337 | when the target is dequeued at some depth, every unit a chain reaches in fewer steps was expanded cleanly from a chain no longer; at a positive depth every formula out of the source succeeded on the input |
| ConversionGraph.Start | medicalgrouplibrary/units.py:309-310 | the initial queue, holding only the source with the input value and an empty path, satisfies the search invariant |
| ConversionGraph.FoundTarget | medicalgrouplibrary/units.py:315-321 | a dequeued state at the target carries a stored chain to it, of minimum length, whose fold is the state's value; when source and target coincide it is the input value with an empty path |
| ConversionGraph.SkipVisited | medicalgrouplibrary/units.py:323-324 | dropping a front state whose unit is already visited keeps the invariant |
| ConversionGraph.VisitStep | medicalgrouplibrary/units.py:326-337 | visiting the front unit and queueing its successors keeps the invariant and strictly shrinks the set of units not yet visited |
| ConversionGraph.BrokenEdge | medicalgrouplibrary/units.py:331-334 | a formula failing on an edge out of a stored chain's end yields a stored chain, one step longer, whose last formula fails on the value the rest produced |
| ConversionGraph.BrokenShallow | medicalgrouplibrary/units.py:315-334 | a formula failing while expanding a front state that is not the target breaks a stored chain that leaves a unit other than the target and is at most one step longer than any chain to the target |
| ConversionGraph.ExhaustedClean | medicalgrouplibrary/units.py:312-339 | when the queue runs empty, every unit any chain reaches was expanded from a chain no longer with every formula out of it succeeding |
| ConversionGraph.Advance | medicalgrouplibrary/units.py:312-313 | the ghost depth can always be brought to the front state's path length |
| ConversionGraph.Exhausted | medicalgrouplibrary/units.py:339 | an exhausted queue means no chain of stored edges reaches the target |
| ConversionGraph.Search | medicalgrouplibrary/units.py:306-339 | the search terminates. A unit converted to itself gives the input value and an empty path. A path returned is a stored chain from source to target whose formula fold gives the returned value, and no chain is shorter. A no-path result means no chain exists and no formula fails anywhere a chain reaches. A formula error names a formula that fails at the end of a stored chain, leaves a unit other than the target, and is at most one step further than a shortest chain to the target. The first failing formula ends the search: a path is returned only when every unit some chain reaches in fewer steps was expanded, from a chain no longer, with every formula out of it succeeding (in particular, for a non-empty path, every formula out of the source succeeds on the input) |
| Units.InsertUnit | medicalgrouplibrary/units.py:14-33 | a missing canonical name and an existing (name, unit) pair are refused, each exactly under its condition, with the tables unchanged; otherwise exactly one unit is appended, with one more than the largest unit id in use |
| Units.AppendUnitConsistent | medicalgrouplibrary/database.py:55-57 | appending a unit whose id is positive and larger than every stored id, with an existing name and a text new to that name, keeps every constraint |
| Units.InsertUnitConsistent | medicalgrouplibrary/units.py:16-31 | add_unit keeps the store invariant |
| Units.InsertUnitTwice | medicalgrouplibrary/units.py:23-27 | adding the same unit a second time changes nothing |
| Units.AddUnit | medicalgrouplibrary/units.py:5-41 | on every store, the store after the call is the snapshot function's result; a consistent store stays consistent |
| Units.InsertConversion | medicalgrouplibrary/units.py:114-139 | a missing unit refuses the insert. An existing (from, to, name) triple refuses it. A (from, to) pair already used under another name violates the pair constraint at commit. Each outcome arises exactly under its condition, and only a new pair appends the row |
| Units.AppendConversionConsistent | medicalgrouplibrary/database.py:76-78 | appending a conversion whose (from, to) pair is new keeps every constraint |
| Units.InsertConversionConsistent | medicalgrouplibrary/units.py:116-139 | add_unit_conversation keeps the store invariant |
| Units.InsertConversionTwice | medicalgrouplibrary/units.py:124-129 | adding the same conversion a second time changes nothing |
| Units.AddUnitConversion | medicalgrouplibrary/units.py:104-145 | on every store, the store after the call is the snapshot function's result; a consistent store stays consistent |
| Units.GetUnitsForStandardName | medicalgrouplibrary/units.py:44-71 | an error exactly when no canonical name has the id; otherwise the units of that name, each exactly as often as the table holds it (once, as rows are distinct), in the model's row order by `Filter` |
| Units.GetStandardUnitForStandardName | medicalgrouplibrary/units.py:74-101 | a missing name and a name without a unit flagged standard are errors, each exactly under its condition; a result is a unit of that name flagged standard |
| Units.Invert | medicalgrouplibrary/units.py:245-257 | the inversion fails exactly when the reverse formula fails or gives zero (at the input as written, at one when corrected); otherwise it is the input divided by that value |
| Units.Standardize | medicalgrouplibrary/units.py:194-262 | a missing standard unit is an error, exactly then, and it is checked first. An unknown source unit is checked next. A result converts to a standard unit of the name, from the unit with the given id, through the identity, a stored direct row whose formula gives the value, or a stored reverse row whose inversion gives it |
| Units.ConvertToStandardUnit | medicalgrouplibrary/units.py:184-268 | the code as written: a result goes from the unit with the given id to a standard unit of the name |
| Units.ConvertToStandardUnitCorrected | medicalgrouplibrary/units.py:243-257 | the corrected inversion, with the same guarantee |
| Units.StandardizeIdentity | medicalgrouplibrary/units.py:211-218 | the standard unit converts to itself with the value unchanged, whatever conversions are stored |
| Units.DirectPreferred | medicalgrouplibrary/units.py:220-237 | when a direct row exists, the result is its formula's value or its formula's error, and reverse rows are never consulted |
| Units.ReverseBranch | medicalgrouplibrary/units.py:239-257 | with no direct row, the first reverse row decides: success exactly when its inversion succeeds, with the inverted value, and otherwise the inverse-formula error naming its formula |
| Units.NeitherRow | medicalgrouplibrary/units.py:259-262 | with neither a direct nor a reverse row the error names both units |
| Units.AsWrittenCancels | medicalgrouplibrary/units.py:245-249 | for a reverse formula multiplying by k, the as-written result is 1/k for every nonzero input |
| Units.ProportionalRoundTrip | medicalgrouplibrary/units.py:245-249 | for a reverse formula multiplying by k, the corrected result is value/k, and applying the reverse formula to it gives back the input |
| Units.CorrectedRoundTrip | medicalgrouplibrary/units.py:239-255 | corrected, a conversion through a reverse row that multiplies by a nonzero constant succeeds, reaches the standard unit, and is undone by the reverse formula |
| Units.ReverseCounterexample | medicalgrouplibrary/units.py:240-255 | a concrete store with the reverse formula `x * 10`: 120 converts to 0.1 as written and to 12 when corrected |
| Units.CalculateConversion | medicalgrouplibrary/units.py:271-345 | no units for the name, and an unknown unit text, are errors, each exactly under its condition. A result is a shortest stored chain between the two units whose formula fold gives the value. A no-path error means no chain exists and no formula fails on any unit a chain reaches. A formula error names a formula breaking a stored chain that leaves a unit other than the target and is at most one step longer than a shortest chain to it. A unit converted to itself gives the input value with an empty path. A path is returned only when no formula failed on any unit reached in fewer steps, as the search returns the first failure |
| Unificator.BestIndex | medicalgrouplibrary/unificator.py:69 | the candidate chosen has the maximum score, and every earlier candidate scores strictly less |
| Unificator.SynonymTexts | medicalgrouplibrary/unificator.py:59-62 | the synonym texts, one per row, in the model's row order |
| Unificator.NameTexts | medicalgrouplibrary/unificator.py:60-63 | the canonical names, one per row, in the model's row order |
| Unificator.ParentName | medicalgrouplibrary/unificator.py:51 | a synonym resolves to the name of the row with its parent id; it fails exactly when no such row exists |
| Unificator.GetUnificationName | medicalgrouplibrary/unificator.py:38-93 | a resolved name is a stored canonical name, and not-found embeds the input |
| Unificator.ExactSynonymWins | medicalgrouplibrary/unificator.py:49-51 | an input equal to a synonym resolves to the parent of the first such synonym, for every threshold and scorer |
| Unificator.ExactNameSecond | medicalgrouplibrary/unificator.py:54-56 | an input that is no synonym but equals a canonical name resolves to itself, for every threshold and scorer |
| Unificator.NotFoundIff | medicalgrouplibrary/unificator.py:59-88 | not found exactly when: the input is neither a synonym nor a name; names exist; every synonym and name scores below the threshold on the whole string; and every name scores below it on parts |
| Unificator.ThresholdMonotone | medicalgrouplibrary/unificator.py:71-83 | an input not found at one threshold is not found at any higher threshold |
| Unificator.PartialOnlyAfterFuzzy | medicalgrouplibrary/unificator.py:69-86 | once some candidate reaches the threshold on the whole string, the partial scorer does not affect the result |
| Unificator.SynonymBranchWins | medicalgrouplibrary/unificator.py:71-78 | a best whole-string candidate that is a synonym text resolves to the parent of the first synonym with that text, even when it is also a canonical name |
| Unificator.FuzzyNameAccepted | medicalgrouplibrary/unificator.py:69-78 | with no exact match, a best whole-string candidate that reaches the threshold and is no synonym text is the result |
| Unificator.PartialAccepted | medicalgrouplibrary/unificator.py:81-86 | with no exact match and everything below the threshold on the whole string, the best partial-scoring canonical name is the result once its partial score reaches the threshold |
| Unificator.FuzzyStepSucceeds | medicalgrouplibrary/unificator.py:66-86 | in a consistent store with a canonical name the fuzzy steps never raise |
| Unificator.FailsOnlyOnEmptyStore | medicalgrouplibrary/unificator.py:89-91 | in a consistent store the resolution raises exactly when there is no canonical name |
| Unificator.InsertSynonym | medicalgrouplibrary/unificator.py:13-33 | the canonical name is created, with the next id, exactly when no row has that name. The synonym is appended exactly when its (name id, text) pair is absent. Units and conversions are untouched |
| Unificator.AppendNameConsistent | medicalgrouplibrary/database.py:15 | creating a name no row has keeps every constraint |
| Unificator.AppendSynonymConsistent | medicalgrouplibrary/database.py:39-41 | appending a new synonym pair whose name exists keeps every constraint |
| Unificator.InsertSynonymConsistent | medicalgrouplibrary/unificator.py:14-33 | add_synonym keeps the store invariant |
| Unificator.InsertSynonymTwice | medicalgrouplibrary/unificator.py:23-28 | adding the same synonym a second time changes nothing and reports that it exists |
| Unificator.AddSynonym | medicalgrouplibrary/unificator.py:5-36 | on every store, the store after the call is the snapshot function's result; a consistent store stays consistent |

## Left out

- The web layer (`routes/*.py`, `main.py`) is not part of this model, except its three delete routes, which are modelled on table snapshots to show the store invariant survives them. In particular, the conversion route at `routes/units.py:251-254` ignores its target unit and calls `convert_to_standard_unit`.
- `get_conversions_for_unit` (`units.py:148-181`) is a listing query outside the modelled core.
- `data_creator.py` (calls to a language-model service), `data_transfer.py` (JSON file import and export) and `test.py` are not part of this model.
- The SQLAlchemy declarations in `database.py` are modelled only by their unique constraints and by their ids (the `Consistent` predicate). Foreign keys are not enforced by the SQLite engine, so a conversion may name a deleted unit. Synonym and conversion rows carry no id in the model; the delete routes pick the row by position.
- The flag marking a standard unit is not unique in the schema, and the model does not require it. Lookups take the first flagged unit in the model's row order.
- Row order: every query without ORDER BY (`.first()`, `.all()`, the candidate lists of `get_unification_name`) is modelled as returning rows in insertion order. The program leaves that order to the database, and SQLite may serve such a query from an index, for example the unique index on (standard_name_id, unit) or on name. That order decides which flagged unit is the standard unit and which candidate wins a tie in `extractOne`.
- Ids are naturals. In the program they are Python `int`, so a caller can pass a negative id. A lookup by a negative id finds nothing there, as in the model. But `add_unit_conversation` would store a conversion under a negative canonical-name id, and the model cannot express that.
- Formula text, the `x`→`value` substitution and Python `eval` are an abstract `Evaluator`. Float rounding is not modelled; values are reals.
- Unificator.BestIndex: rapidfuzz's `extractOne` is modelled as choosing the earliest candidate among equal best scores. The scorers themselves are abstract.
- Python default arguments are not modelled: every caller passes `is_standard` (default `False`, `units.py:5`) and `threshold` (default `80.0`, `unificator.py:38`) explicitly.
- Session handling, `print` messages and the wording of error strings are left out. Each message is an `AddOutcome`, `ConvertError`, `ConversionError`, `LookupError` or `Resolution` value.
- Division by zero in the reverse inversion is modelled as an inverse-formula error, as Python raises `ZeroDivisionError` there.
- Exceptions from the database engine itself (a lost connection, a locked file) are not modelled. The only commit failure modelled is the conversion pair constraint.

## Findings

| source | as written | input that shows it | evidently intended | confidence | as-written member | corrected member |
|---|---|---|---|---|---|---|
| medicalgrouplibrary/units.py:245-249 | the reverse branch evaluates `value / (g)` with g's variable bound to the input value, so a proportional formula `x * k` gives 1/k whatever the input | standard unit 1, unit 2, reverse row 1→2 with formula `x * 10`; converting 120 from unit 2 gives 0.1 | invert the standard-to-source factor: 120 / 10 = 12, i.e. divide by g evaluated at one | not executed | Units.ReverseCounterexample | Units.ConvertToStandardUnitCorrected |
