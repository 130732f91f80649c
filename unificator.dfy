/** Term unification of medicalgrouplibrary/unificator.py: resolving a raw
    analysis name to its canonical name, and registering a synonym. The
    fuzzy scorers are parameters bounded to 0..100. */
module Unificator {
  import opened Wrappers
  import opened Database

  /** A similarity score. */
  type Score = r: real | 0.0 <= r <= 100.0

  /** A scorer comparing the query with one candidate. */
  type Scorer = (string, string) -> Score

  /** The canonical name an input resolves to, the not-found message (which
      embeds the input), or the fixed error string the function returns when
      the resolution raises. */
  datatype Resolution = Resolved(name: string) | NotFound(input: string) | Failed

  /** Index of the best-scoring candidate, the earliest among equal best
      scores: the choice of process.extractOne. */
  function BestIndex(query: string, pool: seq<string>, scorer: Scorer): (k: nat)
    requires pool != []
    ensures k < |pool|
    ensures forall j :: 0 <= j < |pool| ==> scorer(query, pool[j]) <= scorer(query, pool[k])
    ensures forall j :: 0 <= j < k ==> scorer(query, pool[j]) < scorer(query, pool[k])
    decreases |pool|
  {
    if |pool| == 1 then 0
    else
      var k := BestIndex(query, pool[..|pool| - 1], scorer);
      if scorer(query, pool[|pool| - 1]) > scorer(query, pool[k]) then |pool| - 1 else k
  }

  function SynonymTexts(synonyms: seq<Synonym>): (r: seq<string>)
    ensures |r| == |synonyms| && forall i :: 0 <= i < |r| ==> r[i] == synonyms[i].text
  {
    seq(|synonyms|, i requires 0 <= i < |synonyms| => synonyms[i].text)
  }

  function NameTexts(names: seq<StandardName>): (r: seq<string>)
    ensures |r| == |names| && forall i :: 0 <= i < |r| ==> r[i] == names[i].name
  {
    seq(|names|, i requires 0 <= i < |names| => names[i].name)
  }

  /** The name a synonym row stands for; a row whose canonical name is gone
      makes the source raise. */
  function ParentName(names: seq<StandardName>, s: Synonym): (r: Resolution)
    ensures r.Resolved? ==> exists i :: 0 <= i < |names| && names[i].name == r.name && names[i].id == s.standardNameId
    ensures r.Failed? <==> forall i :: 0 <= i < |names| ==> names[i].id != s.standardNameId
    ensures !r.NotFound?
  {
    match NameById(names, s.standardNameId)
    case None => Failed
    case Some(n) => Resolved(n.name)
  }

  /** The first synonym row with a given text. */
  function SynonymByText(synonyms: seq<Synonym>, text: string): Option<Synonym>
  {
    First(synonyms, (s: Synonym) => s.text == text)
  }

  /** The steps after the whole-string check rejected its best candidate:
      the best partial match among canonical names. */
  function PartialStep(t: Tables, input: string, threshold: real, partial: Scorer): (r: Resolution)
    ensures r.Resolved? ==> exists i :: 0 <= i < |t.names| && t.names[i].name == r.name
    ensures r.NotFound? ==> r.input == input
  {
    var names := NameTexts(t.names);
    if names == [] then Failed
    else
      var k := BestIndex(input, names, partial);
      var pm := names[k];
      assert pm == t.names[k].name;
      if partial(input, pm) >= threshold then Resolved(pm) else NotFound(input)
  }

  /** The steps after both exact checks failed: the best whole-string match
      among synonym texts followed by canonical names. */
  function FuzzyStep(t: Tables, input: string, threshold: real, ratio: Scorer, partial: Scorer): (r: Resolution)
    ensures r.Resolved? ==> exists i :: 0 <= i < |t.names| && t.names[i].name == r.name
    ensures r.NotFound? ==> r.input == input
  {
    var synonyms := SynonymTexts(t.synonyms);
    var pool := synonyms + NameTexts(t.names);
    if pool == [] then Failed
    else
      var k := BestIndex(input, pool, ratio);
      var m := pool[k];
      assert k < |synonyms| ==> m in synonyms;
      assert k >= |synonyms| ==> m == t.names[k - |synonyms|].name;
      if ratio(input, m) >= threshold then
        if m in synonyms then
          match SynonymByText(t.synonyms, m)
          case Some(s) => ParentName(t.names, s)
          case None => Failed
        else Resolved(m)
      else PartialStep(t, input, threshold, partial)
  }

  /** get_unification_name: exact synonym, then exact canonical name, then
      the whole-string and partial fuzzy steps, then not found. */
  function GetUnificationName(t: Tables, input: string, threshold: real, ratio: Scorer, partial: Scorer)
    : (r: Resolution)
    ensures r.Resolved? ==> exists i :: 0 <= i < |t.names| && t.names[i].name == r.name
    ensures r.NotFound? ==> r.input == input
  {
    match SynonymByText(t.synonyms, input)
    case Some(s) => ParentName(t.names, s)
    case None =>
      if NameByText(t.names, input).Some? then Resolved(input)
      else FuzzyStep(t, input, threshold, ratio, partial)
  }

  /** An input that is a synonym resolves to the canonical name of the first
      synonym row with that text, whatever the threshold and the scorers. */
  lemma ExactSynonymWins(t: Tables, input: string, threshold: real, ratio: Scorer, partial: Scorer, j: nat)
    requires Consistent(t)
    requires j < |t.synonyms| && t.synonyms[j].text == input
    requires forall i :: 0 <= i < j ==> t.synonyms[i].text != input
    ensures GetUnificationName(t, input, threshold, ratio, partial) ==
            Resolved(t.names[t.synonyms[j].standardNameId - 1].name)
  {
    NameByIdInRange(t, t.synonyms[j].standardNameId);
  }

  /** An input that is no synonym but a canonical name resolves to itself,
      whatever the threshold and the scorers. */
  lemma ExactNameSecond(t: Tables, input: string, threshold: real, ratio: Scorer, partial: Scorer, j: nat)
    requires forall i :: 0 <= i < |t.synonyms| ==> t.synonyms[i].text != input
    requires j < |t.names| && t.names[j].name == input
    ensures GetUnificationName(t, input, threshold, ratio, partial) == Resolved(input)
  {
  }

  /** No exact match, no synonym nor name scoring at the threshold on the
      whole string, and no name scoring at it on parts: exactly then the
      input is not found. */
  lemma NotFoundIff(t: Tables, input: string, threshold: real, ratio: Scorer, partial: Scorer)
    ensures GetUnificationName(t, input, threshold, ratio, partial) == NotFound(input) <==>
      && (forall i :: 0 <= i < |t.synonyms| ==> t.synonyms[i].text != input)
      && (forall i :: 0 <= i < |t.names| ==> t.names[i].name != input)
      && t.names != []
      && (forall i :: 0 <= i < |t.synonyms| ==> ratio(input, t.synonyms[i].text) < threshold)
      && (forall i :: 0 <= i < |t.names| ==> ratio(input, t.names[i].name) < threshold)
      && (forall i :: 0 <= i < |t.names| ==> partial(input, t.names[i].name) < threshold)
  {
    if t.names != [] {
      PoolBest(t, input, ratio);
      var names := NameTexts(t.names);
      var pk := BestIndex(input, names, partial);
      assert names[pk] == t.names[pk].name;
    }
  }

  /** The best whole-string candidate scores at least as well as every
      synonym text and every canonical name, and is one of them. */
  lemma PoolBest(t: Tables, input: string, ratio: Scorer)
    requires SynonymTexts(t.synonyms) + NameTexts(t.names) != []
    ensures var pool := SynonymTexts(t.synonyms) + NameTexts(t.names);
            var m := pool[BestIndex(input, pool, ratio)];
            && (forall i :: 0 <= i < |t.synonyms| ==> ratio(input, t.synonyms[i].text) <= ratio(input, m))
            && (forall i :: 0 <= i < |t.names| ==> ratio(input, t.names[i].name) <= ratio(input, m))
            && ((exists i :: 0 <= i < |t.synonyms| && t.synonyms[i].text == m) ||
                (exists i :: 0 <= i < |t.names| && t.names[i].name == m))
  {
    var syns, names := SynonymTexts(t.synonyms), NameTexts(t.names);
    var pool := syns + names;
    var k := BestIndex(input, pool, ratio);
    forall i | 0 <= i < |t.synonyms|
      ensures ratio(input, t.synonyms[i].text) <= ratio(input, pool[k])
    {
      assert pool[i] == syns[i];
    }
    forall i | 0 <= i < |t.names|
      ensures ratio(input, t.names[i].name) <= ratio(input, pool[k])
    {
      assert pool[|syns| + i] == names[i];
    }
    if k < |syns| {
      assert pool[k] == t.synonyms[k].text;
    } else {
      assert pool[k] == t.names[k - |syns|].name;
    }
  }

  /** Raising the threshold never turns a not-found input into a found one. */
  lemma ThresholdMonotone(t: Tables, input: string, threshold: real, higher: real, ratio: Scorer, partial: Scorer)
    requires threshold <= higher
    requires GetUnificationName(t, input, threshold, ratio, partial) == NotFound(input)
    ensures GetUnificationName(t, input, higher, ratio, partial) == NotFound(input)
  {
    NotFoundIff(t, input, threshold, ratio, partial);
    NotFoundIff(t, input, higher, ratio, partial);
  }

  /** Once some candidate reaches the threshold on the whole string, the
      partial scorer is never consulted. */
  lemma PartialOnlyAfterFuzzy(t: Tables, input: string, threshold: real, ratio: Scorer, partial: Scorer,
                              other: Scorer, j: nat)
    requires j < |SynonymTexts(t.synonyms) + NameTexts(t.names)|
    requires ratio(input, (SynonymTexts(t.synonyms) + NameTexts(t.names))[j]) >= threshold
    ensures GetUnificationName(t, input, threshold, ratio, partial) ==
            GetUnificationName(t, input, threshold, ratio, other)
  {
    var pool := SynonymTexts(t.synonyms) + NameTexts(t.names);
    var k := BestIndex(input, pool, ratio);
    assert ratio(input, pool[j]) <= ratio(input, pool[k]);
  }

  /** A best whole-string candidate that is both a synonym text and a
      canonical name resolves through the synonym. */
  lemma SynonymBranchWins(t: Tables, input: string, threshold: real, ratio: Scorer, partial: Scorer, j: nat)
    requires Consistent(t)
    requires forall i :: 0 <= i < |t.synonyms| ==> t.synonyms[i].text != input
    requires forall i :: 0 <= i < |t.names| ==> t.names[i].name != input
    requires SynonymTexts(t.synonyms) + NameTexts(t.names) != []
    requires var pool := SynonymTexts(t.synonyms) + NameTexts(t.names);
             var m := pool[BestIndex(input, pool, ratio)];
             ratio(input, m) >= threshold && j < |t.synonyms| && t.synonyms[j].text == m &&
             forall i :: 0 <= i < j ==> t.synonyms[i].text != m
    ensures GetUnificationName(t, input, threshold, ratio, partial) ==
            Resolved(t.names[t.synonyms[j].standardNameId - 1].name)
  {
    var syns := SynonymTexts(t.synonyms);
    var pool := syns + NameTexts(t.names);
    var m := pool[BestIndex(input, pool, ratio)];
    assert syns[j] == m;
    assert SynonymByText(t.synonyms, m) == Some(t.synonyms[j]);
    NameByIdInRange(t, t.synonyms[j].standardNameId);
    assert FuzzyStep(t, input, threshold, ratio, partial) == Resolved(t.names[t.synonyms[j].standardNameId - 1].name);
    assert SynonymByText(t.synonyms, input).None?;
    assert NameByText(t.names, input).None?;
  }

  /** A best whole-string candidate that reaches the threshold and is no
      synonym text is a canonical name, and the input resolves to it. */
  lemma FuzzyNameAccepted(t: Tables, input: string, threshold: real, ratio: Scorer, partial: Scorer)
    requires forall i :: 0 <= i < |t.synonyms| ==> t.synonyms[i].text != input
    requires forall i :: 0 <= i < |t.names| ==> t.names[i].name != input
    requires SynonymTexts(t.synonyms) + NameTexts(t.names) != []
    requires var pool := SynonymTexts(t.synonyms) + NameTexts(t.names);
             var m := pool[BestIndex(input, pool, ratio)];
             ratio(input, m) >= threshold && m !in SynonymTexts(t.synonyms)
    ensures var pool := SynonymTexts(t.synonyms) + NameTexts(t.names);
            GetUnificationName(t, input, threshold, ratio, partial) == Resolved(pool[BestIndex(input, pool, ratio)])
  {
    assert SynonymByText(t.synonyms, input).None?;
    assert NameByText(t.names, input).None?;
  }

  /** When no exact match exists and every synonym and name falls below the
      threshold on the whole string, the best partial-scoring canonical name
      is the result once its partial score reaches the threshold. */
  lemma PartialAccepted(t: Tables, input: string, threshold: real, ratio: Scorer, partial: Scorer)
    requires forall i :: 0 <= i < |t.synonyms| ==> t.synonyms[i].text != input
    requires forall i :: 0 <= i < |t.names| ==> t.names[i].name != input
    requires forall i :: 0 <= i < |t.synonyms| ==> ratio(input, t.synonyms[i].text) < threshold
    requires forall i :: 0 <= i < |t.names| ==> ratio(input, t.names[i].name) < threshold
    requires t.names != []
    requires partial(input, t.names[BestIndex(input, NameTexts(t.names), partial)].name) >= threshold
    ensures GetUnificationName(t, input, threshold, ratio, partial) ==
            Resolved(t.names[BestIndex(input, NameTexts(t.names), partial)].name)
  {
    var syns, names := SynonymTexts(t.synonyms), NameTexts(t.names);
    var pool := syns + names;
    var k := BestIndex(input, pool, ratio);
    if k < |syns| {
      assert pool[k] == t.synonyms[k].text;
    } else {
      assert pool[k] == t.names[k - |syns|].name;
    }
    assert SynonymByText(t.synonyms, input).None?;
    assert NameByText(t.names, input).None?;
  }

  /** In a consistent store with a canonical name, the fuzzy steps never
      raise: every synonym's canonical name exists and the partial step has
      a name to choose from. */
  lemma FuzzyStepSucceeds(t: Tables, input: string, threshold: real, ratio: Scorer, partial: Scorer)
    requires Consistent(t) && t.names != []
    ensures FuzzyStep(t, input, threshold, ratio, partial) != Failed
  {
    var syns := SynonymTexts(t.synonyms);
    var pool := syns + NameTexts(t.names);
    var m := pool[BestIndex(input, pool, ratio)];
    if ratio(input, m) >= threshold && m in syns {
      var i :| 0 <= i < |syns| && syns[i] == m;
      assert t.synonyms[i].text == m;
      var s := SynonymByText(t.synonyms, m).value;
      var h :| 0 <= h < |t.synonyms| && t.synonyms[h] == s;
      NameByIdInRange(t, s.standardNameId);
    }
  }

  /** In a consistent store the resolution raises exactly when there is no
      canonical name at all. */
  lemma FailsOnlyOnEmptyStore(t: Tables, input: string, threshold: real, ratio: Scorer, partial: Scorer)
    requires Consistent(t)
    ensures GetUnificationName(t, input, threshold, ratio, partial) == Failed <==> t.names == []
  {
    if t.names == [] {
      assert SynonymTexts(t.synonyms) + NameTexts(t.names) == [];
    } else {
      match SynonymByText(t.synonyms, input)
      case Some(s) =>
        var i :| 0 <= i < |t.synonyms| && t.synonyms[i] == s;
        NameByIdInRange(t, s.standardNameId);
      case None =>
        FuzzyStepSucceeds(t, input, threshold, ratio, partial);
    }
  }

  // ------------------------------------------------------------ add_synonym

  /** The id `add_synonym` files the synonym under: the existing canonical
      name's, or the next id when it creates the name. */
  function TargetId(names: seq<StandardName>, standardName: string): nat
  {
    match NameByText(names, standardName)
    case Some(n) => n.id
    case None => |names| + 1
  }

  /** add_synonym on a snapshot: create the canonical name if no row has that
      name, then add the synonym unless the (name id, synonym) pair is
      present. */
  function InsertSynonym(t: Tables, standardName: string, synonym: string): (r: Insert)
    ensures r.tables.units == t.units && r.tables.conversions == t.conversions
    ensures r.tables.names == if NameByText(t.names, standardName).Some? then t.names
                              else t.names + [StandardName(|t.names| + 1, standardName)]
    ensures r.outcome in {Added, AlreadyExists}
    ensures r.outcome == AlreadyExists <==> Synonym(TargetId(t.names, standardName), synonym) in t.synonyms
    ensures r.tables.synonyms == if r.outcome == Added then t.synonyms + [Synonym(TargetId(t.names, standardName), synonym)]
                                 else t.synonyms
  {
    var names := if NameByText(t.names, standardName).Some? then t.names
                 else t.names + [StandardName(|t.names| + 1, standardName)];
    var id := TargetId(t.names, standardName);
    if Synonym(id, synonym) in t.synonyms then Insert(t.(names := names), AlreadyExists)
    else Insert(t.(names := names, synonyms := t.synonyms + [Synonym(id, synonym)]), Added)
  }

  /** Creating a canonical name no row has yet keeps the constraints. */
  lemma AppendNameConsistent(t: Tables, standardName: string)
    requires Consistent(t) && NameByText(t.names, standardName).None?
    ensures Consistent(t.(names := t.names + [StandardName(|t.names| + 1, standardName)]))
  {
    var n := t.names + [StandardName(|t.names| + 1, standardName)];
    forall i, j | 0 <= i < j < |n|
      ensures n[i].name != n[j].name
    {
      assert n[i] == t.names[i];
      if j < |t.names| {
        assert n[j] == t.names[j];
      }
    }
  }

  /** Adding a synonym row that is new and whose canonical name exists keeps
      the constraints. */
  lemma AppendSynonymConsistent(t: Tables, s: Synonym)
    requires Consistent(t) && 1 <= s.standardNameId <= |t.names| && s !in t.synonyms
    ensures Consistent(t.(synonyms := t.synonyms + [s]))
  {
    var y := t.synonyms + [s];
    forall i, j | 0 <= i < j < |y|
      ensures y[i] != y[j]
    {
      assert y[i] == t.synonyms[i];
      if j < |t.synonyms| {
        assert y[j] == t.synonyms[j];
      }
    }
  }

  /** add_synonym keeps the schema's constraints. */
  lemma InsertSynonymConsistent(t: Tables, standardName: string, synonym: string)
    requires Consistent(t)
    ensures Consistent(InsertSynonym(t, standardName, synonym).tables)
  {
    var id := TargetId(t.names, standardName);
    var t1 := t;
    if NameByText(t.names, standardName).None? {
      AppendNameConsistent(t, standardName);
      t1 := t.(names := t.names + [StandardName(|t.names| + 1, standardName)]);
    } else {
      var n := NameByText(t.names, standardName).value;
      var i :| 0 <= i < |t.names| && t.names[i] == n;
    }
    assert 1 <= id <= |t1.names|;
    if Synonym(id, synonym) !in t.synonyms {
      AppendSynonymConsistent(t1, Synonym(id, synonym));
    }
  }

  /** Adding the same synonym twice: the second call changes nothing. */
  lemma InsertSynonymTwice(t: Tables, standardName: string, synonym: string)
    ensures var once := InsertSynonym(t, standardName, synonym);
            var twice := InsertSynonym(once.tables, standardName, synonym);
            twice.tables == once.tables && twice.outcome == AlreadyExists
  {
    var once := InsertSynonym(t, standardName, synonym);
    var n := once.tables.names;
    if NameByText(t.names, standardName).None? {
      assert n[|n| - 1].name == standardName;
      assert NameByText(n, standardName).Some?;
      assert TargetId(n, standardName) == |t.names| + 1 by {
        var f := Find(n, (x: StandardName) => x.name == standardName);
        assert f.Some? && f.value == |n| - 1 by {
          assert forall j :: 0 <= j < |t.names| ==> n[j] == t.names[j];
        }
      }
    }
    assert TargetId(n, standardName) == TargetId(t.names, standardName);
  }

  /** add_synonym: the session inserts the rows decided on the snapshot. */
  method AddSynonym(db: Store, standardName: string, synonym: string) returns (outcome: AddOutcome)
    modifies db
    ensures old(db.Valid()) ==> db.Valid()
    ensures Insert(db.Snapshot(), outcome) == InsertSynonym(old(db.Snapshot()), standardName, synonym)
  {
    if db.Valid() {
      InsertSynonymConsistent(db.Snapshot(), standardName, synonym);
    }
    var entry := NameByText(db.names, standardName);
    var id: nat;
    if entry.None? {
      id := |db.names| + 1;
      db.names := db.names + [StandardName(id, standardName)];
    } else {
      id := entry.value.id;
    }
    if Synonym(id, synonym) in db.synonyms {
      return AlreadyExists;
    }
    db.synonyms := db.synonyms + [Synonym(id, synonym)];
    outcome := Added;
  }
}
