/** The conversion graph of one canonical name and the breadth-first search
    that calculate_conversion runs over it (medicalgrouplibrary/units.py). */
module ConversionGraph {
  import opened Wrappers
  import opened Database

  /** The formula interpreter: formula text and the value bound to its free
      variable, to a number, or None when evaluation fails. It stands for the
      `eval` of the repository and is left abstract. */
  type Evaluator = (string, real) -> Option<real>

  /** One adjacency entry: target unit and formula. */
  datatype Edge = Edge(to: nat, formula: string)

  /** Adjacency lists keyed by source unit id. */
  type Graph = map<nat, seq<Edge>>

  /** One traversed edge of a conversion path: (from-id, to-id, formula). */
  datatype Step = Step(from: nat, to: nat, formula: string)

  /** The edges the rows give unit `u`, in row order (reference definition of
      the adjacency list). */
  function EdgesFrom(rows: seq<ConversionRow>, u: nat): seq<Edge>
    decreases |rows|
  {
    if rows == [] then []
    else
      var c := rows[|rows| - 1];
      EdgesFrom(rows[..|rows| - 1], u) + (if c.fromUnitId == u then [Edge(c.toUnitId, c.formula)] else [])
  }

  /** `e` is in unit `u`'s adjacency list. */
  predicate IsEdge(rows: seq<ConversionRow>, u: nat, e: Edge)
  {
    e in EdgesFrom(rows, u)
  }

  /** `graph.get(u, [])`. */
  function Out(g: Graph, u: nat): seq<Edge>
  {
    if u in g then g[u] else []
  }

  /** An edge is in a unit's list exactly when some row goes from that unit
      with that target and formula: every row is present and no reverse edge
      is invented. */
  lemma {:induction false} EdgesFromIff(rows: seq<ConversionRow>, u: nat, e: Edge)
    ensures e in EdgesFrom(rows, u) <==>
      exists i :: 0 <= i < |rows| && rows[i].fromUnitId == u && e == Edge(rows[i].toUnitId, rows[i].formula)
    decreases |rows|
  {
    if rows != [] {
      var n := |rows| - 1;
      var init := rows[..n];
      EdgesFromIff(init, u, e);
      if e in EdgesFrom(init, u) {
        var i :| 0 <= i < |init| && init[i].fromUnitId == u && e == Edge(init[i].toUnitId, init[i].formula);
        assert rows[i] == init[i];
      }
      if exists i :: 0 <= i < |rows| && rows[i].fromUnitId == u && e == Edge(rows[i].toUnitId, rows[i].formula) {
        var i :| 0 <= i < |rows| && rows[i].fromUnitId == u && e == Edge(rows[i].toUnitId, rows[i].formula);
        if i < n { assert init[i] == rows[i]; }
      }
    }
  }

  /** Adjacency lists keep row order: the lists of a concatenation of row
      sequences are the concatenated lists (duplicates are kept). */
  lemma {:induction false} EdgesFromAppend(a: seq<ConversionRow>, b: seq<ConversionRow>, u: nat)
    ensures EdgesFrom(a + b, u) == EdgesFrom(a, u) + EdgesFrom(b, u)
    decreases |b|
  {
    if b == [] {
      assert a + b == a;
    } else {
      var n := |b| - 1;
      assert (a + b)[..|a + b| - 1] == a + b[..n];
      EdgesFromAppend(a, b[..n], u);
    }
  }

  /** Builds the adjacency map the way calculate_conversion does: one pass
      over the rows, creating a key on first sight and appending. */
  method BuildGraph(rows: seq<ConversionRow>) returns (g: Graph)
    ensures forall u :: Out(g, u) == EdgesFrom(rows, u)
    ensures forall u :: u in g <==> EdgesFrom(rows, u) != []
  {
    g := map[];
    for i := 0 to |rows|
      invariant forall u :: Out(g, u) == EdgesFrom(rows[..i], u)
      invariant forall u :: u in g ==> g[u] != []
    {
      var c := rows[i];
      assert rows[..i + 1][..i] == rows[..i];
      if c.fromUnitId !in g {
        g := g[c.fromUnitId := []];
      }
      g := g[c.fromUnitId := g[c.fromUnitId] + [Edge(c.toUnitId, c.formula)]];
    }
    assert rows[..|rows|] == rows;
  }

  /** A step is stored when its edge is in its source unit's list. */
  predicate Stored(rows: seq<ConversionRow>, s: Step)
  {
    Edge(s.to, s.formula) in EdgesFrom(rows, s.from)
  }

  /** `p` is a path of stored edges leading from unit `a` to unit `b`. */
  predicate IsChain(rows: seq<ConversionRow>, a: nat, p: seq<Step>, b: nat)
    decreases |p|
  {
    if p == [] then a == b
    else
      var last := p[|p| - 1];
      last.to == b && Stored(rows, last) && IsChain(rows, a, p[..|p| - 1], last.from)
  }

  /** Folds the path's formulas over `x`, first step first. */
  function Apply(eval: Evaluator, x: real, p: seq<Step>): Option<real>
    decreases |p|
  {
    if p == [] then Some(x)
    else
      match Apply(eval, x, p[..|p| - 1])
      case None => None
      case Some(y) => eval(p[|p| - 1].formula, y)
  }

  /** A chain starts at `a`, ends at `b`, every step is stored, and each step's
      target is the next step's source. */
  lemma {:induction false} ChainLinks(rows: seq<ConversionRow>, a: nat, p: seq<Step>, b: nat)
    requires IsChain(rows, a, p, b)
    ensures p == [] ==> a == b
    ensures p != [] ==> p[0].from == a && p[|p| - 1].to == b
    ensures forall i :: 0 <= i < |p| ==> Stored(rows, p[i])
    ensures forall i :: 0 <= i < |p| - 1 ==> p[i].to == p[i + 1].from
    decreases |p|
  {
    if p != [] {
      var n := |p| - 1;
      ChainLinks(rows, a, p[..n], p[n].from);
      assert forall i :: 0 <= i < n ==> p[..n][i] == p[i];
    }
  }

  /** `p` is a stored chain from `a` whose last formula fails on the value the
      rest of the chain produced from `x`. */
  predicate BreaksOn(rows: seq<ConversionRow>, eval: Evaluator, x: real, a: nat, p: seq<Step>, f: string)
  {
    && p != []
    && p[|p| - 1].formula == f
    && IsChain(rows, a, p, p[|p| - 1].to)
    && Apply(eval, x, p[..|p| - 1]).Some?
    && Apply(eval, x, p).None?
  }

  /** A queued search state: current unit, running value, path so far. */
  datatype SearchState = SearchState(unit: nat, value: real, path: seq<Step>)

  datatype SearchOutcome = Reached(value: real, path: seq<Step>) | Unreachable | Broken(formula: string)

  /** Unit `w` has a queued state whose path has at most `bound` steps. */
  ghost predicate Queued(queue: seq<SearchState>, w: nat, bound: nat)
  {
    exists i :: 0 <= i < |queue| && queue[i].unit == w && |queue[i].path| <= bound
  }

  lemma QueuedPop(queue: seq<SearchState>, w: nat, bound: nat)
    requires queue != [] && Queued(queue, w, bound)
    ensures queue[0].unit == w || Queued(queue[1..], w, bound)
  {
    var i :| 0 <= i < |queue| && queue[i].unit == w && |queue[i].path| <= bound;
    if i > 0 { assert queue[1..][i - 1] == queue[i]; }
  }

  /** The units a search from `source` can ever queue. */
  ghost function Nodes(rows: seq<ConversionRow>, source: nat): set<nat>
  {
    {source} + set c | c in rows :: c.toUnitId
  }

  /** A queued state is a stored chain from the source whose fold gives the
      state's value, `depth` or `depth + 1` steps long. */
  ghost predicate StateOk(rows: seq<ConversionRow>, eval: Evaluator, value: real, source: nat,
                          depth: nat, x: SearchState)
  {
    && x.unit in Nodes(rows, source)
    && IsChain(rows, source, x.path, x.unit)
    && Apply(eval, value, x.path) == Some(x.value)
    && depth <= |x.path| <= depth + 1
  }

  /** Every queued state is well formed, and short paths come first. */
  ghost predicate WellQueued(rows: seq<ConversionRow>, eval: Evaluator, value: real, source: nat,
                             depth: nat, queue: seq<SearchState>)
  {
    && (forall i :: 0 <= i < |queue| ==> StateOk(rows, eval, value, source, depth, queue[i]))
    && (forall i, j :: 0 <= i < j < |queue| ==> |queue[i].path| <= |queue[j].path|)
  }

  /** A visited unit was expanded at `level[u]` steps, and no chain reaches it in
      fewer; every unit some chain reaches in fewer than `depth` steps is visited. */
  ghost predicate Layered(rows: seq<ConversionRow>, source: nat, visited: set<nat>, level: map<nat, nat>, depth: nat)
  {
    && visited == level.Keys
    && (forall u: nat, p: seq<Step> {:trigger IsChain(rows, source, p, u)} :: u in visited && IsChain(rows, source, p, u) ==> level[u] <= |p|)
    && (forall p: seq<Step>, w: nat {:trigger IsChain(rows, source, p, w)} :: IsChain(rows, source, p, w) && |p| < depth ==> w in visited)
  }

  /** The source and every edge target of an `expanded` unit are either in
      `reached` or still queued no deeper than one step past their predecessor. */
  ghost predicate Covered(rows: seq<ConversionRow>, source: nat, expanded: set<nat>, reached: set<nat>,
                          level: map<nat, nat>, queue: seq<SearchState>)
  {
    && (source in reached || Queued(queue, source, 0))
    && (forall u: nat, e: Edge {:trigger IsEdge(rows, u, e)} :: u in expanded && IsEdge(rows, u, e) ==>
          u in level && (e.to in reached || Queued(queue, e.to, level[u] + 1)))
  }

  /** Dequeuing the front state keeps the queue well formed, and whatever the
      front state covered is covered by its unit. */
  lemma Pop(rows: seq<ConversionRow>, eval: Evaluator, value: real, source: nat, depth: nat,
            visited: set<nat>, level: map<nat, nat>, queue: seq<SearchState>)
    requires queue != []
    requires WellQueued(rows, eval, value, source, depth, queue)
    requires Covered(rows, source, visited, visited, level, queue)
    ensures WellQueued(rows, eval, value, source, depth, queue[1..])
    ensures Covered(rows, source, visited, visited + {queue[0].unit}, level, queue[1..])
  {
    var reached := visited + {queue[0].unit};
    forall u: nat, e: Edge | u in visited && IsEdge(rows, u, e)
      ensures u in level && (e.to in reached || Queued(queue[1..], e.to, level[u] + 1))
    {
      if e.to !in reached { QueuedPop(queue, e.to, level[u] + 1); }
    }
    if source !in reached {
      QueuedPop(queue, source, 0);
    }
  }

  /** The state the search queues for edge `e` out of state `st`. */
  predicate Successor(eval: Evaluator, st: SearchState, e: Edge, x: SearchState)
  {
    && x.unit == e.to
    && x.path == st.path + [Step(st.unit, e.to, e.formula)]
    && eval(e.formula, st.value) == Some(x.value)
  }

  /** The inner loop of the search: evaluates each edge of `st`'s unit on
      `st`'s value and queues the successor, stopping at the first formula
      that fails. */
  method Expand(eval: Evaluator, st: SearchState, edges: seq<Edge>, queue: seq<SearchState>)
    returns (q: seq<SearchState>, broken: Option<nat>)
    ensures broken.Some? ==> broken.value < |edges| && eval(edges[broken.value].formula, st.value).None?
    ensures broken.Some? ==> forall j :: 0 <= j < broken.value ==> eval(edges[j].formula, st.value).Some?
    ensures broken.None? ==> |q| == |queue| + |edges| && q[..|queue|] == queue
    ensures broken.None? ==> forall j :: 0 <= j < |edges| ==> Successor(eval, st, edges[j], q[|queue| + j])
  {
    q := queue;
    for k := 0 to |edges|
      invariant |q| == |queue| + k && q[..|queue|] == queue
      invariant forall j :: 0 <= j < k ==> Successor(eval, st, edges[j], q[|queue| + j])
    {
      var next := eval(edges[k].formula, st.value);
      if next.None? {
        return q, Some(k);
      }
      q := q + [SearchState(edges[k].to, next.value, st.path + [Step(st.unit, edges[k].to, edges[k].formula)])];
    }
    broken := None;
  }

  /** A successor of a well-formed state is a stored chain one step longer. */
  lemma SuccessorChain(rows: seq<ConversionRow>, eval: Evaluator, value: real, source: nat,
                       st: SearchState, e: Edge, x: SearchState)
    requires IsChain(rows, source, st.path, st.unit) && Apply(eval, value, st.path) == Some(st.value)
    requires e in EdgesFrom(rows, st.unit)
    requires Successor(eval, st, e, x)
    ensures IsChain(rows, source, x.path, x.unit) && Apply(eval, value, x.path) == Some(x.value)
    ensures x.unit in Nodes(rows, source)
  {
    assert x.path[..|x.path| - 1] == st.path;
    EdgesFromIff(rows, st.unit, e);
    var i :| 0 <= i < |rows| && rows[i].fromUnitId == st.unit && e == Edge(rows[i].toUnitId, rows[i].formula);
    assert rows[i] in rows;
  }

  /** Appending the successors of a well-formed state at `depth` keeps the
      queue well formed. */
  lemma AppendSuccessors(rows: seq<ConversionRow>, eval: Evaluator, value: real, source: nat, depth: nat,
                         st: SearchState, rest: seq<SearchState>, q: seq<SearchState>)
    requires |st.path| == depth
    requires IsChain(rows, source, st.path, st.unit) && Apply(eval, value, st.path) == Some(st.value)
    requires WellQueued(rows, eval, value, source, depth, rest)
    requires |q| == |rest| + |EdgesFrom(rows, st.unit)| && q[..|rest|] == rest
    requires forall j :: 0 <= j < |EdgesFrom(rows, st.unit)| ==>
               Successor(eval, st, EdgesFrom(rows, st.unit)[j], q[|rest| + j])
    ensures WellQueued(rows, eval, value, source, depth, q)
  {
    var edges := EdgesFrom(rows, st.unit);
    forall i | 0 <= i < |q|
      ensures StateOk(rows, eval, value, source, depth, q[i])
    {
      if i < |rest| {
        assert q[i] == rest[i];
      } else {
        var j := i - |rest|;
        assert edges[j] in edges;
        SuccessorChain(rows, eval, value, source, st, edges[j], q[i]);
      }
    }
    AppendSorted(eval, depth, st, edges, rest, q);
  }

  /** Successors are one step longer than their state, so appending those of
      a state at the front's depth keeps path lengths in order. */
  lemma AppendSorted(eval: Evaluator, depth: nat, st: SearchState, edges: seq<Edge>,
                     rest: seq<SearchState>, q: seq<SearchState>)
    requires |st.path| == depth
    requires forall i :: 0 <= i < |rest| ==> depth <= |rest[i].path| <= depth + 1
    requires forall i, j :: 0 <= i < j < |rest| ==> |rest[i].path| <= |rest[j].path|
    requires |q| == |rest| + |edges| && q[..|rest|] == rest
    requires forall j :: 0 <= j < |edges| ==> Successor(eval, st, edges[j], q[|rest| + j])
    ensures forall i, j :: 0 <= i < j < |q| ==> |q[i].path| <= |q[j].path|
  {
    forall i, j | 0 <= i < j < |q|
      ensures |q[i].path| <= |q[j].path|
    {
      if j < |rest| {
        assert q[i] == rest[i] && q[j] == rest[j];
      } else {
        var k := j - |rest|;
        assert Successor(eval, st, edges[k], q[|rest| + k]);
        if i < |rest| {
          assert q[i] == rest[i];
        } else {
          assert Successor(eval, st, edges[i - |rest|], q[|rest| + (i - |rest|)]);
        }
      }
    }
  }

  /** Recording the front state's unit as visited at `depth` keeps the layer
      invariant: no chain reaches that unit in fewer steps. */
  lemma VisitLayered(rows: seq<ConversionRow>, source: nat, depth: nat,
                     visited: set<nat>, level: map<nat, nat>, u: nat)
    requires u !in visited
    requires Layered(rows, source, visited, level, depth)
    ensures Layered(rows, source, visited + {u}, level[u := depth], depth)
  {
    forall v: nat, p: seq<Step> | v in visited + {u} && IsChain(rows, source, p, v)
      ensures level[u := depth][v] <= |p|
    {
    }
  }

  /** After the front state's unit is visited and its successors appended,
      every edge of a visited unit is covered again. */
  lemma VisitCovered(rows: seq<ConversionRow>, eval: Evaluator, source: nat, depth: nat,
                     visited: set<nat>, level: map<nat, nat>, st: SearchState, rest: seq<SearchState>, q: seq<SearchState>)
    requires st.unit !in visited && |st.path| == depth
    requires Covered(rows, source, visited, visited + {st.unit}, level, rest)
    requires |q| == |rest| + |EdgesFrom(rows, st.unit)| && q[..|rest|] == rest
    requires forall j :: 0 <= j < |EdgesFrom(rows, st.unit)| ==>
               Successor(eval, st, EdgesFrom(rows, st.unit)[j], q[|rest| + j])
    ensures Covered(rows, source, visited + {st.unit}, visited + {st.unit}, level[st.unit := depth], q)
  {
    var edges := EdgesFrom(rows, st.unit);
    var visited', level' := visited + {st.unit}, level[st.unit := depth];
    forall u: nat, e: Edge | u in visited' && IsEdge(rows, u, e)
      ensures u in level' && (e.to in visited' || Queued(q, e.to, level'[u] + 1))
    {
      if u == st.unit {
        var j :| 0 <= j < |edges| && edges[j] == e;
        assert Successor(eval, st, edges[j], q[|rest| + j]);
      } else if e.to !in visited' {
        var i :| 0 <= i < |rest| && rest[i].unit == e.to && |rest[i].path| <= level[u] + 1;
        assert q[i] == rest[i];
      }
    }
    if source !in visited' {
      var i :| 0 <= i < |rest| && rest[i].unit == source && |rest[i].path| <= 0;
      assert q[i] == rest[i];
    }
  }

  /** Once no queued state is as short as `depth`, every unit a chain of
      `depth` steps reaches has been visited, and the search moves one layer on. */
  lemma DepthAdvance(rows: seq<ConversionRow>, eval: Evaluator, value: real, source: nat,
                     visited: set<nat>, level: map<nat, nat>, queue: seq<SearchState>, depth: nat)
    requires queue != [] && |queue[0].path| != depth
    requires WellQueued(rows, eval, value, source, depth, queue)
    requires Layered(rows, source, visited, level, depth)
    requires Covered(rows, source, visited, visited, level, queue)
    ensures WellQueued(rows, eval, value, source, depth + 1, queue)
    ensures Layered(rows, source, visited, level, depth + 1)
  {
    forall i | 0 <= i < |queue|
      ensures |queue[i].path| == depth + 1
    {
      if i > 0 { assert |queue[0].path| <= |queue[i].path|; }
    }
    forall p: seq<Step>, w: nat | IsChain(rows, source, p, w) && |p| < depth + 1
      ensures w in visited
    {
      if p == [] {
        assert w == source;
      } else if |p| == depth {
        var n := |p| - 1;
        var u := p[n].from;
        assert IsChain(rows, source, p[..n], u);
        assert u in visited;
        assert level[u] <= n;
        assert IsEdge(rows, u, Edge(w, p[n].formula));
      }
    }
  }

  /** When the visited set contains the source and is closed under edges,
      every chain from the source ends in it. */
  lemma {:induction false} ClosedReach(rows: seq<ConversionRow>, source: nat, visited: set<nat>, p: seq<Step>, w: nat)
    requires source in visited
    requires forall u: nat, e: Edge {:trigger IsEdge(rows, u, e)} :: u in visited && IsEdge(rows, u, e) ==> e.to in visited
    requires IsChain(rows, source, p, w)
    ensures w in visited
    decreases |p|
  {
    if p != [] {
      var n := |p| - 1;
      ClosedReach(rows, source, visited, p[..n], p[n].from);
      assert IsEdge(rows, p[n].from, Edge(w, p[n].formula));
    }
  }

  /** The loop invariant of the search, less the depth of the front state. */
  ghost predicate SearchInv(rows: seq<ConversionRow>, eval: Evaluator, value: real, source: nat, target: nat,
                            visited: set<nat>, level: map<nat, nat>, depth: nat, queue: seq<SearchState>)
  {
    && visited <= Nodes(rows, source) && target !in visited
    && WellQueued(rows, eval, value, source, depth, queue)
    && Layered(rows, source, visited, level, depth)
    && Covered(rows, source, visited, visited, level, queue)
  }

  /** Every formula on an edge out of `w` evaluates at `y`. */
  predicate EdgesDefined(rows: seq<ConversionRow>, eval: Evaluator, w: nat, y: real)
  {
    forall e :: e in EdgesFrom(rows, w) ==> eval(e.formula, y).Some?
  }

  /** Unit `w` ends a stored chain from the source of at most `bound` steps
      whose fold is defined and on whose value every formula out of `w`
      evaluates: expanding `w` from that chain raises nothing. */
  ghost predicate ExpandedCleanly(rows: seq<ConversionRow>, eval: Evaluator, value: real, source: nat,
                                  w: nat, bound: nat)
  {
    exists p :: |p| <= bound && ExpandedFrom(rows, eval, value, source, w, p)
  }

  /** `p` is a stored chain from the source to `w` whose fold is defined and
      on whose value every formula out of `w` evaluates. */
  ghost predicate ExpandedFrom(rows: seq<ConversionRow>, eval: Evaluator, value: real, source: nat,
                               w: nat, p: seq<Step>)
  {
    IsChain(rows, source, p, w) && Apply(eval, value, p).Some? && EdgesDefined(rows, eval, w, Apply(eval, value, p).value)
  }

  /** Each visited unit was expanded from the chain `via` records for it, one
      as long as its level, and every formula out of it succeeded there. */
  ghost predicate Clean(rows: seq<ConversionRow>, eval: Evaluator, value: real, source: nat,
                        visited: set<nat>, level: map<nat, nat>, via: map<nat, seq<Step>>)
  {
    forall w :: w in visited ==>
      w in via && w in level && |via[w]| == level[w] && ExpandedFrom(rows, eval, value, source, w, via[w])
  }

  /** Expanding the front state with every formula succeeding expands its
      unit cleanly from the front state's chain. */
  lemma FrontExpanded(rows: seq<ConversionRow>, eval: Evaluator, value: real, source: nat, target: nat,
                      visited: set<nat>, level: map<nat, nat>, depth: nat,
                      queue: seq<SearchState>, edges: seq<Edge>, rest: seq<SearchState>, q: seq<SearchState>)
    requires SearchInv(rows, eval, value, source, target, visited, level, depth, queue)
    requires queue != []
    requires edges == EdgesFrom(rows, queue[0].unit) && |q| == |rest| + |edges|
    requires forall j :: 0 <= j < |edges| ==> Successor(eval, queue[0], edges[j], q[|rest| + j])
    ensures ExpandedFrom(rows, eval, value, source, queue[0].unit, queue[0].path)
  {
    var st := queue[0];
    assert StateOk(rows, eval, value, source, depth, st);
    forall e | e in edges
      ensures eval(e.formula, st.value).Some?
    {
      var j :| 0 <= j < |edges| && edges[j] == e;
      assert Successor(eval, st, edges[j], q[|rest| + j]);
    }
  }

  /** Recording a unit expanded cleanly from a chain as long as its level
      keeps the record. */
  lemma VisitClean(rows: seq<ConversionRow>, eval: Evaluator, value: real, source: nat,
                   visited: set<nat>, level: map<nat, nat>, via: map<nat, seq<Step>>, u: nat, p: seq<Step>, d: nat)
    requires Clean(rows, eval, value, source, visited, level, via)
    requires ExpandedFrom(rows, eval, value, source, u, p) && |p| == d
    ensures Clean(rows, eval, value, source, visited + {u}, level[u := d], via[u := p])
  {
  }

  /** When the search stops at the target at `depth`, every unit some chain
      reaches in fewer steps was expanded cleanly from a chain no longer. */
  lemma CleanBefore(rows: seq<ConversionRow>, eval: Evaluator, value: real, source: nat, target: nat,
                    visited: set<nat>, level: map<nat, nat>, via: map<nat, seq<Step>>, depth: nat,
                    queue: seq<SearchState>)
    requires SearchInv(rows, eval, value, source, target, visited, level, depth, queue)
    requires Clean(rows, eval, value, source, visited, level, via)
    ensures forall w: nat, q: seq<Step> :: IsChain(rows, source, q, w) && |q| < depth ==>
              ExpandedCleanly(rows, eval, value, source, w, |q|)
    ensures depth > 0 ==> EdgesDefined(rows, eval, source, value)
  {
    forall w: nat, q: seq<Step> | IsChain(rows, source, q, w) && |q| < depth
      ensures ExpandedCleanly(rows, eval, value, source, w, |q|)
    {
      assert w in visited;
      var p := via[w];
      assert |p| <= |q| && ExpandedFrom(rows, eval, value, source, w, p);
    }
    if depth > 0 {
      assert IsChain(rows, source, [], source);
      assert source in visited;
      assert via[source] == [];
    }
  }

  /** The search starts with the source state alone and nothing visited. */
  lemma Start(rows: seq<ConversionRow>, eval: Evaluator, value: real, source: nat, target: nat)
    ensures SearchInv(rows, eval, value, source, target, {}, map[], 0, [SearchState(source, value, [])])
  {
    var queue := [SearchState(source, value, [])];
    assert queue[0].unit == source;
  }

  /** A front state at the target carries a shortest chain to it. */
  lemma FoundTarget(rows: seq<ConversionRow>, eval: Evaluator, value: real, source: nat, target: nat,
                    visited: set<nat>, level: map<nat, nat>, depth: nat, queue: seq<SearchState>)
    requires SearchInv(rows, eval, value, source, target, visited, level, depth, queue)
    requires queue != [] && |queue[0].path| == depth && queue[0].unit == target
    ensures IsChain(rows, source, queue[0].path, target) && Apply(eval, value, queue[0].path) == Some(queue[0].value)
    ensures forall p :: IsChain(rows, source, p, target) ==> |queue[0].path| <= |p|
    ensures source == target ==> queue[0] == SearchState(source, value, [])
  {
    assert StateOk(rows, eval, value, source, depth, queue[0]);
    if source == target {
      assert IsChain(rows, source, [], target);
    }
  }

  /** A front state whose unit is already visited is dropped. */
  lemma SkipVisited(rows: seq<ConversionRow>, eval: Evaluator, value: real, source: nat, target: nat,
                    visited: set<nat>, level: map<nat, nat>, depth: nat, queue: seq<SearchState>)
    requires SearchInv(rows, eval, value, source, target, visited, level, depth, queue)
    requires queue != [] && queue[0].unit in visited
    ensures SearchInv(rows, eval, value, source, target, visited, level, depth, queue[1..])
  {
    Pop(rows, eval, value, source, depth, visited, level, queue);
    assert visited + {queue[0].unit} == visited;
  }

  /** Expanding a front state that is not visited yet, with every formula
      succeeding, visits its unit at the current depth. */
  lemma VisitStep(rows: seq<ConversionRow>, eval: Evaluator, value: real, source: nat, target: nat,
                  visited: set<nat>, level: map<nat, nat>, depth: nat, queue: seq<SearchState>,
                  edges: seq<Edge>, rest: seq<SearchState>, q: seq<SearchState>)
    requires SearchInv(rows, eval, value, source, target, visited, level, depth, queue)
    requires queue != [] && |queue[0].path| == depth && queue[0].unit !in visited && queue[0].unit != target
    requires edges == EdgesFrom(rows, queue[0].unit) && rest == queue[1..]
    requires |q| == |rest| + |edges| && q[..|rest|] == rest
    requires forall j :: 0 <= j < |edges| ==> Successor(eval, queue[0], edges[j], q[|rest| + j])
    ensures SearchInv(rows, eval, value, source, target, visited + {queue[0].unit}, level[queue[0].unit := depth], depth, q)
    ensures |Nodes(rows, source) - (visited + {queue[0].unit})| < |Nodes(rows, source) - visited|
  {
    var st := queue[0];
    assert StateOk(rows, eval, value, source, depth, st);
    Pop(rows, eval, value, source, depth, visited, level, queue);
    AppendSuccessors(rows, eval, value, source, depth, st, rest, q);
    VisitCovered(rows, eval, source, depth, visited, level, st, rest, q);
    VisitLayered(rows, source, depth, visited, level, st.unit);
    assert Nodes(rows, source) - (visited + {st.unit}) < Nodes(rows, source) - visited by {
      assert st.unit in Nodes(rows, source) - visited;
    }
  }

  /** A formula failing on an edge out of a stored chain breaks that chain. */
  lemma BrokenEdge(rows: seq<ConversionRow>, eval: Evaluator, value: real, source: nat, st: SearchState, k: nat)
    returns (p: seq<Step>)
    requires IsChain(rows, source, st.path, st.unit) && Apply(eval, value, st.path) == Some(st.value)
    requires k < |EdgesFrom(rows, st.unit)|
    requires eval(EdgesFrom(rows, st.unit)[k].formula, st.value).None?
    ensures p == st.path + [Step(st.unit, EdgesFrom(rows, st.unit)[k].to, EdgesFrom(rows, st.unit)[k].formula)]
    ensures BreaksOn(rows, eval, value, source, p, EdgesFrom(rows, st.unit)[k].formula)
  {
    var e := EdgesFrom(rows, st.unit)[k];
    p := st.path + [Step(st.unit, e.to, e.formula)];
    assert p[..|p| - 1] == st.path;
    assert e in EdgesFrom(rows, st.unit);
  }

  /** While the target is not visited, no chain reaches it in fewer steps
      than the current depth. */
  lemma TargetDeep(rows: seq<ConversionRow>, source: nat, target: nat,
                   visited: set<nat>, level: map<nat, nat>, depth: nat)
    requires Layered(rows, source, visited, level, depth) && target !in visited
    ensures forall q :: IsChain(rows, source, q, target) ==> depth <= |q|
  {
  }

  /** A formula failing on an edge of the front state, which is not the
      target, breaks a stored chain that leaves a unit other than the target
      and is at most one step longer than any chain to the target: the search
      fails only on a formula it meets before it could reach the target. */
  lemma BrokenShallow(rows: seq<ConversionRow>, eval: Evaluator, value: real, source: nat, target: nat,
                      visited: set<nat>, level: map<nat, nat>, depth: nat, queue: seq<SearchState>, k: nat)
    requires SearchInv(rows, eval, value, source, target, visited, level, depth, queue)
    requires queue != [] && |queue[0].path| == depth && queue[0].unit != target
    requires k < |EdgesFrom(rows, queue[0].unit)|
    requires eval(EdgesFrom(rows, queue[0].unit)[k].formula, queue[0].value).None?
    ensures exists p: seq<Step> ::
              && BreaksOn(rows, eval, value, source, p, EdgesFrom(rows, queue[0].unit)[k].formula)
              && p[|p| - 1].from != target
              && forall q :: IsChain(rows, source, q, target) ==> |p| <= |q| + 1
  {
    var st := queue[0];
    assert StateOk(rows, eval, value, source, depth, st);
    var p := BrokenEdge(rows, eval, value, source, st, k);
    TargetDeep(rows, source, target, visited, level, depth);
  }

  /** When the queue runs empty, every unit any chain reaches was expanded
      cleanly from a chain no longer: no formula failed anywhere the search
      went. */
  lemma ExhaustedClean(rows: seq<ConversionRow>, eval: Evaluator, value: real, source: nat, target: nat,
                       visited: set<nat>, level: map<nat, nat>, via: map<nat, seq<Step>>, depth: nat)
    requires SearchInv(rows, eval, value, source, target, visited, level, depth, [])
    requires Clean(rows, eval, value, source, visited, level, via)
    ensures forall w: nat, q: seq<Step> :: IsChain(rows, source, q, w) ==>
              ExpandedCleanly(rows, eval, value, source, w, |q|)
  {
    forall w: nat, q: seq<Step> | IsChain(rows, source, q, w)
      ensures ExpandedCleanly(rows, eval, value, source, w, |q|)
    {
      ClosedReach(rows, source, visited, q, w);
      var p := via[w];
      assert |p| <= |q| && ExpandedFrom(rows, eval, value, source, w, p);
    }
  }

  /** Once no queued state is as short as `depth`, the search moves one layer on. */
  lemma Advance(rows: seq<ConversionRow>, eval: Evaluator, value: real, source: nat, target: nat,
                visited: set<nat>, level: map<nat, nat>, depth: nat, queue: seq<SearchState>)
    returns (d: nat)
    requires SearchInv(rows, eval, value, source, target, visited, level, depth, queue)
    ensures SearchInv(rows, eval, value, source, target, visited, level, d, queue)
    ensures queue != [] ==> |queue[0].path| == d
  {
    d := depth;
    if queue != [] && |queue[0].path| != depth {
      assert StateOk(rows, eval, value, source, depth, queue[0]);
      DepthAdvance(rows, eval, value, source, visited, level, queue, depth);
      d := depth + 1;
    }
  }

  /** An empty queue means the visited units are closed under edges, so no
      chain reaches the target. */
  lemma Exhausted(rows: seq<ConversionRow>, eval: Evaluator, value: real, source: nat, target: nat,
                  visited: set<nat>, level: map<nat, nat>, depth: nat)
    requires SearchInv(rows, eval, value, source, target, visited, level, depth, [])
    ensures forall p :: !IsChain(rows, source, p, target)
  {
    forall p: seq<Step> | IsChain(rows, source, p, target)
      ensures false
    {
      ClosedReach(rows, source, visited, p, target);
    }
  }

  /** The breadth-first search of calculate_conversion. States carry their
      own value and path; a unit is marked visited when dequeued and expanded
      at most once; the first formula that fails ends the search, so a path
      is returned only when every unit reached in fewer steps was expanded
      without a failing formula. */
  method Search(rows: seq<ConversionRow>, g: Graph, eval: Evaluator, value: real, source: nat, target: nat)
    returns (r: SearchOutcome)
    requires forall u :: Out(g, u) == EdgesFrom(rows, u)
    ensures source == target ==> r == Reached(value, [])
    ensures r.Reached? ==> IsChain(rows, source, r.path, target) && Apply(eval, value, r.path) == Some(r.value)
    ensures r.Reached? ==> forall p :: IsChain(rows, source, p, target) ==> |r.path| <= |p|
    ensures r.Unreachable? ==> forall p :: !IsChain(rows, source, p, target)
    ensures r.Broken? ==> exists p: seq<Step> ::
              && BreaksOn(rows, eval, value, source, p, r.formula)
              && p[|p| - 1].from != target
              && forall q :: IsChain(rows, source, q, target) ==> |p| <= |q| + 1
    ensures r.Unreachable? ==> forall w: nat, q: seq<Step> :: IsChain(rows, source, q, w) ==>
              ExpandedCleanly(rows, eval, value, source, w, |q|)
    ensures r.Reached? ==> forall w: nat, q: seq<Step> :: IsChain(rows, source, q, w) && |q| < |r.path| ==>
              ExpandedCleanly(rows, eval, value, source, w, |q|)
    ensures r.Reached? && r.path != [] ==> forall e :: e in EdgesFrom(rows, source) ==> eval(e.formula, value).Some?
  {
    var queue := [SearchState(source, value, [])];
    var visited: set<nat> := {};
    ghost var level: map<nat, nat> := map[];
    ghost var via: map<nat, seq<Step>> := map[];
    ghost var depth: nat := 0;
    Start(rows, eval, value, source, target);
    while queue != []
      invariant SearchInv(rows, eval, value, source, target, visited, level, depth, queue)
      invariant queue != [] ==> |queue[0].path| == depth
      invariant Clean(rows, eval, value, source, visited, level, via)
      decreases |Nodes(rows, source) - visited|, |queue|
    {
      var st := queue[0];
      if st.unit == target {
        FoundTarget(rows, eval, value, source, target, visited, level, depth, queue);
        CleanBefore(rows, eval, value, source, target, visited, level, via, depth, queue);
        return Reached(st.value, st.path);
      }
      if st.unit in visited {
        SkipVisited(rows, eval, value, source, target, visited, level, depth, queue);
        queue := queue[1..];
      } else {
        var edges := Out(g, st.unit);
        assert edges == EdgesFrom(rows, st.unit);
        var rest := queue[1..];
        var q, broken := Expand(eval, st, edges, rest);
        if broken.Some? {
          BrokenShallow(rows, eval, value, source, target, visited, level, depth, queue, broken.value);
          return Broken(edges[broken.value].formula);
        }
        VisitStep(rows, eval, value, source, target, visited, level, depth, queue, edges, rest, q);
        FrontExpanded(rows, eval, value, source, target, visited, level, depth, queue, edges, rest, q);
        VisitClean(rows, eval, value, source, visited, level, via, st.unit, st.path, depth);
        visited := visited + {st.unit};
        level := level[st.unit := depth];
        via := via[st.unit := st.path];
        queue := q;
      }
      depth := Advance(rows, eval, value, source, target, visited, level, depth, queue);
    }
    Exhausted(rows, eval, value, source, target, visited, level, depth);
    ExhaustedClean(rows, eval, value, source, target, visited, level, via, depth);
    return Unreachable;
  }
}
