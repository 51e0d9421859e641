/**
 * The translator object: a synthetic-name counter and the CTE dependency
 * graph, both updated in place by the steps of one translation, which
 * builds the graph, hoists a selection that reads its own aliases into a
 * synthetic CTE, orders the CTEs by dependency and reassembles one CTE
 * block around the query body.
 */
module Translation {
  import opened Text
  import opened SqlTree
  import opened CteGraph
  import opened Rewriters

  const CteAliasPrefix := "cte_alias_"

  /** The `n`-th synthetic CTE name, `cte_alias_<n>`. */
  function CteAliasName(n: nat): (s: string)
    ensures |s| > |CteAliasPrefix| && s[..|CteAliasPrefix|] == CteAliasPrefix
    ensures IsDigits(s[|CteAliasPrefix|..]) && DigitsValue(s[|CteAliasPrefix|..]) == n
    ensures s[|CteAliasPrefix|] == '0' ==> n == 0
  {
    var s := CteAliasPrefix + NatToString(n);
    assert s[|CteAliasPrefix|..] == NatToString(n);
    s
  }

  /** Distinct counter values give distinct synthetic names. */
  lemma CteAliasNameInjective(a: nat, b: nat)
    requires CteAliasName(a) == CteAliasName(b)
    ensures a == b
  {
    assert CteAliasName(a)[|CteAliasPrefix|..] == CteAliasName(b)[|CteAliasPrefix|..];
  }

  /** The graph the build over `e` leaves when it starts from `g`. */
  function BuiltGraph(g: Graph, e: Expr): Graph {
    if e.With? then WithBackEdges(Registered(g, e.ctes)) else g
  }

  /** `e` is a selection that reads its own aliases, so its selection is hoisted. */
  ghost predicate Hoists(e: Expr) {
    e.Select? && SelfAliasReference(Walk(e))
  }

  // ---------------------------------------------------------------------
  // The descent of the graph builder
  // ---------------------------------------------------------------------

  /**
   * The descent of the graph builder as written: the builder is called
   * again on every selection its walk yields, and the walk yields the root
   * first. Holds when every chain of such calls ends within `fuel` levels.
   */
  predicate DescentReturnsAsWritten(e: Expr, fuel: nat)
    decreases fuel
  {
    fuel > 0 &&
    forall i :: 0 <= i < |Walk(e)| && Walk(e)[i].Select? ==> DescentReturnsAsWritten(Walk(e)[i], fuel - 1)
  }

  /** A selection calls the builder on itself first, so no amount of nesting suffices. */
  lemma {:induction false} DescentAsWrittenDiverges(e: Expr, fuel: nat)
    requires e.Select?
    ensures !DescentReturnsAsWritten(e, fuel)
  {
    if fuel > 0 {
      DescentAsWrittenDiverges(e, fuel - 1);
      assert Walk(e)[0] == e;
    }
  }

  /** The descent the model uses: only the selections strictly below the root. */
  predicate DescentReturns(e: Expr, fuel: nat)
    decreases fuel
  {
    fuel > 0 &&
    forall i :: 1 <= i < |Walk(e)| && Walk(e)[i].Select? ==> DescentReturns(Walk(e)[i], fuel - 1)
  }

  /** Every chain of calls of the corrected descent ends within the size of the walk. */
  lemma {:induction false} DescentReturnsWithin(e: Expr, fuel: nat)
    requires |Walk(e)| <= fuel
    ensures DescentReturns(e, fuel)
    decreases fuel
  {
    forall i | 1 <= i < |Walk(e)| && Walk(e)[i].Select?
      ensures DescentReturns(Walk(e)[i], fuel - 1)
    {
      DescendantShrinks(e, i);
      DescentReturnsWithin(Walk(e)[i], fuel - 1);
    }
  }

  /** The CTE of a block, `name AS (query)`, for each name of `sorted` and its node in `g`. */
  predicate IsReassembled(g: Graph, sorted: seq<string>, ctes: seq<Cte>)
    requires forall k :: k in sorted ==> k in g.nodes
  {
    |ctes| == |sorted| &&
    forall i :: 0 <= i < |ctes| ==> ctes[i] == Cte(sorted[i], g.nodes[sorted[i]].sql)
  }

  /** The names the entries of a CTE block declare, in order. */
  function DeclaredNames(ctes: seq<Cte>): (names: seq<string>)
    ensures |names| == |ctes| && forall i :: 0 <= i < |ctes| ==> names[i] == ctes[i].name
  {
    if ctes == [] then [] else [ctes[0].name] + DeclaredNames(ctes[1..])
  }

  /** In the sequence of names `stack` each entry reads the next. */
  ghost predicate Chain(g: Graph, stack: seq<string>) {
    forall i :: 0 <= i < |stack| - 1 ==> g.DependsOn(stack[i], stack[i + 1])
  }

  /** A chain grows by a name the last entry reads. */
  lemma ChainExtend(g: Graph, stack: seq<string>, name: string)
    requires Chain(g, stack) && (|stack| > 0 ==> g.DependsOn(stack[|stack| - 1], name))
    ensures Chain(g, stack + [name])
  {
    var s := stack + [name];
    forall i | 0 <= i < |s| - 1 ensures g.DependsOn(s[i], s[i + 1]) {
      if i < |stack| - 1 {
        assert s[i] == stack[i] && s[i + 1] == stack[i + 1];
      }
    }
  }

  /** A name read by the last entry of a chain and already on it closes a cycle. */
  lemma InProgressIsCycle(g: Graph, stack: seq<string>, r: string)
    requires |stack| > 0 && Chain(g, stack) && g.DependsOn(stack[|stack| - 1], r) && r in stack
    ensures !g.Acyclic()
  {
    var k :| 0 <= k < |stack| && stack[k] == r;
    var p := stack[k..];
    forall i | 0 <= i < |p| - 1 ensures g.DependsOn(p[i], p[i + 1]) {
      assert p[i] == stack[k + i] && p[i + 1] == stack[k + i + 1];
    }
    assert g.IsCycle(p);
  }

  /** A name may follow an ordered sequence once everything it reads is in it. */
  lemma OrderedAppend(g: Graph, sorted: seq<string>, name: string)
    requires g.Ordered(sorted)
    requires forall r :: g.DependsOn(name, r) ==> r in sorted
    ensures g.Ordered(sorted + [name])
  {
    var s := sorted + [name];
    forall i, r | 0 <= i < |s| && g.DependsOn(s[i], r) ensures r in s[..i] {
      if i < |sorted| {
        assert s[i] == sorted[i] && s[..i] == sorted[..i];
      } else {
        assert s[..i] == sorted;
      }
    }
  }

  /**
   * The state of the depth-first sort: `visited` holds the finished names
   * (`sorted`, each once) and the names in progress (`stack`, each reading
   * the next); under acyclicity every finished name follows what it reads.
   */
  ghost predicate DfsState(g: Graph, visited: set<string>, sorted: seq<string>, stack: seq<string>) {
    && visited == Elems(sorted) + Elems(stack) && visited <= g.nodes.Keys
    && Elems(sorted) !! Elems(stack) && NoDuplicates(sorted)
    && Chain(g, stack)
    && (g.Acyclic() ==> g.Ordered(sorted))
  }

  /** Starting the visit of an unvisited name read by the last name in progress. */
  lemma DfsEnter(g: Graph, visited: set<string>, sorted: seq<string>, stack: seq<string>, name: string)
    requires DfsState(g, visited, sorted, stack) && name in g.nodes && name !in visited
    requires |stack| > 0 ==> g.DependsOn(stack[|stack| - 1], name)
    ensures DfsState(g, visited + {name}, sorted, stack + [name])
  {
    ChainExtend(g, stack, name);
    assert Elems(stack + [name]) == Elems(stack) + {name};
  }

  /**
   * Closing a visit: every name `name` reads is visited, and none is in
   * progress unless the graph has a cycle, so under acyclicity all of them
   * are already in `sorted` and `name` may follow.
   */
  lemma DfsFinish(g: Graph, visited: set<string>, sorted: seq<string>, stack: seq<string>, name: string)
    requires DfsState(g, visited, sorted, stack + [name]) && name !in stack
    requires forall r :: g.DependsOn(name, r) ==> r in visited
    ensures DfsState(g, visited, sorted + [name], stack)
  {
    var stack1 := stack + [name];
    assert stack1[|stack1| - 1] == name;
    assert Chain(g, stack) by {
      forall i | 0 <= i < |stack| - 1 ensures g.DependsOn(stack[i], stack[i + 1]) {
        assert stack[i] == stack1[i] && stack[i + 1] == stack1[i + 1];
      }
    }
    assert Elems(stack1) == Elems(stack) + {name};
    assert name !in sorted;
    assert Elems(sorted + [name]) == Elems(sorted) + {name};
    if g.Acyclic() {
      forall r | g.DependsOn(name, r) ensures r in sorted {
        if r in stack1 {
          InProgressIsCycle(g, stack1, r);
        }
      }
      OrderedAppend(g, sorted, name);
    }
  }

  /** With nothing in progress and every key visited, `sorted` lists each key once. */
  lemma DfsDone(g: Graph, visited: set<string>, sorted: seq<string>)
    requires DfsState(g, visited, sorted, []) && g.nodes.Keys <= visited
    ensures NoDuplicates(sorted) && Elems(sorted) == g.nodes.Keys && |sorted| == |g.nodes|
    ensures g.Acyclic() ==> g.Ordered(sorted)
  {
    assert Elems<string>([]) == {};
    DistinctCount(sorted);
  }

  /**
   * A graph whose nodes read only nodes inserted before them, possibly
   * with one node added that reads nothing, has no cycle.
   */
  lemma HoistedAcyclic(g: Graph, h: Graph, name: string)
    requires g.Wf() && g.RefsEarlier()
    requires h == g || (name in h.nodes && h == g.Put(name, h.nodes[name]) && h.nodes[name].name == name
                       && h.nodes[name].references == {})
    ensures h.Wf() && h.Acyclic()
  {
    if h != g {
      PutRefsEarlier(g, name, h.nodes[name]);
    }
    RefsEarlierOrdered(h);
    OrderedAcyclic(h);
  }

  class SqlTranslator {
    var cteCounter: nat
    var cteGraph: Graph

    /** The graph lists each key once, in insertion order, under its node's own name. */
    ghost predicate Valid()
      reads this
    {
      cteGraph.Wf()
    }

    /** The synthetic names minted so far. */
    ghost function Issued(): set<string>
      reads this
    {
      set i: nat | 1 <= i <= cteCounter :: CteAliasName(i)
    }

    constructor ()
      ensures cteCounter == 0 && cteGraph == Graph(map[], [])
      ensures Valid() && Issued() == {}
    {
      cteCounter := 0;
      cteGraph := Graph(map[], []);
    }

    /**
     * Mints the next synthetic CTE name: the counter goes up by one and the
     * name carries its new value, so it differs from every name minted before.
     */
    method GenerateCteName() returns (name: string)
      modifies this`cteCounter
      ensures cteCounter == old(cteCounter) + 1
      ensures name == CteAliasName(cteCounter)
      ensures name !in old(Issued())
      ensures Issued() == old(Issued()) + {name}
    {
      cteCounter := cteCounter + 1;
      name := CteAliasName(cteCounter);
      forall x | x in old(Issued()) ensures x != name {
        var i: nat :| 1 <= i <= old(cteCounter) && x == CteAliasName(i);
        if x == name {
          CteAliasNameInjective(i, cteCounter);
        }
      }
      forall x | x in Issued() ensures x in old(Issued()) + {name} {
        var i: nat :| 1 <= i <= cteCounter && x == CteAliasName(i);
        if i < cteCounter {
          assert x in old(Issued());
        }
      }
    }

    /**
     * The scan of one CTE of a block: walking its query, table names that
     * are already keys of the graph become its references, alias nodes its
     * alias definitions.
     */
    method ScanCte(c: Cte) returns (node: CteNode)
      ensures node == ScannedNode(cteGraph, c)
    {
      var ns := Walk(c.query);
      var references: set<string> := {};
      var aliases: map<string, Expr> := map[];
      var i := 0;
      while i < |ns|
        invariant 0 <= i <= |ns|
        invariant references == TableRefs(ns[..i], cteGraph.nodes.Keys)
        invariant aliases == AliasDefs(ns[..i])
      {
        var n := ns[i];
        assert ns[..i + 1][..i] == ns[..i];
        if n.Table? && n.name in cteGraph.nodes {
          references := references + {n.name};
        } else if n.Alias? {
          aliases := aliases[n.alias := n.expr];
        }
        i := i + 1;
      }
      assert ns[..|ns|] == ns;
      node := CteNode(c.name, c.query, references, {}, aliases);
    }

    /**
     * The inner step of the back-edge pass: `src` is recorded as a reader of
     * each name among `targets` that is a key of the graph, in whatever
     * order the set yields them.
     */
    method RecordReader(src: string, targets: set<string>)
      modifies this`cteGraph
      ensures cteGraph == AddReferrer(old(cteGraph), src, targets)
    {
      var todo := targets;
      ghost var done: set<string> := {};
      assert AddReferrer(cteGraph, src, {}).nodes == cteGraph.nodes;
      while todo != {}
        invariant todo + done == targets && todo !! done
        invariant cteGraph == AddReferrer(old(cteGraph), src, done)
        decreases |todo|
      {
        var ref :| ref in todo;
        AddReferrerOne(old(cteGraph), src, done, ref);
        if ref in cteGraph.nodes {
          var target := cteGraph.nodes[ref];
          cteGraph := cteGraph.(nodes := cteGraph.nodes[ref := target.(referencedBy := target.referencedBy + {src})]);
        }
        todo := todo - {ref};
        done := done + {ref};
      }
    }

    /**
     * One round of the back-edge pass: the node under `k`, the `i`-th key,
     * is recorded as a reader of each node it reads.
     */
    method RecordReadersOf(k: string, ghost g0: Graph, ghost i: nat)
      requires g0.Wf() && i < |g0.order| && k == g0.order[i]
      requires cteGraph == BackEdgesFrom(g0, Elems(g0.order[..i]))
      modifies this`cteGraph
      ensures cteGraph == BackEdgesFrom(g0, Elems(g0.order[..i + 1]))
    {
      BackEdgesRound(g0, i);
      var node := cteGraph.nodes[k];
      RecordReader(node.name, node.references);
    }

    /**
     * The back-edge pass: for every node in insertion order, and every name
     * it reads that is a key of the graph, records the node as a reader.
     */
    method AddBackEdges()
      requires Valid()
      modifies this`cteGraph
      ensures cteGraph == WithBackEdges(old(cteGraph))
    {
      ghost var g0 := cteGraph;
      var keys := cteGraph.order;
      var i := 0;
      BackEdgesNone(g0);
      assert Elems(keys[..0]) == {};
      while i < |keys|
        invariant 0 <= i <= |keys|
        invariant cteGraph == BackEdgesFrom(g0, Elems(keys[..i]))
      {
        RecordReadersOf(keys[i], g0, i);
        i := i + 1;
      }
      assert keys[..|keys|] == keys;
      assert Elems(keys) == g0.nodes.Keys;
    }

    /**
     * Registers the CTEs of one block in declaration order, each under its
     * own name with the references its scan finds among the names already
     * registered.
     */
    method RegisterCtes(ctes: seq<Cte>)
      requires Valid()
      modifies this`cteGraph
      ensures Valid()
      ensures cteGraph == Registered(old(cteGraph), ctes)
    {
      var i := 0;
      while i < |ctes|
        invariant 0 <= i <= |ctes|
        invariant cteGraph == Registered(old(cteGraph), ctes[..i])
        invariant Valid()
      {
        RegisteredStep(old(cteGraph), ctes, i);
        RegisterCte(ctes[i]);
        i := i + 1;
      }
      assert ctes[..|ctes|] == ctes;
    }

    /** Registers one CTE under its name, with the node its scan builds. */
    method RegisterCte(c: Cte)
      requires Valid()
      modifies this`cteGraph
      ensures Valid()
      ensures cteGraph == old(cteGraph).Put(c.name, ScannedNode(old(cteGraph), c))
    {
      var node := ScanCte(c);
      cteGraph := cteGraph.Put(c.name, node);
    }

    /**
     * Builds the graph from a query: a CTE block registers its CTEs in
     * order and then derives the back-edges; afterwards every selection
     * strictly below the query is processed the same way. A selection is
     * never a CTE block itself, so that descent leaves the graph as it is.
     */
    method BuildCteGraph(e: Expr)
      requires Valid()
      modifies this`cteGraph
      ensures Valid()
      ensures e.With? ==> cteGraph == WithBackEdges(Registered(old(cteGraph), e.ctes))
      ensures !e.With? ==> cteGraph == old(cteGraph)
      decreases |Walk(e)|
    {
      if e.With? {
        RegisterCtes(e.ctes);
        AddBackEdges();
      }
      ghost var built := cteGraph;
      var ns := Walk(e);
      var j := 1;
      while j < |ns|
        invariant 1 <= j <= |ns|
        invariant cteGraph == built && Valid()
      {
        if ns[j].Select? {
          DescendantShrinks(e, j);
          BuildCteGraph(ns[j]);
        }
        j := j + 1;
      }
    }

    /**
     * The scan of a selection's walk for the alias hoister: each alias name
     * mapped to its (last) alias node, and the column names that refer to
     * an alias defined earlier in the walk.
     */
    method ScanAliases(ns: seq<Expr>) returns (aliases: map<string, Expr>, aliasReferences: set<string>)
      ensures aliases == AliasNodes(AliasDefs(ns))
      ensures aliasReferences == AliasRefs(ns)
    {
      aliases, aliasReferences := map[], {};
      var i := 0;
      while i < |ns|
        invariant 0 <= i <= |ns|
        invariant aliases == AliasNodes(AliasDefs(ns[..i]))
        invariant aliasReferences == AliasRefs(ns[..i])
      {
        var n := ns[i];
        AliasNodesStep(ns, i);
        AliasRefsStep(ns, i);
        if n.Alias? {
          aliases := aliases[n.alias := n];
        } else if n.Column? && n.name in aliases {
          aliasReferences := aliasReferences + {n.name};
        }
        i := i + 1;
      }
      assert ns[..|ns|] == ns;
    }

    /**
     * Hoists a selection that reads one of its own aliases: the selection
     * becomes a node under a freshly minted name, holding its alias
     * definitions and reading nothing, and is replaced by `SELECT * FROM`
     * that name. Anything else is returned unchanged.
     */
    method HandleColumnAliases(e: Expr) returns (r: Expr)
      requires Valid()
      modifies this
      ensures Valid()
      ensures !(e.Select? && SelfAliasReference(Walk(e))) ==>
        r == e && cteGraph == old(cteGraph) && cteCounter == old(cteCounter)
      ensures e.Select? && SelfAliasReference(Walk(e)) ==>
        var name := CteAliasName(cteCounter);
        && cteCounter == old(cteCounter) + 1
        && name !in old(Issued())
        && cteGraph == old(cteGraph).Put(name, CteNode(name, e, {}, {}, AliasNodes(AliasDefs(Walk(e)))))
        && r == SelectStarFrom(name)
    {
      if !e.Select? {
        return e;
      }
      var ns := Walk(e);
      var aliases, aliasReferences := ScanAliases(ns);
      AliasRefsNonEmpty(ns);
      if aliasReferences != {} {
        var name := GenerateCteName();
        cteGraph := cteGraph.Put(name, CteNode(name, e, {}, {}, aliases));
        r := SelectStarFrom(name);
      } else {
        r := e;
      }
    }

    /**
     * One step of the depth-first sort: an unvisited name is marked, the
     * names it reads are visited first, then it is appended. `stack` holds
     * the names whose visit is in progress, each reading the next and the
     * last reading `name`; it is what makes an unfinished visit a cycle.
     */
    method Visit(name: string, visited: set<string>, sorted: seq<string>, ghost stack: seq<string>)
      returns (visited': set<string>, sorted': seq<string>)
      requires name in cteGraph.nodes && DfsState(cteGraph, visited, sorted, stack)
      requires |stack| > 0 ==> cteGraph.DependsOn(stack[|stack| - 1], name)
      ensures DfsState(cteGraph, visited', sorted', stack)
      ensures name in visited' && visited <= visited'
      decreases cteGraph.nodes.Keys - visited
    {
      if name in visited {
        return visited, sorted;
      }
      DfsEnter(cteGraph, visited, sorted, stack, name);
      visited', sorted' := visited + {name}, sorted;
      var todo := cteGraph.nodes[name].references;
      ghost var done: set<string> := {};
      while todo != {}
        invariant todo + done == cteGraph.nodes[name].references && todo !! done
        invariant DfsState(cteGraph, visited', sorted', stack + [name])
        invariant visited + {name} <= visited'
        invariant forall r :: r in done && r in cteGraph.nodes ==> r in visited'
        decreases |todo|
      {
        var ref :| ref in todo;
        if ref in cteGraph.nodes {
          ghost var stack1 := stack + [name];
          assert stack1[|stack1| - 1] == name && cteGraph.DependsOn(name, ref);
          assert cteGraph.nodes.Keys - visited' < cteGraph.nodes.Keys - visited by {
            assert name in cteGraph.nodes.Keys - visited;
          }
          visited', sorted' := Visit(ref, visited', sorted', stack1);
        }
        todo := todo - {ref};
        done := done + {ref};
      }
      assert name !in stack;
      DfsFinish(cteGraph, visited', sorted', stack, name);
      sorted' := sorted' + [name];
    }

    /**
     * The depth-first sort: every key is visited in insertion order. The
     * result lists each key once, and when the graph has no cycle every
     * node comes after all the nodes it reads.
     */
    method SortCtesTopologically() returns (sorted: seq<string>)
      requires Valid()
      ensures NoDuplicates(sorted) && Elems(sorted) == cteGraph.nodes.Keys
      ensures |sorted| == |cteGraph.nodes|
      ensures cteGraph.Acyclic() ==> cteGraph.Ordered(sorted)
    {
      var visited: set<string> := {};
      sorted := [];
      var keys := cteGraph.order;
      var i := 0;
      while i < |keys|
        invariant 0 <= i <= |keys|
        invariant DfsState(cteGraph, visited, sorted, [])
        invariant forall j :: 0 <= j < i ==> keys[j] in visited
      {
        visited, sorted := Visit(keys[i], visited, sorted, []);
        i := i + 1;
      }
      DfsDone(cteGraph, visited, sorted);
    }

    /**
     * Puts the ordered CTEs back around the query body: no CTE block when
     * the graph is empty, otherwise one block holding each name with its
     * node's query, in the given order.
     */
    method Reassemble(sorted: seq<string>, body: Expr) returns (r: Expr)
      requires forall k :: k in sorted ==> k in cteGraph.nodes
      ensures sorted == [] ==> r == body
      ensures sorted != [] ==> r.With? && r.body == body && IsReassembled(cteGraph, sorted, r.ctes)
    {
      if sorted == [] {
        return body;
      }
      var ctes: seq<Cte> := [];
      var i := 0;
      while i < |sorted|
        invariant 0 <= i <= |sorted|
        invariant IsReassembled(cteGraph, sorted[..i], ctes)
      {
        var name := sorted[i];
        ctes := ctes + [Cte(name, cteGraph.nodes[name].sql)];
        i := i + 1;
      }
      assert sorted[..|sorted|] == sorted;
      r := With(ctes, body);
    }

    /**
     * The `regexp_substr` handler: the position is made 0-based; a pattern
     * with a look-behind opener mints a synthetic name and is wrapped in a
     * single-use subquery under it, any other pattern becomes a plain
     * `regexp_extract` call and leaves the counter alone.
     */
    method RegexpSubstrHandler(expr: string, pattern: string, pos: Option<string>) returns (r: string)
      requires pos.Some? ==> IsDigits(pos.value)
      modifies this`cteCounter
      ensures !Contains(pattern, LookBehindMarker) ==>
        r == RegexpExtractCall(expr, pattern, PositionArg(pos)) && cteCounter == old(cteCounter)
      ensures Contains(pattern, LookBehindMarker) ==>
        && cteCounter == old(cteCounter) + 1
        && CteAliasName(cteCounter) !in old(Issued())
        && r == LookBehindQuery(CteAliasName(cteCounter), expr, pattern, PositionArg(pos))
    {
      var position := PositionArg(pos);
      if Contains(pattern, LookBehindMarker) {
        var name := GenerateCteName();
        r := LookBehindQuery(name, expr, pattern, position);
      } else {
        r := RegexpExtractCall(expr, pattern, position);
      }
    }

    /**
     * The closing steps of a translation: the keys are sorted and, unless
     * the graph is empty, one CTE block declaring each of them once, with
     * its node's query, is put around `body`; when the graph has no cycle
     * each CTE follows the CTEs it reads.
     */
    method SortAndReassemble(body: Expr) returns (r: Expr)
      requires Valid()
      ensures cteGraph.nodes == map[] ==> r == body
      ensures cteGraph.nodes != map[] ==>
        && r.With? && r.body == body
        && NoDuplicates(DeclaredNames(r.ctes))
        && Elems(DeclaredNames(r.ctes)) == cteGraph.nodes.Keys
        && (forall i :: 0 <= i < |r.ctes| ==> r.ctes[i].query == cteGraph.nodes[r.ctes[i].name].sql)
        && (cteGraph.Acyclic() ==> cteGraph.Ordered(DeclaredNames(r.ctes)))
    {
      var sorted := SortCtesTopologically();
      r := Reassemble(sorted, body);
      if sorted != [] {
        assert DeclaredNames(r.ctes) == sorted;
      } else {
        assert cteGraph.nodes.Keys == {};
      }
    }

    /**
     * One translation on the tree: build the graph, hoist the top-level
     * selection if it reads its own aliases, sort and reassemble. The CTE
     * block of the result declares every key of the final graph once, each
     * with its node's query; when the graph has no cycle each CTE follows
     * the CTEs it reads, and a fresh translator given distinctly named CTEs
     * always ends with such a graph.
     */
    method Translate(e: Expr) returns (r: Expr)
      requires Valid()
      modifies this
      ensures Valid()
      ensures cteGraph.nodes == map[] ==> r == e
      ensures cteGraph.nodes != map[] ==>
        && r.With?
        && NoDuplicates(DeclaredNames(r.ctes))
        && Elems(DeclaredNames(r.ctes)) == cteGraph.nodes.Keys
        && (forall i :: 0 <= i < |r.ctes| ==> r.ctes[i].query == cteGraph.nodes[r.ctes[i].name].sql)
        && (cteGraph.Acyclic() ==> cteGraph.Ordered(DeclaredNames(r.ctes)))
      ensures old(cteGraph.RefsEarlier()) && (e.With? ==> FreshNames(old(cteGraph), e.ctes)) ==>
        cteGraph.Acyclic()
      ensures !Hoists(e) ==> cteCounter == old(cteCounter) && cteGraph == BuiltGraph(old(cteGraph), e)
      ensures Hoists(e) ==>
        var name := CteAliasName(cteCounter);
        && cteCounter == old(cteCounter) + 1
        && cteGraph == BuiltGraph(old(cteGraph), e).Put(name, CteNode(name, e, {}, {}, AliasNodes(AliasDefs(Walk(e)))))
        && r.With? && r.body == SelectStarFrom(name)
      ensures !Hoists(e) && cteGraph.nodes != map[] ==> r.With? && r.body == e
    {
      ghost var g0 := cteGraph;
      BuildCteGraph(e);
      ghost var g1 := cteGraph;
      if g0.RefsEarlier() && (e.With? ==> FreshNames(g0, e.ctes)) && e.With? {
        RegisteredRefsEarlier(g0, e.ctes);
      }
      var body := HandleColumnAliases(e);
      if g1.RefsEarlier() {
        HoistedAcyclic(g1, cteGraph, CteAliasName(cteCounter));
      }
      r := SortAndReassemble(body);
      if cteGraph.nodes == map[] {
        assert cteGraph == g1;
      }
    }
  }
}
