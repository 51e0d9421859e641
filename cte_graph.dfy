/**
 * The CTE dependency graph: a dictionary from CTE name to node that
 * remembers insertion order (a Python dict), how one WITH block is
 * registered into it, how back-edges are derived, and the notions of cycle
 * and dependency order the topological sort is judged by.
 */
module CteGraph {
  import opened SqlTree

  /** One CTE: its name, its query, the names it reads, the names reading it, its aliases. */
  datatype CteNode = CteNode(
    name: string,
    sql: Expr,
    references: set<string>,
    referencedBy: set<string>,
    aliases: map<string, Expr>)

  predicate NoDuplicates<T(==)>(s: seq<T>) {
    forall i, j :: 0 <= i < j < |s| ==> s[i] != s[j]
  }

  function Elems<T>(s: seq<T>): set<T> {
    set x | x in s
  }

  /** The elements of a prefix one longer gain the next entry. */
  lemma ElemsPrefix<T>(s: seq<T>, i: nat)
    requires i < |s|
    ensures Elems(s[..i + 1]) == Elems(s[..i]) + {s[i]}
  {
    assert s[..i + 1] == s[..i] + [s[i]];
  }

  /** A sequence without repetitions has as many distinct elements as entries. */
  lemma {:induction false} DistinctCount<T>(s: seq<T>)
    requires NoDuplicates(s)
    ensures |Elems(s)| == |s|
  {
    if s != [] {
      var t := s[..|s| - 1];
      assert Elems(s) == Elems(t) + {s[|s| - 1]};
      assert s[|s| - 1] !in Elems(t);
      DistinctCount(t);
    }
  }

  /**
   * The graph: `nodes` is the dictionary's content and `order` the order in
   * which its keys were first inserted, which is the order iteration visits them.
   */
  datatype Graph = Graph(nodes: map<string, CteNode>, order: seq<string>) {

    /** Keys listed once each in insertion order; every node is filed under its own name. */
    ghost predicate Wf() {
      && NoDuplicates(order)
      && (forall k :: k in nodes <==> k in order)
      && (forall k :: k in nodes ==> nodes[k].name == k)
    }

    /**
     * `graph[k] = v`: a new key goes to the end of the iteration order, an
     * existing key keeps its place and only its node is replaced.
     */
    function Put(k: string, v: CteNode): (g: Graph)
      ensures g.nodes.Keys == nodes.Keys + {k} && g.nodes[k] == v
      ensures forall x :: x in nodes && x != k ==> g.nodes[x] == nodes[x]
      ensures k in nodes ==> g.order == order
      ensures k !in nodes ==> g.order == order + [k]
      ensures Wf() && v.name == k ==> g.Wf()
    {
      Graph(nodes[k := v], if k in nodes then order else order + [k])
    }

    /** `x` reads `r`, and both are nodes of the graph. */
    ghost predicate DependsOn(x: string, r: string) {
      x in nodes && r in nodes && r in nodes[x].references
    }

    /** `p` is a closed path of reference edges: each entry reads the next, the last reads the first. */
    ghost predicate IsCycle(p: seq<string>) {
      && |p| > 0
      && (forall i :: 0 <= i < |p| - 1 ==> DependsOn(p[i], p[i + 1]))
      && DependsOn(p[|p| - 1], p[0])
    }

    ghost predicate Acyclic() {
      forall p :: !IsCycle(p)
    }

    /** Every node of the graph that `s[i]` reads occurs in `s` before index `i`. */
    ghost predicate Ordered(s: seq<string>) {
      forall i, r :: 0 <= i < |s| && DependsOn(s[i], r) ==> r in s[..i]
    }

    /**
     * Every name a node reads was inserted before it: the shape a graph
     * keeps while references are only ever recorded to names already present.
     */
    ghost predicate RefsEarlier() {
      forall i, r :: 0 <= i < |order| && order[i] in nodes && r in nodes[order[i]].references
        ==> r in order[..i]
    }
  }

  /** The position of `x` in `s`. */
  ghost function IndexOf(s: seq<string>, x: string): (i: nat)
    requires x in s
    ensures i < |s| && s[i] == x
  {
    if s[0] == x then 0 else 1 + IndexOf(s[1..], x)
  }

  /** Along a path of reference edges, positions in an ordered key list strictly decrease. */
  lemma {:induction false} ChainDescends(g: Graph, p: seq<string>, j: nat)
    requires g.Wf() && g.Ordered(g.order)
    requires j < |p| && p[0] in g.nodes
    requires forall i :: 0 <= i < |p| - 1 ==> g.DependsOn(p[i], p[i + 1])
    ensures p[j] in g.order && IndexOf(g.order, p[j]) + j <= IndexOf(g.order, p[0])
  {
    if j > 0 {
      ChainDescends(g, p, j - 1);
      var a := IndexOf(g.order, p[j - 1]);
      assert g.DependsOn(g.order[a], p[j]);
      assert p[j] in g.order[..a];
      var k :| 0 <= k < a && g.order[k] == p[j];
      assert IndexOf(g.order, p[j]) == k;
    }
  }

  /** A graph whose insertion order is a dependency order has no cycle. */
  lemma OrderedAcyclic(g: Graph)
    requires g.Wf() && g.Ordered(g.order)
    ensures g.Acyclic()
  {
    forall p | g.IsCycle(p) ensures false {
      var last := |p| - 1;
      ChainDescends(g, p, last);
    }
  }

  /** References recorded only to earlier names make the insertion order a dependency order. */
  lemma RefsEarlierOrdered(g: Graph)
    requires g.RefsEarlier()
    ensures g.Ordered(g.order)
  {
  }

  /**
   * Inserting a node that reads only names already present keeps references
   * pointing backwards, and so does replacing a node by one that reads nothing.
   */
  lemma PutRefsEarlier(g: Graph, k: string, v: CteNode)
    requires g.Wf() && g.RefsEarlier()
    requires v.references <= g.nodes.Keys
    requires k in g.nodes ==> v.references == {}
    ensures g.Put(k, v).RefsEarlier()
  {
    var h := g.Put(k, v);
    forall i, r | 0 <= i < |h.order| && h.order[i] in h.nodes && r in h.nodes[h.order[i]].references
      ensures r in h.order[..i]
    {
      if i < |g.order| {
        assert h.order[i] == g.order[i];
        assert h.order[..i] == g.order[..i];
      } else {
        assert h.order == g.order + [k] && h.order[..i] == g.order;
      }
    }
  }

  // ---------------------------------------------------------------------
  // Registering the CTEs of one WITH block
  // ---------------------------------------------------------------------

  /**
   * The node the scan of one CTE produces against graph `g`: its references
   * are the table names in its query that are already keys of `g`, its
   * aliases the alias definitions in its query, and nothing reads it yet.
   */
  function ScannedNode(g: Graph, c: Cte): (n: CteNode)
    ensures n.name == c.name && n.sql == c.query && n.referencedBy == {}
    ensures forall x :: x in n.references <==> x in g.nodes && Table(x) in Walk(c.query)
    ensures forall a :: a in n.aliases ==> Alias(a, n.aliases[a]) in Walk(c.query)
    ensures forall i :: 0 <= i < |Walk(c.query)| && Walk(c.query)[i].Alias? ==> Walk(c.query)[i].alias in n.aliases
  {
    var ns := Walk(c.query);
    CteNode(c.name, c.query, TableRefs(ns, g.nodes.Keys), {}, AliasDefs(ns))
  }

  /** The alias a scanned node records for a name is its query's last definition of it. */
  lemma ScannedAliasLastWins(g: Graph, c: Cte, i: nat)
    requires i < |Walk(c.query)| && Walk(c.query)[i].Alias?
    requires forall j :: i < j < |Walk(c.query)| && Walk(c.query)[j].Alias? ==>
      Walk(c.query)[j].alias != Walk(c.query)[i].alias
    ensures ScannedNode(g, c).aliases[Walk(c.query)[i].alias] == Walk(c.query)[i].expr
  {
    AliasDefsLastWins(Walk(c.query), i);
  }

  function CteNames(ctes: seq<Cte>): (names: set<string>)
    ensures forall i :: 0 <= i < |ctes| ==> ctes[i].name in names
    ensures forall x :: x in names ==> exists i :: 0 <= i < |ctes| && ctes[i].name == x
  {
    if ctes == [] then {}
    else
      var pre := ctes[..|ctes| - 1];
      assert forall i :: 0 <= i < |pre| ==> pre[i] == ctes[i];
      CteNames(pre) + {ctes[|ctes| - 1].name}
  }

  /** The CTEs of a block carry distinct names, none of them already a key of `g`. */
  predicate FreshNames(g: Graph, ctes: seq<Cte>) {
    && (forall i, j :: 0 <= i < j < |ctes| ==> ctes[i].name != ctes[j].name)
    && (forall i :: 0 <= i < |ctes| ==> ctes[i].name !in g.nodes)
  }

  /** The graph after the CTEs of one WITH block are scanned and inserted in order. */
  function Registered(g: Graph, ctes: seq<Cte>): (h: Graph)
    ensures g.Wf() ==> h.Wf()
    ensures h.nodes.Keys == g.nodes.Keys + CteNames(ctes)
    ensures forall k :: k in g.nodes && k !in CteNames(ctes) ==> h.nodes[k] == g.nodes[k]
    ensures |g.order| <= |h.order| && h.order[..|g.order|] == g.order
    decreases |ctes|
  {
    if ctes == [] then g
    else
      var pre := Registered(g, ctes[..|ctes| - 1]);
      var c := ctes[|ctes| - 1];
      pre.Put(c.name, ScannedNode(pre, c))
  }

  /** Registering one more CTE of the block puts its scanned node. */
  lemma RegisteredStep(g: Graph, ctes: seq<Cte>, i: nat)
    requires i < |ctes|
    ensures var pre := Registered(g, ctes[..i]);
      Registered(g, ctes[..i + 1]) == pre.Put(ctes[i].name, ScannedNode(pre, ctes[i]))
  {
    assert ctes[..i + 1][..i] == ctes[..i];
  }

  /**
   * The node a WITH block leaves under the name of its `i`-th CTE, when no
   * later CTE of the block reuses that name: the query of that CTE, nothing
   * reading it yet, and as references exactly the table names in its query
   * that were keys of the graph before the block or names of earlier CTEs
   * of the block.
   */
  lemma {:induction false} RegisteredNode(g: Graph, ctes: seq<Cte>, i: nat)
    requires i < |ctes|
    requires forall j :: i < j < |ctes| ==> ctes[j].name != ctes[i].name
    ensures ctes[i].name in Registered(g, ctes).nodes
    ensures var n := Registered(g, ctes).nodes[ctes[i].name];
      && n.sql == ctes[i].query
      && n.referencedBy == {}
      && forall x :: x in n.references <==>
           (x in g.nodes || x in CteNames(ctes[..i])) && Table(x) in Walk(ctes[i].query)
    decreases |ctes|
  {
    var pre := ctes[..|ctes| - 1];
    if i == |ctes| - 1 {
      assert pre == ctes[..i];
    } else {
      assert pre[..i] == ctes[..i];
      assert pre[i] == ctes[i];
      RegisteredNode(g, pre, i);
    }
  }

  /**
   * Registering a block of freshly named CTEs keeps every reference pointing
   * to an earlier name, since a scan only records names already present.
   */
  lemma {:induction false} RegisteredRefsEarlier(g: Graph, ctes: seq<Cte>)
    requires g.Wf() && g.RefsEarlier() && FreshNames(g, ctes)
    ensures Registered(g, ctes).RefsEarlier()
    decreases |ctes|
  {
    if ctes != [] {
      var pre := ctes[..|ctes| - 1];
      var c := ctes[|ctes| - 1];
      assert FreshNames(g, pre);
      RegisteredRefsEarlier(g, pre);
      var before := Registered(g, pre);
      assert c.name !in CteNames(pre);
      PutRefsEarlier(before, c.name, ScannedNode(before, c));
    }
  }

  /**
   * References are linked forwards only: when the CTE at `i` reads a name
   * that is declared only later in the same block, at `j`, and is neither in
   * the graph already nor declared before `i`, that read is not recorded.
   */
  lemma LaterDeclarationNotLinked(g: Graph, ctes: seq<Cte>, i: nat, j: nat)
    requires i < j < |ctes|
    requires forall k :: i < k < |ctes| ==> ctes[k].name != ctes[i].name
    requires ctes[j].name !in g.nodes && ctes[j].name !in CteNames(ctes[..i])
    ensures ctes[j].name !in Registered(g, ctes).nodes[ctes[i].name].references
  {
    RegisteredNode(g, ctes, i);
  }

  // ---------------------------------------------------------------------
  // Back-edges
  // ---------------------------------------------------------------------

  /** The names of the nodes among `srcs` that read `k`. */
  function Referrers(g: Graph, srcs: set<string>, k: string): set<string> {
    set n | n in srcs && n in g.nodes && k in g.nodes[n].references
  }

  /** `g` once every node among `srcs` has been recorded as a reader of the nodes it reads. */
  function BackEdgesFrom(g: Graph, srcs: set<string>): Graph {
    g.(nodes := map k | k in g.nodes ::
      g.nodes[k].(referencedBy := g.nodes[k].referencedBy + Referrers(g, srcs, k)))
  }

  /** `g` with `src` recorded as a reader of each node among `targets`. */
  function AddReferrer(g: Graph, src: string, targets: set<string>): Graph {
    g.(nodes := map k | k in g.nodes ::
      if k in targets then g.nodes[k].(referencedBy := g.nodes[k].referencedBy + {src}) else g.nodes[k])
  }

  /** With no node recorded yet, the back-edge pass has changed nothing. */
  lemma BackEdgesNone(g: Graph)
    ensures BackEdgesFrom(g, {}) == g
  {
    var h := BackEdgesFrom(g, {});
    forall k | k in g.nodes ensures h.nodes[k] == g.nodes[k] {
      assert Referrers(g, {}, k) == {};
      assert g.nodes[k].referencedBy + {} == g.nodes[k].referencedBy;
    }
    assert h.nodes == g.nodes;
  }

  /** Recording `src` as a reader of one more target is a single node update. */
  lemma AddReferrerOne(g: Graph, src: string, done: set<string>, t: string)
    requires t !in done
    ensures var h := AddReferrer(g, src, done);
      AddReferrer(g, src, done + {t}) ==
        if t in h.nodes then h.(nodes := h.nodes[t := h.nodes[t].(referencedBy := h.nodes[t].referencedBy + {src})])
        else h
  {
    var h := AddReferrer(g, src, done);
    var lhs := AddReferrer(g, src, done + {t});
    if t in h.nodes {
      var rhs := h.(nodes := h.nodes[t := h.nodes[t].(referencedBy := h.nodes[t].referencedBy + {src})]);
      assert lhs.nodes == rhs.nodes;
    } else {
      assert lhs.nodes == h.nodes;
    }
  }

  /** The readers of `k` among one more source node. */
  lemma ReferrersStep(g: Graph, srcs: set<string>, n: string, k: string)
    requires n in g.nodes
    ensures Referrers(g, srcs + {n}, k) ==
      Referrers(g, srcs, k) + (if k in g.nodes[n].references then {n} else {})
  {
  }

  /**
   * Recording the readers of one more node, one target at a time, extends
   * `BackEdgesFrom`; the node is read where the earlier rounds left it.
   */
  lemma BackEdgesStep(g: Graph, srcs: set<string>, n: string)
    requires n in g.nodes && g.nodes[n].name == n
    ensures var cur := BackEdgesFrom(g, srcs);
      AddReferrer(cur, cur.nodes[n].name, cur.nodes[n].references) == BackEdgesFrom(g, srcs + {n})
  {
    var cur := BackEdgesFrom(g, srcs);
    var lhs := AddReferrer(cur, n, g.nodes[n].references);
    var rhs := BackEdgesFrom(g, srcs + {n});
    forall k | k in g.nodes ensures lhs.nodes[k] == rhs.nodes[k] {
      ReferrersStep(g, srcs, n, k);
    }
    assert lhs.nodes == rhs.nodes;
  }

  /**
   * One round of the back-edge pass, read on the graph as it stands after
   * the earlier rounds: the node under `order[i]` still has its original
   * name and references, and recording it as their reader extends the pass
   * to the first `i + 1` keys.
   */
  lemma BackEdgesRound(g: Graph, i: nat)
    requires g.Wf() && i < |g.order|
    ensures var cur := BackEdgesFrom(g, Elems(g.order[..i]));
      && g.order[i] in cur.nodes
      && AddReferrer(cur, cur.nodes[g.order[i]].name, cur.nodes[g.order[i]].references)
         == BackEdgesFrom(g, Elems(g.order[..i + 1]))
  {
    BackEdgesStep(g, Elems(g.order[..i]), g.order[i]);
    ElemsPrefix(g.order, i);
  }

  /**
   * The back-edge pass over the whole graph. It changes nothing but the
   * `referencedBy` sets; afterwards each node that reads another is among
   * that node's readers, and each recorded reader was either recorded
   * before or reads the node.
   */
  function WithBackEdges(g: Graph): (h: Graph)
    ensures h.order == g.order && h.nodes.Keys == g.nodes.Keys
    ensures g.RefsEarlier() ==> h.RefsEarlier()
    ensures forall k :: k in g.nodes ==>
      && h.nodes[k].name == g.nodes[k].name
      && h.nodes[k].sql == g.nodes[k].sql
      && h.nodes[k].references == g.nodes[k].references
      && h.nodes[k].aliases == g.nodes[k].aliases
      && g.nodes[k].referencedBy <= h.nodes[k].referencedBy
    ensures g.Wf() ==> h.Wf()
    ensures g.Wf() ==>
      forall n, r :: n in h.nodes && r in h.nodes[n].references && r in h.nodes
        ==> n in h.nodes[r].referencedBy
    ensures g.Wf() ==>
      forall r, x :: r in h.nodes && x in h.nodes[r].referencedBy
        ==> x in g.nodes[r].referencedBy || (x in g.nodes && r in g.nodes[x].references)
  {
    BackEdgesFrom(g, g.nodes.Keys)
  }
}
