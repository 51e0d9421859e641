/**
 * The parsed query tree the translator inspects, reduced to the node kinds
 * it distinguishes: a selection, a CTE block, a table reference, a column
 * reference, an alias assignment, the `*` wildcard and every other node.
 * Parsing and rendering belong to the external SQL library and are not
 * modelled; `Walk` stands in for the library's traversal of a subtree.
 */
module SqlTree {

  datatype Expr =
    | Select(children: seq<Expr>)
    | With(ctes: seq<Cte>, body: Expr)
    | Table(name: string)
    | Column(name: string)
    | Alias(alias: string, expr: Expr)
    | Star
    | Other(children: seq<Expr>)

  /** One entry of a CTE block: `name AS (query)`. */
  datatype Cte = Cte(name: string, query: Expr)

  /** `SELECT * FROM name`, the replacement a hoisted selection gets. */
  function SelectStarFrom(name: string): (r: Expr)
    ensures r.Select? && Walk(r) == [r, Star, Table(name)]
  {
    var r := Select([Star, Table(name)]);
    assert WalkAll([Table(name)]) == [Table(name)];
    assert WalkAll([Star, Table(name)]) == [Star, Table(name)];
    r
  }

  /**
   * Every node of the subtree rooted at `e`, the root first, then the
   * nodes below it in a fixed depth-first order.
   */
  function Walk(e: Expr): (ns: seq<Expr>)
    ensures |ns| >= 1 && ns[0] == e
    decreases e, 1
  {
    match e
    case Select(cs) => [e] + WalkAll(cs)
    case With(ctes, body) => [e] + WalkCtes(ctes) + Walk(body)
    case Alias(_, x) => [e] + Walk(x)
    case Other(cs) => [e] + WalkAll(cs)
    case _ => [e]
  }

  function WalkAll(cs: seq<Expr>): seq<Expr>
    decreases cs, 0
  {
    if cs == [] then [] else Walk(cs[0]) + WalkAll(cs[1..])
  }

  function WalkCtes(ctes: seq<Cte>): seq<Expr>
    decreases ctes, 0
  {
    if ctes == [] then [] else Walk(ctes[0].query) + WalkCtes(ctes[1..])
  }

  /** Every node a walk reaches is the root of a walk no longer than it. */
  lemma {:induction false} WalkShrinks(e: Expr, d: Expr)
    requires d in Walk(e)
    ensures |Walk(d)| <= |Walk(e)|
    ensures d != e ==> |Walk(d)| < |Walk(e)|
    decreases e, 1
  {
    if d != e {
      match e
      case Select(cs) => WalkAllShrinks(cs, d);
      case With(ctes, body) =>
        if d in WalkCtes(ctes) { WalkCtesShrinks(ctes, d); } else { WalkShrinks(body, d); }
      case Alias(_, x) => WalkShrinks(x, d);
      case Other(cs) => WalkAllShrinks(cs, d);
      case _ =>
    }
  }

  lemma {:induction false} WalkAllShrinks(cs: seq<Expr>, d: Expr)
    requires d in WalkAll(cs)
    ensures |Walk(d)| <= |WalkAll(cs)|
    decreases cs, 0
  {
    if d in Walk(cs[0]) { WalkShrinks(cs[0], d); } else { WalkAllShrinks(cs[1..], d); }
  }

  lemma {:induction false} WalkCtesShrinks(ctes: seq<Cte>, d: Expr)
    requires d in WalkCtes(ctes)
    ensures |Walk(d)| <= |WalkCtes(ctes)|
    decreases ctes, 0
  {
    if d in Walk(ctes[0].query) { WalkShrinks(ctes[0].query, d); } else { WalkCtesShrinks(ctes[1..], d); }
  }

  /** A walk reaches every direct child of its root. */
  lemma WalkReachesChildren(e: Expr)
    ensures (e.Select? || e.Other?) ==> forall i :: 0 <= i < |e.children| ==> e.children[i] in Walk(e)
    ensures e.Alias? ==> e.expr in Walk(e)
    ensures e.With? ==> e.body in Walk(e) && forall i :: 0 <= i < |e.ctes| ==> e.ctes[i].query in Walk(e)
  {
    match e
    case Select(cs) =>
      forall i | 0 <= i < |cs| ensures cs[i] in Walk(e) { WalkAllHas(cs, i); }
    case Other(cs) =>
      forall i | 0 <= i < |cs| ensures cs[i] in Walk(e) { WalkAllHas(cs, i); }
    case With(ctes, body) =>
      forall i | 0 <= i < |ctes| ensures ctes[i].query in Walk(e) { WalkCtesHas(ctes, i); }
    case _ =>
  }

  lemma {:induction false} WalkAllHas(cs: seq<Expr>, i: nat)
    requires i < |cs|
    ensures cs[i] in WalkAll(cs)
    decreases i
  {
    if i > 0 { WalkAllHas(cs[1..], i - 1); }
  }

  lemma {:induction false} WalkCtesHas(ctes: seq<Cte>, i: nat)
    requires i < |ctes|
    ensures ctes[i].query in WalkCtes(ctes)
    decreases i
  {
    if i > 0 { WalkCtesHas(ctes[1..], i - 1); }
  }

  /**
   * A walk is closed under walking: whatever the walk of a reached node
   * reaches, the walk of the root reaches too. With `WalkReachesChildren`,
   * the walk covers the whole subtree.
   */
  lemma {:induction false} WalkClosed(e: Expr, d: Expr, f: Expr)
    requires d in Walk(e) && f in Walk(d)
    ensures f in Walk(e)
    decreases e, 1
  {
    if d != e {
      match e
      case Select(cs) => WalkAllClosed(cs, d, f);
      case Other(cs) => WalkAllClosed(cs, d, f);
      case With(ctes, body) =>
        if d in WalkCtes(ctes) { WalkCtesClosed(ctes, d, f); } else { WalkClosed(body, d, f); }
      case Alias(_, x) => WalkClosed(x, d, f);
      case _ =>
    }
  }

  lemma {:induction false} WalkAllClosed(cs: seq<Expr>, d: Expr, f: Expr)
    requires d in WalkAll(cs) && f in Walk(d)
    ensures f in WalkAll(cs)
    decreases cs, 0
  {
    if d in Walk(cs[0]) { WalkClosed(cs[0], d, f); } else { WalkAllClosed(cs[1..], d, f); }
  }

  lemma {:induction false} WalkCtesClosed(ctes: seq<Cte>, d: Expr, f: Expr)
    requires d in WalkCtes(ctes) && f in Walk(d)
    ensures f in WalkCtes(ctes)
    decreases ctes, 0
  {
    if d in Walk(ctes[0].query) { WalkClosed(ctes[0].query, d, f); } else { WalkCtesClosed(ctes[1..], d, f); }
  }

  /** The nodes after the root are proper descendants: their walks are shorter. */
  lemma DescendantShrinks(e: Expr, i: nat)
    requires 1 <= i < |Walk(e)|
    ensures |Walk(Walk(e)[i])| < |Walk(e)|
  {
    var d := Walk(e)[i];
    match e
    case Select(cs) =>
      assert d in WalkAll(cs);
      WalkAllShrinks(cs, d);
    case With(ctes, body) =>
      assert d in WalkCtes(ctes) + Walk(body);
      if d in WalkCtes(ctes) { WalkCtesShrinks(ctes, d); } else { WalkShrinks(body, d); }
    case Alias(_, x) =>
      assert d in Walk(x);
      WalkShrinks(x, d);
    case Other(cs) =>
      assert d in WalkAll(cs);
      WalkAllShrinks(cs, d);
  }

  // ---------------------------------------------------------------------
  // What a scan over walked nodes collects
  // ---------------------------------------------------------------------

  /**
   * The table names among `ns` that are members of `known`: what the CTE
   * scan records as the references of one CTE.
   */
  function TableRefs(ns: seq<Expr>, known: set<string>): (refs: set<string>)
    ensures forall x :: x in refs <==> x in known && Table(x) in ns
  {
    if ns == [] then {}
    else
      var last := ns[|ns| - 1];
      assert ns == ns[..|ns| - 1] + [last];
      TableRefs(ns[..|ns| - 1], known) + (if last.Table? && last.name in known then {last.name} else {})
  }

  /**
   * The alias definitions among `ns`, scanned left to right: each alias
   * name mapped to the expression it names; a later definition of the same
   * name replaces an earlier one.
   */
  function AliasDefs(ns: seq<Expr>): (m: map<string, Expr>)
    ensures forall a :: a in m ==> Alias(a, m[a]) in ns
    ensures forall i :: 0 <= i < |ns| && ns[i].Alias? ==> ns[i].alias in m
  {
    if ns == [] then map[]
    else
      var last := ns[|ns| - 1];
      assert ns == ns[..|ns| - 1] + [last];
      var m := AliasDefs(ns[..|ns| - 1]);
      if last.Alias? then m[last.alias := last.expr] else m
  }

  /**
   * Later definitions win: an alias name is bound to the expression of the
   * last alias node that defines it.
   */
  lemma {:induction false} AliasDefsLastWins(ns: seq<Expr>, i: nat)
    requires i < |ns| && ns[i].Alias?
    requires forall j :: i < j < |ns| && ns[j].Alias? ==> ns[j].alias != ns[i].alias
    ensures ns[i].alias in AliasDefs(ns) && AliasDefs(ns)[ns[i].alias] == ns[i].expr
    decreases |ns|
  {
    if i < |ns| - 1 {
      var pre := ns[..|ns| - 1];
      assert pre[i] == ns[i];
      forall j | i < j < |pre| && pre[j].Alias? ensures pre[j].alias != pre[i].alias {
        assert pre[j] == ns[j];
      }
      AliasDefsLastWins(pre, i);
    }
  }

  /**
   * The column names among `ns` that name an alias defined earlier in the
   * same scan: the same-level alias references the target dialect rejects.
   */
  function AliasRefs(ns: seq<Expr>): (r: set<string>)
    ensures forall c :: c in r ==> Column(c) in ns && c in AliasDefs(ns)
  {
    if ns == [] then {}
    else
      var pre := ns[..|ns| - 1];
      var last := ns[|ns| - 1];
      assert ns == pre + [last];
      forall c | c in AliasDefs(pre) ensures c in AliasDefs(ns) {
        var i :| 0 <= i < |pre| && pre[i] == Alias(c, AliasDefs(pre)[c]);
        assert ns[i] == pre[i];
      }
      AliasRefs(pre) + (if last.Column? && last.name in AliasDefs(pre) then {last.name} else {})
  }

  /** Scanning one more node: a column naming an alias defined before it is recorded. */
  lemma AliasRefsStep(ns: seq<Expr>, i: nat)
    requires i < |ns|
    ensures AliasRefs(ns[..i + 1]) == AliasRefs(ns[..i]) +
      (if ns[i].Column? && ns[i].name in AliasDefs(ns[..i]) then {ns[i].name} else {})
  {
    assert ns[..i + 1][..i] == ns[..i];
  }

  /** Scanning one more node: an alias node (re)binds its name to its expression. */
  lemma AliasNodesStep(ns: seq<Expr>, i: nat)
    requires i < |ns|
    ensures AliasNodes(AliasDefs(ns[..i + 1])) ==
      if ns[i].Alias? then AliasNodes(AliasDefs(ns[..i]))[ns[i].alias := ns[i]] else AliasNodes(AliasDefs(ns[..i]))
  {
    assert ns[..i + 1][..i] == ns[..i];
  }

  /** `a` is defined by an alias node at some index of `ns` before `j`. */
  predicate DefinedBefore(ns: seq<Expr>, a: string, j: int) {
    exists i :: 0 <= i < j && i < |ns| && ns[i].Alias? && ns[i].alias == a
  }

  /**
   * A column name is recorded as an alias reference exactly when some
   * column node of that name follows, in walk order, an alias node defining
   * the name.
   */
  lemma AliasRefsSpec(ns: seq<Expr>, c: string)
    ensures c in AliasRefs(ns) <==>
      exists j :: 0 <= j < |ns| && ns[j] == Column(c) && DefinedBefore(ns, c, j)
  {
    if c in AliasRefs(ns) {
      AliasRefsSound(ns, c);
    } else {
      AliasRefsComplete(ns, c);
    }
  }

  /** Each recorded name has a column node that follows a definition of it. */
  lemma {:induction false} AliasRefsSound(ns: seq<Expr>, c: string)
    requires c in AliasRefs(ns)
    ensures exists j :: 0 <= j < |ns| && ns[j] == Column(c) && DefinedBefore(ns, c, j)
  {
    var n := |ns| - 1;
    var pre := ns[..n];
    if c in AliasRefs(pre) {
      AliasRefsSound(pre, c);
      var j :| 0 <= j < |pre| && pre[j] == Column(c) && DefinedBefore(pre, c, j);
      var i :| 0 <= i < j && i < |pre| && pre[i].Alias? && pre[i].alias == c;
      assert ns[i] == pre[i] && ns[j] == pre[j];
      assert DefinedBefore(ns, c, j);
    } else {
      AliasDefsKeys(pre, c);
      var i :| 0 <= i < |pre| && pre[i].Alias? && pre[i].alias == c;
      assert ns[i] == pre[i];
      assert ns[n] == Column(c) && DefinedBefore(ns, c, n);
    }
  }

  /** Each column node that follows a definition of its name is recorded. */
  lemma {:induction false} AliasRefsComplete(ns: seq<Expr>, c: string)
    requires c !in AliasRefs(ns)
    ensures forall j :: 0 <= j < |ns| && ns[j] == Column(c) ==> !DefinedBefore(ns, c, j)
  {
    if ns != [] {
      var n := |ns| - 1;
      var pre := ns[..n];
      AliasRefsComplete(pre, c);
      AliasDefsKeys(pre, c);
      forall j | 0 <= j < |ns| && ns[j] == Column(c)
        ensures !DefinedBefore(ns, c, j)
      {
        DefinedBeforePrefix(ns, n, c, j);
        if j < n {
          assert pre[j] == ns[j];
        }
      }
    }
  }

  /** Whether a name is defined before `j` depends only on the nodes before `j`. */
  lemma DefinedBeforePrefix(ns: seq<Expr>, n: nat, c: string, j: nat)
    requires j <= n <= |ns|
    ensures DefinedBefore(ns, c, j) <==> DefinedBefore(ns[..n], c, j)
  {
    if DefinedBefore(ns, c, j) {
      var i :| 0 <= i < j && i < |ns| && ns[i].Alias? && ns[i].alias == c;
      assert ns[..n][i] == ns[i];
    }
    if DefinedBefore(ns[..n], c, j) {
      var i :| 0 <= i < j && i < n && ns[..n][i].Alias? && ns[..n][i].alias == c;
      assert ns[..n][i] == ns[i];
    }
  }

  /** The aliases recorded by a scan are exactly the names some alias node defines. */
  lemma AliasDefsKeys(ns: seq<Expr>, a: string)
    ensures a in AliasDefs(ns) <==> DefinedBefore(ns, a, |ns|)
  {
    if a in AliasDefs(ns) {
      assert Alias(a, AliasDefs(ns)[a]) in ns;
      var i :| 0 <= i < |ns| && ns[i] == Alias(a, AliasDefs(ns)[a]);
      assert ns[i].Alias? && ns[i].alias == a;
    }
  }

  /**
   * Some column node in `ns` names an alias that an alias node earlier in
   * `ns` defines: the pattern the alias hoister looks for.
   */
  ghost predicate SelfAliasReference(ns: seq<Expr>) {
    exists j :: 0 <= j < |ns| && ns[j].Column? && DefinedBefore(ns, ns[j].name, j)
  }

  /** The scan records some alias reference exactly when the pattern is present. */
  lemma AliasRefsNonEmpty(ns: seq<Expr>)
    ensures AliasRefs(ns) != {} <==> SelfAliasReference(ns)
  {
    if AliasRefs(ns) != {} {
      var c :| c in AliasRefs(ns);
      AliasRefsSpec(ns, c);
    }
    if SelfAliasReference(ns) {
      var j :| 0 <= j < |ns| && ns[j].Column? && DefinedBefore(ns, ns[j].name, j);
      AliasRefsSpec(ns, ns[j].name);
    }
  }

  /** Each alias name paired with the alias node `name AS expr` that defines it. */
  function AliasNodes(defs: map<string, Expr>): (m: map<string, Expr>)
    ensures m.Keys == defs.Keys
    ensures forall a :: a in m ==> m[a].Alias? && m[a].alias == a && m[a].expr == defs[a]
  {
    map a | a in defs :: Alias(a, defs[a])
  }
}
