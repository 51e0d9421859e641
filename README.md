# Redshift-to-Databricks SQL translator: a Dafny model of its core

This project models the core of `SQLTranslator`, the object that turns a
Redshift query into a Databricks query. The model covers these parts:

- **Synthetic-name counter.** It mints `cte_alias_<n>`. The names one
  translator mints are pairwise distinct.
- **CTE dependency graph.** It is a dictionary from CTE name to node that
  keeps insertion order. The CTEs of a `WITH` block are registered in
  declaration order. Each CTE's references are the table names in its
  query that are already keys. A second pass records every reader in the
  `referenced_by` set of the node it reads.
- **Alias hoister.** A selection that reads an alias it defines itself
  becomes a node under a fresh name. The query is then replaced by
  `SELECT * FROM` that name.
- **Depth-first topological sort.** The sort marks a name visited before it
  explores the name's references. The output lists every key exactly once.
  When the graph has no cycle, every CTE comes after the CTEs it reads.
- **Reassembly.** One CTE block is built around the query body.
- **Text rewrite handlers.** These are the `+`-concatenation handler, the
  `IGNORE NULLS` replacement and the `regexp_substr` / `regexp_instr` /
  `regexp_count` replacements. Each is a function of the groups its
  pattern captured.

Files:

- `text.dfy` (module `Text`): Python string helpers. These are `str(int)`,
  `in`, `str.replace`, `str.strip` and `''.join`.
- `sql_tree.dfy` (module `SqlTree`): the query tree reduced to the node
  kinds the translator tells apart. It also has a fixed walk order, and
  what the table scan and the alias scan collect from a walk.
- `cte_graph.dfy` (module `CteGraph`): the node and graph datatypes, and
  registration of a block and the back-edge pass as functions. It also
  defines cycles, dependency order and "references point backwards".
- `rewriters.dfy` (module `Rewriters`): the text handlers.
- `translator.dfy` (module `Translation`): the class `SqlTranslator`.
  - Its fields are `cteCounter` and `cteGraph`.
  - Each step of a translation is a method.
  - The loops carry invariants tying them to the functions above.
  - Each method's `ensures` states the new state or the result in terms of
    those functions.

## Model

| member | source | states |
|---|---|---|
| Text.NatToString | src/sql_translator/translator.py:26 | The decimal rendering of the counter parses back to the counter. It has no leading zero: 0 renders as the single digit `0`, and numbers below 10 as one digit. |
| Text.IntToString | src/sql_translator/translator.py:182-186 | The rendering of a non-negative number is digits that parse back to it. A negative number is `-` followed by the digits of its magnitude. Neither has a leading zero, and 0 renders as the single digit `0`. |
| Text.FlattenConcat | src/sql_translator/translator.py:157 | Joining two lists of parts is joining each list and concatenating the results. |
| Text.FlattenAt | src/sql_translator/translator.py:157 | Each part appears verbatim in the join, right after the join of the parts before it; the join's length is the sum of the lengths. |
| Text.Contains | src/sql_translator/translator.py:172 | The empty string occurs in every string. A string longer than the text never occurs in it. |
| Text.Strip | src/sql_translator/translator.py:157 | The result neither starts nor ends with whitespace. It is empty exactly when the input is all whitespace. |
| Text.StripSpec | src/sql_translator/translator.py:157 | The result is a stretch of the input with only whitespace before it and only whitespace after it. |
| Text.ReplaceAll | src/sql_translator/translator.py:176-177 | A string without an occurrence of the pattern is returned unchanged. |
| Text.ReplaceAllFirst | src/sql_translator/translator.py:176-177 | At the first occurrence of the pattern, the text before it is kept, the occurrence becomes the replacement, and the replacement carries on from just after the occurrence. |
| Text.ReplaceAllSplice | src/sql_translator/translator.py:176-177 | Text free of the pattern's first character, followed by the pattern, is kept; the pattern becomes the replacement, and the replacement carries on after it. |
| Translation.CteAliasName | src/sql_translator/translator.py:26 | The name is `cte_alias_` followed by digits whose value is the counter. A leading `0` occurs only for counter 0. |
| Translation.CteAliasNameInjective | src/sql_translator/translator.py:23-26 | Two counter values with the same name are equal. |
| Translation.SqlTranslator.constructor | src/sql_translator/translator.py:19-21 | The counter is 0 and the graph is empty. No name has been minted. |
| Translation.SqlTranslator.GenerateCteName | src/sql_translator/translator.py:23-26 | The counter rises by exactly one. The name carries the new value and differs from every name minted before. The minted names grow by exactly it. |
| CteGraph.Graph.Put | src/sql_translator/translator.py:45-51 | Dictionary assignment. A new key goes to the end of the iteration order. An existing key keeps its place. Every other node is unchanged, and well-formedness is kept. |
| SqlTree.Walk | src/sql_translator/translator.py:60 | The walk starts at its root. |
| SqlTree.WalkReachesChildren | src/sql_translator/translator.py:60 | The walk reaches every direct child of the root: the items of a selection, the CTE queries and body of a CTE block, the expression under an alias. |
| SqlTree.WalkClosed | src/sql_translator/translator.py:60 | Whatever the walk of a reached node reaches, the walk of the root reaches too; so the walk covers the whole subtree. |
| SqlTree.SelectStarFrom | src/sql_translator/translator.py:96 | The replacement is a selection whose walk is exactly the selection, the `*` and a table reference to the name: it holds no alias and no nested selection. |
| SqlTree.TableRefs | src/sql_translator/translator.py:38-41 | A name is collected iff it is a known key and a table node of that name is in the walk. |
| SqlTree.AliasDefs | src/sql_translator/translator.py:42-43 | Every alias node in the walk is recorded. Every recorded name has an alias node that defines it. |
| SqlTree.AliasDefsLastWins | src/sql_translator/translator.py:42-43 | A name is bound to the expression of the last alias node that defines it. |
| CteGraph.ScannedNode | src/sql_translator/translator.py:32-51 | The scanned node has the CTE's name and query, and no readers. Its references are exactly the table names in its query that are already keys. Each alias it records is defined in its query, and every alias its query defines is recorded. |
| CteGraph.ScannedAliasLastWins | src/sql_translator/translator.py:38-43 | The alias the node records for a name is the expression of its query's last definition of that name. |
| Translation.SqlTranslator.ScanCte | src/sql_translator/translator.py:34-44 | The loop over the walk builds exactly the scanned node of the CTE against the current graph. |
| Translation.SqlTranslator.RegisterCte | src/sql_translator/translator.py:32-51 | The graph becomes the old graph with the scanned node put under the CTE's name. Well-formedness is kept. |
| CteGraph.Registered | src/sql_translator/translator.py:31-51 | The keys become the old keys plus the block's names. Nodes of other names are unchanged. The old iteration order is a prefix of the new one, and well-formedness is kept. |
| Translation.SqlTranslator.RegisterCtes | src/sql_translator/translator.py:31-51 | The loop over a block leaves the graph the block registers, in declaration order. |
| CteGraph.RegisteredNode | src/sql_translator/translator.py:31-51 | Take a CTE whose name no later CTE of its block reuses. Its node holds its query and has no readers. It reads exactly those table names in its query that were keys before the block or names of earlier CTEs of the block. |
| CteGraph.LaterDeclarationNotLinked | src/sql_translator/translator.py:38-41 | For any starting graph and block: a CTE that reads a name declared only after it in the same block, and neither in the graph before nor declared earlier, records no reference to it. |
| CteGraph.RegisteredRefsEarlier | src/sql_translator/translator.py:31-51 | Registering freshly named CTEs keeps every reference pointing to an earlier key. |
| CteGraph.OrderedAcyclic | src/sql_translator/translator.py:31-51 | A graph whose insertion order is a dependency order has no cycle. |
| Translation.SqlTranslator.RecordReader | src/sql_translator/translator.py:55-57 | For each target that is a key, in any order, the source name is added to that target's readers. Nothing else changes. |
| Translation.SqlTranslator.RecordReadersOf | src/sql_translator/translator.py:55-57 | Recording the readers of one more key, in insertion order, leaves the graph with the back-edges of every key up to and including it. |
| Translation.SqlTranslator.AddBackEdges | src/sql_translator/translator.py:53-57 | The pass over the keys in insertion order leaves the graph with every back-edge recorded. |
| CteGraph.WithBackEdges | src/sql_translator/translator.py:53-57 | Only the reader sets change, and they only grow. Each node that reads a key is among that key's readers. Each reader recorded was already there or reads the node. Well-formedness is kept, and so are backward-pointing references. |
| Translation.SqlTranslator.BuildCteGraph | src/sql_translator/translator.py:28-62 | A `WITH` block registers its CTEs and then records the back-edges. Any other query leaves the graph unchanged. Descending into the selections below the root changes nothing. |
| Translation.DescentAsWrittenDiverges | src/sql_translator/translator.py:59-62 | On a selection, the descent as written never returns, at any depth bound, because the walk yields the root first. |
| Translation.DescentReturnsWithin | src/sql_translator/translator.py:59-62 | The descent into proper sub-selections returns within as many levels as the walk has nodes. |
| SqlTree.AliasRefs | src/sql_translator/translator.py:76-80 | Each recorded name is a column node of the walk and is defined by an alias node of the walk. |
| SqlTree.AliasRefsSpec | src/sql_translator/translator.py:76-80 | A column name is recorded iff some column node of that name follows, in walk order, an alias node that defines it. |
| SqlTree.AliasRefsNonEmpty | src/sql_translator/translator.py:76-82 | The recorded set is non-empty iff the selection reads one of its own aliases. |
| SqlTree.AliasNodes | src/sql_translator/translator.py:78 | Each recorded alias name maps to the alias node that binds it to its recorded expression. The key set is unchanged. |
| Translation.SqlTranslator.ScanAliases | src/sql_translator/translator.py:73-80 | The walk loop collects exactly the alias definitions (the last one wins) and the column names that read an earlier alias. |
| Translation.SqlTranslator.HandleColumnAliases | src/sql_translator/translator.py:64-98 | A non-selection, or a selection that reads none of its own aliases, is returned unchanged, and counter and graph stay untouched. Otherwise the counter rises by one and one node is put under the fresh name. That node holds the selection, has no references or readers, and holds its alias nodes. The result is `SELECT * FROM` that name. |
| Translation.SqlTranslator.Visit | src/sql_translator/translator.py:239-246 | The visit keeps the depth-first state. Visited names are the finished names (each listed once) plus the names in progress. Under acyclicity every finished name follows what it reads. The name ends up visited. |
| Translation.SqlTranslator.SortCtesTopologically | src/sql_translator/translator.py:234-250 | Every key is listed exactly once, with as many entries as keys. When the graph has no cycle, each name follows every key it reads. |
| Translation.SqlTranslator.Reassemble | src/sql_translator/translator.py:264-277 | An empty order leaves the body as it is. Otherwise the result is one CTE block around the body, declaring each name with its node's query, in the given order. |
| Translation.SqlTranslator.SortAndReassemble | src/sql_translator/translator.py:261-277 | An empty graph leaves the body as it is. Otherwise the block around the body declares every key exactly once, each with its node's query. Under acyclicity each CTE follows those it reads. |
| Translation.SqlTranslator.Translate | src/sql_translator/translator.py:256-277 | The final graph is the built graph, plus the hoisted node under the next synthetic name exactly when the selection reads its own aliases, and the counter rises by one exactly then. The result is the query itself when the graph is empty. Otherwise it is one block, around `SELECT * FROM` the synthetic name or around the query, declaring every key once with its node's query. Starting from a graph whose references point backwards, with freshly named CTEs, the final graph has no cycle, so the block is in dependency order. |
| Rewriters.ReplaceIgnoreNulls | src/sql_translator/translator.py:109-116 | The result is the window call of the same function over the same window, with its argument null-guarded. |
| Rewriters.IgnoreNullsInjective | src/sql_translator/translator.py:109-116 | With the function and window fixed, the replacement determines the original argument. |
| Rewriters.FindQuote | src/sql_translator/translator.py:144 | The result is -1, or the index of a quote at or after the start. |
| Rewriters.FindQuoteAt | src/sql_translator/translator.py:144 | The result is the first quote at or after the start, and -1 when there is none. |
| Rewriters.ConcatHandler | src/sql_translator/translator.py:137-157 | The result is `concat(` + the stripped collected body + `)`. |
| Rewriters.CollectConcatParts | src/sql_translator/translator.py:138-155 | The parts the character loop collects join up to the collected body. |
| Rewriters.ConcatLoopJoins | src/sql_translator/translator.py:142-155 | From any position, the parts the loop ends with are the parts already held followed by the body of the rest of the text. |
| Rewriters.ConcatBodyNoQuotes | src/sql_translator/translator.py:151-154 | Outside quotes each `+` becomes `,` and every other character is copied. |
| Rewriters.ConcatBodyLiteral | src/sql_translator/translator.py:143-147 | A quoted literal is copied verbatim with its quotes. The character after the closing quote is dropped. |
| Rewriters.ConcatBodyUnterminated | src/sql_translator/translator.py:148-150 | After a quote that is never closed, the rest of the text is copied as it is. |
| Rewriters.ConcatBody | src/sql_translator/translator.py:142-155 | The collected body is never longer than the text. |
| Rewriters.ConcatDropsOperatorAfterLiteral | src/sql_translator/translator.py:146-155 | As written, `'a'+'b'` is collected as `'a''b'` and not as `'a','b'`. |
| Rewriters.ConcatBodyFixed | src/sql_translator/translator.py:142-155 | Corrected loop: every character is copied or replaced, none is dropped, so the body is exactly as long as the text. |
| Rewriters.ConcatFixedJoin | src/sql_translator/translator.py:142-155 | Corrected loop: operands joined by `+` are collected as the same operands joined by `,`. |
| Rewriters.PositionArg | src/sql_translator/translator.py:169-186 | The position is the captured 1-based position minus one. It is `0` when no position was captured or the captured position is 1, and `-1` for a captured `0`. A captured position of 2 or more gives digits without a leading zero. |
| Rewriters.StripLookBehind | src/sql_translator/translator.py:175-178 | A pattern without a look-behind opener is left unchanged. |
| Rewriters.StripLookBehindParen | src/sql_translator/translator.py:175-178 | In a pattern whose only parentheses are those of one `(?<=\()`, that opener becomes `\(` and the rest is kept. |
| Rewriters.StripLookBehindPlain | src/sql_translator/translator.py:175-178 | In a pattern whose one parenthesis opens a `(?<=`, the opener is deleted and the rest is kept. |
| Rewriters.RegexpExtractCall | src/sql_translator/translator.py:181-186 | The call is `regexp_extract(`, the expression, `, `, the pattern, `, `, the position and `)`, each verbatim at its own offset; the length is the sum of the pieces. |
| Rewriters.Layout | src/sql_translator/translator.py:179-184 | Each of five concatenated pieces sits verbatim at the offset given by the lengths of the pieces before it. |
| Rewriters.WrappedQuery | src/sql_translator/translator.py:179-184 | The query is `(WITH name`, ` AS (SELECT `, the inner expression, ` as alias) SELECT outer FROM ` and `name)`, each verbatim at its offset; the length is the sum of the pieces. |
| Rewriters.WrappedInjective | src/sql_translator/translator.py:179-184 | Two wrapped queries with the same name, alias and read-back are equal only if their inner expressions are. |
| Rewriters.LookBehindQuery | src/sql_translator/translator.py:172-185 | The look-behind form declares and reads the given name. ` AS (SELECT ` follows the name, then the extraction with the stripped pattern, then ` as match) SELECT match FROM `, each at its offset; the length is the sum of the pieces. |
| Translation.SqlTranslator.RegexpSubstrHandler | src/sql_translator/translator.py:167-186 | Without a look-behind marker the result is the plain extraction and the counter is unchanged. With one, the counter rises by one and the wrapped form uses the freshly minted name. |
| Rewriters.RegexpInstrReplacement | src/sql_translator/translator.py:196-201 | The result is a subquery named `regexp_match`: ` AS (SELECT ` after the name, then the extraction at position 0, then ` as match) SELECT CASE WHEN match IS NOT NULL THEN length(match) ELSE 0 END FROM `; the length is the sum of the pieces. |
| Rewriters.RegexpInstrInjective | src/sql_translator/translator.py:196-204 | Different expressions searched for the same pattern give different replacements. |
| Rewriters.ExtractAllCall | src/sql_translator/translator.py:212 | The call is `regexp_extract_all(`, the expression, `, `, the pattern and `)`, each verbatim at its offset. |
| Rewriters.RegexpCountReplacement | src/sql_translator/translator.py:210-214 | The result is a subquery named `regexp_matches`: ` AS (SELECT ` after the name, then the extraction of all matches, then ` as matches) SELECT size(matches) FROM `; the length is the sum of the pieces. |
| Rewriters.RegexpCountInjective | src/sql_translator/translator.py:210-216 | Different expressions counted against the same pattern give different replacements. |

## Left out

- The command-line entry point (`main.py`) is not modelled. It handles argument checks, file reading and writing, printing and exit codes.
- Parsing and rendering by the SQL library are not modelled (`parse_one`, `.sql(dialect=...)`, `str()` of a node). The tree is the model's own datatype, in which a `WITH` block wraps its body. The rendered text of a table or column node is its name.
- Walk: a depth-first pre-order that starts at the root stands in for the library's traversal. The library's own order is not modelled. The alias scan's properties are stated for the order `Walk` gives.
- ScannedNode: the alias map stores each alias's expression as a tree, not its rendered text.
- The regular-expression matching in the `re.sub` calls is not modelled. This includes the lazy quantifiers, the flags and the second `IGNORE NULLS` pattern. Only the handlers and the fixed replacement templates are modelled, as functions of the captured groups.
- Translate: the three text passes are left out of the model. In the source, `_apply_transformations` (translator.py:223-232) hands the query tree, not a string, to `re.sub`, which rejects it. As written, `translate` therefore raises before it sorts; the model follows the flow the code evidently intends.
- Python set iteration order, in the back-edge pass and in the sort's loop over references, is modelled as an arbitrary choice. The contracts hold for every order.
- Python's recursion limit is not modelled. On a deep graph or a deep tree, the source can fail with `RecursionError` where the model returns.
- Whitespace in `Strip` is the ASCII whitespace set only. Unicode whitespace is not modelled.
- PositionArg: requires the captured position to be ASCII digits `0`-`9`. The capture `\d+` and Python's `int()` also accept the other Unicode decimal digits (Arabic-Indic, Devanagari and so on), and the model does not cover positions written with them.
- RegexpSubstrHandler: has the same ASCII-digit requirement on the captured position, which it passes on to `PositionArg`.
- A cycle is not detected or rejected, though a dependency cycle cannot be ordered. The code has no cycle check: it marks a name visited before it explores it, so the sort ends on any graph and emits an order that breaks a cycle. The model follows the code, and dependency order is proved only for acyclic graphs.
- A synthetic name can collide with a user-declared CTE name. The code puts a synthetic node into the dictionary under its name, replacing any CTE already there. The model follows the code.
- A table name is linked only when it is already a key. References to CTEs declared later are not recorded. The model follows the code.
- The counter and the graph are fields of the translator object and are not reset between translations. The model follows the code.
- ConcatHandler models the loop as written. The corrected loop (`ConcatBodyFixed`) is proved correct on `+` chains, but no handler is built on it.

## Findings

| source | as written | input that shows it | evidently intended | confidence | as-written member | corrected member |
|---|---|---|---|---|---|---|
| src/sql_translator/translator.py:146-155 | After a closing quote the position is set to just past the quote (line 147), then incremented again (line 155), so the character after the literal is skipped | `'a'+'b'` is collected as `'a''b'` | resume right after the closing quote, giving `'a','b'` | high, not executed | Rewriters.ConcatDropsOperatorAfterLiteral | Rewriters.ConcatFixedJoin |
| src/sql_translator/translator.py:59-62 | The builder is called again on every selection the walk yields, and the walk yields the root first | any query whose root is a selection | descend only into selections strictly below the root | medium, not executed | Translation.DescentAsWrittenDiverges | Translation.DescentReturnsWithin |
