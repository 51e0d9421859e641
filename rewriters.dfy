/**
 * The text-level rewrites of dialect-specific function syntax, modelled at
 * the level of their replacement handlers: each is a function of the groups
 * the pattern captured. The pattern matching itself is not modelled.
 */
module Rewriters {
  import opened Text

  // ---------------------------------------------------------------------
  // FUNC(expr) IGNORE NULLS OVER (window)
  // ---------------------------------------------------------------------

  /** `CASE WHEN e IS NOT NULL THEN e END`: `e` where it is not null, null otherwise. */
  function NullGuard(e: string): string {
    "CASE WHEN " + e + " IS NOT NULL THEN " + e + " END"
  }

  /** `func(arg) OVER (window)`, a window-function call without a null clause. */
  function WindowCall(func: string, arg: string, window: string): string {
    func + "(" + arg + ") OVER (" + window + ")"
  }

  /**
   * The replacement for `func(expr) IGNORE NULLS OVER (window)`: the same
   * window call, with the null clause dropped and the argument guarded so
   * that null rows contribute nothing.
   */
  function ReplaceIgnoreNulls(func: string, expr: string, window: string): (r: string)
    ensures r == WindowCall(func, NullGuard(expr), window)
  {
    func + "(CASE WHEN " + expr + " IS NOT NULL THEN " + expr + " END) OVER (" + window + ")"
  }

  /**
   * The rewrite loses nothing: with the function name and the window fixed,
   * the guarded expression determines the original argument.
   */
  lemma IgnoreNullsInjective(func: string, e1: string, e2: string, window: string)
    requires ReplaceIgnoreNulls(func, e1, window) == ReplaceIgnoreNulls(func, e2, window)
    ensures e1 == e2
  {
    var r1 := ReplaceIgnoreNulls(func, e1, window);
    var r2 := ReplaceIgnoreNulls(func, e2, window);
    var k := |func| + |"(CASE WHEN "|;
    assert |e1| == |e2| by { assert |r1| == |r2|; }
    assert r1[k..k + |e1|] == e1;
    assert r2[k..k + |e2|] == e2;
  }

  // ---------------------------------------------------------------------
  // a + b concatenation
  // ---------------------------------------------------------------------

  /** Python's `text.find("'", from)`: the first quote at or after `from`, or -1. */
  function FindQuote(text: string, from: nat): (r: int)
    ensures r == -1 || (from <= r < |text| && text[r] == '\'')
    decreases |text| - from
  {
    if from >= |text| then -1
    else if text[from] == '\'' then from
    else FindQuote(text, from + 1)
  }

  /** `FindQuote` finds the first quote: the one at `r`, or none when no quote lies in `from..r` and `r` is the end. */
  lemma {:induction false} FindQuoteAt(text: string, from: nat, r: nat)
    requires from <= r <= |text|
    requires forall k :: from <= k < r ==> text[k] != '\''
    requires r < |text| ==> text[r] == '\''
    ensures FindQuote(text, from) == if r == |text| then -1 else r
    decreases r - from
  {
    if from < r {
      FindQuoteAt(text, from + 1, r);
    }
  }

  /**
   * What the character loop of the concatenation handler collects from
   * `s`: outside quotes `+` becomes `,` and every other character is
   * copied; a quoted literal is copied with its quotes, after which the
   * next character is skipped; an unterminated quote copies the rest.
   */
  function ConcatBody(s: string): (r: string)
    ensures |r| <= |s|
    decreases |s|
  {
    if s == [] then ""
    else if s[0] == '\'' then
      var q := FindQuote(s, 1);
      if q == -1 then s
      else s[..q + 1] + (if q + 2 <= |s| then ConcatBody(s[q + 2..]) else "")
    else [if s[0] == '+' then ',' else s[0]] + ConcatBody(s[1..])
  }

  /** What the loop still collects from position `pos` of `text` on. */
  function ConcatRest(text: string, pos: nat): string {
    if pos <= |text| then ConcatBody(text[pos..]) else ""
  }

  /**
   * The concatenation handler: walks the matched text character by
   * character, then wraps what it collected, stripped, in `concat(...)`.
   */
  method ConcatHandler(text: string) returns (r: string)
    ensures r == "concat(" + Strip(ConcatBody(text)) + ")"
  {
    var parts := CollectConcatParts(text);
    r := "concat(" + Strip(Flatten(parts)) + ")";
  }

  /**
   * The character loop of the concatenation handler: the parts it collects
   * join up to the body the handler wraps.
   */
  method CollectConcatParts(text: string) returns (parts: seq<string>)
    ensures Flatten(parts) == ConcatBody(text)
  {
    parts := [];
    var pos := 0;
    while pos < |text|
      invariant 0 <= pos <= |text| + 1
      invariant ConcatLoop(text, pos, parts) == ConcatLoop(text, 0, [])
      decreases |text| + 1 - pos
    {
      if text[pos] == '\'' {
        var endQuote := FindQuote(text, pos + 1);
        if endQuote != -1 {
          parts := parts + [text[pos..endQuote + 1]];
          pos := endQuote + 1;
        } else {
          parts := parts + [text[pos..]];
          break;
        }
      } else if text[pos] == '+' {
        parts := parts + [","];
      } else {
        parts := parts + [[text[pos]]];
      }
      pos := pos + 1;
    }
    ConcatLoopJoins(text, 0, []);
    assert text[0..] == text;
  }

  /**
   * What one round of the character loop at `pos` collects: a quoted
   * literal with its quotes, the rest of the text after a quote that is
   * never closed, `,` for `+`, or the character itself.
   */
  function ConcatPiece(text: string, pos: nat): string
    requires pos < |text|
  {
    if text[pos] == '\'' then
      var q := FindQuote(text, pos + 1);
      if q == -1 then text[pos..] else text[pos..q + 1]
    else [if text[pos] == '+' then ',' else text[pos]]
  }

  /**
   * Where the next round of the loop starts: after the character that
   * follows a closing quote, at the end after an unclosed quote, or at the
   * next character.
   */
  function ConcatNext(text: string, pos: nat): (next: nat)
    requires pos < |text|
    ensures pos < next <= |text| + 1
  {
    if text[pos] == '\'' then
      var q := FindQuote(text, pos + 1);
      if q == -1 then |text| else q + 2
    else pos + 1
  }

  /** The parts the character loop ends with when it is at `pos` holding `parts`. */
  ghost function ConcatLoop(text: string, pos: nat, parts: seq<string>): seq<string>
    decreases |text| - pos
  {
    if pos >= |text| then parts
    else ConcatLoop(text, ConcatNext(text, pos), parts + [ConcatPiece(text, pos)])
  }

  /** One round reads off the front of the body of the rest. */
  lemma ConcatRound(text: string, pos: nat)
    requires pos < |text|
    ensures ConcatRest(text, pos) == ConcatPiece(text, pos) + ConcatRest(text, ConcatNext(text, pos))
  {
    if text[pos] != '\'' {
      PlainRound(text, pos);
    } else if FindQuote(text, pos + 1) == -1 {
      OpenQuoteRound(text, pos);
    } else {
      ClosedQuoteRound(text, pos, FindQuote(text, pos + 1));
    }
  }

  lemma PlainRound(text: string, pos: nat)
    requires pos < |text| && text[pos] != '\''
    ensures ConcatRest(text, pos) == ConcatPiece(text, pos) + ConcatRest(text, ConcatNext(text, pos))
  {
    PlainStep(text, pos);
  }

  lemma OpenQuoteRound(text: string, pos: nat)
    requires pos < |text| && text[pos] == '\'' && FindQuote(text, pos + 1) == -1
    ensures ConcatRest(text, pos) == ConcatPiece(text, pos) + ConcatRest(text, ConcatNext(text, pos))
  {
    QuoteOpenStep(text, pos);
  }

  lemma ClosedQuoteRound(text: string, pos: nat, q: nat)
    requires pos < |text| && text[pos] == '\'' && FindQuote(text, pos + 1) == q
    ensures ConcatRest(text, pos) == ConcatPiece(text, pos) + ConcatRest(text, ConcatNext(text, pos))
  {
    QuoteClosedStep(text, pos, q);
    ClosedPieceNext(text, pos, q);
  }

  lemma ClosedPieceNext(text: string, pos: nat, q: nat)
    requires pos < |text| && text[pos] == '\'' && FindQuote(text, pos + 1) == q
    ensures q < |text| && ConcatPiece(text, pos) == text[pos..q + 1] && ConcatNext(text, pos) == q + 2
  {
  }

  /** What the loop ends with joins up to what it holds followed by the body of the rest. */
  lemma {:induction false} ConcatLoopJoins(text: string, pos: nat, parts: seq<string>)
    ensures Flatten(ConcatLoop(text, pos, parts)) == Flatten(parts) + ConcatRest(text, pos)
    decreases |text| - pos
  {
    if pos >= |text| {
      if pos == |text| {
        assert text[pos..] == [];
      }
    } else {
      var x, next := ConcatPiece(text, pos), ConcatNext(text, pos);
      ConcatRound(text, pos);
      ConcatLoopJoins(text, next, parts + [x]);
      AppendPart(parts, x, ConcatRest(text, next));
    }
  }

  lemma AppendPart(parts: seq<string>, x: string, rest: string)
    ensures Flatten(parts + [x]) + rest == Flatten(parts) + (x + rest)
  {
    assert (parts + [x])[..|parts|] == parts;
  }

  /** One step of the concatenation loop on a character other than a quote. */
  lemma PlainStep(text: string, pos: nat)
    requires pos < |text| && text[pos] != '\''
    ensures ConcatRest(text, pos)
         == [if text[pos] == '+' then ',' else text[pos]] + ConcatRest(text, pos + 1)
  {
    assert text[pos..][1..] == text[pos + 1..];
  }

  /** `FindQuote` on a suffix finds the same quote, counted from the suffix's start. */
  lemma {:induction false} FindQuoteShift(text: string, pos: nat, j: nat)
    requires pos <= |text|
    ensures var q := FindQuote(text, pos + j);
      FindQuote(text[pos..], j) == if q == -1 then -1 else q - pos
    decreases |text| - pos - j
  {
    if pos + j < |text| && text[pos + j] != '\'' {
      FindQuoteShift(text, pos, j + 1);
    }
  }

  /** The body at a closed quoted literal, read off the definition. */
  lemma {:induction false} ConcatBodyQuote(s: string, q: nat)
    requires s != [] && s[0] == '\'' && FindQuote(s, 1) == q
    ensures q + 1 <= |s|
    ensures ConcatBody(s) == s[..q + 1] + (if q + 2 <= |s| then ConcatBody(s[q + 2..]) else "")
  {
  }

  /** The loop at a quoted literal closed at `q`: the literal, then the body after the skipped character. */
  lemma QuoteClosedStep(text: string, pos: nat, q: nat)
    requires pos < |text| && text[pos] == '\'' && FindQuote(text, pos + 1) == q
    ensures q < |text| && ConcatRest(text, pos) == text[pos..q + 1] + ConcatRest(text, q + 2)
  {
    var s := text[pos..];
    FindQuoteShift(text, pos, 1);
    ConcatBodyQuote(s, q - pos);
    assert s[..q - pos + 1] == text[pos..q + 1];
    if q + 2 <= |text| {
      assert s[q - pos + 2..] == text[q + 2..];
    }
  }

  /** The loop at a quote that is never closed: the rest is copied as it is. */
  lemma QuoteOpenStep(text: string, pos: nat)
    requires pos < |text| && text[pos] == '\'' && FindQuote(text, pos + 1) == -1
    ensures ConcatRest(text, pos) == text[pos..] + ConcatRest(text, |text|)
  {
    assert text[|text|..] == [];
    var s := text[pos..];
    FindQuoteShift(text, pos, 1);
    assert s[0] == '\'' && FindQuote(s, 1) == -1;
  }

  /** Each `+` replaced by `,`, every other character kept. */
  function PlusToComma(s: string): (r: string)
    ensures |r| == |s|
    ensures forall i :: 0 <= i < |s| ==> r[i] == (if s[i] == '+' then ',' else s[i])
  {
    if s == [] then "" else [if s[0] == '+' then ',' else s[0]] + PlusToComma(s[1..])
  }

  /** Text without quotes: every `+` becomes `,` and nothing else changes. */
  lemma {:induction false} ConcatBodyNoQuotes(s: string)
    requires forall i :: 0 <= i < |s| ==> s[i] != '\''
    ensures ConcatBody(s) == PlusToComma(s)
  {
    if s != [] {
      ConcatBodyNoQuotes(s[1..]);
    }
  }

  /**
   * A quoted literal is copied verbatim with its quotes, so a `+` inside it
   * stays a `+`; the character after the closing quote is dropped, and the
   * scan resumes after it.
   */
  lemma ConcatBodyLiteral(b: string, rest: string)
    requires forall i :: 0 <= i < |b| ==> b[i] != '\''
    ensures ConcatBody("'" + b + "'" + rest)
         == "'" + b + "'" + (if rest == [] then "" else ConcatBody(rest[1..]))
  {
    var s := "'" + b + "'" + rest;
    assert s[|b| + 1] == '\'';
    FindQuoteAt(s, 1, |b| + 1);
    assert s[..|b| + 2] == "'" + b + "'";
    if rest != [] { assert s[|b| + 3..] == rest[1..]; }
  }

  /** A quote that is never closed: the rest of the text is copied as it is. */
  lemma ConcatBodyUnterminated(b: string)
    requires forall i :: 0 <= i < |b| ==> b[i] != '\''
    ensures ConcatBody("'" + b) == "'" + b
  {
    var s := "'" + b;
    FindQuoteAt(s, 1, |s|);
  }

  // The skipped character is the operator itself when a literal is
  // followed directly by `+`: the two operands run together.

  /** Operands joined by a separator character. */
  function Join(ops: seq<string>, sep: char): string {
    if |ops| == 0 then ""
    else if |ops| == 1 then ops[0]
    else ops[0] + [sep] + Join(ops[1..], sep)
  }

  /**
   * As written: `'a'+'b'` is collected as `'a''b'`, one literal holding an
   * embedded quote, instead of the two operands `'a','b'`.
   */
  lemma ConcatDropsOperatorAfterLiteral()
    ensures ConcatBody(Join(["'a'", "'b'"], '+')) == "'a''b'"
    ensures ConcatBody(Join(["'a'", "'b'"], '+')) != Join(["'a'", "'b'"], ',')
  {
    var ops := ["'a'", "'b'"];
    assert ops[1..] == ["'b'"];
    assert Join(ops, '+') == "'a'+'b'";
    assert Join(ops, ',') == "'a','b'";
    assert "'a'+'b'" == "'" + "a" + "'" + "+'b'";
    ConcatBodyLiteral("a", "+'b'");
    assert "+'b'"[1..] == "'b'";
    assert "'b'" == "'" + "b" + "'" + "";
    ConcatBodyLiteral("b", "");
    assert "'a'" + "'b'" == "'a''b'";
  }

  predicate IsLetter(c: char) {
    'a' <= c <= 'z' || 'A' <= c <= 'Z'
  }

  /** `[a-zA-Z_][a-zA-Z0-9_]*` */
  predicate IsIdentifier(s: string) {
    && |s| >= 1
    && (IsLetter(s[0]) || s[0] == '_')
    && forall i :: 1 <= i < |s| ==> IsLetter(s[i]) || IsDigit(s[i]) || s[i] == '_'
  }

  /** `'[^']*'` */
  predicate IsQuotedLiteral(s: string) {
    && |s| >= 2
    && s[0] == '\'' && s[|s| - 1] == '\''
    && forall i :: 0 < i < |s| - 1 ==> s[i] != '\''
  }

  /** An operand of a `+` chain: an identifier or a quoted literal. */
  predicate IsOperand(s: string) {
    IsIdentifier(s) || IsQuotedLiteral(s)
  }

  /** The collection loop as evidently intended: the scan resumes right after a closing quote. */
  function ConcatBodyFixed(s: string): (r: string)
    ensures |r| == |s|
    decreases |s|
  {
    if s == [] then ""
    else if s[0] == '\'' then
      var q := FindQuote(s, 1);
      if q == -1 then s else s[..q + 1] + ConcatBodyFixed(s[q + 1..])
    else [if s[0] == '+' then ',' else s[0]] + ConcatBodyFixed(s[1..])
  }

  /** An operand at the front is copied unchanged and the scan continues after it. */
  lemma {:induction false} ConcatFixedOperand(op: string, tail: string)
    requires IsOperand(op)
    ensures ConcatBodyFixed(op + tail) == op + ConcatBodyFixed(tail)
    decreases |op|
  {
    var s := op + tail;
    if IsQuotedLiteral(op) {
      assert s[|op| - 1] == '\'';
      FindQuoteAt(s, 1, |op| - 1);
      assert s[..|op|] == op && s[|op|..] == tail;
    } else {
      IdentifierCopied(op, tail);
    }
  }

  lemma {:induction false} IdentifierCopied(op: string, tail: string)
    requires forall i :: 0 <= i < |op| ==> op[i] != '\'' && op[i] != '+'
    ensures ConcatBodyFixed(op + tail) == op + ConcatBodyFixed(tail)
    decreases |op|
  {
    if op == [] {
      assert op + tail == tail;
    } else {
      assert (op + tail)[0] == op[0];
      assert (op + tail)[1..] == op[1..] + tail;
      IdentifierCopied(op[1..], tail);
      assert op == [op[0]] + op[1..];
    }
  }

  /**
   * Corrected: a chain of operands joined by `+` is collected as the same
   * operands, in the same order and with literals untouched, joined by `,`.
   */
  lemma {:induction false} ConcatFixedJoin(ops: seq<string>)
    requires forall i :: 0 <= i < |ops| ==> IsOperand(ops[i])
    ensures ConcatBodyFixed(Join(ops, '+')) == Join(ops, ',')
  {
    if |ops| == 1 {
      ConcatFixedOperand(ops[0], "");
      assert ops[0] + "" == ops[0];
    } else if |ops| > 1 {
      var tail := Join(ops[1..], '+');
      assert Join(ops, '+') == ops[0] + ("+" + tail);
      ConcatFixedOperand(ops[0], "+" + tail);
      assert ("+" + tail)[1..] == tail;
      ConcatFixedJoin(ops[1..]);
    }
  }

  // ---------------------------------------------------------------------
  // regexp_substr, regexp_instr, regexp_count
  // ---------------------------------------------------------------------

  /** The marker of a regular-expression look-behind. */
  const LookBehindMarker := "?<="

  /**
   * The position argument emitted for `regexp_substr`: the captured
   * 1-based position minus one, `0` when no position was captured.
   */
  function PositionArg(pos: Option<string>): (r: string)
    requires pos.Some? ==> IsDigits(pos.value)
    ensures pos.None? || pos.value == [] ==> r == "0"
    ensures pos.Some? && pos.value != [] && DigitsValue(pos.value) >= 1 ==>
      IsDigits(r) && DigitsValue(r) == DigitsValue(pos.value) - 1
    ensures pos.Some? && pos.value != [] && DigitsValue(pos.value) == 0 ==> r == "-1"
    ensures pos.Some? && pos.value != [] && DigitsValue(pos.value) >= 2 ==> r[0] != '0'
    ensures pos.Some? && pos.value != [] && DigitsValue(pos.value) == 1 ==> r == "0"
  {
    var given := if pos.Some? && pos.value != [] then pos.value else "1";
    IntToString(DigitsValue(given) - 1)
  }

  /**
   * `regexp_extract(expr, pattern, pos)`: the 15 characters of
   * `regexp_extract(`, then the three arguments verbatim, each separator
   * `, ` two characters long, and the closing parenthesis.
   */
  function RegexpExtractCall(expr: string, pattern: string, pos: string): (r: string)
    ensures |r| == |expr| + |pattern| + |pos| + 20
    ensures r[..15] == "regexp_extract(" && r[|r| - 1] == ')'
    ensures OccursAt(r, expr, 15)
    ensures OccursAt(r, pattern, |expr| + 17)
    ensures OccursAt(r, pos, |expr| + |pattern| + 19)
    ensures OccursAt(r, ", ", |expr| + 15) && OccursAt(r, ", ", |expr| + |pattern| + 17)
  {
    var head, tail := "regexp_extract(" + expr, pos + ")";
    Layout(head, ", ", pattern, ", ", tail);
    assert head[15..] == expr;
    head + ", " + pattern + ", " + tail
  }

  /** `r` starts by declaring a subquery named `name`. */
  predicate Opens(r: string, name: string) {
    |r| > |"(WITH "| + |name| && r[..|"(WITH "| + |name|] == "(WITH " + name
  }

  /** `r` ends by reading from `name` and closing its parenthesis. */
  predicate Closes(r: string, name: string) {
    |r| > |name| && r[|r| - |name| - 1..] == name + ")"
  }

  /** The middle of a single-use subquery: `inner` is bound to `alias`, and `outer` is selected from it. */
  function ReadBack(alias: string, outer: string): string {
    " as " + alias + ") SELECT " + outer + " FROM "
  }

  /**
   * `(WITH name AS (SELECT inner as alias) SELECT outer FROM name)`, a
   * single-use subquery: it opens by declaring `name` (6 + |name|
   * characters), selects `inner` verbatim after the 12 characters of
   * ` AS (SELECT `, binds it to `alias` and selects `outer` from `name`
   * (the read-back), and closes by reading from `name`.
   */
  function WrappedQuery(name: string, inner: string, alias: string, outer: string): (r: string)
    ensures |r| == 2 * |name| + |inner| + |alias| + |outer| + 38
    ensures Opens(r, name) && Closes(r, name)
    ensures OccursAt(r, " AS (SELECT ", 6 + |name|)
    ensures OccursAt(r, inner, 18 + |name|)
    ensures OccursAt(r, ReadBack(alias, outer), 18 + |name| + |inner|)
  {
    var head, back, tail := "(WITH " + name, ReadBack(alias, outer), name + ")";
    Layout(head, " AS (SELECT ", inner, back, tail);
    assert |head| == 6 + |name| && |back| == |alias| + |outer| + 19;
    head + " AS (SELECT " + inner + back + tail
  }

  /** Where each of five concatenated pieces sits. */
  lemma Layout(a: string, b: string, c: string, d: string, e: string)
    ensures var r := a + b + c + d + e;
      && |r| == |a| + |b| + |c| + |d| + |e|
      && r[..|a|] == a
      && OccursAt(r, b, |a|)
      && OccursAt(r, c, |a| + |b|)
      && OccursAt(r, d, |a| + |b| + |c|)
      && r[|r| - |e|..] == e
  {
    var r := a + b + c + d + e;
    assert r == a + (b + (c + (d + e)));
    assert r[|a|..] == b + (c + (d + e));
    assert r[|a| + |b|..] == c + (d + e);
    assert r[|a| + |b| + |c|..] == d + e;
  }

  /** The three parts of a concatenation are read back by slicing. */
  lemma Framed(a: string, b: string, c: string)
    ensures (a + b + c)[..|a|] == a
    ensures (a + b + c)[|a|..|a| + |b|] == b
    ensures (a + b + c)[|a| + |b|..] == c
  {
  }

  lemma ContainsLonger(s: string, sub: string, more: string)
    ensures Contains(s, sub + more) ==> Contains(s, sub)
  {
    if !Contains(s, sub + more) { return; }
    var i: nat :| i <= |s| && OccursAt(s, sub + more, i);
    assert s[i..i + |sub|] == (sub + more)[..|sub|];
    assert OccursAt(s, sub, i);
  }

  /**
   * The pattern with its look-behind openers removed: every `(?<=\()`
   * becomes `\(`, then every remaining `(?<=` is deleted. A pattern without
   * a look-behind opener is left unchanged.
   */
  function StripLookBehind(pattern: string): (r: string)
    ensures !Contains(pattern, "(?<=") ==> r == pattern
  {
    ContainsLonger(pattern, "(?<=", "\\()");
    assert "(?<=" + "\\()" == "(?<=\\()";
    ReplaceAll(ReplaceAll(pattern, "(?<=\\()", "\\("), "(?<=", "")
  }

  /** No opening parenthesis in `s`. */
  predicate NoParen(s: string) {
    forall k :: 0 <= k < |s| ==> s[k] != '('
  }

  /** A pattern that opens with `(` can only occur where `s` has one. */
  lemma ParenOpened(s: string, pat: string)
    requires |pat| > 0 && pat[0] == '('
    requires forall k :: 0 <= k < |s| && s[k] == '(' ==> !OccursAt(s, pat, k)
    ensures !Contains(s, pat)
  {
  }

  /** With one parenthesis in `s`, at `n`, a parenthesised pattern occurs only there. */
  lemma ParenOnlyAt(s: string, pat: string, n: nat)
    requires |pat| > 0 && pat[0] == '(' && !OccursAt(s, pat, n)
    requires forall k :: 0 <= k < |s| && k != n ==> s[k] != '('
    ensures !Contains(s, pat)
  {
    ParenOpened(s, pat);
  }

  /**
   * A pattern whose only parentheses are those of one `(?<=\()` keeps the
   * escaped parenthesis and loses the look-behind opener.
   */
  lemma StripLookBehindParen(a: string, b: string)
    requires NoParen(a) && NoParen(b) && !(|b| >= 3 && b[..3] == "?<=")
    ensures StripLookBehind(a + "(?<=\\()" + b) == a + "\\(" + b
  {
    ParenOpenerReplaced(a, b);
    EscapedParenKept(a, b);
  }

  lemma ParenOpenerReplaced(a: string, b: string)
    requires NoParen(a) && NoParen(b)
    ensures ReplaceAll(a + "(?<=\\()" + b, "(?<=\\()", "\\(") == a + "\\(" + b
  {
    ReplaceAllSplice(a, "(?<=\\()", "\\(", b);
    ParenOpened(b, "(?<=\\()");
  }

  lemma EscapedParenKept(a: string, b: string)
    requires NoParen(a) && NoParen(b) && !(|b| >= 3 && b[..3] == "?<=")
    ensures ReplaceAll(a + "\\(" + b, "(?<=", "") == a + "\\(" + b
  {
    var t := a + "\\(" + b;
    forall k | 0 <= k < |t| && k != |a| + 1 ensures t[k] != '(' {
      if k < |a| { assert t[k] == a[k]; }
      else if k >= |a| + 2 { assert t[k] == b[k - |a| - 2]; }
    }
    if |b| >= 3 {
      assert t[|a| + 2..|a| + 5] == b[..3];
    }
    assert !OccursAt(t, "(?<=", |a| + 1);
    ParenOnlyAt(t, "(?<=", |a| + 1);
  }

  /** A pattern whose one parenthesis opens a look-behind `(?<=` loses the opener. */
  lemma StripLookBehindPlain(a: string, b: string)
    requires NoParen(a) && NoParen(b)
    ensures StripLookBehind(a + "(?<=" + b) == a + b
  {
    PlainOpenerKept(a, b);
    PlainOpenerDropped(a, b);
  }

  lemma PlainOpenerKept(a: string, b: string)
    requires NoParen(a) && NoParen(b)
    ensures ReplaceAll(a + "(?<=" + b, "(?<=\\()", "\\(") == a + "(?<=" + b
  {
    var s := a + "(?<=" + b;
    forall k | 0 <= k < |s| && k != |a| ensures s[k] != '(' {
      if k < |a| { assert s[k] == a[k]; }
      else if k >= |a| + 4 { assert s[k] == b[k - |a| - 4]; }
    }
    if |a| + 7 <= |s| {
      assert s[|a|..|a| + 7][5] == s[|a| + 5] == b[1];
    }
    ParenOnlyAt(s, "(?<=\\()", |a|);
  }

  lemma PlainOpenerDropped(a: string, b: string)
    requires NoParen(a) && NoParen(b)
    ensures ReplaceAll(a + "(?<=" + b, "(?<=", "") == a + b
  {
    ReplaceAllSplice(a, "(?<=", "", b);
    ParenOpened(b, "(?<=");
    assert a + "" == a;
  }

  /**
   * The look-behind form of `regexp_substr`: the extraction, with the
   * look-behind openers stripped, bound to `match` inside a single-use
   * subquery named `name`, which the outer query selects `match` from.
   */
  function LookBehindQuery(name: string, expr: string, pattern: string, pos: string): (r: string)
    ensures Opens(r, name) && Closes(r, name)
    ensures var inner := RegexpExtractCall(expr, StripLookBehind(pattern), pos);
      && |r| == 2 * |name| + |inner| + 48
      && OccursAt(r, " AS (SELECT ", 6 + |name|)
      && OccursAt(r, inner, 18 + |name|)
      && OccursAt(r, ReadBack("match", "match"), 18 + |name| + |inner|)
    ensures Contains(r, RegexpExtractCall(expr, StripLookBehind(pattern), pos))
  {
    var inner := RegexpExtractCall(expr, StripLookBehind(pattern), pos);
    var r := WrappedQuery(name, inner, "match", "match");
    assert OccursAt(r, inner, 18 + |name|);
    r
  }

  /**
   * The replacement for `regexp_instr(expr, pattern[, pos])`: a single-use
   * subquery named `regexp_match` around the extraction at position 0,
   * read back as the match's length or 0; the captured position is not used.
   */
  function RegexpInstrReplacement(expr: string, pattern: string): (r: string)
    ensures Opens(r, "regexp_match") && Closes(r, "regexp_match")
    ensures var inner := RegexpExtractCall(expr, pattern, "0");
      && |r| == 2 * |"regexp_match"| + |inner| + |"match"| + |InstrReadBack| + 38
      && OccursAt(r, " AS (SELECT ", 18)
      && OccursAt(r, inner, 30)
      && OccursAt(r, ReadBack("match", InstrReadBack), 30 + |inner|)
    ensures Contains(r, RegexpExtractCall(expr, pattern, "0"))
  {
    var inner := RegexpExtractCall(expr, pattern, "0");
    var r := WrappedQuery("regexp_match", inner, "match", InstrReadBack);
    assert OccursAt(r, inner, 30);
    r
  }

  /** The read-back of `regexp_instr`: the length of the match, or 0 when there is none. */
  const InstrReadBack := "CASE WHEN match IS NOT NULL THEN length(match) ELSE 0 END"

  /** Different expressions searched for the same pattern give different `regexp_instr` replacements. */
  lemma RegexpInstrInjective(e1: string, e2: string, pattern: string)
    requires RegexpInstrReplacement(e1, pattern) == RegexpInstrReplacement(e2, pattern)
    ensures e1 == e2
  {
    var i1 := RegexpExtractCall(e1, pattern, "0");
    var i2 := RegexpExtractCall(e2, pattern, "0");
    WrappedInjective("regexp_match", i1, i2, "match", InstrReadBack);
    assert e1 == i1[15..15 + |e1|] == i2[15..15 + |e2|] == e2;
  }

  /**
   * The replacement for `regexp_count(expr, pattern[, pos])`: a single-use
   * subquery named `regexp_matches` around the extraction of all matches,
   * read back as their number; the captured position is not used.
   */
  function RegexpCountReplacement(expr: string, pattern: string): (r: string)
    ensures Opens(r, "regexp_matches") && Closes(r, "regexp_matches")
    ensures var inner := ExtractAllCall(expr, pattern);
      && |r| == 2 * |"regexp_matches"| + |inner| + |"matches"| + |"size(matches)"| + 38
      && OccursAt(r, " AS (SELECT ", 20)
      && OccursAt(r, inner, 32)
      && OccursAt(r, ReadBack("matches", "size(matches)"), 32 + |inner|)
    ensures Contains(r, ExtractAllCall(expr, pattern))
  {
    var inner := ExtractAllCall(expr, pattern);
    var r := WrappedQuery("regexp_matches", inner, "matches", "size(matches)");
    assert OccursAt(r, inner, 32);
    r
  }

  /** `regexp_extract_all(expr, pattern)`: the 19 characters of `regexp_extract_all(`, then the arguments. */
  function ExtractAllCall(expr: string, pattern: string): (r: string)
    ensures |r| == |expr| + |pattern| + 22
    ensures OccursAt(r, "regexp_extract_all(", 0) && OccursAt(r, expr, 19)
    ensures OccursAt(r, ", ", 19 + |expr|) && OccursAt(r, pattern, 21 + |expr|) && r[|r| - 1] == ')'
  {
    Framed("regexp_extract_all(", expr, ", " + pattern + ")");
    Framed("regexp_extract_all(" + expr, ", ", pattern + ")");
    Framed("regexp_extract_all(" + expr + ", ", pattern, ")");
    "regexp_extract_all(" + expr + ", " + pattern + ")"
  }

  /** Different expressions counted for the same pattern give different `regexp_count` replacements. */
  lemma RegexpCountInjective(e1: string, e2: string, pattern: string)
    requires RegexpCountReplacement(e1, pattern) == RegexpCountReplacement(e2, pattern)
    ensures e1 == e2
  {
    var i1 := ExtractAllCall(e1, pattern);
    var i2 := ExtractAllCall(e2, pattern);
    WrappedInjective("regexp_matches", i1, i2, "matches", "size(matches)");
    assert e1 == i1[19..19 + |e1|] == i2[19..19 + |e2|] == e2;
  }

  /** With name, alias and read-back fixed, a single-use subquery determines what it selects. */
  lemma WrappedInjective(name: string, i1: string, i2: string, alias: string, outer: string)
    requires WrappedQuery(name, i1, alias, outer) == WrappedQuery(name, i2, alias, outer)
    ensures i1 == i2
  {
    var r := WrappedQuery(name, i1, alias, outer);
    assert i1 == r[18 + |name|..18 + |name| + |i1|] == i2;
  }
}
