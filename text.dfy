/**
 * Character and string helpers shared by the translator model: decimal
 * rendering and parsing of integers (Python's `str(int)` and `int(str)`),
 * substring search and replacement (`in`, `str.replace`), whitespace
 * stripping (`str.strip()`) and joining a list of string parts.
 */
module Text {

  datatype Option<T> = None | Some(value: T)

  // ---------------------------------------------------------------------
  // Decimal digits
  // ---------------------------------------------------------------------

  predicate IsDigit(c: char) {
    '0' <= c <= '9'
  }

  predicate IsDigits(s: string) {
    forall i :: 0 <= i < |s| ==> IsDigit(s[i])
  }

  function DigitValue(c: char): (d: nat)
    requires IsDigit(c)
    ensures d < 10
  {
    (c as int) - ('0' as int)
  }

  function DigitChar(d: nat): (c: char)
    requires d < 10
    ensures IsDigit(c) && DigitValue(c) == d
  {
    (('0' as int) + d) as char
  }

  /** The value of a string of decimal digits, most significant first. */
  function DigitsValue(s: string): nat
    requires IsDigits(s)
  {
    if s == [] then 0 else DigitsValue(s[..|s| - 1]) * 10 + DigitValue(s[|s| - 1])
  }

  /**
   * Python's `str(n)` for a non-negative integer: the shortest decimal
   * rendering, which parses back to `n` and has no leading zero.
   */
  function NatToString(n: nat): (s: string)
    ensures |s| >= 1 && IsDigits(s)
    ensures DigitsValue(s) == n
    ensures s[0] == '0' ==> n == 0
    ensures n >= 10 ==> |s| >= 2
    ensures n < 10 ==> |s| == 1
    ensures n == 0 ==> s == "0"
  {
    if n < 10 then [DigitChar(n)]
    else
      var s := NatToString(n / 10) + [DigitChar(n % 10)];
      assert s[..|s| - 1] == NatToString(n / 10);
      s
  }

  /** Python's `str(i)` for any integer: a minus sign, then the digits of `|i|`. */
  function IntToString(i: int): (s: string)
    ensures |s| >= 1
    ensures i >= 0 ==> IsDigits(s) && DigitsValue(s) == i
    ensures i < 0 ==> s[0] == '-' && IsDigits(s[1..]) && DigitsValue(s[1..]) == -i
    ensures i >= 0 && s[0] == '0' ==> i == 0
    ensures i < 0 ==> |s| >= 2 && s[1] != '0'
    ensures i == 0 ==> s == "0"
  {
    if i < 0 then "-" + NatToString(-i) else NatToString(i)
  }

  // ---------------------------------------------------------------------
  // Searching and replacing
  // ---------------------------------------------------------------------

  /** `sub` occurs in `s` starting at index `i`. */
  predicate OccursAt(s: string, sub: string, i: nat) {
    i + |sub| <= |s| && s[i..i + |sub|] == sub
  }

  /** Python's `sub in s`: the empty string occurs in every string, a longer one in none. */
  predicate Contains(s: string, sub: string)
    ensures sub == [] ==> Contains(s, sub)
    ensures Contains(s, sub) ==> |sub| <= |s|
  {
    assert sub == [] ==> OccursAt(s, sub, 0);
    exists i: nat | i <= |s| :: OccursAt(s, sub, i)
  }

  lemma NotContainsTail(s: string, sub: string)
    requires s != []
    ensures !Contains(s, sub) ==> !Contains(s[1..], sub)
  {
    if Contains(s[1..], sub) {
      var i: nat :| i <= |s[1..]| && OccursAt(s[1..], sub, i);
      assert OccursAt(s, sub, i + 1);
    }
  }

  /**
   * Python's `s.replace(pat, rep)`: every non-overlapping occurrence of
   * `pat`, scanning left to right, is replaced by `rep`.
   */
  function ReplaceAll(s: string, pat: string, rep: string): (r: string)
    requires |pat| > 0
    ensures !Contains(s, pat) ==> r == s
    decreases |s|
  {
    if |s| < |pat| then s
    else if s[..|pat|] == pat then
      assert OccursAt(s, pat, 0);
      rep + ReplaceAll(s[|pat|..], pat, rep)
    else
      NotContainsTail(s, pat);
      [s[0]] + ReplaceAll(s[1..], pat, rep)
  }

  /**
   * Where `pat` first occurs, at `i`, the text before it is kept, the
   * occurrence becomes `rep`, and the replacement carries on after it.
   */
  lemma {:induction false} ReplaceAllFirst(s: string, pat: string, rep: string, i: nat)
    requires |pat| > 0 && OccursAt(s, pat, i)
    requires forall k: nat :: k < i ==> !OccursAt(s, pat, k)
    ensures ReplaceAll(s, pat, rep) == s[..i] + rep + ReplaceAll(s[i + |pat|..], pat, rep)
    decreases i
  {
    if i == 0 {
      ReplaceAllHit(s, pat, rep);
      assert s[..0] == [];
    } else {
      ReplaceAllSkip(s, pat, rep);
      var t := s[1..];
      OccursShift(s, pat, i - 1);
      forall k: nat | k < i - 1 ensures !OccursAt(t, pat, k) {
        OccursShift(s, pat, k);
      }
      ReplaceAllFirst(t, pat, rep, i - 1);
      TailSuffix(s, i + |pat|);
      ConsPrefix(s, i, rep, ReplaceAll(s[i + |pat|..], pat, rep));
    }
  }

  /**
   * Text free of the first character of `pat`, then `pat`: the text is kept,
   * `pat` becomes `rep`, and the replacement carries on after it.
   */
  lemma ReplaceAllSplice(x: string, pat: string, rep: string, y: string)
    requires |pat| > 0 && forall k :: 0 <= k < |x| ==> x[k] != pat[0]
    ensures ReplaceAll(x + pat + y, pat, rep) == x + rep + ReplaceAll(y, pat, rep)
  {
    var s := x + pat + y;
    assert s[..|x|] == x && s[|x|..|x| + |pat|] == pat && s[|x| + |pat|..] == y;
    forall k: nat | k < |x| ensures !OccursAt(s, pat, k) {
      assert s[k] == x[k];
    }
    ReplaceAllFirst(s, pat, rep, |x|);
  }

  /** Putting a skipped first character back in front of the tail's prefix. */
  lemma ConsPrefix(s: string, i: nat, rep: string, rest: string)
    requires 0 < i <= |s|
    ensures [s[0]] + (s[1..][..i - 1] + rep + rest) == s[..i] + rep + rest
  {
    assert s[..i] == [s[0]] + s[1..][..i - 1];
  }

  /** A suffix of the tail is a suffix of the whole. */
  lemma TailSuffix(s: string, k: nat)
    requires 0 < k <= |s|
    ensures s[1..][k - 1..] == s[k..]
  {
  }

  lemma ReplaceAllHit(s: string, pat: string, rep: string)
    requires |pat| > 0 && OccursAt(s, pat, 0)
    ensures ReplaceAll(s, pat, rep) == rep + ReplaceAll(s[|pat|..], pat, rep)
  {
  }

  lemma ReplaceAllSkip(s: string, pat: string, rep: string)
    requires |pat| > 0 && |pat| <= |s| && !OccursAt(s, pat, 0)
    ensures ReplaceAll(s, pat, rep) == [s[0]] + ReplaceAll(s[1..], pat, rep)
  {
  }

  /** An occurrence in the tail is an occurrence one place further on in the whole. */
  lemma OccursShift(s: string, pat: string, k: nat)
    requires |s| > 0
    ensures OccursAt(s[1..], pat, k) <==> OccursAt(s, pat, k + 1)
  {
    if k + 1 + |pat| <= |s| {
      assert s[1..][k..k + |pat|] == s[k + 1..k + 1 + |pat|];
    }
  }

  // ---------------------------------------------------------------------
  // Whitespace
  // ---------------------------------------------------------------------

  /**
   * Python's `str.isspace()` on one character, restricted to the ASCII
   * range: tab, line feed, vertical tab, form feed, carriage return, the
   * four information separators and the space.
   */
  predicate IsSpace(c: char) {
    c == ' ' || (9 <= c as int <= 13) || (28 <= c as int <= 31)
  }

  /** Every character of `s` from index `lo` up to (not including) `hi` is whitespace. */
  predicate SpaceBetween(s: string, lo: int, hi: int) {
    forall k :: lo <= k < hi && 0 <= k < |s| ==> IsSpace(s[k])
  }

  /** Every character of `s` is whitespace. */
  predicate AllSpace(s: string) {
    SpaceBetween(s, 0, |s|)
  }

  /** The number of whitespace characters `s.lstrip()` drops from the front of `s`. */
  function LeadingSpace(s: string): (n: nat)
    ensures n <= |s| && SpaceBetween(s, 0, n) && (n == |s| || !IsSpace(s[n]))
    decreases |s|
  {
    if s != [] && IsSpace(s[0]) then
      var m := LeadingSpace(s[1..]);
      ShiftSpace(s, 1, 0, m);
      m + 1
    else
      0
  }

  /** The number of whitespace characters `s.rstrip()` drops from the end of `s`. */
  function TrailingSpace(s: string): (n: nat)
    ensures n <= |s| && SpaceBetween(s, |s| - n, |s|) && (n == |s| || !IsSpace(s[|s| - n - 1]))
    decreases |s|
  {
    if s != [] && IsSpace(s[|s| - 1]) then
      var m := TrailingSpace(s[..|s| - 1]);
      PrefixSpace(s, |s| - 1, |s| - 1 - m);
      m + 1
    else
      0
  }

  /** Whitespace found in the suffix `s[i..]` is whitespace of `s`, `i` places further on. */
  lemma ShiftSpace(s: string, i: nat, lo: int, hi: int)
    requires i <= |s| && 0 <= lo && SpaceBetween(s[i..], lo, hi)
    ensures SpaceBetween(s, lo + i, hi + i)
  {
    forall k | lo + i <= k < hi + i && 0 <= k < |s| ensures IsSpace(s[k]) {
      assert s[k] == s[i..][k - i];
    }
  }

  /** Whitespace found in the prefix `s[..n]` is whitespace of `s`. */
  lemma PrefixSpace(s: string, n: nat, lo: int)
    requires n <= |s| && SpaceBetween(s[..n], lo, n)
    ensures SpaceBetween(s, lo, n)
  {
    forall k | lo <= k < n && 0 <= k < |s| ensures IsSpace(s[k]) {
      assert s[k] == s[..n][k];
    }
  }

  /**
   * Python's `s.strip()`: drops the whitespace on both sides; the result
   * neither starts nor ends with whitespace, and is empty exactly when `s`
   * is all whitespace.
   */
  function Strip(s: string): (r: string)
    ensures r == [] || (!IsSpace(r[0]) && !IsSpace(r[|r| - 1]))
    ensures AllSpace(s) <==> r == []
  {
    var i := LeadingSpace(s);
    var j := TrailingSpace(s[i..]);
    ShiftSpace(s, i, |s| - i - j, |s| - i);
    assert j == |s| - i || s[i..][|s| - i - j - 1] == s[|s| - j - 1];
    StripWindow(s, i, |s| - j);
    s[i..|s| - j]
  }

  /** What `Strip` keeps is a stretch of `s` with only whitespace before and after it. */
  lemma StripSpec(s: string)
    ensures var r := Strip(s);
      exists i :: 0 <= i <= |s| - |r| && r == s[i..i + |r|] && SpaceBetween(s, 0, i) && SpaceBetween(s, i + |r|, |s|)
  {
    var i := LeadingSpace(s);
    var j := TrailingSpace(s[i..]);
    ShiftSpace(s, i, |s| - i - j, |s| - i);
    assert Strip(s) == s[i..|s| - j];
  }

  /** The stretch between leading whitespace up to `i` and trailing whitespace from `j`. */
  lemma StripWindow(s: string, i: nat, j: nat)
    requires i <= j <= |s| && SpaceBetween(s, 0, i) && SpaceBetween(s, j, |s|)
    requires i == |s| || !IsSpace(s[i])
    requires j == i || !IsSpace(s[j - 1])
    ensures var r := s[i..j];
      && (r == [] || (!IsSpace(r[0]) && !IsSpace(r[|r| - 1])))
      && (AllSpace(s) <==> r == [])
  {
    if i < j {
      assert s[i..j][0] == s[i] && s[i..j][j - i - 1] == s[j - 1];
    }
  }

  // ---------------------------------------------------------------------
  // Joining parts
  // ---------------------------------------------------------------------

  /** Python's `''.join(parts)`. */
  function Flatten(parts: seq<string>): string {
    if parts == [] then "" else Flatten(parts[..|parts| - 1]) + parts[|parts| - 1]
  }

  /** Joining two lists of parts is joining each and concatenating the results. */
  lemma {:induction false} FlattenConcat(a: seq<string>, b: seq<string>)
    ensures Flatten(a + b) == Flatten(a) + Flatten(b)
    decreases |b|
  {
    if b != [] {
      var b' := b[..|b| - 1];
      assert (a + b)[..|a + b| - 1] == a + b';
      FlattenConcat(a, b');
    } else {
      assert a + b == a;
    }
  }

  /**
   * Each part appears verbatim in the joined text, right after the parts
   * before it: the join adds, drops and reorders nothing.
   */
  lemma FlattenAt(parts: seq<string>, i: nat)
    requires i < |parts|
    ensures |Flatten(parts)| == |Flatten(parts[..i])| + |parts[i]| + |Flatten(parts[i + 1..])|
    ensures OccursAt(Flatten(parts), parts[i], |Flatten(parts[..i])|)
  {
    assert parts == parts[..i] + ([parts[i]] + parts[i + 1..]);
    FlattenConcat(parts[..i], [parts[i]] + parts[i + 1..]);
    FlattenConcat([parts[i]], parts[i + 1..]);
    assert Flatten([parts[i]]) == Flatten([]) + parts[i];
    var pre := Flatten(parts[..i]);
    assert Flatten(parts) == pre + parts[i] + Flatten(parts[i + 1..]);
    assert Flatten(parts)[|pre|..|pre| + |parts[i]|] == parts[i];
  }
}
