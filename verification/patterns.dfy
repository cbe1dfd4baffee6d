/** The regular expressions server/db/database.js uses to take a statement
    apart, each as a scanner over the statement text together with a
    reference predicate saying what a match of the expression is, and a
    proof that the scanner returns the match the JavaScript engine selects
    (leftmost start; greedy quantifiers longest first, lazy ones shortest
    first).

    Case-insensitive (`i`) matching folds ASCII letters only, which is what
    the engine does for these all-ASCII patterns. */
module Patterns {
  import opened Js

  /** The character classes the expressions use. */
  datatype Class = Space | Word | Dot | NotCloseParen

  predicate InClass(c: char, k: Class) {
    match k
    case Space => IsSpace(c)
    case Word => IsWordChar(c)
    case Dot => !IsLineTerminator(c)
    case NotCloseParen => c != ')'
  }

  /** The end of the longest run of class-`k` characters starting at `i`. */
  function RunEnd(s: string, i: nat, k: Class): (e: nat)
    requires i <= |s|
    ensures i <= e <= |s|
    ensures forall j :: i <= j < e ==> InClass(s[j], k)
    ensures e < |s| ==> !InClass(s[e], k)
    decreases |s| - i
  {
    if i < |s| && InClass(s[i], k) then RunEnd(s, i + 1, k) else i
  }

  /** Every character in `s[i..j]` is of class `k`. */
  predicate AllIn(s: string, i: nat, j: nat, k: Class)
    requires i <= j <= |s|
  {
    forall m :: i <= m < j ==> InClass(s[m], k)
  }

  /** A run of class-`k` characters from `i` can reach exactly the positions
      up to its longest extent. */
  lemma RunReaches(s: string, i: nat, j: nat, k: Class)
    requires i <= j <= |s|
    ensures AllIn(s, i, j, k) <==> j <= RunEnd(s, i, k)
  {
  }

  /** The lower-case ASCII literal `kw` occurs at `i`, ignoring case. */
  predicate KeywordAt(s: string, i: nat, kw: string) {
    i + |kw| <= |s| && forall j :: 0 <= j < |kw| ==> LowerChar(s[i + j]) == kw[j]
  }

  /** A keyword that occurs at `i` fixes the letter there. */
  lemma KeywordFirst(s: string, i: nat, kw: string)
    requires |kw| > 0
    ensures KeywordAt(s, i, kw) ==> i < |s| && LowerChar(s[i]) == kw[0]
  {
    if KeywordAt(s, i, kw) {
      assert LowerChar(s[i + 0]) == kw[0];
    }
  }

  /** `\s`, `\w`, `=` and `?` are pairwise disjoint. */
  lemma ClassesDisjoint(c: char)
    ensures IsSpace(c) ==> !IsWordChar(c) && c != '=' && c != '?'
    ensures IsWordChar(c) ==> c != '=' && c != '?'
  {
  }

  /** The least position in `[i, n)` at which `at` holds. */
  function Leftmost(i: nat, n: nat, at: nat -> bool): (r: Option<nat>)
    ensures r.Some? ==> i <= r.value < n && at(r.value)
    ensures r.Some? ==> forall j :: i <= j < r.value ==> !at(j)
    ensures r.None? ==> forall j :: i <= j < n ==> !at(j)
    decreases n - i
  {
    if i >= n then None
    else if at(i) then Some(i)
    else Leftmost(i + 1, n, at)
  }

  // =====================================================================
  // /(?:from|into|update|table)\s+(\w+)/i

  /** After the keyword ending at `i`: one or more spaces, then the word
      `s[a..b]`, which the greedy `\w+` takes as long as it goes. */
  predicate SpacedWord(s: string, i: nat, a: nat, b: nat) {
    i < a < b <= |s|
    && (forall m :: i <= m < a ==> IsSpace(s[m]))
    && (forall m :: a <= m < b ==> IsWordChar(s[m]))
    && (b == |s| || !IsWordChar(s[b]))
  }

  /** The table expression matches at `p` with capture `s[a..b]`. */
  predicate TableMatch(s: string, p: nat, a: nat, b: nat) {
    || (KeywordAt(s, p, "from") && SpacedWord(s, p + 4, a, b))
    || (KeywordAt(s, p, "into") && SpacedWord(s, p + 4, a, b))
    || (KeywordAt(s, p, "update") && SpacedWord(s, p + 6, a, b))
    || (KeywordAt(s, p, "table") && SpacedWord(s, p + 5, a, b))
  }

  /** The length of the alternative of `(?:from|into|update|table)` that
      matches at `p`, or 0. The four start with different letters, so at
      most one can match. */
  function TableKeyword(s: string, p: nat): (k: nat)
    ensures k == 0 || k == 4 || k == 5 || k == 6
    ensures k > 0 ==> p + k <= |s|
  {
    if KeywordAt(s, p, "from") then 4
    else if KeywordAt(s, p, "into") then 4
    else if KeywordAt(s, p, "update") then 6
    else if KeywordAt(s, p, "table") then 5
    else 0
  }

  /** The capture of the table expression when it matches at `p`. */
  function TableCaptureAt(s: string, p: nat): (r: Option<(nat, nat)>)
    ensures r.Some? ==> TableMatch(s, p, r.value.0, r.value.1)
  {
    var k := TableKeyword(s, p);
    if k == 0 then
      None
    else
      var a := RunEnd(s, p + k, Space);
      if a == p + k || a == |s| || !IsWordChar(s[a]) then
        None
      else
        Some((a, RunEnd(s, a, Word)))
  }

  /** Every match of the table expression at `p` is the one the scanner
      reports: the keyword is determined by its first letter, and both
      runs are taken whole. */
  lemma TableCaptureAtComplete(s: string, p: nat, a: nat, b: nat)
    requires TableMatch(s, p, a, b)
    ensures TableCaptureAt(s, p) == Some((a, b))
  {
    KeywordFirst(s, p, "from");
    KeywordFirst(s, p, "into");
    KeywordFirst(s, p, "update");
    KeywordFirst(s, p, "table");
    var k := TableKeyword(s, p);
    assert SpacedWord(s, p + k, a, b);
    ClassesDisjoint(s[a]);
    RunReaches(s, p + k, a, Space);
    RunReaches(s, a, b, Word);
  }

  /** The match `sql.match(/(?:from|into|update|table)\s+(\w+)/i)` finds:
      the leftmost one, as `(p, a, b)` with capture `s[a..b]`. */
  function TableScan(s: string): (r: Option<(nat, nat, nat)>)
    ensures r.Some? ==> TableMatch(s, r.value.0, r.value.1, r.value.2)
    ensures r.Some? ==> forall p: nat, a: nat, b: nat :: p < r.value.0 ==> !TableMatch(s, p, a, b)
    ensures r.None? ==> forall p: nat, a: nat, b: nat :: !TableMatch(s, p, a, b)
  {
    var at := (p: nat) => TableCaptureAt(s, p).Some?;
    forall p: nat, a: nat, b: nat | TableMatch(s, p, a, b)
      ensures p < |s| + 1 && at(p)
    {
      TableCaptureAtComplete(s, p, a, b);
    }
    match Leftmost(0, |s| + 1, at)
    case None => None
    case Some(p) =>
      var (a, b) := TableCaptureAt(s, p).value;
      Some((p, a, b))
  }

  /** `getTableName(sql)`: the word after the first `from`, `into`,
      `update` or `table` (any case, not necessarily at a word start)
      that is followed by white space and a word. */
  function TableName(sql: string): (r: Option<string>)
    ensures r.Some? ==> |r.value| > 0 && forall i :: 0 <= i < |r.value| ==> IsWordChar(r.value[i])
    ensures r.None? <==> forall p: nat, a: nat, b: nat :: !TableMatch(sql, p, a, b)
  {
    match TableScan(sql)
    case None => None
    case Some((p, a, b)) => Some(sql[a..b])
  }

  // =====================================================================
  // /KW\s+(.+?)TAIL/i — the shape shared by the where expression of the
  // count branch and the set expression of the update branch.

  /** One way for `KW\s+(.+?)TAIL` to match: keyword at `p`, white space up
      to `q`, the capture `s[q..e]` free of line terminators, and the tail
      matching at `e`. */
  ghost predicate LazyMatch(s: string, kw: string, tail: nat -> bool, p: nat, q: nat, e: nat) {
    && KeywordAt(s, p, kw)
    && p + |kw| < q < e <= |s|
    && (forall m :: p + |kw| <= m < q ==> IsSpace(s[m]))
    && (forall m :: q <= m < e ==> !IsLineTerminator(s[m]))
    && tail(e)
  }

  /** The greedy `\s+` ending at `q` and backtracking one character at a
      time down to `lo`, each time followed by the lazy `(.+?)`, which
      tries the shortest capture first. */
  function Backtrack(s: string, lo: nat, q: nat, tail: nat -> bool): (r: Option<(nat, nat)>)
    requires 0 < lo <= q <= |s|
    ensures r.Some? ==> lo <= r.value.0 <= q && r.value.0 < r.value.1 <= RunEnd(s, r.value.0, Dot)
    ensures r.Some? ==> tail(r.value.1)
    ensures r.Some? ==> forall e: nat :: r.value.0 < e < r.value.1 ==> !tail(e)
    ensures r.Some? ==> forall q': nat, e: nat :: r.value.0 < q' <= q && q' < e <= RunEnd(s, q', Dot) ==> !tail(e)
    ensures r.None? ==> forall q': nat, e: nat :: lo <= q' <= q && q' < e <= RunEnd(s, q', Dot) ==> !tail(e)
    decreases q
  {
    var stop := RunEnd(s, q, Dot);
    match Leftmost(q + 1, stop + 1, tail)
    case Some(e) => Some((q, e))
    case None =>
      if q == lo then None else Backtrack(s, lo, q - 1, tail)
  }

  /** The capture of `KW\s+(.+?)TAIL` when the expression matches at `p`. */
  function LazyCaptureAt(s: string, p: nat, kw: string, tail: nat -> bool): (r: Option<(nat, nat)>)
  {
    if !KeywordAt(s, p, kw) then None
    else
      var w := RunEnd(s, p + |kw|, Space);
      if w == p + |kw| then None else Backtrack(s, p + |kw| + 1, w, tail)
  }

  /** The capture at `p` is the match the backtracking order picks first:
      the longest white-space run, then the shortest capture. */
  lemma LazyCaptureAtSpec(s: string, p: nat, kw: string, tail: nat -> bool)
    ensures var r := LazyCaptureAt(s, p, kw, tail);
      && (r.Some? ==> LazyMatch(s, kw, tail, p, r.value.0, r.value.1))
      && (r.Some? ==> forall q: nat, e: nat :: LazyMatch(s, kw, tail, p, q, e) ==>
                        q <= r.value.0 && (q == r.value.0 ==> r.value.1 <= e))
      && (r.None? ==> forall q: nat, e: nat :: !LazyMatch(s, kw, tail, p, q, e))
  {
    var r := LazyCaptureAt(s, p, kw, tail);
    if KeywordAt(s, p, kw) {
      var i := p + |kw|;
      var w := RunEnd(s, i, Space);
      forall q: nat, e: nat | LazyMatch(s, kw, tail, p, q, e)
        ensures r.Some? && q <= r.value.0 && (q == r.value.0 ==> r.value.1 <= e)
      {
        RunReaches(s, i, q, Space);
        RunReaches(s, q, e, Dot);
        assert AllIn(s, q, e, Dot);
      }
      if r.Some? {
        var (q, e) := r.value;
        RunReaches(s, i, q, Space);
        RunReaches(s, q, e, Dot);
        assert AllIn(s, i, q, Space);
      }
    }
  }

  /** The match `sql.match(/KW\s+(.+?)TAIL/i)` finds, as `(p, q, e)` with
      capture `s[q..e]`: least `p`, then greatest `q`, then least `e`. */
  function LazyScan(s: string, kw: string, tail: nat -> bool): (r: Option<(nat, nat, nat)>)
    ensures r.Some? ==> LazyMatch(s, kw, tail, r.value.0, r.value.1, r.value.2)
    ensures r.Some? ==> forall p: nat, q: nat, e: nat :: LazyMatch(s, kw, tail, p, q, e) ==>
      && r.value.0 <= p
      && (p == r.value.0 ==> q <= r.value.1)
      && (p == r.value.0 && q == r.value.1 ==> r.value.2 <= e)
    ensures r.None? ==> forall p: nat, q: nat, e: nat :: !LazyMatch(s, kw, tail, p, q, e)
  {
    var at := (p: nat) => LazyCaptureAt(s, p, kw, tail).Some?;
    forall p: nat, q: nat, e: nat | LazyMatch(s, kw, tail, p, q, e)
      ensures p < |s| + 1 && at(p)
    {
      LazyCaptureAtSpec(s, p, kw, tail);
    }
    match Leftmost(0, |s| + 1, at)
    case None => None
    case Some(p) =>
      LazyCaptureAtSpec(s, p, kw, tail);
      var (q, e) := LazyCaptureAt(s, p, kw, tail).value;
      Some((p, q, e))
  }

  /** `(?:order|limit|$)` at `e`, where `$` is the end of the input (no `m`
      flag). */
  predicate WhereTail(s: string, e: nat) {
    e == |s| || KeywordAt(s, e, "order") || KeywordAt(s, e, "limit")
  }

  /** `\s+where` at `e`. A space cannot be the `w` of `where`, so the
      greedy `\s+` has to take the whole run. */
  predicate SetTail(s: string, e: nat) {
    e < |s| && IsSpace(s[e]) && KeywordAt(s, RunEnd(s, e, Space), "where")
  }

  function WhereTails(s: string): nat -> bool {
    (e: nat) => WhereTail(s, e)
  }

  function SetTails(s: string): nat -> bool {
    (e: nat) => SetTail(s, e)
  }

  /** `/where\s+(.+?)(?:order|limit|$)/i` matches with capture `s[q..e]`. */
  ghost predicate WhereMatch(s: string, p: nat, q: nat, e: nat) {
    LazyMatch(s, "where", WhereTails(s), p, q, e)
  }

  /** `/set\s+(.+?)\s+where/i` matches with capture `s[q..e]`. */
  ghost predicate SetMatch(s: string, p: nat, q: nat, e: nat) {
    LazyMatch(s, "set", SetTails(s), p, q, e)
  }

  /** The capture of `sql.match(/where\s+(.+?)(?:order|limit|$)/i)`. */
  function WhereClause(sql: string): (r: Option<string>)
    ensures r.Some? ==> exists p: nat, q: nat, e: nat :: WhereMatch(sql, p, q, e) && r.value == sql[q..e]
    ensures r.None? <==> forall p: nat, q: nat, e: nat :: !WhereMatch(sql, p, q, e)
  {
    match LazyScan(sql, "where", WhereTails(sql))
    case None => None
    case Some((p, q, e)) =>
      assert WhereMatch(sql, p, q, e);
      Some(sql[q..e])
  }

  /** The capture of `sql.match(/set\s+(.+?)\s+where/i)`. */
  function SetClause(sql: string): (r: Option<string>)
    ensures r.Some? ==> exists p: nat, q: nat, e: nat :: SetMatch(sql, p, q, e) && r.value == sql[q..e]
    ensures r.None? <==> forall p: nat, q: nat, e: nat :: !SetMatch(sql, p, q, e)
  {
    match LazyScan(sql, "set", SetTails(sql))
    case None => None
    case Some((p, q, e)) =>
      assert SetMatch(sql, p, q, e);
      Some(sql[q..e])
  }

  // =====================================================================
  // /where\s+(\w+)\s*=\s*\?/ on the lower-cased text (no `i` flag)

  /** One way for the column expression to match at `p`: `where`, white
      space up to `a`, the column `s[a..b]`, optional white space up to `c`,
      `=` at `c`, optional white space up to `d`, `?` at `d`. */
  predicate EqMatch(s: string, p: nat, a: nat, b: nat, c: nat, d: nat) {
    && OccursAt(s, "where", p)
    && p + 5 < a < b <= c < d < |s|
    && (forall m :: p + 5 <= m < a ==> IsSpace(s[m]))
    && (forall m :: a <= m < b ==> IsWordChar(s[m]))
    && (forall m :: b <= m < c ==> IsSpace(s[m]))
    && s[c] == '='
    && (forall m :: c + 1 <= m < d ==> IsSpace(s[m]))
    && s[d] == '?'
  }

  /** The column expression at `p`, as `(a, b, c, d)`. No backtracking can
      help: `\s`, `\w`, `=` and `?` are pairwise disjoint, so each greedy
      run must be taken whole. */
  function EqCaptureAt(s: string, p: nat): (r: Option<(nat, nat, nat, nat)>)
    ensures r.Some? ==> EqMatch(s, p, r.value.0, r.value.1, r.value.2, r.value.3)
  {
    if !OccursAt(s, "where", p) then None
    else
      var a := RunEnd(s, p + 5, Space);
      if a == p + 5 then None
      else
        var b := RunEnd(s, a, Word);
        if b == a then None
        else
          var c := RunEnd(s, b, Space);
          if c == |s| || s[c] != '=' then None
          else
            var d := RunEnd(s, c + 1, Space);
            if d == |s| || s[d] != '?' then None
            else Some((a, b, c, d))
  }

  /** Every match of the column expression at `p` is the one the scanner
      reports. */
  lemma EqCaptureAtComplete(s: string, p: nat, a: nat, b: nat, c: nat, d: nat)
    requires EqMatch(s, p, a, b, c, d)
    ensures EqCaptureAt(s, p) == Some((a, b, c, d))
  {
    ClassesDisjoint(s[a]);
    RunReaches(s, p + 5, a, Space);
    assert RunEnd(s, p + 5, Space) == a;
    ClassesDisjoint(s[c]);
    if b < c { ClassesDisjoint(s[b]); }
    RunReaches(s, a, b, Word);
    assert RunEnd(s, a, Word) == b;
    RunReaches(s, b, c, Space);
    assert RunEnd(s, b, Space) == c;
    ClassesDisjoint(s[d]);
    RunReaches(s, c + 1, d, Space);
  }

  /** The capture of `sqlLower.match(/where\s+(\w+)\s*=\s*\?/)` for
      `sqlLower` already lower-cased: the leftmost match's column. */
  function EqColumn(lower: string): (r: Option<string>)
    ensures r.Some? ==> |r.value| > 0 && forall i :: 0 <= i < |r.value| ==> IsWordChar(r.value[i])
    ensures r.Some? ==> exists p: nat, a: nat, b: nat, c: nat, d: nat :: EqMatch(lower, p, a, b, c, d) && r.value == lower[a..b]
    ensures r.None? <==> forall p: nat, a: nat, b: nat, c: nat, d: nat :: !EqMatch(lower, p, a, b, c, d)
  {
    var at := (p: nat) => EqCaptureAt(lower, p).Some?;
    forall p: nat, a: nat, b: nat, c: nat, d: nat | EqMatch(lower, p, a, b, c, d)
      ensures p < |lower| + 1 && at(p)
    {
      EqCaptureAtComplete(lower, p, a, b, c, d);
    }
    match Leftmost(0, |lower| + 1, at)
    case None => None
    case Some(p) =>
      var (a, b, c, d) := EqCaptureAt(lower, p).value;
      Some(lower[a..b])
  }

  // =====================================================================
  // /\(([^)]+)\)/

  /** The parenthesis expression matches at `p` with capture `s[p+1..e]`. */
  predicate ParenMatch(s: string, p: nat, e: nat) {
    p + 1 < e < |s| && s[p] == '(' && s[e] == ')'
    && forall m :: p + 1 <= m < e ==> s[m] != ')'
  }

  function ParenCaptureAt(s: string, p: nat): (r: Option<nat>)
    ensures r.Some? ==> ParenMatch(s, p, r.value)
  {
    if p >= |s| || s[p] != '(' then None
    else
      var e := RunEnd(s, p + 1, NotCloseParen);
      if e == p + 1 || e == |s| then None
      else Some(e)
  }

  lemma ParenCaptureAtComplete(s: string, p: nat, e: nat)
    requires ParenMatch(s, p, e)
    ensures ParenCaptureAt(s, p) == Some(e)
  {
    RunReaches(s, p + 1, e, NotCloseParen);
  }

  /** The capture of `sql.match(/\(([^)]+)\)/)`: the text inside the first
      pair of parentheses that encloses at least one character. */
  function ParenGroup(sql: string): (r: Option<string>)
    ensures r.Some? ==> |r.value| > 0 && ')' !in r.value
    ensures r.None? <==> forall p: nat, e: nat :: !ParenMatch(sql, p, e)
  {
    var at := (p: nat) => ParenCaptureAt(sql, p).Some?;
    forall p: nat, e: nat | ParenMatch(sql, p, e)
      ensures p < |sql| + 1 && at(p)
    {
      ParenCaptureAtComplete(sql, p, e);
    }
    match Leftmost(0, |sql| + 1, at)
    case None => None
    case Some(p) =>
      var e := ParenCaptureAt(sql, p).value;
      Some(sql[p + 1..e])
  }
}
