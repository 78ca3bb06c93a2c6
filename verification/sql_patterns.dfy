/** The two regular expressions of `QueryTool.rewrite_sql`
    (llm4crs/query/query_tool.py lines 129 and 143-144), written as
    scanners. Both patterns match deterministically: every repetition in
    them is followed by a character its class excludes, so backtracking can
    never produce a different match, and a scanner that takes the longest run
    of each class decides exactly what the regular expression engine decides. */
module SqlPatterns {
  import opened Outcomes

  /** `\w`, restricted to ASCII; also the class `[a-zA-Z0-9_]` of the LIKE pattern. */
  predicate IsWordChar(c: char)
  {
    ('a' <= c <= 'z') || ('A' <= c <= 'Z') || ('0' <= c <= '9') || c == '_'
  }

  /** `\s` on a Python `str`: the code points for which `str.isspace()` holds. */
  predicate IsSpace(c: char)
  {
    var n := c as int;
    || (9 <= n <= 13) || (28 <= n <= 32) || n == 0x85 || n == 0xA0 || n == 0x1680
    || (0x2000 <= n <= 0x200A) || n == 0x2028 || n == 0x2029 || n == 0x202F
    || n == 0x205F || n == 0x3000
  }

  /** The character classes the two patterns repeat: `\w` (and
      `[a-zA-Z0-9_]`), `\s`, and `[^%]`. */
  datatype CharClass = WordClass | SpaceClass | ValueClass

  predicate InClass(cls: CharClass, c: char)
  {
    match cls
    case WordClass => IsWordChar(c)
    case SpaceClass => IsSpace(c)
    case ValueClass => c != '%'
  }

  /** Every character of `s` from `lo` up to `hi` is of class `cls`. */
  predicate AllIn(s: string, lo: int, hi: int, cls: CharClass)
    requires 0 <= lo <= hi <= |s|
  {
    forall i | lo <= i < hi :: InClass(cls, s[i])
  }

  /** Every character of `t` is of class `cls`. */
  predicate AllOf(t: string, cls: CharClass)
  {
    forall k | 0 <= k < |t| :: InClass(cls, t[k])
  }

  lemma AllInSlice(s: string, lo: int, hi: int, cls: CharClass)
    requires 0 <= lo <= hi <= |s|
    ensures AllIn(s, lo, hi, cls) <==> AllOf(s[lo..hi], cls)
  {
    forall k | 0 <= k < hi - lo ensures s[lo..hi][k] == s[lo + k] { }
  }

  lemma WordCharIsNoSpace(c: char)
    requires IsWordChar(c)
    ensures !IsSpace(c)
  {
  }

  // ---------------------------------------------------------------------------
  // Literal text and keywords

  /** `lit` occurs at position `i` of `s`, exactly. */
  predicate LiteralAt(s: string, i: nat, lit: string)
  {
    i + |lit| <= |s| && forall k | 0 <= k < |lit| :: s[i + k] == lit[k]
  }

  /** An occurrence is the slice of `s` at that position. */
  lemma LiteralSlice(s: string, i: nat, lit: string)
    requires i + |lit| <= |s|
    ensures LiteralAt(s, i, lit) <==> s[i..i + |lit|] == lit
  {
    if s[i..i + |lit|] == lit {
      forall k | 0 <= k < |lit| ensures s[i + k] == lit[k] {
        assert s[i..i + |lit|][k] == s[i + k];
      }
    }
  }

  lemma LiteralSplit(s: string, i: nat, a: string, b: string)
    requires LiteralAt(s, i, a + b)
    ensures LiteralAt(s, i, a) && LiteralAt(s, i + |a|, b)
  {
    forall k | 0 <= k < |a| ensures s[i + k] == a[k] {
      assert (a + b)[k] == a[k];
    }
    forall k | 0 <= k < |b| ensures s[i + |a| + k] == b[k] {
      assert (a + b)[|a| + k] == b[k];
    }
  }

  lemma LiteralJoin(s: string, i: nat, a: string, b: string)
    requires LiteralAt(s, i, a) && LiteralAt(s, i + |a|, b)
    ensures LiteralAt(s, i, a + b)
  {
    forall k | 0 <= k < |a + b| ensures s[i + k] == (a + b)[k] {
      if k >= |a| {
        assert s[i + |a| + (k - |a|)] == b[k - |a|];
      }
    }
  }

  /** The characters of an occurrence of `lit` are of a class when those of `lit` are. */
  lemma LiteralInClass(s: string, i: nat, lit: string, cls: CharClass)
    requires LiteralAt(s, i, lit) && AllOf(lit, cls)
    ensures AllIn(s, i, i + |lit|, cls)
  {
    forall j | i <= j < i + |lit| ensures InClass(cls, s[j]) {
      assert s[i + (j - i)] == lit[j - i];
    }
  }

  /** `FROM` starts at position `i`, in any case. No letter of FROM or WHERE
      has a case variant outside ASCII, so matching either case of each
      letter is what case-insensitive matching does here. */
  predicate FromAt(s: string, i: nat)
  {
    && i + 4 <= |s|
    && (s[i] == 'F' || s[i] == 'f') && (s[i + 1] == 'R' || s[i + 1] == 'r')
    && (s[i + 2] == 'O' || s[i + 2] == 'o') && (s[i + 3] == 'M' || s[i + 3] == 'm')
  }

  /** `WHERE` starts at position `i`, in any case. */
  predicate WhereAt(s: string, i: nat)
  {
    && i + 5 <= |s|
    && (s[i] == 'W' || s[i] == 'w') && (s[i + 1] == 'H' || s[i + 1] == 'h')
    && (s[i + 2] == 'E' || s[i + 2] == 'e') && (s[i + 3] == 'R' || s[i + 3] == 'r')
    && (s[i + 4] == 'E' || s[i + 4] == 'e')
  }

  lemma WhereStartsWithLetter(s: string, c: nat)
    requires WhereAt(s, c)
    ensures IsWordChar(s[c]) && !IsSpace(s[c])
  {
  }

  // ---------------------------------------------------------------------------
  // Greedy runs

  /** The length of the longest run of class `cls` starting at position `k`:
      what a greedy `[...]+` or `\s+` consumes there. */
  function SpanFrom(s: string, k: nat, cls: CharClass): (n: nat)
    requires k <= |s|
    ensures k + n <= |s|
    decreases |s| - k
  {
    if k == |s| || !InClass(cls, s[k]) then 0 else 1 + SpanFrom(s, k + 1, cls)
  }

  /** The greedy run consists of the class and stops at a character outside it. */
  lemma {:induction false} SpanFacts(s: string, k: nat, cls: CharClass)
    requires k <= |s|
    ensures AllIn(s, k, k + SpanFrom(s, k, cls), cls)
    ensures k + SpanFrom(s, k, cls) < |s| ==> !InClass(cls, s[k + SpanFrom(s, k, cls)])
    decreases |s| - k
  {
    if k < |s| && InClass(cls, s[k]) {
      SpanFacts(s, k + 1, cls);
    }
  }

  /** A run of `n` characters of class `cls` that ends before a character
      outside the class is exactly what `SpanFrom` consumes. */
  lemma {:induction false} SpanExact(s: string, k: nat, cls: CharClass, n: nat)
    requires k + n <= |s|
    requires AllIn(s, k, k + n, cls)
    requires k + n < |s| ==> !InClass(cls, s[k + n])
    ensures SpanFrom(s, k, cls) == n
    decreases n
  {
    if n > 0 {
      assert InClass(cls, s[k]);
      SpanExact(s, k + 1, cls, n - 1);
    }
  }

  // ---------------------------------------------------------------------------
  // \bFROM\s+(\w+)\s+WHERE   (line 129, re.IGNORECASE)

  /** A match: the two runs of white space and the table name between them. */
  datatype FromClause = FromClause(gap1: nat, target: string, gap2: nat)

  function ClauseLength(m: FromClause): nat
  {
    4 + m.gap1 + |m.target| + m.gap2 + 5
  }

  /** Position `i` of `s` starts `m`: FROM, white space, the target word,
      white space, WHERE, the keywords in any case. */
  predicate IsFromClause(s: string, i: nat, m: FromClause)
  {
    var a := i + 4 + m.gap1;
    var b := a + |m.target|;
    var c := b + m.gap2;
    && m.gap1 > 0 && |m.target| > 0 && m.gap2 > 0 && c + 5 <= |s|
    && FromAt(s, i)
    && AllIn(s, i + 4, a, SpaceClass)
    && s[a..b] == m.target && AllIn(s, a, b, WordClass)
    && AllIn(s, b, c, SpaceClass)
    && WhereAt(s, c)
  }

  /** The FROM pattern tried at position `i`. */
  function FromWhereAt(s: string, i: nat): (m: Option<FromClause>)
    requires i <= |s|
    ensures m.Some? ==> i + ClauseLength(m.value) <= |s|
  {
    if !FromAt(s, i) then None
    else
      var a := i + 4 + SpanFrom(s, i + 4, SpaceClass);
      var b := a + SpanFrom(s, a, WordClass);
      var c := b + SpanFrom(s, b, SpaceClass);
      if a == i + 4 || b == a || c == b || !WhereAt(s, c) then None
      else Some(FromClause(a - i - 4, s[a..b], c - b))
  }

  /** Runs of the right classes between FROM and WHERE make up a clause. */
  lemma ClauseOfRuns(s: string, i: nat, a: nat, b: nat, c: nat)
    requires i + 4 < a < b < c && c + 5 <= |s|
    requires FromAt(s, i) && WhereAt(s, c)
    requires AllIn(s, i + 4, a, SpaceClass) && AllIn(s, a, b, WordClass) && AllIn(s, b, c, SpaceClass)
    ensures IsFromClause(s, i, FromClause(a - i - 4, s[a..b], c - b))
  {
  }

  /** What the FROM pattern matches is a well-formed clause. */
  lemma FromWhereAtSound(s: string, i: nat)
    requires i <= |s|
    ensures FromWhereAt(s, i).Some? ==> IsFromClause(s, i, FromWhereAt(s, i).value)
  {
    if FromWhereAt(s, i).Some? {
      var a := i + 4 + SpanFrom(s, i + 4, SpaceClass);
      var b := a + SpanFrom(s, a, WordClass);
      var c := b + SpanFrom(s, b, SpaceClass);
      assert FromWhereAt(s, i).value == FromClause(a - i - 4, s[a..b], c - b);
      SpanFacts(s, i + 4, SpaceClass);
      SpanFacts(s, a, WordClass);
      SpanFacts(s, b, SpaceClass);
      ClauseOfRuns(s, i, a, b, c);
    }
  }

  /** The three runs of a clause are exactly the greedy runs. */
  lemma ClauseRuns(s: string, i: nat, m: FromClause)
    requires IsFromClause(s, i, m)
    ensures var a := i + 4 + m.gap1;
            var b := a + |m.target|;
            && i + 4 + SpanFrom(s, i + 4, SpaceClass) == a
            && a + SpanFrom(s, a, WordClass) == b
            && b + SpanFrom(s, b, SpaceClass) == b + m.gap2
  {
    var a := i + 4 + m.gap1;
    var b := a + |m.target|;
    var c := b + m.gap2;
    assert InClass(WordClass, s[a]);
    WordCharIsNoSpace(s[a]);
    SpanExact(s, i + 4, SpaceClass, m.gap1);
    assert InClass(SpaceClass, s[b]);
    SpanExact(s, a, WordClass, |m.target|);
    WhereStartsWithLetter(s, c);
    SpanExact(s, b, SpaceClass, m.gap2);
  }

  /** Every well-formed clause is recognised, with its own target and gaps:
      with `FromWhereAtSound`, the pattern matches at `i` exactly when a
      clause starts there. */
  lemma FromClauseRecognised(s: string, i: nat, m: FromClause)
    requires IsFromClause(s, i, m)
    ensures FromWhereAt(s, i) == Some(m)
  {
    ClauseRuns(s, i, m);
  }

  /** The character before position `i` is not a word character: `\b` holds
      before the F of FROM. */
  predicate BoundaryBefore(s: string, i: nat)
    requires i <= |s|
  {
    i == 0 || !IsWordChar(s[i - 1])
  }

  /** `re.sub` of the FROM pattern by `repl` over `s` from position `i`: each
      match is replaced and the scan goes on after it. */
  function SubstituteFrom(s: string, i: nat, repl: string): string
    requires i <= |s|
    decreases |s| - i
  {
    if i == |s| then ""
    else
      var m := if BoundaryBefore(s, i) then FromWhereAt(s, i) else None;
      if m.Some? then repl + SubstituteFrom(s, i + ClauseLength(m.value), repl)
      else [s[i]] + SubstituteFrom(s, i + 1, repl)
  }

  /** The FROM pattern matches at position `j`: on a word boundary, a whole
      clause starts there. */
  predicate MatchAt(s: string, j: nat)
    requires j <= |s|
  {
    BoundaryBefore(s, j) && FromWhereAt(s, j).Some?
  }

  /** Where the pattern does not match, the scan copies one character. */
  lemma SubstituteCopies(s: string, i: nat, repl: string)
    requires i < |s| && !MatchAt(s, i)
    ensures SubstituteFrom(s, i, repl) == [s[i]] + SubstituteFrom(s, i + 1, repl)
  {
  }

  /** A clause on a word boundary is replaced as a whole. */
  lemma SubstituteClause(s: string, p: nat, m: FromClause, repl: string)
    requires p <= |s| && BoundaryBefore(s, p) && IsFromClause(s, p, m)
    ensures SubstituteFrom(s, p, repl) == repl + SubstituteFrom(s, p + ClauseLength(m), repl)
  {
    FromClauseRecognised(s, p, m);
    SubstituteMatch(s, p, m, repl);
  }

  lemma SubstituteMatch(s: string, p: nat, m: FromClause, repl: string)
    requires p < |s| && BoundaryBefore(s, p) && FromWhereAt(s, p) == Some(m)
    ensures SubstituteFrom(s, p, repl) == repl + SubstituteFrom(s, p + ClauseLength(m), repl)
  {
  }

  /** No case variant of FROM starts at a position of `s` from `lo` up to `hi`. */
  predicate NoFromKeyword(s: string, lo: nat, hi: nat)
  {
    forall j | lo <= j < hi :: !FromAt(s, j)
  }

  /** The pattern matches at no position from `lo` up to `hi`. */
  predicate NoMatchBetween(s: string, lo: nat, hi: nat)
    requires hi <= |s|
  {
    forall j | lo <= j < hi :: !MatchAt(s, j)
  }

  /** Without a FROM keyword the pattern cannot match. */
  lemma NoKeywordNoMatch(s: string, lo: nat, hi: nat)
    requires hi <= |s| && NoFromKeyword(s, lo, hi)
    ensures NoMatchBetween(s, lo, hi)
  {
    forall j | lo <= j < hi ensures !MatchAt(s, j) {
      assert !FromAt(s, j);
    }
  }

  /** Text where the pattern matches nowhere is copied as it is, up to position `p`. */
  lemma {:induction false} CopiedUntil(s: string, i: nat, p: nat, repl: string)
    requires i <= p <= |s|
    requires NoMatchBetween(s, i, p)
    ensures SubstituteFrom(s, i, repl) == s[i..p] + SubstituteFrom(s, p, repl)
    decreases p - i
  {
    if i == p {
      assert s[i..p] == [];
    } else {
      SubstituteCopies(s, i, repl);
      CopiedUntil(s, i + 1, p, repl);
      CopiedPrefix(s, i, p, SubstituteFrom(s, p, repl));
    }
  }

  /** Text with no FROM keyword has nothing to substitute. */
  lemma NoFromUnchanged(s: string, i: nat, repl: string)
    requires i <= |s|
    requires NoFromKeyword(s, i, |s|)
    ensures SubstituteFrom(s, i, repl) == s[i..]
  {
    NoKeywordNoMatch(s, i, |s|);
    CopiedUntil(s, i, |s|, repl);
  }

  /** Text up to the first match of the pattern is copied, and the clause
      matched there is replaced as a whole. */
  lemma FromClauseRetargeted(s: string, i: nat, p: nat, m: FromClause, repl: string)
    requires i <= p <= |s|
    requires NoMatchBetween(s, i, p)
    requires BoundaryBefore(s, p) && IsFromClause(s, p, m)
    ensures SubstituteFrom(s, i, repl) == s[i..p] + repl + SubstituteFrom(s, p + ClauseLength(m), repl)
  {
    SubstituteClause(s, p, m, repl);
    CopyThenReplace(s, i, p, repl, SubstituteFrom(s, p + ClauseLength(m), repl));
  }

  /** Copied text followed by a replaced match. */
  lemma CopyThenReplace(s: string, i: nat, p: nat, repl: string, tail: string)
    requires i <= p <= |s|
    requires NoMatchBetween(s, i, p)
    requires SubstituteFrom(s, p, repl) == repl + tail
    ensures SubstituteFrom(s, i, repl) == s[i..p] + repl + tail
  {
    CopiedUntil(s, i, p, repl);
    assert s[i..p] + (repl + tail) == s[i..p] + repl + tail;
  }

  /** One more copied character extends the copied prefix. */
  lemma CopiedPrefix(s: string, i: nat, p: nat, rest: string)
    requires i < p <= |s|
    ensures [s[i]] + (s[i + 1..p] + rest) == s[i..p] + rest
  {
    assert s[i..p] == [s[i]] + s[i + 1..p];
  }

  /** The rewrite of line 129: every `FROM <word> WHERE`, whatever the case of
      its keywords and the white space around the word, becomes
      `FROM <name> WHERE`. */
  function RetargetFrom(sql: string, name: string): string
  {
    SubstituteFrom(sql, 0, "FROM " + name + " WHERE")
  }

  /** The query up to the first match is kept, and the clause matched there
      becomes `FROM <name> WHERE`. */
  lemma RetargetFirstClause(sql: string, name: string, p: nat, m: FromClause)
    requires p <= |sql| && NoMatchBetween(sql, 0, p)
    requires BoundaryBefore(sql, p) && IsFromClause(sql, p, m)
    ensures var repl := "FROM " + name + " WHERE";
            RetargetFrom(sql, name) == sql[..p] + repl + SubstituteFrom(sql, p + ClauseLength(m), repl)
  {
    FromClauseRetargeted(sql, 0, p, m, "FROM " + name + " WHERE");
    assert sql[0..p] == sql[..p];
  }

  /** A query the pattern matches nowhere is left as it is. */
  lemma RetargetWithoutMatch(sql: string, name: string)
    requires NoMatchBetween(sql, 0, |sql|)
    ensures RetargetFrom(sql, name) == sql
  {
    CopiedUntil(sql, 0, |sql|, "FROM " + name + " WHERE");
    assert sql[0..|sql|] == sql;
  }

  // ---------------------------------------------------------------------------
  // ([a-zA-Z0-9_]+) (?:NOT )?LIKE '\%([^\%]+)\%'   (lines 143-144)

  datatype LikeMatch = LikeMatch(column: string, value: string)

  function LikeOperator(negated: bool): string
  {
    if negated then " NOT LIKE '%" else " LIKE '%"
  }

  /** The length of the operator text, spelled out so that the scanner
      need not unfold the literal. */
  function OperatorLength(negated: bool): (n: nat)
    ensures n == |LikeOperator(negated)|
  {
    if negated then 12 else 8
  }

  /** The text `column [NOT ]LIKE '%value%'`. */
  function LikeText(m: LikeMatch, negated: bool): string
  {
    m.column + LikeOperator(negated) + m.value + "%'"
  }

  /** A column name of the pattern and a value between the wildcards. */
  predicate WellFormedLike(m: LikeMatch)
  {
    |m.column| > 0 && AllOf(m.column, WordClass) && |m.value| > 0 && AllOf(m.value, ValueClass)
  }

  /** A match of the LIKE pattern: the two groups, whether the NOT form was
      used, and the position after the match. */
  datatype LikeHit = LikeHit(like: LikeMatch, negated: bool, end: nat)

  /** ` LIKE '%` starts at position `p`, character by character. */
  predicate PlainLikeAt(s: string, p: nat)
  {
    && p + 8 <= |s|
    && s[p] == ' ' && s[p + 1] == 'L' && s[p + 2] == 'I' && s[p + 3] == 'K'
    && s[p + 4] == 'E' && s[p + 5] == ' ' && s[p + 6] == '\'' && s[p + 7] == '%'
  }

  /** ` NOT LIKE '%` starts at position `p`, character by character. */
  predicate NotLikeAt(s: string, p: nat)
  {
    && p + 12 <= |s|
    && s[p] == ' ' && s[p + 1] == 'N' && s[p + 2] == 'O' && s[p + 3] == 'T'
    && PlainLikeAt(s, p + 4)
  }

  /** `%'` starts at position `e`, character by character. */
  predicate CloseAt(s: string, e: nat)
  {
    e + 2 <= |s| && s[e] == '%' && s[e + 1] == '\''
  }

  lemma PlainLikeChars(s: string, p: nat)
    ensures LiteralAt(s, p, LikeOperator(false)) <==> PlainLikeAt(s, p)
  {
    var lit := LikeOperator(false);
    if LiteralAt(s, p, lit) {
      assert s[p + 0] == lit[0] && s[p + 1] == lit[1] && s[p + 2] == lit[2] && s[p + 3] == lit[3];
      assert s[p + 4] == lit[4] && s[p + 5] == lit[5] && s[p + 6] == lit[6] && s[p + 7] == lit[7];
    }
  }

  lemma NotLikeChars(s: string, p: nat)
    ensures LiteralAt(s, p, LikeOperator(true)) <==> NotLikeAt(s, p)
  {
    var lit := LikeOperator(true);
    assert lit == " NOT" + LikeOperator(false);
    if LiteralAt(s, p, lit) {
      LiteralSplit(s, p, " NOT", LikeOperator(false));
      assert s[p + 0] == lit[0] && s[p + 1] == lit[1] && s[p + 2] == lit[2] && s[p + 3] == lit[3];
    }
    if NotLikeAt(s, p) {
      assert LiteralAt(s, p, " NOT");
      PlainLikeChars(s, p + 4);
      LiteralJoin(s, p, " NOT", LikeOperator(false));
    }
    PlainLikeChars(s, p + 4);
  }

  lemma CloseChars(s: string, e: nat)
    ensures LiteralAt(s, e, "%'") <==> CloseAt(s, e)
  {
    if LiteralAt(s, e, "%'") {
      assert s[e + 0] == "%'"[0] && s[e + 1] == "%'"[1];
    }
  }

  /** Which operator form starts at position `p`: `Some(true)` for
      ` NOT LIKE '%`, `Some(false)` for ` LIKE '%`. */
  function OperatorAt(s: string, p: nat): (r: Option<bool>)
    ensures r.Some? ==> p + OperatorLength(r.value) <= |s|
  {
    if NotLikeAt(s, p) then Some(true)
    else if PlainLikeAt(s, p) then Some(false)
    else None
  }

  /** Where the value group starting at `q` ends, when a non-empty run of
      non-`%` characters is followed by `%'`. */
  function ValueEnd(s: string, q: nat): (r: Option<nat>)
    requires q <= |s|
    ensures r.Some? ==> q < r.value && r.value + 2 <= |s|
  {
    var e := q + SpanFrom(s, q, ValueClass);
    if e == q || !CloseAt(s, e) then None else Some(e)
  }

  /** The LIKE pattern tried at position `i`. The optional `NOT ` and the
      space before it are read together with the operator. */
  function LikeAt(s: string, i: nat): (r: Option<LikeHit>)
    requires i <= |s|
    ensures r.Some? ==> i < r.value.end <= |s|
  {
    var p := i + SpanFrom(s, i, WordClass);
    var op := OperatorAt(s, p);
    if p == i || op.None? then None
    else
      var q := p + OperatorLength(op.value);
      var e := ValueEnd(s, q);
      if e.None? then None
      else Some(LikeHit(LikeMatch(s[i..p], s[q..e.value]), op.value, e.value + 2))
  }

  /** Four pieces found one after another make up the LIKE text. */
  lemma LikeTextJoin(s: string, i: nat, m: LikeMatch, op: string)
    requires LiteralAt(s, i, m.column)
    requires LiteralAt(s, i + |m.column|, op)
    requires LiteralAt(s, i + |m.column| + |op|, m.value)
    requires LiteralAt(s, i + |m.column| + |op| + |m.value|, "%'")
    ensures LiteralAt(s, i, m.column + op + m.value + "%'")
  {
    LiteralJoin(s, i, m.column, op);
    LiteralJoin(s, i, m.column + op, m.value);
    LiteralJoin(s, i, m.column + op + m.value, "%'");
  }

  /** What a LIKE match reports, in terms of the text it was found in. */
  predicate SoundHit(s: string, i: nat, h: LikeHit)
  {
    && WellFormedLike(h.like)
    && LiteralAt(s, i, LikeText(h.like, h.negated))
    && h.end == i + |LikeText(h.like, h.negated)|
  }

  /** A slice of characters of a class is a string of that class, found at its position. */
  lemma SliceOfRun(s: string, lo: nat, hi: nat, cls: CharClass)
    requires lo <= hi <= |s| && AllIn(s, lo, hi, cls)
    ensures AllOf(s[lo..hi], cls) && LiteralAt(s, lo, s[lo..hi])
  {
    AllInSlice(s, lo, hi, cls);
    LiteralSlice(s, lo, s[lo..hi]);
  }

  /** A column run, the operator, a value run and `%'` in a row make a sound hit. */
  lemma HitOfRuns(s: string, i: nat, p: nat, negated: bool, e: nat, h: LikeHit)
    requires i < p && p + |LikeOperator(negated)| < e && e + 2 <= |s|
    requires AllIn(s, i, p, WordClass) && AllIn(s, p + |LikeOperator(negated)|, e, ValueClass)
    requires LiteralAt(s, p, LikeOperator(negated)) && LiteralAt(s, e, "%'")
    requires h == LikeHit(LikeMatch(s[i..p], s[p + |LikeOperator(negated)|..e]), negated, e + 2)
    ensures SoundHit(s, i, h)
  {
    var q := p + |LikeOperator(negated)|;
    SliceOfRun(s, i, p, WordClass);
    SliceOfRun(s, q, e, ValueClass);
    LikeTextJoin(s, i, h.like, LikeOperator(negated));
  }

  /** The operator form found is one that occurs at the position. */
  lemma OperatorAtSound(s: string, p: nat)
    ensures OperatorAt(s, p).Some? ==> LiteralAt(s, p, LikeOperator(OperatorAt(s, p).value))
  {
    PlainLikeChars(s, p);
    NotLikeChars(s, p);
  }

  /** The value group is a non-empty run of non-`%` characters followed by `%'`. */
  lemma ValueEndSound(s: string, q: nat)
    requires q <= |s|
    ensures ValueEnd(s, q).Some? ==>
              AllIn(s, q, ValueEnd(s, q).value, ValueClass) && LiteralAt(s, ValueEnd(s, q).value, "%'")
  {
    SpanFacts(s, q, ValueClass);
    CloseChars(s, q + SpanFrom(s, q, ValueClass));
  }

  /** A LIKE match is a column word, the operator and a value without `%`
      between the wildcards, found literally at the position. */
  lemma LikeAtSound(s: string, i: nat)
    requires i <= |s|
    ensures LikeAt(s, i).Some? ==> SoundHit(s, i, LikeAt(s, i).value)
  {
    var r := LikeAt(s, i);
    if r.Some? {
      var p := i + SpanFrom(s, i, WordClass);
      var negated := r.value.negated;
      var q := p + |LikeOperator(negated)|;
      var e := r.value.end - 2;
      assert OperatorAt(s, p) == Some(negated) && ValueEnd(s, q) == Some(e);
      assert r.value == LikeHit(LikeMatch(s[i..p], s[q..e]), negated, e + 2);
      OperatorAtSound(s, p);
      ValueEndSound(s, q);
      SpanFacts(s, i, WordClass);
      HitOfRuns(s, i, p, negated, e, r.value);
    }
  }

  /** Exactly the operator form that occurs is found: the plain form and
      the NOT form never both start at one position. */
  lemma OperatorAtRecognised(s: string, p: nat, negated: bool)
    requires LiteralAt(s, p, LikeOperator(negated))
    ensures OperatorAt(s, p) == Some(negated)
  {
    PlainLikeChars(s, p);
    NotLikeChars(s, p);
  }

  /** A run of column characters followed by text that starts with a
      non-column character is exactly what the greedy column group takes. */
  lemma ColumnRun(s: string, i: nat, col: string, rest: string)
    requires LiteralAt(s, i, col + rest)
    requires |rest| > 0 && !IsWordChar(rest[0])
    requires AllOf(col, WordClass)
    ensures i + |col| < |s| && i + SpanFrom(s, i, WordClass) == i + |col|
    ensures s[i..i + |col|] == col && LiteralAt(s, i + |col|, rest)
  {
    LiteralSplit(s, i, col, rest);
    LiteralInClass(s, i, col, WordClass);
    LiteralSlice(s, i, col);
    assert s[i + |col| + 0] == rest[0];
    SpanExact(s, i, WordClass, |col|);
  }

  /** A value without `%` followed by `%'` is exactly what the greedy value group takes. */
  lemma ValueEndRecognised(s: string, q: nat, v: string)
    requires |v| > 0 && AllOf(v, ValueClass)
    requires LiteralAt(s, q, v + "%'")
    ensures ValueEnd(s, q) == Some(q + |v|) && s[q..q + |v|] == v
  {
    LiteralSplit(s, q, v, "%'");
    LiteralInClass(s, q, v, ValueClass);
    LiteralSlice(s, q, v);
    CloseChars(s, q + |v|);
    SpanExact(s, q, ValueClass, |v|);
  }

  /** The scanner's decisions at `i`, taken one by one, produce the hit. */
  lemma LikeAtSteps(s: string, i: nat, p: nat, negated: bool, q: nat, e: nat)
    requires i < p <= |s| && i + SpanFrom(s, i, WordClass) == p
    requires OperatorAt(s, p) == Some(negated) && q == p + OperatorLength(negated)
    requires ValueEnd(s, q) == Some(e)
    ensures LikeAt(s, i) == Some(LikeHit(LikeMatch(s[i..p], s[q..e]), negated, e + 2))
  {
  }

  /** The column, the operator and the value of a LIKE text are read as
      they were written. */
  lemma LikePieces(s: string, i: nat, m: LikeMatch, negated: bool)
    requires WellFormedLike(m)
    requires LiteralAt(s, i, LikeText(m, negated))
    ensures var p := i + |m.column|;
            var q := p + |LikeOperator(negated)|;
            && p <= |s| && i + SpanFrom(s, i, WordClass) == p && s[i..p] == m.column
            && OperatorAt(s, p) == Some(negated)
            && q <= |s| && ValueEnd(s, q) == Some(q + |m.value|) && s[q..q + |m.value|] == m.value
  {
    var op := LikeOperator(negated);
    var p := i + |m.column|;
    var rest := op + (m.value + "%'");
    assert LikeText(m, negated) == m.column + rest;
    assert rest[0] == ' ';
    ColumnRun(s, i, m.column, rest);
    LiteralSplit(s, p, op, m.value + "%'");
    OperatorAtRecognised(s, p, negated);
    ValueEndRecognised(s, p + |op|, m.value);
  }

  /** Every `column LIKE '%value%'` (or its NOT form) that starts a maximal
      run of column characters is recognised with that column and value. */
  lemma LikeRecognised(s: string, i: nat, m: LikeMatch, negated: bool)
    requires WellFormedLike(m)
    requires LiteralAt(s, i, LikeText(m, negated))
    ensures LikeAt(s, i) == Some(LikeHit(m, negated, i + |LikeText(m, negated)|))
  {
    var p := i + |m.column|;
    var q := p + |LikeOperator(negated)|;
    assert q + |m.value| + 2 == i + |LikeText(m, negated)|;
    LikePieces(s, i, m, negated);
    LikeAtSteps(s, i, p, negated, q, q + |m.value|);
  }

  /** `re.findall` of the LIKE pattern over `s` from position `i`: the matches
      in order, the scan resuming after each match. */
  function FindLikes(s: string, i: nat): seq<LikeMatch>
    requires i <= |s|
    decreases |s| - i
  {
    if i == |s| then []
    else
      var r := LikeAt(s, i);
      if r.Some? then [r.value.like] + FindLikes(s, r.value.end)
      else FindLikes(s, i + 1)
  }

  /** Every match `re.findall` yields is a column word and a value without `%`. */
  lemma {:induction false} FindLikesWellFormed(s: string, i: nat)
    requires i <= |s|
    ensures forall k | 0 <= k < |FindLikes(s, i)| :: WellFormedLike(FindLikes(s, i)[k])
    decreases |s| - i
  {
    if i < |s| {
      var r := LikeAt(s, i);
      if r.Some? {
        LikeAtSound(s, i);
        FindLikesWellFormed(s, r.value.end);
      } else {
        FindLikesWellFormed(s, i + 1);
      }
    }
  }

  /** Positions where the LIKE pattern does not match yield nothing. */
  lemma {:induction false} FindLikesSkips(s: string, i: nat, p: nat)
    requires i <= p <= |s|
    requires forall j | i <= j < p :: LikeAt(s, j).None?
    ensures FindLikes(s, i) == FindLikes(s, p)
    decreases p - i
  {
    if i < p {
      FindLikesSkips(s, i + 1, p);
    }
  }

  /** The first LIKE text from position `i` on is the first match `re.findall`
      yields, and the scan resumes right after it. */
  lemma FindLikesFirst(s: string, i: nat, p: nat, m: LikeMatch, negated: bool)
    requires i <= p <= |s|
    requires forall j | i <= j < p :: LikeAt(s, j).None?
    requires WellFormedLike(m) && LiteralAt(s, p, LikeText(m, negated))
    ensures p + |LikeText(m, negated)| <= |s|
    ensures FindLikes(s, i) == [m] + FindLikes(s, p + |LikeText(m, negated)|)
  {
    FindLikesSkips(s, i, p);
    LikeRecognised(s, p, m, negated);
  }

  /** Without a LIKE match anywhere, `re.findall` yields nothing. */
  lemma FindLikesNone(s: string, i: nat)
    requires i <= |s|
    requires forall j | i <= j < |s| :: LikeAt(s, j).None?
    ensures FindLikes(s, i) == []
  {
    FindLikesSkips(s, i, |s|);
  }
}
