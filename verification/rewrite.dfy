/** `QueryTool.rewrite_sql` (llm4crs/query/query_tool.py lines 122-156):
    retarget the FROM clause at the corpus, ground unknown WHERE columns and
    LIKE values by fuzzy matching, and substitute the groundings into the
    query text with `str.replace`. */
module Rewrite {
  import opened Outcomes
  import opened Text
  import opened SqlPatterns

  /** The corpus as the rewriter sees it: its table name, the keys of
      `column_meaning`, the keys of `fuzzy_engine` (the columns with known
      categorical values) and `fuzzy_match(token, domain)`, which may raise. */
  datatype Corpus = Corpus(
    name: string,
    columns: set<string>,
    fuzzyColumns: set<string>,
    fuzzyMatch: (string, string) -> Option<string>)

  /** The domain under which `fuzzy_match` looks up column names (line 137). */
  const ColumnDomain: string := "sql_cols"

  // ---------------------------------------------------------------------------
  // Insertion-ordered dicts of replacements

  /** A Python dict from text to replacement text, as its items in insertion order. */
  type Dict = seq<(string, string)>

  function Keys(d: Dict): set<string>
  {
    if |d| == 0 then {} else {d[0].0} + Keys(d[1..])
  }

  function Get(d: Dict, k: string): Option<string>
  {
    if |d| == 0 then None else if d[0].0 == k then Some(d[0].1) else Get(d[1..], k)
  }

  /** `d[k] = v`: an existing key keeps its place and takes the new value, a
      new key goes to the end. */
  function Put(d: Dict, k: string, v: string): (d': Dict)
    ensures Keys(d') == Keys(d) + {k}
    ensures Get(d', k) == Some(v)
    ensures forall k' | k' != k :: Get(d', k') == Get(d, k')
    ensures forall i | 0 <= i < |d'| :: d'[i] == (k, v) || d'[i] in d
    ensures k !in Keys(d) ==> d' == d + [(k, v)]
    ensures k in Keys(d) ==> |d'| == |d| && forall i | 0 <= i < |d| :: d'[i].0 == d[i].0
  {
    if |d| == 0 then [(k, v)]
    else if d[0].0 == k then [(k, v)] + d[1..]
    else [d[0]] + Put(d[1..], k, v)
  }

  lemma {:induction false} KeysAreLookedUp(d: Dict, k: string)
    ensures k in Keys(d) <==> Get(d, k).Some?
  {
    if |d| > 0 && d[0].0 != k {
      KeysAreLookedUp(d[1..], k);
    }
  }

  /** The keys of a dict in insertion order, as `d.keys()` iterates them. */
  function KeyList(d: Dict): seq<string>
  {
    seq(|d|, i requires 0 <= i < |d| => d[i].0)
  }

  lemma {:induction false} KeysListed(d: Dict, k: string)
    ensures k in Keys(d) <==> k in KeyList(d)
  {
    if |d| > 0 {
      KeysListed(d[1..], k);
      assert KeyList(d) == [d[0].0] + KeyList(d[1..]);
    }
  }

  /** Assigning `d[k]` appends `k` to the key order when it is new and
      leaves the order alone otherwise. */
  lemma PutKeyOrder(d: Dict, k: string, v: string)
    ensures KeyList(Put(d, k, v)) == if k in KeyList(d) then KeyList(d) else KeyList(d) + [k]
  {
    KeysListed(d, k);
  }

  /** `xs` without repetitions, each element where it first occurs. */
  function FirstOccurrences(xs: seq<string>): seq<string>
  {
    if |xs| == 0 then []
    else
      var f := FirstOccurrences(xs[..|xs| - 1]);
      if xs[|xs| - 1] in f then f else f + [xs[|xs| - 1]]
  }

  /** The replacement loops of lines 139-140 and 153-154: each key of the
      dict, in insertion order, is replaced everywhere by its value in the
      query as the earlier replacements left it. */
  function ReplaceEach(sql: string, d: Dict): string
    decreases |d|
  {
    if |d| == 0 then sql else ReplaceEach(Replace(sql, d[0].0, d[0].1), d[1..])
  }

  /** Replacing keys by themselves leaves the query as it is. */
  lemma {:induction false} ReplaceEachIdentity(sql: string, d: Dict)
    requires forall i | 0 <= i < |d| :: d[i].0 == d[i].1 && |d[i].0| > 0
    ensures ReplaceEach(sql, d) == sql
  {
    if |d| > 0 {
      ReplaceSelf(sql, d[0].0);
      ReplaceEachIdentity(sql, d[1..]);
    }
  }

  /** The replacements are applied in insertion order: the item inserted
      last is applied to the outcome of all the earlier ones. */
  lemma {:induction false} ReplaceEachAppend(sql: string, d: Dict, k: string, v: string)
    ensures ReplaceEach(sql, d + [(k, v)]) == Replace(ReplaceEach(sql, d), k, v)
    decreases |d|
  {
    if |d| == 0 {
      assert d + [(k, v)] == [(k, v)];
    } else {
      assert (d + [(k, v)])[1..] == d[1..] + [(k, v)];
      ReplaceEachAppend(Replace(sql, d[0].0, d[0].1), d[1..], k, v);
    }
  }

  // ---------------------------------------------------------------------------
  // Column grounding (lines 131-140)

  predicate Unknown(corpus: Corpus, col: string)
  {
    col !in corpus.columns
  }

  /** `col_replace_dict` built from the extracted columns: every column the
      corpus does not have is mapped to its fuzzy match among the column
      names; known columns get no entry. `None` when a fuzzy match raises. */
  function ColumnMap(corpus: Corpus, cols: seq<string>): (o: Option<Dict>)
    ensures o.None? <==> exists i | 0 <= i < |cols| ::
              Unknown(corpus, cols[i]) && corpus.fuzzyMatch(cols[i], ColumnDomain).None?
    ensures o.Some? ==> Keys(o.value) == set i | 0 <= i < |cols| && Unknown(corpus, cols[i]) :: cols[i]
    ensures o.Some? ==> forall k | k in Keys(o.value) :: Get(o.value, k) == corpus.fuzzyMatch(k, ColumnDomain)
  {
    if |cols| == 0 then Some([])
    else
      var last := cols[|cols| - 1];
      var prefix := cols[..|cols| - 1];
      var d := ColumnMap(corpus, prefix);
      if d.None? then None
      else if !Unknown(corpus, last) then
        assert (set i | 0 <= i < |cols| && Unknown(corpus, cols[i]) :: cols[i])
            == (set i | 0 <= i < |prefix| && Unknown(corpus, prefix[i]) :: prefix[i]) by {
          ColumnSetExtend(corpus, cols);
        }
        d
      else
        var mapped := corpus.fuzzyMatch(last, ColumnDomain);
        if mapped.None? then None
        else
          ColumnSetExtend(corpus, cols);
          Some(Put(d.value, last, mapped.value))
  }

  /** Looking a column up in `col_replace_dict` finds an entry exactly for the
      extracted columns the corpus lacks, and the entry is their fuzzy match. */
  lemma ColumnMapLookup(corpus: Corpus, cols: seq<string>, c: string)
    requires ColumnMap(corpus, cols).Some?
    ensures var d := ColumnMap(corpus, cols).value;
            Get(d, c).Some? <==> c in cols && Unknown(corpus, c)
    ensures var d := ColumnMap(corpus, cols).value;
            Get(d, c).Some? ==> Get(d, c) == corpus.fuzzyMatch(c, ColumnDomain)
  {
    var d := ColumnMap(corpus, cols).value;
    KeysAreLookedUp(d, c);
    if c in cols && Unknown(corpus, c) {
      var i :| 0 <= i < |cols| && cols[i] == c;
      assert c in Keys(d);
    }
  }

  /** `col_replace_dict` lists its keys in the order the unknown columns are
      first extracted. */
  lemma {:induction false} ColumnMapKeyOrder(corpus: Corpus, cols: seq<string>)
    ensures var o := ColumnMap(corpus, cols);
            o.Some? ==> KeyList(o.value) == FirstOccurrences(UnknownColumns(corpus, cols))
  {
    if |cols| > 0 {
      var last := cols[|cols| - 1];
      var prefix := cols[..|cols| - 1];
      ColumnMapKeyOrder(corpus, prefix);
      UnknownColumnsStep(corpus, cols);
      var d := ColumnMap(corpus, prefix);
      if d.Some? && Unknown(corpus, last) && corpus.fuzzyMatch(last, ColumnDomain).Some? {
        PutKeyOrder(d.value, last, corpus.fuzzyMatch(last, ColumnDomain).value);
      }
    }
  }

  /** The extracted columns the corpus does not have, in extraction order. */
  function UnknownColumns(corpus: Corpus, cols: seq<string>): seq<string>
  {
    if |cols| == 0 then []
    else
      UnknownColumns(corpus, cols[..|cols| - 1])
      + (if Unknown(corpus, cols[|cols| - 1]) then [cols[|cols| - 1]] else [])
  }

  /** The first-occurrence order of the unknown columns grows by the last
      column exactly when it is unknown and not seen before. */
  lemma UnknownColumnsStep(corpus: Corpus, cols: seq<string>)
    requires |cols| > 0
    ensures var f := FirstOccurrences(UnknownColumns(corpus, cols[..|cols| - 1]));
            var last := cols[|cols| - 1];
            FirstOccurrences(UnknownColumns(corpus, cols))
            == if Unknown(corpus, last) && last !in f then f + [last] else f
  {
    var prefix := cols[..|cols| - 1];
    if !Unknown(corpus, cols[|cols| - 1]) {
      assert UnknownColumns(corpus, cols) == UnknownColumns(corpus, prefix);
    } else {
      var u := UnknownColumns(corpus, cols);
      assert u[..|u| - 1] == UnknownColumns(corpus, prefix);
    }
  }

  lemma ColumnSetExtend(corpus: Corpus, cols: seq<string>)
    requires |cols| > 0
    ensures var prefix := cols[..|cols| - 1];
            var last := cols[|cols| - 1];
            (set i | 0 <= i < |cols| && Unknown(corpus, cols[i]) :: cols[i])
            == (set i | 0 <= i < |prefix| && Unknown(corpus, prefix[i]) :: prefix[i])
               + (if Unknown(corpus, last) then {last} else {})
  {
    var prefix := cols[..|cols| - 1];
    forall i | 0 <= i < |prefix| ensures prefix[i] == cols[i] { }
  }

  // ---------------------------------------------------------------------------
  // Value grounding (lines 143-151)

  /** `str.replace("'", "''")`: the escaping for SQLite string literals (line 150). */
  function EscapeQuotes(s: string): string
  {
    Replace(s, "'", "''")
  }

  /** Undoing the escaping by collapsing every `''` gives the text back. */
  lemma {:induction false} EscapeQuotesRoundTrip(s: string)
    ensures ReplaceAll(EscapeQuotes(s), "''", "'") == s
    decreases |s|
  {
    if |s| > 0 {
      EscapeQuotesRoundTrip(s[1..]);
      var e := EscapeQuotes(s[1..]);
      if s[0] == '\'' {
        assert s[..1] == "'";
        assert EscapeQuotes(s) == "''" + e;
        assert ("''" + e)[..2] == "''";
        assert ("''" + e)[2..] == e;
      } else {
        assert s[..1] != "'";
        assert EscapeQuotes(s) == [s[0]] + e;
        if |[s[0]] + e| >= 2 {
          assert ([s[0]] + e)[..2] != "''" by { assert ([s[0]] + e)[..2][0] == s[0]; }
        }
        assert ([s[0]] + e)[1..] == e;
      }
      assert s == [s[0]] + s[1..];
    }
  }

  /** A text without quotes needs no escaping. */
  lemma EscapeQuotesNoQuote(s: string)
    requires !Occurs(s, "'")
    ensures EscapeQuotes(s) == s
  {
    ReplaceAbsent(s, "'", "''");
  }

  /** The text `%v%` that the LIKE value is replaced in. */
  function Wildcard(v: string): string
  {
    "%" + v + "%"
  }

  /** The grounded value for a LIKE match on a column with categorical values:
      its fuzzy match, escaped, between wildcards. */
  predicate GroundedAt(corpus: Corpus, ms: seq<LikeMatch>, i: int, k: string, v: string)
    requires 0 <= i < |ms|
  {
    && ms[i].column in corpus.fuzzyColumns
    && k == Wildcard(ms[i].value)
    && corpus.fuzzyMatch(ms[i].value, ms[i].column).Some?
    && v == Wildcard(EscapeQuotes(corpus.fuzzyMatch(ms[i].value, ms[i].column).value))
  }

  /** `replace_dict` built from the LIKE matches: an entry `%value%` for every
      match on a column of `fuzzy_engine`, whose replacement is the escaped
      fuzzy match of the value between wildcards; matches on other columns are
      skipped. `None` when a fuzzy match raises. */
  function ValueMap(corpus: Corpus, ms: seq<LikeMatch>): (o: Option<Dict>)
    ensures o.None? <==> exists i | 0 <= i < |ms| ::
              ms[i].column in corpus.fuzzyColumns && corpus.fuzzyMatch(ms[i].value, ms[i].column).None?
    ensures o.Some? ==> (Keys(o.value) ==
              set i | 0 <= i < |ms| && ms[i].column in corpus.fuzzyColumns :: Wildcard(ms[i].value))
    ensures o.Some? ==> forall j | 0 <= j < |o.value| :: GroundedItem(corpus, ms, o.value[j])
  {
    if |ms| == 0 then Some([])
    else
      var last := ms[|ms| - 1];
      var prefix := ms[..|ms| - 1];
      var d := ValueMap(corpus, prefix);
      if d.None? then
        assert exists i | 0 <= i < |ms| ::
          ms[i].column in corpus.fuzzyColumns && corpus.fuzzyMatch(ms[i].value, ms[i].column).None? by {
          var i :| 0 <= i < |prefix| && prefix[i].column in corpus.fuzzyColumns
                   && corpus.fuzzyMatch(prefix[i].value, prefix[i].column).None?;
          assert ms[i] == prefix[i];
        }
        None
      else
        ValueSetExtend(corpus, ms);
        GroundedExtend(corpus, ms, prefix, d.value);
        if last.column !in corpus.fuzzyColumns then d
        else
          var u := corpus.fuzzyMatch(last.value, last.column);
          if u.None? then None
          else
            var d' := Put(d.value, Wildcard(last.value), Wildcard(EscapeQuotes(u.value)));
            assert GroundedItem(corpus, ms, (Wildcard(last.value), Wildcard(EscapeQuotes(u.value)))) by {
              assert GroundedAt(corpus, ms, |ms| - 1, Wildcard(last.value), Wildcard(EscapeQuotes(u.value)));
            }
            Some(d')
  }

  lemma ValueSetExtend(corpus: Corpus, ms: seq<LikeMatch>)
    requires |ms| > 0
    ensures var prefix := ms[..|ms| - 1];
            var last := ms[|ms| - 1];
            (set i | 0 <= i < |ms| && ms[i].column in corpus.fuzzyColumns :: Wildcard(ms[i].value))
            == (set i | 0 <= i < |prefix| && prefix[i].column in corpus.fuzzyColumns :: Wildcard(prefix[i].value))
               + (if last.column in corpus.fuzzyColumns then {Wildcard(last.value)} else {})
  {
    var prefix := ms[..|ms| - 1];
    forall i | 0 <= i < |prefix| ensures prefix[i] == ms[i] { }
  }

  /** The keys `%value%` of the matches on categorical columns, in match order. */
  function ValueKeys(corpus: Corpus, ms: seq<LikeMatch>): seq<string>
  {
    if |ms| == 0 then []
    else
      var last := ms[|ms| - 1];
      ValueKeys(corpus, ms[..|ms| - 1])
      + (if last.column in corpus.fuzzyColumns then [Wildcard(last.value)] else [])
  }

  /** `replace_dict` lists its keys in the order the categorical matches
      first produce them. */
  lemma {:induction false} ValueMapKeyOrder(corpus: Corpus, ms: seq<LikeMatch>)
    ensures var o := ValueMap(corpus, ms);
            o.Some? ==> KeyList(o.value) == FirstOccurrences(ValueKeys(corpus, ms))
  {
    if |ms| > 0 {
      var last := ms[|ms| - 1];
      var prefix := ms[..|ms| - 1];
      ValueMapKeyOrder(corpus, prefix);
      ValueKeysStep(corpus, ms);
      var d := ValueMap(corpus, prefix);
      var u := corpus.fuzzyMatch(last.value, last.column);
      if d.Some? && last.column in corpus.fuzzyColumns && u.Some? {
        PutKeyOrder(d.value, Wildcard(last.value), Wildcard(EscapeQuotes(u.value)));
      }
    }
  }

  /** When several matches share a key `%value%`, the last of them supplies
      the replacement: each assignment `replace_dict[...] = ...` overrides the
      earlier ones. */
  lemma {:induction false} ValueMapLastWins(corpus: Corpus, ms: seq<LikeMatch>)
    ensures var o := ValueMap(corpus, ms);
            o.Some? ==> forall i | 0 <= i < |ms| && ms[i].column in corpus.fuzzyColumns && LastOfKey(corpus, ms, i) ::
                          LastGrounded(corpus, ms, i, o.value)
  {
    if |ms| > 0 {
      var last := ms[|ms| - 1];
      var prefix := ms[..|ms| - 1];
      ValueMapLastWins(corpus, prefix);
      var d := ValueMap(corpus, prefix);
      if d.Some? {
        if last.column !in corpus.fuzzyColumns {
          LastGroundingKept(corpus, ms, d.value);
        } else if corpus.fuzzyMatch(last.value, last.column).Some? {
          LastGroundingPut(corpus, ms, d.value);
        }
      }
    }
  }

  /** The first-occurrence order of the keys grows by the key of the last
      match exactly when it is on a categorical column and not seen before. */
  lemma ValueKeysStep(corpus: Corpus, ms: seq<LikeMatch>)
    requires |ms| > 0
    ensures var f := FirstOccurrences(ValueKeys(corpus, ms[..|ms| - 1]));
            var last := ms[|ms| - 1];
            FirstOccurrences(ValueKeys(corpus, ms))
            == if last.column in corpus.fuzzyColumns && Wildcard(last.value) !in f then f + [Wildcard(last.value)] else f
  {
    var prefix := ms[..|ms| - 1];
    if ms[|ms| - 1].column !in corpus.fuzzyColumns {
      assert ValueKeys(corpus, ms) == ValueKeys(corpus, prefix);
    } else {
      var u := ValueKeys(corpus, ms);
      assert u[..|u| - 1] == ValueKeys(corpus, prefix);
    }
  }

  /** Match `i` is the last match on a categorical column with its key `%value%`. */
  predicate LastOfKey(corpus: Corpus, ms: seq<LikeMatch>, i: int)
    requires 0 <= i < |ms|
  {
    forall j | i < j < |ms| :: ms[j].column in corpus.fuzzyColumns ==> Wildcard(ms[j].value) != Wildcard(ms[i].value)
  }

  /** The dict maps the key of match `i` to the grounding of match `i`. */
  predicate LastGrounded(corpus: Corpus, ms: seq<LikeMatch>, i: int, d: Dict)
    requires 0 <= i < |ms|
  {
    var g := Get(d, Wildcard(ms[i].value));
    g.Some? && GroundedAt(corpus, ms, i, Wildcard(ms[i].value), g.value)
  }

  /** A match on another column leaves the groundings of the earlier matches. */
  lemma LastGroundingKept(corpus: Corpus, ms: seq<LikeMatch>, d: Dict)
    requires |ms| > 0 && ms[|ms| - 1].column !in corpus.fuzzyColumns
    requires var prefix := ms[..|ms| - 1];
             forall i | 0 <= i < |prefix| && prefix[i].column in corpus.fuzzyColumns && LastOfKey(corpus, prefix, i) ::
               LastGrounded(corpus, prefix, i, d)
    ensures forall i | 0 <= i < |ms| && ms[i].column in corpus.fuzzyColumns && LastOfKey(corpus, ms, i) ::
              LastGrounded(corpus, ms, i, d)
  {
    var prefix := ms[..|ms| - 1];
    forall i | 0 <= i < |ms| && ms[i].column in corpus.fuzzyColumns && LastOfKey(corpus, ms, i)
      ensures LastGrounded(corpus, ms, i, d)
    {
      assert i < |prefix| && prefix[i] == ms[i];
      assert LastOfKey(corpus, prefix, i) by {
        forall j | i < j < |prefix| ensures prefix[j].column in corpus.fuzzyColumns ==> Wildcard(prefix[j].value) != Wildcard(prefix[i].value) {
          assert prefix[j] == ms[j];
        }
      }
      assert LastGrounded(corpus, prefix, i, d);
    }
  }

  /** A grounded match on a categorical column overrides the earlier matches
      with its key and leaves the others. */
  lemma LastGroundingPut(corpus: Corpus, ms: seq<LikeMatch>, d: Dict)
    requires |ms| > 0
    requires var last := ms[|ms| - 1];
             last.column in corpus.fuzzyColumns && corpus.fuzzyMatch(last.value, last.column).Some?
    requires var prefix := ms[..|ms| - 1];
             forall i | 0 <= i < |prefix| && prefix[i].column in corpus.fuzzyColumns && LastOfKey(corpus, prefix, i) ::
               LastGrounded(corpus, prefix, i, d)
    ensures var last := ms[|ms| - 1];
            var d' := Put(d, Wildcard(last.value), Wildcard(EscapeQuotes(corpus.fuzzyMatch(last.value, last.column).value)));
            forall i | 0 <= i < |ms| && ms[i].column in corpus.fuzzyColumns && LastOfKey(corpus, ms, i) ::
              LastGrounded(corpus, ms, i, d')
  {
    var prefix := ms[..|ms| - 1];
    var last := ms[|ms| - 1];
    var k := Wildcard(last.value);
    var d' := Put(d, k, Wildcard(EscapeQuotes(corpus.fuzzyMatch(last.value, last.column).value)));
    forall i | 0 <= i < |ms| && ms[i].column in corpus.fuzzyColumns && LastOfKey(corpus, ms, i)
      ensures LastGrounded(corpus, ms, i, d')
    {
      if i < |prefix| {
        assert prefix[i] == ms[i];
        assert Wildcard(ms[i].value) != k;
        assert LastOfKey(corpus, prefix, i) by {
          forall j | i < j < |prefix| ensures prefix[j].column in corpus.fuzzyColumns ==> Wildcard(prefix[j].value) != Wildcard(prefix[i].value) {
            assert prefix[j] == ms[j];
          }
        }
        assert LastGrounded(corpus, prefix, i, d);
      }
    }
  }

  /** An item of `replace_dict` that some LIKE match grounds. */
  predicate GroundedItem(corpus: Corpus, ms: seq<LikeMatch>, item: (string, string))
  {
    exists i | 0 <= i < |ms| :: GroundedAt(corpus, ms, i, item.0, item.1)
  }

  lemma GroundedExtend(corpus: Corpus, ms: seq<LikeMatch>, prefix: seq<LikeMatch>, d: Dict)
    requires |ms| > 0 && prefix == ms[..|ms| - 1]
    requires forall j | 0 <= j < |d| :: GroundedItem(corpus, prefix, d[j])
    ensures forall j | 0 <= j < |d| :: GroundedItem(corpus, ms, d[j])
  {
    forall j | 0 <= j < |d|
      ensures GroundedItem(corpus, ms, d[j])
    {
      var i :| 0 <= i < |prefix| && GroundedAt(corpus, prefix, i, d[j].0, d[j].1);
      assert prefix[i] == ms[i];
      assert GroundedAt(corpus, ms, i, d[j].0, d[j].1);
    }
  }

  // ---------------------------------------------------------------------------
  // The whole rewrite

  /** The query after each step of `rewrite_sql`; `None` when a step raises. */
  datatype Steps = Steps(retargeted: string, columns: Dict, grounded: string, values: Dict, result: string)

  /** `rewrite_sql` with `extract_columns_from_where` as the parameter
      `extract` (`None` when it raises). */
  function RewriteSteps(corpus: Corpus, extract: string -> Option<seq<string>>, sql: string): Option<Steps>
  {
    var retargeted := RetargetFrom(sql, corpus.name);
    var cols :- extract(retargeted);
    var cmap :- ColumnMap(corpus, cols);
    var grounded := ReplaceEach(retargeted, cmap);
    var vmap :- ValueMap(corpus, FindLikes(grounded, 0));
    Some(Steps(retargeted, cmap, grounded, vmap, ReplaceEach(grounded, vmap)))
  }

  /** `rewrite_sql` (lines 122-156): the query is retargeted at the corpus
      table, its unknown columns are grounded, and then the LIKE values found
      in the grounded query are. It raises exactly when the column extractor
      or one of the fuzzy matches does. */
  function RewriteSql(corpus: Corpus, extract: string -> Option<seq<string>>, sql: string): (o: Option<string>)
    ensures extract(RetargetFrom(sql, corpus.name)).None? ==> o.None?
    ensures o.Some? ==> var cols := extract(RetargetFrom(sql, corpus.name)).value;
                        forall i | 0 <= i < |cols| :: Unknown(corpus, cols[i]) ==>
                          corpus.fuzzyMatch(cols[i], ColumnDomain).Some?
    ensures var s := RetargetFrom(sql, corpus.name);
            o.None? <==> || extract(s).None?
                         || ColumnMap(corpus, extract(s).value).None?
                         || ValueMap(corpus, FindLikes(ReplaceEach(s, ColumnMap(corpus, extract(s).value).value), 0)).None?
    ensures o.Some? ==>
              var s := RetargetFrom(sql, corpus.name);
              var grounded := ReplaceEach(s, ColumnMap(corpus, extract(s).value).value);
              o.value == ReplaceEach(grounded, ValueMap(corpus, FindLikes(grounded, 0)).value)
  {
    var steps := RewriteSteps(corpus, extract, sql);
    if steps.None? then None else Some(steps.value.result)
  }

  /** Every extracted column is a column of the corpus. */
  predicate ColumnsKnown(corpus: Corpus, cols: seq<string>)
  {
    forall i | 0 <= i < |cols| :: !Unknown(corpus, cols[i])
  }

  /** Every LIKE value on a categorical column is already the escaped form of
      its own fuzzy match. */
  predicate ValuesGrounded(corpus: Corpus, ms: seq<LikeMatch>)
  {
    forall i | 0 <= i < |ms| :: ms[i].column in corpus.fuzzyColumns ==>
      && corpus.fuzzyMatch(ms[i].value, ms[i].column).Some?
      && EscapeQuotes(corpus.fuzzyMatch(ms[i].value, ms[i].column).value) == ms[i].value
  }

  /** A query that is already grounded is only retargeted at the corpus table. */
  lemma GroundedQueryUnchanged(corpus: Corpus, extract: string -> Option<seq<string>>, sql: string)
    requires extract(RetargetFrom(sql, corpus.name)).Some?
    requires ColumnsKnown(corpus, extract(RetargetFrom(sql, corpus.name)).value)
    requires ValuesGrounded(corpus, FindLikes(RetargetFrom(sql, corpus.name), 0))
    ensures RewriteSql(corpus, extract, sql) == Some(RetargetFrom(sql, corpus.name))
  {
    var s := RetargetFrom(sql, corpus.name);
    var cols := extract(s).value;
    var cmap := ColumnMap(corpus, cols);
    assert cmap.Some?;
    assert Keys(cmap.value) == {};
    EmptyKeys(cmap.value);
    assert ReplaceEach(s, cmap.value) == s;
    var ms := FindLikes(s, 0);
    var vmap := ValueMap(corpus, ms);
    assert vmap.Some?;
    forall j | 0 <= j < |vmap.value| ensures vmap.value[j].0 == vmap.value[j].1 && |vmap.value[j].0| > 0 {
      var i :| 0 <= i < |ms| && GroundedAt(corpus, ms, i, vmap.value[j].0, vmap.value[j].1);
    }
    ReplaceEachIdentity(s, vmap.value);
  }

  lemma EmptyKeys(d: Dict)
    requires Keys(d) == {}
    ensures d == []
  {
  }
}
