# QueryTool of LLM4CRS, modelled in Dafny

`QueryTool` is the tool through which the conversational recommender's LLM
agent looks up items: it takes a SQL query written by the agent, rewrites it
so that it fits the item corpus, runs it, and shrinks the result so that it
fits a token budget (`result_max_token`) before handing it back as JSON text.

The model covers the three parts of the tool:

- **Rewriting** (`rewrite_sql`). The FROM clause is retargeted at the corpus
  table with the regular expression `\bFROM\s+(\w+)\s+WHERE`, matched without
  regard to case. Module `SqlPatterns` is a positional scanner for it.
  Columns of the WHERE clause that the corpus does not have are grounded by
  fuzzy matching. Values of `col [NOT ]LIKE '%value%'` on categorical columns
  are grounded the same way: the fuzzy match is escaped for SQLite and put
  between wildcards. Each grounding is applied with Python's `str.replace`
  (module `Text`). This replacement acts on the whole query text, so a
  grounded column name is also replaced inside other words and literals
  (`Scenarios.ColumnGroundingHitsSubstrings`). The model keeps that
  behaviour.
- **Truncation** (the body of `run`):
  - A result with more records than `result_max_token // 5` is replaced by a
    random sample of that many records.
  - If the JSON text is still over budget, every record is shrunk on its own
    against a per-record allowance of `result_max_token // (n + 1)`. Each
    shrinking pass stringifies every value and spreads the record's overflow
    over its fields in proportion to their token counts. It then cuts words
    from the end of each field and marks the cut with `...`.
  - Passes repeat while the record overflows and the last field was cut.
  - If the shrunk list is still over budget, the external `cut_list` has the
    last word.
  - Module `Truncation` holds this part.
- **Failure paths** of `run`:
  - A rewrite that raises returns the tool's diagnostic line.
  - An execution or truncation that raises returns the default reply
    `can not seach related information.`, with the source's spelling.
  - A record with no fields that still exceeds its allowance makes the loop
    of lines 70-94 spin forever. This is modelled as `NeverReturns`.

Everything the tool calls and this model cannot see is a function-valued
parameter. That covers the tokenizer, `json.dumps`, `cut_list`,
`fuzzy_match`, `extract_columns_from_where`, the corpus query itself, and
the positions `random.sample` draws. Python's `//` is only ever applied to
positive divisors here, so it agrees with Dafny's `/`.

Modules: `Outcomes` (Option and the raise/diverge outcome), `Text`
(split/join/replace), `Records`, `Sampling`, `Truncation`, `SqlPatterns`,
`Rewrite`, `QueryTool`, `Scenarios`.

## Model

| member | source | states |
|---|---|---|
| Truncation.MaxRecordNum | llm4crs/query/query_tool.py:28 | the record cap is the largest `c` with `5c <= budget` (floor division by 5, also for a negative budget) |
| Truncation.RecordAllowance | llm4crs/query/query_tool.py:60 | the per-record allowance is the largest `l` with `l(n+1) <= budget` |
| Truncation.CapRecords | llm4crs/query/query_tool.py:53-56 | more records than the cap are sampled down to exactly `cap` records, forming a sub-multiset of the result; at most the cap are kept; a result within the cap is untouched; a negative cap with a larger result raises |
| Sampling.SampleIsSubMultiset | llm4crs/query/query_tool.py:56 | a sample at distinct positions takes no record more often than the result holds it |
| Truncation.FieldTokens | llm4crs/query/query_tool.py:73-75 | `key2token` has one count per field, the token count of the stringified value |
| Truncation.SharesWithinOverflow | llm4crs/query/query_tool.py:78 | the floored proportional shares of the overflow never add up to more than the overflow |
| Truncation.SumSharesScaled | llm4crs/query/query_tool.py:78 | the sum of the floored shares, times the total, is at most the overflow times the sum of the counts |
| Truncation.CutField | llm4crs/query/query_tool.py:80-93 | a field is cut iff it has more than 5 words and a positive cut count; an uncut field is unchanged; a cut field keeps between 3 words and one word fewer than it had, and its words are that prefix with `...` glued to the last one |
| Truncation.CutWords | llm4crs/query/query_tool.py:93 | joining a prefix of the words and appending `...` splits back into that prefix with the suffix on its last word |
| Truncation.Pass | llm4crs/query/query_tool.py:71-93 | a pass raises iff some field counts zero tokens (the ZeroDivisionError of lines 78 and 81); otherwise field `i` keeps its key and becomes the text `CutField` makes of its stringified value with the line-78 share `overflow * tokens_i // total` of the overflow; every value is either unchanged or cut to fewer (at least 3) words; `_cut_last` is the cut flag of the last field, which is set iff the last field lost words (and for a record without fields, where the loop's initial `True` stands) |
| Truncation.PassIsNoLonger | llm4crs/query/query_tool.py:71-93 | after a pass every value is text and no field has more words than before |
| Truncation.NoLongerTransitive | llm4crs/query/query_tool.py:70-94 | repeated passes never lengthen a field |
| Truncation.Shrink | llm4crs/query/query_tool.py:65-95 | a record within its allowance is kept as it is, after no pass; the loop spins iff an over-allowance record has no fields; it raises only for an over-allowance record, and always when a field counts zero tokens; a finished record keeps its keys with no field longer; if a pass ran, the values are text and between 1 and `PassBound` passes ran |
| Truncation.ShrinkStops | llm4crs/query/query_tool.py:70-94 | when the loop ends after a pass, the condition of line 70 failed: the final pass started from an over-allowance record and produced the returned record, which fits its allowance or whose last field was not cut; a single pass starts from the record itself |
| Truncation.ShrinkReaches | llm4crs/query/query_tool.py:70-94 | the record the final pass started from is where the loop stood after all the other passes: each of those started over the allowance and cut the last field, so the condition of line 70 held and the loop went on |
| Truncation.ShrinkFinishes | llm4crs/query/query_tool.py:70-94 | with a tokenizer that counts every non-empty text, a record with fields and no empty value always leaves the loop with a result: no pass divides by zero and the loop ends |
| Truncation.CutFieldNonEmpty | llm4crs/query/query_tool.py:80-93 | a cut never empties a non-empty field |
| Truncation.ShrinkAll | llm4crs/query/query_tool.py:64-95 | all records shrink iff each one does, and the list holds each record's shrunk form in order; the only exception is a zero-token field |
| Truncation.ShrinkAllFirstFailure | llm4crs/query/query_tool.py:64-95 | the for loop raises or spins on the first record whose shrinking raises or spins, every record before it having shrunk |
| Truncation.ShrinkAllDiverges | llm4crs/query/query_tool.py:64-95 | the for loop spins only if some record without fields is over its allowance |
| Truncation.Truncate | llm4crs/query/query_tool.py:53-108 | sampling raises iff the budget is negative and the result exceeds the cap; `_any_cut` is set iff sampling happened; without the `cut_list` fallback the output fits the budget and holds at most `cap` records; a capped result within budget passes through; shrinking keeps keys and leaves records within their allowance unchanged; over budget it finishes, raises or spins exactly as shrinking the capped records does; without the fallback its payload is the shrunk list, and the fallback `cut_list` of the shrunk list is taken iff that list is over budget; the only exceptions are the negative sample size and the zero-token field |
| Text.ReplaceIsSplitJoin | llm4crs/query/query_tool.py:140 | `s.replace(t, r)` equals `r.join(s.split(t))` |
| Text.ReplaceSelf | llm4crs/query/query_tool.py:154 | replacing a text by itself leaves the query unchanged |
| Text.ReplaceAbsent | llm4crs/query/query_tool.py:150 | replacing a text that does not occur leaves the string unchanged |
| Text.SplitJoinRoundTrip | llm4crs/query/query_tool.py:80-93 | `sep.join(s.split(sep))` gives `s` back |
| Text.UnwordsWords | llm4crs/query/query_tool.py:80-93 | joining the words of a field with spaces gives the field back |
| Text.WordsHaveNoSpace | llm4crs/query/query_tool.py:80 | no word from `split(" ")` contains a space |
| Text.WordsOfUnwordsSuffix | llm4crs/query/query_tool.py:93 | space-free words joined by spaces with a suffix glued on split back into those words with the suffix on the last |
| SqlPatterns.SpanFacts | llm4crs/query/query_tool.py:129 | a greedy `\s+`/`\w+` run consists of the class and stops at a character outside it |
| SqlPatterns.SpanExact | llm4crs/query/query_tool.py:129 | a run of the class followed by a character outside it is exactly what the greedy span finds |
| SqlPatterns.FromWhereAtSound | llm4crs/query/query_tool.py:129 | a match of the FROM pattern is a case-insensitive FROM, white space, a word, white space and WHERE, inside the string |
| SqlPatterns.FromClauseRecognised | llm4crs/query/query_tool.py:129 | every such clause is matched, with its own gaps and table word |
| SqlPatterns.CopiedUntil | llm4crs/query/query_tool.py:129 | text in which the pattern matches at no position is copied unchanged by the substitution |
| SqlPatterns.NoKeywordNoMatch | llm4crs/query/query_tool.py:129 | the pattern cannot match where no FROM keyword starts |
| SqlPatterns.NoFromUnchanged | llm4crs/query/query_tool.py:129 | a query with no FROM keyword is left unchanged by the substitution |
| SqlPatterns.FromClauseRetargeted | llm4crs/query/query_tool.py:129 | text before the first match of the pattern is copied, and the clause matched there is replaced as a whole |
| SqlPatterns.RetargetFirstClause | llm4crs/query/query_tool.py:129 | `re.sub` keeps the query up to its first match and turns that clause into `FROM <corpus> WHERE`, then goes on after it |
| SqlPatterns.RetargetWithoutMatch | llm4crs/query/query_tool.py:129 | a query the pattern matches nowhere is returned unchanged |
| SqlPatterns.SubstituteClause | llm4crs/query/query_tool.py:129 | a clause at a word boundary is replaced and the scan resumes after it |
| SqlPatterns.LikeAtSound | llm4crs/query/query_tool.py:143-144 | a LIKE match is a word of `[a-zA-Z0-9_]`, the operator with or without NOT, and a non-empty value free of `%` between `'%` and `%'`, found literally at the position |
| SqlPatterns.LikeRecognised | llm4crs/query/query_tool.py:143-144 | every such LIKE text is matched with its own column, value and NOT flag |
| SqlPatterns.OperatorAtRecognised | llm4crs/query/query_tool.py:143 | the operator form found is exactly the one written; the plain and the NOT form cannot both start at one position |
| SqlPatterns.FindLikesWellFormed | llm4crs/query/query_tool.py:144 | every match `re.findall` yields is a well-formed column and value |
| SqlPatterns.FindLikesSkips | llm4crs/query/query_tool.py:144 | positions where the pattern does not match add nothing to the matches |
| SqlPatterns.FindLikesFirst | llm4crs/query/query_tool.py:143-144 | the first `col [NOT ]LIKE '%value%'` text from a position on is the first match found, and the scan resumes right after it |
| SqlPatterns.FindLikesNone | llm4crs/query/query_tool.py:144 | a text where the pattern matches nowhere yields no matches |
| Rewrite.Put | llm4crs/query/query_tool.py:138 | assigning a dict key adds it to the keys and maps it to the new value; other keys keep their values; every item is an old one or the new one; a new key is appended at the end, an existing key keeps its position and the key order is unchanged |
| Rewrite.PutKeyOrder | llm4crs/query/query_tool.py:138 | the key order grows by the assigned key exactly when it is new |
| Rewrite.KeysListed | llm4crs/query/query_tool.py:139 | a key is in the dict iff `d.keys()` lists it |
| Rewrite.KeysAreLookedUp | llm4crs/query/query_tool.py:138 | a key is in the dict iff a lookup finds it |
| Rewrite.ColumnMap | llm4crs/query/query_tool.py:132-138 | grounding raises iff the fuzzy match of some unknown column raises; otherwise the keys are exactly the unknown columns, each mapped to its fuzzy match among the column names |
| Rewrite.ColumnMapLookup | llm4crs/query/query_tool.py:134-138 | a lookup in `col_replace_dict` finds an entry exactly for the extracted columns the corpus lacks, and that entry is the column's fuzzy match |
| Rewrite.ColumnMapKeyOrder | llm4crs/query/query_tool.py:135-138 | `col_replace_dict` lists the unknown columns in the order they are first extracted, each once |
| Rewrite.UnknownColumnsStep | llm4crs/query/query_tool.py:135-138 | the first-occurrence order grows by the next column exactly when it is unknown and not yet listed |
| Rewrite.ValueMap | llm4crs/query/query_tool.py:143-151 | grounding raises iff the fuzzy match of some value on a categorical column raises; otherwise the keys are exactly `%value%` for the matches on categorical columns, and every item maps such a key to the escaped fuzzy match of one of those matches between wildcards |
| Rewrite.ValueMapLastWins | llm4crs/query/query_tool.py:151 | when several matches share a key `%value%`, the replacement comes from the last of them on a categorical column |
| Rewrite.ValueMapKeyOrder | llm4crs/query/query_tool.py:146-151 | `replace_dict` lists the keys in the order the categorical matches first produce them, each once |
| Rewrite.ValueKeysStep | llm4crs/query/query_tool.py:146-151 | the first-occurrence order grows by the key of the next match exactly when it is on a categorical column and not yet listed |
| Rewrite.LastGroundingPut | llm4crs/query/query_tool.py:151 | a new assignment overrides the earlier matches with its key and leaves the groundings of the others |
| Rewrite.LastGroundingKept | llm4crs/query/query_tool.py:147-148 | a match on a column outside `fuzzy_engine` leaves every grounding as it was |
| Rewrite.EscapeQuotesRoundTrip | llm4crs/query/query_tool.py:150 | collapsing the doubled quotes of the escaped value gives the fuzzy match back |
| Rewrite.EscapeQuotesNoQuote | llm4crs/query/query_tool.py:150 | a value without quotes is not changed by escaping |
| Rewrite.ReplaceEachIdentity | llm4crs/query/query_tool.py:139-140 | applying replacements that map every non-empty key to itself leaves the query unchanged |
| Rewrite.ReplaceEachAppend | llm4crs/query/query_tool.py:153-154 | the replacements are applied in insertion order, the item inserted last acting on the outcome of all earlier ones (the loop of lines 139-140 is the same) |
| Rewrite.RewriteSql | llm4crs/query/query_tool.py:122-156 | the rewrite raises iff column extraction, the grounding of the columns or the grounding of the LIKE values raises, so a successful rewrite means every unknown extracted column had a fuzzy match; its result is the retargeted query with the column groundings applied and then the value groundings of the LIKE matches found in that grounded query |
| Rewrite.GroundedQueryUnchanged | llm4crs/query/query_tool.py:129-156 | a query whose columns are all known and whose LIKE values are already their own escaped fuzzy match is only retargeted at the corpus table |
| QueryTool.Picks | llm4crs/query/query_tool.py:54-56 | for a result over a non-negative cap the random source supplies a valid draw of `cap` distinct positions |
| QueryTool.Respond | llm4crs/query/query_tool.py:51-110 | for the records the corpus returned: a negative budget with a result over its cap gives the default reply; a result within cap and budget is returned whole as JSON; a truncation that finishes is returned as the JSON of its payload, which fits the budget unless `cut_list` was needed; a truncation that raises gives the default reply; the call never returns exactly when the truncation spins, which happens only on a field-less record over its allowance |
| QueryTool.Run | llm4crs/query/query_tool.py:31-120 | a failing rewrite returns the diagnostic line; a failing execution or a negative budget with a result over its cap returns the default reply; a result within cap and budget is returned whole as JSON; a truncation that finishes is returned as the JSON of its payload, the shrunk records or their `cut_list`, and without the `cut_list` fallback the returned text fits the budget; a truncation that raises (negative sample size, zero-token field) returns the default reply; the call never returns exactly when the executed result's truncation spins, which happens only on a field-less record over its allowance |
| Scenarios.ApostropheIsDoubled | llm4crs/query/query_tool.py:150 | `men's` is escaped to `men''s` |
| Scenarios.ColumnGroundingHitsSubstrings | llm4crs/query/query_tool.py:139-140 | grounding column `tag` as `tags` also turns the value `vintage` into `vintagse` |

## Left out

- Logging, the `info` text built alongside the output (it is only returned on a failed rewrite), and `buffer.track` are side effects, and the model assumes none of them raises. Two of them could: the `info` line of line 40 reads `item_corpus.categorical_col_values` inside the rewrite's `try`, so a failing read would make `run` return the diagnostic line; `buffer.track` at line 117 is outside every `try`, so a failing call would make `run` raise. Short of that, they do not change the reply.
- The tokenizer, `json.dumps`, `cut_list`, `fuzzy_match`, `extract_columns_from_where` and the corpus query are external. They are parameters specified only by their types. Exceptions from `json.dumps` or the tokenizer are not modelled.
- The `to_dict('records')` conversion of a data frame is not modelled. The executor parameter yields the list of records directly.
- The distribution of `random.sample` is not modelled, only that it draws distinct positions.
- `\w` covers ASCII letters, digits and `_` only; Python's Unicode word characters are not modelled. Case-insensitive matching of FROM and WHERE is exact, since none of their letters has a case variant outside ASCII.
- The corpus name is taken literally in the FROM replacement. Backslash escapes and group references in it, which `re.sub` would interpret, are not modelled.
- A non-string fuzzy match is modelled as the string `str()` gives for it.
- QueryTool.Run: after the `cut_list` fallback the reply is the JSON of what `cut_list` returned, and its size is unconstrained, because `cut_list` is external.
- Truncation.ShrinkFinishes: it promises termination only for tokenizers that count every non-empty text and for records without empty values. A record with an empty value makes the tokenizer count zero for that field, and the pass raises, as in the source.
