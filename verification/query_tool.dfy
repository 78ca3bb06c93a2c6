/** `QueryTool` (llm4crs/query/query_tool.py): the tool an LLM agent calls
    with a SQL query over the item corpus. `run` rewrites the query, executes
    it, and truncates the result to the token budget. */
module QueryTool {
  import opened Outcomes
  import opened Records
  import opened Sampling
  import opened Truncation
  import opened Rewrite

  /** The reply when execution or truncation raises (spelling as in the source). */
  const NotFound: string := "can not seach related information."

  /** The reply when the rewrite raises: the tool's diagnostic line. */
  function BrokenMessage(name: string): string
  {
    name + ": some thing went wrong in execution, the tool is broken for current input. \n"
  }

  /** A tool instance: its name, `result_max_token`, the corpus, and the
      collaborators it calls — the column extractor, the serialiser and
      tokenizer, the corpus query executor (`None` when it raises) and the
      random source behind `random.sample`. */
  datatype Tool = Tool(
    name: string,
    budget: int,
    corpus: Corpus,
    extract: string -> Option<seq<string>>,
    ser: Serialiser,
    execute: string -> Option<seq<Record>>,
    draw: (nat, nat) -> seq<nat>)

  /** What a call of `run` does: it returns a string or never returns. */
  datatype Reply = Returns(text: string) | NeverReturns

  /** The positions `random.sample` draws for a result of `n` records; only
      consulted when the result exceeds a non-negative cap. */
  function Picks(tool: Tool, n: nat): (picks: seq<nat>)
    requires IsSampler(tool.draw)
    ensures n > MaxRecordNum(tool.budget) >= 0 ==> IsDraw(picks, n, MaxRecordNum(tool.budget))
  {
    var cap := MaxRecordNum(tool.budget);
    if 0 <= cap < n then tool.draw(n, cap) else []
  }

  /** After capping, `rows` hold a record with no fields that exceeds its
      allowance: the loop of lines 70-94 never ends on it. */
  predicate Stuck(tool: Tool, rows: seq<Record>)
    requires IsSampler(tool.draw)
  {
    var c := CapRecords(rows, MaxRecordNum(tool.budget), Picks(tool, |rows|));
    && c.Some?
    && exists i | 0 <= i < |c.value.records| ::
         |c.value.records[i]| == 0 && !Fits(tool.ser, RecordAllowance(tool.budget, |c.value.records|), c.value.records[i])
  }

  /** The part of `run` after the corpus answered with `rows` (lines 51-110):
      cap, truncate and serialise them. */
  function Respond(tool: Tool, rows: seq<Record>): (reply: Reply)
    requires IsSampler(tool.draw)
    // a negative budget with a result larger than its cap makes random.sample raise
    ensures tool.budget < 0 && |rows| > MaxRecordNum(tool.budget) ==> reply == Returns(NotFound)
    // a result within the cap and the budget is returned whole
    ensures |rows| <= MaxRecordNum(tool.budget) && tool.ser.tokens(tool.ser.dumpList(rows)) <= tool.budget ==>
              reply == Returns(tool.ser.dumpList(rows))
    // a truncation that finishes is what the call returns, serialised (after the
    // emergency cut_list when that was needed); without cut_list it fits the budget
    ensures var t := Truncate(tool.ser, tool.budget, rows, Picks(tool, |rows|));
            t.Done? ==>
              && reply == Returns(tool.ser.dumpList(t.value.payload))
              && (!t.value.fallback ==> tool.ser.tokens(reply.text) <= tool.budget)
    // a truncation that raises (a negative sample size, or the ZeroDivisionError of
    // a zero-token field at lines 78 and 81) is caught and yields the default reply
    ensures Truncate(tool.ser, tool.budget, rows, Picks(tool, |rows|)).Raised? ==> reply == Returns(NotFound)
    // the call never returns exactly when the truncation spins, and only on a
    // record with no fields that exceeds its allowance
    ensures reply.NeverReturns? <==> Truncate(tool.ser, tool.budget, rows, Picks(tool, |rows|)).Diverges?
    ensures reply.NeverReturns? ==> Stuck(tool, rows)
  {
    match Truncate(tool.ser, tool.budget, rows, Picks(tool, |rows|))
    case Done(t) => Returns(tool.ser.dumpList(t.payload))
    case Raised(_) => Returns(NotFound)
    case Diverges =>
      var c := CapRecords(rows, MaxRecordNum(tool.budget), Picks(tool, |rows|));
      ShrinkAllDiverges(tool.ser, RecordAllowance(tool.budget, |c.value.records|), c.value.records);
      NeverReturns
  }

  /** The records the corpus returns for the rewritten query (line 38, the
      call of line 46 and the conversion of lines 47-50); `None` when the
      rewrite or the execution raises. */
  function Answered(tool: Tool, inputs: string): (rows: Option<seq<Record>>)
    ensures rows.Some? <==>
              var sql := RewriteSql(tool.corpus, tool.extract, inputs);
              sql.Some? && tool.execute(sql.value).Some?
  {
    var sql := RewriteSql(tool.corpus, tool.extract, inputs);
    if sql.None? then None else tool.execute(sql.value)
  }

  /** `run` (lines 31-120). */
  function Run(tool: Tool, inputs: string): (reply: Reply)
    requires IsSampler(tool.draw)
    // a rewrite that raises ends the call with the diagnostic line
    ensures RewriteSql(tool.corpus, tool.extract, inputs).None? ==> reply == Returns(BrokenMessage(tool.name))
    // a query the corpus cannot execute yields the default reply
    ensures var sql := RewriteSql(tool.corpus, tool.extract, inputs);
            sql.Some? && tool.execute(sql.value).None? ==> reply == Returns(NotFound)
    // a negative budget with any result larger than its cap makes random.sample raise
    ensures var rows := Answered(tool, inputs);
            rows.Some? && tool.budget < 0 && |rows.value| > MaxRecordNum(tool.budget) ==>
              reply == Returns(NotFound)
    // a result within the cap and the budget is returned whole
    ensures var rows := Answered(tool, inputs);
            && rows.Some? && |rows.value| <= MaxRecordNum(tool.budget)
            && tool.ser.tokens(tool.ser.dumpList(rows.value)) <= tool.budget ==>
              reply == Returns(tool.ser.dumpList(rows.value))
    // a truncation that finishes is what the call returns, serialised; without
    // the emergency cut_list it fits the budget
    ensures var rows := Answered(tool, inputs);
            rows.Some? ==>
              var t := Truncate(tool.ser, tool.budget, rows.value, Picks(tool, |rows.value|));
              t.Done? ==>
                && reply == Returns(tool.ser.dumpList(t.value.payload))
                && (!t.value.fallback ==> tool.ser.tokens(reply.text) <= tool.budget)
    // a truncation that raises is caught and yields the default reply
    ensures var rows := Answered(tool, inputs);
            rows.Some? && Truncate(tool.ser, tool.budget, rows.value, Picks(tool, |rows.value|)).Raised? ==>
              reply == Returns(NotFound)
    // the call never returns exactly when the truncation spins, and only on a
    // record with no fields that exceeds its allowance
    ensures reply.NeverReturns? <==>
              var rows := Answered(tool, inputs);
              rows.Some? && Truncate(tool.ser, tool.budget, rows.value, Picks(tool, |rows.value|)).Diverges?
    ensures reply.NeverReturns? ==> Answered(tool, inputs).Some? && Stuck(tool, Answered(tool, inputs).value)
  {
    if RewriteSql(tool.corpus, tool.extract, inputs).None? then Returns(BrokenMessage(tool.name))
    else
      var rows := Answered(tool, inputs);
      if rows.None? then Returns(NotFound)
      else Respond(tool, rows.value)
  }
}
