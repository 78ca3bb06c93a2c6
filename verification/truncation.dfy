/** The result truncation of `QueryTool.run` (llm4crs/query/query_tool.py
    lines 28 and 53-108): cap the number of records by sampling, pass the
    whole set through when it fits the token budget, and otherwise shrink
    every record word by word until it fits its share of the budget.

    All divisions here have a positive divisor, where Dafny's `/` and
    Python's `//` agree. */
module Truncation {
  import opened Outcomes
  import opened Text
  import opened Records
  import opened Sampling

  /** `_max_record_num` (line 28): the largest record count `c` with `5 * c <= budget`. */
  function MaxRecordNum(budget: int): (cap: int)
    ensures 5 * cap <= budget < 5 * cap + 5
  {
    budget / 5
  }

  /** `token_limit_per_record` (line 60): the largest share that fits the
      budget `n + 1` times, one share being held back for the list's own overhead. */
  function RecordAllowance(budget: int, n: nat): (limit: int)
    ensures limit * (n + 1) <= budget < (limit + 1) * (n + 1)
  {
    budget / (n + 1)
  }

  /** `overflow_token` (lines 65 and 94). */
  function Overflow(ser: Serialiser, limit: int, r: Record): int
  {
    ser.tokens(ser.dumpRecord(r)) - limit
  }

  predicate Fits(ser: Serialiser, limit: int, r: Record)
  {
    Overflow(ser, limit, r) <= 0
  }

  function Min(a: int, b: int): int
  {
    if a <= b then a else b
  }

  // ---------------------------------------------------------------------------
  // One field (lines 80-93)

  /** `cut_word_cnt` (line 81) for a field of `n` words whose share of the
      overflow is `cutOff` tokens out of its `tok` tokens. */
  function CutWordCount(n: nat, cutOff: nat, tok: nat): int
    requires tok > 0
  {
    Min(n * cutOff / tok, n - 3)
  }

  /** How many words a cut keeps: all but `c` for a long field, all but one otherwise. */
  function Kept(n: nat, c: int): int
  {
    if n > 10 then n - c else n - 1
  }

  datatype FieldCut = FieldCut(text: string, cut: bool)

  /** Joining a prefix of a text's words and appending "..." yields that prefix
      again as words, the last one carrying the "...". */
  lemma CutWords(text: string, kept: nat)
    requires 1 <= kept <= |Words(text)|
    ensures Words(Unwords(Words(text)[..kept]) + "...")
            == Words(text)[..kept - 1] + [Words(text)[kept - 1] + "..."]
  {
    WordsHaveNoSpace(text);
    var ws := Words(text)[..kept];
    assert forall k | 0 <= k < |ws| :: NoSpace(ws[k]) by {
      forall k | 0 <= k < |ws| ensures NoSpace(ws[k]) { assert ws[k] == Words(text)[k]; }
    }
    WordsOfUnwordsSuffix(ws, "...");
    assert ws[..kept - 1] == Words(text)[..kept - 1];
  }

  /** The word-cutting rule for one field: a field of more than 5 words whose
      cut count is at least 1 loses its last `c` words (more than 10 words) or
      its last word (6 to 10 words), keeps at least 3, and gets "..." glued to
      its last kept word; any other field keeps its text exactly. */
  function CutField(text: string, cutOff: nat, tok: nat): (fc: FieldCut)
    requires tok > 0
    ensures var ws := Words(text);
            var c := CutWordCount(|ws|, cutOff, tok);
            && (fc.cut <==> c >= 1 && |ws| > 5)
            && (!fc.cut ==> fc.text == text)
            && (fc.cut ==> 3 <= Kept(|ws|, c) < |ws|
                           && Words(fc.text) == ws[..Kept(|ws|, c) - 1] + [ws[Kept(|ws|, c) - 1] + "..."])
  {
    var ws := Words(text);
    var c := CutWordCount(|ws|, cutOff, tok);
    if c >= 1 && |ws| > 10 then
      CutWords(text, |ws| - c);
      FieldCut(Unwords(ws[..|ws| - c]) + "...", true)
    else if c >= 1 && |ws| > 5 then
      CutWords(text, |ws| - 1);
      FieldCut(Unwords(ws[..|ws| - 1]) + "...", true)
    else
      UnwordsWords(text);
      FieldCut(Unwords(ws), false)
  }

  // ---------------------------------------------------------------------------
  // One pass over a record (lines 71-93)

  function Sum(ts: seq<nat>): nat
  {
    if |ts| == 0 then 0 else ts[0] + Sum(ts[1..])
  }

  /** `key2token` (line 74): the tokens of every stringified value. */
  function FieldTokens(ser: Serialiser, r: Record): (ts: seq<nat>)
    ensures |ts| == |r|
    ensures forall i | 0 <= i < |r| :: ts[i] == ser.tokens(Str(r[i].value))
  {
    if |r| == 0 then [] else [ser.tokens(Str(r[0].value))] + FieldTokens(ser, r[1..])
  }

  predicate HasZeroTokenField(ser: Serialiser, r: Record)
  {
    exists i | 0 <= i < |r| :: ser.tokens(Str(r[i].value)) == 0
  }

  /** `cut_off_token[k]` (line 78): the field's share of the overflow,
      in proportion to its share of the record's tokens. */
  function Share(overflow: nat, tok: nat, total: nat): nat
    requires total > 0
  {
    overflow * tok / total
  }

  function SumShares(overflow: nat, ts: seq<nat>, total: nat): nat
    requires total > 0
  {
    if |ts| == 0 then 0 else Share(overflow, ts[0], total) + SumShares(overflow, ts[1..], total)
  }

  lemma {:induction false} SumSharesScaled(overflow: nat, ts: seq<nat>, total: nat)
    requires total > 0
    ensures SumShares(overflow, ts, total) * total <= overflow * Sum(ts)
    decreases |ts|
  {
    if |ts| > 0 {
      SumSharesScaled(overflow, ts[1..], total);
      var s := Share(overflow, ts[0], total);
      var rest := SumShares(overflow, ts[1..], total);
      ShareScaled(overflow, ts[0], total);
      Distribute(s, rest, total);
      Distribute(ts[0], Sum(ts[1..]), overflow);
      assert overflow * Sum(ts) == Sum(ts) * overflow;
    }
  }

  /** Floor division never rounds up. */
  lemma ShareScaled(overflow: nat, tok: nat, total: nat)
    requires total > 0
    ensures Share(overflow, tok, total) * total <= overflow * tok
  {
    var a := overflow * tok;
    assert a == (a / total) * total + a % total;
  }

  lemma Distribute(x: int, y: int, c: int)
    ensures (x + y) * c == x * c + y * c
    ensures c * (x + y) == x * c + y * c
  {
  }

  /** The proportional distribution never hands out more than the overflow:
      the shares of all fields add up to at most `overflow`. */
  lemma SharesWithinOverflow(overflow: nat, ts: seq<nat>)
    requires Sum(ts) > 0
    ensures SumShares(overflow, ts, Sum(ts)) <= overflow
  {
    SumSharesScaled(overflow, ts, Sum(ts));
  }

  /** What one pass does to a value: it becomes the string `str(v)`,
      either unchanged or cut from more than 5 words to fewer words, at least 3. */
  predicate CutOrKept(v: Value, v': Value)
  {
    && v'.Text?
    && (v'.s == Str(v) || (3 <= WordCount(v') < WordCount(v) && 5 < WordCount(v)))
  }

  datatype PassResult = PassResult(record: Record, cutLast: bool)

  /** A token count is at most the sum of all of them. */
  lemma {:induction false} SumAtLeast(ts: seq<nat>, i: nat)
    requires i < |ts|
    ensures ts[i] <= Sum(ts)
    decreases i
  {
    if i > 0 {
      SumAtLeast(ts[1..], i - 1);
    }
  }

  /** How field `i` of `r` is cut in a pass with the given overflow: its
      share of the overflow (line 78) decides its cut by `CutField` (lines 80-93). */
  function FieldCutAt(ser: Serialiser, r: Record, overflow: nat, i: nat): FieldCut
    requires i < |r| && !HasZeroTokenField(ser, r)
  {
    var ts := FieldTokens(ser, r);
    SumAtLeast(ts, i);
    CutField(Str(r[i].value), Share(overflow, ts[i], Sum(ts)), ts[i])
  }

  /** One pass of the while loop: every value is stringified, the overflow is
      shared out, every field is cut by `CutField`; `cutLast` is the flag of
      the LAST field only, as `_cut_last` is overwritten per field (lines 85-91).
      `None` is the ZeroDivisionError of line 78 or 81. */
  function Pass(ser: Serialiser, r: Record, overflow: nat): (p: Option<PassResult>)
    ensures p.None? <==> HasZeroTokenField(ser, r)
    ensures p.Some? ==> SameKeys(r, p.value.record)
    ensures p.Some? ==> forall i | 0 <= i < |r| ::
              p.value.record[i] == Field(r[i].key, Text(FieldCutAt(ser, r, overflow, i).text))
    ensures p.Some? ==> forall i | 0 <= i < |r| :: CutOrKept(r[i].value, p.value.record[i].value)
    ensures p.Some? ==> (p.value.cutLast <==> |r| == 0 || FieldCutAt(ser, r, overflow, |r| - 1).cut)
    ensures p.Some? ==> (p.value.cutLast <==>
              |r| == 0 || WordCount(p.value.record[|r| - 1].value) < WordCount(r[|r| - 1].value))
  {
    if HasZeroTokenField(ser, r) then None
    else
      var r' := seq(|r|, i requires 0 <= i < |r| => Field(r[i].key, Text(FieldCutAt(ser, r, overflow, i).text)));
      Some(PassResult(r', |r| == 0 || FieldCutAt(ser, r, overflow, |r| - 1).cut))
  }

  // ---------------------------------------------------------------------------
  // The shrink loop for one record (lines 65-95)

  /** The record the loop ends with, the number of passes it made, and the
      record the final pass started from (the record itself when no pass ran). */
  datatype Shrunk = Shrunk(record: Record, passes: nat, prev: Record)

  function LastWordCount(r: Record): nat
  {
    if |r| == 0 then 0 else WordCount(r[|r| - 1].value)
  }

  /** The most passes the loop can make on `r`: every pass that continues the
      loop cut the last field, which needs more than 5 words and removes at least one. */
  function PassBound(r: Record): nat
  {
    if LastWordCount(r) <= 5 then 1 else LastWordCount(r) - 4
  }

  /** `r'` has the keys of `r` in the same order and no value with more words than before. */
  predicate NoLonger(r: Record, r': Record)
  {
    && SameKeys(r, r')
    && forall i | 0 <= i < |r| :: WordCount(r'[i].value) <= WordCount(r[i].value)
  }

  lemma PassIsNoLonger(r: Record, r': Record)
    requires SameKeys(r, r')
    requires forall i | 0 <= i < |r| :: CutOrKept(r[i].value, r'[i].value)
    ensures NoLonger(r, r') && AllText(r')
  {
    forall i | 0 <= i < |r| ensures r'[i].value.Text? && WordCount(r'[i].value) <= WordCount(r[i].value) {
      assert CutOrKept(r[i].value, r'[i].value);
    }
  }

  lemma NoLongerTransitive(r: Record, r': Record, r'': Record)
    requires NoLonger(r, r') && NoLonger(r', r'')
    ensures NoLonger(r, r'')
  {
  }

  /** The while loop of lines 70-94 started on `record` with `_cut_last = True`.
      A record within its allowance comes back exactly as it was; otherwise
      every field keeps its key, becomes a string and never gains words, and
      the loop ends within `PassBound` passes (when it ends is `ShrinkStops`).
      A record without
      fields that overflows never leaves the loop (`Diverges`); a zero-token
      field raises. */
  function Shrink(ser: Serialiser, limit: int, r: Record): (o: Outcome<Shrunk>)
    ensures Fits(ser, limit, r) ==> o == Done(Shrunk(r, 0, r))
    ensures o.Diverges? <==> !Fits(ser, limit, r) && |r| == 0
    ensures o.Raised? ==> o.failure == ZeroTokenField && !Fits(ser, limit, r)
    ensures !Fits(ser, limit, r) && HasZeroTokenField(ser, r) ==> o.Raised?
    ensures o.Done? ==> NoLonger(r, o.value.record)
    ensures o.Done? && !Fits(ser, limit, r) ==> AllText(o.value.record) && 1 <= o.value.passes <= PassBound(r)
    decreases LastWordCount(r)
  {
    if Fits(ser, limit, r) then Done(Shrunk(r, 0, r))
    else if |r| == 0 then Diverges
    else
      var p := Pass(ser, r, Overflow(ser, limit, r));
      if p.None? then Raised(ZeroTokenField)
      else
        PassIsNoLonger(r, p.value.record);
        if !p.value.cutLast then Done(Shrunk(p.value.record, 1, r))
        else
          var rest := Shrink(ser, limit, p.value.record);
          if rest.Done? then
            NoLongerTransitive(r, p.value.record, rest.value.record);
            var prev := if rest.value.passes == 0 then r else rest.value.prev;
            Done(Shrunk(rest.value.record, rest.value.passes + 1, prev))
          else rest
  }

  /** The loop condition of line 70 fails after the pass from `s.prev`: that
      pass started over the allowance and left `s.record`, which fits or
      whose last field was not cut. */
  predicate EndsLoop(ser: Serialiser, limit: int, s: Shrunk)
  {
    && !Fits(ser, limit, s.prev)
    && var last := Pass(ser, s.prev, Overflow(ser, limit, s.prev));
       && last.Some? && last.value.record == s.record
       && (Fits(ser, limit, s.record) || !last.value.cutLast)
  }

  /** `q` is where the loop of lines 70-94 stands after `k` passes from `r`:
      each of them started over the allowance and cut the last field, so the
      loop went on. */
  predicate Reaches(ser: Serialiser, limit: int, r: Record, k: nat, q: Record)
    decreases k
  {
    if k == 0 then q == r
    else
      && !Fits(ser, limit, r)
      && var p := Pass(ser, r, Overflow(ser, limit, r));
         && p.Some? && p.value.cutLast
         && Reaches(ser, limit, p.value.record, k - 1, q)
  }

  /** The loop ends only when its condition fails, after the passes that led
      to the record the final pass started from; a single pass starts from
      the record itself. */
  lemma {:induction false} ShrinkStops(ser: Serialiser, limit: int, r: Record)
    ensures var o := Shrink(ser, limit, r);
            o.Done? && !Fits(ser, limit, r) ==> EndsLoop(ser, limit, o.value)
    ensures var o := Shrink(ser, limit, r);
            o.Done? && o.value.passes == 1 ==> o.value.prev == r
    decreases LastWordCount(r)
  {
    if !Fits(ser, limit, r) && |r| > 0 {
      var p := Pass(ser, r, Overflow(ser, limit, r));
      if p.Some? && p.value.cutLast {
        ShrinkStops(ser, limit, p.value.record);
      }
    }
  }

  /** One more pass that goes on extends the way the loop went: if the rest
      of the loop went from the record `p` left to `rest.prev`, the loop went
      there from `r`, one pass further. */
  lemma ReachesStep(ser: Serialiser, limit: int, r: Record, p: PassResult, rest: Shrunk, s: Shrunk)
    requires !Fits(ser, limit, r)
    requires Pass(ser, r, Overflow(ser, limit, r)) == Some(p) && p.cutLast
    requires rest.passes >= 1 && Reaches(ser, limit, p.record, rest.passes - 1, rest.prev)
    requires s.passes == rest.passes + 1 && s.prev == rest.prev
    ensures Reaches(ser, limit, r, s.passes - 1, s.prev)
  {
    assert s.passes - 1 - 1 == rest.passes - 1;
  }

  /** A loop of more than one pass began with a pass that cut the last field
      of a record still over the allowance, and went on from there. */
  lemma ShrinkUnfold(ser: Serialiser, limit: int, r: Record, s: Shrunk)
    requires Shrink(ser, limit, r) == Done(s) && !Fits(ser, limit, r) && s.passes > 1
    ensures var p := Pass(ser, r, Overflow(ser, limit, r));
            && p.Some? && p.value.cutLast && !Fits(ser, limit, p.value.record)
            && var rest := Shrink(ser, limit, p.value.record);
               && rest.Done? && rest.value.passes + 1 == s.passes && rest.value.prev == s.prev
  {
  }

  /** The record the final pass started from is the one the loop reached
      after all the other passes. */
  lemma {:induction false} ShrinkReaches(ser: Serialiser, limit: int, r: Record, s: Shrunk)
    requires Shrink(ser, limit, r) == Done(s) && !Fits(ser, limit, r)
    ensures s.passes >= 1 && Reaches(ser, limit, r, s.passes - 1, s.prev)
    decreases LastWordCount(r), 1
  {
    if s.passes == 1 {
      ShrinkStops(ser, limit, r);
      assert Reaches(ser, limit, r, 0, r);
    } else {
      ShrinkReachesOnward(ser, limit, r, s);
    }
  }

  /** The case of more than one pass: the first pass goes on, and the rest of
      the loop reaches `s.prev` from the record it left. */
  lemma {:induction false} ShrinkReachesOnward(ser: Serialiser, limit: int, r: Record, s: Shrunk)
    requires Shrink(ser, limit, r) == Done(s) && !Fits(ser, limit, r) && s.passes > 1
    ensures Reaches(ser, limit, r, s.passes - 1, s.prev)
    decreases LastWordCount(r), 0
  {
    ShrinkUnfold(ser, limit, r, s);
    var p := Pass(ser, r, Overflow(ser, limit, r)).value;
    var rest := Shrink(ser, limit, p.record).value;
    ShrinkReaches(ser, limit, p.record, rest);
    ReachesStep(ser, limit, r, p, rest, s);
  }

  /** A cut never empties a non-empty field: an uncut field keeps its text and
      a cut one keeps at least 3 words. */
  lemma CutFieldNonEmpty(text: string, cutOff: nat, tok: nat)
    requires tok > 0 && |text| > 0
    ensures |CutField(text, cutOff, tok).text| > 0
  {
    var fc := CutField(text, cutOff, tok);
    if fc.cut {
      assert |Words(fc.text)| >= 3;
      assert |Words("")| == 1;
    }
  }

  /** Every field's stringified value is non-empty. */
  predicate NoEmptyValue(r: Record)
  {
    forall i | 0 <= i < |r| :: |Str(r[i].value)| > 0
  }

  /** The tokenizer counts at least one token in every non-empty text. */
  ghost predicate CountsNonEmpty(ser: Serialiser)
  {
    forall s: string | |s| > 0 :: ser.tokens(s) > 0
  }

  /** With a tokenizer that counts every non-empty text, a record with fields,
      none of them empty, always leaves the loop: no pass divides by zero and
      the record never runs out of fields. */
  lemma {:induction false} ShrinkFinishes(ser: Serialiser, limit: int, r: Record)
    requires CountsNonEmpty(ser)
    requires |r| > 0 && NoEmptyValue(r)
    ensures Shrink(ser, limit, r).Done?
    decreases LastWordCount(r)
  {
    if !Fits(ser, limit, r) {
      assert !HasZeroTokenField(ser, r) by {
        forall i | 0 <= i < |r| ensures ser.tokens(Str(r[i].value)) > 0 {
          assert |Str(r[i].value)| > 0;
        }
      }
      var p := Pass(ser, r, Overflow(ser, limit, r));
      if p.value.cutLast {
        var r' := p.value.record;
        forall i | 0 <= i < |r| ensures |Str(r'[i].value)| > 0 {
          var fc := FieldCutAt(ser, r, Overflow(ser, limit, r), i);
          assert r'[i].value == Text(fc.text);
          var ts := FieldTokens(ser, r);
          SumAtLeast(ts, i);
          CutFieldNonEmpty(Str(r[i].value), Share(Overflow(ser, limit, r), ts[i], Sum(ts)), ts[i]);
        }
        ShrinkFinishes(ser, limit, r');
      }
    }
  }

  /** The for loop of lines 64-95: the records are shrunk in order, and the
      first one that raises or spins decides the outcome (when it spins is
      `ShrinkAllDiverges`). */
  function ShrinkAll(ser: Serialiser, limit: int, rs: seq<Record>): (o: Outcome<seq<Record>>)
    ensures o.Done? <==> forall i | 0 <= i < |rs| :: Shrink(ser, limit, rs[i]).Done?
    ensures o.Done? ==> |o.value| == |rs|
    ensures o.Done? ==> forall i | 0 <= i < |rs| :: o.value[i] == Shrink(ser, limit, rs[i]).value.record
    ensures o.Raised? ==> o.failure == ZeroTokenField
  {
    if |rs| == 0 then Done([])
    else
      var first := Shrink(ser, limit, rs[0]);
      if first.Raised? then Raised(first.failure)
      else if first.Diverges? then Diverges
      else
        var rest := ShrinkAll(ser, limit, rs[1..]);
        if rest.Done? then Done([first.value.record] + rest.value)
        else rest
  }

  /** Record `i` is the first one the loop does not finish. */
  predicate FirstUnfinished(ser: Serialiser, limit: int, rs: seq<Record>, i: int)
  {
    && 0 <= i < |rs|
    && !Shrink(ser, limit, rs[i]).Done?
    && forall j | 0 <= j < i :: Shrink(ser, limit, rs[j]).Done?
  }

  /** The first record the loop does not finish decides the outcome: the
      loop raises iff that record raises, and spins iff it spins. */
  lemma {:induction false} ShrinkAllFirstFailure(ser: Serialiser, limit: int, rs: seq<Record>)
    ensures var o := ShrinkAll(ser, limit, rs);
            o.Raised? ==> exists i :: FirstUnfinished(ser, limit, rs, i) && Shrink(ser, limit, rs[i]).Raised?
    ensures var o := ShrinkAll(ser, limit, rs);
            o.Diverges? ==> exists i :: FirstUnfinished(ser, limit, rs, i) && Shrink(ser, limit, rs[i]).Diverges?
  {
    if |rs| > 0 && Shrink(ser, limit, rs[0]).Done? {
      var o := ShrinkAll(ser, limit, rs[1..]);
      ShrinkAllFirstFailure(ser, limit, rs[1..]);
      if !o.Done? {
        var j :| FirstUnfinished(ser, limit, rs[1..], j)
                 && (o.Raised? ==> Shrink(ser, limit, rs[1..][j]).Raised?)
                 && (o.Diverges? ==> Shrink(ser, limit, rs[1..][j]).Diverges?);
        assert rs[j + 1] == rs[1..][j];
        assert FirstUnfinished(ser, limit, rs, j + 1) by {
          forall k | 0 <= k < j + 1 ensures Shrink(ser, limit, rs[k]).Done? {
            if k > 0 { assert rs[k] == rs[1..][k - 1]; }
          }
        }
      }
    }
  }

  /** The loop spins only on a record without fields that is over its allowance. */
  lemma {:induction false} ShrinkAllDiverges(ser: Serialiser, limit: int, rs: seq<Record>)
    ensures ShrinkAll(ser, limit, rs).Diverges? ==> exists i | 0 <= i < |rs| :: |rs[i]| == 0 && !Fits(ser, limit, rs[i])
  {
    if |rs| > 0 && Shrink(ser, limit, rs[0]).Done? && ShrinkAll(ser, limit, rs[1..]).Diverges? {
      ShrinkAllDiverges(ser, limit, rs[1..]);
      var j :| 0 <= j < |rs| - 1 && |rs[1..][j]| == 0 && !Fits(ser, limit, rs[1..][j]);
      assert rs[j + 1] == rs[1..][j];
    }
  }

  // ---------------------------------------------------------------------------
  // The whole truncation (lines 53-108)

  datatype Capped = Capped(records: seq<Record>, sampled: bool)

  /** Lines 53-56: more records than the cap are replaced by a sample of
      exactly `cap` of them; `random.sample` raises for a negative cap. */
  function CapRecords(records: seq<Record>, cap: int, picks: seq<nat>): (o: Option<Capped>)
    requires |records| > cap >= 0 ==> IsDraw(picks, |records|, cap)
    ensures o.None? <==> |records| > cap && cap < 0
    ensures o.Some? ==> (o.value.sampled <==> |records| > cap)
    ensures o.Some? ==> |o.value.records| <= cap
    ensures o.Some? && !o.value.sampled ==> o.value.records == records
    ensures o.Some? && o.value.sampled ==>
              |o.value.records| == cap && multiset(o.value.records) <= multiset(records)
  {
    if |records| <= cap then Some(Capped(records, false))
    else if cap < 0 then None
    else
      SampleIsSubMultiset(records, picks);
      Some(Capped(Sample(records, picks), true))
  }

  /** The truncated result: the records that are serialised as the output,
      whether sampling happened (`_any_cut`), and whether the emergency
      `cut_list` of line 103 was applied. */
  datatype Truncated = Truncated(payload: seq<Record>, sampled: bool, fallback: bool)

  /** Lines 53-108 as a function of the records, the budget and the positions
      the random source draws. */
  function Truncate(ser: Serialiser, budget: int, records: seq<Record>, picks: seq<nat>): (o: Outcome<Truncated>)
    requires |records| > MaxRecordNum(budget) >= 0 ==> IsDraw(picks, |records|, MaxRecordNum(budget))
    ensures o == Raised(NegativeSampleSize) <==> budget < 0 && |records| > MaxRecordNum(budget)
    ensures o.Done? ==> (o.value.sampled <==> |records| > MaxRecordNum(budget))
    ensures o.Done? ==> o.value.fallback || ser.tokens(ser.dumpList(o.value.payload)) <= budget
    ensures o.Done? && !o.value.fallback ==> |o.value.payload| <= MaxRecordNum(budget)
    ensures var c := CapRecords(records, MaxRecordNum(budget), picks);
            c.Some? && ser.tokens(ser.dumpList(c.value.records)) <= budget ==>
              o == Done(Truncated(c.value.records, c.value.sampled, false))
    ensures var c := CapRecords(records, MaxRecordNum(budget), picks);
            c.Some? && ser.tokens(ser.dumpList(c.value.records)) > budget && o.Done? && !o.value.fallback ==>
              var limit := RecordAllowance(budget, |c.value.records|);
              && |o.value.payload| == |c.value.records|
              && forall i | 0 <= i < |c.value.records| ::
                   && SameKeys(c.value.records[i], o.value.payload[i])
                   && (Fits(ser, limit, c.value.records[i]) ==> o.value.payload[i] == c.value.records[i])
    ensures o.Raised? ==> o.failure == NegativeSampleSize || o.failure == ZeroTokenField
    ensures var c := CapRecords(records, MaxRecordNum(budget), picks);
            c.Some? && ser.tokens(ser.dumpList(c.value.records)) > budget ==>
              var shrunk := ShrinkAll(ser, RecordAllowance(budget, |c.value.records|), c.value.records);
              && (o.Done? <==> shrunk.Done?)
              && (o.Raised? <==> shrunk.Raised?)
              && (o.Diverges? <==> shrunk.Diverges?)
              && (o.Done? ==> (o.value.fallback <==> ser.tokens(ser.dumpList(shrunk.value)) > budget))
              && (o.Done? && !o.value.fallback ==> o.value.payload == shrunk.value)
    ensures var c := CapRecords(records, MaxRecordNum(budget), picks);
            c.Some? && o.Done? && o.value.fallback ==>
              var limit := RecordAllowance(budget, |c.value.records|);
              && ShrinkAll(ser, limit, c.value.records).Done?
              && ser.tokens(ser.dumpList(ShrinkAll(ser, limit, c.value.records).value)) > budget
              && o.value.payload == ser.cutList(ShrinkAll(ser, limit, c.value.records).value, budget)
  {
    var c := CapRecords(records, MaxRecordNum(budget), picks);
    if c.None? then Raised(NegativeSampleSize)
    else
      var res := c.value.records;
      if ser.tokens(ser.dumpList(res)) <= budget then Done(Truncated(res, c.value.sampled, false))
      else
        var limit := RecordAllowance(budget, |res|);
        var shrunk := ShrinkAll(ser, limit, res);
        if shrunk.Raised? then Raised(shrunk.failure)
        else if shrunk.Diverges? then Diverges
        else if ser.tokens(ser.dumpList(shrunk.value)) > budget then
          Done(Truncated(ser.cutList(shrunk.value, budget), c.value.sampled, true))
        else Done(Truncated(shrunk.value, c.value.sampled, false))
  }
}
