/** The three string primitives of Python that the query tool relies on:
    `str.split(sep)`, `sep.join(parts)` and `str.replace(target, replacement)`,
    with the laws that connect them. */
module Text {

  /** `t` occurs in `s` starting at position `i`. */
  predicate OccursAt(s: string, t: string, i: int)
  {
    0 <= i && i + |t| <= |s| && s[i..i + |t|] == t
  }

  predicate Occurs(s: string, t: string)
  {
    exists i | 0 <= i <= |s| :: OccursAt(s, t, i)
  }

  /** Python's `s.split(sep)` for a non-empty separator: the pieces between the
      non-overlapping occurrences of `sep`, found from the left. */
  function SplitOn(s: string, sep: string): (parts: seq<string>)
    requires |sep| > 0
    ensures |parts| >= 1
    decreases |s|
  {
    if |s| < |sep| then [s]
    else if s[..|sep|] == sep then [""] + SplitOn(s[|sep|..], sep)
    else
      var rest := SplitOn(s[1..], sep);
      [[s[0]] + rest[0]] + rest[1..]
  }

  /** Python's `sep.join(parts)`. */
  function JoinWith(parts: seq<string>, sep: string): string
  {
    if |parts| == 0 then ""
    else if |parts| == 1 then parts[0]
    else parts[0] + sep + JoinWith(parts[1..], sep)
  }

  /** Python's `s.replace(target, replacement)` for a non-empty target: every
      non-overlapping occurrence, found from the left, is replaced. */
  function ReplaceAll(s: string, target: string, replacement: string): string
    requires |target| > 0
    decreases |s|
  {
    if |s| < |target| then s
    else if s[..|target|] == target then replacement + ReplaceAll(s[|target|..], target, replacement)
    else [s[0]] + ReplaceAll(s[1..], target, replacement)
  }

  /** `replacement` after every character of `s`. */
  function Interleave(s: string, replacement: string): string
  {
    if |s| == 0 then "" else [s[0]] + replacement + Interleave(s[1..], replacement)
  }

  /** Python's `s.replace(target, replacement)` including the empty target,
      for which Python inserts `replacement` before every character and at the end. */
  function Replace(s: string, target: string, replacement: string): string
  {
    if |target| == 0 then replacement + Interleave(s, replacement)
    else ReplaceAll(s, target, replacement)
  }

  /** The words of a text: Python's `text.split(" ")`. */
  function Words(text: string): (ws: seq<string>)
    ensures |ws| >= 1
  {
    SplitOn(text, " ")
  }

  /** Python's `" ".join(ws)`. */
  function Unwords(ws: seq<string>): string
  {
    JoinWith(ws, " ")
  }

  predicate NoSpace(w: string)
  {
    forall i | 0 <= i < |w| :: w[i] != ' '
  }

  // ---------------------------------------------------------------------------
  // Laws of join

  lemma JoinWithConsEmpty(parts: seq<string>, sep: string)
    requires |parts| >= 1
    ensures JoinWith([""] + parts, sep) == sep + JoinWith(parts, sep)
  {
    assert ([""] + parts)[1..] == parts;
  }

  lemma JoinWithConsChar(c: char, parts: seq<string>, sep: string)
    requires |parts| >= 1
    ensures JoinWith([[c] + parts[0]] + parts[1..], sep) == [c] + JoinWith(parts, sep)
  {
    var ps := [[c] + parts[0]] + parts[1..];
    if |parts| > 1 {
      assert ps[1..] == parts[1..];
    }
  }

  // ---------------------------------------------------------------------------
  // replace is split-then-join, and split-then-join with the same separator is the identity

  /** Python's documented identity `s.replace(t, r) == r.join(s.split(t))`:
      the replacement touches exactly the occurrences that `split` cuts at. */
  lemma {:induction false} ReplaceIsSplitJoin(s: string, target: string, replacement: string)
    requires |target| > 0
    ensures ReplaceAll(s, target, replacement) == JoinWith(SplitOn(s, target), replacement)
    decreases |s|
  {
    if |s| < |target| {
    } else if s[..|target|] == target {
      ReplaceIsSplitJoin(s[|target|..], target, replacement);
      JoinWithConsEmpty(SplitOn(s[|target|..], target), replacement);
    } else {
      ReplaceIsSplitJoin(s[1..], target, replacement);
      JoinWithConsChar(s[0], SplitOn(s[1..], target), replacement);
    }
  }

  /** Replacing a text by itself changes nothing. */
  lemma {:induction false} ReplaceSelf(s: string, target: string)
    requires |target| > 0
    ensures ReplaceAll(s, target, target) == s
    decreases |s|
  {
    if |s| < |target| {
    } else if s[..|target|] == target {
      ReplaceSelf(s[|target|..], target);
      assert s == s[..|target|] + s[|target|..];
    } else {
      ReplaceSelf(s[1..], target);
      assert s == [s[0]] + s[1..];
    }
  }

  /** `sep.join(s.split(sep)) == s`. */
  lemma SplitJoinRoundTrip(s: string, sep: string)
    requires |sep| > 0
    ensures JoinWith(SplitOn(s, sep), sep) == s
  {
    ReplaceIsSplitJoin(s, sep, sep);
    ReplaceSelf(s, sep);
  }

  /** `" ".join(text.split(" ")) == text`: re-joining the words of a text gives the text back. */
  lemma UnwordsWords(text: string)
    ensures Unwords(Words(text)) == text
  {
    SplitJoinRoundTrip(text, " ");
  }

  /** A text in which the target never occurs is left as it is. */
  lemma {:induction false} ReplaceAbsent(s: string, target: string, replacement: string)
    requires |target| > 0
    requires !Occurs(s, target)
    ensures ReplaceAll(s, target, replacement) == s
    decreases |s|
  {
    if |s| < |target| {
    } else {
      assert !OccursAt(s, target, 0);
      assert !Occurs(s[1..], target) by {
        forall i | 0 <= i <= |s[1..]|
          ensures !OccursAt(s[1..], target, i)
        {
          assert !OccursAt(s, target, i + 1);
          if i + |target| <= |s[1..]| {
            assert s[1..][i..i + |target|] == s[i + 1..i + 1 + |target|];
          }
        }
      }
      ReplaceAbsent(s[1..], target, replacement);
    }
  }

  // ---------------------------------------------------------------------------
  // Words

  /** No word produced by `split(" ")` contains a space. */
  lemma {:induction false} WordsHaveNoSpace(text: string)
    ensures forall k | 0 <= k < |Words(text)| :: NoSpace(Words(text)[k])
    decreases |text|
  {
    if |text| < 1 {
    } else if text[..1] == " " {
      WordsHaveNoSpace(text[1..]);
      assert Words(text) == [""] + Words(text[1..]);
    } else {
      WordsHaveNoSpace(text[1..]);
      var rest := Words(text[1..]);
      assert Words(text) == [[text[0]] + rest[0]] + rest[1..];
      assert text[0] != ' ';
    }
  }

  /** A text without spaces is one word. */
  lemma {:induction false} WordsOfNoSpace(w: string)
    requires NoSpace(w)
    ensures Words(w) == [w]
    decreases |w|
  {
    if |w| < 1 {
    } else {
      assert w[..1] != " " by { assert w[..1][0] == w[0]; }
      WordsOfNoSpace(w[1..]);
      assert [w[0]] + w[1..] == w;
    }
  }

  /** A word followed by a space splits off at that space. */
  lemma {:induction false} WordsOfSpaced(w: string, rest: string)
    requires NoSpace(w)
    ensures Words(w + " " + rest) == [w] + Words(rest)
    decreases |w|
  {
    var s := w + " " + rest;
    if |w| == 0 {
      assert s[..1] == " ";
      assert s[1..] == rest;
    } else {
      assert s[..1] != " " by { assert s[..1][0] == w[0]; }
      assert s[1..] == w[1..] + " " + rest;
      WordsOfSpaced(w[1..], rest);
      assert [w[0]] + w[1..] == w;
    }
  }

  /** Joining space-free words with single spaces and gluing a space-free
      suffix to the end gives back the same words, the last one carrying the suffix. */
  lemma {:induction false} WordsOfUnwordsSuffix(ws: seq<string>, suffix: string)
    requires |ws| >= 1
    requires forall k | 0 <= k < |ws| :: NoSpace(ws[k])
    requires NoSpace(suffix)
    ensures Words(Unwords(ws) + suffix) == ws[..|ws| - 1] + [ws[|ws| - 1] + suffix]
    decreases |ws|
  {
    if |ws| == 1 {
      assert NoSpace(ws[0] + suffix) by {
        forall i | 0 <= i < |ws[0] + suffix|
          ensures (ws[0] + suffix)[i] != ' '
        {
          if i < |ws[0]| { assert (ws[0] + suffix)[i] == ws[0][i]; }
          else { assert (ws[0] + suffix)[i] == suffix[i - |ws[0]|]; }
        }
      }
      WordsOfNoSpace(ws[0] + suffix);
    } else {
      var tail := ws[1..];
      assert Unwords(ws) + suffix == ws[0] + " " + (Unwords(tail) + suffix);
      assert forall k | 0 <= k < |tail| :: NoSpace(tail[k]) by {
        forall k | 0 <= k < |tail| ensures NoSpace(tail[k]) { assert tail[k] == ws[k + 1]; }
      }
      WordsOfUnwordsSuffix(tail, suffix);
      WordsOfSpaced(ws[0], Unwords(tail) + suffix);
      assert [ws[0]] + tail[..|tail| - 1] == ws[..|ws| - 1];
    }
  }
}
