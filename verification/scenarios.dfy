/** Concrete inputs worked through the model of `rewrite_sql`. */
module Scenarios {
  import opened Text
  import opened Rewrite

  /** A fuzzy-matched value with an apostrophe is doubled for SQLite. */
  lemma ApostropheIsDoubled()
    ensures EscapeQuotes("men's") == "men''s"
  {
    var q, qq := "'", "''";
    assert ReplaceAll("", q, qq) == "";
    assert ReplaceAll("s", q, qq) == "s" by { assert "s"[..1][0] != q[0]; assert "s"[1..] == ""; }
    assert ReplaceAll("'s", q, qq) == "''s" by { assert "'s"[..1] == q; assert "'s"[1..] == "s"; }
    assert ReplaceAll("n's", q, qq) == "n''s" by { assert "n's"[..1] != q; assert "n's"[1..] == "'s"; }
    assert ReplaceAll("en's", q, qq) == "en''s" by { assert "en's"[..1] != q; assert "en's"[1..] == "n's"; }
    assert ReplaceAll("men's", q, qq) == "men''s" by { assert "men's"[..1] != q; assert "men's"[1..] == "en's"; }
  }

  /** Grounding a column name replaces it everywhere in the query text, also
      inside other words: with `tag` grounded to `tags`, the LIKE value
      `vintage` becomes `vintagse`. */
  lemma ColumnGroundingHitsSubstrings()
    ensures ReplaceEach("vintage", [("tag", "tags")]) == "vintagse"
  {
    var t, r := "tag", "tags";
    assert ReplaceAll("e", t, r) == "e";
    assert ReplaceAll("tage", t, r) == "tagse" by { assert "tage"[..3] == t; assert "tage"[3..] == "e"; }
    assert ReplaceAll("ntage", t, r) == "ntagse" by { assert "ntage"[..3][0] != t[0]; assert "ntage"[1..] == "tage"; }
    assert ReplaceAll("intage", t, r) == "intagse" by { assert "intage"[..3][0] != t[0]; assert "intage"[1..] == "ntage"; }
    assert ReplaceAll("vintage", t, r) == "vintagse" by { assert "vintage"[..3][0] != t[0]; assert "vintage"[1..] == "intage"; }
    assert ReplaceEach("vintage", [("tag", "tags")]) == ReplaceEach("vintagse", []);
  }
}
