/**
 * Inputs and the pairs they yield, as `input.logfmt().collect()` returns
 * them: the end-of-input rules, empty values and quoting.
 */
module Cases {
  import opened Slices
  import opened Machine
  import opened Reference
  import opened Encoding

  /** A key with no `=` at the end of the text yields no pair. */
  lemma TrailingKeyDropped()
    ensures Parse("a=1 b") == [Pair("a", "1")]
  {
    var t := "a=1 b";
    Delimiters();
    assert !IsSpace('a') && !IsSpace('b') && !IsSpace('1');
    assert Until(t, 5, KeyDelimiter) == 5;
    assert Tokens(t, 4) == [];
    assert Until(t, 2, Space) == 3;
    assert Until(t, 1, KeyDelimiter) == 1;
    assert Tokens(t, 0) == [Span(0, 1, 2, 3)];
    assert t[0..1] == "a" && t[2..3] == "1";
    assert Views(t, [Span(0, 1, 2, 3)]) == [View(t, Span(0, 1, 2, 3))] + Views(t, []);
  }

  /** A quoted value left open at the end of the text yields no pair. */
  lemma UnterminatedQuoteDropped()
    ensures Parse("a=1 m=\"x y") == [Pair("a", "1")]
  {
    var t := "a=1 m=\"x y";
    Delimiters();
    assert !IsSpace('a') && !IsSpace('m') && !IsSpace('1');
    assert Until(t, 7, Quote) == 10;
    assert Until(t, 5, KeyDelimiter) == 5;
    assert Tokens(t, 4) == [];
    assert Until(t, 2, Space) == 3;
    assert Until(t, 1, KeyDelimiter) == 1;
    assert Tokens(t, 0) == [Span(0, 1, 2, 3)];
    assert t[0..1] == "a" && t[2..3] == "1";
    assert Views(t, [Span(0, 1, 2, 3)]) == [View(t, Span(0, 1, 2, 3))] + Views(t, []);
  }

  /** `a=` before whitespace or at the end of the text has an empty value. */
  lemma EmptyValues()
    ensures Parse("a= b=") == [Pair("a", ""), Pair("b", "")]
  {
    var t := "a= b=";
    Delimiters();
    assert !IsSpace('a') && !IsSpace('b');
    assert Until(t, 5, Space) == 5;
    assert Until(t, 4, KeyDelimiter) == 4;
    assert Tokens(t, 3) == [Span(3, 4, 5, 5)];
    assert Until(t, 2, Space) == 2;
    assert Until(t, 1, KeyDelimiter) == 1;
    var sps := [Span(0, 1, 2, 2), Span(3, 4, 5, 5)];
    assert Tokens(t, 0) == sps;
    assert t[0..1] == "a" && t[3..4] == "b" && t[2..2] == "" && t[5..5] == "";
    assert Views(t, sps[1..]) == [View(t, sps[1])] + Views(t, []);
    assert Views(t, sps) == [View(t, sps[0])] + Views(t, sps[1..]);
  }

  /** A quoted value keeps its whitespace and is read without its quotes. */
  lemma QuotedSpaceKept()
    ensures Parse("m=\"x y\" b=2") == [Pair("m", "x y"), Pair("b", "2")]
  {
    var t := "m=\"x y\" b=2";
    Delimiters();
    assert !IsSpace('m') && !IsSpace('b') && !IsSpace('2') && !IsSpace('x') && !IsSpace('y');
    assert Until(t, 10, Space) == 11;
    assert Until(t, 9, KeyDelimiter) == 9;
    assert Tokens(t, 7) == [Span(8, 9, 10, 11)];
    assert Until(t, 3, Quote) == 6;
    assert Until(t, 1, KeyDelimiter) == 1;
    var sps := [Span(0, 1, 3, 6), Span(8, 9, 10, 11)];
    assert Tokens(t, 0) == sps;
    assert t[0..1] == "m" && t[3..6] == "x y" && t[8..9] == "b" && t[10..11] == "2";
    assert Views(t, sps[1..]) == [View(t, sps[1])] + Views(t, []);
    assert Views(t, sps) == [View(t, sps[0])] + Views(t, sps[1..]);
  }

  /** An empty quoted value yields an empty value. */
  lemma EmptyQuoted()
    ensures Parse("m=\"\"") == [Pair("m", "")]
  {
    var t := "m=\"\"";
    Delimiters();
    assert !IsSpace('m');
    assert Until(t, 3, Quote) == 3;
    assert Until(t, 1, KeyDelimiter) == 1;
    assert Tokens(t, 0) == [Span(0, 1, 3, 3)];
    assert t[0..1] == "m" && t[3..3] == "";
    assert Views(t, [Span(0, 1, 3, 3)]) == [View(t, Span(0, 1, 3, 3))] + Views(t, []);
  }

  /** Only the first `=` ends the key: a bare value may hold `=`. */
  lemma EqualsInValue()
    ensures Parse("u=a?b=c") == [Pair("u", "a?b=c")]
  {
    var t := "u=a?b=c";
    Delimiters();
    assert !IsSpace('u') && !IsSpace('a') && !IsSpace('?') && !IsSpace('b') && !IsSpace('c');
    assert Until(t, 2, Space) == 7;
    assert Until(t, 1, KeyDelimiter) == 1;
    assert Tokens(t, 0) == [Span(0, 1, 2, 7)];
    assert t[0..1] == "u" && t[2..7] == "a?b=c";
    assert Views(t, [Span(0, 1, 2, 7)]) == [View(t, Span(0, 1, 2, 7))] + Views(t, []);
  }

  /** A repeated key yields one pair per occurrence, in order. */
  lemma DuplicatesKept()
    ensures Parse("a=1 a=2") == [Pair("a", "1"), Pair("a", "2")]
  {
    var t := "a=1 a=2";
    Delimiters();
    assert !IsSpace('a') && !IsSpace('1') && !IsSpace('2');
    assert Until(t, 6, Space) == 7;
    assert Until(t, 5, KeyDelimiter) == 5;
    assert Tokens(t, 4) == [Span(4, 5, 6, 7)];
    assert Until(t, 2, Space) == 3;
    assert Until(t, 1, KeyDelimiter) == 1;
    var sps := [Span(0, 1, 2, 3), Span(4, 5, 6, 7)];
    assert Tokens(t, 0) == sps;
    assert t[0..1] == "a" && t[2..3] == "1" && t[4..5] == "a" && t[6..7] == "2";
    assert Views(t, sps[1..]) == [View(t, sps[1])] + Views(t, []);
    assert Views(t, sps) == [View(t, sps[0])] + Views(t, sps[1..]);
  }

  /** Different runs of whitespace between the fields: each gap is skipped whole. */
  lemma MixedSeparators()
    ensures Parse("a=1 \t  b=2   c=3") == [Pair("a", "1"), Pair("b", "2"), Pair("c", "3")]
  {
    var ps := [Pair("a", "1"), Pair("b", "2"), Pair("c", "3")];
    var seps := [" \t  ", "   "];
    Delimiters();
    assert !IsSpace('a') && !IsSpace('b') && !IsSpace('c');
    assert !IsSpace('1') && !IsSpace('2') && !IsSpace('3');
    assert Encodable(ps[0]) && Encodable(ps[1]) && Encodable(ps[2]);
    assert Blank(seps[0]) && Blank(seps[1]);
    assert Render(ps, seps) == "a=1 \t  b=2   c=3";
    RoundTrip(ps, seps, "", "");
    assert "" + Render(ps, seps) + "" == Render(ps, seps);
  }
}
