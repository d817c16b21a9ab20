/**
 * A reference definition of what a pass over a text yields, stated token by
 * token instead of character by character: skip whitespace, read a key up
 * to `=`, then read a value that is either a double-quoted run or a bare run
 * of non-whitespace. Tokens that are cut short are dropped exactly as the
 * machine drops them.
 */
module Reference {
  import opened Slices
  import opened Machine

  /** The characters that end a key, a bare value and a quoted value. */
  datatype Stop = KeyDelimiter | Space | Quote

  predicate Halts(stop: Stop, c: char) {
    match stop
    case KeyDelimiter => c == '=' || IsSpace(c)
    case Space => IsSpace(c)
    case Quote => c == '"'
  }

  /** The first offset at or after `j` whose character is a `stop`, or the end of the text. */
  function Until(text: string, j: nat, stop: Stop): (k: nat)
    requires j <= |text|
    ensures j <= k <= |text|
    ensures forall m {:trigger Halts(stop, text[m])} :: j <= m < k ==> !Halts(stop, text[m])
    ensures k < |text| ==> Halts(stop, text[k])
    decreases |text| - j
  {
    if j == |text| || Halts(stop, text[j]) then j else Until(text, j + 1, stop)
  }

  /** `[ks, ke)` is a key: non-whitespace characters, no `=` after the first, followed by `=`. */
  predicate KeyAt(text: string, ks: nat, ke: nat) {
    ks < ke < |text| && text[ke] == '='
    && (forall m :: ks <= m < ke ==> !IsSpace(text[m]))
    && (forall m :: ks < m < ke ==> text[m] != '=')
  }

  /** `[vs, ve)` is a bare value: it does not open a quote, and it runs up to whitespace or the end. */
  predicate BareAt(text: string, vs: nat, ve: nat) {
    vs <= ve <= |text|
    && (vs < ve ==> text[vs] != '"')
    && (forall m :: vs <= m < ve ==> !IsSpace(text[m]))
    && (ve == |text| || IsSpace(text[ve]))
  }

  /** `[vs, ve)` is a quoted value: it lies between two double quotes and holds none. */
  predicate QuotedAt(text: string, vs: nat, ve: nat) {
    0 < vs <= ve < |text| && text[vs - 1] == '"' && text[ve] == '"'
    && (forall m :: vs <= m < ve ==> text[m] != '"')
  }

  /**
   * What a span emitted from `text` looks like: a key, the `=` right after
   * it, then a bare value right after the `=`, or a quoted value whose
   * opening quote comes right after the `=`.
   */
  predicate WellFormed(text: string, sp: Span) {
    sp.Within(|text|) && KeyAt(text, sp.ks, sp.ke)
    && ((sp.vs == sp.ke + 1 && BareAt(text, sp.vs, sp.ve))
        || (sp.vs == sp.ke + 2 && QuotedAt(text, sp.vs, sp.ve)))
  }

  /** Spans in text order: each one ends before any later one starts. */
  predicate Ordered(sps: seq<Span>) {
    forall k, l :: 0 <= k < l < |sps| ==> sps[k].ve < sps[l].ks
  }

  /** The spans of the tokens that start at or after offset `i`: whitespace between tokens is skipped. */
  function Tokens(text: string, i: nat): (sps: seq<Span>)
    requires i <= |text|
    ensures AllWithin(sps, |text|)
    decreases |text| - i, 3
  {
    if i == |text| then []
    else if IsSpace(text[i]) then Tokens(text, i + 1)
    else KeyToken(text, i)
  }

  /**
   * A token whose key starts at `ks`. The key runs up to the next `=` or
   * whitespace; a key cut short by whitespace or by the end of the text
   * yields no pair.
   */
  function KeyToken(text: string, ks: nat): (sps: seq<Span>)
    requires ks < |text|
    ensures AllWithin(sps, |text|)
    decreases |text| - ks, 2
  {
    var ke := Until(text, ks + 1, KeyDelimiter);
    if ke == |text| then []
    else if text[ke] != '=' then Tokens(text, ke + 1)
    else ValueToken(text, ks, ke)
  }

  /** A token whose key is `[ks, ke)` and whose `=` is at `ke`: a double quote opens a quoted value, anything else a bare one. */
  function ValueToken(text: string, ks: nat, ke: nat): (sps: seq<Span>)
    requires ks < ke < |text|
    ensures AllWithin(sps, |text|)
    decreases |text| - ke, 1
  {
    if ke + 1 < |text| && text[ke + 1] == '"' then QuotedValue(text, ks, ke) else BareValue(text, ks, ke)
  }

  /** A value that runs from after the quote at `ke + 1` to the next double quote; a quote left open yields no pair. */
  function QuotedValue(text: string, ks: nat, ke: nat): (sps: seq<Span>)
    requires ks < ke && ke + 1 < |text|
    ensures AllWithin(sps, |text|)
    decreases |text| - ke, 0
  {
    var q := Until(text, ke + 2, Quote);
    if q == |text| then []
    else
      WithinCons(Span(ks, ke, ke + 2, q), Tokens(text, q + 1), |text|);
      [Span(ks, ke, ke + 2, q)] + Tokens(text, q + 1)
  }

  /**
   * A value that runs from after the `=` to the next whitespace or to the end
   * of the text; it is empty when the `=` is last or followed by whitespace.
   */
  function BareValue(text: string, ks: nat, ke: nat): (sps: seq<Span>)
    requires ks < ke < |text|
    ensures AllWithin(sps, |text|)
    decreases |text| - ke, 0
  {
    var ve := Until(text, ke + 1, Space);
    var rest := if ve == |text| then [] else Tokens(text, ve + 1);
    WithinCons(Span(ks, ke, ke + 1, ve), rest, |text|);
    [Span(ks, ke, ke + 1, ve)] + rest
  }

  /** The pairs of a whole text, in the order their keys appear. */
  function Parse(text: string): seq<Pair> {
    Views(text, Tokens(text, 0))
  }

  /**
   * Spans read from offset `i` on: each is well formed, starts at or after
   * the offset reached so far, and the next one may start only after it ends.
   */
  predicate Chained(text: string, sps: seq<Span>, i: nat)
    decreases |sps|
  {
    |sps| == 0
    || (WellFormed(text, sps[0]) && i <= sps[0].ks && Chained(text, sps[1..], sps[0].ve + 1))
  }

  /** Chained spans are each well formed, start at or after `i`, and come in text order. */
  lemma {:induction false} ChainedSpans(text: string, sps: seq<Span>, i: nat)
    requires Chained(text, sps, i)
    ensures forall k :: 0 <= k < |sps| ==> WellFormed(text, sps[k]) && i <= sps[k].ks
    ensures Ordered(sps)
    decreases |sps|
  {
    if |sps| > 0 {
      var rest := sps[1..];
      ChainedSpans(text, rest, sps[0].ve + 1);
      forall k | 0 < k < |sps|
        ensures sps[k] == rest[k - 1]
      {
      }
    }
  }

  /** Prepending a well-formed span that ends before `n` to spans chained from `n`. */
  lemma Cons(text: string, sp: Span, n: nat, rest: seq<Span>, sps: seq<Span>)
    requires WellFormed(text, sp) && sp.ve < n && Chained(text, rest, n)
    requires sps == [sp] + rest
    ensures Chained(text, sps, sp.ks)
  {
    assert sps[1..] == rest;
  }

  /** A key starts at a non-whitespace character and ends at the next `=`. */
  lemma KeyFound(text: string, i: nat, ke: nat)
    requires i < |text| && !IsSpace(text[i])
    requires ke == Until(text, i + 1, KeyDelimiter) && ke < |text| && text[ke] == '='
    ensures KeyAt(text, i, ke)
  {
    forall m | i < m < ke
      ensures text[m] != '=' && !IsSpace(text[m])
    {
      assert !Halts(KeyDelimiter, text[m]);
    }
  }

  /** The tokens from offset `i` on are chained from `i`. */
  lemma {:induction false} TokensShape(text: string, i: nat)
    requires i <= |text|
    ensures Chained(text, Tokens(text, i), i)
    decreases |text| - i, 3
  {
    if i == |text| {
    } else if IsSpace(text[i]) {
      TokensShape(text, i + 1);
    } else {
      KeyShape(text, i);
    }
  }

  lemma {:induction false} KeyShape(text: string, ks: nat)
    requires ks < |text| && !IsSpace(text[ks])
    ensures Chained(text, KeyToken(text, ks), ks)
    decreases |text| - ks, 2
  {
    var ke := Until(text, ks + 1, KeyDelimiter);
    if ke == |text| {
    } else if text[ke] != '=' {
      TokensShape(text, ke + 1);
    } else {
      KeyFound(text, ks, ke);
      ValueShape(text, ks, ke);
    }
  }

  lemma {:induction false} ValueShape(text: string, ks: nat, ke: nat)
    requires KeyAt(text, ks, ke)
    ensures Chained(text, ValueToken(text, ks, ke), ks)
    decreases |text| - ke, 1
  {
    if ke + 1 < |text| && text[ke + 1] == '"' {
      QuotedShape(text, ks, ke);
    } else {
      BareShape(text, ks, ke);
    }
  }

  lemma {:induction false} QuotedShape(text: string, ks: nat, ke: nat)
    requires KeyAt(text, ks, ke) && ke + 1 < |text| && text[ke + 1] == '"'
    ensures Chained(text, QuotedValue(text, ks, ke), ks)
    decreases |text| - ke, 0
  {
    var q := Until(text, ke + 2, Quote);
    if q < |text| {
      var sp := Span(ks, ke, ke + 2, q);
      assert QuotedAt(text, ke + 2, q);
      TokensShape(text, q + 1);
      Cons(text, sp, q + 1, Tokens(text, q + 1), QuotedValue(text, ks, ke));
    }
  }

  lemma {:induction false} BareShape(text: string, ks: nat, ke: nat)
    requires KeyAt(text, ks, ke) && (ke + 1 < |text| ==> text[ke + 1] != '"')
    ensures Chained(text, BareValue(text, ks, ke), ks)
    decreases |text| - ke, 0
  {
    var ve := Until(text, ke + 1, Space);
    var sp := Span(ks, ke, ke + 1, ve);
    var rest := if ve == |text| then [] else Tokens(text, ve + 1);
    forall m | ke + 1 <= m < ve
      ensures !IsSpace(text[m])
    {
      assert !Halts(Space, text[m]);
    }
    assert BareAt(text, ke + 1, ve);
    if ve < |text| {
      TokensShape(text, ve + 1);
    }
    Cons(text, sp, ve + 1, rest, BareValue(text, ks, ke));
  }

  /** Every pair of a text comes from a well-formed span, and the spans come in text order. */
  lemma ParsedShape(text: string)
    ensures forall k :: 0 <= k < |Tokens(text, 0)| ==> WellFormed(text, Tokens(text, 0)[k])
    ensures Ordered(Tokens(text, 0))
  {
    TokensShape(text, 0);
    ChainedSpans(text, Tokens(text, 0), 0);
  }
}
