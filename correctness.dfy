/**
 * The iterator yields exactly the reference tokens: the pairs that
 * repeated calls of `Iter.Next` return, up to the first `None`, are the
 * pairs `Reference.Parse` reads from the text.
 */
module Correctness {
  import opened Wrappers
  import opened Slices
  import opened Machine
  import opened Driver
  import opened Reference

  /** Characters a state absorbs leave `next` where it would have been after them. */
  lemma {:induction false} Absorb(text: string, j: nat, k: nat, s: State)
    requires j <= k <= |text| && Resting(text, j, s)
    requires forall m :: j <= m < k ==> Step(s, m, text[m]) == s
    ensures Resting(text, k, s)
    ensures Drive(text, j, s) == Drive(text, k, s)
    decreases k - j
  {
    if j < k {
      Absorb(text, j + 1, k, s);
    }
  }

  /** Two calls of `next` that return the same thing begin the same remaining pass. */
  lemma SamePass(text: string, p: nat, s: State, q: nat, t: State)
    requires Resting(text, p, s) && Resting(text, q, t)
    requires Drive(text, p, s) == Drive(text, q, t)
    ensures Pass(text, p, s) == Pass(text, q, t)
  {
  }

  /** A character that does not complete a value moves the pass one character on, in the state it steps to. */
  lemma Advance(text: string, p: nat, s: State)
    requires Resting(text, p, s) && p < |text| && !Step(s, p, text[p]).ValueEnd?
    ensures Resting(text, p + 1, Step(s, p, text[p]))
    ensures Pass(text, p, s) == Pass(text, p + 1, Step(s, p, text[p]))
  {
    SamePass(text, p, s, p + 1, Step(s, p, text[p]));
  }

  /** A character that completes a value emits it and restarts the pass between tokens. */
  lemma Emit(text: string, p: nat, s: State)
    requires Resting(text, p, s) && p < |text| && Step(s, p, text[p]).ValueEnd?
    ensures var n := Step(s, p, text[p]);
      Pass(text, p, s) == [Span(n.ks, n.ke, n.vs, n.ve)] + Pass(text, p + 1, Init)
  {
  }

  /** At the end of the text only `KeyEnd` and `ValueStart` yield a last pair. */
  lemma Ends(text: string, s: State)
    requires Resting(text, |text|, s)
    ensures s.KeyEnd? ==> Pass(text, |text|, s) == [Span(s.ks, s.ke, |text|, |text|)]
    ensures s.ValueStart? ==> Pass(text, |text|, s) == [Span(s.ks, s.ke, s.vs, |text|)]
    ensures !s.KeyEnd? && !s.ValueStart? ==> Pass(text, |text|, s) == []
  {
    var o := Drive(text, |text|, s);
    if s.KeyEnd? || s.ValueStart? {
      assert Pass(text, |text|, s) == [o.item.value] + Pass(text, |text|, Init);
    }
  }

  /** One call of `next` takes the first pair off the rest of the pass, or ends it. */
  lemma Unroll(text: string, p: nat, s: State)
    requires Resting(text, p, s)
    ensures var o := Drive(text, p, s);
      Pass(text, p, s) == if o.item.None? then [] else [o.item.value] + Pass(text, o.pos, o.state)
  {
  }

  /** Between tokens, the iterator's pass is the reference's. */
  lemma {:induction false} PassIsTokens(text: string, i: nat)
    requires i <= |text|
    ensures Pass(text, i, Init) == Tokens(text, i)
    decreases |text| - i, 5
  {
    if i == |text| {
    } else if IsSpace(text[i]) {
      SamePass(text, i, Init, i + 1, Init);
      PassIsTokens(text, i + 1);
    } else {
      SamePass(text, i, Init, i + 1, KeyStart(i));
      KeyPhase(text, i);
    }
  }

  /** A key absorbs every character up to the next `=` or whitespace. */
  lemma KeyRun(text: string, ks: nat)
    requires ks < |text|
    ensures var ke := Until(text, ks + 1, KeyDelimiter);
      Resting(text, ke, KeyStart(ks)) && Pass(text, ks + 1, KeyStart(ks)) == Pass(text, ke, KeyStart(ks))
  {
    var s := KeyStart(ks);
    var ke := Until(text, ks + 1, KeyDelimiter);
    forall m | ks + 1 <= m < ke
      ensures Step(s, m, text[m]) == s
    {
      assert !Halts(KeyDelimiter, text[m]);
    }
    Absorb(text, ks + 1, ke, s);
    SamePass(text, ks + 1, s, ke, s);
  }

  /**
   * A quoted value absorbs every character up to the next double quote,
   * which completes it; if there is none the pass ends with no pair.
   */
  lemma QuoteRun(text: string, ks: nat, ke: nat, vs: nat)
    requires ks < ke < vs <= |text|
    ensures var q := Until(text, vs, Quote);
      Pass(text, vs, ValueStartWithQuote(ks, ke, vs))
      == if q == |text| then [] else [Span(ks, ke, vs, q)] + Pass(text, q + 1, Init)
  {
    var s := ValueStartWithQuote(ks, ke, vs);
    var q := Until(text, vs, Quote);
    forall m | vs <= m < q
      ensures Step(s, m, text[m]) == s
    {
      assert !Halts(Quote, text[m]);
    }
    Absorb(text, vs, q, s);
    SamePass(text, vs, s, q, s);
    if q < |text| {
      Emit(text, q, s);
    } else {
      Ends(text, s);
    }
  }

  /** A double quote right after the `=` opens a quoted value that starts after it. */
  lemma QuotedOpens(text: string, ks: nat, ke: nat)
    requires ks < ke && ke + 1 < |text| && text[ke + 1] == '"'
    ensures Pass(text, ke + 1, KeyEnd(ks, ke)) == Pass(text, ke + 2, ValueStartWithQuote(ks, ke, ke + 2))
  {
    assert Step(KeyEnd(ks, ke), ke + 1, text[ke + 1]) == ValueStartWithQuote(ks, ke, ke + 2);
    Advance(text, ke + 1, KeyEnd(ks, ke));
  }

  /** A character after the `=` that is neither whitespace nor a double quote opens a bare value. */
  lemma BareOpens(text: string, ks: nat, ke: nat)
    requires ks < ke && ke + 1 < |text| && text[ke + 1] != '"' && !IsSpace(text[ke + 1])
    ensures Pass(text, ke + 1, KeyEnd(ks, ke)) == Pass(text, ke + 2, ValueStart(ks, ke, ke + 1))
  {
    assert Step(KeyEnd(ks, ke), ke + 1, text[ke + 1]) == ValueStart(ks, ke, ke + 1);
    Advance(text, ke + 1, KeyEnd(ks, ke));
  }

  /** A bare value absorbs every character up to the next whitespace. */
  lemma BareAbsorb(text: string, ks: nat, ke: nat, vs: nat)
    requires ks < ke < vs < |text|
    ensures var ve := Until(text, vs + 1, Space);
      Resting(text, ve, ValueStart(ks, ke, vs))
      && Pass(text, vs + 1, ValueStart(ks, ke, vs)) == Pass(text, ve, ValueStart(ks, ke, vs))
  {
    var s := ValueStart(ks, ke, vs);
    var ve := Until(text, vs + 1, Space);
    forall m | vs + 1 <= m < ve
      ensures Step(s, m, text[m]) == s
    {
      assert !Halts(Space, text[m]);
    }
    Absorb(text, vs + 1, ve, s);
    SamePass(text, vs + 1, s, ve, s);
  }

  /**
   * A bare value absorbs every character up to the next whitespace, which
   * completes it; if there is none the value runs to the end of the text.
   */
  lemma BareRun(text: string, ks: nat, ke: nat, vs: nat)
    requires ks < ke < vs < |text| && !IsSpace(text[vs])
    ensures var ve := Until(text, vs, Space);
      Pass(text, vs + 1, ValueStart(ks, ke, vs))
      == [Span(ks, ke, vs, ve)] + if ve == |text| then [] else Pass(text, ve + 1, Init)
  {
    var s := ValueStart(ks, ke, vs);
    assert !Halts(Space, text[vs]);
    var ve := Until(text, vs, Space);
    assert ve == Until(text, vs + 1, Space);
    BareAbsorb(text, ks, ke, vs);
    if ve < |text| {
      Emit(text, ve, s);
    } else {
      Ends(text, s);
    }
  }

  /** Inside a key that starts at `ks`, the iterator's pass is the reference's. */
  lemma {:induction false} KeyPhase(text: string, ks: nat)
    requires ks < |text|
    ensures Pass(text, ks + 1, KeyStart(ks)) == KeyToken(text, ks)
    decreases |text| - ks, 4
  {
    var s := KeyStart(ks);
    var ke := Until(text, ks + 1, KeyDelimiter);
    KeyRun(text, ks);
    if ke == |text| {
    } else if text[ke] != '=' {
      SamePass(text, ke, s, ke + 1, Init);
      PassIsTokens(text, ke + 1);
    } else {
      SamePass(text, ke, s, ke + 1, KeyEnd(ks, ke));
      ValuePhase(text, ks, ke);
    }
  }

  /** After the `=` of a key `[ks, ke)`, the iterator's pass is the reference's. */
  lemma {:induction false} ValuePhase(text: string, ks: nat, ke: nat)
    requires ks < ke < |text|
    ensures Pass(text, ke + 1, KeyEnd(ks, ke)) == ValueToken(text, ks, ke)
    decreases |text| - ke, 3
  {
    if ke + 1 < |text| && text[ke + 1] == '"' {
      QuotedPhase(text, ks, ke);
    } else {
      BarePhase(text, ks, ke);
    }
  }

  /** The case of `ValuePhase` where a double quote follows the `=`. */
  lemma {:induction false} QuotedPhase(text: string, ks: nat, ke: nat)
    requires ks < ke && ke + 1 < |text| && text[ke + 1] == '"'
    ensures Pass(text, ke + 1, KeyEnd(ks, ke)) == QuotedValue(text, ks, ke)
    decreases |text| - ke, 0
  {
    var q := Until(text, ke + 2, Quote);
    if q < |text| {
      PassIsTokens(text, q + 1);
    }
    QuotedTail(text, ks, ke);
  }

  /**
   * After `="` the pass reads the value up to the closing quote and then
   * resumes between tokens; nothing if the quote is left open.
   */
  lemma QuotedTail(text: string, ks: nat, ke: nat)
    requires ks < ke && ke + 1 < |text| && text[ke + 1] == '"'
    requires var q := Until(text, ke + 2, Quote);
      q < |text| ==> Pass(text, q + 1, Init) == Tokens(text, q + 1)
    ensures Pass(text, ke + 1, KeyEnd(ks, ke)) == QuotedValue(text, ks, ke)
  {
    QuotedOpens(text, ks, ke);
    QuoteRun(text, ks, ke, ke + 2);
  }

  /**
   * The case of `ValuePhase` where no double quote follows the `=`: the end
   * of the text or whitespace give an empty value, anything else starts a
   * bare value.
   */
  lemma {:induction false} BarePhase(text: string, ks: nat, ke: nat)
    requires ks < ke < |text| && (ke + 1 < |text| ==> text[ke + 1] != '"')
    ensures Pass(text, ke + 1, KeyEnd(ks, ke)) == BareValue(text, ks, ke)
    decreases |text| - ke, 2
  {
    var v := ke + 1;
    if v == |text| {
      Ends(text, KeyEnd(ks, ke));
      assert Until(text, v, Space) == v;
    } else if IsSpace(text[v]) {
      EmptyValue(text, ks, ke);
    } else {
      NonEmptyValue(text, ks, ke);
    }
  }

  /** Whitespace right after the `=` completes an empty value. */
  lemma {:induction false} EmptyValue(text: string, ks: nat, ke: nat)
    requires ks < ke && ke + 1 < |text| && IsSpace(text[ke + 1])
    ensures Pass(text, ke + 1, KeyEnd(ks, ke)) == BareValue(text, ks, ke)
    decreases |text| - ke, 1
  {
    var v := ke + 1;
    assert Until(text, v, Space) == v;
    assert BareValue(text, ks, ke) == [Span(ks, ke, v, v)] + Tokens(text, v + 1);
    Emit(text, v, KeyEnd(ks, ke));
    PassIsTokens(text, v + 1);
  }

  /** Any other character after the `=` starts a bare value that `BareRun` reads to its end. */
  lemma {:induction false} NonEmptyValue(text: string, ks: nat, ke: nat)
    requires ks < ke && ke + 1 < |text| && text[ke + 1] != '"' && !IsSpace(text[ke + 1])
    ensures Pass(text, ke + 1, KeyEnd(ks, ke)) == BareValue(text, ks, ke)
    decreases |text| - ke, 1
  {
    var ve := Until(text, ke + 1, Space);
    if ve < |text| {
      PassIsTokens(text, ve + 1);
    }
    BareTail(text, ks, ke);
  }

  /**
   * After the `=` and a character that starts a bare value, the pass reads
   * the value up to whitespace or the end of the text and then resumes
   * between tokens.
   */
  lemma BareTail(text: string, ks: nat, ke: nat)
    requires ks < ke && ke + 1 < |text| && text[ke + 1] != '"' && !IsSpace(text[ke + 1])
    requires var ve := Until(text, ke + 1, Space);
      ve < |text| ==> Pass(text, ve + 1, Init) == Tokens(text, ve + 1)
    ensures Pass(text, ke + 1, KeyEnd(ks, ke)) == BareValue(text, ks, ke)
  {
    BareOpens(text, ks, ke);
    BareRun(text, ks, ke, ke + 1);
  }

  /**
   * `input.logfmt().collect()`: drains a fresh iterator. The pairs come out
   * exactly as the reference reads them.
   */
  method Collect(text: string) returns (pairs: seq<Pair>)
    ensures pairs == Parse(text)
  {
    var it := new Iter(text);
    pairs := [];
    PassIsTokens(text, 0);
    PassWithin(text, 0, Init);
    while true
      invariant it.Valid() && it.text == text
      invariant AllWithin(Pass(text, it.pos, it.state), |text|)
      invariant pairs + Views(text, Pass(text, it.pos, it.state)) == Parse(text)
      decreases |text| - it.pos, if it.state.Init? then 0 else 1
    {
      ghost var rest := Pass(text, it.pos, it.state);
      Unroll(text, it.pos, it.state);
      var r := it.Next();
      if r.None? {
        break;
      }
      ghost var later := Pass(text, it.pos, it.state);
      PassWithin(text, it.pos, it.state);
      ViewsCons(text, rest, rest[0], later);
      Associative(pairs, [r.value], Views(text, later));
      pairs := pairs + [r.value];
    }
  }
}
