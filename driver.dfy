/**
 * The iteration driver (`Iter` and its `Iterator::next` in src/lib.rs):
 * it feeds the characters after the cursor to `Step` until a value is
 * complete, and applies the end-of-input rules once the text is exhausted.
 */
module Driver {
  import opened Wrappers
  import opened Slices
  import opened Machine

  /** What one call of `next` returns, and where it leaves the cursor and the state. */
  datatype Outcome = Outcome(item: Option<Span>, pos: nat, state: State)

  /** The driver keeps an admissible state and never keeps a finished value. */
  predicate Resting(text: string, pos: nat, s: State) {
    pos <= |text| && Admissible(s, pos) && !s.ValueEnd?
  }

  function ViewOf(text: string, item: Option<Span>): Option<Pair>
    requires item.Some? ==> item.value.Within(|text|)
  {
    if item.Some? then Some(View(text, item.value)) else None
  }

  /**
   * End-of-input completion: a key followed by `=` yields an empty value, an
   * unquoted value runs to the end of the text, and a bare key, an
   * unterminated quoted value or nothing at all yields no pair. The empty
   * value is represented by the empty slice at the end of the text.
   */
  function Finish(text: string, s: State): (o: Outcome)
    requires Resting(text, |text|, s)
    ensures o.pos == |text| && Resting(text, o.pos, o.state)
    ensures o.item.Some? <==> s.KeyEnd? || s.ValueStart?
    ensures o.item.Some? ==> o.state == Init && o.item.value.Within(|text|)
    ensures s.KeyEnd? ==> ViewOf(text, o.item) == Some(Pair(text[s.ks..s.ke], ""))
    ensures s.ValueStart? ==> ViewOf(text, o.item) == Some(Pair(text[s.ks..s.ke], text[s.vs..]))
    ensures o.item.None? ==> o.state == s
  {
    if s.KeyEnd? then
      Outcome(Some(Span(s.ks, s.ke, |text|, |text|)), |text|, Init)
    else if s.ValueStart? then
      assert text[s.vs..|text|] == text[s.vs..];
      Outcome(Some(Span(s.ks, s.ke, s.vs, |text|)), |text|, Init)
    else
      Outcome(None, |text|, s)
  }

  /**
   * One call of `next` from cursor `pos` in state `s`: the first value the
   * machine completes after `pos`, with the cursor just past the character
   * that completed it and the state reset to `Init`; or, once the text runs
   * out, what `Finish` makes of the last state.
   */
  function Drive(text: string, pos: nat, s: State): (o: Outcome)
    requires Resting(text, pos, s)
    ensures pos <= o.pos && Resting(text, o.pos, o.state)
    ensures o.item.Some? ==> o.state == Init && o.item.value.Within(o.pos)
    ensures o.item.None? ==> o.pos == |text| && !o.state.KeyEnd? && !o.state.ValueStart?
    ensures o.item.Some? ==> pos < o.pos || (pos == o.pos == |text| && !s.Init?)
    decreases |text| - pos
  {
    if pos == |text| then Finish(text, s)
    else
      var n := Step(s, pos, text[pos]);
      if n.ValueEnd? then Outcome(Some(Span(n.ks, n.ke, n.vs, n.ve)), pos + 1, Init)
      else Drive(text, pos + 1, n)
  }

  /** Once `next` has returned `None`, every later call returns `None` and changes nothing. */
  lemma Exhausted(text: string, pos: nat, s: State)
    requires Resting(text, pos, s)
    ensures var o := Drive(text, pos, s);
      o.item.None? ==> Drive(text, o.pos, o.state) == o
  {
  }

  /** All the pairs that repeated calls of `next` yield, up to the first `None`. */
  function Pass(text: string, pos: nat, s: State): (sps: seq<Span>)
    requires Resting(text, pos, s)
    ensures |sps| <= |text| - pos + (if s.Init? then 0 else 1)
    decreases |text| - pos, if s.Init? then 0 else 1
  {
    var o := Drive(text, pos, s);
    if o.item.None? then [] else [o.item.value] + Pass(text, o.pos, o.state)
  }

  /** Every pair of a pass is a pair of slices of the text. */
  lemma {:induction false} PassWithin(text: string, pos: nat, s: State)
    requires Resting(text, pos, s)
    ensures AllWithin(Pass(text, pos, s), |text|)
    decreases |text| - pos, if s.Init? then 0 else 1
  {
    var o := Drive(text, pos, s);
    if o.item.Some? {
      PassWithin(text, o.pos, o.state);
      WithinCons(o.item.value, Pass(text, o.pos, o.state), |text|);
    }
  }

  /**
   * The iterator over the pairs of `text`. `pos` is the cursor of
   * `char_indices` (the offset of the next character to read) and `state`
   * the machine's state between calls.
   */
  class Iter {
    const text: string
    var pos: nat
    var state: State

    ghost predicate Valid()
      reads this
    {
      Resting(text, pos, state)
    }

    /** `str::logfmt`: a fresh pass over `text`. */
    constructor (text: string)
      ensures Valid()
      ensures this.text == text && pos == 0 && state == Init
    {
      this.text := text;
      pos := 0;
      state := Init;
    }

    /** `Iterator::next`: the next pair, or `None` once the text is used up. */
    method Next() returns (r: Option<Pair>)
      requires Valid()
      modifies this
      ensures Valid()
      ensures var o := Drive(text, old(pos), old(state));
        r == ViewOf(text, o.item) && pos == o.pos && state == o.state
      ensures r.Some? ==> state == Init
      ensures r.None? ==> pos == |text|
    {
      while pos < |text|
        invariant Valid()
        invariant old(pos) <= pos
        invariant Drive(text, pos, state) == Drive(text, old(pos), old(state))
        decreases |text| - pos
      {
        var next := Step(state, pos, text[pos]);
        pos := pos + 1;
        if next.ValueEnd? {
          state := Init;
          return Some(Pair(text[next.ks..next.ke], text[next.vs..next.ve]));
        }
        state := next;
      }
      match state {
        case KeyEnd(ks, ke) =>
          state := Init;
          r := Some(Pair(text[ks..ke], ""));
        case ValueStart(ks, ke, vs) =>
          state := Init;
          r := Some(Pair(text[ks..ke], text[vs..]));
        case _ =>
          r := None;
      }
    }
  }
}
