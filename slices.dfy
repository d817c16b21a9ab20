/**
 * Emitted pairs. The tokenizer never copies: a pair is a pair of borrowed
 * slices of the input text. The model records the slice boundaries as a
 * `Span` of character offsets and reads the slices back with `View`.
 */
module Slices {
  /** Key slice `[ks, ke)` and value slice `[vs, ve)` of the input text. */
  datatype Span = Span(ks: nat, ke: nat, vs: nat, ve: nat) {
    /** Offsets in order and inside a text of length `n`; the key is never empty. */
    predicate Within(n: nat) {
      ks < ke < vs <= ve <= n
    }
  }

  /** A `(key, value)` item as the caller sees it. */
  datatype Pair = Pair(key: string, value: string)

  /** Reads a span back as the two slices it denotes. */
  function View(text: string, sp: Span): (p: Pair)
    requires sp.Within(|text|)
    ensures |p.key| == sp.ke - sp.ks > 0 && |p.value| == sp.ve - sp.vs
  {
    Pair(text[sp.ks..sp.ke], text[sp.vs..sp.ve])
  }

  /** Every span of `sps` lies inside a text of length `n`. */
  predicate AllWithin(sps: seq<Span>, n: nat) {
    forall sp :: sp in sps ==> sp.Within(n)
  }

  /** Prepending a span inside the text keeps every span inside it. */
  lemma WithinCons(sp: Span, sps: seq<Span>, n: nat)
    requires sp.Within(n) && AllWithin(sps, n)
    ensures AllWithin([sp] + sps, n)
  {
    assert ([sp] + sps)[1..] == sps;
  }

  /** Reads a whole sequence of spans back, in order. */
  function Views(text: string, sps: seq<Span>): (ps: seq<Pair>)
    requires AllWithin(sps, |text|)
    ensures |ps| == |sps|
  {
    if sps == [] then [] else [View(text, sps[0])] + Views(text, sps[1..])
  }

  /** Reading a span off the front of a sequence of spans. */
  lemma ViewsCons(text: string, whole: seq<Span>, sp: Span, sps: seq<Span>)
    requires whole == [sp] + sps && sp.Within(|text|) && AllWithin(sps, |text|)
    ensures AllWithin(whole, |text|)
    ensures Views(text, whole) == [View(text, sp)] + Views(text, sps)
  {
    assert whole[1..] == sps;
  }

  /** Proof helper: concatenation regroups. */
  lemma Associative<T>(a: seq<T>, b: seq<T>, c: seq<T>)
    ensures (a + b) + c == a + (b + c)
  {
  }
}
