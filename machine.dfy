/**
 * The tokenizer's finite-state machine (`State` and `State::next` in
 * src/lib.rs). A state carries the offsets of the token read so far; the
 * transition looks at one `(offset, character)` step and never ahead.
 */
module Machine {

  /**
   * Rust's `char::is_whitespace`: the Unicode White_Space property, that is
   * the code points in one of the `SpaceRanges` ranges.
   */
  predicate IsSpace(c: char) {
    SpaceFrom(c, 0)
  }

  /** The number of ranges of White_Space code points. */
  const SpaceRanges := 10

  /**
   * The `k`-th range of White_Space code points, inclusive, in code-point
   * order: tab through carriage return, space, NEL, NBSP, OGHAM SPACE MARK,
   * EN QUAD through HAIR SPACE, the line and paragraph separators, NNBSP,
   * MMSP and IDEOGRAPHIC SPACE.
   */
  function SpaceRange(k: nat): (r: (char, char))
    requires k < SpaceRanges
    ensures r.0 <= r.1
  {
    match k
    case 0 => ('\t', '\r')
    case 1 => (' ', ' ')
    case 2 => ('\U{85}', '\U{85}')
    case 3 => ('\U{A0}', '\U{A0}')
    case 4 => ('\U{1680}', '\U{1680}')
    case 5 => ('\U{2000}', '\U{200A}')
    case 6 => ('\U{2028}', '\U{2029}')
    case 7 => ('\U{202F}', '\U{202F}')
    case 8 => ('\U{205F}', '\U{205F}')
    case _ => ('\U{3000}', '\U{3000}')
  }

  /** `c` lies in one of the ranges `SpaceRange(k)`, `SpaceRange(k + 1)`, ... */
  predicate SpaceFrom(c: char, k: nat)
    decreases SpaceRanges - k
  {
    k < SpaceRanges && ((SpaceRange(k).0 <= c <= SpaceRange(k).1) || SpaceFrom(c, k + 1))
  }

  /** The delimiters the machine branches on are not whitespace; space and tab are. */
  lemma Delimiters()
    ensures !IsSpace('=') && !IsSpace('"') && IsSpace(' ') && IsSpace('\t')
  {
  }

  datatype State =
    | Init                                                  // between tokens
    | KeyStart(ks: nat)                                     // inside a key starting at ks
    | KeyEnd(ks: nat, ke: nat)                              // just read the `=` at ke
    | ValueStart(ks: nat, ke: nat, vs: nat)                 // inside an unquoted value
    | ValueStartWithQuote(ks: nat, ke: nat, vs: nat)        // inside a quoted value
    | ValueEnd(ks: nat, ke: nat, vs: nat, ve: nat)          // value [vs, ve) complete

  /**
   * The offsets a state may hold once the characters before offset `p` have
   * been read: every offset is at most `p`, the key is non-empty and the
   * value starts after the `=` (so `ks < ke < vs <= ve <= p`).
   */
  predicate Admissible(s: State, p: nat) {
    match s
    case Init => true
    case KeyStart(ks) => ks < p
    case KeyEnd(ks, ke) => ks < ke < p
    case ValueStart(ks, ke, vs) => ks < ke < vs < p
    case ValueStartWithQuote(ks, ke, vs) => ks < ke < vs <= p
    case ValueEnd(ks, ke, vs, ve) => ks < ke < vs <= ve <= p
  }

  /**
   * `State::next`: one transition on the character `c` at offset `i`. The
   * width of `"` in UTF-8 is one, so a quoted value starts at `i + 1`.
   */
  function Step(s: State, i: nat, c: char): (r: State)
    ensures Admissible(s, i) ==> Admissible(r, i + 1)
    ensures r.ValueEnd? ==> r.ve == i && !s.ValueEnd? && !s.Init? && !s.KeyStart?
    ensures r.ValueEnd? ==> (IsSpace(c) || (s.ValueStartWithQuote? && c == '"'))
    ensures s.ValueEnd? ==> r == Init
    ensures (s.KeyEnd? || s.ValueStart?) ==> (r.ValueEnd? <==> IsSpace(c))
    ensures s.ValueStartWithQuote? ==> (r.ValueEnd? <==> c == '"')
  {
    match s
    case Init =>
      if IsSpace(c) then Init else KeyStart(i)
    case KeyStart(ks) =>
      if c == '=' then KeyEnd(ks, i)
      else if IsSpace(c) then Init
      else KeyStart(ks)
    case KeyEnd(ks, ke) =>
      if c == '"' then ValueStartWithQuote(ks, ke, i + 1)
      else if IsSpace(c) then ValueEnd(ks, ke, i, i)
      else ValueStart(ks, ke, i)
    case ValueStart(ks, ke, vs) =>
      if IsSpace(c) then ValueEnd(ks, ke, vs, i) else ValueStart(ks, ke, vs)
    case ValueStartWithQuote(ks, ke, vs) =>
      if c == '"' then ValueEnd(ks, ke, vs, i) else ValueStartWithQuote(ks, ke, vs)
    case ValueEnd(_, _, _, _) =>
      Init
  }
}
