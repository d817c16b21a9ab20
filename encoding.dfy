/**
 * Writing pairs as logfmt and reading them back. A line rendered from
 * pairs with well-formed keys and with values written bare or quoted parses
 * back to exactly those pairs, in order and with duplicates kept, whatever
 * runs of whitespace separate the fields and surround the line.
 */
module Encoding {
  import opened Slices
  import opened Machine
  import opened Reference

  /**
   * A key the tokenizer reads back whole: non-empty, no whitespace, and no
   * `=` after its first character (a leading `=` is read as part of the key).
   */
  predicate IsKey(k: string) {
    |k| > 0 && forall m {:trigger IsSpace(k[m])} :: 0 <= m < |k| ==> !IsSpace(k[m]) && (m > 0 ==> k[m] != '=')
  }

  /** A value that can be written as it is: no whitespace, and no opening double quote. */
  predicate IsBare(v: string) {
    (forall m {:trigger IsSpace(v[m])} :: 0 <= m < |v| ==> !IsSpace(v[m])) && (|v| > 0 ==> v[0] != '"')
  }

  /** A value that can be written between double quotes: none of its characters ends a quoted value (there are no escapes). */
  predicate IsQuotable(v: string) {
    forall m {:trigger Halts(Quote, v[m])} :: 0 <= m < |v| ==> !Halts(Quote, v[m])
  }

  predicate Encodable(pr: Pair) {
    IsKey(pr.key) && (IsBare(pr.value) || IsQuotable(pr.value))
  }

  /** Whitespace only (possibly nothing). */
  predicate Blank(w: string) {
    forall m {:trigger IsSpace(w[m])} :: 0 <= m < |w| ==> IsSpace(w[m])
  }

  /** `key=value`, for a value written bare. */
  function BareField(key: string, value: string): string {
    key + "=" + value
  }

  /** `key="value"`. */
  function QuotedField(key: string, value: string): string {
    key + "=\"" + value + "\""
  }

  /** A pair written as a field, its value quoted when it cannot be written bare. */
  function Field(pr: Pair): string
    requires Encodable(pr)
  {
    if IsBare(pr.value) then BareField(pr.key, pr.value) else QuotedField(pr.key, pr.value)
  }

  /** Non-empty runs of whitespace, one for each gap between two fields. */
  predicate Separators(seps: seq<string>) {
    forall k :: 0 <= k < |seps| ==> |seps[k]| > 0 && Blank(seps[k])
  }

  /** The fields of `ps`, with `seps[k]` written between field `k` and field `k + 1`. */
  function Render(ps: seq<Pair>, seps: seq<string>): string
    requires forall k :: 0 <= k < |ps| ==> Encodable(ps[k])
    requires |seps| == if ps == [] then 0 else |ps| - 1
  {
    if ps == [] then []
    else if |ps| == 1 then Field(ps[0])
    else Field(ps[0]) + seps[0] + Render(ps[1..], seps[1..])
  }

  /** `Until` stops at the first character that halts it. */
  lemma {:induction false} UntilIs(text: string, j: nat, k: nat, stop: Stop)
    requires j <= k <= |text|
    requires forall m :: j <= m < k ==> !Halts(stop, text[m])
    requires k == |text| || Halts(stop, text[k])
    ensures Until(text, j, stop) == k
    decreases k - j
  {
    if j < k {
      UntilIs(text, j + 1, k, stop);
    }
  }

  /** Whitespace between tokens is skipped. */
  lemma {:induction false} SkipBlank(text: string, i: nat, j: nat)
    requires i <= j <= |text|
    requires forall m {:trigger IsSpace(text[m])} :: i <= m < j ==> IsSpace(text[m])
    ensures Tokens(text, i) == Tokens(text, j)
    decreases j - i
  {
    if i < j {
      SkipBlank(text, i + 1, j);
    }
  }

  /** Empty or whitespace-only text yields no pair. */
  lemma BlankYieldsNothing(w: string)
    requires Blank(w)
    ensures Parse(w) == []
  {
    SkipBlank(w, 0, |w|);
  }

  /** A token ends where its field ends: at the end of the text or at whitespace. */
  predicate EndsAt(text: string, e: nat) {
    e == |text| || (e < |text| && IsSpace(text[e]))
  }

  /** Where `a + b` is written at offset `i` of `text`, `a` and then `b` are written there. */
  lemma Split(text: string, i: nat, a: string, b: string)
    requires i + |a + b| <= |text| && text[i..i + |a + b|] == a + b
    ensures text[i..i + |a|] == a && text[i + |a|..i + |a| + |b|] == b
  {
    assert text[i..i + |a|] == text[i..i + |a + b|][..|a|];
    assert text[i + |a|..i + |a| + |b|] == text[i..i + |a + b|][|a|..];
  }

  /** `Until` runs over a written run `v` of characters that do not halt it, to the halting character after it. */
  lemma RunTo(text: string, j: nat, v: string, stop: Stop)
    requires j + |v| <= |text| && text[j..j + |v|] == v
    requires forall m :: 0 <= m < |v| ==> !Halts(stop, v[m])
    requires j + |v| == |text| || Halts(stop, text[j + |v|])
    ensures Until(text, j, stop) == j + |v|
  {
    forall m | j <= m < j + |v| ensures !Halts(stop, text[m]) {
      assert text[m] == text[j..j + |v|][m - j] == v[m - j];
    }
    UntilIs(text, j, j + |v|, stop);
  }

  /** A key written at offset `i` of `text` and followed by `=` is read up to that `=`. */
  lemma KeyRead(text: string, i: nat, key: string)
    requires IsKey(key) && i + |key| < |text| && text[i..i + |key|] == key && text[i + |key|] == '='
    ensures !IsSpace(text[i]) && Until(text, i + 1, KeyDelimiter) == i + |key|
  {
    assert text[i] == text[i..i + |key|][0] == key[0];
    Split(text, i, key[..1], key[1..]);
    assert key[..1] + key[1..] == key;
    forall m | 0 <= m < |key[1..]| ensures !Halts(KeyDelimiter, key[1..][m]) {
      assert key[1..][m] == key[m + 1];
      assert !IsSpace(key[m + 1]) && key[m + 1] != '=';
    }
    RunTo(text, i + 1, key[1..], KeyDelimiter);
  }

  /**
   * What the reference reads at the start of `sp`: a key up to an `=`, then
   * a bare value up to whitespace or the end of the text, or a closed quoted
   * value; the pass then goes on at `next`.
   */
  predicate TokenAt(text: string, sp: Span, next: nat) {
    sp.ks < sp.ke < |text| && !IsSpace(text[sp.ks]) && text[sp.ke] == '='
    && Until(text, sp.ks + 1, KeyDelimiter) == sp.ke
    && ((sp.vs == sp.ke + 1 && (sp.vs < |text| ==> text[sp.vs] != '"')
         && Until(text, sp.vs, Space) == sp.ve && next == sp.ve)
        || (sp.vs == sp.ke + 2 && sp.vs <= |text| && text[sp.ke + 1] == '"'
            && Until(text, sp.vs, Quote) == sp.ve < |text| && next == sp.ve + 1))
  }

  /** A token whose key `[i, ke)` ends at an `=` goes on to read a value. */
  lemma KeyTokenAt(text: string, i: nat, ke: nat)
    requires i < ke < |text| && !IsSpace(text[i]) && text[ke] == '='
    requires Until(text, i + 1, KeyDelimiter) == ke
    ensures Tokens(text, i) == ValueToken(text, i, ke)
  {
  }

  /**
   * A token with key `[i, ke)` and a bare value after the `=` at `ke` is
   * emitted, and the pass goes on where the value ends.
   */
  lemma BareTokenAt(text: string, i: nat, ke: nat)
    requires i < ke < |text| && !IsSpace(text[i]) && text[ke] == '=' && Until(text, i + 1, KeyDelimiter) == ke
    requires ke + 1 < |text| ==> text[ke + 1] != '"'
    ensures var ve := Until(text, ke + 1, Space);
      Tokens(text, i) == [Span(i, ke, ke + 1, ve)] + Tokens(text, ve)
  {
    KeyTokenAt(text, i, ke);
  }

  /**
   * A token with key `[i, ke)` and a closed quoted value after the `=` at
   * `ke` is emitted, and the pass goes on after the closing quote.
   */
  lemma QuotedTokenAt(text: string, i: nat, ke: nat)
    requires i < ke < |text| && !IsSpace(text[i]) && text[ke] == '=' && Until(text, i + 1, KeyDelimiter) == ke
    requires ke + 1 < |text| && text[ke + 1] == '"' && Until(text, ke + 2, Quote) < |text|
    ensures var q := Until(text, ke + 2, Quote);
      Tokens(text, i) == [Span(i, ke, ke + 2, q)] + Tokens(text, q + 1)
  {
    KeyTokenAt(text, i, ke);
  }

  /** The token at the start of `sp` is emitted as `sp`, and the pass goes on at `next`. */
  lemma TokenStep(text: string, sp: Span, next: nat)
    requires TokenAt(text, sp, next)
    ensures sp.Within(|text|) && next <= |text|
    ensures Tokens(text, sp.ks) == [sp] + Tokens(text, next)
  {
    if sp.vs == sp.ke + 1 {
      BareTokenAt(text, sp.ks, sp.ke);
    } else {
      QuotedTokenAt(text, sp.ks, sp.ke);
    }
  }

  /** Where `key=value` is written at offset `i` of `text`, the key, the `=` and the value lie one after the other. */
  lemma BareSlices(text: string, i: nat, key: string, value: string)
    requires var f := BareField(key, value); i + |f| <= |text| && text[i..i + |f|] == f
    ensures var ke := i + |key|; var e := i + |BareField(key, value)|;
      e == ke + 1 + |value| && ke < |text| && text[i..ke] == key && text[ke] == '=' && text[ke + 1..e] == value
  {
    var ke := i + |key|;
    Split(text, i, key + "=", value);
    Split(text, i, key, "=");
    assert text[ke] == text[ke..ke + 1][0];
  }

  /** A bare value written at offset `j` and followed by whitespace or the end of the text is read whole. */
  lemma BareRead(text: string, j: nat, value: string)
    requires IsBare(value) && j + |value| <= |text| && text[j..j + |value|] == value && EndsAt(text, j + |value|)
    ensures (j < |text| ==> text[j] != '"') && Until(text, j, Space) == j + |value|
  {
    forall m | 0 <= m < |value| ensures !Halts(Space, value[m]) {
    }
    RunTo(text, j, value, Space);
    if value != [] {
      assert text[j] == text[j..j + |value|][0];
    } else if j < |text| {
      Delimiters();
    }
  }

  /** Where `key="value"` is written at offset `i` of `text`, the key, the `="`, the value and the closing quote lie one after the other. */
  lemma QuotedSlices(text: string, i: nat, key: string, value: string)
    requires var f := QuotedField(key, value); i + |f| <= |text| && text[i..i + |f|] == f
    ensures var ke := i + |key|; var e := i + |QuotedField(key, value)|;
      ke + 2 + |value| == e - 1 < |text| && text[i..ke] == key && text[ke] == '=' && text[ke + 1] == '"'
      && text[ke + 2..e - 1] == value && text[e - 1] == '"'
  {
    var ke := i + |key|;
    var q := ke + 2 + |value|;
    Split(text, i, key + "=\"" + value, "\"");
    Split(text, i, key + "=\"", value);
    Split(text, i, key, "=\"");
    assert text[ke] == text[ke..ke + 2][0];
    assert text[ke + 1] == text[ke..ke + 2][1];
    assert text[q] == text[q..q + 1][0];
  }

  /** A quoted value written at offset `j` and followed by a double quote is read up to that quote. */
  lemma QuoteRead(text: string, j: nat, value: string)
    requires IsQuotable(value) && j + |value| < |text| && text[j..j + |value|] == value && text[j + |value|] == '"'
    ensures Until(text, j, Quote) == j + |value|
  {
    RunTo(text, j, value, Quote);
  }

  /** A bare field written from offset `i` to `e` is read as its pair, and the pass goes on at `e`. */
  lemma BareFieldAt(text: string, i: nat, e: nat, key: string, value: string)
    requires IsKey(key) && IsBare(value)
    requires e == i + |BareField(key, value)| <= |text| && text[i..e] == BareField(key, value) && EndsAt(text, e)
    ensures var ke := i + |key|;
      TokenAt(text, Span(i, ke, ke + 1, e), e) && View(text, Span(i, ke, ke + 1, e)) == Pair(key, value)
  {
    BareSlices(text, i, key, value);
    BareRead(text, i + |key| + 1, value);
    KeyRead(text, i, key);
  }

  /** A quoted field written from offset `i` to `e` is read as its pair, and the pass goes on at `e`, right after its closing quote. */
  lemma QuotedFieldAt(text: string, i: nat, e: nat, key: string, value: string)
    requires IsKey(key) && IsQuotable(value)
    requires e == i + |QuotedField(key, value)| <= |text| && text[i..e] == QuotedField(key, value)
    ensures var ke := i + |key|;
      TokenAt(text, Span(i, ke, ke + 2, e - 1), e) && View(text, Span(i, ke, ke + 2, e - 1)) == Pair(key, value)
  {
    QuotedSlices(text, i, key, value);
    QuoteRead(text, i + |key| + 2, value);
    KeyRead(text, i, key);
  }

  /** A field written from offset `i` to `e` is read as its pair through the span `sp`, and the pass goes on at `e`. */
  lemma FieldSpan(text: string, i: nat, e: nat, pr: Pair) returns (sp: Span)
    requires Encodable(pr)
    requires e == i + |Field(pr)| <= |text| && text[i..e] == Field(pr) && EndsAt(text, e)
    ensures sp.ks == i && sp.Within(|text|) && TokenAt(text, sp, e) && View(text, sp) == pr
  {
    if IsBare(pr.value) {
      assert Field(pr) == BareField(pr.key, pr.value);
      BareFieldAt(text, i, e, pr.key, pr.value);
      sp := Span(i, i + |pr.key|, i + |pr.key| + 1, e);
    } else {
      assert Field(pr) == QuotedField(pr.key, pr.value);
      QuotedFieldAt(text, i, e, pr.key, pr.value);
      sp := Span(i, i + |pr.key|, i + |pr.key| + 2, e - 1);
    }
  }

  /** A token read as `sp` yields the pair `pr`, and the pass goes on across whitespace up to `j`. */
  lemma FieldStep(text: string, sp: Span, n: nat, j: nat, pr: Pair)
    requires sp.Within(|text|) && TokenAt(text, sp, n) && View(text, sp) == pr
    requires n <= j <= |text| && forall m {:trigger IsSpace(text[m])} :: n <= m < j ==> IsSpace(text[m])
    ensures Views(text, Tokens(text, sp.ks)) == [pr] + Views(text, Tokens(text, j))
  {
    TokenStep(text, sp, n);
    SkipBlank(text, n, j);
    ViewsCons(text, Tokens(text, sp.ks), sp, Tokens(text, j));
  }

  /**
   * A field at offset `i` yields its pair, and the pass goes on at `j`
   * across the whitespace that follows the field.
   */
  lemma FieldAt(text: string, i: nat, j: nat, pr: Pair)
    requires Encodable(pr)
    requires var f := Field(pr); i + |f| <= j <= |text| && text[i..i + |f|] == f && EndsAt(text, i + |f|)
    requires forall m {:trigger IsSpace(text[m])} :: i + |Field(pr)| <= m < j ==> IsSpace(text[m])
    ensures Views(text, Tokens(text, i)) == [pr] + Views(text, Tokens(text, j))
  {
    var sp := FieldSpan(text, i, i + |Field(pr)|, pr);
    FieldStep(text, sp, i + |Field(pr)|, j, pr);
  }

  /** Several fields render as the first, the first separator, then the others. */
  lemma RenderCons(ps: seq<Pair>, seps: seq<string>)
    requires |ps| > 1 && forall k :: 0 <= k < |ps| ==> Encodable(ps[k])
    requires |seps| == |ps| - 1
    ensures Render(ps, seps) == Field(ps[0]) + seps[0] + Render(ps[1..], seps[1..])
    ensures |Render(ps, seps)| == |Field(ps[0])| + |seps[0]| + |Render(ps[1..], seps[1..])|
  {
  }

  /**
   * The first of several rendered fields at offset `i` yields its pair, and
   * the pass goes on where the rendering of the others begins.
   */
  lemma RenderHead(text: string, i: nat, e: nat, ps: seq<Pair>, seps: seq<string>)
    requires |ps| > 1 && forall k :: 0 <= k < |ps| ==> Encodable(ps[k])
    requires |seps| == |ps| - 1 && |seps[0]| > 0 && Blank(seps[0])
    requires e == i + |Render(ps, seps)| <= |text| && text[i..e] == Render(ps, seps) && EndsAt(text, e)
    ensures var j := i + |Field(ps[0])| + |seps[0]|;
      e == j + |Render(ps[1..], seps[1..])| && text[j..e] == Render(ps[1..], seps[1..])
      && Views(text, Tokens(text, i)) == [ps[0]] + Views(text, Tokens(text, j))
  {
    RenderCons(ps, seps);
    FieldThen(text, i, i + |Field(ps[0])| + |seps[0]|, e, ps[0], seps[0], Render(ps[1..], seps[1..]));
  }

  /** A field, whitespace, then any `rest` from offset `i`: the field yields its pair and the pass goes on at `j`, where `rest` begins. */
  lemma FieldThen(text: string, i: nat, j: nat, e: nat, pr: Pair, sep: string, rest: string)
    requires Encodable(pr) && |sep| > 0 && Blank(sep) && j == i + |Field(pr)| + |sep|
    requires e == j + |rest| <= |text| && text[i..e] == Field(pr) + sep + rest
    ensures text[j..e] == rest && Views(text, Tokens(text, i)) == [pr] + Views(text, Tokens(text, j))
  {
    Parts(text, i, Field(pr), sep, rest);
    FieldAt(text, i, j, pr);
  }

  /** The pairs after the first are encodable too. */
  lemma EncodableTail(ps: seq<Pair>)
    requires |ps| > 0 && forall k :: 0 <= k < |ps| ==> Encodable(ps[k])
    ensures forall k :: 0 <= k < |ps[1..]| ==> Encodable(ps[1..][k])
  {
    forall k | 0 <= k < |ps[1..]| ensures Encodable(ps[1..][k]) {
      assert ps[1..][k] == ps[k + 1];
    }
  }

  /** The first separator, and those after it, are non-empty whitespace. */
  lemma SeparatorsTail(seps: seq<string>)
    requires |seps| > 0 && Separators(seps)
    ensures |seps[0]| > 0 && Blank(seps[0])
    ensures Separators(seps[1..])
  {
    forall k | 0 <= k < |seps[1..]| ensures |seps[1..][k]| > 0 && Blank(seps[1..][k]) {
      assert seps[1..][k] == seps[k + 1];
    }
  }

  /** Proof helper (regrouping of sequences): `a` is `[p]` then `m`, and `m` is `q` then `n`. */
  lemma Chain(p: Pair, q: seq<Pair>, a: seq<Pair>, m: seq<Pair>, n: seq<Pair>)
    requires a == [p] + m && m == q + n
    ensures a == ([p] + q) + n
  {
    Associative([p], q, n);
  }

  /**
   * Rendered fields written at offset `i` up to `e` yield their pairs in
   * order, and the pass goes on at `e`.
   */
  lemma {:induction false} RenderAt(text: string, i: nat, e: nat, ps: seq<Pair>, seps: seq<string>)
    requires forall k :: 0 <= k < |ps| ==> Encodable(ps[k])
    requires (|seps| == if ps == [] then 0 else |ps| - 1) && Separators(seps)
    requires e == i + |Render(ps, seps)| <= |text| && text[i..e] == Render(ps, seps)
    requires ps != [] ==> EndsAt(text, e)
    ensures Views(text, Tokens(text, i)) == ps + Views(text, Tokens(text, e))
    decreases |ps|, 1
  {
    if ps == [] {
      assert ps + Views(text, Tokens(text, i)) == Views(text, Tokens(text, i));
    } else if |ps| == 1 {
      assert Render(ps, seps) == Field(ps[0]);
      FieldAt(text, i, e, ps[0]);
      assert ps == [ps[0]];
    } else {
      RenderMore(text, i, e, ps, seps);
    }
  }

  /** The case of `RenderAt` with more than one field: the first, then the others. */
  lemma {:induction false} RenderMore(text: string, i: nat, e: nat, ps: seq<Pair>, seps: seq<string>)
    requires |ps| > 1 && forall k :: 0 <= k < |ps| ==> Encodable(ps[k])
    requires |seps| == |ps| - 1 && Separators(seps)
    requires e == i + |Render(ps, seps)| <= |text| && text[i..e] == Render(ps, seps) && EndsAt(text, e)
    ensures Views(text, Tokens(text, i)) == ps + Views(text, Tokens(text, e))
    decreases |ps|, 0
  {
    var j := i + |Field(ps[0])| + |seps[0]|;
    SeparatorsTail(seps);
    RenderHead(text, i, e, ps, seps);
    EncodableTail(ps);
    RenderAt(text, j, e, ps[1..], seps[1..]);
    Chain(ps[0], ps[1..], Views(text, Tokens(text, i)), Views(text, Tokens(text, j)), Views(text, Tokens(text, e)));
    assert [ps[0]] + ps[1..] == ps;
  }

  /** Where `f + sep + rest` lies in `text`, `f`, `sep` and `rest` lie one after the other. */
  lemma Parts(text: string, i: nat, f: string, sep: string, rest: string)
    requires Blank(sep)
    requires i + |f + sep + rest| <= |text| && text[i..i + |f + sep + rest|] == f + sep + rest
    ensures text[i..i + |f|] == f
    ensures text[i + |f| + |sep|..i + |f| + |sep| + |rest|] == rest
    ensures forall m {:trigger IsSpace(text[m])} :: i + |f| <= m < i + |f| + |sep| ==> IsSpace(text[m])
    ensures |sep| > 0 ==> EndsAt(text, i + |f|)
  {
    var whole := f + sep + rest;
    var e := i + |whole|;
    assert text[i..i + |f|] == text[i..e][..|f|];
    assert text[i + |f| + |sep|..e] == text[i..e][|f| + |sep|..];
    forall m | i + |f| <= m < i + |f| + |sep| ensures IsSpace(text[m]) {
      assert text[m] == text[i..e][m - i] == sep[m - i - |f|];
    }
  }

  /** Where whitespace surrounds `r`, `r` lies between `lead` and `trail` and a token in `r` ends with it. */
  lemma Layout(lead: string, r: string, trail: string)
    requires Blank(lead) && Blank(trail)
    ensures var text := lead + r + trail; var e := |lead| + |r|;
      text[|lead|..e] == r && EndsAt(text, e)
      && (forall m {:trigger IsSpace(text[m])} :: 0 <= m < |lead| ==> IsSpace(text[m]))
      && (forall m {:trigger IsSpace(text[m])} :: e <= m < |text| ==> IsSpace(text[m]))
  {
    var text := lead + r + trail;
    var e := |lead| + |r|;
    assert text[|lead|..e] == r;
    forall m | 0 <= m < |lead| ensures IsSpace(text[m]) {
      assert text[m] == lead[m];
    }
    forall m | e <= m < |text| ensures IsSpace(text[m]) {
      assert text[m] == trail[m - e];
    }
  }

  /** Proof helper (regrouping of sequences): `a` is `b`, which is `ps` followed by nothing. */
  lemma Close(a: seq<Pair>, b: seq<Pair>, c: seq<Pair>, ps: seq<Pair>)
    requires a == b && b == ps + c && c == []
    ensures a == ps
  {
  }

  /** Proof helper: nothing is read at the end of the text. */
  lemma AtEnd(text: string)
    ensures Views(text, Tokens(text, |text|)) == []
  {
  }

  /**
   * Round trip: pairs with well-formed keys, rendered with a non-empty run
   * of whitespace of its own in each gap and any whitespace around them,
   * parse back to exactly those pairs, in order and with duplicates kept.
   */
  lemma RoundTrip(ps: seq<Pair>, seps: seq<string>, lead: string, trail: string)
    requires forall k :: 0 <= k < |ps| ==> Encodable(ps[k])
    requires (|seps| == if ps == [] then 0 else |ps| - 1) && Separators(seps)
    requires Blank(lead) && Blank(trail)
    ensures Parse(lead + Render(ps, seps) + trail) == ps
  {
    var r := Render(ps, seps);
    var text := lead + r + trail;
    var e := |lead| + |r|;
    Layout(lead, r, trail);
    SkipBlank(text, 0, |lead|);
    RenderAt(text, |lead|, e, ps, seps);
    SkipBlank(text, e, |text|);
    AtEnd(text);
    Close(Views(text, Tokens(text, 0)), Views(text, Tokens(text, |lead|)), Views(text, Tokens(text, e)), ps);
  }
}
