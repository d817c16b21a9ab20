# logfmt tokenizer, modelled and verified in Dafny

This project models a zero-copy logfmt tokenizer. The tokenizer turns a line
such as `a=1 msg="hello world" b=` into `(key, value)` pairs whose slices
borrow from the input. A finite-state machine (`State` and `State::next`)
reads the text one `(offset, character)` step at a time. The iterator
(`Iter` and `Iterator::next`) feeds the machine characters until it
completes a value, resets it, and yields the pair. Once the text runs out,
the iterator applies the end-of-input rules:

- A key followed by `=` yields an empty value.
- An unquoted value runs to the end.
- A bare key or an unterminated quoted value yields nothing.

The modules follow the program:

- `Machine`: the state machine, with Rust's `char::is_whitespace` as the Unicode White_Space table.
- `Driver`: the iterator. `Iter` is a class whose `Next` method loops over the characters. It is proved against `Drive`, a function that specifies one call, and against `Pass`, the sequence of all the calls.
- `Slices`: a pair as the offsets of its two slices (`Span`), and how a span reads back as a `Pair`.
- `Reference`: an independent token-level definition of what a text yields (`Tokens`, `Parse`), with no state machine.
- `Correctness`: the iterator yields exactly the reference tokens. `Collect` (what `collect_pairs` does) returns `Parse(text)`.
- `Encoding`: a writer for pairs, and the round trip `Parse(Render(ps)) == ps` for every list of pairs that can be written.
- `Cases`: a few inputs and the exact pairs they yield.
- `Wrappers`: `Option`.

## Model

| member | source | states |
|---|---|---|
| Machine.Step | src/lib.rs:62-88 | One transition keeps every offset of the state at most the offset read so far, with a non-empty key and the value after the `=`. A value completes only at the current offset, and never from `Init` or `KeyStart`. From `KeyEnd` or `ValueStart` it completes exactly when the character is whitespace. From `ValueStartWithQuote` it completes exactly on a `"`, and never on whitespace. `ValueEnd` always steps to `Init`. |
| Machine.Delimiters | src/lib.rs:68-76 | `=` and `"` are not whitespace, and space and tab are. So the `'='` and `'"'` arms never overlap the `is_whitespace` guards, and their order in the match does not matter. |
| Slices.View | src/lib.rs:31 | A pair read from a span has a key as long as `[ks, ke)`, which is never empty, and a value as long as `[vs, ve)`. |
| Driver.Finish | src/lib.rs:36-46 | At the end of the text: `KeyEnd` yields `(key, "")` and `ValueStart` yields `(key, rest of text)`, both resetting to `Init`. Every other state yields `None` and stays as it is. A pair is yielded exactly in those two states. |
| Driver.Drive | src/lib.rs:26-47 | One call moves the cursor forward and keeps the state admissible. A yielded pair lies before the cursor and leaves the state `Init`. `None` comes only at the end of the text, with no pending `KeyEnd` or `ValueStart`. A call that yields a pair either consumed a character or completed a pending token at the end. |
| Driver.Exhausted | src/lib.rs:45 | Once a call returns `None`, every later call returns `None` and changes nothing. |
| Driver.Pass | src/lib.rs:23-47 | Repeated calls yield at most one pair per remaining character, plus one for a pending token. |
| Driver.PassWithin | src/lib.rs:31-43 | Every pair the calls yield is a pair of in-bounds slices of the text. |
| Driver.Iter.constructor | src/lib.rs:7-14 | `logfmt` starts a pass at offset 0 in state `Init`. |
| Driver.Iter.Next | src/lib.rs:26-47 | The loop returns exactly what `Drive` specifies: the same pair, cursor and state. A pair leaves the state `Init`, and `None` leaves the cursor at the end of the text. |
| Reference.ParsedShape | src/lib.rs:62-88 | Every pair of a text comes from a key of non-whitespace characters with no `=` after its first character, then `=`, then either a bare value up to whitespace or the end, or a value between two double quotes. The pairs come in text order and do not overlap. |
| Correctness.KeyRun | src/lib.rs:68-72 | Inside a key the machine absorbs every character up to the next `=` or whitespace. |
| Correctness.QuotedOpens | src/lib.rs:74 | A `"` right after the `=` opens a quoted value that starts after the quote. |
| Correctness.QuoteRun | src/lib.rs:82-85 | A quoted value absorbs everything, whitespace included, up to the next `"`, which completes it. With no closing quote the pass ends with no pair. |
| Correctness.EmptyValue | src/lib.rs:75 | Whitespace right after the `=`: the pass from there is the reference's bare value, which is empty and ends at that whitespace. |
| Correctness.BareOpens | src/lib.rs:76 | Any other character after the `=` opens a bare value at that character. |
| Correctness.BareRun | src/lib.rs:78-81 | A bare value absorbs everything up to the next whitespace, which completes it. With none, it runs to the end of the text and is yielded there. |
| Correctness.Emit | src/lib.rs:29-31 | A character that completes a value yields that value's pair, and the pass restarts in `Init` after that character. |
| Correctness.Ends | src/lib.rs:36-46 | At the end of the text, only `KeyEnd` and `ValueStart` yield a last pair. |
| Correctness.PassIsTokens | src/lib.rs:26-88 | Between tokens, the pairs that repeated `next` calls yield are exactly the reference tokens of the rest of the text. |
| Correctness.Collect | src/lib.rs:95-97 | Draining the iterator until `None` collects exactly `Parse(text)`. |
| Encoding.BlankYieldsNothing | src/lib.rs:103-105 | An empty or whitespace-only text yields no pairs. |
| Encoding.RoundTrip | src/lib.rs:62-88 | Any list of pairs reads back as the same list, duplicates and order included. Each pair is written as `key=value` when its value can go bare (no whitespace, no leading `"`), and as `key="value"` otherwise, which needs a value with no `"`. Each gap between fields is its own non-empty run of whitespace, and any whitespace may come before and after. The key must be non-empty, with no whitespace and no `=` after its first character. |
| Cases.MixedSeparators | src/lib.rs:114 | `a=1 \t  b=2   c=3`, with a different run of whitespace in each gap, yields `("a", "1")`, `("b", "2")` and `("c", "3")`. It is an instance of `RoundTrip`. |
| Cases.EmptyValues | src/lib.rs:118 | `a= b=` yields `("a", "")` and `("b", "")`. |
| Cases.QuotedSpaceKept | src/lib.rs:120-124 | A quoted value keeps its spaces and loses its quotes, and the next pair follows it. |
| Cases.EmptyQuoted | src/lib.rs:130 | `m=""` yields `("m", "")`. |
| Cases.EqualsInValue | src/lib.rs:134-135 | Only the first `=` ends the key: `u=a?b=c` yields `("u", "a?b=c")`. |
| Cases.DuplicatesKept | src/lib.rs:139 | A repeated key yields one pair per occurrence, in order. |
| Cases.TrailingKeyDropped | src/lib.rs:45 | A key with no `=` at the end of the text yields nothing: `a=1 b` yields only `("a", "1")`. |
| Cases.UnterminatedQuoteDropped | src/lib.rs:45 | A quoted value never closed yields nothing: `a=1 m="x y` yields only `("a", "1")`. |

## Left out

- Offsets are character indices, not UTF-8 byte offsets. The slices denote the same text. The `i + c.len_utf8()` at src/lib.rs:74 is `i + 1` because `"` is one byte wide.
- `usize` arithmetic is unbounded `nat`. Every offset is at most the text length, so no overflow is possible.
- Lifetimes, the `Logfmt` trait and the `CharIndices` adaptor. The iterator keeps its cursor as an offset (`pos`), and a borrowed slice is a `Span` read back with `View`.
- `Default::default()` at src/lib.rs:39 is modelled as the empty slice at the end of the text. Both are the empty string.
- The `ValueEnd` arm at src/lib.rs:86 cannot be reached from the iterator, which never stores a `ValueEnd`. `Step` keeps it for totality, and `Step`'s contract says it goes to `Init`.
- The derived `Debug`, `Clone` and `Copy` implementations, and `Iterator` methods other than `next`. `collect` is modelled only as the loop in `Collect`.
- Encoding.RoundTrip: the writer always writes a value that can go bare as bare. So an input that quotes such a value, like `msg=""` at src/lib.rs:130, is not an instance of the round trip; `Cases.EmptyQuoted` covers that input.
- The test table at src/lib.rs:101-143 is covered in two ways. `Encoding.RoundTrip` covers every case that is pairs with whitespace between and around them, except an input that quotes a value that could go bare. The `Cases` lemmas spell out a selection of inputs.
