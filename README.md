# Datalog core: matcher, identifiers, map update and string escapes

A Dafny model of the parts of the `datalog` crate (a Datalog interpreter in
Rust) that hold logic of their own:

- **The two-sided pattern matcher** (`src/ast/pattern_match.rs`). Two
  argument lists of equal length come from independent variable scopes and
  are aligned position by position. When a variable on one side meets a name
  on the other, the variable is bound in that side's bindings. The binding is
  then applied at once, in place, to every occurrence on that side. A clash
  of two names ends the match with `None`. The model keeps the source's
  form: `PatternMatch.PatternMatch` and `PatternMatch.ApplyBinding` are
  methods over `array<Term>` with loops. They are proved against the
  recursive function `PatternMatch.MatchFrom`, which carries the matcher's
  meaning:
  - on success, each side is its input with its own bindings applied;
  - the sides agree wherever the inputs did not both hold a variable;
  - the match succeeds whenever any pair of bindings makes the two sides
    equal, and its bindings are part of every such pair.
- **Variables, names and symbols** (`src/ast/variable.rs`, `name.rs`,
  `symbol.rs`). Each wraps its text. Each has a validity predicate over its
  characters and a `Display` that prints the text bare only when every
  character is an identifier character. The validity predicates are shown
  to agree with the regular expressions the crate's property tests use.
- **`entry_fn`** (`src/util.rs`). It takes one entry out of a hash map and
  hands the old value to a function. Whatever the function returns is put
  back. The map is passed in and the updated map returned. Frame and size
  properties are proved.
- **Decoding of quoted names** in the parse-tree converter
  (`src/parser/convert.rs`). It covers hexadecimal escapes, accumulated in a
  `u32` by `n = (n << 4) | digit`, the six predefined escapes, single raw
  characters, and the check that a decoded string is a valid name. Parser
  tokens are plain values here: a list of hex digits, the text after a
  backslash, the text of a raw character. Every panic of the converter
  (`unwrap`, `assert_eq!`, `unimplemented!`) that these tokens can reach
  is a `Failure` value, and `ParsingError` is the one error the converter
  returns.

Modules: `Wrappers` (`Option`, `Result`), `Chars` (`Iterator::all` and
regular-expression character classes), `Variables`, `Symbols`, `Names`,
`PatternMatch`, `EntryMaps`, `Escapes`.

Two facts about the matcher follow from the proofs.

- The `contains_key` early returns (`pattern_match.rs:19-21`, `26-28`) can
  never be taken. `apply_binding` removes every occurrence of a variable as
  soon as it is bound, so a bound variable is never met again, and no key
  is inserted twice. `MatchFrom` still models both branches as written.
  `PatternMatch.ContainsKeyUnreachable` shows that the variable met at each
  step is unbound. `PatternMatch.MatchNeverRebinds` shows that the matcher
  equals `PatternMatch.MatchFromUnchecked`, the same loop without the two
  checks.
- A position holding a variable on both sides records nothing. A successful
  match therefore need not make the two sides equal: `[X, X, c]` against
  `[Y, a, Y]` gives `[a, a, c]` and `[c, a, c]`
  (`PatternMatch.VariablePairExample`). The two sides never bind to each
  other, so this is how the matcher is designed to behave.

## Model

| member | source | states |
|---|---|---|
| Chars.AllAt | src/ast/variable.rs:26 | `chars.all(p)` holds exactly when every character of the string satisfies `p` |
| Variables.CharClasses | src/ast/variable.rs:45-56 | `is_var_char` is the class `[A-Za-z0-9_]` and `is_var_start_char` the class `[A-Z_]` of the variable regular expression |
| Variables.IsValidIff | src/ast/variable.rs:23-30 | a string is a valid variable iff it is non-empty, starts with `A`-`Z` or `_`, and every later character is in `[A-Za-z0-9_]`; so `""` is not valid |
| Variables.IsValid | src/ast/variable.rs:23-30 | definition: a start character, then `chars.all(is_var_char)` over the rest; `""` is not valid. `Variables.IsValidIff` states it position by position |
| Variables.New | src/ast/variable.rs:14-20 | a variable built from `s` holds exactly `s` |
| Variables.NewAgreesWithRegex | src/ast/variable.rs:56-68 | `Variable::new(s)` is `Some` iff `s` matches `^[A-Z_][A-Za-z0-9_]*$`, in both directions |
| Variables.AsRef | src/ast/variable.rs:33-37 | definition: the stored text |
| Variables.Display | src/ast/variable.rs:39-43 | definition: the stored text, unchanged; `Variables.DisplayRoundTrip` states its round trip |
| Variables.DisplayRoundTrip | src/ast/variable.rs:39-43 | displaying the variable built from `s` gives `s`, and that rebuilds the same variable |
| Symbols.IsValid | src/ast/symbol.rs:19-25 | definition: non-empty, and the first character is neither `A`-`Z` nor `_` |
| Symbols.New | src/ast/symbol.rs:10-25 | `Ok` iff the text is non-empty and does not start with `A`-`Z` or `_`; `Ok` wraps the text, `Err` hands back exactly the input string |
| Symbols.AsRef | src/ast/symbol.rs:28-32 | definition: the wrapped text |
| Symbols.From | src/ast/symbol.rs:50-54 | succeeds exactly on the strings `Symbol::new` accepts, with the same text; otherwise it is the panic |
| Symbols.IntoString | src/ast/symbol.rs:56-60 | definition: gives up the wrapped text |
| Symbols.IntoStringRoundTrip | src/ast/symbol.rs:56-60 | converting a valid symbol into a `String` and back with `Symbol::new` gives the same symbol |
| Symbols.Display | src/ast/symbol.rs:34-47 | when display succeeds it prints exactly the text; `Symbols.DisplayIff` says when it succeeds |
| Symbols.DisplayIff | src/ast/symbol.rs:34-47 | display prints the text verbatim iff every character is in `[A-Za-z0-9_-]`, and panics iff some character is not |
| Names.IsValid | src/ast/name.rs:22-29 | definition: non-empty, and the first character is neither `A`-`Z` nor `_` |
| Names.New | src/ast/name.rs:14-29 | `Some` iff the text is non-empty and does not start with `A`-`Z` or `_`; the name holds exactly the text |
| Names.AsRef | src/ast/name.rs:32-36 | definition: the wrapped text |
| Names.NewAgreesWithRegex | src/ast/name.rs:55-67 | every match of `^[^A-Z_].*$` is a valid name; for strings with no newline after the first character the two agree exactly |
| Names.NameOrVariable | src/ast/name.rs:23-29 | no string is both a name and a variable; a non-empty string is a name exactly when its first character cannot start a variable |
| Names.SameValidityAsSymbol | src/ast/name.rs:23-29 | names and symbols accept exactly the same strings |
| Names.Display | src/ast/name.rs:38-51 | when display succeeds it prints exactly the text; `Names.DisplayIff` says when it succeeds |
| Names.DisplayIff | src/ast/name.rs:38-51 | display prints the text verbatim iff every character is in `[A-Za-z0-9_]`, and panics iff some character is not |
| Names.DisplayRoundTrip | src/ast/name.rs:38-51 | what a name displays as builds the same name again |
| Names.DisplayNarrowerThanSymbol | src/ast/name.rs:40-43 | a name that displays bare also displays bare as a symbol, but not conversely: `a-b` is bare as a symbol and a panic as a name |
| PatternMatch.Apply | src/ast/pattern_match.rs:38-45 | applying bindings keeps the length of the list; `PatternMatch.ApplyReplacesBound` says what each position becomes |
| PatternMatch.ApplyReplacesBound | src/ast/pattern_match.rs:38-45 | after applying bindings no bound variable is left; names are kept; a variable is kept exactly when it is unbound |
| PatternMatch.ApplyBinding | src/ast/pattern_match.rs:38-45 | `apply_binding` rewrites, in place, exactly the terms equal to `Var(var)` to `Name(name)` and keeps every other position |
| PatternMatch.MatchFrom | src/ast/pattern_match.rs:13-34 | matching from position `i` keeps the length of both lists |
| PatternMatch.Match | src/ast/pattern_match.rs:4-36 | `pattern_match` as a function of its inputs: matching from position 0 with empty bindings; a success keeps both lengths |
| PatternMatch.PatternMatch | src/ast/pattern_match.rs:4-36 | `pattern_match` returns `Some` exactly when `Match` succeeds. It then returns `Match`'s two bindings and leaves both slices as `Match` rewrote them. On `None` nothing is claimed about the slices |
| PatternMatch.ApplyExtend | src/ast/pattern_match.rs:18-24 | binding a fresh variable and applying it to an already rewritten list equals applying the extended bindings to the original list |
| PatternMatch.MatchIsApply | src/ast/pattern_match.rs:13-34 | on success each side is its input with that side's bindings applied, so no key of `lb` (of `rb`) occurs as a variable in `l` (in `r`) |
| PatternMatch.MatchAgrees | src/ast/pattern_match.rs:13-34 | on success the two sides are equal at every position where the inputs did not both hold a variable |
| PatternMatch.NameClashFails | src/ast/pattern_match.rs:15-17 | two different names at the same position make the match fail |
| PatternMatch.MatchComplete | src/ast/pattern_match.rs:4-36 | whenever bindings `sl`, `sr` make the two sides equal, the match succeeds and its bindings agree with `sl` and `sr`; a `None` therefore means no bindings can make the sides agree |
| PatternMatch.MatchFromUnchecked | src/ast/pattern_match.rs:13-34 | reference definition: the loop with the two `contains_key` returns removed |
| PatternMatch.ContainsKeyUnreachable | src/ast/pattern_match.rs:18-31 | while each side is its input with that side's bindings applied, the variable met at the current position is not yet bound, and matching from there equals the loop without the `contains_key` returns |
| PatternMatch.MatchNeverRebinds | src/ast/pattern_match.rs:18-31 | the `contains_key` returns are never taken, so no key is inserted twice: `pattern_match` equals the loop without them |
| PatternMatch.LiteralExample | src/ast/pattern_match.rs:47-75 | `[X, Y, X, Y]` against `[1, 1, X, X]` leaves both sides `[1, 1, 1, 1]` with `lb = {X↦1, Y↦1}` and `rb = {X↦1}` |
| PatternMatch.ConflictExample | src/ast/pattern_match.rs:15-24 | `[X, X]` against `[a, b]` fails: binding `X` to `a` rewrites the second `X`, which then clashes with `b` |
| PatternMatch.VariablePairExample | src/ast/pattern_match.rs:32 | a variable against a variable records no binding and rewrites nothing, so later positions may bind the two differently |
| PatternMatch.LiteralTest | src/ast/pattern_match.rs:47-60 | the `literal` test stated over arrays: `pattern_match` on `[X, Y, X, Y]` and `[1, 1, X, X]` returns `Some` and leaves both arrays `[1, 1, 1, 1]` (asserted in its body; it has no contract) |
| EntryMaps.Updated | src/util.rs:12-15 | definition: the map with the entry for the key set to the value when `Some`, removed when `None`; `EntryMaps.UpdatedFrame` and `EntryMaps.UpdatedSize` state its properties |
| EntryMaps.EntryFn | src/util.rs:7-16 | `entry_fn` calls `f` once with the key and the prior value. The result is the map with that entry replaced by `f`'s answer: inserted when `Some`, removed when `None` |
| EntryMaps.UpdatedFrame | src/util.rs:12-15 | afterwards the key holds exactly what `f` returned, and every other key keeps its entry |
| EntryMaps.UpdatedSize | src/util.rs:12-15 | the map grows by one only when the key was absent and a value comes back, and shrinks by one only when the key was present and nothing comes back. Otherwise its size is unchanged |
| EntryMaps.UpdatedUnchanged | src/util.rs:12-15 | when `f` hands back the value it was given, the map is unchanged |
| Escapes.HexDigitValue | src/parser/convert.rs:182-200 | a digit's value is below 16 and the digit is its lower- or upper-case spelling; any other character is the unrecognized-digit panic carrying that character |
| Escapes.HexDigitIff | src/parser/convert.rs:182-200 | a character is the hex digit of value `v < 16` iff it is the lower- or upper-case spelling of `v`; no digit has a value of 16 or more; any other character is the unrecognized-digit panic |
| Escapes.HexWord | src/parser/convert.rs:179-201 | the accumulated value always fits in a `u32`; a failure is the unrecognized-digit panic for one of the digits |
| Escapes.HexWordBound | src/parser/convert.rs:179-182 | after `k ≤ 8` digits the value is below `16^k`, so nothing is shifted out |
| Escapes.HexWordOfDigits | src/parser/convert.rs:179-201 | reading back the `k` hex digits of any `n < 16^k` (`k ≤ 8`) gives `n`, so the accumulation is big-endian base 16 |
| Escapes.ShiftOrIsMultiplyAdd | src/parser/convert.rs:182 | on a `u32`, `(n << 4) \| d` with `d < 16` is `16n + d` wrapped to 32 bits |
| Escapes.HexWordStops | src/parser/convert.rs:199 | the first unrecognized digit decides the outcome; later digits are not looked at |
| Escapes.FromU32 | src/parser/convert.rs:202-206 | a value gives a character iff it is a Unicode scalar value (below `0x110000` and not a surrogate), and that character has the value as its code point; otherwise it is the bad-hex-escape panic (the value it carries is a detail of the model: the source's message has none) |
| Escapes.HexEscape | src/parser/convert.rs:178-207 | a hex escape gives a character iff its digits are all hex digits and their value is a Unicode scalar value, and the character has that value as its code point; otherwise it is the first bad digit or the bad-hex-escape panic |
| Escapes.ConvertHexEscape | src/parser/convert.rs:178-207 | the digit loop returns what `HexEscape` gives: the scalar value of the digits, or the first failure |
| Escapes.HexEscapeRoundTrip | src/parser/convert.rs:178-207 | every character is decoded back from its `k`-digit hex escape whenever `k ≤ 8` digits can hold it |
| Escapes.SurrogateEscapeFails | src/parser/convert.rs:202-206 | `\ud800` is a bad hex escape |
| Escapes.PredefinedEscape | src/parser/convert.rs:208-216 | a decoded predefined escape is the character whose escape letter is the text; any other text is the unrecognized-escape panic carrying that text |
| Escapes.PredefinedEscapeIff | src/parser/convert.rs:208-216 | `n`, `r`, `t`, `\`, `"`, `'` decode to newline, carriage return, tab, backslash, double and single quote, and these are the only escapes that decode |
| Escapes.Escape | src/parser/convert.rs:174-223 | `convert_escape` never returns an error: every failure is a panic |
| Escapes.ConvertEscape | src/parser/convert.rs:174-223 | `convert_escape` on a hex or predefined escape gives what `Escape` specifies |
| Escapes.ConvertChar | src/parser/convert.rs:150-172 | a raw token decodes iff its text is exactly one character, and gives that character; an escape token holding other than one escape is the count panic; every failure is a panic, never a returned error |
| Escapes.RawCharIff | src/parser/convert.rs:154-159 | a raw character token decodes to `c` iff its text is exactly `c`; any other length is a panic |
| Escapes.DecodeString | src/parser/convert.rs:128-132 | a decoded string has one character per token; a failure is always a panic, so the `?` at line 132 never returns a `ParsingError` |
| Escapes.DecodeStringAt | src/parser/convert.rs:128-132 | decoding succeeds iff every token converts. Each position then holds its token's character; otherwise the error is that of the first failing token |
| Escapes.DecodeQuote | src/parser/convert.rs:128-132 | every string is decoded back from its spelling as tokens (predefined escapes for the six special characters, raw characters otherwise) |
| Escapes.DecodeAppend | src/parser/convert.rs:128-132 | decoding is token by token: two decodable token lists decode together to the concatenation |
| Escapes.ConvertName | src/parser/convert.rs:116-148 | a result is always a valid name. An identifier gives its own name, or the `unwrap` panic when it is not a valid name. A `ParsingError` comes only from a quoted string that decodes |
| Escapes.QuotedNameIff | src/parser/convert.rs:125-139 | a quoted string gives the name `n` iff it decodes to `n`'s text and that text is a valid name; a string that decodes to a non-name is a parsing error, not a panic |
| Escapes.UppercaseStringRejected | src/parser/convert.rs:125-139 | `"X"` decodes, but is rejected as a name with a parsing error |
| Escapes.QuotedThenHexEscape | src/parser/convert.rs:125-139 | the spelling of a name followed by one hex escape gives the name extended by the escaped character |
| Escapes.LambdaEscape | src/parser/ast_tests.rs:111 | the escape `\u03bb` is `λ` |
| Escapes.QuotedNameExample | src/parser/ast_tests.rs:111 | `"qwerty\nasdf\nλ"` is the name `qwerty⏎asdf⏎λ` |

## Left out

- The interpreter (`src/naive/mod.rs`, `src/lib.rs`): every statement is `unimplemented!()`, so there is no knowledge base or resolution to model.
- The pest grammar and the tree-walking converters (`convert_program`, `convert_statement*`, `convert_clause`, `convert_literal*`, `convert_term*`, `as_one`, `as_one_any`). Only the three converters above are modelled. The grammar file is not part of this model.
- Error positions: `ParsingError` carries no span, and the rule lists inside the pest error are not modelled.
- `convert_name_one`'s fallback for an unexpected rule (`convert.rs:141-145`) and the unrecognized-rule panics of `convert_char` and `convert_escape` (`convert.rs:166-171`, `217-221`). Tokens are a datatype with only the expected rules, so these cannot arise.
- `assert_eq!(token.as_rule(), Rule::hex_digit)` (`convert.rs:181`): hex escapes carry characters, and a character that is not a hex digit is the unrecognized-digit panic.
- Escapes.ConvertHexEscape: the number of digits of `\x`, `\u` and `\U` escapes is fixed by the grammar, which is not part of this model. Any number of digits is accepted here; beyond eight, bits shifted out of the `u32` are lost, as in the source.
- Escapes.HexWord: the `u32` accumulator is kept as a natural number reduced modulo `2^32` after each digit, not as a 32-bit word. `Escapes.ShiftOrIsMultiplyAdd` shows that the two agree.
- Panics are `Failure` values, not aborts. `Symbols.From` and `Display` of names and symbols return `None` for the panic.
- The `Symbol`-based construction inside `Variable::new` and `Name::new` (`var.into()`, `variable.rs:16`, `name.rs:16`): the wrappers hold their string directly. Going through `Symbol::from` would reject every variable.
- The nested `Term` of `src/ast/mod.rs`: the matcher uses the flat `Name | Var` shape its own file uses.
- PatternMatch.PatternMatch: on `None` nothing is claimed about the slices, which may already be partly rewritten, as in the source.
- PatternMatch.PatternMatch: `assert_eq!(l.len(), r.len())` becomes a precondition, and the two slices are required to be distinct arrays, as two `&mut` borrows always are.
- EntryMaps.EntryFn: `f` is a pure function value; side effects of the `FnOnce` closure are not modelled. The `HashMap` is a Dafny `map` passed in and returned rather than updated through a reference.
- Pretty-printing (`src/ast/print.rs`, `src/ast/styles.rs`), the command line and the line editor (`src/main.rs`), and the `error_chain!` boilerplate (`src/errors.rs`): output and I/O only.
