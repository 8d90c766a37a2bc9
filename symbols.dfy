/** Symbols of the Datalog AST (src/ast/symbol.rs): the text of a predicate
    or constant, `foo`, `42` or a decoded quoted string. */
module Symbols {
  import opened Wrappers
  import opened Chars

  datatype Symbol = Symbol(text: string)

  /** `Symbol::is_valid`: non-empty, and the first character is neither
      `A`-`Z` nor `_`. */
  predicate IsValid(s: string)
  {
    if s == [] then false else !(('A' <= s[0] && s[0] <= 'Z') || s[0] == '_')
  }

  /** `Symbol::new`: `Ok` with the symbol when the text is valid, otherwise
      `Err` handing the string back. Either way the input is not lost. */
  function New(s: string): (r: Result<Symbol, string>)
    ensures r.Ok? <==> |s| > 0 && !('A' <= s[0] <= 'Z') && s[0] != '_'
    ensures r.Ok? ==> IntoString(r.value) == s
    ensures r.Err? ==> r.error == s
  {
    if IsValid(s) then Ok(Symbol(s)) else Err(s)
  }

  function AsRef(sym: Symbol): string
  {
    sym.text
  }

  /** `From<&'static str>`: `Symbol::new(..).unwrap()`; `None` stands for the
      panic on an invalid string. */
  function From(s: string): (r: Option<Symbol>)
    ensures r.Some? <==> New(s).Ok?
    ensures r.Some? ==> AsRef(r.value) == s
  {
    match New(s)
    case Ok(sym) => Some(sym)
    case Err(_) => None
  }

  /** `Into<String>`: gives up the wrapped text. */
  function IntoString(sym: Symbol): string
  {
    sym.text
  }

  /** Converting a symbol back into a `String` undoes `Symbol::new`. */
  lemma IntoStringRoundTrip(sym: Symbol)
    requires IsValid(sym.text)
    ensures New(IntoString(sym)) == Ok(sym)
  {
  }

  /** `[A-Za-z0-9_-]`: the characters a symbol may be printed with bare. */
  predicate IsIdentChar(ch: char)
  {
    ('a' <= ch && ch <= 'z') || ('A' <= ch && ch <= 'Z')
      || ('0' <= ch && ch <= '9') || ch == '_'
      || ch == '-'
  }

  /** `Display`: the text verbatim when every character is an identifier
      character; `None` stands for the `unimplemented!` panic that the string
      syntax would need. */
  function Display(sym: Symbol): (r: Option<string>)
    ensures r.Some? ==> r.value == sym.text
  {
    if All(sym.text, IsIdentChar) then Some(sym.text) else None
  }

  /** Display succeeds, verbatim, exactly when no character lies outside
      `[A-Za-z0-9_-]`, and panics exactly when one does. */
  lemma DisplayIff(sym: Symbol)
    ensures Display(sym) == Some(sym.text) <==> forall i :: 0 <= i < |sym.text| ==> IsIdentChar(sym.text[i])
    ensures Display(sym) == None <==> exists i :: 0 <= i < |sym.text| && !IsIdentChar(sym.text[i])
  {
    AllAt(sym.text, IsIdentChar);
  }
}
