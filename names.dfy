/** Names of the Datalog AST (src/ast/name.rs): constants such as `foo`,
    `42` or `"qwerty\nasdf\nλ"`. */
module Names {
  import opened Wrappers
  import opened Chars
  import Variables
  import Symbols

  datatype Name = Name(text: string)

  /** `Name::is_valid`: non-empty, and the first character is neither `A`-`Z`
      nor `_`. Digits, quotes, lower case and non-ASCII characters all pass. */
  predicate IsValid(s: string)
  {
    if s == [] then false else !(('A' <= s[0] && s[0] <= 'Z') || s[0] == '_')
  }

  /** `Name::new`: wraps the text exactly when it is a valid name. */
  function New(s: string): (r: Option<Name>)
    ensures r.Some? <==> |s| > 0 && !('A' <= s[0] <= 'Z') && s[0] != '_'
    ensures r.Some? ==> AsRef(r.value) == s
  {
    if IsValid(s) then Some(Name(s)) else None
  }

  function AsRef(n: Name): string
  {
    n.text
  }

  /** Whole-string match of `^[^A-Z_].*$`: the negated class also matches a
      newline, but `.` does not. */
  predicate MatchesRegex(s: string)
  {
    |s| >= 1 && !InClass(s[0], UpperOrUnderscore)
    && forall i :: 1 <= i < |s| ==> s[i] != '\n'
  }

  /** Every string the regular expression matches is a name, and for strings
      without a newline after the first character the two agree exactly. */
  lemma NewAgreesWithRegex(s: string)
    ensures MatchesRegex(s) ==> New(s).Some?
    ensures (forall i :: 1 <= i < |s| ==> s[i] != '\n') ==> (New(s).Some? <==> MatchesRegex(s))
  {
    if s != [] {
      Variables.CharClasses(s[0]);
    }
  }

  /** No string is both a valid name and a valid variable: the first
      character tells them apart, and every non-empty string that is not a
      name starts like a variable. */
  lemma NameOrVariable(s: string)
    ensures !(IsValid(s) && Variables.IsValid(s))
    ensures s != [] ==> (IsValid(s) <==> !Variables.IsVarStartChar(s[0]))
  {
  }

  /** Names and symbols accept exactly the same strings. */
  lemma SameValidityAsSymbol(s: string)
    ensures New(s).Some? <==> Symbols.New(s).Ok?
  {
  }

  /** `[A-Za-z0-9_]`: the characters a name may be printed with bare. */
  predicate IsIdentChar(ch: char)
  {
    ('a' <= ch && ch <= 'z') || ('A' <= ch && ch <= 'Z')
      || ('0' <= ch && ch <= '9') || ch == '_'
  }

  /** `Display`: the text verbatim when every character is an identifier
      character; `None` stands for the `unimplemented!` panic that the string
      syntax would need. */
  function Display(n: Name): (r: Option<string>)
    ensures r.Some? ==> r.value == n.text
  {
    if All(n.text, IsIdentChar) then Some(n.text) else None
  }

  /** Display succeeds, verbatim, exactly when no character lies outside
      `[A-Za-z0-9_]`, and panics exactly when one does. */
  lemma DisplayIff(n: Name)
    ensures Display(n) == Some(n.text) <==> forall i :: 0 <= i < |n.text| ==> IsIdentChar(n.text[i])
    ensures Display(n) == None <==> exists i :: 0 <= i < |n.text| && !IsIdentChar(n.text[i])
  {
    AllAt(n.text, IsIdentChar);
  }

  /** What a name displays as builds the same name again. */
  lemma DisplayRoundTrip(s: string)
    requires New(s).Some? && Display(New(s).value).Some?
    ensures New(Display(New(s).value).value) == New(s)
  {
  }

  /** A name that displays also displays as a symbol; the converse fails, as
      `-` is a bare symbol character but not a bare name character. */
  lemma DisplayNarrowerThanSymbol(s: string)
    ensures Display(Name(s)).Some? ==> Symbols.Display(Symbols.Symbol(s)) == Some(s)
    ensures Display(Name("a-b")) == None && Symbols.Display(Symbols.Symbol("a-b")) == Some("a-b")
  {
    DisplayIff(Name(s));
    Symbols.DisplayIff(Symbols.Symbol(s));
    DisplayIff(Name("a-b"));
    assert !IsIdentChar("a-b"[1]);
    Symbols.DisplayIff(Symbols.Symbol("a-b"));
  }
}
