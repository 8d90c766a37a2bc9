/** Variables of the Datalog AST (src/ast/variable.rs): `X`, `Foo`, `A123`. */
module Variables {
  import opened Wrappers
  import opened Chars

  /** A variable holds the text it was built from. */
  datatype Variable = Variable(text: string)

  /** `[A-Za-z0-9_]`: a character allowed after the first. */
  predicate IsVarChar(ch: char)
  {
    ('a' <= ch && ch <= 'z') || ('A' <= ch && ch <= 'Z')
      || ('0' <= ch && ch <= '9') || ch == '_'
  }

  /** `[A-Z_]`: a character allowed first. */
  predicate IsVarStartChar(ch: char)
  {
    ('A' <= ch && ch <= 'Z') || ch == '_'
  }

  /** `Variable::is_valid`: a start character, then `chars.all(is_var_char)`
      over the rest; the empty string is not a variable. */
  predicate IsValid(s: string)
  {
    if s == [] then false else IsVarStartChar(s[0]) && All(s[1..], IsVarChar)
  }

  /** The character predicates are the classes of the regular expression
      `^[A-Z_][A-Za-z0-9_]*$`. */
  lemma CharClasses(ch: char)
    ensures IsVarChar(ch) <==> InClass(ch, Word)
    ensures IsVarStartChar(ch) <==> InClass(ch, UpperOrUnderscore)
  {
    if 'A' <= ch <= 'Z' {
      assert Word[0].lo <= ch <= Word[0].hi;
      assert UpperOrUnderscore[0].lo <= ch <= UpperOrUnderscore[0].hi;
    } else if 'a' <= ch <= 'z' {
      assert Word[1].lo <= ch <= Word[1].hi;
    } else if '0' <= ch <= '9' {
      assert Word[2].lo <= ch <= Word[2].hi;
    } else if ch == '_' {
      assert Word[3].lo <= ch <= Word[3].hi;
      assert UpperOrUnderscore[1].lo <= ch <= UpperOrUnderscore[1].hi;
    }
  }

  /** Validity, character by character: a non-empty string whose first
      character is `A`-`Z` or `_` and whose later characters are all in
      `[A-Za-z0-9_]`. */
  lemma IsValidIff(s: string)
    ensures IsValid(s) <==>
      |s| > 0 && IsVarStartChar(s[0]) && forall i :: 1 <= i < |s| ==> IsVarChar(s[i])
  {
    if s != [] {
      AllAt(s[1..], IsVarChar);
      assert forall i :: 1 <= i < |s| ==> s[1..][i - 1] == s[i];
    }
  }

  /** Whole-string match of `^[A-Z_][A-Za-z0-9_]*$`. */
  predicate MatchesRegex(s: string)
  {
    |s| >= 1 && InClass(s[0], UpperOrUnderscore)
    && forall i :: 1 <= i < |s| ==> InClass(s[i], Word)
  }

  /** `Variable::new`: wraps the text exactly when it is a valid variable. */
  function New(s: string): (r: Option<Variable>)
    ensures r.Some? ==> AsRef(r.value) == s
  {
    if IsValid(s) then Some(Variable(s)) else None
  }

  /** `Variable::new(s)` succeeds exactly on the strings the regular
      expression `^[A-Z_][A-Za-z0-9_]*$` matches. */
  lemma NewAgreesWithRegex(s: string)
    ensures New(s).Some? <==> MatchesRegex(s)
  {
    IsValidIff(s);
    if s != [] {
      CharClasses(s[0]);
      forall i | 1 <= i < |s| ensures IsVarChar(s[i]) <==> InClass(s[i], Word) {
        CharClasses(s[i]);
      }
    }
  }

  function AsRef(v: Variable): string
  {
    v.text
  }

  /** `Display`: the stored text, unchanged. */
  function Display(v: Variable): string
  {
    v.text
  }

  /** Displaying a variable built by `New` gives back the string it was built
      from, and that string builds the same variable again. */
  lemma DisplayRoundTrip(s: string)
    ensures New(s).Some? ==> Display(New(s).value) == s && New(Display(New(s).value)) == New(s)
  {
  }
}
