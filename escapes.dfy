/** Decoding of quoted strings in the parse-tree converter
    (src/parser/convert.rs): escapes, single characters, and the check that
    a decoded string is a valid name. The parser's tokens are abstracted to
    plain values: the digits of a hexadecimal escape, the text of a
    predefined escape, the text of a raw character. */
module Escapes {
  import opened Wrappers
  import Names

  /** Why decoding stops. Every variant but `ParsingError` stands for a panic
      in the converter (`unwrap`, `assert_eq!` or `unimplemented!`);
      `ParsingError` is the one error returned to the caller. */
  datatype Failure =
    | UnrecognizedHexDigit(digit: char)
    | BadHexEscape(value: nat)
    | UnrecognizedPredefEscape(text: string)
    | RawCharLength(text: string)
    | EscapeCount(count: nat)
    | IdentNotName(text: string)
    | ParsingError
  {
    predicate IsPanic()
    {
      !ParsingError?
    }
  }

  /** An escape: `\x..`, `\u....` and `\U........` all carry their hex
      digits; a predefined escape carries the text after the backslash. */
  datatype EscapeToken = HexEsc(digits: seq<char>) | PredefEsc(text: string)

  /** One character of a quoted string: raw, or an escape token holding its
      inner tokens. */
  datatype CharToken = RawCh(text: string) | EscCh(escapes: seq<EscapeToken>)

  /** A name: a bare identifier or a quoted string. */
  datatype NameToken = Ident(text: string) | QuotedString(chars: seq<CharToken>)

  // ---------------------------------------------------------------------
  // Hexadecimal escapes

  /** The number of values of a `u32`. */
  const U32: nat := 0x1_0000_0000

  /** The value of one hex digit, upper or lower case alike. */
  function HexDigitValue(d: char): (r: Result<nat, Failure>)
    ensures r.Ok? ==> r.value < 16 && (d == HexChar(r.value, false) || d == HexChar(r.value, true))
    ensures r.Err? ==> r.error == UnrecognizedHexDigit(d)
  {
    if '0' <= d <= '9' then Ok(d as nat - '0' as nat)
    else if 'a' <= d <= 'f' then Ok(d as nat - 'a' as nat + 10)
    else if 'A' <= d <= 'F' then Ok(d as nat - 'A' as nat + 10)
    else Err(UnrecognizedHexDigit(d))
  }

  /** The digit that spells `v`, lower or upper case. */
  function HexChar(v: nat, upper: bool): char
    requires v < 16
  {
    if v < 10 then ('0' as int + v) as char
    else if upper then ('A' as int + v - 10) as char
    else ('a' as int + v - 10) as char
  }

  /** Each value below 16 has exactly two spellings, one per case (one only
      for the decimal digits), and nothing else is a hex digit. */
  lemma HexDigitIff(d: char, v: nat)
    requires v < 16
    ensures HexDigitValue(d) == Ok(v) <==> d == HexChar(v, false) || d == HexChar(v, true)
    ensures HexDigitValue(d).Ok? ==> HexDigitValue(d).value < 16
    ensures HexDigitValue(d).Err? ==> HexDigitValue(d) == Err(UnrecognizedHexDigit(d))
  {
  }

  /** The value accumulated by `n = (n << 4) | digit` over the digits, in a
      `u32`: bits shifted out at the top are lost. The first digit that is
      not a hex digit stops it. */
  function HexWord(ds: seq<char>): (r: Result<nat, Failure>)
    ensures r.Ok? ==> r.value < U32
    ensures r.Err? ==> r.error.UnrecognizedHexDigit? && r.error.digit in ds
  {
    if ds == [] then Ok(0)
    else
      match HexWord(ds[..|ds| - 1])
      case Err(e) => Err(e)
      case Ok(n) =>
        match HexDigitValue(ds[|ds| - 1])
        case Err(e) => Err(e)
        case Ok(d) => Ok((n * 16 + d) % U32)
  }

  function Pow16(k: nat): (p: nat)
    ensures p >= 1
  {
    if k == 0 then 1 else 16 * Pow16(k - 1)
  }

  /** `k` digits hold less than `16^k`; up to eight of them never overflow
      the `u32`, so nothing is lost to the shift. */
  lemma {:induction false} HexWordBound(ds: seq<char>)
    requires |ds| <= 8
    ensures HexWord(ds).Ok? ==> HexWord(ds).value < Pow16(|ds|)
  {
    if ds != [] {
      HexWordBound(ds[..|ds| - 1]);
      assert Pow16(|ds|) <= Pow16(8) by { Pow16Monotone(|ds|, 8); }
    }
  }

  lemma {:induction false} Pow16Monotone(j: nat, k: nat)
    requires j <= k
    ensures Pow16(j) <= Pow16(k)
    decreases k
  {
    if j < k {
      Pow16Monotone(j, k - 1);
    }
  }

  /** The `k` lower-case hex digits of `n`, most significant first. */
  function HexDigits(n: nat, k: nat): (ds: seq<char>)
    ensures |ds| == k
  {
    if k == 0 then [] else HexDigits(n / 16, k - 1) + [HexChar(n % 16, false)]
  }

  /** Appending one hex digit shifts it in at the bottom. */
  lemma HexWordSnoc(ds: seq<char>, c: char, n: nat, d: nat)
    requires HexWord(ds) == Ok(n) && HexDigitValue(c) == Ok(d)
    ensures HexWord(ds + [c]) == Ok((n * 16 + d) % U32)
  {
    assert (ds + [c])[..|ds|] == ds;
  }

  lemma SmallMod(m: nat)
    requires m < U32
    ensures m % U32 == m
  {
  }

  lemma Pow16Eight()
    ensures Pow16(8) == U32
  {
  }

  /** The lower-case digit of `v` reads back as `v`. */
  lemma HexCharValue(v: nat)
    requires v < 16
    ensures HexDigitValue(HexChar(v, false)) == Ok(v)
  {
  }

  /** Splitting off the last hex digit of a number of at most `k <= 8`
      digits; shifting it back in loses nothing. */
  lemma LastDigit(n: nat, k: nat)
    requires 0 < k <= 8 && n < Pow16(k)
    ensures n / 16 < Pow16(k - 1)
    ensures ((n / 16) * 16 + n % 16) % U32 == n
  {
    assert n < U32 by {
      Pow16Monotone(k, 8);
      Pow16Eight();
    }
    SmallMod((n / 16) * 16 + n % 16);
  }

  /** Reading back the digits of a number gives the number. */
  lemma {:induction false} HexWordOfDigits(n: nat, k: nat)
    requires k <= 8 && n < Pow16(k)
    ensures HexWord(HexDigits(n, k)) == Ok(n)
  {
    if k > 0 {
      var q, d := n / 16, n % 16;
      LastDigit(n, k);
      HexWordOfDigits(q, k - 1);
      HexCharValue(d);
      HexWordSnoc(HexDigits(q, k - 1), HexChar(d, false), q, d);
      assert HexDigits(n, k) == HexDigits(q, k - 1) + [HexChar(d, false)];
    }
  }

  /** A code point that is a Unicode scalar value: at most 0x10FFFF and not a
      surrogate. */
  predicate IsScalarValue(n: nat)
  {
    n < 0xD800 || (0xE000 <= n && n < 0x11_0000)
  }

  /** `char::from_u32`, with the `unimplemented!("bad hex escape")` on
      failure. */
  function FromU32(n: nat): (r: Result<char, Failure>)
    ensures r.Ok? <==> IsScalarValue(n)
    ensures r.Ok? ==> r.value as nat == n
    ensures r.Err? ==> r.error == BadHexEscape(n)
  {
    if IsScalarValue(n) then Ok(n as char) else Err(BadHexEscape(n))
  }

  /** The character a hexadecimal escape stands for. */
  function HexEscape(ds: seq<char>): (r: Result<char, Failure>)
    ensures r.Ok? <==> HexWord(ds).Ok? && IsScalarValue(HexWord(ds).value)
    ensures r.Ok? ==> r.value as nat == HexWord(ds).value
    ensures r.Err? ==> if HexWord(ds).Ok? then r.error == BadHexEscape(HexWord(ds).value) else r.error.UnrecognizedHexDigit?
  {
    match HexWord(ds)
    case Err(e) => Err(e)
    case Ok(n) => FromU32(n)
  }

  /** On a `u32`, `(n << 4) | d` for a digit `d` is `16 * n + d` with the
      wrap-around of 32-bit arithmetic: the shift clears the low four bits,
      so the `|` adds. */
  lemma ShiftOrIsMultiplyAdd(n: bv32, d: bv32)
    requires d < 16
    ensures (n << 4) | d == n * 16 + d
  {
  }

  /** Once a digit fails, the digits after it are not looked at. */
  lemma {:induction false} HexWordStops(ds: seq<char>, k: nat)
    requires k <= |ds| && HexWord(ds[..k]).Err?
    ensures HexWord(ds) == HexWord(ds[..k])
  {
    if k < |ds| {
      var front := ds[..|ds| - 1];
      assert front[..k] == ds[..k];
      HexWordStops(front, k);
    } else {
      assert ds[..k] == ds;
    }
  }

  /** The hexadecimal branch of `convert_escape`: the loop over the digits,
      with the `u32` accumulator `n = (n << 4) | digit` written as 32-bit
      wrapped arithmetic. */
  method ConvertHexEscape(ds: seq<char>) returns (r: Result<char, Failure>)
    ensures r == HexEscape(ds)
  {
    var n: nat := 0;
    for i := 0 to |ds|
      invariant HexWord(ds[..i]) == Ok(n)
    {
      assert ds[..i + 1][..i] == ds[..i];
      var d := HexDigitValue(ds[i]);
      if d.Err? {
        HexWordStops(ds, i + 1);
        return Err(d.error);
      }
      n := (n * 16 + d.value) % U32;
    }
    assert ds[..|ds|] == ds;
    r := FromU32(n);
  }

  /** Every character is spelled by its `k`-digit hex escape, whenever `k`
      digits are enough, up to the eight of `\U........`. */
  lemma HexEscapeRoundTrip(c: char, k: nat)
    requires k <= 8 && c as nat < Pow16(k)
    ensures HexEscape(HexDigits(c as nat, k)) == Ok(c)
  {
    HexWordOfDigits(c as nat, k);
  }

  /** A surrogate code point decodes to nothing. */
  lemma SurrogateEscapeFails()
    ensures HexEscape("d800") == Err(BadHexEscape(0xD800))
  {
    assert HexDigits(0xD800, 4) == "d800";
    HexWordOfDigits(0xD800, 4);
  }

  // ---------------------------------------------------------------------
  // Predefined escapes

  /** `\n`, `\r`, `\t`, `\\`, `\"` and `\'`; any other text panics. */
  function PredefinedEscape(s: string): (r: Result<char, Failure>)
    ensures r.Ok? ==> EscapeLetter(r.value) == Some(s)
    ensures r.Err? ==> r.error == UnrecognizedPredefEscape(s)
  {
    if s == "n" then Ok('\n')
    else if s == "r" then Ok('\r')
    else if s == "t" then Ok('\t')
    else if s == "\\" then Ok('\\')
    else if s == "\"" then Ok('"')
    else if s == "'" then Ok('\'')
    else Err(UnrecognizedPredefEscape(s))
  }

  /** The text after the backslash that spells `c`, for the six characters
      that have a predefined escape. */
  function EscapeLetter(c: char): Option<string>
  {
    match c
    case '\n' => Some("n")
    case '\r' => Some("r")
    case '\t' => Some("t")
    case '\\' => Some("\\")
    case '"' => Some("\"")
    case '\'' => Some("'")
    case _ => None
  }

  /** The predefined escapes and their letters are each other's inverse. */
  lemma PredefinedEscapeIff(s: string, c: char)
    ensures PredefinedEscape(s) == Ok(c) <==> EscapeLetter(c) == Some(s)
  {
  }

  /** `convert_escape`. */
  function Escape(t: EscapeToken): (r: Result<char, Failure>)
    ensures r.Err? ==> r.error.IsPanic()
  {
    match t
    case HexEsc(ds) => HexEscape(ds)
    case PredefEsc(s) => PredefinedEscape(s)
  }

  /** `convert_escape`, with the hexadecimal branch run as its loop. */
  method ConvertEscape(t: EscapeToken) returns (r: Result<char, Failure>)
    ensures r == Escape(t)
  {
    match t {
      case HexEsc(ds) =>
        r := ConvertHexEscape(ds);
      case PredefEsc(s) =>
        r := PredefinedEscape(s);
    }
  }

  // ---------------------------------------------------------------------
  // Characters, strings and names

  /** `convert_char`: a raw token must hold exactly one character; an escape
      token must hold exactly one escape. */
  function ConvertChar(t: CharToken): (r: Result<char, Failure>)
    ensures t.RawCh? ==> (r.Ok? <==> |t.text| == 1) && (r.Ok? ==> t.text == [r.value])
    ensures t.EscCh? && |t.escapes| != 1 ==> r == Err(EscapeCount(|t.escapes|))
    ensures r.Err? ==> r.error.IsPanic()
  {
    match t
    case RawCh(text) =>
      if |text| == 1 then Ok(text[0]) else Err(RawCharLength(text))
    case EscCh(escapes) =>
      if |escapes| != 1 then Err(EscapeCount(|escapes|)) else Escape(escapes[0])
  }

  /** A raw token decodes to `c` exactly when it is the one-character string
      `c`. */
  lemma RawCharIff(text: string, c: char)
    ensures ConvertChar(RawCh(text)) == Ok(c) <==> text == [c]
  {
  }

  /** `.map(convert_char).collect::<Result<String, _>>()`: the characters in
      order, or the first failure. */
  function DecodeString(ts: seq<CharToken>): (r: Result<string, Failure>)
    ensures r.Ok? ==> |r.value| == |ts|
    ensures r.Err? ==> r.error.IsPanic()
  {
    if ts == [] then Ok([])
    else
      match ConvertChar(ts[0])
      case Err(e) => Err(e)
      case Ok(c) =>
        match DecodeString(ts[1..])
        case Err(e) => Err(e)
        case Ok(s) => Ok([c] + s)
  }

  /** A decoded string holds, at each position, the character its token
      converts to; a failure is the failure of the first token that fails. */
  lemma {:induction false} DecodeStringAt(ts: seq<CharToken>)
    ensures DecodeString(ts).Ok? <==> forall i :: 0 <= i < |ts| ==> ConvertChar(ts[i]).Ok?
    ensures DecodeString(ts).Ok? ==>
      forall i :: 0 <= i < |ts| ==> ConvertChar(ts[i]) == Ok(DecodeString(ts).value[i])
    ensures DecodeString(ts).Err? ==>
      exists k :: (0 <= k < |ts| && ConvertChar(ts[k]).Err? && DecodeString(ts).error == ConvertChar(ts[k]).error
        && forall i :: 0 <= i < k ==> ConvertChar(ts[i]).Ok?)
  {
    if ts != [] {
      DecodeStringAt(ts[1..]);
      assert forall i :: 1 <= i < |ts| ==> ts[1..][i - 1] == ts[i];
      if DecodeString(ts).Err? && ConvertChar(ts[0]).Ok? {
        var k :| 0 <= k < |ts[1..]| && ConvertChar(ts[1..][k]).Err?
          && DecodeString(ts[1..]).error == ConvertChar(ts[1..][k]).error && forall i :: 0 <= i < k ==> ConvertChar(ts[1..][i]).Ok?;
        assert ConvertChar(ts[k + 1]).Err? && DecodeString(ts).error == ConvertChar(ts[k + 1]).error;
      }
    }
  }

  /** Spelling a string as tokens: a predefined escape for the six
      characters that have one, the raw character otherwise. */
  function Quote(s: string): (ts: seq<CharToken>)
    ensures |ts| == |s|
  {
    if s == [] then []
    else
      var c := s[0];
      var t := match EscapeLetter(c)
        case Some(e) => EscCh([PredefEsc(e)])
        case None => RawCh([c]);
      [t] + Quote(s[1..])
  }

  /** Decoding the spelling of a string gives the string back. */
  lemma {:induction false} DecodeQuote(s: string)
    ensures DecodeString(Quote(s)) == Ok(s)
  {
    if s != [] {
      var ts := Quote(s);
      assert ConvertChar(ts[0]) == Ok(s[0]) by {
        if EscapeLetter(s[0]).Some? {
          PredefinedEscapeIff(EscapeLetter(s[0]).value, s[0]);
        }
      }
      assert ts[1..] == Quote(s[1..]);
      DecodeQuote(s[1..]);
      assert DecodeString(ts) == Ok([s[0]] + s[1..]);
      assert [s[0]] + s[1..] == s;
    }
  }

  /** `convert_name_one`: an identifier must already be a name (a panic
      otherwise); a quoted string is decoded and must then be a name (a
      parsing error otherwise). */
  function ConvertName(t: NameToken): (r: Result<Names.Name, Failure>)
    ensures r.Ok? ==> Names.IsValid(r.value.text)
    ensures t.Ident? ==> r == (if Names.IsValid(t.text) then Ok(Names.Name(t.text)) else Err(IdentNotName(t.text)))
    ensures r == Err(ParsingError) ==> t.QuotedString? && DecodeString(t.chars).Ok?
  {
    match t
    case Ident(text) =>
      (match Names.New(text)
       case Some(n) => Ok(n)
       case None => Err(IdentNotName(text)))
    case QuotedString(ts) =>
      match DecodeString(ts)
      case Err(e) => Err(e)
      case Ok(s) =>
        match Names.New(s)
        case Some(n) => Ok(n)
        case None => Err(ParsingError)
  }

  /** A quoted string gives the name `n` exactly when it decodes to the text
      of `n` and that text is a valid name; a string that decodes but is not
      a name is a parsing error, never a panic. */
  lemma QuotedNameIff(ts: seq<CharToken>, n: Names.Name)
    ensures ConvertName(QuotedString(ts)) == Ok(n) <==> DecodeString(ts) == Ok(n.text) && Names.IsValid(n.text)
    ensures DecodeString(ts).Ok? && !Names.IsValid(DecodeString(ts).value) ==> ConvertName(QuotedString(ts)) == Err(ParsingError)
  {
  }

  /** `"X"` decodes, but is a variable's spelling and not a name. */
  lemma UppercaseStringRejected()
    ensures DecodeString([RawCh("X")]) == Ok("X")
    ensures ConvertName(QuotedString([RawCh("X")])) == Err(ParsingError)
  {
    assert [RawCh("X")][1..] == [];
    assert ['X'] + [] == "X";
  }

  /** Decoding works token by token: two token lists that decode decode
      together to the concatenation. */
  lemma DecodeAppend(a: seq<CharToken>, b: seq<CharToken>)
    requires DecodeString(a).Ok? && DecodeString(b).Ok?
    ensures DecodeString(a + b) == Ok(DecodeString(a).value + DecodeString(b).value)
  {
    var sa, sb := DecodeString(a).value, DecodeString(b).value;
    DecodeStringAt(a);
    DecodeStringAt(b);
    DecodeStringAt(a + b);
    assert forall i :: 0 <= i < |a + b| ==> ConvertChar((a + b)[i]) == Ok((sa + sb)[i]) by {
      forall i | 0 <= i < |a + b| ensures ConvertChar((a + b)[i]) == Ok((sa + sb)[i]) {
        if i < |a| {
          assert (a + b)[i] == a[i];
        } else {
          assert (a + b)[i] == b[i - |a|];
        }
      }
    }
    assert DecodeString(a + b).Ok?;
    var s := DecodeString(a + b).value;
    assert |s| == |sa + sb|;
    assert forall i :: 0 <= i < |s| ==> s[i] == (sa + sb)[i];
    assert s == sa + sb;
  }

  /** Decoding the spelling of a name followed by one hexadecimal escape
      gives the name extended by the escaped character. */
  lemma QuotedThenHexEscape(s: string, ds: seq<char>, c: char)
    requires Names.IsValid(s) && HexEscape(ds) == Ok(c)
    ensures ConvertName(QuotedString(Quote(s) + [EscCh([HexEsc(ds)])])) == Ok(Names.Name(s + [c]))
  {
    var last := [EscCh([HexEsc(ds)])];
    assert last[1..] == [];
    assert [c] + [] == [c];
    DecodeQuote(s);
    DecodeAppend(Quote(s), last);
  }

  /** The text of the quoted name `"qwerty\nasdf\n\u03bb"` up to its last
      character, and that last character, `λ`. */
  const QwertyPrefix: string := "qwerty\nasdf\n"
  const Lambda: char := '\U{3bb}'

  /** `\u03bb` is `λ`. */
  lemma LambdaEscape()
    ensures HexEscape("03bb") == Ok(Lambda)
  {
    assert HexDigits(0x3bb, 4) == "03bb";
    HexWordOfDigits(0x3bb, 4);
  }

  /** `"qwerty\nasdf\n\u03bb"` is the name `qwerty⏎asdf⏎λ`: the letters are
      raw characters, the newlines `\n` escapes and the `λ` a `\u` escape. */
  lemma QuotedNameExample()
    ensures ConvertName(QuotedString(Quote(QwertyPrefix) + [EscCh([HexEsc("03bb")])]))
         == Ok(Names.Name("qwerty\nasdf\n\U{3bb}"))
  {
    var full := QwertyPrefix + [Lambda];
    assert full == "qwerty\nasdf\n\U{3bb}";
    assert Names.IsValid(QwertyPrefix);
    LambdaEscape();
    QuotedThenHexEscape(QwertyPrefix, "03bb", Lambda);
  }
}
