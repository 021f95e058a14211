/** The zip-code input field: the test that makes a zip eligible for a lookup,
    and the expression that sanitises every change of the field. */
module ZipCode {

  function Min(a: int, b: int): int
  {
    if a < b then a else b
  }

  /** `isZipValid`: `zipcode.length === 5 && zipcode` is truthy, that is the
      field holds five characters and is not the empty string. */
  function IsZipValid(zipcode: string): (valid: bool)
    ensures valid <==> |zipcode| == 5
  {
    |zipcode| == 5 && zipcode != ""
  }

  predicate IsDigit(c: char)
  {
    '0' <= c <= '9'
  }

  predicate AllDigits(s: string)
  {
    forall i :: 0 <= i < |s| ==> IsDigit(s[i])
  }

  /** The characters the regular-expression class `[^\d{5}]` does NOT match:
      the ASCII digits and the literal characters `{`, `5` and `}`. */
  predicate Spared(c: char)
  {
    IsDigit(c) || c == '{' || c == '5' || c == '}'
  }

  /** `value.replace(/[^\d{5}]$/, "")`: with neither the `g` nor the `m` flag,
      `$` matches at the very end only, so at most the last character goes,
      and only when the class matches it. */
  function ReplaceTrailing(value: string): string
  {
    if |value| > 0 && !Spared(value[|value| - 1]) then value[..|value| - 1] else value
  }

  /** `s.substr(0, 5)`. */
  function Substr5(s: string): string
  {
    s[..Min(5, |s|)]
  }

  /** The value stored on every change of the zip field, as written. */
  function Sanitize(raw: string): (z: string)
    ensures |z| <= 5
    ensures z <= raw
    ensures z != raw[..Min(5, |raw|)] ==> 0 < |raw| <= 5 && !Spared(raw[|raw| - 1])
    ensures |raw| > 5 ==> z == raw[..5]
    ensures AllDigits(raw) ==> z == raw[..Min(5, |raw|)]
    ensures |z| == if |raw| > 0 && !Spared(raw[|raw| - 1]) then Min(5, |raw| - 1) else Min(5, |raw|)
  {
    Substr5(ReplaceTrailing(raw))
  }

  /** A typed `{` (or `}`) is kept, and turns four digits into a zip that is
      eligible for a lookup. */
  lemma BraceKept(prev: string, c: char)
    requires AllDigits(prev) && |prev| == 4 && (c == '{' || c == '}')
    ensures Sanitize(prev + [c]) == prev + [c]
    ensures IsZipValid(Sanitize(prev + [c])) && !AllDigits(Sanitize(prev + [c]))
  {
    assert !IsDigit((prev + [c])[4]);
  }

  /** Only the last character is inspected: a letter typed inside the field
      survives. */
  lemma InnerLetterKept()
    ensures Sanitize("12a45") == "12a45" && IsZipValid("12a45") && !AllDigits("12a45")
  {
    assert !IsDigit("12a45"[2]);
  }

  /** The decimal digits of `s`, in order. */
  function Digits(s: string): (r: string)
    ensures AllDigits(r) && |r| <= |s|
    ensures forall c :: c in r <==> c in s && IsDigit(c)
    ensures AllDigits(s) ==> r == s
  {
    if s == [] then []
    else if IsDigit(s[|s| - 1]) then Digits(s[..|s| - 1]) + [s[|s| - 1]]
    else Digits(s[..|s| - 1])
  }

  /** The digits of a concatenation are the digits of each part, in order. */
  lemma {:induction false} DigitsConcat(s: string, t: string)
    ensures Digits(s + t) == Digits(s) + Digits(t)
    decreases |t|
  {
    if t == [] {
      assert s + t == s;
    } else {
      var u, c := t[..|t| - 1], t[|t| - 1];
      assert (s + t)[..|s + t| - 1] == s + u && (s + t)[|s + t| - 1] == c;
      DigitsConcat(s, u);
    }
  }

  /** The digits of a single character: the character itself when it is a digit. */
  lemma DigitsOfChar(c: char)
    ensures Digits([c]) == if IsDigit(c) then [c] else []
  {
    assert [c][..0] == [];
  }

  /** The sanitiser with the evidently intended effect: the field keeps at most
      five decimal digits. */
  function SanitizeDigits(raw: string): (z: string)
    ensures |z| <= 5 && AllDigits(z) && z <= Digits(raw)
    ensures |z| == Min(5, |Digits(raw)|)
    ensures AllDigits(raw) ==> z == Sanitize(raw)
    ensures IsZipValid(z) ==> |Digits(raw)| >= 5
  {
    Substr5(Digits(raw))
  }

  /** Appending a brace to four digits leaves four digits, not an eligible zip. */
  lemma BraceDropped(prev: string, c: char)
    requires AllDigits(prev) && |prev| == 4 && (c == '{' || c == '}')
    ensures SanitizeDigits(prev + [c]) == prev
    ensures !IsZipValid(SanitizeDigits(prev + [c]))
  {
    var s := prev + [c];
    assert s[..|s| - 1] == prev;
    assert !IsDigit(s[|s| - 1]);
  }
}
