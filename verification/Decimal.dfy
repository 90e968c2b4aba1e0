/** Decimal numerals, and Python's `int(text)` on ASCII text. */
module Decimal {
  import opened Common
  import opened PyText

  function DigitValue(c: char): nat
    requires IsDigit(c)
  {
    (c - '0') as nat
  }

  function DigitChar(d: nat): char
    requires d < 10
  {
    '0' + d as char
  }

  predicate AllDigits(s: string) {
    forall i :: 0 <= i < |s| ==> IsDigit(s[i])
  }

  /** The number a run of digits denotes. */
  function NatOf(s: string): nat
    requires AllDigits(s)
  {
    if s == "" then 0 else 10 * NatOf(s[..|s| - 1]) + DigitValue(s[|s| - 1])
  }

  function ShowNat(n: nat): (s: string)
    ensures AllDigits(s) && s != ""
  {
    if n < 10 then [DigitChar(n)] else ShowNat(n / 10) + [DigitChar(n % 10)]
  }

  lemma {:induction false} NatOfShow(n: nat)
    ensures NatOf(ShowNat(n)) == n
  {
    if n < 10 {
      assert ShowNat(n)[..0] == "";
    } else {
      NatOfShow(n / 10);
      var s := ShowNat(n);
      assert s[..|s| - 1] == ShowNat(n / 10);
    }
  }

  function ShowInt(n: int): string {
    if n < 0 then "-" + ShowNat(-n) else ShowNat(n)
  }

  /** Digits, with single underscores allowed between digits. */
  predicate IsNumeral(s: string) {
    && s != "" && IsDigit(s[0]) && IsDigit(s[|s| - 1])
    && (forall i :: 0 <= i < |s| ==> IsDigit(s[i]) || s[i] == '_')
    && (forall i :: 0 < i < |s| && s[i] == '_' ==> IsDigit(s[i - 1]))
  }

  function DropUnderscores(s: string): (r: string)
    requires forall i :: 0 <= i < |s| ==> IsDigit(s[i]) || s[i] == '_'
    ensures AllDigits(r)
  {
    if s == "" then "" else (if s[0] == '_' then "" else [s[0]]) + DropUnderscores(s[1..])
  }

  function Numeral(body: string): Option<nat> {
    if IsNumeral(body) then Some(NatOf(DropUnderscores(body))) else None
  }

  /** A numeral with an optional sign. */
  function Signed(s: string): Option<int> {
    if s == "" then None
    else if s[0] == '-' then
      match Numeral(s[1..])
      case Some(n) => Some(-(n as int))
      case None => None
    else Numeral(if s[0] == '+' then s[1..] else s)
  }

  /** `int(text.strip())`, None where Python raises ValueError. */
  function ParseInt(text: string): Option<int> {
    Signed(Strip(text))
  }

  lemma {:induction false} NoUnderscoresToDrop(s: string)
    requires AllDigits(s)
    ensures DropUnderscores(s) == s
  {
    if s != "" {
      NoUnderscoresToDrop(s[1..]);
    }
  }

  lemma NumeralOfDigits(s: string)
    requires AllDigits(s) && s != ""
    ensures Numeral(s) == Some(NatOf(s))
  {
    NoUnderscoresToDrop(s);
  }

  lemma StripKeeps(s: string)
    requires s != "" && !IsSpace(s[0]) && !IsSpace(s[|s| - 1])
    ensures Strip(s) == s
  {
  }

  lemma DigitsAreTrimmed(s: string)
    requires s != "" && AllDigits(s)
    ensures Trimmed(s) && s[0] != '-' && s[0] != '+'
  {
    assert IsDigit(s[0]) && IsDigit(s[|s| - 1]);
  }

  lemma ParsePlain(digits: string)
    requires AllDigits(digits) && digits != ""
    ensures Signed(digits) == Some(NatOf(digits)) && Trimmed(digits)
  {
    DigitsAreTrimmed(digits);
    NumeralOfDigits(digits);
  }

  lemma ParseNegative(s: string)
    requires |s| > 1 && s[0] == '-' && AllDigits(s[1..])
    ensures Signed(s) == Some(-(NatOf(s[1..]) as int)) && Trimmed(s)
  {
    assert IsDigit(s[1..][|s| - 2]);
    NumeralOfDigits(s[1..]);
  }

  lemma ParsePositive(s: string)
    requires |s| > 1 && s[0] == '+' && AllDigits(s[1..])
    ensures Signed(s) == Some(NatOf(s[1..])) && Trimmed(s)
  {
    assert IsDigit(s[1..][|s| - 2]);
    NumeralOfDigits(s[1..]);
  }

  lemma ShownIsSigned(n: int)
    ensures ShowInt(n) != "" && Signed(ShowInt(n)) == Some(n) && Trimmed(ShowInt(n))
  {
    var m := if n < 0 then -n else n;
    NatOfShow(m);
    if n < 0 {
      assert ShowInt(n)[1..] == ShowNat(m);
      ParseNegative(ShowInt(n));
    } else {
      ParsePlain(ShowNat(m));
    }
  }

  /** Reading a printed integer gives the integer back. */
  lemma ParseIntShow(n: int)
    ensures ParseInt(ShowInt(n)) == Some(n)
  {
    ShownIsSigned(n);
    StripKeeps(ShowInt(n));
  }

  lemma ParseStripped(before: string, s: string, after: string)
    requires Blank(before) && Blank(after) && Trimmed(s)
    ensures ParseInt(before + s + after) == Signed(s)
  {
    StripMeaning(before, s, after);
  }

  /** Digits, with blanks round them, are read as the number they show. */
  lemma UnsignedNumber(before: string, digits: string, after: string)
    requires Blank(before) && Blank(after) && AllDigits(digits) && digits != ""
    ensures ParseInt(before + digits + after) == Some(NatOf(digits))
  {
    ParsePlain(digits);
    ParseStripped(before, digits, after);
  }

  /** And so they are with a minus sign, */
  lemma NegativeNumber(before: string, s: string, after: string)
    requires Blank(before) && Blank(after) && |s| > 1 && s[0] == '-' && AllDigits(s[1..])
    ensures ParseInt(before + s + after) == Some(-(NatOf(s[1..]) as int))
  {
    ParseNegative(s);
    ParseStripped(before, s, after);
  }

  /** or a plus sign before them. */
  lemma PositiveNumber(before: string, s: string, after: string)
    requires Blank(before) && Blank(after) && |s| > 1 && s[0] == '+' && AllDigits(s[1..])
    ensures ParseInt(before + s + after) == Some(NatOf(s[1..]))
  {
    ParsePositive(s);
    ParseStripped(before, s, after);
  }

  predicate DigitsOrUnderscores(s: string) {
    forall i :: 0 <= i < |s| ==> IsDigit(s[i]) || s[i] == '_'
  }

  lemma {:induction false} DropFrom(digits: string, rest: string)
    requires AllDigits(digits) && DigitsOrUnderscores(rest)
    ensures DigitsOrUnderscores(digits + rest) && DropUnderscores(digits + rest) == digits + DropUnderscores(rest)
  {
    if digits == "" {
      assert digits + rest == rest && digits + DropUnderscores(rest) == DropUnderscores(rest);
    } else {
      var s := digits + rest;
      assert s[1..] == digits[1..] + rest && s[0] == digits[0];
      DropFrom(digits[1..], rest);
      Assoc([digits[0]], digits[1..], DropUnderscores(rest));
      assert [digits[0]] + digits[1..] == digits;
    }
  }

  /** An underscore between two runs of digits is passed over. */
  lemma UnderscoreBetween(a: string, b: string)
    requires AllDigits(a) && AllDigits(b) && a != "" && b != ""
    ensures Numeral(a + ("_" + b)) == Some(NatOf(a + b))
  {
    var tail := "_" + b;
    assert tail[1..] == b;
    NoUnderscoresToDrop(b);
    assert DropUnderscores(tail) == "" + b == b;
    DropFrom(a, tail);
    UnderscoreIsNumeral(a, b);
  }

  lemma UnderscoreIsNumeral(a: string, b: string)
    requires AllDigits(a) && AllDigits(b) && a != "" && b != ""
    ensures IsNumeral(a + ("_" + b))
  {
    var s := a + ("_" + b);
    forall i | 0 <= i < |s|
      ensures if i == |a| then s[i] == '_' else IsDigit(s[i])
    {
      if i > |a| {
        assert s[i] == b[i - |a| - 1];
      }
    }
  }

  /** Nothing but digits, signs, underscores and outer blanks is read as a number. */
  lemma NumbersOnly(text: string)
    ensures ParseInt(text).Some? ==>
              var s := Strip(text);
              && s != "" && IsDigit(s[|s| - 1])
              && (IsDigit(s[0]) || ((s[0] == '+' || s[0] == '-') && |s| > 1 && IsDigit(s[1])))
              && (forall i :: 0 < i < |s| ==> IsDigit(s[i]) || s[i] == '_')
              && (forall i :: 1 < i < |s| && s[i] == '_' ==> s[i - 1] != '_')
  {
  }
}
