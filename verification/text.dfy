/** Decimal rendering and parsing of integers, as the JavaScript runtime does
    it for the values this model uses: `Number.prototype.toString()` of an
    integer, `String.prototype.padStart` and `parseInt(s, 10)`. */
module Text {
  import opened Collections

  predicate IsDigit(c: char) {
    '0' <= c <= '9'
  }

  predicate AllDigits(s: string) {
    forall i :: 0 <= i < |s| ==> IsDigit(s[i])
  }

  function DigitChar(d: nat): (c: char)
    requires d < 10
    ensures IsDigit(c)
  {
    ('0' as int + d) as char
  }

  function DigitValue(c: char): (d: nat)
    requires IsDigit(c)
    ensures d < 10
  {
    c as int - '0' as int
  }

  /** Decimal digits of `n`, most significant first, without leading zeros
      ("0" for zero). */
  function Digits(n: nat): (s: string)
    ensures |s| > 0 && AllDigits(s)
    ensures |s| > 1 ==> s[0] != '0'
  {
    if n < 10 then [DigitChar(n)] else Digits(n / 10) + [DigitChar(n % 10)]
  }

  /** The number a string of decimal digits denotes; leading zeros allowed. */
  function DigitsValue(s: string): nat
    requires AllDigits(s)
  {
    if s == [] then 0 else DigitsValue(s[..|s| - 1]) * 10 + DigitValue(s[|s| - 1])
  }

  lemma {:induction false} DigitsRoundTrip(n: nat)
    ensures DigitsValue(Digits(n)) == n
  {
    if n >= 10 {
      DigitsRoundTrip(n / 10);
      var s := Digits(n);
      assert s[..|s| - 1] == Digits(n / 10);
    }
  }

  /** Leading zeros do not change the value of a digit string. */
  lemma {:induction false} DigitsValueLeadingZeros(z: string, s: string)
    requires forall i :: 0 <= i < |z| ==> z[i] == '0'
    requires AllDigits(s)
    ensures AllDigits(z + s)
    ensures DigitsValue(z + s) == DigitsValue(s)
  {
    assert forall i :: 0 <= i < |z + s| ==> (z + s)[i] == if i < |z| then z[i] else s[i - |z|];
    if s == [] {
      assert z + s == z;
      ZerosValue(z);
    } else {
      var init := s[..|s| - 1];
      assert (z + s)[..|z + s| - 1] == z + init;
      DigitsValueLeadingZeros(z, init);
    }
  }

  lemma {:induction false} ZerosValue(z: string)
    requires forall i :: 0 <= i < |z| ==> z[i] == '0'
    ensures AllDigits(z) && DigitsValue(z) == 0
  {
    if z != [] {
      ZerosValue(z[..|z| - 1]);
    }
  }

  /** Three or more digits exactly when the number is at least 100. */
  lemma DigitsAtLeastThree(n: nat)
    ensures |Digits(n)| >= 3 <==> n >= 100
  {
    if n >= 10 {
      assert |Digits(n)| == |Digits(n / 10)| + 1;
      if n >= 100 {
        assert |Digits(n / 10)| >= 2;
      } else {
        assert |Digits(n / 10)| == 1;
      }
    }
  }

  /** `n.toString()` for an integer `n`. */
  function NumberToString(n: int): string {
    if n < 0 then "-" + Digits(-n) else Digits(n)
  }

  /** `s.padStart(width, fill)`: never truncates, fills on the left. */
  function PadStart(s: string, width: nat, fill: char): (r: string)
    ensures |r| == if |s| >= width then |s| else width
    ensures r[|r| - |s|..] == s
    ensures forall i :: 0 <= i < |r| - |s| ==> r[i] == fill
  {
    if |s| >= width then s else seq(width - |s|, _ => fill) + s
  }

  /** The white space `parseInt` skips before the number. */
  predicate IsWhiteSpace(c: char) {
    c == ' ' || c == '\t' || c == '\n' || c == '\r' || c == '\U{000B}' || c == '\U{000C}'
    || c == '\U{00A0}' || c == '\U{FEFF}' || c == '\U{1680}' || ('\U{2000}' <= c <= '\U{200A}')
    || c == '\U{2028}' || c == '\U{2029}' || c == '\U{202F}' || c == '\U{205F}' || c == '\U{3000}'
  }

  /** `parseInt`'s skip of leading white space: only white space is
      removed, and all of it. */
  function TrimStart(s: string): (r: string)
    ensures |r| <= |s| && r == s[|s| - |r|..]
    ensures forall i :: 0 <= i < |s| - |r| ==> IsWhiteSpace(s[i])
    ensures r != [] ==> !IsWhiteSpace(r[0])
  {
    if s != [] && IsWhiteSpace(s[0]) then TrimStart(s[1..]) else s
  }

  /** The longest prefix of `s` made of decimal digits. */
  function LeadingDigits(s: string): (r: string)
    ensures r <= s && AllDigits(r)
    ensures |r| < |s| ==> !IsDigit(s[|r|])
  {
    if s != [] && IsDigit(s[0]) then [s[0]] + LeadingDigits(s[1..]) else []
  }

  /** Where `parseInt` reads its digits: the string after the leading white
      space and an optional sign. */
  function NumberBody(s: string): string {
    var t := TrimStart(s);
    if t != [] && (t[0] == '-' || t[0] == '+') then t[1..] else t
  }

  /** `parseInt(s, 10)`: skip white space, read an optional sign and the
      longest run of digits; `None` stands for `NaN` (no digit there). */
  function ParseInt(s: string): Option<int> {
    var t := TrimStart(s);
    var negative := t != [] && t[0] == '-';
    var ds := LeadingDigits(NumberBody(s));
    var v: int := if ds == [] then 0 else DigitsValue(ds);
    if ds == [] then None else Some(if negative then -v else v)
  }

  /** `parseInt` reads back what `toString` wrote. */
  lemma {:induction false} ParseIntRoundTrip(n: int)
    ensures ParseInt(NumberToString(n)) == Some(n)
  {
    var m: nat := if n < 0 then -n else n;
    DigitsRoundTrip(m);
    ParseDigits(Digits(m));
  }

  lemma ParseDigits(ds: string)
    requires ds != [] && AllDigits(ds)
    ensures ParseInt(ds) == Some(DigitsValue(ds))
    ensures ParseInt("-" + ds) == Some(0 - DigitsValue(ds) as int)
  {
    AllDigitsLeading(ds);
    NotWhiteSpace(ds);
    var neg := "-" + ds;
    NotWhiteSpace(neg);
    assert neg[1..] == ds;
  }

  /** White space never starts a digit string or a minus sign. */
  lemma NotWhiteSpace(s: string)
    requires s != [] && (IsDigit(s[0]) || s[0] == '-')
    ensures TrimStart(s) == s
  {
    assert !IsWhiteSpace(s[0]);
  }

  lemma {:induction false} AllDigitsLeading(s: string)
    requires AllDigits(s)
    ensures LeadingDigits(s) == s
  {
    if s != [] {
      AllDigitsLeading(s[1..]);
    }
  }

  /** `parseInt` gives `NaN` exactly when no digit follows the white space
      and the optional sign. */
  lemma ParseIntNone(s: string)
    ensures ParseInt(s) == None <==> NumberBody(s) == [] || !IsDigit(NumberBody(s)[0])
  {
    var body := NumberBody(s);
    if body != [] && IsDigit(body[0]) {
      assert LeadingDigits(body) != [];
    }
  }

  /** A string without any decimal digit does not parse. */
  lemma NoDigitNoNumber(s: string)
    requires forall i :: 0 <= i < |s| ==> !IsDigit(s[i])
    ensures ParseInt(s) == None
  {
    var body := NumberBody(s);
    assert body == s[|s| - |body|..];
    if body != [] {
      assert body[0] == s[|s| - |body|];
    }
    ParseIntNone(s);
  }
}
