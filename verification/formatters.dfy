/** The dashboard's display formatters (lib/utils/formatters.ts): user ids
    such as "U-007" and stock-keeping codes such as "AC-EL-042". */
module Formatters {
  import opened Collections
  import opened Text

  /** `formatUserId` accepts a number or a string. */
  datatype UserIdArg = Numeric(n: int) | Textual(s: string)

  /** The zero-padded rendering both formatters use for a numeric id. */
  function PaddedId(n: int): (r: string)
    ensures |r| >= 3
  {
    PadStart(NumberToString(n), 3, '0')
  }

  /** "U-" and the padded id; a string that does not parse as an integer is
      shown as given. */
  function FormatUserId(id: UserIdArg): (r: string)
    ensures |r| >= 2 && r[..2] == "U-"
  {
    match id
    case Numeric(n) => "U-" + PaddedId(n)
    case Textual(s) =>
      match ParseInt(s)
      case None => "U-" + s
      case Some(n) => "U-" + PaddedId(n)
  }

  /** For a non-negative id the part after "U-" is at least three decimal
      digits and reads back as the id; ids of three or more digits are not
      changed by the padding. */
  lemma FormatUserIdNonNegative(n: nat)
    ensures var r := FormatUserId(Numeric(n));
      && |r| == 2 + (if n >= 100 then |Digits(n)| else 3)
      && AllDigits(r[2..]) && DigitsValue(r[2..]) == n
      && (n >= 100 ==> r == "U-" + Digits(n))
  {
    PaddedDigits(n);
    DigitsAtLeastThree(n);
    var r := FormatUserId(Numeric(n));
    assert r[2..] == PaddedId(n);
  }

  /** The padded id of a non-negative number is its digits behind zeros. */
  lemma PaddedDigits(n: nat)
    ensures AllDigits(PaddedId(n)) && DigitsValue(PaddedId(n)) == n
  {
    var ds := Digits(n);
    var r := PaddedId(n);
    var z := r[..|r| - |ds|];
    assert r == z + ds;
    DigitsValueLeadingZeros(z, ds);
    DigitsRoundTrip(n);
  }

  /** A string that does not parse as an integer, because no digit follows
      its leading white space and optional sign ("abc1", "x5", "-", ""), is
      shown as given. */
  lemma FormatUserIdUnparsable(s: string)
    requires NumberBody(s) == [] || !IsDigit(NumberBody(s)[0])
    ensures FormatUserId(Textual(s)) == "U-" + s
  {
    ParseIntNone(s);
  }

  /** A string that does parse is shown through its number: "U-" and the
      padded value, whatever text surrounded it (" 7x" gives "U-007"). */
  lemma FormatUserIdParsable(s: string)
    requires NumberBody(s) != [] && IsDigit(NumberBody(s)[0])
    ensures ParseInt(s).Some? && FormatUserId(Textual(s)) == "U-" + PaddedId(ParseInt(s).value)
  {
    ParseIntNone(s);
  }

  /** An id given as the string of its digits formats like the number. */
  lemma FormatUserIdTextualAgrees(n: int)
    ensures FormatUserId(Textual(NumberToString(n))) == FormatUserId(Numeric(n))
  {
    ParseIntRoundTrip(n);
  }

  /** ASCII upper-casing of one character. */
  function UpperAscii(c: char): char {
    if 'a' <= c <= 'z' then (c as int - 32) as char else c
  }

  /** `(s || "XX").substring(0, 2).toUpperCase()`. */
  function Code(s: string): string {
    var src := if s == "" then "XX" else s;
    var k := if |src| < 2 then |src| else 2;
    seq(k, i requires 0 <= i < k => UpperAscii(src[i]))
  }

  /** The code of a name: "XX" for an empty one, otherwise its first one or
      two characters, upper-cased. */
  lemma CodeSpec(s: string)
    ensures s == "" ==> Code(s) == "XX"
    ensures s != "" ==> |Code(s)| == (if |s| < 2 then |s| else 2)
    ensures s != "" ==> forall i :: 0 <= i < |Code(s)| ==> Code(s)[i] == UpperAscii(s[i])
    ensures forall i :: 0 <= i < |Code(s)| ==> !('a' <= Code(s)[i] <= 'z')
  {
    if s == "" {
      assert UpperAscii('X') == 'X';
      assert Code(s) == [UpperAscii('X'), UpperAscii('X')];
    }
  }

  /** brand code, category code and padded id, joined by dashes. */
  function FormatSKU(brand: string, category: string, id: int): string {
    Code(brand) + "-" + Code(category) + "-" + PaddedId(id)
  }

  /** The SKU splits at the two dashes behind the one- or two-character
      codes, and for a non-negative id its last part is at least three digits
      that read back as the id. */
  lemma FormatSKUParts(brand: string, category: string, id: nat)
    ensures var r := FormatSKU(brand, category, id);
      var b := |Code(brand)|;
      var c := |Code(category)|;
      && 1 <= b <= 2 && 1 <= c <= 2
      && |r| >= b + c + 5
      && r[..b] == Code(brand) && r[b] == '-'
      && r[b + 1..b + 1 + c] == Code(category) && r[b + 1 + c] == '-'
      && AllDigits(r[b + c + 2..]) && DigitsValue(r[b + c + 2..]) == id
  {
    PaddedDigits(id);
    JoinParts(Code(brand), Code(category), PaddedId(id));
  }

  lemma JoinParts(a: string, b: string, c: string)
    ensures var r := a + "-" + b + "-" + c;
      && |r| == |a| + |b| + |c| + 2
      && r[..|a|] == a && r[|a|] == '-'
      && r[|a| + 1..|a| + 1 + |b|] == b && r[|a| + 1 + |b|] == '-'
      && r[|a| + |b| + 2..] == c
  {
    var r := a + "-" + b + "-" + c;
    assert r == ((a + "-") + b) + ("-" + c);
    assert r[|a| + |b| + 2..] == c;
    assert r[|a| + 1..|a| + 1 + |b|] == b;
  }
}
