/** RFC-name normalisation of rfc_browser/cli.py: `parse_rfc_name` and the argparse
    action `ParseRFCName` that applies it to every positional argument. */
module Cli {
  import opened Wrappers
  import opened Ascii
  import Records

  function DigitValue(c: char): nat
    requires IsDigit(c)
  {
    c as int - '0' as int
  }

  function DigitChar(d: nat): (c: char)
    requires d < 10
    ensures IsDigit(c) && DigitValue(c) == d
  {
    ('0' as int + d) as char
  }

  /** `int(s)` for a string of decimal digits, leading zeros allowed. */
  function DigitsValue(s: string): nat
    requires forall i | 0 <= i < |s| :: IsDigit(s[i])
    decreases |s|
  {
    if s == [] then 0 else DigitsValue(s[..|s| - 1]) * 10 + DigitValue(s[|s| - 1])
  }

  /** `"%d" % n`: the decimal digits of `n` without leading zeros; reading them back gives `n`. */
  function Decimal(n: nat): (r: string)
    ensures |r| > 0 && forall i | 0 <= i < |r| :: IsDigit(r[i])
    ensures |r| > 1 ==> r[0] != '0'
    ensures DigitsValue(r) == n
    decreases n
  {
    if n < 10 then [DigitChar(n)]
    else
      var front := Decimal(n / 10);
      assert (front + [DigitChar(n % 10)])[..|front|] == front;
      front + [DigitChar(n % 10)]
  }

  function Zeros(k: nat): (r: string)
    ensures |r| == k && forall i | 0 <= i < k :: r[i] == '0'
  {
    seq(k, _ => '0')
  }

  /** Leading zeros do not change the value of a digit string. */
  lemma {:induction false} LeadingZeros(k: nat, d: string)
    requires forall i | 0 <= i < |d| :: IsDigit(d[i])
    ensures DigitsValue(Zeros(k) + d) == DigitsValue(d)
    decreases |d|
  {
    if d == [] {
      assert Zeros(k) + d == Zeros(k);
      ZerosValue(k);
    } else {
      assert (Zeros(k) + d)[..k + |d| - 1] == Zeros(k) + d[..|d| - 1];
      LeadingZeros(k, d[..|d| - 1]);
    }
  }

  lemma {:induction false} ZerosValue(k: nat)
    ensures DigitsValue(Zeros(k)) == 0
    decreases k
  {
    if k > 0 {
      assert Zeros(k)[..k - 1] == Zeros(k - 1);
      ZerosValue(k - 1);
    }
  }

  /** `"RFC%.4d" % n`: "RFC" and the decimal digits of `n`, zero-padded to at least four.
      The digits after "RFC" read back as `n`, and carry no zero beyond the padding. */
  function FormatRfc(n: nat): (r: string)
    ensures |r| >= 7 && StartsWith(r, "RFC")
    ensures IsDigits(r[3..]) && DigitsValue(r[3..]) == n
    ensures |r| > 7 ==> r[3] != '0'
  {
    var d := Decimal(n);
    var padded := if |d| >= 4 then d else Zeros(4 - |d|) + d;
    assert DigitsValue(padded) == n by {
      if |d| < 4 {
        LeadingZeros(4 - |d|, d);
      }
    }
    assert ("RFC" + padded)[3..] == padded;
    "RFC" + padded
  }

  /** Upper-case the input and drop one leading "RFC", as lines 6-8 do. */
  function Rest(s: string): string {
    var u := Upper(s);
    if StartsWith(u, "RFC") then u[3..] else u
  }

  /** `parse_rfc_name(s)`: None unless what follows the optional "RFC" prefix (in any case)
      is a non-empty string of digits; otherwise the canonical name of that number. */
  function ParseRfcName(s: string): (r: Option<string>)
    ensures r.None? <==> !IsDigits(Rest(s))
    ensures r.Some? ==>
      && StartsWith(r.value, "RFC") && |r.value| >= 7
      && IsDigits(r.value[3..]) && DigitsValue(r.value[3..]) == DigitsValue(Rest(s))
      && (|r.value| > 7 ==> r.value[3] != '0')
  {
    var rest := Rest(s);
    if !IsDigits(rest) then None else Some(FormatRfc(DigitsValue(rest)))
  }

  /** A canonical name is parsed to itself. */
  lemma FormatRfcIsCanonical(n: nat)
    ensures ParseRfcName(FormatRfc(n)) == Some(FormatRfc(n))
  {
    ParseDigitName(FormatRfc(n), n);
  }

  /** "RFC" followed by digits worth `n` parses to the canonical name of `n`. */
  lemma ParseDigitName(r: string, n: nat)
    requires StartsWith(r, "RFC") && IsDigits(r[3..]) && DigitsValue(r[3..]) == n
    ensures ParseRfcName(r) == Some(FormatRfc(n))
  {
    forall i | 0 <= i < |r| ensures !IsLower(r[i]) {
      if i < 3 {
        assert r[i] == "RFC"[i];
      } else {
        assert r[i] == r[3..][i - 3];
      }
    }
    UpperFixesNonLower(r);
    assert Rest(r) == r[3..];
  }

  /** Parsing a name that parsing produced changes nothing. */
  lemma ParseRfcNameIdempotent(s: string)
    requires ParseRfcName(s).Some?
    ensures ParseRfcName(ParseRfcName(s).value) == ParseRfcName(s)
  {
    FormatRfcIsCanonical(DigitsValue(Rest(s)));
  }

  /** Case does not matter: a string, its upper-case and its lower-case form parse alike. */
  lemma ParseRfcNameCaseInsensitive(s: string)
    ensures ParseRfcName(Upper(s)) == ParseRfcName(s)
    ensures ParseRfcName(Lower(s)) == ParseRfcName(s)
  {
    UpperIdempotent(s);
    UpperOfLower(s);
  }

  // Evaluation steps shared by the examples below.
  lemma DecimalExamples()
    ensures Decimal(1) == "1" && Decimal(12) == "12"
    ensures Decimal(1234) == "1234" && Decimal(12345) == "12345"
  {
    assert Decimal(123) == "123";
  }

  lemma ValueExamples()
    ensures IsDigits("000012") && DigitsValue("000012") == 12
    ensures IsDigits("1") && DigitsValue("1") == 1
    ensures IsDigits("1234") && DigitsValue("1234") == 1234
    ensures IsDigits("12345") && DigitsValue("12345") == 12345
  {
    assert "12345"[..4] == "1234" && "1234"[..3] == "123" && "123"[..2] == "12" && "12"[..1] == "1";
    assert "000012" == Zeros(4) + "12";
    LeadingZeros(4, "12");
  }

  lemma FormatExamples()
    ensures FormatRfc(1) == "RFC0001" && FormatRfc(12) == "RFC0012"
    ensures FormatRfc(1234) == "RFC1234" && FormatRfc(12345) == "RFC12345"
  {
    DecimalExamples();
    assert Zeros(3) == "000" && Zeros(2) == "00";
  }

  lemma RestExamples()
    ensures Rest("1") == "1" && Rest("rfc000012") == "000012"
    ensures Rest("RFC1234") == "1234" && Rest("12345") == "12345"
  {
    assert Upper("rfc000012") == "RFC000012" && Upper("RFC1234") == "RFC1234";
    assert Upper("1") == "1" && Upper("12345") == "12345" && "12345"[..3][0] != "RFC"[0];
  }

  /** A bare number is padded to four digits; a lower-case prefix is accepted and
      superfluous zeros are dropped; the form the command's help shows is already
      canonical; five digits are not truncated. */
  lemma ParseRfcNameExamples()
    ensures ParseRfcName("1") == Some("RFC0001")
    ensures ParseRfcName("rfc000012") == Some("RFC0012")
    ensures ParseRfcName("RFC1234") == Some("RFC1234")
    ensures ParseRfcName("12345") == Some("RFC12345")
  {
    RestExamples();
    ValueExamples();
    FormatExamples();
  }

  /** No digits, a non-digit, or a second prefix: no name. */
  lemma ParseRfcNameFailures()
    ensures ParseRfcName("RFC") == None
    ensures ParseRfcName("RFC12a") == None
    ensures ParseRfcName("RFCRFC1") == None
  {
    assert Rest("RFC") == "";
    assert Rest("RFC12a") == "12A" && !IsDigit('A');
    assert Rest("RFCRFC1") == "RFC1" && !IsDigit('R');
  }

  /** Characters `str.isdigit` accepts although `int` rejects them: the superscript
      digits one, two and three (Unicode has more, such as circled digits). */
  predicate IsDigitLike(c: char) {
    c == '\U{00B9}' || c == '\U{00B2}' || c == '\U{00B3}'
  }

  /** `s.isdigit()` over ASCII digits and the digit-like characters above. */
  predicate IsDigitsAsWritten(s: string) {
    |s| > 0 && forall i | 0 <= i < |s| :: IsDigit(s[i]) || IsDigitLike(s[i])
  }

  /** Python's default limit on the number of digits `int` converts from a string
      (`sys.get_int_max_str_digits()`); a longer string makes `int` raise a ValueError. */
  const MaxStrDigits: nat := 4300

  /** `parse_rfc_name` as written: `int` raises a ValueError that nothing catches when the
      test `isdigit` lets digit-like characters through, and when a decimal string is
      longer than MaxStrDigits. Otherwise it agrees with ParseRfcName. */
  function ParseRfcNameAsWritten(s: string): (r: Result<Option<string>, string>)
    ensures r.Failure? <==>
      || (IsDigitsAsWritten(Rest(s)) && !IsDigits(Rest(s)))
      || (IsDigits(Rest(s)) && |Rest(s)| > MaxStrDigits)
    ensures r.Success? ==> r.value == ParseRfcName(s)
  {
    var rest := Rest(s);
    if !IsDigitsAsWritten(rest) then Success(None)
    else if !IsDigits(rest) then Failure("ValueError")
    else if |rest| > MaxStrDigits then Failure("ValueError")
    else Success(Some(FormatRfc(DigitsValue(rest))))
  }

  /** "RFC" followed by a superscript one crashes the function as written, while the
      corrected parse reports it as not an RFC name, and so does ParseRfcNames, which
      is built on the corrected parse. */
  lemma SuperscriptDigitCrashes()
    ensures ParseRfcNameAsWritten("RFC\U{00B9}").Failure?
    ensures ParseRfcName("RFC\U{00B9}") == None
    ensures ParseRfcNames(["RFC\U{00B9}"]) == Failure(NotAnRfc)
  {
    assert Upper("RFC\U{00B9}") == "RFC\U{00B9}";
    assert Rest("RFC\U{00B9}") == "\U{00B9}";
    assert !IsDigit('\U{00B9}') && IsDigitLike('\U{00B9}');
    assert ParseRfcName(["RFC\U{00B9}"][0]).None?;
  }

  /** A number of 4301 ones crashes the function as written, while the corrected parse
      gives it its canonical name. */
  lemma LongNumberCrashes()
    ensures ParseRfcNameAsWritten(seq(MaxStrDigits + 1, _ => '1')).Failure?
    ensures ParseRfcName(seq(MaxStrDigits + 1, _ => '1')).Some?
  {
    var s: string := seq(MaxStrDigits + 1, _ => '1');
    UpperFixesNonLower(s);
    assert s[..3][0] != "RFC"[0];
    assert Rest(s) == s;
    assert IsDigits(s);
  }

  /** Python truthiness of an element of the parsed list: None and "" are false. */
  predicate Truthy(o: Option<string>) {
    o.Some? && o.value != ""
  }

  const NotAnRfc: string := "An argument does not refer to an RFC."

  /** `ParseRFCName.__call__` over the corrected parse: parse every argument; if not all
      results are truthy, an argument error; otherwise the parsed names, in the order given,
      are stored. The action as written passes on the ValueError of ParseRfcNameAsWritten
      instead, since argparse catches only argument errors. */
  function ParseRfcNames(values: seq<string>): (r: Result<seq<string>, string>)
    ensures r.Failure? <==> exists i | 0 <= i < |values| :: ParseRfcName(values[i]).None?
    ensures r.Failure? ==> r.error == NotAnRfc
    ensures r.Success? ==>
      && |r.value| == |values|
      && forall i | 0 <= i < |values| :: ParseRfcName(values[i]) == Some(r.value[i])
  {
    var acc := seq(|values|, i requires 0 <= i < |values| => ParseRfcName(values[i]));
    assert forall i | 0 <= i < |values| :: acc[i] == ParseRfcName(values[i]);
    if !(forall i | 0 <= i < |acc| :: Truthy(acc[i])) then Failure(NotAnRfc)
    else Success(seq(|acc|, i requires 0 <= i < |acc| => acc[i].value))
  }

  /** The stored names all start with "RFC", so every one of them would pass the relation
      filter of the record builder unchanged. */
  lemma ParsedNamesAreRfcNames(values: seq<string>)
    requires ParseRfcNames(values).Success?
    ensures Records.FilterRfc(ParseRfcNames(values).value) == ParseRfcNames(values).value
  {
    var names := ParseRfcNames(values).value;
    forall i | 0 <= i < |names| ensures Records.IsRfcName(names[i]) {
      assert ParseRfcName(values[i]) == Some(names[i]);
    }
    FilterKeepsRfcNames(names);
  }

  lemma {:induction false} FilterKeepsRfcNames(names: seq<string>)
    requires forall i | 0 <= i < |names| :: Records.IsRfcName(names[i])
    ensures Records.FilterRfc(names) == names
    decreases |names|
  {
    if names != [] {
      FilterKeepsRfcNames(names[1..]);
    }
  }
}
