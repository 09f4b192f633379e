/**
 * The two conversions between int and decimal text that the placeholder
 * tokens rely on: StringBuilder.append(int) when a token is written, and
 * Integer.parseInt when it is read back.
 */
module JavaInt {
  import opened Wrappers

  const MaxInt: int := 0x7FFF_FFFF
  const MinInt: int := -0x8000_0000

  predicate IsDigit(c: char) {
    '0' <= c <= '9'
  }

  predicate AllDigits(s: string) {
    forall i :: 0 <= i < |s| ==> IsDigit(s[i])
  }

  function DigitChar(d: nat): (c: char)
    requires d < 10
    ensures IsDigit(c)
  {
    ('0' as int + d) as char
  }

  function DigitValue(c: char): (d: nat)
    requires IsDigit(c)
    ensures d < 10 && DigitChar(d) == c
  {
    c as int - '0' as int
  }

  /** The value of a string of decimal digits, most significant first; leading zeros add nothing. */
  function DigitsValue(s: string): nat
    requires AllDigits(s)
  {
    if s == [] then 0 else DigitsValue(s[..|s| - 1]) * 10 + DigitValue(s[|s| - 1])
  }

  /** k / 10, computed by repeated subtraction so that unfolding Decimal brings in no division. */
  function Tens(k: nat): (q: nat)
    ensures k >= 10 ==> 0 < q < k
  {
    if k < 10 then 0 else 1 + Tens(k - 10)
  }

  /** k % 10, the last decimal digit of k. */
  function LastDigit(k: nat): (d: nat)
    ensures d < 10
  {
    if k < 10 then k else LastDigit(k - 10)
  }

  lemma {:induction false} TensLastDigit(k: nat)
    ensures Tens(k) * 10 + LastDigit(k) == k
  {
    if k >= 10 {
      TensLastDigit(k - 10);
    }
  }

  /** The text StringBuilder.append(int) writes for a non-negative int. */
  function Decimal(k: nat): (s: string)
    ensures |s| > 0
  {
    if k < 10 then [DigitChar(k)] else Decimal(Tens(k)) + [DigitChar(LastDigit(k))]
  }

  /** Decimal(k) is a string of digits without sign or leading zero whose value is k. */
  lemma {:induction false} DecimalSpec(k: nat)
    ensures AllDigits(Decimal(k))
    ensures DigitsValue(Decimal(k)) == k
    ensures |Decimal(k)| > 1 ==> Decimal(k)[0] != '0'
  {
    if k >= 10 {
      var prefix := Decimal(Tens(k));
      DecimalSpec(Tens(k));
      TensLastDigit(k);
      var s := prefix + [DigitChar(LastDigit(k))];
      assert s[..|prefix|] == prefix;
      assert s[0] == prefix[0];
    }
  }

  /**
   * The value of the digit string s, or None when s is empty or holds a
   * character other than a decimal digit.  Recursive, so that unfolding
   * ParseInt does not unfold the whole digit scan.
   */
  function ParseDigits(s: string): Option<nat> {
    if s == [] || !IsDigit(s[|s| - 1]) then None
    else if |s| == 1 then Some(DigitValue(s[0]))
    else match ParseDigits(s[..|s| - 1])
      case None => None
      case Some(v) => Some(v * 10 + DigitValue(s[|s| - 1]))
  }

  /** ParseDigits accepts exactly the non-empty digit strings, with their value. */
  lemma {:induction false} ParseDigitsSpec(s: string)
    ensures ParseDigits(s) == if s != [] && AllDigits(s) then Some(DigitsValue(s)) else None
  {
    if s != [] && IsDigit(s[|s| - 1]) && |s| > 1 {
      var init := s[..|s| - 1];
      ParseDigitsSpec(init);
      if AllDigits(s) {
        assert AllDigits(init) by {
          forall j | 0 <= j < |init| ensures IsDigit(init[j]) {
            assert init[j] == s[j];
          }
        }
      }
    } else if s != [] && IsDigit(s[|s| - 1]) {
      assert s[..0] == [];
    }
  }

  /**
   * Integer.parseInt(s) in radix 10: Some(v) where it returns v, None where
   * it throws NumberFormatException.  An optional leading '+' or '-' is
   * accepted, then at least one digit; a value outside the 32-bit range is
   * an error.
   */
  function ParseInt(s: string): (r: Option<int>)
    ensures r.Some? ==> MinInt <= r.value <= MaxInt
  {
    var signed := |s| > 0 && (s[0] == '-' || s[0] == '+');
    var digits := if signed then s[1..] else s;
    match ParseDigits(digits)
    case None => None
    case Some(n) =>
      var v: int := if signed && s[0] == '-' then -(n as int) else n;
      if MinInt <= v <= MaxInt then Some(v) else None
  }

  /** Reading back what append(int) wrote gives the same int. */
  lemma ParseIntOfDecimal(k: nat)
    requires k <= MaxInt
    ensures ParseInt(Decimal(k)) == Some(k)
  {
    var s := Decimal(k);
    DecimalSpec(k);
    ParseDigitsSpec(s);
    assert !IsDigit('-') && !IsDigit('+');
    assert s[0] != '-' && s[0] != '+';
  }

  /** A leading zero does not change the parsed value. */
  lemma {:induction false} LeadingZeroIgnored(s: string)
    requires AllDigits(s)
    ensures AllDigits("0" + s) && DigitsValue("0" + s) == DigitsValue(s)
  {
    if s != [] {
      var init := s[..|s| - 1];
      LeadingZeroIgnored(init);
      assert ("0" + s)[..|"0" + s| - 1] == "0" + init;
    }
  }

  /** Integer.parseInt accepts leading zeros and an explicit '+' sign. */
  lemma ParseIntAcceptsZerosAndPlus(k: nat)
    requires k <= MaxInt
    ensures ParseInt("0" + Decimal(k)) == Some(k)
    ensures ParseInt("+" + Decimal(k)) == Some(k)
  {
    DecimalSpec(k);
    LeadingZeroIgnored(Decimal(k));
    ParseDigitsSpec(Decimal(k));
    ParseDigitsSpec("0" + Decimal(k));
    assert ("+" + Decimal(k))[1..] == Decimal(k);
  }

  /** A '-' sign in front of a positive value makes it negative. */
  lemma ParseIntNegative(k: nat)
    requires 0 < k <= MaxInt
    ensures ParseInt("-" + Decimal(k)).Some? && ParseInt("-" + Decimal(k)).value == -(k as int)
  {
    DecimalSpec(k);
    ParseDigitsSpec(Decimal(k));
    assert ("-" + Decimal(k))[1..] == Decimal(k);
  }

  /** 2^31 does not fit: parseInt throws. */
  lemma ParseIntOverflow()
    ensures ParseInt(Decimal(MaxInt + 1)) == None
  {
    var s := Decimal(MaxInt + 1);
    DecimalSpec(MaxInt + 1);
    ParseDigitsSpec(s);
    assert s[0] != '-' && s[0] != '+';
  }
}
