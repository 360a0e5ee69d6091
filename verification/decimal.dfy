/** Decimal rendering of integers, as Go's `%d` verb and `strconv.Itoa` write
    them, and the parser that reads such a rendering back. */
module Decimal {
  import opened Bytes
  import opened Outcomes

  /** Go's `int64`, the type of `time.Time.Unix()`. */
  type Int64 = x: int | -0x8000_0000_0000_0000 <= x < 0x8000_0000_0000_0000

  predicate IsDigit(c: byte) {
    48 <= c <= 57
  }

  predicate AllDigits(s: seq<byte>) {
    forall i :: 0 <= i < |s| ==> IsDigit(s[i])
  }

  /** One or more digits with no leading zero, except the single `0`. */
  predicate IsCanonicalNat(s: seq<byte>) {
    |s| >= 1 && AllDigits(s) && (s[0] == 48 ==> |s| == 1)
  }

  /** The digits of `n`, most significant first. */
  function Digits(n: nat): (r: seq<byte>)
    ensures IsCanonicalNat(r)
    ensures r == [48] <==> n == 0
    decreases n
  {
    if n < 10 then [48 + n] else Digits(n / 10) + [48 + n % 10]
  }

  /** `%d`: a minus sign for negative values, then the digits of the magnitude. */
  function FormatInt(n: int): (r: seq<byte>)
    ensures |r| >= 1
    ensures r[0] == MINUS <==> n < 0
    ensures n < 0 ==> IsCanonicalNat(r[1..]) && r[1..] != [48]
    ensures n >= 0 ==> IsCanonicalNat(r)
  {
    if n < 0 then [MINUS] + Digits(-n) else Digits(n)
  }

  /** The value of a string of digits. */
  function DigitsValue(s: seq<byte>): nat
    requires AllDigits(s)
    decreases |s|
  {
    if s == [] then 0 else DigitsValue(s[..|s| - 1]) * 10 + (s[|s| - 1] - 48)
  }

  /** Reads back exactly the strings `FormatInt` writes. */
  function ParseInt(s: seq<byte>): Option<int> {
    if |s| >= 1 && s[0] == MINUS then
      if IsCanonicalNat(s[1..]) && s[1..] != [48] then Some(0 - DigitsValue(s[1..]) as int) else None
    else if IsCanonicalNat(s) then Some(DigitsValue(s))
    else None
  }

  lemma {:induction false} DigitsValueOfDigits(n: nat)
    ensures DigitsValue(Digits(n)) == n
    decreases n
  {
    if n >= 10 {
      DigitsValueOfDigits(n / 10);
      var d := Digits(n);
      assert d[..|d| - 1] == Digits(n / 10);
    }
  }

  lemma {:induction false} ZeroValueAllZeros(s: seq<byte>)
    requires AllDigits(s) && |s| >= 1 && s[0] != 48
    ensures DigitsValue(s) > 0
    decreases |s|
  {
    if |s| > 1 {
      ZeroValueAllZeros(s[..|s| - 1]);
    }
  }

  lemma {:induction false} DigitsOfDigitsValue(s: seq<byte>)
    requires IsCanonicalNat(s)
    ensures Digits(DigitsValue(s)) == s
    decreases |s|
  {
    if |s| > 1 {
      var p := s[..|s| - 1];
      var d := s[|s| - 1] - 48;
      DigitsOfDigitsValue(p);
      ZeroValueAllZeros(p);
      var v := DigitsValue(p);
      assert DigitsValue(s) == v * 10 + d;
      assert (v * 10 + d) / 10 == v && (v * 10 + d) % 10 == d;
      assert s == p + [s[|s| - 1]];
    }
  }

  /** Parsing the rendering of any integer gives back that integer. */
  lemma ParseFormat(n: int)
    ensures ParseInt(FormatInt(n)) == Some(n)
  {
    var r := FormatInt(n);
    if n < 0 {
      assert r[1..] == Digits(-n);
      DigitsValueOfDigits(-n);
    } else {
      DigitsValueOfDigits(n);
    }
  }

  /** Every string the parser accepts is the rendering of its value, so the
      rendering is the one canonical spelling of each integer. */
  lemma FormatParse(s: seq<byte>, n: int)
    requires ParseInt(s) == Some(n)
    ensures FormatInt(n) == s
  {
    if |s| >= 1 && s[0] == MINUS {
      DigitsOfDigitsValue(s[1..]);
      assert s == [MINUS] + s[1..];
    } else {
      DigitsOfDigitsValue(s);
    }
  }
}
