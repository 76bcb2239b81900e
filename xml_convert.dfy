/**
 * The System.Xml.XmlConvert conversions the converter calls: ToBoolean on a json:Array
 * value, and ToString on integer and boolean token values.
 */
module XmlConvert {
  import opened Results

  /** The characters XmlConvert trims: space, tab, line feed, carriage return. */
  predicate IsXmlWhitespace(c: char) {
    c == ' ' || c == '\t' || c == '\n' || c == '\r'
  }

  /** s without its leading XML whitespace. */
  function TrimStart(s: string): (t: string)
    ensures |t| <= |s| && t == s[|s| - |t|..]
    ensures forall i | 0 <= i < |s| - |t| :: IsXmlWhitespace(s[i])
    ensures t != [] ==> !IsXmlWhitespace(t[0])
  {
    if s != [] && IsXmlWhitespace(s[0]) then TrimStart(s[1..]) else s
  }

  /** s without its trailing XML whitespace. */
  function TrimEnd(s: string): (t: string)
    ensures |t| <= |s| && t == s[..|t|]
    ensures forall i | |t| <= i < |s| :: IsXmlWhitespace(s[i])
    ensures t != [] ==> !IsXmlWhitespace(t[|t| - 1])
  {
    if s != [] && IsXmlWhitespace(s[|s| - 1]) then TrimEnd(s[..|s| - 1]) else s
  }

  function Trim(s: string): string {
    TrimEnd(TrimStart(s))
  }

  /**
   * XmlConvert.ToBoolean: after trimming, "true" and "1" read as true, "false" and "0"
   * as false; anything else raises a FormatException (None here).
   */
  function ToBoolean(s: string): (r: Option<bool>)
    ensures r == Some(true) <==> Trim(s) == "true" || Trim(s) == "1"
    ensures r == Some(false) <==> Trim(s) == "false" || Trim(s) == "0"
  {
    var t := Trim(s);
    if t == "true" || t == "1" then Some(true)
    else if t == "false" || t == "0" then Some(false)
    else None
  }

  /** XmlConvert.ToString(bool). */
  function FromBoolean(b: bool): string {
    if b then "true" else "false"
  }

  /** Trimming leaves alone a string that neither starts nor ends with whitespace. */
  lemma TrimUntrimmed(s: string)
    requires s != [] && !IsXmlWhitespace(s[0]) && !IsXmlWhitespace(s[|s| - 1])
    ensures Trim(s) == s
  {
    assert TrimStart(s) == s;
  }

  lemma ToBooleanInvertsFromBoolean(b: bool)
    ensures ToBoolean(FromBoolean(b)) == Some(b)
  {
    TrimUntrimmed(FromBoolean(b));
  }

  function DigitChar(d: nat): char
    requires d < 10
  {
    "0123456789"[d]
  }

  function DigitValue(c: char): nat {
    if '0' <= c <= '9' then (c - '0') as nat else 0
  }

  /** The decimal digits of n, most significant first, without leading zeros. */
  function Digits(n: nat): (s: string)
    ensures |s| > 0 && forall i | 0 <= i < |s| :: '0' <= s[i] <= '9'
    decreases n
  {
    if n < 10 then [DigitChar(n)] else Digits(n / 10) + [DigitChar(n % 10)]
  }

  /** XmlConvert.ToString(long) and Int64.ToString(): decimal digits, '-' before a negative number. */
  function FromInt(i: int): string {
    if i < 0 then "-" + Digits(-i) else Digits(i)
  }

  /** The value of a string of decimal digits. */
  function DigitsValue(s: string): nat {
    if s == [] then 0 else DigitsValue(s[..|s| - 1]) * 10 + DigitValue(s[|s| - 1])
  }

  /** Reads back what FromInt writes. */
  function ParseInt(s: string): int {
    if s != [] && s[0] == '-' then 0 - DigitsValue(s[1..]) as int else DigitsValue(s)
  }

  lemma {:induction false} DigitsValueOfDigits(n: nat)
    ensures DigitsValue(Digits(n)) == n
    decreases n
  {
    if n >= 10 {
      var s := Digits(n);
      assert s[..|s| - 1] == Digits(n / 10);
      DigitsValueOfDigits(n / 10);
    }
  }

  /** The integer rendering is faithful: reading it back gives the integer. */
  lemma {:induction false} ParseIntInvertsFromInt(i: int)
    ensures ParseInt(FromInt(i)) == i
  {
    if i < 0 {
      NegativeParse(Digits(-i));
    } else {
      var d := Digits(i);
      assert d[0] != '-';
    }
    DigitsValueOfDigits(if i < 0 then -i else i);
  }

  /** A minus sign followed by digits reads as the negated value of the digits. */
  lemma NegativeParse(d: string)
    ensures ParseInt("-" + d) == 0 - DigitsValue(d) as int
  {
    assert ("-" + d)[0] == '-' && ("-" + d)[1..] == d;
  }
}
