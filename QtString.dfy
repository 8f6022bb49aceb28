/**
  The QString primitives the renaming engine is built from: searching for a
  character, Qt's base-10 number parsing (QString::toInt) and number
  formatting (QString::number, QString::arg with a field width).
  QString holds UTF-16 code units. The model's strings are sequences of
  Dafny `char`, which are Unicode scalar values, so lengths and positions
  differ from Qt's for characters outside the Basic Multilingual Plane.
 */
module QtString {

  /** The range of a C++ `int` on the platforms Qt supports. */
  const MaxInt: int := 2147483647
  const MinInt: int := -2147483648

  /** QString::lastIndexOf(c): the last position holding `c`, or -1. */
  function LastIndexOf(s: string, c: char): (r: int)
    ensures -1 <= r < |s|
    ensures r >= 0 ==> s[r] == c
    ensures forall k :: r < k < |s| ==> s[k] != c
  {
    if |s| == 0 then -1
    else if s[|s| - 1] == c then |s| - 1
    else LastIndexOf(s[..|s| - 1], c)
  }

  /** QString::indexOf(c): the first position holding `c`, or -1. */
  function IndexOf(s: string, c: char): (r: int)
    ensures -1 <= r < |s|
    ensures r >= 0 ==> s[r] == c
    ensures forall k :: 0 <= k < |s| && (r < 0 || k < r) ==> s[k] != c
  {
    if |s| == 0 then -1
    else if s[0] == c then 0
    else
      var r := IndexOf(s[1..], c);
      if r < 0 then -1 else r + 1
  }

  predicate IsDigit(c: char) {
    '0' <= c <= '9'
  }

  predicate AllDigits(s: string) {
    forall k :: 0 <= k < |s| ==> IsDigit(s[k])
  }

  function DigitValue(c: char): nat
    requires IsDigit(c)
  {
    c as int - '0' as int
  }

  function DigitChar(d: nat): (c: char)
    requires d < 10
    ensures IsDigit(c) && DigitValue(c) == d
  {
    ('0' as int + d) as char
  }

  /** The value of a string of decimal digits, most significant digit first. */
  function DigitsValue(s: string): nat
    requires AllDigits(s)
  {
    if s == [] then 0 else DigitsValue(s[..|s| - 1]) * 10 + DigitValue(s[|s| - 1])
  }

  /** Base-10 rendering of a non-negative number (QString::number, QString::arg). */
  function NatToDecimal(n: nat): (r: string)
    ensures 1 <= |r| && AllDigits(r)
    ensures DigitsValue(r) == n
    ensures |r| > 1 ==> r[0] != '0'
  {
    if n < 10 then [DigitChar(n)]
    else
      var front := NatToDecimal(n / 10);
      assert (front + [DigitChar(n % 10)])[..|front|] == front;
      front + [DigitChar(n % 10)]
  }

  /** Base-10 rendering of an int, with a leading '-' when negative. */
  function IntToString(n: int): (r: string)
    ensures |r| >= 1
  {
    if n < 0 then "-" + NatToDecimal(-n) else NatToDecimal(n)
  }

  /** n fill characters '0'. */
  function Zeros(n: nat): (z: string)
    ensures |z| == n && forall k :: 0 <= k < n ==> z[k] == '0'
  {
    if n == 0 then "" else Zeros(n - 1) + "0"
  }

  /**
    QString::arg(number, fieldWidth, 10, QChar('0')) for a non-negative
    number: the digits right-aligned in a field of `width` characters, the
    free positions filled with '0'. A wider number is never cut.
   */
  function ZeroPadded(digits: string, width: nat): (r: string)
    ensures |r| == if |digits| >= width then |digits| else width
    ensures r[|r| - |digits|..] == digits
    ensures forall k :: 0 <= k < |r| - |digits| ==> r[k] == '0'
  {
    if |digits| >= width then digits else Zeros(width - |digits|) + digits
  }

  /** The white space QString::toInt skips around a number (the ASCII part of it). */
  predicate IsSpace(c: char) {
    c == ' ' || '\t' <= c <= '\r'
  }

  function TrimStart(s: string): string {
    if s != [] && IsSpace(s[0]) then TrimStart(s[1..]) else s
  }

  function TrimEnd(s: string): string {
    if s != [] && IsSpace(s[|s| - 1]) then TrimEnd(s[..|s| - 1]) else s
  }

  /**
    QString::toInt() in base 10: white space around the number is ignored,
    one optional sign, then ASCII digits only. Anything else, and any value
    outside the range of an int, gives 0.
   */
  function ToInt(s: string): (r: int)
    ensures MinInt <= r <= MaxInt
  {
    var t := TrimEnd(TrimStart(s));
    var signed := |t| > 0 && (t[0] == '-' || t[0] == '+');
    var body := if signed then t[1..] else t;
    if |body| == 0 || !AllDigits(body) then 0
    else
      var v: int := if signed && t[0] == '-' then -(DigitsValue(body) as int) else DigitsValue(body);
      if MinInt <= v <= MaxInt then v else 0
  }

  /** TrimStart drops a prefix of white space and nothing else. */
  lemma {:induction false} TrimStartDropsSpace(s: string)
    ensures |TrimStart(s)| <= |s| && TrimStart(s) == s[|s| - |TrimStart(s)|..]
    ensures forall k :: 0 <= k < |s| - |TrimStart(s)| ==> IsSpace(s[k])
  {
    if s != [] && IsSpace(s[0]) {
      TrimStartDropsSpace(s[1..]);
      forall k | 1 <= k < |s| - |TrimStart(s)| ensures IsSpace(s[k]) {
        assert s[k] == s[1..][k - 1];
      }
    }
  }

  /** TrimEnd drops a suffix of white space and nothing else. */
  lemma {:induction false} TrimEndDropsSpace(s: string)
    ensures |TrimEnd(s)| <= |s| && TrimEnd(s) == s[..|TrimEnd(s)|]
    ensures forall k :: |TrimEnd(s)| <= k < |s| ==> IsSpace(s[k])
  {
    if s != [] && IsSpace(s[|s| - 1]) {
      var init := s[..|s| - 1];
      TrimEndDropsSpace(init);
      forall k | |TrimEnd(s)| <= k < |s| - 1 ensures IsSpace(s[k]) {
        assert s[k] == init[k];
      }
    }
  }

  /**
    Every character of s that is not white space is still there after both
    trims, at index k - (|s| - |TrimStart(s)|) of the trimmed text.
   */
  lemma TrimKeeps(s: string, k: int)
    requires 0 <= k < |s| && !IsSpace(s[k])
    ensures var t := TrimEnd(TrimStart(s)); var i := k - (|s| - |TrimStart(s)|);
      0 <= i < |t| && t[i] == s[k]
  {
    TrimStartDropsSpace(s);
    var u := TrimStart(s);
    var i := k - (|s| - |u|);
    assert 0 <= i < |u| && u[i] == s[k];
    TrimEndDropsSpace(u);
    assert i < |TrimEnd(u)|;
  }

  /** A character that is neither a digit, a sign nor white space makes toInt give 0. */
  lemma ToIntStrayCharacter(s: string, k: int)
    requires 0 <= k < |s| && !IsDigit(s[k]) && !IsSpace(s[k]) && s[k] != '+' && s[k] != '-'
    ensures ToInt(s) == 0
  {
    TrimKeeps(s, k);
    var t := TrimEnd(TrimStart(s));
    var i := k - (|s| - |TrimStart(s)|);
    var signed := |t| > 0 && (t[0] == '-' || t[0] == '+');
    if signed {
      assert t[1..][i - 1] == s[k];
    }
  }

  /** Text without a single digit makes toInt give 0. */
  lemma ToIntWithoutDigits(s: string)
    requires forall k :: 0 <= k < |s| ==> !IsDigit(s[k])
    ensures ToInt(s) == 0
  {
    var t := TrimEnd(TrimStart(s));
    TrimStartDropsSpace(s);
    TrimEndDropsSpace(TrimStart(s));
    var off := |s| - |TrimStart(s)|;
    forall j | 0 <= j < |t| ensures !IsDigit(t[j]) {
      assert t[j] == s[off + j];
    }
    var signed := |t| > 0 && (t[0] == '-' || t[0] == '+');
    var body := if signed then t[1..] else t;
    if |body| > 0 {
      assert !IsDigit(body[0]) by {
        if signed { assert body[0] == t[1]; }
      }
    }
  }

  /** A number as toInt accepts it once trimmed: one optional sign, then at least one ASCII digit. */
  predicate IsNumber(u: string) {
    var body := if |u| > 0 && (u[0] == '-' || u[0] == '+') then u[1..] else u;
    |body| > 0 && AllDigits(body)
  }

  /** The value a number text denotes, its sign included. */
  function NumberValue(u: string): int
    requires IsNumber(u)
  {
    if u[0] == '-' then -(DigitsValue(u[1..]) as int)
    else if u[0] == '+' then DigitsValue(u[1..])
    else DigitsValue(u)
  }

  /** s is white space, the number text s[a..b], then white space. */
  predicate NumberAt(s: string, a: int, b: int) {
    && 0 <= a < b <= |s|
    && (forall k :: 0 <= k < a ==> IsSpace(s[k]))
    && (forall k :: b <= k < |s| ==> IsSpace(s[k]))
    && IsNumber(s[a..b])
  }

  /**
    The converse of the lemmas above: toInt gives a value other than 0 only
    for a number text between white space, and that value is the number's.
   */
  lemma ToIntNonZeroIsWellFormed(s: string)
    requires ToInt(s) != 0
    ensures exists a, b :: NumberAt(s, a, b) && ToInt(s) == NumberValue(s[a..b])
  {
    TrimStartDropsSpace(s);
    var u := TrimStart(s);
    TrimEndDropsSpace(u);
    var t := TrimEnd(u);
    var a := |s| - |u|;
    var b := a + |t|;
    assert s[a..b] == t;
    forall k | b <= k < |s| ensures IsSpace(s[k]) {
      assert s[k] == u[k - a];
    }
    assert NumberAt(s, a, b);
  }

  /** Leading zeros do not change the value of a digit string. */
  lemma {:induction false} LeadingZerosValue(z: nat, s: string)
    requires AllDigits(s)
    ensures AllDigits(Zeros(z) + s)
    ensures DigitsValue(Zeros(z) + s) == DigitsValue(s)
    decreases |s|
  {
    var zs: string := Zeros(z);
    assert AllDigits(zs + s);
    if s == [] {
      LeadingZerosAlone(z);
      assert zs + s == zs;
    } else {
      var init := s[..|s| - 1];
      LeadingZerosValue(z, init);
      assert (zs + s)[..|zs + s| - 1] == zs + init;
    }
  }

  lemma {:induction false} LeadingZerosAlone(z: nat)
    ensures AllDigits(Zeros(z))
    ensures DigitsValue(Zeros(z)) == 0
  {
    if z > 0 {
      LeadingZerosAlone(z - 1);
      assert Zeros(z)[..z - 1] == Zeros(z - 1);
    }
  }

  /** toInt on a plain digit string: its value, or 0 when it does not fit in an int. */
  lemma ToIntOfDigits(s: string)
    requires |s| > 0 && AllDigits(s)
    ensures ToInt(s) == if DigitsValue(s) <= MaxInt then DigitsValue(s) else 0
  {
    assert TrimStart(s) == s;
    assert TrimEnd(s) == s;
  }

  /** toInt reads back every int that IntToString writes. */
  lemma ToIntOfIntToString(n: int)
    requires MinInt <= n <= MaxInt
    ensures ToInt(IntToString(n)) == n
  {
    var s := IntToString(n);
    assert TrimStart(s) == s;
    assert TrimEnd(s) == s;
    if n < 0 {
      assert s[1..] == NatToDecimal(-n);
    }
  }
}
