/**
 * The JavaScript built-ins the page-token codec relies on:
 * `Number.prototype.toString` on integral numbers, `parseInt(s, 10)` and
 * `String.prototype.split(":")`, following sections 21.1.3.6,
 * 19.2.5 and 22.1.3.23 of the ECMAScript 2024 Language Specification.
 */
module JsNumber {

  /** A JavaScript number as far as page tokens produce one: `NaN` or an integral value. */
  datatype Number = NaN | Integral(value: int)

  /** JavaScript truthiness: `NaN` and zero (of either sign) are falsy. */
  predicate Truthy(n: Number)
  {
    n.Integral? && n.value != 0
  }

  predicate IsDigit(c: char)
  {
    '0' <= c <= '9'
  }

  predicate AllDigits(s: string)
  {
    forall i :: 0 <= i < |s| ==> IsDigit(s[i])
  }

  function DigitValue(c: char): nat
    requires IsDigit(c)
  {
    c as int - '0' as int
  }

  function DigitChar(d: nat): (c: char)
    requires d < 10
    ensures IsDigit(c) && DigitValue(c) == d
  {
    ('0' as int + d) as char
  }

  /** Decimal digits of `n`, most significant first, without leading zeros. */
  function Decimal(n: nat): (s: string)
    ensures |s| >= 1 && AllDigits(s) && ':' !in s
    ensures s[0] == '0' ==> n == 0
    ensures |s| > 1 ==> s[0] != '0'
  {
    if n < 10 then [DigitChar(n)] else Decimal(n / 10) + [DigitChar(n % 10)]
  }

  /** The value of a string of decimal digits, read most significant first. */
  function DigitsValue(s: string): nat
    requires AllDigits(s)
  {
    if s == [] then 0 else DigitsValue(s[..|s| - 1]) * 10 + DigitValue(s[|s| - 1])
  }

  /** `Number.prototype.toString()` on the numbers a token carries. */
  function ToString(n: Number): (s: string)
    ensures s != [] && ':' !in s
  {
    match n
    case NaN => "NaN"
    case Integral(v) => if v < 0 then "-" + Decimal(-v) else Decimal(v)
  }

  /** WhiteSpace and LineTerminator code points that `parseInt` skips at the start. */
  predicate IsStrWhiteSpace(c: char)
  {
    || c == '\t' || c == '\n' || c == '\U{000B}' || c == '\U{000C}' || c == '\r'
    || c == ' ' || c == '\U{00A0}' || c == '\U{1680}'
    || ('\U{2000}' <= c <= '\U{200A}')
    || c == '\U{2028}' || c == '\U{2029}' || c == '\U{202F}' || c == '\U{205F}'
    || c == '\U{3000}' || c == '\U{FEFF}'
  }

  /** The string without its leading white space. */
  function TrimStart(s: string): (r: string)
    ensures |r| <= |s| && r == s[|s| - |r|..]
    ensures r != [] ==> !IsStrWhiteSpace(r[0])
    ensures (s == [] || !IsStrWhiteSpace(s[0])) ==> r == s
    ensures forall i :: 0 <= i < |s| - |r| ==> IsStrWhiteSpace(s[i])
  {
    if s != [] && IsStrWhiteSpace(s[0]) then TrimStart(s[1..]) else s
  }

  /** A string that starts with a digit has no leading white space to trim. */
  lemma DigitIsNotWhiteSpace(s: string)
    ensures s != [] && IsDigit(s[0]) ==> TrimStart(s) == s
  {
    if s != [] && IsDigit(s[0]) {
      assert !IsStrWhiteSpace(s[0]);
    }
  }

  /** The longest prefix of `s` made of decimal digits. */
  function LeadingDigits(s: string): (r: string)
    ensures r <= s && AllDigits(r)
    ensures |r| < |s| ==> !IsDigit(s[|r|])
  {
    if s != [] && IsDigit(s[0]) then [s[0]] + LeadingDigits(s[1..]) else []
  }

  /**
   * `parseInt(s, 10)`: skip leading white space, take an optional sign,
   * then the longest run of decimal digits; `NaN` when that run is empty.
   */
  function ParseInt(s: string): (r: Number)
    ensures TrimStart(s) == [] ==> r == NaN
    ensures s != [] && AllDigits(s) ==> r == Integral(DigitsValue(s))
    ensures r.Integral? && r.value < 0 ==> TrimStart(s) != [] && TrimStart(s)[0] == '-'
  {
    LeadingDigitsOfDigits(s);
    DigitIsNotWhiteSpace(s);
    var t := TrimStart(s);
    var negative := t != [] && t[0] == '-';
    var unsigned := if t != [] && (t[0] == '-' || t[0] == '+') then t[1..] else t;
    var digits := LeadingDigits(unsigned);
    if digits == [] then NaN
    else if negative then Integral(-(DigitsValue(digits) as int))
    else Integral(DigitsValue(digits))
  }

  /** The inverse of `Split`: the fields glued back together with `:`. */
  function Join(fields: seq<string>): string
    requires |fields| >= 1
  {
    if |fields| == 1 then fields[0] else fields[0] + ":" + Join(fields[1..])
  }

  /** `s.split(":")`: the maximal `:`-free fields of `s`, in order. */
  function Split(s: string): (fields: seq<string>)
    ensures |fields| >= 1 && fields[0] <= s
    ensures forall i :: 0 <= i < |fields| ==> ':' !in fields[i]
    ensures Join(fields) == s
  {
    if s == [] then [[]]
    else
      var rest := Split(s[1..]);
      if s[0] == ':' then [[]] + rest
      else [[s[0]] + rest[0]] + rest[1..]
  }

  lemma {:induction false} DecimalValue(n: nat)
    ensures DigitsValue(Decimal(n)) == n
  {
    if n >= 10 {
      var d := Decimal(n);
      assert d[..|d| - 1] == Decimal(n / 10);
      DecimalValue(n / 10);
    }
  }

  lemma {:induction false} LeadingDigitsOfDigits(s: string)
    ensures AllDigits(s) ==> LeadingDigits(s) == s
  {
    if s != [] {
      LeadingDigitsOfDigits(s[1..]);
    }
  }

  lemma {:induction false} LeadingDigitsIgnoresTail(s: string, tail: string)
    requires AllDigits(s)
    requires tail == [] || !IsDigit(tail[0])
    ensures LeadingDigits(s + tail) == s
  {
    if s != [] {
      assert (s + tail)[1..] == s[1..] + tail;
      LeadingDigitsIgnoresTail(s[1..], tail);
    } else {
      assert s + tail == tail;
    }
  }

  /** `parseInt` of an unsigned digit run followed by something that is not a digit. */
  lemma ParseIntUnsigned(d: string, tail: string)
    requires d != [] && AllDigits(d)
    requires tail == [] || !IsDigit(tail[0])
    ensures ParseInt(d + tail) == Integral(DigitsValue(d))
  {
    var s := d + tail;
    assert s[0] == d[0] && IsDigit(s[0]);
    assert !IsStrWhiteSpace(s[0]);
    assert TrimStart(s) == s;
    LeadingDigitsIgnoresTail(d, tail);
    assert LeadingDigits(s) == d;
  }

  /** `parseInt` of a minus sign, a digit run, then something that is not a digit. */
  lemma ParseIntNegative(d: string, tail: string)
    requires d != [] && AllDigits(d)
    requires tail == [] || !IsDigit(tail[0])
    ensures ParseInt("-" + d + tail) == Integral(-(DigitsValue(d) as int))
  {
    var s := "-" + d + tail;
    assert s[0] == '-' && s[1..] == d + tail;
    assert !IsStrWhiteSpace(s[0]);
    assert TrimStart(s) == s;
    LeadingDigitsIgnoresTail(d, tail);
    assert LeadingDigits(s[1..]) == d;
  }

  /** Only the leading digits count: anything after them that is not a digit is ignored. */
  lemma ParseIntIgnoresTail(n: Number, tail: string)
    requires n.Integral?
    requires tail == [] || !IsDigit(tail[0])
    ensures ParseInt(ToString(n) + tail) == n
  {
    var v := n.value;
    if v < 0 {
      var d := Decimal(-v);
      assert ToString(n) == "-" + d;
      DecimalValue(-v);
      ParseIntNegative(d, tail);
    } else {
      var d := Decimal(v);
      assert ToString(n) == d;
      DecimalValue(v);
      ParseIntUnsigned(d, tail);
    }
  }

  /** `parseInt` reads back every integer that `toString` renders, and `NaN` too. */
  lemma ParseIntToString(n: Number)
    ensures ParseInt(ToString(n)) == n
  {
    if n.Integral? {
      ParseIntIgnoresTail(n, []);
      assert ToString(n) + [] == ToString(n);
    } else {
      var s := ToString(n);
      assert s == "NaN" && TrimStart(s) == s && LeadingDigits(s) == [];
    }
  }

  /** Splitting a `:`-joined concatenation splits each side separately. */
  lemma {:induction false} SplitAppend(a: string, b: string)
    ensures Split(a + ":" + b) == Split(a) + Split(b)
  {
    var s := a + ":" + b;
    if a == [] {
      assert s == [':'] + b;
      assert s[1..] == b;
    } else {
      assert s[0] == a[0] && s[1..] == a[1..] + ":" + b;
      SplitAppend(a[1..], b);
      var tailA := Split(a[1..]);
      var rest := Split(s[1..]);
      assert rest == tailA + Split(b);
      if a[0] != ':' {
        assert rest[0] == tailA[0];
        assert rest[1..] == tailA[1..] + Split(b);
      }
    }
  }

  /** A string with no `:` is a single field. */
  lemma {:induction false} SplitNoColon(s: string)
    ensures ':' !in s ==> Split(s) == [s]
  {
    if s != [] {
      SplitNoColon(s[1..]);
    }
  }

  /** A `:`-free prefix stays at the front of the first field. */
  lemma {:induction false} SplitColonFreePrefix(a: string, b: string)
    requires ':' !in a
    ensures Split(a + b)[0] == a + Split(b)[0]
    ensures Split(a + b)[1..] == Split(b)[1..]
  {
    if a != [] {
      assert (a + b)[1..] == a[1..] + b;
      SplitColonFreePrefix(a[1..], b);
    } else {
      assert a + b == b;
    }
  }
}
