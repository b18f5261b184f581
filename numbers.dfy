/**
 * The integer side of JavaScript that the address code relies on:
 * `Number.parseInt` (radix 16 and radix 10), `Number.prototype.toString(16)`
 * followed by `toUpperCase`, and `String.prototype.padStart`.
 * Numbers are unbounded integers; NaN is a separate value.
 */
module Numbers {

  /** A JavaScript number as far as this model needs one: an integer or NaN. */
  datatype JsNumber = Int(value: int) | NaN

  predicate IsHexDigit(c: char) {
    '0' <= c <= '9' || 'a' <= c <= 'f' || 'A' <= c <= 'F'
  }

  predicate IsDecimalDigit(c: char) {
    '0' <= c <= '9'
  }

  predicate IsHexString(s: string) {
    forall i :: 0 <= i < |s| ==> IsHexDigit(s[i])
  }

  /** Hex digits as `toString(16).toUpperCase()` prints them. */
  predicate IsUpperHexString(s: string) {
    forall i :: 0 <= i < |s| ==> '0' <= s[i] <= '9' || 'A' <= s[i] <= 'F'
  }

  predicate IsDecimalString(s: string) {
    forall i :: 0 <= i < |s| ==> IsDecimalDigit(s[i])
  }

  function Pow16(n: nat): (p: nat)
    ensures p >= 1
  {
    if n == 0 then 1 else 16 * Pow16(n - 1)
  }

  function DigitValue(c: char): (v: nat)
    requires IsHexDigit(c)
    ensures v < 16
    ensures IsDecimalDigit(c) ==> v < 10
  {
    if '0' <= c <= '9' then c as int - '0' as int
    else if 'a' <= c <= 'f' then c as int - 'a' as int + 10
    else c as int - 'A' as int + 10
  }

  /** The value of a string of hex digits, most significant first. */
  function HexValue(s: string): (v: nat)
    requires IsHexString(s)
    ensures v < Pow16(|s|)
  {
    if s == [] then 0 else HexValue(s[..|s| - 1]) * 16 + DigitValue(s[|s| - 1])
  }

  /** The value of a string of decimal digits, most significant first. */
  function DecimalValue(s: string): nat
    requires IsDecimalString(s)
  {
    if s == [] then 0 else DecimalValue(s[..|s| - 1]) * 10 + DigitValue(s[|s| - 1])
  }

  /** The upper-case digit for a value below 16. */
  function HexDigitChar(d: nat): (c: char)
    requires d < 16
    ensures IsHexDigit(c) && DigitValue(c) == d
    ensures '0' <= c <= '9' || 'A' <= c <= 'F'
  {
    if d < 10 then ('0' as int + d) as char else ('A' as int + d - 10) as char
  }

  /** `n.toString(16).toUpperCase()` for a non-negative integer: no leading zeros. */
  function ToHex(n: nat): (s: string)
    ensures |s| >= 1 && IsHexString(s) && IsUpperHexString(s)
    ensures HexValue(s) == n
    ensures |s| > 1 ==> s[0] != '0'
  {
    if n < 16 then [HexDigitChar(n)]
    else
      var s := ToHex(n / 16) + [HexDigitChar(n % 16)];
      assert s[..|s| - 1] == ToHex(n / 16);
      s
  }

  /** `n.toString(16).toUpperCase()` for any integer: a minus sign before the digits of a negative one. */
  function IntToHex(n: int): (s: string)
    ensures n >= 0 ==> s == ToHex(n)
    ensures n < 0 ==> |s| >= 2 && s[0] == '-' && s[1..] == ToHex(-n)
  {
    if n >= 0 then ToHex(n)
    else
      var s := "-" + ToHex(-n);
      assert s[1..] == ToHex(-n);
      s
  }

  /** `s.padStart(width, [fill])`. */
  function PadStart(s: string, width: nat, fill: char): (r: string)
    ensures |r| == if |s| >= width then |s| else width
    ensures r[|r| - |s|..] == s
    ensures forall i :: 0 <= i < |r| - |s| ==> r[i] == fill
  {
    if |s| >= width then s else [fill] + PadStart(s, width - 1, fill)
  }

  /** How many hex digits follow one another in `s` from index `from` on. */
  function HexRunLength(s: string, from: nat): (n: nat)
    decreases |s| - from
    ensures from <= |s| ==> from + n <= |s|
    ensures from >= |s| ==> n == 0
    ensures forall i :: from <= i < from + n ==> IsHexDigit(s[i])
    ensures from + n < |s| ==> !IsHexDigit(s[from + n])
  {
    if from >= |s| || !IsHexDigit(s[from]) then 0 else 1 + HexRunLength(s, from + 1)
  }

  /** How many decimal digits follow one another in `s` from index `from` on. */
  function DecimalRunLength(s: string, from: nat): (n: nat)
    decreases |s| - from
    ensures from <= |s| ==> from + n <= |s|
    ensures from >= |s| ==> n == 0
    ensures forall i :: from <= i < from + n ==> IsDecimalDigit(s[i])
    ensures from + n < |s| ==> !IsDecimalDigit(s[from + n])
  {
    if from >= |s| || !IsDecimalDigit(s[from]) then 0 else 1 + DecimalRunLength(s, from + 1)
  }

  /**
   * `Number.parseInt(s, 16)`: the value of the hex digits at the head of `s`,
   * reading up to the first character that is not one; NaN when there is none.
   */
  function ParseHexInt(s: string): (r: JsNumber)
    ensures r.NaN? <==> (s == [] || !IsHexDigit(s[0]))
    ensures r.Int? ==> r.value >= 0
  {
    var n := HexRunLength(s, 0);
    if n == 0 then NaN else Int(HexValue(s[..n]))
  }

  /** `0x` or `0X` at index `k`, the prefix that makes a radix-less `Number.parseInt` read hex. */
  predicate HexPrefixAt(s: string, k: nat) {
    k + 2 <= |s| && s[k] == '0' && (s[k + 1] == 'x' || s[k + 1] == 'X')
  }

  /**
   * `Number.parseInt(s)`: an optional sign, then either `0x`/`0X` and the hex
   * digits at the head of what follows, or the decimal digits at the head of
   * what follows; NaN when there are none.
   */
  function ParseDecimalInt(s: string): (r: JsNumber)
    ensures var k := if s != [] && (s[0] == '-' || s[0] == '+') then 1 else 0;
            r.NaN? <==> if HexPrefixAt(s, k) then k + 2 == |s| || !IsHexDigit(s[k + 2])
                        else k >= |s| || !IsDecimalDigit(s[k])
    ensures var k := if s != [] && (s[0] == '-' || s[0] == '+') then 1 else 0;
            HexPrefixAt(s, k) && r.Int? ==> r.value == (if s[0] == '-' then -1 else 1) * ParseHexInt(s[k + 2..]).value
    ensures r.Int? && r.value < 0 ==> s[0] == '-'
  {
    var k := if s != [] && (s[0] == '-' || s[0] == '+') then 1 else 0;
    var negative := k == 1 && s[0] == '-';
    if HexPrefixAt(s, k) then
      var h := ParseHexInt(s[k + 2..]);
      if h.NaN? then NaN else if negative then Int(-h.value) else h
    else
      var n := DecimalRunLength(s, k);
      if n == 0 then NaN
      else
        var v: int := DecimalValue(s[k..k + n]);
        if negative then Int(-v) else Int(v)
  }

  // ---------------------------------------------------------------------------
  // Lemmas: place value, leading zeros, and the print/parse round trips.
  // ---------------------------------------------------------------------------

  /** Appending digits shifts the value of the head by one place per digit. */
  lemma {:induction false} HexValueAppend(a: string, b: string)
    requires IsHexString(a) && IsHexString(b)
    ensures IsHexString(a + b)
    ensures HexValue(a + b) == HexValue(a) * Pow16(|b|) + HexValue(b)
  {
    HexConcat(a, b);
    if b == [] {
      assert a + b == a;
    } else {
      var b', c := b[..|b| - 1], b[|b| - 1];
      assert b == b' + [c];
      assert a + b == (a + b') + [c];
      HexConcat(a, b');
      HexValueAppend(a, b');
      HexValueSnoc(a + b', c);
      HexValueSnoc(b', c);
      ShiftArithmetic(HexValue(a), Pow16(|b'|), HexValue(b'), DigitValue(c));
    }
  }

  /** One more digit at the end: the value so far moves up one place. */
  lemma HexValueSnoc(s: string, c: char)
    requires IsHexString(s) && IsHexDigit(c)
    ensures IsHexString(s + [c])
    ensures HexValue(s + [c]) == HexValue(s) * 16 + DigitValue(c)
  {
    assert (s + [c])[..|s|] == s;
  }

  lemma ShiftArithmetic(x: int, p: int, y: int, d: int)
    ensures (x * p + y) * 16 + d == x * (16 * p) + (y * 16 + d)
  {
    calc {
      (x * p + y) * 16 + d;
      x * p * 16 + y * 16 + d;
      { MulAssoc16(x, p); }
      x * (16 * p) + (y * 16 + d);
    }
  }

  lemma HexConcat(a: string, b: string)
    requires IsHexString(a) && IsHexString(b)
    ensures IsHexString(a + b)
  {
    var ab := a + b;
    forall i | 0 <= i < |ab| ensures IsHexDigit(ab[i]) {
      if i < |a| { assert ab[i] == a[i]; } else { assert ab[i] == b[i - |a|]; }
    }
  }

  lemma MulAssoc16(x: int, p: int)
    ensures x * p * 16 == x * (16 * p)
  {
  }

  /** A string of zeros is worth nothing. */
  lemma {:induction false} ZerosValue(z: string)
    requires forall i :: 0 <= i < |z| ==> z[i] == '0'
    ensures IsHexString(z) && HexValue(z) == 0
  {
    if z != [] {
      ZerosValue(z[..|z| - 1]);
    }
  }

  /** Zero padding on the left does not change the value: `padStart(w, '0')` is harmless. */
  lemma PadStartKeepsValue(s: string, width: nat)
    requires IsHexString(s)
    ensures IsHexString(PadStart(s, width, '0'))
    ensures HexValue(PadStart(s, width, '0')) == HexValue(s)
  {
    var r := PadStart(s, width, '0');
    var z := r[..|r| - |s|];
    assert r == z + s;
    ZerosValue(z);
    HexValueAppend(z, s);
  }

  /** Value below 16^k is exactly when toString(16) needs at most k digits. */
  lemma {:induction false} ToHexLength(n: nat, k: nat)
    requires k >= 1
    ensures |ToHex(n)| <= k <==> n < Pow16(k)
  {
    if n < 16 {
      assert Pow16(k) >= 16 by { Pow16Grows(1, k); }
    } else {
      if k == 1 {
      } else {
        ToHexLength(n / 16, k - 1);
        assert |ToHex(n)| == |ToHex(n / 16)| + 1;
        DivBelow(n, Pow16(k - 1));
      }
    }
  }

  lemma DivBelow(n: nat, p: nat)
    ensures n / 16 < p <==> n < 16 * p
  {
  }

  lemma {:induction false} Pow16Grows(j: nat, k: nat)
    requires j <= k
    ensures Pow16(j) <= Pow16(k)
  {
    if j < k { Pow16Grows(j, k - 1); }
  }

  /** `Number.parseInt` reads a whole string of hex digits. */
  lemma ParseHexIntOfHexString(s: string)
    requires IsHexString(s) && s != []
    ensures ParseHexInt(s) == Int(HexValue(s))
  {
    assert HexRunLength(s, 0) == |s| by { HexRunCoversHexString(s, 0); }
    assert s[..|s|] == s;
  }

  lemma {:induction false} HexRunCoversHexString(s: string, from: nat)
    requires IsHexString(s) && from <= |s|
    ensures HexRunLength(s, from) == |s| - from
    decreases |s| - from
  {
    if from < |s| { HexRunCoversHexString(s, from + 1); }
  }

  /** `Number.parseInt` stops at the first character that is not a hex digit. */
  lemma ParseHexIntStopsAtNonDigit(a: string, b: string)
    requires IsHexString(a) && a != []
    requires b == [] || !IsHexDigit(b[0])
    ensures ParseHexInt(a + b) == Int(HexValue(a))
  {
    var s := a + b;
    HexRunOverPrefix(a, b, 0);
    assert s[..|a|] == a;
  }

  lemma {:induction false} HexRunOverPrefix(a: string, b: string, from: nat)
    requires IsHexString(a) && from <= |a|
    requires b == [] || !IsHexDigit(b[0])
    ensures HexRunLength(a + b, from) == |a| - from
    decreases |a| - from
  {
    var s := a + b;
    if from < |a| {
      assert s[from] == a[from];
      HexRunOverPrefix(a, b, from + 1);
    } else if b != [] {
      assert s[from] == b[0];
    }
  }

  /** A run of `k` hex digits at `from` followed by a non-digit, or by the end, is exactly the run that is counted. */
  lemma HexRunExact(s: string, from: nat, k: nat)
    requires from + k <= |s|
    requires forall i :: from <= i < from + k ==> IsHexDigit(s[i])
    requires from + k == |s| || !IsHexDigit(s[from + k])
    ensures HexRunLength(s, from) == k
  {
  }

  /** Padding with '0' keeps a string in upper-case hex. */
  lemma PadStartKeepsUpper(s: string, width: nat)
    requires IsUpperHexString(s)
    ensures IsUpperHexString(PadStart(s, width, '0'))
  {
    var r := PadStart(s, width, '0');
    forall i | 0 <= i < |r|
      ensures '0' <= r[i] <= '9' || 'A' <= r[i] <= 'F'
    {
      if i >= |r| - |s| {
        assert r[i] == r[|r| - |s|..][i - (|r| - |s|)];
      }
    }
  }

  /** Printing in hex and parsing back is the identity: `parseInt(n.toString(16), 16) == n`. */
  lemma HexRoundTrip(n: nat)
    ensures ParseHexInt(ToHex(n)) == Int(n)
  {
    ParseHexIntOfHexString(ToHex(n));
  }

  /** A digit-only size string parses to its decimal value. */
  lemma ParseDecimalIntOfDigits(s: string)
    requires IsDecimalString(s) && s != []
    ensures ParseDecimalInt(s) == Int(DecimalValue(s))
  {
    assert !HexPrefixAt(s, 0) by {
      if 2 <= |s| {
        assert IsDecimalDigit(s[1]);
      }
    }
    assert DecimalRunLength(s, 0) == |s| by { DecimalRunCoversDigits(s, 0); }
    assert s[0..|s|] == s;
  }

  /**
   * Without a radix, an optional sign and then decimal digits read as those
   * digits, signed, up to the first character that is not a digit, unless
   * the digits are a lone `0` that an `x` or `X` turns into a hex prefix.
   */
  lemma ParseDecimalIntStopsAtNonDigit(sign: string, a: string, b: string)
    requires sign == "" || sign == "+" || sign == "-"
    requires IsDecimalString(a) && a != []
    requires b == [] || !IsDecimalDigit(b[0])
    requires a != "0" || b == [] || (b[0] != 'x' && b[0] != 'X')
    ensures ParseDecimalInt(sign + a + b) == Int(if sign == "-" then -(DecimalValue(a) as int) else DecimalValue(a))
  {
    var s := sign + a + b;
    var k := |sign|;
    assert s[k..k + |a|] == a;
    assert k == if s != [] && (s[0] == '-' || s[0] == '+') then 1 else 0 by {
      if sign == "" {
        assert s[0] == a[0];
      }
    }
    assert !HexPrefixAt(s, k) by {
      assert s[k] == a[0];
      if |a| >= 2 {
        assert s[k + 1] == a[1];
      } else if b != [] {
        assert a == [a[0]] && s[k + 1] == b[0];
      }
    }
    DecimalRunExact(s, k, |a|);
  }

  lemma DecimalRunExact(s: string, from: nat, k: nat)
    requires from + k <= |s|
    requires forall i :: from <= i < from + k ==> IsDecimalDigit(s[i])
    requires from + k == |s| || !IsDecimalDigit(s[from + k])
    ensures DecimalRunLength(s, from) == k
  {
  }

  /** Without a radix, `0x` or `0X` before hex digits, signed or not, reads them as hex. */
  lemma ParseDecimalIntOfHexPrefix(x: char, digits: string)
    requires x == 'x' || x == 'X'
    requires IsHexString(digits) && digits != []
    ensures ParseDecimalInt(['0', x] + digits) == Int(HexValue(digits))
    ensures ParseDecimalInt(['-', '0', x] + digits) == Int(-(HexValue(digits) as int))
    ensures ParseDecimalInt(['0', x]) == NaN
  {
    ParseHexIntOfHexString(digits);
    assert (['0', x] + digits)[2..] == digits;
    assert (['-', '0', x] + digits)[3..] == digits;
  }

  lemma {:induction false} DecimalRunCoversDigits(s: string, from: nat)
    requires IsDecimalString(s) && from <= |s|
    ensures DecimalRunLength(s, from) == |s| - from
    decreases |s| - from
  {
    if from < |s| { DecimalRunCoversDigits(s, from + 1); }
  }

  /** A six-digit hex string begins with '0' exactly when its value is below 0x100000. */
  lemma LeadingZeroOfSix(s: string)
    requires IsHexString(s) && |s| == 6
    ensures s[0] == '0' <==> HexValue(s) < 0x100000
  {
    HexValueAppend(s[..1], s[1..]);
    assert s[..1] + s[1..] == s;
    assert HexValue(s[..1]) == DigitValue(s[0]) by {
      assert s[..1][..0] == [];
    }
    assert Pow16(5) == 0x100000;
  }
}
