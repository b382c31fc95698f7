/** The number formatting `Long.toString` and `Integer.toHexString` perform, with parsers that undo it. */
module JavaText {
  import opened GlobalIds

  /** The character of digit `d`, lower case for the hexadecimal digits as Java prints them. */
  function DigitChar(d: nat): (r: char)
    requires d < 16
  {
    if d < 10 then ('0' as int + d) as char else ('a' as int + d - 10) as char
  }

  /** The value of a digit character, or -1 for any other character. */
  function DigitValue(c: char): (r: int) {
    if '0' <= c <= '9' then c as int - '0' as int
    else if 'a' <= c <= 'f' then c as int - 'a' as int + 10
    else -1
  }

  lemma DigitCharValue(d: nat)
    requires d < 16
    ensures DigitValue(DigitChar(d)) == d
  {
  }

  /** Euclidean division of a natural number by a base. */
  lemma DivideByBase(n: nat, base: nat)
    requires 2 <= base
    ensures 0 <= n % base < base && n == n / base * base + n % base
    ensures n >= base ==> 0 <= n / base < n
  {
  }

  /** The digits of `n` in `base`, most significant first, with no leading zero. */
  function Digits(n: nat, base: nat): (s: string)
    requires 2 <= base <= 16
    ensures |s| > 0
    decreases n
  {
    DivideByBase(n, base);
    if n < base then [DigitChar(n)] else Digits(n / base, base) + [DigitChar(n % base)]
  }

  /** The number a string of digits in `base` stands for. */
  function ParseDigits(s: string, base: nat): (r: int)
    decreases |s|
  {
    if s == [] then 0 else ParseDigits(s[..|s| - 1], base) * base + DigitValue(s[|s| - 1])
  }

  /** Parsing the printed digits gives the number back. */
  lemma {:induction false} DigitsRoundTrip(n: nat, base: nat)
    requires 2 <= base <= 16
    ensures ParseDigits(Digits(n, base), base) == n
    decreases n
  {
    DivideByBase(n, base);
    if n < base {
      DigitCharValue(n);
    } else {
      var q, r := n / base, n % base;
      var s := Digits(n, base);
      assert s == Digits(q, base) + [DigitChar(r)];
      assert s[..|s| - 1] == Digits(q, base);
      DigitsRoundTrip(q, base);
      DigitCharValue(r);
      assert ParseDigits(s, base) == q * base + r;
    }
  }

  /** No printed digit string starts with a minus sign. */
  lemma DigitsUnsigned(n: nat, base: nat)
    requires 2 <= base <= 16
    ensures Digits(n, base)[0] != '-'
    decreases n
  {
    DivideByBase(n, base);
    if n >= base {
      DigitsUnsigned(n / base, base);
    }
  }

  /** `Long.toString(v)`: a minus sign for negative values, then the decimal digits of the magnitude. */
  function LongToString(v: int): (r: string) {
    if v < 0 then "-" + Digits(-v, 10) else Digits(v, 10)
  }

  /** Reads back what `LongToString` prints. */
  function ParseLong(s: string): (r: int) {
    if |s| > 0 && s[0] == '-' then -ParseDigits(s[1..], 10) else ParseDigits(s, 10)
  }

  lemma LongToStringRoundTrip(v: int)
    ensures ParseLong(LongToString(v)) == v
  {
    if v < 0 {
      DigitsRoundTrip(-v, 10);
      assert LongToString(v)[1..] == Digits(-v, 10);
    } else {
      DigitsRoundTrip(v, 10);
      DigitsUnsigned(v, 10);
    }
  }

  /** `Integer.toHexString(i)`: the hexadecimal digits of `i` read as an unsigned 32-bit number. */
  function ToHexString(i: Int32): (r: string) {
    Digits(i % TwoTo32, 16)
  }

  /** The printed hexadecimal digits determine the `int` they came from. */
  lemma ToHexStringRoundTrip(i: Int32)
    ensures WrapInt32(ParseDigits(ToHexString(i), 16)) == i
  {
    DigitsRoundTrip(i % TwoTo32, 16);
    if i < 0 {
      DivModUnique(i + TwoTo32 + 0x8000_0000, 1, i + 0x8000_0000);
    } else {
      DivModUnique(i + 0x8000_0000, 0, i + 0x8000_0000);
    }
  }
}
