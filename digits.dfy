/** Digits, Rust's `u8::from_str_radix` and decimal rendering of numbers. */
module Digits {
  import opened Results

  type Byte = x: int | 0 <= x < 0x100

  predicate IsDecDigit(ch: char)
  {
    '0' <= ch <= '9'
  }

  predicate IsHexDigit(ch: char)
  {
    IsDecDigit(ch) || 'a' <= ch <= 'f' || 'A' <= ch <= 'F'
  }

  /** `char::to_digit(radix)` succeeds, for the two radixes the program uses. */
  predicate IsDigitIn(ch: char, radix: nat)
  {
    if radix == 16 then IsHexDigit(ch) else IsDecDigit(ch)
  }

  predicate AllDigitsIn(t: string, radix: nat)
  {
    forall i :: 0 <= i < |t| ==> IsDigitIn(t[i], radix)
  }

  /** The value `char::to_digit` gives a hex or decimal digit, either case. */
  function DigitValue(ch: char): (v: nat)
    requires IsHexDigit(ch)
    ensures v < 16
    ensures IsDecDigit(ch) <==> v < 10
  {
    if IsDecDigit(ch) then ch as int - '0' as int
    else if 'a' <= ch <= 'f' then ch as int - 'a' as int + 10
    else ch as int - 'A' as int + 10
  }

  function DecChar(d: nat): (ch: char)
    requires d < 10
    ensures IsDecDigit(ch) && DigitValue(ch) == d
  {
    ('0' as int + d) as char
  }

  /** Upper-case hex digit, as the kernel prints its connection tables. */
  function HexChar(d: nat): (ch: char)
    requires d < 16
    ensures IsHexDigit(ch) && DigitValue(ch) == d
  {
    if d < 10 then DecChar(d) else ('A' as int + d - 10) as char
  }

  /** The number the digits `t` denote in `radix`, most significant digit first. */
  function ValueIn(t: string, radix: nat): nat
    requires radix == 10 || radix == 16
    requires AllDigitsIn(t, radix)
    decreases |t|
  {
    if t == [] then 0
    else ValueIn(t[..|t| - 1], radix) * radix + DigitValue(t[|t| - 1])
  }

  /** `u8::from_str_radix(t, radix)`: an optional '+', then at least one digit,
      and a value that fits in a byte. */
  function FromStrRadixU8(t: string, radix: nat): (r: Option<Byte>)
    requires radix == 10 || radix == 16
  {
    var digits := if |t| >= 1 && t[0] == '+' then t[1..] else t;
    if digits != [] && AllDigitsIn(digits, radix) && ValueIn(digits, radix) < 0x100
    then Some(ValueIn(digits, radix))
    else None
  }

  /** Two hex digits (either case) read as one byte, high digit first. */
  lemma {:induction false} HexPairValue(s: string)
    requires |s| == 2 && IsHexDigit(s[0]) && IsHexDigit(s[1])
    ensures FromStrRadixU8(s, 16) == Some(DigitValue(s[0]) * 16 + DigitValue(s[1]))
  {
    assert s[0] != '+';
    assert AllDigitsIn(s, 16);
    var first := s[..1];
    assert first[..0] == [] && first[0] == s[0];
    assert ValueIn(first, 16) == DigitValue(s[0]);
    assert s[..|s| - 1] == first;
    assert ValueIn(s, 16) == DigitValue(s[0]) * 16 + DigitValue(s[1]);
  }

  /** A two-character group that `u8::from_str_radix` accepts in radix 16 is two hex
      digits or '+' and one hex digit; anything else, non-hex characters included, fails. */
  lemma {:induction false} HexPairAccepted(s: string)
    requires |s| == 2
    ensures FromStrRadixU8(s, 16).Some? <==>
      (IsHexDigit(s[0]) && IsHexDigit(s[1])) || (s[0] == '+' && IsHexDigit(s[1]))
  {
    if s[0] == '+' {
      var digits := s[1..];
      assert digits == [s[1]] && digits[..0] == [];
      if IsHexDigit(s[1]) {
        assert AllDigitsIn(digits, 16);
        assert ValueIn(digits, 16) == DigitValue(s[1]);
      }
    } else {
      assert s[..1] == [s[0]];
      assert s[..1][..0] == [];
      if IsHexDigit(s[0]) && IsHexDigit(s[1]) {
        HexPairValue(s);
      }
    }
  }

  /** Decimal digits with no superfluous leading zero. */
  predicate IsCanonicalDec(t: string)
  {
    |t| >= 1 && AllDigitsIn(t, 10) && (t[0] == '0' ==> |t| == 1)
  }

  /** Decimal rendering of `n`, as Rust's `Display` for integers writes it. */
  function Dec(n: nat): (s: string)
    ensures IsCanonicalDec(s) && ValueIn(s, 10) == n
    decreases n
  {
    if n < 10 then
      var s := [DecChar(n)];
      assert s[..0] == [];
      s
    else
      var p := Dec(n / 10);
      var s := p + [DecChar(n % 10)];
      assert s[..|s| - 1] == p;
      assert p[0] == '0' ==> ValueIn(p, 10) == 0 by {
        if p[0] == '0' {
          assert p[..0] == [];
        }
      }
      s
  }

  /** A digit string whose first digit is not zero denotes a positive number. */
  lemma {:induction false} LeadingDigitPositive(t: string)
    requires |t| >= 1 && AllDigitsIn(t, 10) && t[0] != '0'
    ensures ValueIn(t, 10) >= 1
    decreases |t|
  {
    if |t| == 1 {
      assert t[..0] == [];
    } else {
      var p := t[..|t| - 1];
      assert p[0] == t[0];
      LeadingDigitPositive(p);
    }
  }

  /** The canonical decimal form of a number is the only one: rendering the value
      of canonical digits gives the digits back. */
  lemma {:induction false} DecOfCanonical(t: string)
    requires IsCanonicalDec(t)
    ensures Dec(ValueIn(t, 10)) == t
    decreases |t|
  {
    var v := ValueIn(t, 10);
    if |t| == 1 {
      assert t[..0] == [];
      assert DecChar(DigitValue(t[0])) == t[0];
    } else {
      var p := t[..|t| - 1];
      assert p[0] == t[0] != '0';
      LeadingDigitPositive(p);
      DecOfCanonical(p);
      var d := DigitValue(t[|t| - 1]);
      assert v == ValueIn(p, 10) * 10 + d && d < 10;
      assert v / 10 == ValueIn(p, 10) && v % 10 == d;
      assert DecChar(d) == t[|t| - 1];
      assert t == p + [t[|t| - 1]];
    }
  }

  /** A byte is written with at most three decimal digits. */
  lemma {:induction false} DecByteLength(n: Byte)
    ensures 1 <= |Dec(n)| <= 3
  {
    if n >= 10 {
      var m := n / 10;
      assert |Dec(n)| == |Dec(m)| + 1;
      if m < 10 {
        assert |Dec(m)| == 1;
      } else {
        assert m / 10 < 10;
        assert |Dec(m)| == |Dec(m / 10)| + 1;
        assert |Dec(m / 10)| == 1;
      }
    }
  }
}
