/** Decimal and hexadecimal numerals: `std::to_string` and `std::from_chars` for unsigned types. */
module Numerals {
  import opened Wrappers
  import opened Bits

  function DigitChar(d: nat): char
    requires d < 10
  {
    ('0' as int + d) as char
  }

  /** `std::to_string`. */
  function Decimal(n: nat): (s: string)
    ensures |s| > 0
  {
    if n < 10 then [DigitChar(n)] else Decimal(n / 10) + [DigitChar(n % 10)]
  }

  /** What `c` counts as a digit; 16 when it is none. */
  function DigitOf(c: char): nat {
    if '0' <= c <= '9' then c as int - '0' as int
    else if 'a' <= c <= 'f' then c as int - 'a' as int + 10
    else if 'A' <= c <= 'F' then c as int - 'A' as int + 10
    else 16
  }

  predicate IsDigit(c: char, hex: bool) {
    DigitOf(c) < if hex then 16 else 10
  }

  predicate AllDigits(s: string, hex: bool) {
    forall i :: 0 <= i < |s| ==> IsDigit(s[i], hex)
  }

  function DigitsValue(s: string, hex: bool): nat {
    if s == "" then 0
    else
      var high := DigitsValue(s[..|s| - 1], hex);
      (if hex then 16 * high else 10 * high) + DigitOf(s[|s| - 1])
  }

  /** Length of the longest run of digits at the front. */
  function DigitRun(s: string, hex: bool): (n: nat)
    ensures n <= |s| && AllDigits(s[..n], hex)
    ensures n < |s| ==> !IsDigit(s[n], hex)
  {
    if s == "" || !IsDigit(s[0], hex) then 0 else
      var n := 1 + DigitRun(s[1..], hex);
      assert forall i :: 1 <= i < n ==> s[i] == s[1..][i - 1];
      n
  }

  /** `std::from_chars`: the value, if one was stored, and how many characters matched. */
  function FromChars(s: string, hex: bool, width: nat): (Option<nat>, nat) {
    var n := DigitRun(s, hex);
    if n == 0 then (None, 0)
    else if DigitsValue(s[..n], hex) < Pow2(width) then (Some(DigitsValue(s[..n], hex)), n)
    else (None, n)
  }

  /** The grammar of a numeric flag: `0x` and hexadecimal digits, or decimal digits, in either case in range. */
  function Numeral(token: string, width: nat): Option<nat> {
    var hex := |token| >= 2 && token[0] == '0' && (token[1] == 'x' || token[1] == 'X');
    var digits := if hex then token[2..] else token;
    if digits != "" && AllDigits(digits, hex) && DigitsValue(digits, hex) < Pow2(width)
    then Some(DigitsValue(digits, hex)) else None
  }

  lemma {:induction false} DropLeadingZero(s: string, hex: bool)
    requires s != "" && s[0] == '0'
    ensures DigitsValue(s, hex) == DigitsValue(s[1..], hex)
    ensures AllDigits(s, hex) <==> AllDigits(s[1..], hex)
    decreases |s|
  {
    assert forall i :: 1 <= i < |s| ==> s[i] == s[1..][i - 1];
    if |s| > 1 {
      DropLeadingZero(s[..|s| - 1], hex);
      assert s[..|s| - 1][1..] == s[1..][..|s| - 2];
    }
  }

  /** `parse_numeric`: exactly the grammar above. */
  method ParseNumeric(token: string, width: nat) returns (ok: bool, val: nat)
    requires token != ""
    ensures ok <==> Numeral(token, width).Some?
    ensures ok ==> val == Numeral(token, width).value
  {
    var begin := 0;
    var hex := false;
    if token[begin] == '0' {
      begin := begin + 1;
      if begin == |token| {
        ZeroIsNumeral(token, width);
        return true, 0;
      }
      if token[begin] == 'x' || token[begin] == 'X' {
        hex := true;
        begin := begin + 1;
        if begin == |token| {
          return false, 0;
        }
      }
    }
    var (stored, matched) := FromChars(token[begin..], hex, width);
    WholeRun(token[begin..], hex, width);
    if begin == 1 {
      DropLeadingZero(token, false);
    }
    ok := stored.Some? && matched == |token[begin..]|;
    val := if stored.Some? then stored.value else 0;
  }

  lemma ZeroIsNumeral(token: string, width: nat)
    requires |token| == 1 && token[0] == '0'
    ensures Numeral(token, width) == Some(0)
  {
    assert token[..0] == "" && DigitsValue(token, false) == 0;
  }

  /** `from_chars` uses up the text and stores a value exactly when the text is digits in range. */
  lemma WholeRun(s: string, hex: bool, width: nat)
    ensures var (stored, matched) := FromChars(s, hex, width);
            && (stored.Some? && matched == |s| <==> s != "" && AllDigits(s, hex) && DigitsValue(s, hex) < Pow2(width))
            && (stored.Some? && matched == |s| ==> stored.value == DigitsValue(s, hex))
  {
    assert s[..|s|] == s;
  }

  lemma {:induction false} DecimalDigits(n: nat)
    ensures AllDigits(Decimal(n), false) && DigitsValue(Decimal(n), false) == n
    ensures n > 0 ==> Decimal(n)[0] != '0'
  {
    if n < 10 {
      assert Decimal(n)[..0] == "";
    } else {
      DecimalDigits(n / 10);
      assert Decimal(n)[..|Decimal(n)| - 1] == Decimal(n / 10);
    }
  }

  /** A printed number in range is read back as that number. */
  lemma DecimalRoundTrip(n: nat, width: nat)
    requires 0 < n < Pow2(width)
    ensures Numeral(Decimal(n), width) == Some(n)
  {
    DecimalDigits(n);
  }

  // ---- what numerals are worth ----

  /** The digit `d` in lower or upper case. */
  predicate IsDigitFor(c: char, d: nat) {
    d < 16 && (c == "0123456789abcdef"[d] || c == "0123456789ABCDEF"[d])
  }

  /** `s` is a positional numeral for `n`, leading zeros allowed: the last digit, and before it a numeral for the rest. */
  predicate Denotes(s: string, n: nat, base: nat)
    requires 0 < base <= 16
    decreases |s|
  {
    s != ""
    && IsDigitFor(s[|s| - 1], n % base)
    && if |s| == 1 then n < base else Denotes(s[..|s| - 1], n / base, base)
  }

  lemma DigitMeans(c: char, d: nat)
    ensures IsDigitFor(c, d) <==> d < 16 && DigitOf(c) == d
  {
    assert d < 16 ==> "0123456789abcdef"[d] == if d < 10 then ('0' as int + d) as char else ('a' as int + (d - 10)) as char;
    assert d < 16 ==> "0123456789ABCDEF"[d] == if d < 10 then ('0' as int + d) as char else ('A' as int + (d - 10)) as char;
  }

  function Base(hex: bool): nat {
    if hex then 16 else 10
  }

  /** Digits have the value they denote, and only digits denote anything. */
  lemma {:induction false} DigitsDenote(s: string, n: nat, hex: bool)
    requires s != ""
    ensures Denotes(s, n, Base(hex)) <==> AllDigits(s, hex) && DigitsValue(s, hex) == n
    decreases |s|
  {
    var last, front := s[|s| - 1], s[..|s| - 1];
    DigitMeans(last, n % Base(hex));
    assert forall i :: 0 <= i < |front| ==> s[i] == front[i];
    assert AllDigits(s, hex) <==> AllDigits(front, hex) && IsDigit(last, hex);
    if |s| == 1 {
      assert front == "" && DigitsValue(s, hex) == DigitOf(last);
    } else {
      DigitsDenote(front, n / Base(hex), hex);
      LastDigit(DigitsValue(front, hex), DigitOf(last), n, Base(hex));
    }
  }

  lemma LastDigit(high: nat, low: nat, n: nat, base: nat)
    requires base == 10 || base == 16
    ensures low < base ==> (base * high + low == n <==> high == n / base && low == n % base)
  {
  }

  /** The token has the hexadecimal mark in front. */
  predicate IsHex(token: string) {
    |token| >= 2 && token[0] == '0' && (token[1] == 'x' || token[1] == 'X')
  }

  /** A token is worth `n` exactly when it denotes `n`, in base 16 behind `0x` and in base 10 otherwise, and `n` is in range. */
  lemma {:induction false} NumeralIffDenotes(token: string, n: nat, width: nat)
    ensures Numeral(token, width) == Some(n)
            <==> n < Pow2(width) && if IsHex(token) then Denotes(token[2..], n, 16) else Denotes(token, n, 10)
  {
    var digits := if IsHex(token) then token[2..] else token;
    if digits != "" {
      DigitsDenote(digits, n, IsHex(token));
    }
  }

  /** A hexadecimal printer over the digits given. */
  function Hex(n: nat, digits: string): (s: string)
    requires |digits| == 16
    ensures s != ""
  {
    if n < 16 then [digits[n]] else Hex(n / 16, digits) + [digits[n % 16]]
  }

  lemma {:induction false} HexDenotes(n: nat, digits: string)
    requires digits == "0123456789abcdef" || digits == "0123456789ABCDEF"
    ensures Denotes(Hex(n, digits), n, 16)
  {
    var s := Hex(n, digits);
    if n >= 16 {
      HexDenotes(n / 16, digits);
      assert s[..|s| - 1] == Hex(n / 16, digits);
    }
  }

  /** A number in range printed in hexadecimal, in either case and behind either mark, is read back. */
  lemma {:induction false} HexRoundTrip(n: nat, width: nat, digits: string, mark: char)
    requires n < Pow2(width) && (mark == 'x' || mark == 'X')
    requires digits == "0123456789abcdef" || digits == "0123456789ABCDEF"
    ensures Numeral(['0', mark] + Hex(n, digits), width) == Some(n)
  {
    HexDenotes(n, digits);
    var token := ['0', mark] + Hex(n, digits);
    assert token[2..] == Hex(n, digits);
    NumeralIffDenotes(token, n, width);
  }
}
