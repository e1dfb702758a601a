/** The parser that turns a token typed by the user (the start offset on the
    command line, an offset in command mode, a page count) into a u64.
    `FromStrRadix` models the standard library's `u64::from_str_radix`
    (which `str::parse::<u64>` calls with radix 10); `ParseOffset` models
    `parse_offset_or_length`. */
module OffsetParser {
  import opened Uint
  import opened HexFormat

  /** The failure kinds of the standard library's unsigned integer parser. */
  datatype ParseError = Empty | InvalidDigit | PosOverflow

  datatype Result<T> = Ok(value: T) | Err(error: ParseError)

  /** The digit a character stands for in any radix up to 36 (`char::to_digit`),
      or 36 when it is no digit at all. */
  function CharValue(c: char): (v: nat)
    ensures v <= 36
    ensures v < 10 <==> '0' <= c <= '9'
  {
    if '0' <= c <= '9' then c as int - '0' as int
    else if 'a' <= c <= 'z' then c as int - 'a' as int + 10
    else if 'A' <= c <= 'Z' then c as int - 'A' as int + 10
    else 36
  }

  predicate AllDigits(s: string, radix: nat) {
    forall i :: 0 <= i < |s| ==> CharValue(s[i]) < radix
  }

  /** The number a digit string denotes, most significant digit first. */
  function Value(s: string, radix: nat): nat {
    if s == [] then 0 else Value(s[..|s| - 1], radix) * radix + CharValue(s[|s| - 1])
  }

  /** The digits the parser reads: an unsigned parser skips one leading '+'. */
  function Unsigned(s: string): string {
    if |s| > 0 && s[0] == '+' then s[1..] else s
  }

  /** `s` is a numeral in `radix` whose value fits in a u64. */
  predicate IsNumeral(s: string, radix: nat) {
    Unsigned(s) != [] && AllDigits(Unsigned(s), radix) && Value(Unsigned(s), radix) <= U64_MAX
  }

  /** The digit loop of `from_str_radix`, left to right: the first character
      that is no digit fails with `InvalidDigit`, the first step whose
      multiply-and-add leaves the u64 range fails with `PosOverflow`. */
  function Accumulate(digits: string, radix: nat, acc: u64): Result<u64>
    requires 2 <= radix <= 36
    decreases |digits|
  {
    if digits == [] then Ok(acc)
    else if CharValue(digits[0]) >= radix then Err(InvalidDigit)
    else if acc * radix + CharValue(digits[0]) > U64_MAX then Err(PosOverflow)
    else Accumulate(digits[1..], radix, acc * radix + CharValue(digits[0]))
  }

  /** `u64::from_str_radix`. */
  function FromStrRadix(s: string, radix: nat): Result<u64>
    requires 2 <= radix <= 36
  {
    if s == [] then Err(Empty)
    else if |s| == 1 && (s[0] == '+' || s[0] == '-') then Err(InvalidDigit)
    else Accumulate(Unsigned(s), radix, 0)
  }

  predicate HasHexPrefix(s: string) {
    |s| >= 2 && (s[..2] == "0x" || s[..2] == "0X")
  }

  /** `parse_offset_or_length`: base 16 after a `0x`/`0X` prefix, base 10 otherwise. */
  function ParseOffset(s: string): Result<u64> {
    if HasHexPrefix(s) then FromStrRadix(s[2..], 16) else FromStrRadix(s, 10)
  }

  lemma MulGrows(x: nat, k: nat)
    requires 1 <= k
    ensures x <= x * k
  {
  }

  /** Appending digits never makes a numeral smaller. */
  lemma {:induction false} ValueGrows(p: string, r: string, radix: nat)
    requires 1 <= radix
    ensures Value(p, radix) <= Value(p + r, radix)
    decreases |r|
  {
    if r != [] {
      var r' := r[..|r| - 1];
      assert (p + r)[..|p + r| - 1] == p + r';
      ValueGrows(p, r', radix);
      assert Value(p + r, radix) == Value(p + r', radix) * radix + CharValue((p + r)[|p + r| - 1]);
      MulGrows(Value(p + r', radix), radix);
    } else {
      assert p + r == p;
    }
  }

  /** The digit loop, started on the value of the digits already read,
      succeeds exactly when every further character is a digit and the whole
      numeral fits in a u64; it then yields the value of the whole numeral. */
  lemma {:induction false} AccumulateValue(p: string, ds: string, radix: nat)
    requires 2 <= radix <= 36 && Value(p, radix) <= U64_MAX
    ensures Accumulate(ds, radix, Value(p, radix)).Ok?
      <==> AllDigits(ds, radix) && Value(p + ds, radix) <= U64_MAX
    ensures Accumulate(ds, radix, Value(p, radix)).Ok?
      ==> Accumulate(ds, radix, Value(p, radix)).value == Value(p + ds, radix)
    decreases |ds|
  {
    if ds == [] {
      assert p + ds == p;
    } else {
      var d := CharValue(ds[0]);
      var p' := p + [ds[0]];
      assert p'[..|p'| - 1] == p;
      assert Value(p', radix) == Value(p, radix) * radix + d;
      assert p' + ds[1..] == p + ds;
      if d >= radix {
        assert !AllDigits(ds, radix);
      } else if Value(p, radix) * radix + d > U64_MAX {
        ValueGrows(p', ds[1..], radix);
      } else {
        AccumulateValue(p', ds[1..], radix);
        AllDigitsTail(ds, radix);
      }
    }
  }

  lemma AllDigitsTail(ds: string, radix: nat)
    requires ds != [] && CharValue(ds[0]) < radix
    ensures AllDigits(ds, radix) <==> AllDigits(ds[1..], radix)
  {
    if AllDigits(ds[1..], radix) {
      forall i | 0 <= i < |ds| ensures CharValue(ds[i]) < radix {
        if i > 0 { assert ds[i] == ds[1..][i - 1]; }
      }
    }
  }

  /** `from_str_radix` succeeds exactly on the numerals that fit in a u64 (an
      optional '+' then at least one digit) and returns their value. */
  lemma FromStrRadixMeaning(s: string, radix: nat)
    requires 2 <= radix <= 36
    ensures FromStrRadix(s, radix).Ok? <==> IsNumeral(s, radix)
    ensures FromStrRadix(s, radix).Ok? ==> FromStrRadix(s, radix).value == Value(Unsigned(s), radix)
  {
    if s != [] && !(|s| == 1 && (s[0] == '+' || s[0] == '-')) {
      AccumulateValue([], Unsigned(s), radix);
      assert [] + Unsigned(s) == Unsigned(s);
    }
  }

  /** `parse_offset_or_length` succeeds exactly on a hexadecimal numeral after
      a `0x`/`0X` prefix, or on a decimal numeral without one, and returns its
      value. */
  lemma ParseOffsetMeaning(s: string)
    ensures ParseOffset(s).Ok? <==>
      if HasHexPrefix(s) then IsNumeral(s[2..], 16) else IsNumeral(s, 10)
    ensures ParseOffset(s).Ok? ==>
      ParseOffset(s).value == if HasHexPrefix(s) then Value(Unsigned(s[2..]), 16) else Value(Unsigned(s), 10)
  {
    if HasHexPrefix(s) { FromStrRadixMeaning(s[2..], 16); } else { FromStrRadixMeaning(s, 10); }
  }

  /** The `{:X}` rendering of a number is a hexadecimal numeral of that number. */
  lemma {:induction false} ToHexValue(n: nat)
    ensures AllDigits(ToHex(n), 16) && Value(ToHex(n), 16) == n
    decreases n
  {
    var h := ToHex(n);
    if n >= 16 {
      var t := ToHex(n / 16);
      ToHexValue(n / 16);
      assert h == t + [HexDigit(n % 16)];
      assert h[..|h| - 1] == t;
      assert Value(h, 16) == Value(t, 16) * 16 + CharValue(HexDigit(n % 16));
      DigitsAppend(t, HexDigit(n % 16));
    } else {
      assert h == [HexDigit(n)] && h[..0] == [];
    }
  }

  lemma DigitsAppend(t: string, c: char)
    requires AllDigits(t, 16) && CharValue(c) < 16
    ensures AllDigits(t + [c], 16)
  {
    var h := t + [c];
    forall i | 0 <= i < |h| ensures CharValue(h[i]) < 16 {
      if i < |t| { assert h[i] == t[i]; }
    }
  }

  /** Leading zeros do not change the value of a numeral. */
  lemma {:induction false} LeadingZerosValue(k: nat, s: string, radix: nat)
    ensures Value(Zeros(k) + s, radix) == Value(s, radix)
    decreases |s|
  {
    if s == [] {
      ZerosValue(k, radix);
      assert Zeros(k) + s == Zeros(k);
    } else {
      var s' := s[..|s| - 1];
      assert (Zeros(k) + s)[..|Zeros(k) + s| - 1] == Zeros(k) + s';
      LeadingZerosValue(k, s', radix);
    }
  }

  lemma {:induction false} ZerosValue(k: nat, radix: nat)
    ensures Value(Zeros(k), radix) == 0
  {
    if k > 0 {
      assert Zeros(k)[..k - 1] == Zeros(k - 1);
      ZerosValue(k - 1, radix);
    }
  }

  /** The `{:0wX}` rendering of a number is a hexadecimal numeral of that
      number, with no sign. */
  lemma PadHexValue(n: nat, width: nat)
    ensures PadHex(n, width) != [] && PadHex(n, width)[0] != '+'
    ensures AllDigits(PadHex(n, width), 16) && Value(PadHex(n, width), 16) == n
  {
    var h := ToHex(n);
    ToHexValue(n);
    assert h[0] != '+' by { assert CharValue(h[0]) < 16; }
    if |h| < width {
      var k := width - |h|;
      assert PadHex(n, width) == Zeros(k) + h;
      LeadingZerosValue(k, h, 16);
      ZerosDigits(k, h);
      assert (Zeros(k) + h)[0] == '0';
    } else {
      assert PadHex(n, width) == h;
    }
  }

  /** Zeros in front of hexadecimal digits leave hexadecimal digits. */
  lemma ZerosDigits(k: nat, h: string)
    requires AllDigits(h, 16)
    ensures AllDigits(Zeros(k) + h, 16)
  {
    var z := Zeros(k);
    var p := z + h;
    forall i | 0 <= i < |p| ensures CharValue(p[i]) < 16 {
      if i < |z| { assert p[i] == '0'; } else { assert p[i] == h[i - |z|]; }
    }
  }

  /** A u64 rendered with `{:0wX}` (as the row labels are) and typed back
      after `0x` parses to the same number. */
  lemma ParsePaddedHex(n: u64, width: nat)
    ensures ParseOffset("0x" + PadHex(n, width)) == Ok(n)
  {
    var p := PadHex(n, width);
    var s := "0x" + p;
    assert s[..2] == "0x" && s[2..] == p;
    PadHexValue(n, width);
    assert Unsigned(p) == p;
    ParseOffsetMeaning(s);
  }

  /**
   * Offsets as the viewer parses them. Its help text (src/main.rs:31) names
   * "0x1A" and "26"; the other cases are examples of the same rules.
   */
  lemma ParseOffsetExamples()
    ensures ParseOffset("0x1A") == Ok(26)
    ensures ParseOffset("26") == Ok(26)
    ensures ParseOffset("0xFF") == Ok(255)
    ensures ParseOffset("+26") == Ok(26)
    ensures ParseOffset("-1") == Err(InvalidDigit)
    ensures ParseOffset("0xZZ") == Err(InvalidDigit)
    ensures ParseOffset("") == Err(Empty)
    ensures ParseOffset("0x") == Err(Empty)
  {
    assert "0x1A"[..2] == "0x" && "0x1A"[2..] == "1A";
    assert Accumulate("1A", 16, 0) == Accumulate("A", 16, 1);
    assert "0xFF"[..2] == "0x" && "0xFF"[2..] == "FF";
    assert Accumulate("FF", 16, 0) == Accumulate("F", 16, 15);
    assert "0xZZ"[..2] == "0x" && "0xZZ"[2..] == "ZZ";
    assert "0x"[..2] == "0x" && "0x"[2..] == "";
    assert "26"[..2] == ['2', '6'];
    assert Accumulate("26", 10, 0) == Accumulate("6", 10, 2);
    assert "-1"[..2] == ['-', '1'];
    assert "+26"[..2] == ['+', '2'] && "+26"[1..] == "26";
  }
}
