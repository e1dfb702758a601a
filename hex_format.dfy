/** Upper-case hexadecimal rendering, as Rust's `{:X}` and `{:0NX}` format
    specifiers produce it. */
module HexFormat {
  /** The upper-case digit for a value below 16. */
  function HexDigit(d: nat): (c: char)
    requires d < 16
    ensures '0' <= c <= '9' || 'A' <= c <= 'F'
    ensures d < 10 <==> c <= '9'
  {
    if d < 10 then (48 + d) as char else (55 + d) as char
  }

  /** Every character is a digit or an upper-case letter A to F. */
  predicate UpperHex(s: string) {
    forall i :: 0 <= i < |s| ==> '0' <= s[i] <= '9' || 'A' <= s[i] <= 'F'
  }

  /** `{:X}`: the digits of `n`, most significant first, without leading zeros. */
  function ToHex(n: nat): (s: string)
    ensures 1 <= |s|
    ensures n != 0 ==> s[0] != '0'
    decreases n
  {
    if n < 16 then [HexDigit(n)] else ToHex(n / 16) + [HexDigit(n % 16)]
  }

  function Zeros(k: nat): (s: string)
    ensures |s| == k && forall i :: 0 <= i < k ==> s[i] == '0'
  {
    seq(k, _ => '0')
  }

  /** `{:0wX}`: `{:X}` left-padded with zeros to at least `width` characters. */
  function PadHex(n: nat, width: nat): (s: string)
    ensures |s| == if |ToHex(n)| < width then width else |ToHex(n)|
  {
    var h := ToHex(n);
    if |h| < width then Zeros(width - |h|) + h else h
  }

  /** `{:X}` writes digits and upper-case letters only. */
  lemma {:induction false} ToHexUpper(n: nat)
    ensures UpperHex(ToHex(n))
    decreases n
  {
    if n >= 16 {
      ToHexUpper(n / 16);
      var t := ToHex(n / 16);
      var h := t + [HexDigit(n % 16)];
      assert ToHex(n) == h;
      forall i | 0 <= i < |h| ensures '0' <= h[i] <= '9' || 'A' <= h[i] <= 'F' {
        if i < |t| { assert h[i] == t[i]; }
      }
    }
  }

  /** So does `{:0wX}`: the padding is zeros. */
  lemma PadHexUpper(n: nat, width: nat)
    ensures UpperHex(PadHex(n, width))
  {
    var h := ToHex(n);
    ToHexUpper(n);
    if |h| < width {
      var z := Zeros(width - |h|);
      var p := z + h;
      assert PadHex(n, width) == p;
      forall i | 0 <= i < |p| ensures '0' <= p[i] <= '9' || 'A' <= p[i] <= 'F' {
        if i >= |z| { assert p[i] == h[i - |z|]; }
      }
    }
  }
}
