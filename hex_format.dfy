/**
 * The number rendering the demos do with sprintf: "%08X" for the CRC
 * (eight upper-case hex digits, zero-padded) and "%lu" for the byte count
 * of the DMA demo's debug line.
 */
module HexFormat {

  predicate IsUpperHexDigit(c: char)
  {
    '0' <= c <= '9' || 'A' <= c <= 'F'
  }

  predicate IsUpperHex(s: string)
  {
    forall i :: 0 <= i < |s| ==> IsUpperHexDigit(s[i])
  }

  /** The upper-case hex digit of d, as "%X" writes it. */
  function HexDigit(d: nat): (c: char)
    requires d < 16
    ensures IsUpperHexDigit(c)
  {
    if d < 10 then ('0' as int + d) as char else ('A' as int + (d - 10)) as char
  }

  /** The value of one hex digit; inverse of HexDigit. */
  function DigitValue(c: char): (d: nat)
    requires IsUpperHexDigit(c)
    ensures d < 16 && HexDigit(d) == c
  {
    if c <= '9' then (c - '0') as nat else (c - 'A') as nat + 10
  }

  lemma DigitValueOfHexDigit(d: nat)
    requires d < 16
    ensures DigitValue(HexDigit(d)) == d
  {
  }

  function Pow16(k: nat): (p: nat)
    ensures p >= 1
  {
    if k == 0 then 1 else 16 * Pow16(k - 1)
  }

  /** The last `width` hex digits of n, most significant first, zero-padded. */
  function HexText(n: nat, width: nat): (s: string)
    ensures |s| == width && IsUpperHex(s)
  {
    if width == 0 then "" else HexText(n / 16, width - 1) + [HexDigit(n % 16)]
  }

  /** Read a string of upper-case hex digits back as a number. */
  function ParseHex(s: string): nat
    requires IsUpperHex(s)
  {
    if s == [] then 0 else ParseHex(s[..|s| - 1]) * 16 + DigitValue(s[|s| - 1])
  }

  /** sprintf(buf, "%08X", v) for a 32-bit v. */
  function Format08X(v: bv32): (s: string)
    ensures |s| == 8 && IsUpperHex(s)
  {
    HexText(v as nat, 8)
  }

  /** Splitting off the lowest hex digit: n mod 16p from (n / 16) mod p and n mod 16. */
  lemma ModSplit(n: nat, p: nat)
    requires p >= 1
    ensures (n / 16) % p * 16 + n % 16 == n % (16 * p)
  {
    var q, r := n / 16, n % 16;
    var a, b := q / p, q % p;
    assert n == 16 * q + r;
    assert q == p * a + b;
    assert n == (16 * p) * a + (16 * b + r) by {
      assert 16 * q == 16 * (p * a) + 16 * b;
      assert 16 * (p * a) == (16 * p) * a;
    }
    assert 0 <= 16 * b + r < 16 * p;
    DivModUnique(n, 16 * p, a, 16 * b + r);
  }

  lemma DivModUnique(n: nat, m: nat, a: nat, r: nat)
    requires m >= 1 && r < m && n == m * a + r
    ensures n % m == r
  {
    var a', r' := n / m, n % m;
    assert n == m * a' + r';
    if a < a' {
      assert m * a' >= m * (a + 1) by { MulMono(m, a + 1, a'); }
      assert false;
    } else if a' < a {
      assert m * a >= m * (a' + 1) by { MulMono(m, a' + 1, a); }
      assert false;
    }
  }

  lemma MulMono(m: nat, x: nat, y: nat)
    requires x <= y
    ensures m * x <= m * y
  {
  }

  /** Parsing the rendered digits gives back the rendered number, modulo 16^width. */
  lemma {:induction false} ParseHexText(n: nat, width: nat)
    ensures ParseHex(HexText(n, width)) == n % Pow16(width)
  {
    if width > 0 {
      var s := HexText(n, width);
      var p := Pow16(width - 1);
      assert s[..|s| - 1] == HexText(n / 16, width - 1);
      DigitValueOfHexDigit(n % 16);
      ParseHexText(n / 16, width - 1);
      ModSplit(n, p);
    }
  }

  /** "%08X" loses nothing: the eight digits parse back to the 32-bit value. */
  lemma Format08XRoundTrip(v: bv32)
    ensures ParseHex(Format08X(v)) == v as nat
  {
    var n := v as nat;
    ParseHexText(n, 8);
    Pow16Eight();
    DivModUnique(n, 0x1_0000_0000, 0, n);
  }

  lemma Pow16Eight()
    ensures Pow16(8) == 0x1_0000_0000
  {
  }

  /** Different CRC values are rendered as different texts. */
  lemma Format08XInjective(v: bv32, w: bv32)
    ensures Format08X(v) == Format08X(w) <==> v == w
  {
    if Format08X(v) == Format08X(w) {
      Format08XRoundTrip(v);
      Format08XRoundTrip(w);
      assert v as nat == w as nat;
      assert v == (v as nat) as bv32;
      assert w == (w as nat) as bv32;
    }
  }

  function DecimalDigit(d: nat): (c: char)
    requires d < 10
    ensures '0' <= c <= '9'
  {
    ('0' as int + d) as char
  }

  /** sprintf(buf, "%lu", n): decimal digits, no leading zero. */
  function DecimalText(n: nat): (s: string)
    ensures |s| >= 1 && (forall i :: 0 <= i < |s| ==> '0' <= s[i] <= '9')
    ensures n > 0 ==> s[0] != '0'
  {
    if n < 10 then [DecimalDigit(n)] else DecimalText(n / 10) + [DecimalDigit(n % 10)]
  }
}
