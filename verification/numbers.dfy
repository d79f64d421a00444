/** The number decoders the GPRMC parser calls, as partial functions over
    ASCII text: `int.Parse` on unsigned decimal digits, `double.Parse` on
    digits with at most one decimal point (decoded exactly, as a real), and
    `Convert.ToInt32(s, 16)` on the two checksum characters. A decoder that
    would throw returns `None`. */
module Numbers {
  import opened Outcomes
  import Text

  predicate IsDigit(c: char)
  {
    '0' <= c <= '9'
  }

  predicate AllDigits(s: seq<char>)
  {
    forall i :: 0 <= i < |s| ==> IsDigit(s[i])
  }

  function DigitValue(c: char): nat
    requires IsDigit(c)
  {
    c as int - '0' as int
  }

  function Pow10(n: nat): (p: nat)
    ensures p >= 1
  {
    if n == 0 then 1 else 10 * Pow10(n - 1)
  }

  /** The value of a string of decimal digits, most significant first; the
      empty string stands for zero. */
  function NatOf(s: seq<char>): nat
    requires AllDigits(s)
    decreases |s|
  {
    if |s| == 0 then 0
    else 10 * NatOf(s[..|s| - 1]) + DigitValue(s[|s| - 1])
  }

  /** `n` digits spell a number below `10^n`. */
  lemma {:induction false} NatOfBound(s: seq<char>)
    requires AllDigits(s)
    ensures NatOf(s) < Pow10(|s|)
    decreases |s|
  {
    if |s| > 0 {
      NatOfBound(s[..|s| - 1]);
    }
  }

  /** `int.Parse` on unsigned decimal digits: fails on the empty string and
      on any character that is not a digit. */
  function DigitsValue(s: seq<char>): (r: Option<nat>)
    ensures r.Some? <==> |s| > 0 && AllDigits(s)
  {
    if |s| > 0 && AllDigits(s) then Some(NatOf(s)) else None
  }

  /** A field of `n` digits decodes to a number below `10^n`. */
  lemma DigitsBound(s: seq<char>)
    ensures DigitsValue(s).Some? ==> DigitsValue(s).value < Pow10(|s|)
  {
    if DigitsValue(s).Some? {
      NatOfBound(s);
    }
  }

  /** Writes `n` as exactly `width` decimal digits, padded with zeros. */
  function ToDigits(n: nat, width: nat): (s: seq<char>)
    requires n < Pow10(width)
    ensures |s| == width && AllDigits(s)
  {
    if width == 0 then []
    else ToDigits(n / 10, width - 1) + [('0' as int + n % 10) as char]
  }

  /** Decoding a zero-padded rendering gives back the number. */
  lemma {:induction false} NatOfToDigits(n: nat, width: nat)
    requires n < Pow10(width)
    ensures NatOf(ToDigits(n, width)) == n
    decreases width
  {
    if width > 0 {
      var s := ToDigits(n, width);
      assert s[..|s| - 1] == ToDigits(n / 10, width - 1);
      NatOfToDigits(n / 10, width - 1);
    }
  }

  /** Rendering a decoded digit string at its own width gives back the
      string. */
  lemma {:induction false} ToDigitsNatOf(s: seq<char>)
    requires AllDigits(s)
    ensures NatOf(s) < Pow10(|s|) && ToDigits(NatOf(s), |s|) == s
    decreases |s|
  {
    NatOfBound(s);
    if |s| > 0 {
      var init := s[..|s| - 1];
      var n := NatOf(s);
      assert n / 10 == NatOf(init);
      assert n % 10 == DigitValue(s[|s| - 1]);
      ToDigitsNatOf(init);
      assert s == init + [s[|s| - 1]];
    }
  }

  /** `int.Parse` is the inverse of zero-padded rendering, both ways. */
  lemma DigitsRoundTrip(n: nat, width: nat, s: seq<char>)
    requires width > 0 && n < Pow10(width)
    ensures DigitsValue(ToDigits(n, width)) == Some(n)
    ensures DigitsValue(s) == Some(n) ==> n < Pow10(|s|) && ToDigits(n, |s|) == s
  {
    NatOfToDigits(n, width);
    if DigitsValue(s) == Some(n) {
      ToDigitsNatOf(s);
    }
  }

  /** `n` shifted `k` decimal places to the right. */
  function Scaled(n: nat, k: nat): (r: real)
    ensures r >= 0.0
  {
    if k == 0 then n as real else Scaled(n, k - 1) / 10.0
  }

  /** The value of the digits `whole` and `frac` written either side of a
      decimal point. */
  function PointValue(whole: seq<char>, frac: seq<char>): (v: real)
    requires AllDigits(whole) && AllDigits(frac)
    ensures v >= 0.0
  {
    NatOf(whole) as real + Scaled(NatOf(frac), |frac|)
  }

  /** `double.Parse` on unsigned decimals: digits with at most one decimal
      point and at least one digit, so `12`, `12.5`, `12.` and `.5` decode,
      while `` , `.`, `1.2.3` and anything with another character fail. */
  function DecimalValue(s: seq<char>): (r: Option<real>)
    ensures r.Some? ==> r.value >= 0.0
    ensures r.Some? ==> |s| > 0
  {
    var i := Text.IndexOf(s, '.');
    if i == -1 then
      (if |s| > 0 && AllDigits(s) then Some(NatOf(s) as real) else None)
    else
      var whole := s[..i];
      var frac := s[i + 1..];
      if |whole| + |frac| == 0 || !AllDigits(whole) || !AllDigits(frac) then None
      else Some(PointValue(whole, frac))
  }

  /** Text `double.Parse` accepts here: digits and at most one point, and
      at least one digit. */
  predicate IsDecimal(s: seq<char>)
  {
    && (forall i :: 0 <= i < |s| ==> IsDigit(s[i]) || s[i] == '.')
    && (forall i, j :: 0 <= i < j < |s| && s[i] == '.' ==> s[j] != '.')
    && |s| > 0 && s != ['.']
  }

  /** `DecimalValue` fails exactly on the text that is not a decimal. */
  lemma DecimalAccepts(s: seq<char>)
    ensures DecimalValue(s).Some? <==> IsDecimal(s)
  {
    var i := Text.IndexOf(s, '.');
    if i == -1 {
      if IsDecimal(s) {
        forall k | 0 <= k < |s| ensures IsDigit(s[k]) {
          assert s[k] in s;
        }
      }
    } else {
      var whole, frac := s[..i], s[i + 1..];
      if IsDecimal(s) {
        forall k | 0 <= k < |whole| ensures IsDigit(whole[k]) {
          assert whole[k] in s[..i];
        }
        forall k | 0 <= k < |frac| ensures IsDigit(frac[k]) {
          assert frac[k] == s[i + 1 + k];
        }
        assert |s| != 1;
      }
      if DecimalValue(s).Some? {
        // every character but the point at `i` is a digit
        forall k | 0 <= k < |s| && k != i ensures IsDigit(s[k]) {
          if k < i { assert s[k] == whole[k]; }
          else { assert s[k] == frac[k - i - 1]; }
        }
      }
    }
  }

  /** A decimal without a point is read as the integer it spells. */
  lemma DecimalOfInteger(s: seq<char>)
    requires |s| > 0 && AllDigits(s)
    ensures DecimalValue(s) == Some(NatOf(s) as real)
  {
    assert '.' !in s by {
      forall k | 0 <= k < |s| ensures s[k] != '.' {
        assert IsDigit(s[k]);
      }
    }
  }

  /** The value of a decimal with digits on both sides of its point. */
  lemma DecimalOfParts(ws: seq<char>, fs: seq<char>)
    requires AllDigits(ws) && AllDigits(fs) && |ws| + |fs| > 0
    ensures DecimalValue(ws + ['.'] + fs) == Some(PointValue(ws, fs))
  {
    var s := ws + ['.'] + fs;
    var a := |ws|;
    assert s[a] == '.';
    assert s[..a] == ws;
    assert '.' !in ws by {
      assert forall k :: 0 <= k < a ==> IsDigit(ws[k]);
    }
    assert Text.IndexOf(s, '.') == a;
    assert s[a + 1..] == fs;
  }

  predicate IsHexDigit(c: char)
  {
    IsDigit(c) || ('a' <= c <= 'f') || ('A' <= c <= 'F')
  }

  function HexDigitValue(c: char): (v: nat)
    requires IsHexDigit(c)
    ensures v < 16
  {
    if IsDigit(c) then DigitValue(c)
    else if 'a' <= c <= 'f' then 10 + (c as int - 'a' as int)
    else 10 + (c as int - 'A' as int)
  }

  /** `Convert.ToInt32(s, 16)` on a two-character string, as the .NET base
      library defines it: no white space, a leading `+` skipped, a `-`
      refused in base 16, and a `0x` prefix that leaves no digit behind.
      So two hexadecimal digits, in either case, or `+` and one digit,
      decode; everything else fails. */
  function ParseHex2(s: seq<char>): (r: Option<nat>)
    requires |s| == 2
    ensures r.Some? <==> IsHexDigit(s[1]) && (IsHexDigit(s[0]) || s[0] == '+')
    ensures r.Some? ==> r.value < 256
    // a sign is not a digit: `+H` is worth what `H` alone is worth
    ensures s[0] == '+' && IsHexDigit(s[1]) ==> r == Some(HexDigitValue(s[1]))
  {
    if IsHexDigit(s[0]) && IsHexDigit(s[1])
    then Some(16 * HexDigitValue(s[0]) + HexDigitValue(s[1]))
    else if s[0] == '+' && IsHexDigit(s[1]) then Some(HexDigitValue(s[1]))
    else None
  }

  function HexChar(n: nat): (c: char)
    requires n < 16
    ensures IsHexDigit(c) && HexDigitValue(c) == n
  {
    if n < 10 then ('0' as int + n) as char else ('A' as int + n - 10) as char
  }

  /** Two upper-case hexadecimal digits, as NMEA 0183 writes a checksum. */
  function Hex2(n: nat): (s: seq<char>)
    requires n < 256
    ensures |s| == 2
  {
    [HexChar(n / 16), HexChar(n % 16)]
  }

  /** Reading back a written checksum gives the value written. */
  lemma Hex2RoundTrip(n: nat)
    requires n < 256
    ensures ParseHex2(Hex2(n)) == Some(n)
  {
  }

  /** The upper-case form of a hexadecimal digit; other characters are
      left alone. */
  function Upper(c: char): char
  {
    if 'a' <= c <= 'f' then (c as int - 32) as char else c
  }

  /** The converse of `Hex2RoundTrip`: any two hexadecimal digits, in either
      case, decode to the value whose upper-case rendering they spell, so
      `4a` and `4A` both decode to 0x4A. */
  lemma Hex2Decoded(s: seq<char>)
    requires |s| == 2 && IsHexDigit(s[0]) && IsHexDigit(s[1])
    ensures ParseHex2(s).Some? && [Upper(s[0]), Upper(s[1])] == Hex2(ParseHex2(s).value)
  {
    var n := ParseHex2(s).value;
    assert n / 16 == HexDigitValue(s[0]) && n % 16 == HexDigitValue(s[1]);
  }
}
