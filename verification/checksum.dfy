/** The NMEA 0183 sentence checksum as `GprmcParser.IsCheckSumGood` checks
    it: the XOR of the character codes strictly between the leading `$` and
    the last `*`, compared with the two hexadecimal digits after the `*`. */
module Checksum {
  import opened Outcomes
  import Text
  import Numbers

  /** What `IsCheckSumGood` does with a sentence: returns true, returns
      false, or throws (from `Convert.ToInt32` or an index out of range). */
  datatype Checked = Good | Bad | Throws

  /** Bitwise exclusive or of two naturals, one binary digit at a time. */
  function Xor(a: nat, b: nat): nat
    decreases a + b
  {
    if a == 0 && b == 0 then 0
    else 2 * Xor(a / 2, b / 2) + (a + b) % 2
  }

  lemma XorZero(a: nat)
    ensures Xor(a, 0) == a && Xor(0, a) == a
    decreases a
  {
    if a > 0 {
      XorZero(a / 2);
    }
  }

  /** One binary digit of `Xor` at a time, including at zero. */
  lemma XorStep(a: nat, b: nat)
    ensures Xor(a, b) == 2 * Xor(a / 2, b / 2) + (a + b) % 2
  {
  }

  lemma {:induction false} XorComm(a: nat, b: nat)
    ensures Xor(a, b) == Xor(b, a)
    decreases a + b
  {
    if a != 0 || b != 0 {
      XorComm(a / 2, b / 2);
    }
  }

  /** The first argument of `Xor` is determined by the second and the
      result. */
  lemma {:induction false} XorCancel(a: nat, b: nat, k: nat)
    requires Xor(a, k) == Xor(b, k)
    ensures a == b
    decreases a + b + k
  {
    if a != b {
      XorStep(a, k);
      XorStep(b, k);
      BinaryDigits(Xor(a / 2, k / 2), (a + k) % 2, Xor(b / 2, k / 2), (b + k) % 2);
      XorCancel(a / 2, b / 2, k / 2);
      SameParity(a, b, k);
    }
  }

  /** A number's last binary digit and the rest determine it. */
  lemma BinaryDigits(x: int, p: int, y: int, q: int)
    requires 0 <= p < 2 && 0 <= q < 2 && 2 * x + p == 2 * y + q
    ensures p == q && x == y
  {
  }

  lemma SameParity(a: nat, b: nat, k: nat)
    requires (a + k) % 2 == (b + k) % 2 && a / 2 == b / 2
    ensures a == b
  {
  }

  /** The XOR of two 8-bit codes is an 8-bit code. */
  lemma {:induction false} XorBound(a: nat, b: nat, k: nat)
    requires a < Pow2(k) && b < Pow2(k)
    ensures Xor(a, b) < Pow2(k)
    decreases k
  {
    if k > 0 && (a != 0 || b != 0) {
      XorBound(a / 2, b / 2, k - 1);
    }
  }

  function Pow2(k: nat): (p: nat)
    ensures p >= 1
  {
    if k == 0 then 1 else 2 * Pow2(k - 1)
  }

  /** The code of a character, as the C# `char` arithmetic sees it. */
  function Code(c: char): nat
  {
    c as int
  }

  /** Running XOR of the character codes of `s`, from the left. */
  function XorOf(s: seq<char>): nat
    decreases |s|
  {
    if |s| == 0 then 0 else Xor(XorOf(s[..|s| - 1]), Code(s[|s| - 1]))
  }

  /** The loop of GPS.cs:121-125: start from the first character and XOR in
      the others in order; the result is the running XOR of the whole. */
  method ChecksumOf(valToCheck: seq<char>) returns (c: nat)
    requires |valToCheck| > 0
    ensures c == XorOf(valToCheck)
  {
    c := Code(valToCheck[0]);
    assert valToCheck[..1][..0] == [];
    XorZero(Code(valToCheck[0]));
    var i := 1;
    while i < |valToCheck|
      invariant 1 <= i <= |valToCheck|
      invariant c == XorOf(valToCheck[..i])
    {
      assert valToCheck[..i + 1][..i] == valToCheck[..i];
      c := Xor(c, Code(valToCheck[i]));
      i := i + 1;
    }
    assert valToCheck[..i] == valToCheck;
  }

  /** Sentences that have a `$` first and their last `*` three characters
      from the end, so that exactly two characters follow it. */
  predicate Framed(s: seq<char>)
  {
    |s| >= 3 && s[0] == '$' && s[|s| - 3] == '*' && '*' !in s[|s| - 2..]
  }

  /** The position test of GPS.cs:112: `IndexOf("$") == 0` and
      `LastIndexOf("*") == Length - 3`, which a two-character sentence with
      no `*` also passes, because -1 is then `Length - 3`. */
  predicate FramePasses(s: seq<char>)
  {
    Framed(s) || (|s| == 2 && s[0] == '$' && '*' !in s)
  }

  /** `GprmcParser.IsCheckSumGood`. Only a framed sentence with something
      between `$` and `*` can be accepted; `CheckSumSpec` says exactly when. */
  function IsCheckSumGood(sentence: seq<char>): (r: Checked)
    ensures r == Good ==> Framed(sentence) && |sentence| > 4
  {
    var index1 := Text.IndexOf(sentence, '$');
    var index2 := Text.LastIndexOf(sentence, '*');
    if index1 != 0 || index2 != |sentence| - 3 then Bad
    else
      var checkSumString := sentence[index2 + 1..index2 + 3];
      match Numbers.ParseHex2(checkSumString)
      case None => Throws
      case Some(checkSum1) =>
        // `valToCheck[0]` is out of range when nothing lies between `$`
        // and `*`; with no `*` at all the hex digits already failed
        if index2 <= 1 then Throws
        else
          var valToCheck := sentence[index1 + 1..index2];
          if checkSum1 == XorOf(valToCheck) then Good else Bad
  }

  /** What `IsCheckSumGood` answers for every sentence: `false` when the
      frame test fails, an exception when the two characters after the `*`
      are not hexadecimal or nothing lies between `$` and `*`, and `true`
      exactly when the declared value equals the XOR of the text between. */
  lemma CheckSumSpec(sentence: seq<char>)
    ensures !FramePasses(sentence) ==> IsCheckSumGood(sentence) == Bad
    ensures IsCheckSumGood(sentence) == Throws <==>
              && FramePasses(sentence)
              && (Numbers.ParseHex2(sentence[|sentence| - 2..]).None? || |sentence| == 4)
    ensures IsCheckSumGood(sentence) == Good <==>
              && Framed(sentence) && |sentence| > 4
              && Numbers.ParseHex2(sentence[|sentence| - 2..])
                 == Some(XorOf(sentence[1..|sentence| - 3]))
  {
    var n := |sentence|;
    var index1 := Text.IndexOf(sentence, '$');
    var index2 := Text.LastIndexOf(sentence, '*');
    assert index1 == 0 <==> n > 0 && sentence[0] == '$';
    if n >= 3 && sentence[n - 3] == '*' && '*' !in sentence[n - 2..] {
      assert sentence[n - 3 + 1..] == sentence[n - 2..];
      assert index2 == n - 3;
    } else if n >= 3 {
      assert index2 != n - 3;
    } else if n == 2 && '*' !in sentence {
      assert index2 == -1;
    } else if n == 2 {
      assert index2 != -1;
    }
    assert index1 == 0 && index2 == n - 3 <==> FramePasses(sentence);
  }

  /** Codes of characters below 256 XOR to a value below 256. */
  lemma {:induction false} XorOfBound(s: seq<char>)
    requires forall i :: 0 <= i < |s| ==> Code(s[i]) < 256
    ensures XorOf(s) < 256
    decreases |s|
  {
    if |s| > 0 {
      XorOfBound(s[..|s| - 1]);
      assert Pow2(8) == 256;
      XorBound(XorOf(s[..|s| - 1]), Code(s[|s| - 1]), 8);
    }
  }

  /** A sentence `$body*HH` with the checksum written by an NMEA talker. */
  function Seal(body: seq<char>): (s: seq<char>)
    requires forall i :: 0 <= i < |body| ==> Code(body[i]) < 256
    ensures |s| == |body| + 4 && s[1..|body| + 1] == body
  {
    XorOfBound(body);
    var s := ['$'] + body + ['*'] + Numbers.Hex2(XorOf(body));
    assert s[1..|body| + 1] == body;
    s
  }

  /** Round trip: the checksum a talker writes is accepted. */
  lemma SealAccepted(body: seq<char>)
    requires |body| > 0
    requires forall i :: 0 <= i < |body| ==> Code(body[i]) < 256
    ensures IsCheckSumGood(Seal(body)) == Good
  {
    var s := Seal(body);
    XorOfBound(body);
    var h := Numbers.Hex2(XorOf(body));
    assert s[|s| - 2..] == h;
    assert s[1..|s| - 3] == body;
    Numbers.Hex2RoundTrip(XorOf(body));
    CheckSumSpec(s);
  }

  /** A received checksum may be written in either case: a sentence whose
      last two characters are hexadecimal digits is accepted exactly when,
      upper-cased, they are the checksum a talker writes for its body. */
  lemma SealAnyCase(body: seq<char>, h: seq<char>)
    requires |body| > 0
    requires forall i :: 0 <= i < |body| ==> Code(body[i]) < 256
    requires |h| == 2 && Numbers.IsHexDigit(h[0]) && Numbers.IsHexDigit(h[1])
    ensures IsCheckSumGood(['$'] + body + ['*'] + h) == Good <==>
              [Numbers.Upper(h[0]), Numbers.Upper(h[1])] == Seal(body)[|body| + 2..]
  {
    var s := ['$'] + body + ['*'] + h;
    var n := |s|;
    XorOfBound(body);
    var x := XorOf(body);
    assert Seal(body)[|body| + 2..] == Numbers.Hex2(x);
    assert s[n - 2..] == h;
    assert s[1..n - 3] == body;
    assert Framed(s) by {
      assert s[0] == '$' && s[n - 3] == '*';
    }
    Numbers.Hex2Decoded(h);
    var v := Numbers.ParseHex2(h).value;
    Numbers.Hex2RoundTrip(v);
    Numbers.Hex2RoundTrip(x);
    CheckSumSpec(s);
  }

  /** Changing one character of the body changes the running XOR. */
  lemma {:induction false} XorOfChange(body: seq<char>, i: nat, c: char)
    requires i < |body| && c != body[i]
    ensures XorOf(body[i := c]) != XorOf(body)
    decreases |body|
  {
    var n := |body|;
    var body' := body[i := c];
    if i == n - 1 {
      assert body'[..n - 1] == body[..n - 1];
      if Xor(XorOf(body[..n - 1]), Code(c)) == Xor(XorOf(body[..n - 1]), Code(body[i])) {
        XorComm(XorOf(body[..n - 1]), Code(c));
        XorComm(XorOf(body[..n - 1]), Code(body[i]));
        XorCancel(Code(c), Code(body[i]), XorOf(body[..n - 1]));
      }
    } else {
      assert body'[..n - 1] == body[..n - 1][i := c];
      XorOfChange(body[..n - 1], i, c);
      if XorOf(body') == XorOf(body) {
        XorCancel(XorOf(body'[..n - 1]), XorOf(body[..n - 1]), Code(body[n - 1]));
      }
    }
  }

  /** Tampering: a sealed sentence with any one body character changed is
      rejected by its original checksum. */
  lemma TamperedRejected(body: seq<char>, i: nat, c: char)
    requires |body| > 0
    requires forall k :: 0 <= k < |body| ==> Code(body[k]) < 256
    requires i < |body| && c != body[i]
    ensures IsCheckSumGood(Seal(body)[i + 1 := c]) == Bad
  {
    XorOfBound(body);
    var body' := body[i := c];
    var h := Numbers.Hex2(XorOf(body));
    var s := Seal(body)[i + 1 := c];
    assert s == ['$'] + body' + ['*'] + h;
    assert s[|s| - 2..] == h;
    assert s[1..|s| - 3] == body';
    assert '*' !in s[|s| - 2..];
    Numbers.Hex2RoundTrip(XorOf(body));
    XorOfChange(body, i, c);
    CheckSumSpec(s);
  }
}
