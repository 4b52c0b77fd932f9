/**
 * Names of the image files a frame is written to: "frame_", the frame index
 * in decimal left-padded with zeros to at least five digits, then ".png".
 * The parser below reads an index back from such a name, and the lemmas show
 * that naming is a bijection between indices and well-formed names, so two
 * distinct frames never share a file.
 */
module FileNames {
  import opened Wrappers

  const Prefix: string := "frame_"
  const Suffix: string := ".png"
  /** The minimum number of digits of the "D5" format. */
  const MinDigits: nat := 5

  predicate IsDigit(c: char) { '0' <= c <= '9' }

  predicate AllDigits(s: string) { forall i :: 0 <= i < |s| ==> IsDigit(s[i]) }

  function DigitChar(d: nat): (c: char)
    requires d < 10
    ensures IsDigit(c) && (c == '0' <==> d == 0)
    ensures c as int == '0' as int + d
  {
    ('0' as int + d) as char
  }

  function DigitValue(c: char): (d: nat)
    requires IsDigit(c)
    ensures d < 10 && DigitChar(d) == c
  {
    c as int - '0' as int
  }

  /** The decimal digits of n, most significant first, without leading zeros. */
  function Decimal(n: nat): (s: string)
    ensures 1 <= |s| && AllDigits(s)
    ensures s[0] == '0' <==> n == 0
  {
    if n < 10 then [DigitChar(n)] else Decimal(n / 10) + [DigitChar(n % 10)]
  }

  function Pow10(k: nat): (p: nat)
    ensures p >= 1
  {
    if k == 0 then 1 else 10 * Pow10(k - 1)
  }

  /** n has at most k decimal digits exactly when it is below 10^k. */
  lemma {:induction false} DecimalLength(n: nat, k: nat)
    requires k >= 1
    ensures |Decimal(n)| <= k <==> n < Pow10(k)
  {
    if n >= 10 {
      if k == 1 {
        assert Pow10(1) == 10;
        assert |Decimal(n)| == |Decimal(n / 10)| + 1;
      } else {
        DecimalLength(n / 10, k - 1);
      }
    }
  }

  /** The number a string of decimal digits denotes, most significant first. */
  function DigitsValue(s: string): nat
    requires AllDigits(s)
  {
    if s == [] then 0 else DigitsValue(s[..|s| - 1]) * 10 + DigitValue(s[|s| - 1])
  }

  function Zeros(k: nat): (z: string)
    ensures |z| == k && forall i :: 0 <= i < k ==> z[i] == '0'
  {
    if k == 0 then [] else "0" + Zeros(k - 1)
  }

  /** s left-padded with zeros to at least `width` characters. */
  function PadLeft(s: string, width: nat): (r: string)
    ensures |r| == if |s| < width then width else |s|
    ensures r == Zeros(|r| - |s|) + s
  {
    if |s| < width then Zeros(width - |s|) + s else s
  }

  /** The file name under which frame n is written. */
  function FrameFileName(n: nat): (name: string)
    ensures |name| >= |Prefix| + MinDigits + |Suffix|
    ensures name[..|Prefix|] == Prefix && name[|name| - |Suffix|..] == Suffix
    ensures AllDigits(name[|Prefix|..|name| - |Suffix|])
  {
    Prefix + PadLeft(Decimal(n), MinDigits) + Suffix
  }

  /**
   * Reads the frame index back from a file name. Only names that the "D5"
   * format can produce are accepted: exactly five digits, or more than five
   * without a leading zero.
   */
  function ParseFrameFileName(name: string): Option<nat>
  {
    if |name| < |Prefix| + MinDigits + |Suffix| then None
    else if name[..|Prefix|] != Prefix || name[|name| - |Suffix|..] != Suffix then None
    else
      var digits := name[|Prefix|..|name| - |Suffix|];
      if !AllDigits(digits) then None
      else if |digits| != MinDigits && digits[0] == '0' then None
      else Some(DigitsValue(digits))
  }

  lemma {:induction false} DigitsValueOfDecimal(n: nat)
    ensures DigitsValue(Decimal(n)) == n
  {
    if n >= 10 {
      var s := Decimal(n);
      assert s[..|s| - 1] == Decimal(n / 10);
      DigitsValueOfDecimal(n / 10);
    }
  }

  lemma {:induction false} DigitsValueOfZeros(k: nat, s: string)
    requires AllDigits(s)
    ensures AllDigits(Zeros(k) + s) && DigitsValue(Zeros(k) + s) == DigitsValue(s)
  {
    var z := Zeros(k) + s;
    if s == [] {
      assert z == Zeros(k);
      if k > 0 {
        assert z[..|z| - 1] == Zeros(k - 1) + [];
        DigitsValueOfZeros(k - 1, []);
      }
    } else {
      assert z[..|z| - 1] == Zeros(k) + s[..|s| - 1];
      DigitsValueOfZeros(k, s[..|s| - 1]);
    }
  }

  lemma {:induction false} DigitsValuePositive(s: string)
    requires AllDigits(s) && |s| >= 1 && s[0] != '0'
    ensures DigitsValue(s) >= 1
  {
    if |s| > 1 {
      DigitsValuePositive(s[..|s| - 1]);
    } else {
      assert DigitChar(DigitValue(s[0])) == s[0];
    }
  }

  /** A digit string without leading zero is the decimal rendering of its value. */
  lemma {:induction false} DecimalOfDigitsValue(s: string)
    requires AllDigits(s) && |s| >= 1 && (s[0] != '0' || |s| == 1)
    ensures Decimal(DigitsValue(s)) == s
  {
    if |s| > 1 {
      var t := s[..|s| - 1];
      DigitsValuePositive(t);
      DecimalOfDigitsValue(t);
      var v := DigitsValue(s);
      assert v / 10 == DigitsValue(t) && v % 10 == DigitValue(s[|s| - 1]);
      assert s == t + [s[|s| - 1]];
    }
  }

  /** Padding to one more character puts one more zero in front. */
  lemma PadLeftOneMore(s: string, width: nat)
    requires |s| <= width
    ensures PadLeft(s, width + 1) == "0" + PadLeft(s, width)
  {
    assert Zeros(width + 1 - |s|) == "0" + Zeros(width - |s|);
  }

  /** Any digit string is the rendering of its value padded to its own length. */
  lemma {:induction false} PaddedDecimalOfDigitsValue(s: string)
    requires AllDigits(s) && |s| >= 1
    ensures PadLeft(Decimal(DigitsValue(s)), |s|) == s
  {
    if s[0] != '0' || |s| == 1 {
      DecimalOfDigitsValue(s);
    } else {
      var t := s[1..];
      assert s == Zeros(1) + t;
      DigitsValueOfZeros(1, t);
      PaddedDecimalOfDigitsValue(t);
      var d := Decimal(DigitsValue(t));
      assert |d| <= |t|;
      PadLeftOneMore(d, |t|);
    }
  }

  /** The index is recovered from the name of its file. */
  lemma ParseFrameFileNameRoundTrip(n: nat)
    ensures ParseFrameFileName(FrameFileName(n)) == Some(n)
  {
    var name := FrameFileName(n);
    var padded := PadLeft(Decimal(n), MinDigits);
    assert name[|Prefix|..|name| - |Suffix|] == padded;
    var d := Decimal(n);
    DecimalLength(n, MinDigits - 1);
    DecimalLength(n, MinDigits);
    assert Pow10(MinDigits - 1) == 10000 && Pow10(MinDigits) == 100000;
    DigitsValueOfZeros(|padded| - |d|, d);
    DigitsValueOfDecimal(n);
  }

  /** Distinct frames are written under distinct names. */
  lemma FrameFileNameInjective()
    ensures forall a: nat, b: nat :: FrameFileName(a) == FrameFileName(b) ==> a == b
  {
    forall a: nat, b: nat ensures FrameFileName(a) == FrameFileName(b) ==> a == b {
      ParseFrameFileNameRoundTrip(a);
      ParseFrameFileNameRoundTrip(b);
    }
  }

  /** Every name the parser accepts is the name of the index it returns. */
  lemma FrameFileNameOfParsed(name: string, n: nat)
    requires ParseFrameFileName(name) == Some(n)
    ensures FrameFileName(n) == name
  {
    var digits := name[|Prefix|..|name| - |Suffix|];
    assert name == Prefix + digits + Suffix;
    if |digits| == MinDigits {
      PaddedDecimalOfDigitsValue(digits);
    } else {
      DecimalOfDigitsValue(digits);
    }
  }
}
