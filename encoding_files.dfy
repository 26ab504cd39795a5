/**
 The name of the file that holds an image's precomputed encoding: the
 image id formatted with Python's `{:012d}` format specification, followed
 by `.npy`. The `0` flag makes the padding sign-aware: a negative id keeps
 its minus sign in front and the zeros go between the sign and the digits,
 with the sign counted in the width of twelve.
 */
module EncodingFiles {

  /** The minimum width of the formatted id. */
  const Width: nat := 12

  /** The extension appended to every encoding file name. */
  const Extension: string := ".npy"

  predicate IsDigit(c: char)
  {
    '0' <= c <= '9'
  }

  predicate AllDigits(s: string)
  {
    forall i :: 0 <= i < |s| ==> IsDigit(s[i])
  }

  function DigitChar(d: nat): (c: char)
    requires d < 10
    ensures IsDigit(c)
  {
    ('0' as int + d) as char
  }

  function DigitValue(c: char): (d: nat)
    requires IsDigit(c)
    ensures d < 10
  {
    c as int - '0' as int
  }

  /**
   The decimal digits of `n`, most significant first: at least one digit,
   and a leading zero only for zero itself.
   */
  function Decimal(n: nat): (s: string)
    ensures |s| >= 1 && AllDigits(s)
    ensures s[0] == '0' <==> n == 0
  {
    if n < 10 then [DigitChar(n)]
    else Decimal(n / 10) + [DigitChar(n % 10)]
  }

  /** The number that a string of decimal digits denotes. */
  function ValueOf(s: string): nat
    requires AllDigits(s)
  {
    if s == [] then 0
    else ValueOf(s[..|s| - 1]) * 10 + DigitValue(s[|s| - 1])
  }

  function Zeros(k: nat): (z: string)
    ensures |z| == k && AllDigits(z)
    ensures forall i :: 0 <= i < k ==> z[i] == '0'
  {
    seq(k, _ => '0')
  }

  /** `s` right-aligned in a field of `width` characters filled with '0'. */
  function ZeroPad(s: string, width: nat): string
  {
    if |s| >= width then s else Zeros(width - |s|) + s
  }

  /** Python's `format(id, "012d")`. */
  function PaddedDecimal(id: int): (r: string)
    ensures |r| >= Width
  {
    if id < 0 then "-" + ZeroPad(Decimal(-id), Width - 1)
    else ZeroPad(Decimal(id), Width)
  }

  /** The encoding file name of an image, `f"{image_id:012d}.npy"`. */
  function EncodingFilename(imageId: int): (name: string)
    ensures |name| >= Width + |Extension|
    ensures name[|name| - |Extension|..] == Extension
  {
    PaddedDecimal(imageId) + Extension
  }

  /** What reading an image id back from a file name gives. */
  datatype Parsed = Parsed(imageId: int) | Malformed

  /** Drops every leading '0'. */
  function StripLeadingZeros(s: string): (r: string)
    ensures |r| <= |s|
  {
    if s != [] && s[0] == '0' then StripLeadingZeros(s[1..]) else s
  }

  /**
   Reads an image id back from an encoding file name: an optional minus sign,
   one or more decimal digits, and the extension.
   */
  function ParseEncodingFilename(name: string): Parsed
  {
    if |name| < |Extension| || name[|name| - |Extension|..] != Extension then Malformed
    else
      var stem := name[..|name| - |Extension|];
      if |stem| >= 2 && stem[0] == '-' && AllDigits(stem[1..]) then Parsed(0 - ValueOf(stem[1..]))
      else if |stem| >= 1 && AllDigits(stem) then Parsed(ValueOf(stem))
      else Malformed
  }

  // ---------------------------------------------------------------------
  // Lemmas

  /** Reading the digits of `n` gives back `n`. */
  lemma {:induction false} ValueOfDecimal(n: nat)
    ensures ValueOf(Decimal(n)) == n
  {
    var s := Decimal(n);
    if n >= 10 {
      ValueOfDecimal(n / 10);
      assert s[..|s| - 1] == Decimal(n / 10);
    }
  }

  /** Leading zeros do not change the value of a digit string. */
  lemma {:induction false} ValueOfZeroPrefix(k: nat, s: string)
    requires AllDigits(s)
    ensures AllDigits(Zeros(k) + s) && ValueOf(Zeros(k) + s) == ValueOf(s)
  {
    var t := Zeros(k) + s;
    if s == [] {
      assert t == Zeros(k);
      if k > 0 {
        assert t[..|t| - 1] == Zeros(k - 1);
        ValueOfZeroPrefix(k - 1, []);
        assert Zeros(k - 1) + [] == Zeros(k - 1);
      }
    } else {
      assert t[..|t| - 1] == Zeros(k) + s[..|s| - 1];
      ValueOfZeroPrefix(k, s[..|s| - 1]);
    }
  }

  /** Stripping the leading zeros of zero padding recovers digits that do not start with '0'. */
  lemma {:induction false} StripZeroPrefix(k: nat, s: string)
    requires s != [] && s[0] != '0'
    ensures StripLeadingZeros(Zeros(k) + s) == s
  {
    if k > 0 {
      assert (Zeros(k) + s)[1..] == Zeros(k - 1) + s;
      StripZeroPrefix(k - 1, s);
    } else {
      assert Zeros(k) + s == s;
    }
  }

  lemma ZeroPadShape(s: string, width: nat)
    ensures var w := if |s| >= width then |s| else width;
      ZeroPad(s, width) == Zeros(w - |s|) + s
  {
    if |s| >= width {
      assert Zeros(0) + s == s;
    }
  }

  /**
   For a non-negative id the name is the id's digits, left-padded with '0'
   to `max(12, digit count)` characters, followed by `.npy`.
   */
  lemma NonNegativeFilenameShape(imageId: nat)
    ensures var digits := Decimal(imageId);
      var width := if |digits| >= Width then |digits| else Width;
      EncodingFilename(imageId) == Zeros(width - |digits|) + digits + Extension
  {
    ZeroPadShape(Decimal(imageId), Width);
  }

  /**
   For a negative id the minus sign comes first and the zeros go between the
   sign and the digits, the sign counting towards the twelve characters.
   */
  lemma NegativeFilenameShape(imageId: int)
    requires imageId < 0
    ensures var digits := Decimal(-imageId);
      var width := if |digits| >= Width - 1 then |digits| else Width - 1;
      EncodingFilename(imageId) == "-" + Zeros(width - |digits|) + digits + Extension
  {
    ZeroPadShape(Decimal(-imageId), Width - 1);
  }

  /** For a positive id, removing the suffix and the leading zeros gives its decimal digits. */
  lemma PositiveFilenameDigits(imageId: nat)
    requires imageId > 0
    ensures var name := EncodingFilename(imageId);
      StripLeadingZeros(name[..|name| - |Extension|]) == Decimal(imageId)
  {
    var name, digits := EncodingFilename(imageId), Decimal(imageId);
    assert name[..|name| - |Extension|] == PaddedDecimal(imageId);
    if |digits| >= Width {
      StripZeroPrefix(0, digits);
      assert Zeros(0) + digits == digits;
    } else {
      StripZeroPrefix(Width - |digits|, digits);
    }
  }

  /** A zero-padded decimal is a non-empty digit string that denotes the number. */
  lemma ZeroPadValue(n: nat, width: nat)
    ensures var t := ZeroPad(Decimal(n), width);
      |t| >= 1 && AllDigits(t) && ValueOf(t) == n
  {
    var digits := Decimal(n);
    ValueOfDecimal(n);
    if |digits| < width {
      ValueOfZeroPrefix(width - |digits|, digits);
    }
  }

  /** Parsing an encoding file name recovers the image id it was made from. */
  lemma FilenameRoundTrip(imageId: int)
    ensures ParseEncodingFilename(EncodingFilename(imageId)) == Parsed(imageId)
  {
    var name, stem := EncodingFilename(imageId), PaddedDecimal(imageId);
    assert name[..|name| - |Extension|] == stem;
    if imageId < 0 {
      var t := ZeroPad(Decimal(-imageId), Width - 1);
      ZeroPadValue(-imageId, Width - 1);
      assert stem[1..] == t;
    } else {
      ZeroPadValue(imageId, Width);
    }
  }

  /** Different images never share an encoding file. */
  lemma FilenameInjective(a: int, b: int)
    requires EncodingFilename(a) == EncodingFilename(b)
    ensures a == b
  {
    FilenameRoundTrip(a);
    FilenameRoundTrip(b);
  }
}
