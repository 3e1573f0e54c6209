/** Character and string primitives the renaming script relies on: Python's
    whitespace test and `str.strip()`, ASCII case folding, and the two
    conversions between integers and decimal digit strings (`str(int)` and
    `int(digits)`). */
module Text {

  /** Python's `str.isspace()` for one character: the code points with
      bidirectional class WS, B or S, or general category Zs. */
  predicate IsSpace(c: char)
  {
    var n := c as int;
    || (0x09 <= n <= 0x0D)
    || (0x1C <= n <= 0x20)
    || n == 0x85 || n == 0xA0 || n == 0x1680
    || (0x2000 <= n <= 0x200A)
    || n == 0x2028 || n == 0x2029 || n == 0x202F || n == 0x205F || n == 0x3000
  }

  predicate AllSpace(s: string)
  {
    forall k :: 0 <= k < |s| ==> IsSpace(s[k])
  }

  /** Drops leading whitespace: the result is a suffix of `s` that does not
      start with whitespace, and everything cut off was whitespace. */
  function TrimStart(s: string): (r: string)
    ensures |r| <= |s| && r == s[|s| - |r|..]
    ensures AllSpace(s[..|s| - |r|])
    ensures r == [] || !IsSpace(r[0])
  {
    if |s| > 0 && IsSpace(s[0]) then
      var r := TrimStart(s[1..]);
      assert s[..|s| - |r|] == [s[0]] + s[1..][..|s| - 1 - |r|];
      r
    else s
  }

  /** Drops trailing whitespace: the result is a prefix of `s` that does not
      end with whitespace, and everything cut off was whitespace. */
  function TrimEnd(s: string): (r: string)
    ensures |r| <= |s| && r == s[..|r|]
    ensures AllSpace(s[|r|..])
    ensures r == [] || !IsSpace(r[|r| - 1])
  {
    if |s| > 0 && IsSpace(s[|s| - 1]) then
      var r := TrimEnd(s[..|s| - 1]);
      assert s[|r|..] == s[..|s| - 1][|r|..] + [s[|s| - 1]];
      r
    else s
  }

  /** `s[i..j]` is what `str.strip()` keeps: whitespace on both sides of the
      window, none at either end of it. */
  ghost predicate StripWindow(s: string, i: int, j: int)
  {
    && 0 <= i <= j <= |s|
    && AllSpace(s[..i])
    && AllSpace(s[j..])
    && (i < j ==> !IsSpace(s[i]) && !IsSpace(s[j - 1]))
  }

  ghost predicate IsStripOf(r: string, s: string)
  {
    exists i, j :: StripWindow(s, i, j) && r == s[i..j]
  }

  /** Python's `str.strip()` with no argument. */
  function Strip(s: string): (r: string)
    ensures IsStripOf(r, s)
  {
    var t := TrimStart(s);
    var r := TrimEnd(t);
    var i := |s| - |t|;
    assert s[i..i + |r|] == r by {
      assert t == s[i..] && r == t[..|r|];
    }
    assert AllSpace(s[i + |r|..]) by {
      assert s[i + |r|..] == t[|r|..];
    }
    assert StripWindow(s, i, i + |r|);
    r
  }

  /** Every character outside a strip window is whitespace. */
  lemma SpaceOutsideWindow(s: string, i: int, j: int, k: int)
    requires StripWindow(s, i, j) && 0 <= k < |s|
    ensures (k < i || j <= k) ==> IsSpace(s[k])
  {
    if k < i {
      assert s[..i][k] == s[k];
    } else if j <= k {
      assert s[j..][k - j] == s[k];
    }
  }

  /** The window `str.strip()` keeps is determined by `s` alone. */
  lemma StripWindowUnique(s: string, i: int, j: int, i': int, j': int)
    requires StripWindow(s, i, j) && StripWindow(s, i', j')
    ensures s[i..j] == s[i'..j']
  {
    if i < j {
      SpaceOutsideWindow(s, i', j', i);
      SpaceOutsideWindow(s, i', j', j - 1);
      SpaceOutsideWindow(s, i, j, i');
      SpaceOutsideWindow(s, i, j, j' - 1);
    } else if i' < j' {
      SpaceOutsideWindow(s, i, j, i');
      assert false;
    }
  }

  /** Any string described by `IsStripOf` is the one `Strip` returns. */
  lemma StripCharacterised(r: string, s: string)
    requires IsStripOf(r, s)
    ensures r == Strip(s)
  {
    var i, j :| StripWindow(s, i, j) && r == s[i..j];
    var i', j' :| StripWindow(s, i', j') && Strip(s) == s[i'..j'];
    StripWindowUnique(s, i, j, i', j');
  }

  /** Stripping twice is stripping once. */
  lemma StripIdempotent(s: string)
    ensures Strip(Strip(s)) == Strip(s)
  {
    var r := Strip(s);
    assert StripWindow(r, 0, |r|) by {
      assert r[..0] == [] && r[|r|..] == [];
      var i, j :| StripWindow(s, i, j) && r == s[i..j];
    }
    assert r[0..|r|] == r;
    StripCharacterised(r, r);
  }

  /** ASCII lower-casing of one character; every other character is kept. */
  function LowerChar(c: char): (d: char)
    ensures ('A' <= c <= 'Z') ==> 'a' <= d <= 'z' && d as int == c as int + 32
    ensures !('A' <= c <= 'Z') ==> d == c
  {
    if 'A' <= c <= 'Z' then (c as int + 32) as char else c
  }

  function Lower(s: string): (r: string)
    ensures |r| == |s|
    ensures forall k :: 0 <= k < |s| ==> r[k] == LowerChar(s[k])
  {
    if s == [] then [] else Lower(s[..|s| - 1]) + [LowerChar(s[|s| - 1])]
  }

  /** Case-insensitive equality of the kind `re.IGNORECASE` and
      `.lower() == …` perform on ASCII letters. */
  predicate EqualsIgnoreCase(a: string, b: string)
  {
    |a| == |b| && forall k :: 0 <= k < |a| ==> LowerChar(a[k]) == LowerChar(b[k])
  }

  /** Comparing without regard to case is comparing the lower-cased strings. */
  lemma EqualsIgnoreCaseIsLowerEquality(a: string, b: string)
    ensures EqualsIgnoreCase(a, b) <==> Lower(a) == Lower(b)
  {
    if Lower(a) == Lower(b) {
      assert forall k :: 0 <= k < |a| ==> Lower(a)[k] == Lower(b)[k];
    }
  }

  predicate IsDigit(c: char)
  {
    '0' <= c <= '9'
  }

  predicate AllDigits(s: string)
  {
    forall k :: 0 <= k < |s| ==> IsDigit(s[k])
  }

  function DigitValue(c: char): (d: nat)
    requires IsDigit(c)
    ensures d < 10
  {
    c as int - '0' as int
  }

  function DigitChar(d: nat): (c: char)
    requires d < 10
    ensures IsDigit(c) && DigitValue(c) == d
  {
    ('0' as int + d) as char
  }

  function Pow10(n: nat): (p: nat)
    ensures p >= 1
  {
    if n == 0 then 1 else 10 * Pow10(n - 1)
  }

  /** `int(s)` for a string of ASCII digits. */
  function DigitsValue(s: string): (n: nat)
    requires AllDigits(s)
    ensures n < Pow10(|s|)
  {
    if s == [] then 0
    else DigitsValue(s[..|s| - 1]) * 10 + DigitValue(s[|s| - 1])
  }

  /** Leading zeros do not change the value `int()` reads. */
  lemma {:induction false} DigitsValueLeadingZero(s: string)
    requires AllDigits(s)
    ensures AllDigits("0" + s) && DigitsValue("0" + s) == DigitsValue(s)
  {
    if s != [] {
      var t := s[..|s| - 1];
      DigitsValueLeadingZero(t);
      assert ("0" + s)[..|"0" + s| - 1] == "0" + t;
    }
  }

  /** A digit string that does not start with '0' has a non-zero value. */
  lemma {:induction false} DigitsValuePositive(s: string)
    requires AllDigits(s) && s != [] && s[0] != '0'
    ensures DigitsValue(s) > 0
  {
    if |s| > 1 {
      DigitsValuePositive(s[..|s| - 1]);
    }
  }

  /** `str(n)` for a natural number: non-empty ASCII digits, no leading
      zero, and reading it back with `int()` gives `n`. */
  function NatToDecimal(n: nat): (r: string)
    ensures r != [] && AllDigits(r)
    ensures DigitsValue(r) == n
    ensures |r| > 1 ==> r[0] != '0'
  {
    if n < 10 then [DigitChar(n)]
    else
      var r := NatToDecimal(n / 10) + [DigitChar(n % 10)];
      assert r[..|r| - 1] == NatToDecimal(n / 10);
      r
  }

  /** The other half of the round trip: a canonical digit string is the
      rendering of its own value. */
  lemma {:induction false} NatToDecimalOfDigits(s: string)
    requires AllDigits(s) && s != [] && (|s| > 1 ==> s[0] != '0')
    ensures NatToDecimal(DigitsValue(s)) == s
  {
    var n := DigitsValue(s);
    if |s| == 1 {
      assert s == [DigitChar(n)];
    } else {
      var t := s[..|s| - 1];
      DigitsValuePositive(t);
      NatToDecimalOfDigits(t);
      assert n / 10 == DigitsValue(t) && n % 10 == DigitValue(s[|s| - 1]);
      assert s == t + [s[|s| - 1]];
    }
  }

  /** `s` is what Python's `str()` prints for the integer `n`: an optional
      minus sign, then the digits of the magnitude with no leading zero. */
  ghost predicate RendersInt(s: string, n: int)
  {
    if n >= 0 then s != [] && AllDigits(s) && DigitsValue(s) == n && (|s| > 1 ==> s[0] != '0')
    else
      && |s| >= 2 && s[0] == '-' && AllDigits(s[1..]) && DigitsValue(s[1..]) == -n
      && (|s| > 2 ==> s[1] != '0')
  }

  /** `str(n)` for any integer: a minus sign, then the digits of `-n`, when
      `n` is negative. */
  function IntToDecimal(n: int): (r: string)
    ensures RendersInt(r, n)
    ensures r[0] == '-' <==> n < 0
  {
    if n < 0 then
      var r := "-" + NatToDecimal(-n);
      assert r[1..] == NatToDecimal(-n);
      r
    else NatToDecimal(n)
  }

  /** `RendersInt` pins the string down: the only rendering of `n` is
      `str(n)`, so no zero-padded form such as `"007"` qualifies. */
  lemma RendersIntUnique(s: string, n: int)
    requires RendersInt(s, n)
    ensures s == IntToDecimal(n)
  {
    if n >= 0 {
      NatToDecimalOfDigits(s);
      assert IntToDecimal(n) == NatToDecimal(n);
    } else {
      var t := s[1..];
      NatToDecimalOfDigits(t);
      assert NatToDecimal(-n) == t;
      assert IntToDecimal(n) == "-" + t;
      assert s == "-" + t;
    }
  }

  /** Different integers print differently. */
  lemma IntToDecimalInjective(m: int, n: int)
    requires IntToDecimal(m) == IntToDecimal(n)
    ensures m == n
  {
  }
}
