/** The two pieces of Python text handling the hex colour codec uses:
    `format(n, "02x")` on the way out and `int(s, 16)` on the way in. */
module Hex {
  import opened Results

  const LowerDigits: string := "0123456789abcdef"

  predicate IsHexDigit(c: char) {
    '0' <= c <= '9' || 'a' <= c <= 'f' || 'A' <= c <= 'F'
  }

  predicate IsLowerHexDigit(c: char) {
    '0' <= c <= '9' || 'a' <= c <= 'f'
  }

  predicate AllHexDigits(s: string) {
    forall i :: 0 <= i < |s| ==> IsHexDigit(s[i])
  }

  /** ASCII lower-casing, the normal form `format` writes hex digits in. */
  function ToLower(c: char): (l: char)
    ensures IsHexDigit(c) ==> IsLowerHexDigit(l)
    ensures IsLowerHexDigit(c) ==> l == c
  {
    if 'A' <= c <= 'Z' then (c as int + 32) as char else c
  }

  function LowerString(s: string): (l: string)
    ensures |l| == |s|
    ensures forall i :: 0 <= i < |s| ==> l[i] == ToLower(s[i])
  {
    seq(|s|, i requires 0 <= i < |s| => ToLower(s[i]))
  }

  /** The value of one hex digit, in either case. */
  function DigitValue(c: char): (n: nat)
    requires IsHexDigit(c)
    ensures n < 16
    ensures LowerDigits[n] == ToLower(c)
  {
    if '0' <= c <= '9' then c as int - '0' as int
    else if 'a' <= c <= 'f' then c as int - 'a' as int + 10
    else c as int - 'A' as int + 10
  }

  lemma DigitOfValue(n: nat)
    requires n < 16
    ensures IsLowerHexDigit(LowerDigits[n])
    ensures DigitValue(LowerDigits[n]) == n
  {
  }

  /** The value of a string of hex digits, most significant digit first. */
  function ValueOf(s: string): nat
    requires AllHexDigits(s)
  {
    if |s| == 0 then 0
    else ValueOf(s[..|s| - 1]) * 16 + DigitValue(s[|s| - 1])
  }

  /** Python's `int(s, 16)` on the strings the colour codec slices out of a
      hex code: `None` stands for the `ValueError` raised on an empty slice or
      on a character that is not a hex digit. */
  function ParseInt16(s: string): (r: Option<nat>)
    ensures r.Some? <==> |s| > 0 && AllHexDigits(s)
  {
    if |s| > 0 && AllHexDigits(s) then Some(ValueOf(s)) else None
  }

  /** The lower-case hex digits of `n` with no leading zero. */
  function Digits(n: nat): (s: string)
    ensures |s| >= 1 && (n >= 16 ==> |s| >= 2)
    ensures forall i :: 0 <= i < |s| ==> IsLowerHexDigit(s[i])
  {
    if n < 16 then [LowerDigits[n]] else Digits(n / 16) + [LowerDigits[n % 16]]
  }

  /** Python's `format(n, "02x")`: lower-case hex digits, zero-padded to
      width two; a negative number keeps its sign in front of the digits,
      which already fills the width. */
  function Format02x(n: int): (s: string)
    ensures |s| >= 2
    ensures s[0] == '-' <==> n < 0
  {
    if n < 0 then "-" + Digits(-n)
    else if n < 16 then "0" + Digits(n)
    else Digits(n)
  }

  /** A byte is spelled as exactly two digits, high nibble first. */
  lemma ByteSpelling(n: int)
    requires 0 <= n < 256
    ensures Format02x(n) == [LowerDigits[n / 16], LowerDigits[n % 16]]
  {
    if n >= 16 {
      assert Digits(n) == Digits(n / 16) + [LowerDigits[n % 16]];
    }
  }

  /** Appending a digit multiplies the value read so far by 16 and adds the
      digit. */
  lemma ValueOfSnoc(p: string, c: char)
    requires AllHexDigits(p) && IsHexDigit(c)
    ensures AllHexDigits(p + [c])
    ensures ValueOf(p + [c]) == ValueOf(p) * 16 + DigitValue(c)
  {
    assert (p + [c])[..|p|] == p;
  }

  /** Reading the digits back gives the number they were written from. */
  lemma {:induction false} ValueOfDigits(n: nat)
    ensures AllHexDigits(Digits(n))
    ensures ValueOf(Digits(n)) == n
  {
    DigitOfValue(n % 16);
    if n >= 16 {
      ValueOfDigits(n / 16);
      ValueOfSnoc(Digits(n / 16), LowerDigits[n % 16]);
    } else {
      assert Digits(n)[..0] == [];
    }
  }

  /** `int(format(n, "02x"), 16) == n` for every non-negative `n`. */
  lemma FormatThenParse(n: int)
    requires n >= 0
    ensures ParseInt16(Format02x(n)) == Some(n)
  {
    ValueOfDigits(n);
    var d := Digits(n);
    if n < 16 {
      var s := "0" + d;
      assert s[..|s| - 1] == "0";
      assert ValueOf("0") == 0 by {
        assert "0"[..0] == [];
      }
    }
  }

  /** Two hex digits in either case read as a byte whose `02x` spelling is the
      same two digits in lower case. */
  lemma ParseThenFormat(p: string)
    requires |p| == 2 && AllHexDigits(p)
    ensures ParseInt16(p).Some?
    ensures ParseInt16(p).value < 256
    ensures Format02x(ParseInt16(p).value) == LowerString(p)
  {
    var hi, lo := DigitValue(p[0]), DigitValue(p[1]);
    assert p[..1][..0] == [];
    assert ValueOf(p[..1]) == hi;
    var n := ValueOf(p);
    assert n == hi * 16 + lo;
    assert n / 16 == hi && n % 16 == lo;
    ByteSpelling(n);
  }
}
