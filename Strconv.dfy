/**
 * Go's `strconv.ParseInt(s, 16, 64)`, the timestamp parser of the cookie
 * codec, and the base-16 formatting of an `int64` (`strconv.FormatInt(t, 16)`
 * in lower case, `fmt`'s `%X` in upper case) that it inverts.
 */
module Strconv {
  import opened GoTypes

  const Plus: byte := 43
  const Minus: byte := 45

  /** 0-9, a-f and A-F: base 16 accepts either letter case. */
  predicate IsHexDigit(c: byte) {
    (48 <= c <= 57) || (97 <= c <= 102) || (65 <= c <= 70)
  }

  predicate AllHex(s: seq<byte>) {
    forall i :: 0 <= i < |s| ==> IsHexDigit(s[i])
  }

  function DigitValue(c: byte): (d: int)
    requires IsHexDigit(c)
    ensures 0 <= d < 16
  {
    if c <= 57 then c as int - 48
    else if c >= 97 then c as int - 97 + 10
    else c as int - 65 + 10
  }

  /** The digit for `d`, in the chosen letter case. */
  function HexDigit(d: int, upper: bool): (c: byte)
    requires 0 <= d < 16
    ensures IsHexDigit(c) && DigitValue(c) == d
  {
    if d < 10 then (48 + d) as byte
    else if upper then (65 + d - 10) as byte
    else (97 + d - 10) as byte
  }

  /** The unbounded value of a digit string, most significant digit first. */
  function Magnitude(s: seq<byte>): nat
    requires AllHex(s)
  {
    if s == [] then 0 else Magnitude(s[..|s| - 1]) * 16 + DigitValue(s[|s| - 1])
  }

  /** Whether the field starts with a '+' or '-' sign. */
  predicate HasSign(s: seq<byte>) {
    |s| > 0 && (s[0] == Plus || s[0] == Minus)
  }

  /** The field with its one optional leading sign removed. */
  function Unsigned(s: seq<byte>): (u: seq<byte>)
    ensures HasSign(s) ==> u == s[1..]
    ensures !HasSign(s) ==> u == s
  {
    if HasSign(s) then s[1..] else s
  }

  /**
   * `strconv.ParseInt(s, 16, 64)`: an optional sign, then one or more hex
   * digits, whose value must fit in an `int64`. No "0x" prefix and no
   * underscores are accepted in an explicit base. Every failure (empty
   * field, bad digit, out of range) is `None`.
   */
  function ParseHexInt64(s: seq<byte>): (r: Option<int64>)
    ensures r.Some? ==> |Unsigned(s)| > 0 && AllHex(Unsigned(s))
    ensures r.Some? ==> (r.value < 0 ==> s[0] == Minus)
    ensures r.Some? ==>
      r.value as int == (if s[0] == Minus then -(Magnitude(Unsigned(s)) as int) else Magnitude(Unsigned(s)))
  {
    var digits := Unsigned(s);
    if |digits| == 0 || !AllHex(digits) then None
    else
      var n: int := Magnitude(digits);
      if s[0] == Minus then
        if n <= -MinInt64 then Some((-n) as int64) else None
      else
        if n <= MaxInt64 then Some(n as int64) else None
  }

  /** The digits of `n`, most significant first, with no leading zero. */
  function FormatHex(n: nat, upper: bool): (s: seq<byte>)
    ensures |s| >= 1 && AllHex(s) && Magnitude(s) == n
    ensures n > 0 ==> DigitValue(s[0]) != 0
  {
    if n < 16 then [HexDigit(n, upper)]
    else
      var front := FormatHex(n / 16, upper);
      var s := front + [HexDigit(n % 16, upper)];
      assert s[..|s| - 1] == front;
      s
  }

  /** `t` in base 16: a '-' for a negative value, then its digits. */
  function FormatHexInt64(t: int64, upper: bool): (s: seq<byte>)
    ensures |s| >= 1 && AllHex(Unsigned(s))
    ensures t < 0 <==> s[0] == Minus
    ensures forall i :: 0 <= i < |s| ==> IsHexDigit(s[i]) || s[i] == Minus
  {
    if t < 0 then [Minus] + FormatHex(-(t as int), upper) else FormatHex(t as int, upper)
  }

  /** Parsing gives back every `int64`, in either letter case. */
  lemma ParseFormat(t: int64, upper: bool)
    ensures ParseHexInt64(FormatHexInt64(t, upper)) == Some(t)
  {
    var s := FormatHexInt64(t, upper);
    if t < 0 {
      assert Unsigned(s) == FormatHex(-(t as int), upper);
    } else {
      assert Unsigned(s) == s;
    }
  }

  /** The field "" and a lone sign are syntax errors. */
  lemma ParseRejectsEmpty()
    ensures ParseHexInt64([]) == None
    ensures ParseHexInt64([Plus]) == None
    ensures ParseHexInt64([Minus]) == None
  {
  }

  /** Any byte that is not a hex digit, after the optional sign, is a syntax error. */
  lemma ParseRejectsNonHex(s: seq<byte>, k: nat)
    requires k < |Unsigned(s)| && !IsHexDigit(Unsigned(s)[k])
    ensures ParseHexInt64(s) == None
  {
  }

  /** The range of `int64` is exactly what is accepted. */
  lemma ParseRange(s: seq<byte>)
    requires |s| > 0 && AllHex(Unsigned(s)) && |Unsigned(s)| > 0
    ensures s[0] != Minus ==> (ParseHexInt64(s).Some? <==> Magnitude(Unsigned(s)) <= MaxInt64)
    ensures s[0] == Minus ==> (ParseHexInt64(s).Some? <==> Magnitude(Unsigned(s)) <= -MinInt64)
  {
  }

  /** Lower-casing the ASCII letters A-Z, every other byte kept. */
  function ToLower(s: seq<byte>): (r: seq<byte>)
    ensures |r| == |s|
    ensures forall i :: 0 <= i < |s| ==> r[i] == (if 65 <= s[i] <= 90 then s[i] + 32 else s[i])
  {
    if s == [] then [] else ToLower(s[..|s| - 1]) + [if 65 <= s[|s| - 1] <= 90 then s[|s| - 1] + 32 else s[|s| - 1]]
  }

  lemma {:induction false} MagnitudeToLower(s: seq<byte>)
    requires AllHex(s)
    ensures AllHex(ToLower(s)) && Magnitude(ToLower(s)) == Magnitude(s)
    decreases |s|
  {
    if s != [] {
      var front := s[..|s| - 1];
      MagnitudeToLower(front);
      var l := ToLower(s);
      assert l[..|l| - 1] == ToLower(front);
    }
  }

  lemma UnsignedToLower(s: seq<byte>)
    ensures HasSign(ToLower(s)) <==> HasSign(s)
    ensures Unsigned(ToLower(s)) == ToLower(Unsigned(s))
  {
    var l := ToLower(s);
    if HasSign(s) {
      assert l[1..] == ToLower(s[1..]);
    }
  }

  /** Either letter case parses to the same value. */
  lemma ParseCaseInsensitive(s: seq<byte>)
    ensures ParseHexInt64(ToLower(s)) == ParseHexInt64(s)
  {
    var l := ToLower(s);
    UnsignedToLower(s);
    var u := Unsigned(s);
    var lu := Unsigned(l);
    if AllHex(u) {
      MagnitudeToLower(u);
    } else {
      var k :| 0 <= k < |u| && !IsHexDigit(u[k]);
      assert !IsHexDigit(lu[k]);
    }
    assert |s| > 0 ==> (l[0] == Minus <==> s[0] == Minus);
    ParseAgrees(l, s);
  }

  /**
   * The parse depends only on whether there is a leading '-', on whether the
   * digits are all hex, and on their magnitude.
   */
  lemma ParseAgrees(s: seq<byte>, t: seq<byte>)
    requires (|s| > 0 && s[0] == Minus) <==> (|t| > 0 && t[0] == Minus)
    requires |Unsigned(s)| == |Unsigned(t)|
    requires AllHex(Unsigned(s)) <==> AllHex(Unsigned(t))
    requires AllHex(Unsigned(s)) ==> Magnitude(Unsigned(s)) == Magnitude(Unsigned(t))
    ensures ParseHexInt64(s) == ParseHexInt64(t)
  {
  }
}
