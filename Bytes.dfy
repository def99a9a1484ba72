/**
 * Go's `bytes.SplitN`, which the cookie codec calls, and `bytes.IndexByte`,
 * the search `SplitN` runs for a one-byte separator.
 */
module Bytes {
  import opened GoTypes

  /** `bytes.IndexByte`: the first position of `c` in `s`, or -1. */
  function IndexByte(s: seq<byte>, c: byte): (i: int)
    ensures -1 <= i < |s|
    ensures i == -1 <==> c !in s
    ensures i >= 0 ==> s[i] == c && c !in s[..i]
  {
    if s == [] then -1
    else if s[0] == c then 0
    else
      var j := IndexByte(s[1..], c);
      assert s[1..][..if j < 0 then 0 else j] == s[1..if j < 0 then 1 else j + 1];
      if j < 0 then -1 else j + 1
  }

  /** The parts put back together with `sep` between them. */
  function Join(parts: seq<seq<byte>>, sep: byte): seq<byte>
    requires |parts| >= 1
  {
    if |parts| == 1 then parts[0] else parts[0] + [sep] + Join(parts[1..], sep)
  }

  /**
   * `bytes.SplitN(s, []byte{sep}, n)` for `n >= 1`: at most `n` parts, split
   * at the first `n - 1` separators; the last part is the unsplit rest and
   * may itself hold separators.
   */
  function SplitN(s: seq<byte>, sep: byte, n: nat): (parts: seq<seq<byte>>)
    requires n >= 1
    ensures 1 <= |parts| <= n
    ensures Join(parts, sep) == s
    ensures forall k :: 0 <= k < |parts| - 1 ==> sep !in parts[k]
    ensures |parts| < n ==> sep !in parts[|parts| - 1]
    decreases n
  {
    var i := IndexByte(s, sep);
    if n == 1 || i < 0 then [s]
    else
      var rest := SplitN(s[i + 1..], sep, n - 1);
      SplitStep(s, sep, n, i, rest);
      [s[..i]] + rest
  }

  /** Splitting off the bytes before the first separator keeps the properties `SplitN` promises. */
  lemma SplitStep(s: seq<byte>, sep: byte, n: nat, i: nat, rest: seq<seq<byte>>)
    requires i < |s| && s[i] == sep && sep !in s[..i] && n >= 2
    requires 1 <= |rest| <= n - 1 && Join(rest, sep) == s[i + 1..]
    requires forall k :: 0 <= k < |rest| - 1 ==> sep !in rest[k]
    requires |rest| < n - 1 ==> sep !in rest[|rest| - 1]
    ensures var parts := [s[..i]] + rest;
      Join(parts, sep) == s &&
      (forall k :: 0 <= k < |parts| - 1 ==> sep !in parts[k]) &&
      (|parts| < n ==> sep !in parts[|parts| - 1])
  {
    var parts := [s[..i]] + rest;
    JoinCons(s[..i], rest, sep);
    assert s == s[..i] + [sep] + s[i + 1..];
    assert forall k :: 1 <= k < |parts| ==> parts[k] == rest[k - 1];
  }

  lemma JoinCons(first: seq<byte>, rest: seq<seq<byte>>, sep: byte)
    requires |rest| >= 1
    ensures Join([first] + rest, sep) == first + [sep] + Join(rest, sep)
  {
    assert ([first] + rest)[1..] == rest;
  }

  /** The first `c` in `a + [c] + b` is the one after `a` when `a` has none. */
  lemma IndexByteAfter(a: seq<byte>, c: byte, b: seq<byte>)
    requires c !in a
    ensures IndexByte(a + [c] + b, c) == |a|
  {
    var s := a + [c] + b;
    var i := IndexByte(s, c);
    assert s[|a|] == c;
    assert s[..|a|] == a;
  }

  /** A first part without the separator is split off, and the rest is split with one part fewer. */
  lemma SplitAt(a: seq<byte>, sep: byte, t: seq<byte>, n: nat)
    requires sep !in a && n >= 2
    ensures SplitN(a + [sep] + t, sep, n) == [a] + SplitN(t, sep, n - 1)
  {
    var s := a + [sep] + t;
    IndexByteAfter(a, sep, t);
    assert s[..|a|] == a;
    assert s[|a| + 1..] == t;
  }

  /**
   * With at most three parts, the first two are the bytes before the first
   * separator and the bytes between the first and the second (or the end).
   */
  lemma SplitThreeFields(a: seq<byte>, b: seq<byte>, rest: seq<byte>, sep: byte)
    requires sep !in a && sep !in b
    requires rest == [] || rest[0] == sep
    ensures var parts := SplitN(a + [sep] + b + rest, sep, 3);
      |parts| >= 2 && parts[0] == a && parts[1] == b
  {
    var s := a + [sep] + b + rest;
    assert s == a + [sep] + (b + rest);
    SplitAt(a, sep, b + rest, 3);
    SecondField(b, rest, sep);
  }

  /** Split in two, `b + rest` gives `b` first when `rest` is empty or starts a new part. */
  lemma SecondField(b: seq<byte>, rest: seq<byte>, sep: byte)
    requires sep !in b
    requires rest == [] || rest[0] == sep
    ensures SplitN(b + rest, sep, 2)[0] == b
  {
    if rest == [] {
      assert b + rest == b;
      SplitWithoutSeparator(b, sep, 2);
    } else {
      var t := rest[1..];
      assert rest == [sep] + t;
      assert b + rest == b + [sep] + t;
      SplitAt(b, sep, t, 2);
    }
  }

  /** Without the separator there is nothing to split. */
  lemma SplitWithoutSeparator(t: seq<byte>, sep: byte, n: nat)
    requires sep !in t && n >= 1
    ensures SplitN(t, sep, n) == [t]
  {
    assert IndexByte(t, sep) == -1;
  }
}
