/**
 * Go's `base64.RawURLEncoding`: the URL- and filename-safe alphabet of
 * section 5 of RFC 4648, with the padding omitted as section 3.2 of the same
 * RFC allows. Decoding follows Go's non-strict decoder: carriage returns and
 * line feeds are skipped wherever they occur, and the unused low bits of a
 * final partial quantum need not be zero.
 */
module Base64Url {
  import opened GoTypes

  const LineFeed: byte := 10
  const CarriageReturn: byte := 13

  /** The 64 bytes of the URL-safe alphabet: A-Z, a-z, 0-9, '-' and '_'. */
  predicate IsAlphabet(c: byte) {
    (65 <= c <= 90) || (97 <= c <= 122) || (48 <= c <= 57) || c == 45 || c == 95
  }

  predicate AllAlphabet(s: seq<byte>) {
    forall i :: 0 <= i < |s| ==> IsAlphabet(s[i])
  }

  predicate IsNewline(c: byte) {
    c == LineFeed || c == CarriageReturn
  }

  /** The alphabet byte that encodes the 6-bit value `v`. */
  function EncodeSextet(v: int): (c: byte)
    requires 0 <= v < 64
    ensures IsAlphabet(c)
  {
    if v < 26 then (65 + v) as byte
    else if v < 52 then (97 + v - 26) as byte
    else if v < 62 then (48 + v - 52) as byte
    else if v == 62 then 45
    else 95
  }

  /** The 6-bit value an alphabet byte stands for; the table is a bijection. */
  function SextetOf(c: byte): (v: int)
    requires IsAlphabet(c)
    ensures 0 <= v < 64 && EncodeSextet(v) == c
  {
    if 65 <= c <= 90 then c as int - 65
    else if 97 <= c <= 122 then c as int - 97 + 26
    else if 48 <= c <= 57 then c as int - 48 + 52
    else if c == 45 then 62
    else 63
  }

  lemma SextetRoundTrip(v: int)
    requires 0 <= v < 64
    ensures SextetOf(EncodeSextet(v)) == v
  {
  }

  /** The input with every '\n' and '\r' removed, the rest in order. */
  function StripNewlines(s: seq<byte>): (r: seq<byte>)
    ensures |r| <= |s|
    ensures forall i :: 0 <= i < |r| ==> !IsNewline(r[i])
    ensures (forall i :: 0 <= i < |s| ==> !IsNewline(s[i])) ==> r == s
  {
    if s == [] then []
    else if IsNewline(s[0]) then StripNewlines(s[1..])
    else [s[0]] + StripNewlines(s[1..])
  }

  predicate IsSextet(v: int) {
    0 <= v < 64
  }

  predicate AllSextets(v: seq<int>) {
    forall i :: 0 <= i < |v| ==> IsSextet(v[i])
  }

  /** The 6-bit values of a run of alphabet bytes, looked up one by one. */
  function Sextets(q: seq<byte>): (v: seq<int>)
    requires AllAlphabet(q)
    ensures |v| == |q| && AllSextets(v)
    ensures forall i :: 0 <= i < |q| ==> v[i] == SextetOf(q[i])
  {
    seq(|q|, i requires 0 <= i < |q| => SextetOf(q[i]))
  }

  /** The alphabet bytes of a run of 6-bit values. */
  function Characters(v: seq<int>): (q: seq<byte>)
    requires AllSextets(v)
    ensures |q| == |v| && AllAlphabet(q)
    ensures forall i :: 0 <= i < |v| ==> q[i] == EncodeSextet(v[i])
  {
    seq(|v|, i requires 0 <= i < |v| => EncodeSextet(v[i]))
  }

  lemma SextetsOfCharacters(v: seq<int>)
    requires AllSextets(v)
    ensures Sextets(Characters(v)) == v
  {
    forall i | 0 <= i < |v|
      ensures Sextets(Characters(v))[i] == v[i]
    {
      SextetRoundTrip(v[i]);
    }
  }

  lemma CharactersOfSextets(q: seq<byte>)
    requires AllAlphabet(q)
    ensures Characters(Sextets(q)) == q
  {
  }

  // The three bytes of a full group, each from the two sextets it overlaps.
  function High(a: int, b: int): byte
    requires IsSextet(a) && IsSextet(b)
  {
    (a * 4 + b / 16) as byte
  }

  function Middle(b: int, c: int): byte
    requires IsSextet(b) && IsSextet(c)
  {
    ((b % 16) * 16 + c / 4) as byte
  }

  function Low(c: int, d: int): byte
    requires IsSextet(c) && IsSextet(d)
  {
    ((c % 4) * 64 + d) as byte
  }

  /**
   * Decodes 6-bit values four at a time; a final group of two or three
   * yields one or two bytes and its leftover low bits are dropped.
   */
  function DecodeSextets(v: seq<int>): (r: seq<byte>)
    requires AllSextets(v) && |v| % 4 != 1
    ensures |r| == |v| * 3 / 4
    decreases |v|
  {
    if |v| == 0 then []
    else if |v| == 2 then [High(v[0], v[1])]
    else if |v| == 3 then [High(v[0], v[1]), Middle(v[1], v[2])]
    else
      var rest := v[4..];
      ThreeQuartersStep(|v|);
      assert AllSextets(rest) by {
        forall i | 0 <= i < |rest| ensures IsSextet(rest[i]) {
          assert rest[i] == v[i + 4];
        }
      }
      [High(v[0], v[1]), Middle(v[1], v[2]), Low(v[2], v[3])] + DecodeSextets(rest)
  }

  /** Removing one full group keeps the length's class mod 4 and removes three decoded bytes. */
  lemma ThreeQuartersStep(n: int)
    requires n >= 4
    ensures (n - 4) % 4 == n % 4
    ensures (n - 4) * 3 / 4 + 3 == n * 3 / 4
  {
    DivMod4(n, (n - 4) / 4 + 1, (n - 4) % 4);
    DivMod4(n * 3, (n - 4) * 3 / 4 + 3, ((n - 4) * 3) % 4);
  }

  /**
   * `RawURLEncoding.DecodeString`. Fails on any byte outside the alphabet
   * other than a newline (so also on '='), and when the remaining length
   * leaves a single dangling character.
   */
  function DecodeString(s: seq<byte>): (r: Option<seq<byte>>)
    ensures r.Some? <==> AllAlphabet(StripNewlines(s)) && |StripNewlines(s)| % 4 != 1
    ensures r.Some? ==> |r.value| == |StripNewlines(s)| * 3 / 4
  {
    var q := StripNewlines(s);
    if AllAlphabet(q) && |q| % 4 != 1 then Some(DecodeSextets(Sextets(q))) else None
  }

  /** The four sextets of a full group of three bytes. */
  function Group3(x: byte, y: byte, z: byte): (v: seq<int>)
    ensures |v| == 4 && AllSextets(v)
  {
    [x as int / 4, (x as int % 4) * 16 + y as int / 16, (y as int % 16) * 4 + z as int / 64, z as int % 64]
  }

  /** A final group of two bytes: three sextets, the last two bits zero. */
  function Group2(x: byte, y: byte): (v: seq<int>)
    ensures |v| == 3 && AllSextets(v)
  {
    [x as int / 4, (x as int % 4) * 16 + y as int / 16, (y as int % 16) * 4]
  }

  /** A final group of one byte: two sextets, the last four bits zero. */
  function Group1(x: byte): (v: seq<int>)
    ensures |v| == 2 && AllSextets(v)
  {
    [x as int / 4, (x as int % 4) * 16]
  }

  /** The 6-bit values of the encoding, three bytes at a time. */
  function EncodeSextets(b: seq<byte>): (v: seq<int>)
    ensures AllSextets(v) && |v| % 4 != 1
    ensures |v| == (|b| * 8 + 5) / 6
    decreases |b|
  {
    if |b| == 0 then []
    else if |b| == 1 then Group1(b[0])
    else if |b| == 2 then Group2(b[0], b[1])
    else
      var rest := EncodeSextets(b[3..]);
      var v := Group3(b[0], b[1], b[2]) + rest;
      assert forall i :: 4 <= i < |v| ==> v[i] == rest[i - 4];
      v
  }

  /** `RawURLEncoding.EncodeToString`: no padding, zero trailing bits. */
  function EncodeToString(b: seq<byte>): (s: seq<byte>)
    ensures AllAlphabet(s) && |s| % 4 != 1
    ensures |s| == (|b| * 8 + 5) / 6
  {
    Characters(EncodeSextets(b))
  }

  lemma Group3Decodes(x: byte, y: byte, z: byte)
    ensures var v := Group3(x, y, z);
      High(v[0], v[1]) == x && Middle(v[1], v[2]) == y && Low(v[2], v[3]) == z
  {
  }

  lemma ShortGroupsDecode(x: byte, y: byte)
    ensures var v := Group1(x); High(v[0], v[1]) == x
    ensures var v := Group2(x, y); High(v[0], v[1]) == x && Middle(v[1], v[2]) == y
  {
  }

  lemma {:induction false} DecodeEncodeSextets(b: seq<byte>)
    ensures DecodeSextets(EncodeSextets(b)) == b
    decreases |b|
  {
    if |b| == 0 {
    } else if |b| == 1 {
      ShortGroupsDecode(b[0], 0);
    } else if |b| == 2 {
      ShortGroupsDecode(b[0], b[1]);
    } else {
      var g := Group3(b[0], b[1], b[2]);
      var rest := EncodeSextets(b[3..]);
      var v := g + rest;
      assert EncodeSextets(b) == v;
      Group3Decodes(b[0], b[1], b[2]);
      DecodeEncodeSextets(b[3..]);
      assert v[4..] == rest;
      assert DecodeSextets(v) == [b[0], b[1], b[2]] + DecodeSextets(rest);
      assert b == [b[0], b[1], b[2]] + b[3..];
    }
  }

  /** Decoding undoes encoding, for every byte string. */
  lemma DecodeEncode(b: seq<byte>)
    ensures DecodeString(EncodeToString(b)) == Some(b)
  {
    var v := EncodeSextets(b);
    SextetsOfCharacters(v);
    DecodeEncodeSextets(b);
  }

  /**
   * The unused low bits of a final partial group are zero, as the encoder
   * leaves them.
   */
  predicate CanonicalTail(v: seq<int>) {
    (|v| % 4 == 2 ==> v[|v| - 1] % 16 == 0) &&
    (|v| % 4 == 3 ==> v[|v| - 1] % 4 == 0)
  }

  // Euclidean division by the three constants the bit layout uses.
  lemma DivMod4(n: int, hi: int, lo: int)
    requires 0 <= lo < 4 && n == hi * 4 + lo
    ensures n / 4 == hi && n % 4 == lo
  {
  }

  lemma DivMod16(n: int, hi: int, lo: int)
    requires 0 <= lo < 16 && n == hi * 16 + lo
    ensures n / 16 == hi && n % 16 == lo
  {
  }

  lemma DivMod64(n: int, hi: int, lo: int)
    requires 0 <= lo < 64 && n == hi * 64 + lo
    ensures n / 64 == hi && n % 64 == lo
  {
  }

  /** The sextets a full group's bytes are cut into are the sextets it was built from. */
  lemma Group3Encodes(a: int, b: int, c: int, d: int)
    requires IsSextet(a) && IsSextet(b) && IsSextet(c) && IsSextet(d)
    ensures Group3(High(a, b), Middle(b, c), Low(c, d)) == [a, b, c, d]
  {
    var x, y, z := High(a, b) as int, Middle(b, c) as int, Low(c, d) as int;
    DivMod4(x, a, b / 16);
    DivMod16(y, b % 16, c / 4);
    DivMod64(z, c % 4, d);
    assert (x % 4) * 16 + y / 16 == b;
    assert (y % 16) * 4 + z / 64 == c;
  }

  lemma ShortGroupsEncode(a: int, b: int, c: int)
    requires IsSextet(a) && IsSextet(b) && IsSextet(c)
    ensures b % 16 == 0 ==> Group1(High(a, b)) == [a, b]
    ensures c % 4 == 0 ==> Group2(High(a, b), Middle(b, c)) == [a, b, c]
  {
    var x, y := High(a, b) as int, Middle(b, c) as int;
    DivMod4(x, a, b / 16);
    DivMod16(y, b % 16, c / 4);
    assert (x % 4) * 16 + y / 16 == b;
  }

  lemma EncodeFullGroup(x: byte, y: byte, z: byte, tail: seq<byte>)
    ensures EncodeSextets([x, y, z] + tail) == Group3(x, y, z) + EncodeSextets(tail)
  {
    assert ([x, y, z] + tail)[3..] == tail;
  }

  lemma {:induction false} EncodeDecodeSextets(v: seq<int>)
    requires AllSextets(v) && |v| % 4 != 1 && CanonicalTail(v)
    ensures EncodeSextets(DecodeSextets(v)) == v
    decreases |v|
  {
    if |v| == 0 {
    } else if |v| < 4 {
      EncodeDecodeShort(v);
    } else {
      var rest := v[4..];
      assert AllSextets(rest);
      assert CanonicalTail(rest) by {
        if |rest| % 4 != 0 { assert rest[|rest| - 1] == v[|v| - 1]; }
      }
      EncodeDecodeSextets(rest);
      EncodeDecodeStep(v);
    }
  }

  lemma EncodeDecodeShort(v: seq<int>)
    requires AllSextets(v) && (|v| == 2 || |v| == 3) && CanonicalTail(v)
    ensures EncodeSextets(DecodeSextets(v)) == v
  {
    if |v| == 2 {
      ShortGroupsEncode(v[0], v[1], 0);
      assert v == [v[0], v[1]];
    } else {
      ShortGroupsEncode(v[0], v[1], v[2]);
      assert v == [v[0], v[1], v[2]];
    }
  }

  /** One full group: re-encoding its three bytes restores its four sextets. */
  lemma EncodeDecodeStep(v: seq<int>)
    requires AllSextets(v) && |v| % 4 != 1 && |v| >= 4
    requires AllSextets(v[4..]) && EncodeSextets(DecodeSextets(v[4..])) == v[4..]
    ensures EncodeSextets(DecodeSextets(v)) == v
  {
    var rest := v[4..];
    var x, y, z := High(v[0], v[1]), Middle(v[1], v[2]), Low(v[2], v[3]);
    assert DecodeSextets(v) == [x, y, z] + DecodeSextets(rest);
    EncodeFullGroup(x, y, z, DecodeSextets(rest));
    Group3Encodes(v[0], v[1], v[2], v[3]);
    assert v == [v[0], v[1], v[2], v[3]] + rest;
  }

  /**
   * Encoding undoes decoding when the input is all alphabet (so has no
   * newlines) and has zero trailing bits: on such inputs the encoding is a
   * bijection.
   */
  lemma EncodeDecode(s: seq<byte>)
    requires AllAlphabet(s) && |s| % 4 != 1 && CanonicalTail(Sextets(s))
    ensures DecodeString(s).Some? && EncodeToString(DecodeString(s).value) == s
  {
    DecodeAlphabetOnly(s);
    EncodeDecodeSextets(Sextets(s));
    CharactersOfSextets(s);
  }

  /** '\r' and '\n' are skipped wherever they stand. */
  lemma {:induction false} NewlinesIgnored(s: seq<byte>, k: nat)
    requires k <= |s|
    ensures DecodeString(s[..k] + [LineFeed] + s[k..]) == DecodeString(s)
    ensures DecodeString(s[..k] + [CarriageReturn] + s[k..]) == DecodeString(s)
  {
    StripSkipsNewline(s, k, LineFeed);
    StripSkipsNewline(s, k, CarriageReturn);
  }

  lemma {:induction false} StripSkipsNewline(s: seq<byte>, k: nat, c: byte)
    requires k <= |s| && IsNewline(c)
    ensures StripNewlines(s[..k] + [c] + s[k..]) == StripNewlines(s)
    decreases k
  {
    var t := s[..k] + [c] + s[k..];
    if k == 0 {
      assert t[1..] == s;
    } else {
      StripSkipsNewline(s[1..], k - 1, c);
      assert t[0] == s[0];
      assert t[1..] == s[1..][..k - 1] + [c] + s[1..][k - 1..];
    }
  }

  /** With padding omitted, any '=' makes the input invalid. */
  lemma {:induction false} PaddingRejected(s: seq<byte>, k: nat)
    requires k < |s| && s[k] == 61
    ensures DecodeString(s) == None
  {
    StripKeeps(s, k);
  }

  lemma {:induction false} StripKeeps(s: seq<byte>, k: nat)
    requires k < |s| && !IsNewline(s[k])
    ensures s[k] in StripNewlines(s)
    decreases k
  {
    if k > 0 {
      StripKeeps(s[1..], k - 1);
    }
  }

  /**
   * The decoder is not strict: two characters decode to one byte, and a
   * second character that differs only in the four dropped low bits (as 'A'
   * and 'B' do) gives the same byte.
   */
  lemma NonStrictTrailingBits(a: byte, b: byte, b': byte)
    requires IsAlphabet(a) && IsAlphabet(b) && IsAlphabet(b')
    requires SextetOf(b) / 16 == SextetOf(b') / 16
    ensures DecodeString([a, b]).Some?
    ensures DecodeString([a, b]) == DecodeString([a, b'])
  {
    DecodePair(a, b);
    DecodePair(a, b');
  }

  /**
   * Two runs of 6-bit values that differ at most in the bits a final partial
   * group drops: the low 4 bits of the last of 2 values, or the low 2 bits of
   * the last of 3.
   */
  predicate SameKeptBits(v: seq<int>, w: seq<int>) {
    |v| == |w| && (|v| % 4 == 2 || |v| % 4 == 3) &&
    (forall i :: 0 <= i < |v| - 1 ==> v[i] == w[i]) &&
    (|v| % 4 == 2 ==> v[|v| - 1] / 16 == w[|w| - 1] / 16) &&
    (|v| % 4 == 3 ==> v[|v| - 1] / 4 == w[|w| - 1] / 4)
  }

  lemma {:induction false} DecodeIgnoresDroppedBits(v: seq<int>, w: seq<int>)
    requires AllSextets(v) && AllSextets(w) && SameKeptBits(v, w)
    ensures DecodeSextets(v) == DecodeSextets(w)
    decreases |v|
  {
    if |v| >= 4 {
      ThreeQuartersStep(|v|);
      var v', w' := v[4..], w[4..];
      assert AllSextets(v') by {
        forall i | 0 <= i < |v'| ensures IsSextet(v'[i]) { assert v'[i] == v[i + 4]; }
      }
      assert AllSextets(w') by {
        forall i | 0 <= i < |w'| ensures IsSextet(w'[i]) { assert w'[i] == w[i + 4]; }
      }
      assert SameKeptBits(v', w') by {
        forall i | 0 <= i < |v'| - 1 ensures v'[i] == w'[i] { assert v[i + 4] == w[i + 4]; }
        assert v'[|v'| - 1] == v[|v| - 1] && w'[|w'| - 1] == w[|w| - 1];
      }
      DecodeIgnoresDroppedBits(v', w');
      assert v[..4] == w[..4];
    }
  }

  /**
   * The decoder is not strict at any length: replacing the last character of
   * an input whose length is 2 or 3 mod 4 by one that differs only in the
   * dropped low bits does not change the result.
   */
  lemma NonStrictFinalGroup(s: seq<byte>, c: byte)
    requires AllAlphabet(s) && (|s| % 4 == 2 || |s| % 4 == 3) && IsAlphabet(c)
    requires |s| % 4 == 2 ==> SextetOf(s[|s| - 1]) / 16 == SextetOf(c) / 16
    requires |s| % 4 == 3 ==> SextetOf(s[|s| - 1]) / 4 == SextetOf(c) / 4
    ensures DecodeString(s).Some?
    ensures DecodeString(s[..|s| - 1] + [c]) == DecodeString(s)
  {
    var t := s[..|s| - 1] + [c];
    LastReplaced(s, c);
    DecodeAlphabetOnly(s);
    DecodeAlphabetOnly(t);
    DecodeIgnoresDroppedBits(Sextets(s), Sextets(t));
  }

  /** Replacing the last character keeps the input all alphabet and changes only the last sextet. */
  lemma LastReplaced(s: seq<byte>, c: byte)
    requires AllAlphabet(s) && |s| >= 1 && IsAlphabet(c)
    ensures var t := s[..|s| - 1] + [c];
      AllAlphabet(t) &&
      (forall i :: 0 <= i < |s| - 1 ==> Sextets(t)[i] == Sextets(s)[i]) &&
      Sextets(t)[|s| - 1] == SextetOf(c)
  {
    var t := s[..|s| - 1] + [c];
    assert forall i :: 0 <= i < |s| - 1 ==> t[i] == s[i];
  }

  /** Two alphabet characters decode to the byte their sextets' high bits form. */
  lemma DecodePair(a: byte, b: byte)
    requires IsAlphabet(a) && IsAlphabet(b)
    ensures DecodeString([a, b]) == Some([High(SextetOf(a), SextetOf(b))])
  {
    var s := [a, b];
    DecodeAlphabetOnly(s);
    assert Sextets(s) == [SextetOf(a), SextetOf(b)];
  }

  /** Four alphabet characters decode to one full group of three bytes. */
  lemma DecodeQuad(a: byte, b: byte, c: byte, d: byte)
    requires IsAlphabet(a) && IsAlphabet(b) && IsAlphabet(c) && IsAlphabet(d)
    ensures var x, y, z, w := SextetOf(a), SextetOf(b), SextetOf(c), SextetOf(d);
      DecodeString([a, b, c, d]) == Some([High(x, y), Middle(y, z), Low(z, w)])
  {
    var s := [a, b, c, d];
    DecodeAlphabetOnly(s);
    var v := Sextets(s);
    var tail := DecodeSextets(v[4..]);
    assert DecodeSextets(v) == [High(v[0], v[1]), Middle(v[1], v[2]), Low(v[2], v[3])] + tail;
    assert tail == [];
    assert [High(v[0], v[1]), Middle(v[1], v[2]), Low(v[2], v[3])] + tail
        == [High(v[0], v[1]), Middle(v[1], v[2]), Low(v[2], v[3])];
    assert v[0] == SextetOf(a) && v[1] == SextetOf(b) && v[2] == SextetOf(c) && v[3] == SextetOf(d);
  }

  /** Alphabet bytes are never newlines, so such input decodes straight through its sextets. */
  lemma DecodeAlphabetOnly(s: seq<byte>)
    requires AllAlphabet(s) && |s| % 4 != 1
    ensures DecodeString(s) == Some(DecodeSextets(Sextets(s)))
  {
    assert forall i :: 0 <= i < |s| ==> !IsNewline(s[i]);
  }
}
