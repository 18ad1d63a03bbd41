/**
 Keys as base64 text, computed without branches on the key.  In C's int arithmetic a
 number between -256 and 255 shifted right by eight is -1 if it is negative and 0 otherwise; this is
 what every case distinction is made of.
 */
module Encoding {
  type u8 = x: int | 0 <= x < 0x100

  /** A character's code, whichever way char is signed. */
  type ch = x: int | -128 <= x < 256

  const WG_KEY_LEN := 32
  const WG_KEY_LEN_BASE64 := 45

  /** x >> 8 for small numbers: all ones or zero. */
  function Mask(x: int): int
    requires -256 <= x < 256
  {
    x / 256
  }

  /** A mask and a number, bit by bit. */
  function And(mask: int, x: int): int
    requires mask == -1 || mask == 0
  {
    if mask == -1 then x else 0
  }

  // ---------------------------------------------------------------- one base64 character

  /** Section 4 of RFC 4648: A-Z, a-z, 0-9, + and /. */
  ghost function Alphabet(v: int): int
    requires 0 <= v < 64
  {
    if v < 26 then 'A' as int + v
    else if v < 52 then 'a' as int + (v - 26)
    else if v < 62 then '0' as int + (v - 52)
    else if v == 62 then '+' as int else '/' as int
  }

  function EncodeChar(v: int): (c: ch)
    requires 0 <= v < 64
    ensures c == Alphabet(v)
  {
    v + 'A' as int + And(Mask(25 - v), 6) - And(Mask(51 - v), 75) - And(Mask(61 - v), 15) + And(Mask(62 - v), 3)
  }

  /** x if c lies strictly between lo and hi, else 0. */
  function Between(c: ch, lo: int, hi: int, x: int): int
    requires 0 <= lo < 128 && 0 <= hi < 128
  {
    And(And(Mask(lo - c), Mask(c - hi)), x)
  }

  function DecodeChar(c: ch): (v: int)
    ensures -1 <= v < 64
    ensures v >= 0 ==> Alphabet(v) == c
    ensures v < 0 ==> forall w :: 0 <= w < 64 ==> Alphabet(w) != c
  {
    -1
    + Between(c, 'A' as int - 1, 'Z' as int + 1, c - 64)
    + Between(c, 'a' as int - 1, 'z' as int + 1, c - 70)
    + Between(c, '0' as int - 1, '9' as int + 1, c + 5)
    + Between(c, '+' as int - 1, '+' as int + 1, 63)
    + Between(c, '/' as int - 1, '/' as int + 1, 64)
  }

  lemma CharRoundTrip(v: int)
    requires 0 <= v < 64
    ensures DecodeChar(EncodeChar(v)) == v
  {
    hide DecodeChar, EncodeChar;
    var w := DecodeChar(EncodeChar(v));
    assert Alphabet(w) == Alphabet(v);
  }

  // ---------------------------------------------------------------- three bytes, four characters

  function EncodeBase64(a: u8, b: u8, c: u8): (r: seq<ch>)
    ensures |r| == 4
  {
    [EncodeChar(a / 4), EncodeChar((a * 16 + b / 16) % 64), EncodeChar((b * 4 + c / 64) % 64), EncodeChar(c % 64)]
  }

  /** Or-ing in a part at its place: a negative part makes everything negative, and stays so. */
  function OrIn(val: int, part: int, weight: int): int {
    if val < 0 || part < 0 then -1 else val + part * weight
  }

  function DecodeBase64(s: seq<ch>): (val: int)
    requires |s| == 4
    ensures -1 <= val < 0x100_0000
  {
    OrIn(OrIn(OrIn(OrIn(0, DecodeChar(s[0]), 0x4_0000), DecodeChar(s[1]), 0x1000), DecodeChar(s[2]), 0x40), DecodeChar(s[3]), 1)
  }

  function Value(a: u8, b: u8, c: u8): int { 0x1_0000 * a + 0x100 * b + c }

  lemma GroupRoundTrip(a: u8, b: u8, c: u8)
    ensures DecodeBase64(EncodeBase64(a, b, c)) == Value(a, b, c)
  {
    hide DecodeChar, EncodeChar;
    CharRoundTrip(a / 4);
    CharRoundTrip((a * 16 + b / 16) % 64);
    CharRoundTrip((b * 4 + c / 64) % 64);
    CharRoundTrip(c % 64);
    Second(a, b);
    Third(b, c);
  }

  lemma Low64(q: nat, r: nat)
    requires r < 64
    ensures (64 * q + r) % 64 == r
  {
  }

  lemma Second(a: u8, b: u8)
    ensures (a * 16 + b / 16) % 64 == a % 4 * 16 + b / 16
  {
    var q, r := a / 4, a % 4;
    assert a * 16 + b / 16 == 64 * q + (r * 16 + b / 16);
    Low64(q, r * 16 + b / 16);
  }

  lemma Third(b: u8, c: u8)
    ensures (b * 4 + c / 64) % 64 == b % 16 * 4 + c / 64
  {
    var q, r := b / 16, b % 16;
    assert b * 4 + c / 64 == 64 * q + (r * 4 + c / 64);
    Low64(q, r * 4 + c / 64);
  }

  function Byte2(val: int): u8 { val / 0x1_0000 % 0x100 }
  function Byte1(val: int): u8 { val / 0x100 % 0x100 }
  function Byte0(val: int): u8 { val % 0x100 }

  /** Whatever decodes is the encoding of what it decodes to. */
  lemma GroupIsEncoding(s: seq<ch>)
    requires |s| == 4 && DecodeBase64(s) >= 0
    ensures var val := DecodeBase64(s); EncodeBase64(Byte2(val), Byte1(val), Byte0(val)) == s
  {
    hide DecodeChar, EncodeChar, Alphabet;
    var v0, v1, v2, v3 := DecodeChar(s[0]), DecodeChar(s[1]), DecodeChar(s[2]), DecodeChar(s[3]);
    var val := DecodeBase64(s);
    assert val == 0x4_0000 * v0 + 0x1000 * v1 + 0x40 * v2 + v3;
    Sextets(v0, v1, v2, v3);
  }

  lemma Bytes(a: u8, b: u8, c: u8)
    ensures var val := 0x1_0000 * a + 0x100 * b + c; Byte2(val) == a && Byte1(val) == b && Byte0(val) == c
  {
    var val := 0x1_0000 * a + 0x100 * b + c;
    assert val / 0x100 == 0x100 * a + b;
  }

  lemma Sextets(v0: int, v1: int, v2: int, v3: int)
    requires 0 <= v0 < 64 && 0 <= v1 < 64 && 0 <= v2 < 64 && 0 <= v3 < 64
    ensures var val := 0x4_0000 * v0 + 0x1000 * v1 + 0x40 * v2 + v3;
            var a, b, c := Byte2(val), Byte1(val), Byte0(val);
            a / 4 == v0 && (a * 16 + b / 16) % 64 == v1 && (b * 4 + c / 64) % 64 == v2 && c % 64 == v3
  {
    hide Byte2, Byte1, Byte0;
    var a: u8, b: u8, c: u8 := 4 * v0 + v1 / 16, v1 % 16 * 16 + v2 / 4, v2 % 4 * 64 + v3;
    Bytes(a, b, c);
    Second(a, b);
    Third(b, c);
  }

  // ---------------------------------------------------------------- whole keys in base64

  /** The first i groups of a key. */
  ghost function Groups(key: seq<u8>, i: nat): (r: seq<ch>)
    requires 3 * i <= |key|
    ensures |r| == 4 * i
  {
    if i == 0 then [] else Groups(key, i - 1) + EncodeBase64(key[3 * i - 3], key[3 * i - 2], key[3 * i - 1])
  }

  /** The base64 text of a key: section 4 of RFC 4648, with one pad character. */
  ghost function Encoded(key: seq<u8>): (r: seq<ch>)
    requires |key| == WG_KEY_LEN
    ensures |r| == WG_KEY_LEN_BASE64 - 1
  {
    Groups(key, 10) + EncodeBase64(key[30], key[31], 0)[..3] + ['=' as int]
  }

  lemma {:induction false} GroupsPrefix(k: seq<u8>, k': seq<u8>, i: nat)
    requires 3 * i <= |k| && 3 * i <= |k'| && k[..3 * i] == k'[..3 * i]
    ensures Groups(k, i) == Groups(k', i)
  {
    if i > 0 {
      assert k[..3 * (i - 1)] == k[..3 * i][..3 * (i - 1)] == k'[..3 * (i - 1)];
      GroupsPrefix(k, k', i - 1);
      assert forall j :: 0 <= j < 3 * i ==> k[j] == k[..3 * i][j] == k'[j];
    }
  }

  lemma {:induction false} GroupAt(k: seq<u8>, i: nat, j: nat)
    requires 3 * i <= |k| && j < i
    ensures Groups(k, i)[4 * j..4 * j + 4] == EncodeBase64(k[3 * j], k[3 * j + 1], k[3 * j + 2])
    decreases i
  {
    hide EncodeBase64;
    if j < i - 1 {
      GroupAt(k, i - 1, j);
      assert Groups(k, i)[4 * j..4 * j + 4] == Groups(k, i - 1)[4 * j..4 * j + 4];
    }
  }

  method KeyToBase64(base64: array<ch>, key: seq<u8>)
    requires base64.Length == WG_KEY_LEN_BASE64 && |key| == WG_KEY_LEN
    modifies base64
    ensures base64[..WG_KEY_LEN_BASE64 - 1] == Encoded(key) && base64[WG_KEY_LEN_BASE64 - 1] == 0
  {
    hide EncodeBase64;
    var i := 0;
    while i < WG_KEY_LEN / 3
      invariant 0 <= i <= 10 && base64[..4 * i] == Groups(key, i)
    {
      var g := EncodeBase64(key[3 * i], key[3 * i + 1], key[3 * i + 2]);
      base64[4 * i], base64[4 * i + 1], base64[4 * i + 2], base64[4 * i + 3] := g[0], g[1], g[2], g[3];
      assert base64[..4 * i + 4] == base64[..4 * i] + g;
      i := i + 1;
    }
    var g := EncodeBase64(key[3 * i], key[3 * i + 1], 0);
    base64[4 * i], base64[4 * i + 1], base64[4 * i + 2], base64[4 * i + 3] := g[0], g[1], g[2], g[3];
    base64[WG_KEY_LEN_BASE64 - 2] := '=' as int;
    base64[WG_KEY_LEN_BASE64 - 1] := 0;
    assert base64[..44] == base64[..40] + g[..3] + ['=' as int];
  }

  /** The text is some key's. */
  ghost predicate IsEncoding(s: seq<ch>) {
    exists k: seq<u8> {:trigger Encoded(k)} :: |k| == WG_KEY_LEN && Encoded(k) == s
  }

  lemma EncodedGroup(k: seq<u8>, j: nat)
    requires |k| == WG_KEY_LEN && j < 10
    ensures Encoded(k)[4 * j..4 * j + 4] == EncodeBase64(k[3 * j], k[3 * j + 1], k[3 * j + 2])
  {
    hide EncodeBase64, Groups;
    GroupAt(k, 10, j);
    assert Encoded(k)[4 * j..4 * j + 4] == Groups(k, 10)[4 * j..4 * j + 4];
  }

  lemma EncodedLast(k: seq<u8>)
    requires |k| == WG_KEY_LEN
    ensures Encoded(k)[40..43] + ['A' as int] == EncodeBase64(k[30], k[31], 0) && Encoded(k)[43] == '=' as int
  {
    hide EncodeBase64, Groups;
    PadIsA(k[30], k[31]);
    var g := EncodeBase64(k[30], k[31], 0);
    assert Encoded(k)[40..43] == g[..3];
    assert g == g[..3] + [g[3]];
  }

  lemma PadIsA(a: u8, b: u8)
    ensures EncodeBase64(a, b, 0)[3] == 'A' as int
  {
  }

  lemma ValueBounds(a: u8, b: u8, c: u8)
    ensures Value(a, b, c) >= 0 && Value(a, b, 0) % 0x100 == 0
  {
    assert Value(a, b, 0) == 0x100 * (0x100 * a + b);
  }

  /** The groups of a key's text all decode, the last one with nothing in its spare bits. */
  lemma EncodingDecodes(k: seq<u8>)
    requires |k| == WG_KEY_LEN
    ensures forall j :: 0 <= j < 10 ==> DecodeBase64(Encoded(k)[4 * j..4 * j + 4]) >= 0
    ensures var val := DecodeBase64(Encoded(k)[40..43] + ['A' as int]); val >= 0 && val % 0x100 == 0
    ensures Encoded(k)[43] == '=' as int
  {
    hide EncodeBase64, DecodeBase64, Encoded, Value;
    forall j | 0 <= j < 10 ensures DecodeBase64(Encoded(k)[4 * j..4 * j + 4]) >= 0 {
      EncodedGroup(k, j);
      GroupRoundTrip(k[3 * j], k[3 * j + 1], k[3 * j + 2]);
      ValueBounds(k[3 * j], k[3 * j + 1], k[3 * j + 2]);
    }
    EncodedLast(k);
    GroupRoundTrip(k[30], k[31], 0);
    ValueBounds(k[30], k[31], 0);
  }

  /** Accepted is exactly what is a key's text, and the key it is the text of is the result. */
  method KeyFromBase64(key: array<u8>, base64: seq<ch>) returns (ok: bool)
    requires key.Length == WG_KEY_LEN
    modifies key
    ensures ok <==> IsEncoding(base64)
    ensures ok ==> Encoded(key[..]) == base64
  {
    hide EncodeBase64, DecodeBase64;
    if |base64| != WG_KEY_LEN_BASE64 - 1 || base64[WG_KEY_LEN_BASE64 - 2] != '=' as int {
      NotEncoding(base64);
      return false;
    }
    var bad := false;
    var i := 0;
    while i < WG_KEY_LEN / 3
      invariant 0 <= i <= 10
      invariant bad ==> exists j :: 0 <= j < i && DecodeBase64(base64[4 * j..4 * j + 4]) < 0
      invariant !bad ==> base64[..4 * i] == Groups(key[..], i)
    {
      ghost var before := key[..];
      var val := DecodeBase64(base64[4 * i..4 * i + 4]);
      bad := bad || val < 0;
      key[3 * i], key[3 * i + 1], key[3 * i + 2] := Byte2(val), Byte1(val), Byte0(val);
      if !bad {
        GroupIsEncoding(base64[4 * i..4 * i + 4]);
        GroupsPrefix(before, key[..], i);
        assert base64[..4 * i + 4] == base64[..4 * i] + base64[4 * i..4 * i + 4];
      }
      i := i + 1;
    }
    ghost var before := key[..];
    var last := base64[40..43] + ['A' as int];
    var val := DecodeBase64(last);
    bad := bad || val < 0 || val % 0x100 != 0;
    key[3 * i], key[3 * i + 1] := Byte2(val), Byte1(val);
    ok := !bad;
    if ok {
      GroupIsEncoding(last);
      GroupsPrefix(before, key[..], 10);
      assert base64 == base64[..40] + last[..3] + ['=' as int];
      assert Encoded(key[..]) == base64;
    } else {
      BadIsNone(base64);
    }
  }

  lemma NotEncoding(s: seq<ch>)
    requires |s| != WG_KEY_LEN_BASE64 - 1 || s[WG_KEY_LEN_BASE64 - 2] != '=' as int
    ensures !IsEncoding(s)
  {
    forall k: seq<u8> | |k| == WG_KEY_LEN && Encoded(k) == s ensures false {
      EncodingDecodes(k);
    }
  }

  lemma BadIsNone(s: seq<ch>)
    requires |s| == WG_KEY_LEN_BASE64 - 1
    requires var val := DecodeBase64(s[40..43] + ['A' as int]);
             val < 0 || val % 0x100 != 0 || exists j :: 0 <= j < 10 && DecodeBase64(s[4 * j..4 * j + 4]) < 0
    ensures !IsEncoding(s)
  {
    forall k: seq<u8> | |k| == WG_KEY_LEN && Encoded(k) == s ensures false {
      EncodingDecodes(k);
    }
  }

  /** Different keys have different texts, so the key recovered from a key's text is that key. */
  lemma EncodedInjective(k: seq<u8>, k': seq<u8>)
    requires |k| == |k'| == WG_KEY_LEN && Encoded(k) == Encoded(k')
    ensures k == k'
  {
    hide EncodeBase64, DecodeBase64, Encoded, Value;
    forall j | 0 <= j < 10 ensures k[3 * j] == k'[3 * j] && k[3 * j + 1] == k'[3 * j + 1] && k[3 * j + 2] == k'[3 * j + 2] {
      EncodedGroup(k, j);
      EncodedGroup(k', j);
      GroupRoundTrip(k[3 * j], k[3 * j + 1], k[3 * j + 2]);
      GroupRoundTrip(k'[3 * j], k'[3 * j + 1], k'[3 * j + 2]);
      SameValue(k[3 * j], k[3 * j + 1], k[3 * j + 2], k'[3 * j], k'[3 * j + 1], k'[3 * j + 2]);
    }
    EncodedLast(k);
    EncodedLast(k');
    GroupRoundTrip(k[30], k[31], 0);
    GroupRoundTrip(k'[30], k'[31], 0);
    SameValue(k[30], k[31], 0, k'[30], k'[31], 0);
    forall i | 0 <= i < WG_KEY_LEN ensures k[i] == k'[i] {
      var j := i / 3;
      assert i == 3 * j || i == 3 * j + 1 || i == 3 * j + 2;
    }
  }

  lemma SameValue(a: u8, b: u8, c: u8, a': u8, b': u8, c': u8)
    requires Value(a, b, c) == Value(a', b', c')
    ensures a == a' && b == b' && c == c'
  {
    Bytes(a, b, c);
    Bytes(a', b', c');
  }

  /** Writing a key and reading it back. */
  method Base64RoundTrip(key: seq<u8>) returns (ok: bool, back: seq<u8>)
    requires |key| == WG_KEY_LEN
    ensures ok && back == key
  {
    hide Encoded;
    var text := new ch[WG_KEY_LEN_BASE64];
    var k := new u8[WG_KEY_LEN];
    KeyToBase64(text, key);
    ok := KeyFromBase64(k, text[..WG_KEY_LEN_BASE64 - 1]);
    assert IsEncoding(Encoded(key));
    back := k[..];
    EncodedInjective(back, key);
  }
}
