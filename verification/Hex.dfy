/**
 Keys as hexadecimal text, on bytes as bit vectors, computed without branches on the key.
 */
module Hex {
  const WG_KEY_LEN := 32
  const WG_KEY_LEN_HEX := 65

  /** The value of a hexadecimal digit of either case: section 8 of RFC 4648. */
  ghost predicate IsDigit(c: bv8) { 48 <= c <= 57 || 65 <= c <= 70 || 97 <= c <= 102 }

  ghost function DigitValue(c: bv8): bv8
    requires IsDigit(c)
  {
    if c <= 57 then c - 48 else if c <= 70 then c - 55 else c - 87
  }

  /** The low byte of a 32-bit number. */
  function Low(x: bv32): bv8 { (x & 0xff) as bv8 }

  /** One digit, in lower case. */
  function EncodeDigit(n: bv8): (c: bv8)
    requires n < 16
    ensures IsDigit(c) && DigitValue(c) == n && !(65 <= c <= 70)
  {
    Low(87 + (n as bv32) + ((((n as bv32) - 10) >> 8) & !38))
  }

  /** The masks of one character: a decimal digit, a letter, neither. */
  function NumMask(c: bv8): bv8 { Low((((c ^ 48) as bv32) - 10) >> 8) }
  function Alpha(c: bv8): bv8 { (c & !32) - 55 }
  function AlphaMask(c: bv8): bv8 { Low((((Alpha(c) as bv32) - 10) ^ ((Alpha(c) as bv32) - 16)) >> 8) }

  function Bad(c: bv8): (r: bv8)
    ensures r == 0 || r == 0xff
    ensures r == 0 <==> IsDigit(c)
  {
    Low((((NumMask(c) | AlphaMask(c)) as bv32) - 1) >> 8)
  }

  function DigitOf(c: bv8): (v: bv8)
    ensures IsDigit(c) ==> v == DigitValue(c)
  {
    (NumMask(c) & (c ^ 48)) | (AlphaMask(c) & Alpha(c))
  }

  // ---------------------------------------------------------------- whole keys

  function HighDigit(b: bv8): bv8 { b >> 4 }
  function LowDigit(b: bv8): bv8 { b & 0xf }

  lemma Digits(b: bv8)
    ensures HighDigit(b) < 16 && LowDigit(b) < 16 && ((HighDigit(b) * 16) | LowDigit(b)) == b
  {
  }

  /** The first n bytes of the key are the first 2 n characters. */
  ghost predicate Spells(hex: seq<bv8>, key: seq<bv8>, n: nat) {
    && 2 * n <= |hex| && n <= |key|
    && forall i {:trigger key[i]} :: 0 <= i < n ==> SpellsByte(hex[2 * i], hex[2 * i + 1], key[i])
  }

  ghost predicate SpellsByte(c: bv8, d: bv8, b: bv8) {
    IsDigit(c) && IsDigit(d) && DigitValue(c) == HighDigit(b) && DigitValue(d) == LowDigit(b)
  }

  /** What is read back from two digits. */
  lemma ByteOf(c: bv8, d: bv8)
    requires IsDigit(c) && IsDigit(d)
    ensures SpellsByte(c, d, (DigitOf(c) * 16) | DigitOf(d))
  {
    hide DigitOf;
    Compose(DigitValue(c), DigitValue(d));
    DigitsAreSmall(c);
    DigitsAreSmall(d);
  }

  lemma DigitsAreSmall(c: bv8)
    requires IsDigit(c)
    ensures DigitValue(c) < 16
  {
  }

  lemma Compose(h: bv8, l: bv8)
    ensures h < 16 && l < 16 ==> HighDigit((h * 16) | l) == h && LowDigit((h * 16) | l) == l
  {
  }

  /** A key's text: 64 digits, in lower case, and a zero. */
  method KeyToHex(hex: array<bv8>, key: seq<bv8>)
    requires hex.Length == WG_KEY_LEN_HEX && |key| == WG_KEY_LEN
    modifies hex
    ensures Spells(hex[..WG_KEY_LEN_HEX - 1], key, WG_KEY_LEN) && hex[WG_KEY_LEN_HEX - 1] == 0
    ensures forall j :: 0 <= j < WG_KEY_LEN_HEX - 1 ==> !(65 <= hex[j] <= 70)
  {
    hide EncodeDigit, HighDigit, LowDigit, IsDigit, DigitValue;
    var i := 0;
    while i < WG_KEY_LEN
      invariant 0 <= i <= WG_KEY_LEN && Spells(hex[..], key, i)
      invariant forall j :: 0 <= j < 2 * i ==> !(65 <= hex[j] <= 70)
    {
      Digits(key[i]);
      hex[i * 2] := EncodeDigit(HighDigit(key[i]));
      hex[i * 2 + 1] := EncodeDigit(LowDigit(key[i]));
      i := i + 1;
    }
    hex[i * 2] := 0;
  }

  /** Accepted are exactly 64 hexadecimal digits of either case, and the key is what they spell. */
  method KeyFromHex(key: array<bv8>, hex: seq<bv8>) returns (ok: bool)
    requires key.Length == WG_KEY_LEN
    modifies key
    ensures ok <==> |hex| == WG_KEY_LEN_HEX - 1 && forall j :: 0 <= j < |hex| ==> IsDigit(hex[j])
    ensures ok ==> Spells(hex, key[..], WG_KEY_LEN)
  {
    hide IsDigit, DigitOf, SpellsByte, Bad;
    if |hex| != WG_KEY_LEN_HEX - 1 {
      return false;
    }
    var ret: bv8 := 0;
    var i := 0;
    while i < WG_KEY_LEN_HEX - 1
      invariant 0 <= i <= 64 && i % 2 == 0
      invariant ret == 0 <==> forall j :: 0 <= j < i ==> IsDigit(hex[j])
      invariant ret == 0 ==> Spells(hex, key[..], i / 2)
    {
      OrZero(ret, Bad(hex[i]), Bad(hex[i + 1]));
      ret := ret | Bad(hex[i]);
      var acc := DigitOf(hex[i]) * 16;
      ret := ret | Bad(hex[i + 1]);
      if ret == 0 {
        ByteOf(hex[i], hex[i + 1]);
      }
      key[i / 2] := acc | DigitOf(hex[i + 1]);
      i := i + 2;
    }
    ok := ret == 0;
  }

  lemma OrZero(a: bv8, b: bv8, c: bv8)
    ensures a | b | c == 0 <==> a == 0 && b == 0 && c == 0
  {
  }

  /** A key's text is read back as that key: two keys one text spells are the same. */
  lemma SpelledOnce(hex: seq<bv8>, k: seq<bv8>, k': seq<bv8>)
    requires |k| == |k'| == WG_KEY_LEN && Spells(hex, k, WG_KEY_LEN) && Spells(hex, k', WG_KEY_LEN)
    ensures k == k'
  {
    hide HighDigit, LowDigit, IsDigit, DigitValue;
    forall i | 0 <= i < WG_KEY_LEN ensures k[i] == k'[i] {
      Digits(k[i]);
      Digits(k'[i]);
    }
  }

  /** Writing a key and reading it back. */
  method HexRoundTrip(key: seq<bv8>) returns (ok: bool, back: seq<bv8>)
    requires |key| == WG_KEY_LEN
    ensures ok && back == key
  {
    hide SpellsByte, IsDigit;
    var text := new bv8[WG_KEY_LEN_HEX];
    var k := new bv8[WG_KEY_LEN];
    KeyToHex(text, key);
    var hex := text[..WG_KEY_LEN_HEX - 1];
    SpelledDigits(hex, key);
    ok := KeyFromHex(k, hex);
    back := k[..];
    SpelledOnce(hex, back, key);
  }

  lemma SpelledDigits(hex: seq<bv8>, key: seq<bv8>)
    requires |key| == WG_KEY_LEN && |hex| == 2 * WG_KEY_LEN && Spells(hex, key, WG_KEY_LEN)
    ensures forall j :: 0 <= j < |hex| ==> IsDigit(hex[j])
  {
    forall j | 0 <= j < |hex| ensures IsDigit(hex[j]) {
      assert SpellsByte(hex[2 * (j / 2)], hex[2 * (j / 2) + 1], key[j / 2]);
    }
  }
}
