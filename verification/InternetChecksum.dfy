/**
 The Internet checksum.  The source adds the data eight bytes at a time, in the byte order of
 the machine, with an end-around carry, and folds the 64-bit result down to 16 bits at the
 end.  This module proves, for both byte orders, that the result is the 16-bit one's-complement
 sum that RFC 1071 defines over big-endian 16-bit words.
 */
module InternetChecksum {

  type u8 = x: int | 0 <= x < 0x100
  type u16 = x: int | 0 <= x < 0x1_0000
  type u64 = x: int | 0 <= x < 0x1_0000_0000_0000_0000

  const WORD := 0x1_0000_0000_0000_0000

  /** The 16-bit word of two bytes in network order. */
  function Pair(hi: u8, lo: u8): u16 {
    0x100 * (hi as int) + lo as int
  }

  // ---------------------------------------------------------------- the reference

  /** One's-complement addition of 16-bit words: a carry out of the top is added back at the bottom. */
  function OnesAdd(x: u16, y: u16): u16 {
    if x + y > 0xffff then x + y - 0xffff else x + y
  }

  /** The one's-complement sum of the big-endian words of a byte string, an odd last byte padded with zero. */
  function OnesSum(b: seq<u8>): u16 {
    if |b| == 0 then 0
    else if |b| == 1 then Pair(b[0], 0)
    else OnesAdd(Pair(b[0], b[1]), OnesSum(b[2..]))
  }

  // ---------------------------------------------------------------- plain sums

  /** The sum of the words without any carry. */
  function Sum(b: seq<u8>): nat {
    if |b| == 0 then 0
    else if |b| == 1 then Pair(b[0], 0)
    else Pair(b[0], b[1]) + Sum(b[2..])
  }

  /** The 16-bit one's-complement representative of a number: 0 only for 0 itself. */
  function Fold(n: nat): (r: u16)
  {
    if n == 0 then 0 else (n - 1) % 0xffff + 1
  }

  lemma FoldAdd(m: nat, n: nat)
    ensures Fold(m + n) == OnesAdd(Fold(m), Fold(n))
  {
  }

  lemma FoldChain(m: nat, n: nat, k: nat)
    requires Fold(m) == Fold(n)
    ensures Fold(m + k) == Fold(n + k)
  {
    FoldAdd(m, k);
    FoldAdd(n, k);
  }

  lemma FoldSmall(x: u16)
    ensures Fold(x) == x
  {
  }

  /** The reference sum is the representative of the plain sum. */
  lemma {:induction false} OnesSumIsFold(b: seq<u8>)
    ensures OnesSum(b) == Fold(Sum(b))
  {
    hide Pair;
    if |b| == 1 {
      FoldSmall(Pair(b[0], 0));
    } else if |b| >= 2 {
      OnesSumIsFold(b[2..]);
      FoldAdd(Pair(b[0], b[1]), Sum(b[2..]));
      FoldSmall(Pair(b[0], b[1]));
    }
  }

  lemma {:induction false} SumAppend(a: seq<u8>, b: seq<u8>)
    requires |a| % 2 == 0
    ensures Sum(a + b) == Sum(a) + Sum(b)
  {
    if a == [] {
      assert a + b == b;
    } else {
      assert (a + b)[2..] == a[2..] + b;
      SumAppend(a[2..], b);
    }
  }

  lemma SumPair(hi: u8, lo: u8)
    ensures Sum([hi, lo]) == Pair(hi, lo)
  {
    assert [hi, lo][2..] == [];
  }

  /** Numbers that differ by a multiple of 2^16 - 1 and are zero together have the same representative. */
  lemma FoldSame(m: nat, n: nat, q: int)
    requires m == n + 0xffff * q && (m == 0 <==> n == 0)
    ensures Fold(m) == Fold(n)
  {
    if m > 0 {
      var k := (n - 1) / 0xffff;
      assert m - 1 == 0xffff * (k + q) + (n - 1) % 0xffff;
    }
  }

  // ---------------------------------------------------------------- byte orders

  function Little(b: seq<u8>): nat {
    if b == [] then 0 else (b[0] as int) + 0x100 * Little(b[1..])
  }

  function Big(b: seq<u8>): nat {
    if b == [] then 0 else 0x100 * Big(b[..|b| - 1]) + b[|b| - 1] as int
  }

  /** A word read in the machine's byte order. */
  function Native(b: seq<u8>, little: bool): nat {
    if little then Little(b) else Big(b)
  }

  /** What a change of byte order does to a sum: it multiplies it by 2^8. */
  function Scale(little: bool): nat { if little then 0x100 else 1 }

  /** A word in machine order is the scaled sum of its 16-bit words, up to a multiple of 2^16 - 1. */
  lemma {:induction false} NativeWord(b: seq<u8>, little: bool) returns (q: int)
    requires |b| % 2 == 0
    ensures Native(b, little) == Scale(little) * Sum(b) + 0xffff * q
    ensures Native(b, little) == 0 <==> Sum(b) == 0
  {
    if b == [] {
      q := 0;
    } else if little {
      LittlePairs(b);
      q := NativeWord(b[2..], true);
      q := q + Little(b[2..]) - b[0] as int;
    } else {
      BigPairs(b);
      q := NativeWord(b[..|b| - 2], false);
      q := q + Big(b[..|b| - 2]);
    }
  }

  lemma LittlePairs(b: seq<u8>)
    requires |b| >= 2
    ensures Little(b) == (b[0] as int) + 0x100 * (b[1] as int) + 0x1_0000 * Little(b[2..])
    ensures Sum(b) == Pair(b[0], b[1]) + Sum(b[2..])
  {
    assert b[1..][1..] == b[2..];
  }

  lemma BigPairs(b: seq<u8>)
    requires |b| >= 2 && |b| % 2 == 0
    ensures var n := |b|;
            Big(b) == 0x1_0000 * Big(b[..n - 2]) + Pair(b[n - 2], b[n - 1]) && Sum(b) == Sum(b[..n - 2]) + Pair(b[n - 2], b[n - 1])
  {
    hide Big, Sum, Pair;
    var n := |b|;
    BigTwice(b);
    var last := b[n - 2..];
    assert b == b[..n - 2] + last && last == [b[n - 2], b[n - 1]];
    SumAppend(b[..n - 2], last);
    SumPair(b[n - 2], b[n - 1]);
  }

  lemma BigTwice(b: seq<u8>)
    requires |b| >= 2
    ensures Big(b) == 0x1_0000 * Big(b[..|b| - 2]) + Pair(b[|b| - 2], b[|b| - 1])
  {
    var n := |b|;
    assert b[..n - 1][..n - 2] == b[..n - 2];
    assert Big(b[..n - 1]) == 0x100 * Big(b[..n - 2]) + b[n - 2] as int;
  }

  function Pow256(n: nat): nat { if n == 0 then 1 else 0x100 * Pow256(n - 1) }

  lemma {:induction false} BigBound(b: seq<u8>)
    ensures Big(b) < Pow256(|b|)
  {
    if b != [] { BigBound(b[..|b| - 1]); }
  }

  lemma {:induction false} LittleBound(b: seq<u8>)
    ensures Little(b) < Pow256(|b|)
  {
    if b != [] { LittleBound(b[1..]); }
  }

  lemma NativeBound(b: seq<u8>, little: bool)
    requires |b| <= 8
    ensures Native(b, little) < WORD
  {
    BigBound(b);
    LittleBound(b);
    assert forall i: nat {:trigger Pow256(i)} :: i <= 8 ==> Pow256(i) <= Pow256(8) == WORD by {
      assert Pow256(4) == 0x1_0000_0000;
      assert Pow256(8) == WORD;
    }
  }

  /** The bytes of a number, least significant first. */
  function LittleBytes(x: nat, n: nat): (b: seq<u8>)
    ensures |b| == n
  {
    if n == 0 then [] else [x % 0x100] + LittleBytes(x / 0x100, n - 1)
  }

  lemma {:induction false} LittleOfBytes(x: nat, n: nat)
    requires x < Pow256(n)
    ensures Little(LittleBytes(x, n)) == x
  {
    if n > 0 { LittleOfBytes(x / 0x100, n - 1); }
  }

  /** Stores a word in machine order and reads it back in network order. */
  function ToNetwork(x: u64, little: bool): (r: u64)
  {
    NativeBound(LittleBytes(x, 8), false);
    if little then Big(LittleBytes(x, 8)) else x
  }

  lemma ToNetworkScales(x: u64, little: bool) returns (q: int)
    ensures ToNetwork(x, little) == Scale(little) * x + 0xffff * q
    ensures ToNetwork(x, little) == 0 <==> x == 0
  {
    hide LittleBytes, Sum, Big, Little;
    if little {
      var w := LittleBytes(x, 8);
      assert Pow256(8) == WORD by { assert Pow256(4) == 0x1_0000_0000; }
      LittleOfBytes(x, 8);
      var q1 := NativeWord(w, true);
      var q2 := NativeWord(w, false);
      q := q2 - Sum(w) - 0x100 * q1;
    } else {
      q := 0;
    }
  }

  // ---------------------------------------------------------------- the algorithm

  function Add64(x: u64, y: u64, carry: nat): (u64, nat)
    requires carry <= 1
  {
    ((x + y + carry) % WORD, (x + y + carry) / WORD)
  }

  /** What a chain of additions stands for after the bytes of b. */
  ghost predicate Chained64(r: nat, ac: u64, b: seq<u8>, little: bool, q: int) {
    && r < WORD && r == ac + Scale(little) * Sum(b) + 0xffff * q
    && (r == 0 <==> ac == 0 && Sum(b) == 0)
  }

  lemma ChainNone(ac: u64, b: seq<u8>, little: bool)
    ensures Chained64(ac, ac, b[..0], little, 0)
  {
    assert Sum(b[..0]) == 0;
  }

  /** Adding a word with its carry loses a multiple of 2^64 - 1, and so one of 2^16 - 1. */
  lemma ChainWord(r: u64, carry: nat, ac: u64, b: seq<u8>, word: seq<u8>, little: bool, q: int, q': int)
    requires carry <= 1 && Chained64(r + carry, ac, b, little, q) && |b| % 2 == 0
    requires Native(word, little) < WORD && Native(word, little) == Scale(little) * Sum(word) + 0xffff * q'
    requires Native(word, little) == 0 <==> Sum(word) == 0
    ensures var (sum, c) := Add64(r, Native(word, little), carry);
            c <= 1 && Chained64(sum + c, ac, b + word, little, q + q' - c * 0x1_0001_0001_0001)
  {
    hide Sum, Native;
    SumAppend(b, word);
    var (sum, c) := Add64(r, Native(word, little), carry);
    assert sum + c == r + carry + Native(word, little) - c * (WORD - 1);
  }

  /** An unrolled chain of additions over some 8-byte words; the closing addition of the carry cannot overflow. */
  method AddWords(ac: u64, b: seq<u8>, words: nat, little: bool) returns (r: u64, ghost q: int)
    requires |b| >= 8 * words
    ensures r == ac + Scale(little) * Sum(b[..8 * words]) + 0xffff * q
    ensures r == 0 <==> ac == 0 && Sum(b[..8 * words]) == 0
  {
    hide Sum, Native, Scale, Add64;
    r, q := ac, 0;
    var carry := 0;
    ChainNone(ac, b, little);
    for i := 0 to words
      invariant 0 <= carry <= 1 && Chained64(r + carry, ac, b[..8 * i], little, q)
    {
      var word := b[8 * i..8 * i + 8];
      NativeBound(word, little);
      ghost var q' := NativeWord(word, little);
      ChainWord(r, carry, ac, b[..8 * i], word, little, q, q');
      assert b[..8 * (i + 1)] == b[..8 * i] + word;
      var (sum, c) := Add64(r, Native(word, little), carry);
      q := q + q' - c * 0x1_0001_0001_0001;
      r, carry := sum, c;
    }
    r := r + carry;
  }

  /** One addition of a short word with its carry. */
  method AddShort(ac: u64, b: seq<u8>, little: bool) returns (r: u64, ghost q: int)
    requires |b| % 2 == 0 && |b| <= 8
    ensures r == ac + Scale(little) * Sum(b) + 0xffff * q
    ensures r == 0 <==> ac == 0 && Sum(b) == 0
  {
    NativeBound(b, little);
    ghost var q' := NativeWord(b, little);
    var (sum, carry) := Add64(ac, Native(b, little), 0);
    q := q' - carry * 0x1_0001_0001_0001;
    r := sum + carry;
  }

  /** The accumulator stands for the initial value and the first k bytes. */
  ghost predicate Accumulates(ac: u64, little: bool, initial: u64, b: seq<u8>, k: nat, q: int)
    requires k <= |b|
  {
    && ac == Scale(little) * (initial + Sum(b[..k])) + 0xffff * q
    && (ac == 0 <==> initial == 0 && Sum(b[..k]) == 0)
  }

  lemma Advance(ac: u64, ac': u64, little: bool, initial: u64, b: seq<u8>, k: nat, n: nat, q: int, q': int)
    requires k % 2 == 0 && k + n <= |b| && Accumulates(ac, little, initial, b, k, q)
    requires ac' == ac + Scale(little) * Sum(b[k..][..n]) + 0xffff * q' && (ac' == 0 <==> ac == 0 && Sum(b[k..][..n]) == 0)
    ensures Accumulates(ac', little, initial, b, k + n, q + q')
  {
    assert b[..k + n] == b[..k] + b[k..][..n];
    SumAppend(b[..k], b[k..][..n]);
  }

  /** Adds the chunks of one size of the ladder, if there is a whole one left. */
  method Rung(ac: u64, rest: seq<u8>, words: nat, little: bool, ghost initial: u64, ghost b: seq<u8>, ghost k: nat, ghost q: int)
    returns (ac': u64, rest': seq<u8>, ghost k': nat, ghost q': int)
    requires k <= |b| && rest == b[k..] && k % 2 == 0 && Accumulates(ac, little, initial, b, k, q) && words > 0
    ensures k <= k' <= |b| && rest' == b[k'..] && k' % 2 == 0 && Accumulates(ac', little, initial, b, k', q')
    ensures if |rest| >= 8 * words then |rest'| == |rest| - 8 * words else |rest'| == |rest|
  {
    hide Accumulates, Sum, Scale;
    if |rest| >= 8 * words {
      ghost var d;
      ac', d := AddWords(ac, rest, words, little);
      Advance(ac, ac', little, initial, b, k, 8 * words, q, d);
      rest', k', q' := rest[8 * words..], k + 8 * words, q + d;
    } else {
      ac', rest', k', q' := ac, rest, k, q;
    }
  }

  /** A rung of four or two bytes. */
  method ShortRung(ac: u64, rest: seq<u8>, n: nat, little: bool, ghost initial: u64, ghost b: seq<u8>, ghost k: nat, ghost q: int)
    returns (ac': u64, rest': seq<u8>, ghost k': nat, ghost q': int)
    requires k <= |b| && rest == b[k..] && k % 2 == 0 && Accumulates(ac, little, initial, b, k, q) && (n == 2 || n == 4)
    ensures k <= k' <= |b| && rest' == b[k'..] && k' % 2 == 0 && Accumulates(ac', little, initial, b, k', q')
    ensures if |rest| >= n then |rest'| == |rest| - n else |rest'| == |rest|
  {
    hide Accumulates;
    if |rest| >= n {
      ghost var d;
      ac', d := AddShort(ac, rest[..n], little);
      Advance(ac, ac', little, initial, b, k, n, q, d);
      rest', k', q' := rest[n..], k + n, q + d;
    } else {
      ac', rest', k', q' := ac, rest, k, q;
    }
  }

  /** A byte that is left over counts as the first byte of a word. */
  method LastByte(ac: u64, rest: seq<u8>, little: bool, ghost initial: u64, ghost b: seq<u8>, ghost k: nat, ghost q: int)
    returns (ac': u64, ghost q': int)
    requires k <= |b| && rest == b[k..] && k % 2 == 0 && Accumulates(ac, little, initial, b, k, q) && |rest| < 2
    ensures Accumulates(ac', little, initial, b, |b|, q')
  {
    hide Accumulates;
    if |rest| == 1 {
      ghost var d;
      ac', d := AddShort(ac, [rest[0], 0], little);
      assert [rest[0], 0][2..] == [] && rest[..1] == rest;
      assert Sum([rest[0], 0]) == Sum(rest[..1]);
      Advance(ac, ac', little, initial, b, k, 1, q, d);
      q' := q + d;
    } else {
      ac', q' := ac, q;
    }
  }

  method ChecksumNoFold(b: seq<u8>, initial: u64, little: bool) returns (r: u64)
    ensures Fold(r) == Fold(initial + Sum(b))
  {
    hide Accumulates, Fold, Sum;
    var ac := ToNetwork(initial, little);
    ghost var q := Started(ac, initial, b, little);
    var rest := b;
    ghost var k := 0;
    while |rest| >= 128
      invariant k <= |b| && rest == b[k..] && k % 2 == 0 && Accumulates(ac, little, initial, b, k, q)
    {
      ac, rest, k, q := Rung(ac, rest, 16, little, initial, b, k, q);
    }
    ac, rest, k, q := Rung(ac, rest, 8, little, initial, b, k, q);
    ac, rest, k, q := Rung(ac, rest, 4, little, initial, b, k, q);
    ac, rest, k, q := Rung(ac, rest, 2, little, initial, b, k, q);
    ac, rest, k, q := Rung(ac, rest, 1, little, initial, b, k, q);
    ac, rest, k, q := ShortRung(ac, rest, 4, little, initial, b, k, q);
    ac, rest, k, q := ShortRung(ac, rest, 2, little, initial, b, k, q);
    ac, q := LastByte(ac, rest, little, initial, b, k, q);
    r := ToNetwork(ac, little);
    Finished(ac, initial, b, little, q);
  }

  lemma Started(ac: u64, initial: u64, b: seq<u8>, little: bool) returns (q: int)
    requires ac == ToNetwork(initial, little)
    ensures Accumulates(ac, little, initial, b, 0, q)
  {
    q := ToNetworkScales(initial, little);
  }

  lemma Finished(ac: u64, initial: u64, b: seq<u8>, little: bool, q: int)
    requires Accumulates(ac, little, initial, b, |b|, q)
    ensures Fold(ToNetwork(ac, little)) == Fold(initial + Sum(b))
  {
    var d := ToNetworkScales(ac, little);
    assert b[..|b|] == b;
    var total := initial + Sum(b);
    FoldSame(ToNetwork(ac, little), total, d + if little then total + 0x100 * q else q);
  }

  method Checksum(b: seq<u8>, initial: u64, little: bool) returns (r: u16)
    ensures r == Fold(initial + Sum(b))
  {
    var n := ChecksumNoFold(b, initial, little);
    var ac: nat := n;
    ac := ac / 0x1_0000 + ac % 0x1_0000;
    ac := ac / 0x1_0000 + ac % 0x1_0000;
    ac := ac / 0x1_0000 + ac % 0x1_0000;
    ac := ac / 0x1_0000 + ac % 0x1_0000;
    FourFolds(n);
    r := ac;
  }

  function FoldOnce(n: nat): nat { n / 0x1_0000 + n % 0x1_0000 }

  /** Four foldings bring any 64-bit sum down to its 16-bit representative. */
  lemma FourFolds(n: u64)
    ensures FoldOnce(FoldOnce(FoldOnce(FoldOnce(n)))) == Fold(n)
  {
    FoldOnceSame(n);
    FoldOnceSame(FoldOnce(n));
    FoldOnceSame(FoldOnce(FoldOnce(n)));
    FoldOnceSame(FoldOnce(FoldOnce(FoldOnce(n))));
    assert FoldOnce(n) <= 0x1_0000_0000_fffe;
    assert FoldOnce(FoldOnce(n)) <= 0x1_0000_fffe;
    assert FoldOnce(FoldOnce(FoldOnce(n))) <= 0x1_fffe;
    FoldSmall(FoldOnce(FoldOnce(FoldOnce(FoldOnce(n)))));
  }

  lemma FoldOnceSame(n: nat)
    ensures Fold(FoldOnce(n)) == Fold(n)
  {
    FoldSame(FoldOnce(n), n, -(n / 0x1_0000));
  }

  /** A zero sum arises only from all-zero data. */
  lemma {:induction false} SumZero(b: seq<u8>)
    ensures Fold(Sum(b)) == 0 <==> AllZero(b)
  {
    hide Fold;
    if |b| >= 2 {
      assert b[1..][1..] == b[2..];
      SumZero(b[2..]);
      FoldZero(Sum(b[2..]));
    }
    FoldZero(Sum(b));
  }

  lemma FoldZero(n: nat)
    ensures Fold(n) == 0 <==> n == 0
  {
  }

  predicate AllZero(b: seq<u8>) {
    b == [] || (b[0] == 0 && AllZero(b[1..]))
  }

  /** On either byte order, the checksum from 0 is the reference one's-complement sum. */
  method ChecksumIsOnesSum(b: seq<u8>, little: bool) returns (r: u16)
    ensures r == OnesSum(b)
  {
    OnesSumIsFold(b);
    r := Checksum(b, 0, little);
  }

  /** Summing a string after an even-length one equals summing them as one. */
  method Chained(a: seq<u8>, b: seq<u8>, initial: u64, little: bool) returns (twoPasses: u16, onePass: u16)
    requires |a| % 2 == 0
    ensures twoPasses == onePass
  {
    hide Fold, Sum;
    var first := ChecksumNoFold(a, initial, little);
    twoPasses := Checksum(b, first, little);
    onePass := Checksum(a + b, initial, little);
    SumAppend(a, b);
    FoldChain(first, initial + Sum(a), Sum(b));
  }

  method PseudoHeaderChecksumNoFold(protocol: u8, src: seq<u8>, dst: seq<u8>, totalLen: u16, little: bool) returns (r: u64)
    ensures Fold(r) == Fold(Sum(src) + Sum(dst) + protocol + totalLen)
  {
    hide Fold, Sum;
    r := ChecksumNoFold(src, 0, little);
    FoldChain(r, Sum(src), Sum(dst));
    r := ChecksumNoFold(dst, r, little);
    SumPair(0, protocol);
    FoldChain(r, Sum(src) + Sum(dst), protocol);
    r := ChecksumNoFold([0, protocol], r, little);
    var hi, lo := totalLen / 0x100, totalLen % 0x100;
    SumPair(hi, lo);
    FoldChain(r, Sum(src) + Sum(dst) + protocol, totalLen);
    r := ChecksumNoFold([hi, lo], r, little);
  }
}
