/**
 Addresses as byte strings and as bit strings.

 A byte is its eight bits, most significant first, and a machine word is the bits of its
 bytes in big-endian order.  The routing table compares addresses through whole words (a XOR
 and a count of leading zeros), selects a branch with one shift of one byte, and masks a
 prefix byte by byte.  Each operation is defined here in the form the table uses and proved to
 mean what it should on the bit string of the whole address.
 */
module AddressBits {

  type BitString = seq<bool>
  type Byte = b: BitString | |b| == 8 witness [false, false, false, false, false, false, false, false]
  type Bytes = seq<Byte>

  const IPV4_LEN := 4
  const IPV6_LEN := 16

  // ---------------------------------------------------------------- bit strings

  /** The bit string of an address, in network order. */
  function Bits(bs: Bytes): (s: BitString)
    ensures |s| == 8 * |bs|
  {
    if bs == [] then [] else bs[0] + Bits(bs[1..])
  }

  lemma {:induction false} BitsAt(bs: Bytes, i: nat)
    requires i < 8 * |bs|
    ensures Bits(bs)[i] == bs[i / 8][i % 8]
  {
    if i >= 8 {
      BitsAt(bs[1..], i - 8);
    }
  }

  lemma {:induction false} BitsConcat(a: Bytes, b: Bytes)
    ensures Bits(a + b) == Bits(a) + Bits(b)
  {
    if a == [] {
      assert a + b == b;
    } else {
      assert (a + b)[1..] == a[1..] + b;
      BitsConcat(a[1..], b);
    }
  }

  /** The length of the longest common prefix of two bit strings. */
  function CommonPrefix(a: BitString, b: BitString): (n: nat)
    ensures n <= |a| && n <= |b|
    ensures a[..n] == b[..n]
    ensures n < |a| && n < |b| ==> a[n] != b[n]
  {
    if a == [] || b == [] || a[0] != b[0] then 0
    else
      var n := CommonPrefix(a[1..], b[1..]);
      assert a[..n + 1] == [a[0]] + a[1..][..n] && b[..n + 1] == [b[0]] + b[1..][..n];
      n + 1
  }

  lemma {:induction false} CommonPrefixIsLongest(a: BitString, b: BitString, k: nat)
    requires k <= |a| && k <= |b|
    ensures CommonPrefix(a, b) >= k <==> a[..k] == b[..k]
  {
    var n := CommonPrefix(a, b);
    if n >= k {
      assert a[..k] == a[..n][..k] && b[..k] == b[..n][..k];
    } else {
      assert a[..k][n] != b[..k][n];
    }
  }

  lemma SameBranch(a: BitString, b: BitString, c: BitString)
    requires a < b && a < c && b[|a|] == c[|a|]
    ensures b[..|a| + 1] == c[..|a| + 1]
  {
    assert b[..|a| + 1] == a + [b[|a|]] && c[..|a| + 1] == a + [c[|a|]];
  }

  /** Two prefixes, the first not covering the second, part at the end of the common prefix of their addresses. */
  lemma PrefixesPart(a: BitString, d: nat, s: BitString, k: nat, m: nat)
    requires |a| == |s| && m <= d <= |a| && m <= k <= |s| && a[..m] == s[..m] && !(a[..d] <= s[..k])
    ensures var c := CommonPrefix(a, s);
            if c >= k then s[..k] < a[..d]
            else m <= c < d && s[..c] < s[..k] && s[..c] < a[..d] && s[..k][c] != a[..d][c]
  {
    var c := CommonPrefix(a, s);
    CommonPrefixIsLongest(a, s, m);
    CommonPrefixIsLongest(a, s, k);
    CommonPrefixIsLongest(a, s, d);
    if d <= k { assert s[..k][..d] == s[..d]; }
    if k <= d { assert a[..d][..k] == a[..k]; }
    if c < k && c < d { assert s[..k][..c] == s[..c] && a[..d][..c] == a[..c]; }
  }

  lemma {:induction false} CommonPrefixAppend(a: BitString, b: BitString, c: BitString, d: BitString)
    requires |a| == |b|
    ensures CommonPrefix(a + c, b + d) == if a == b then |a| + CommonPrefix(c, d) else CommonPrefix(a, b)
  {
    if a == [] {
      assert a + c == c && b + d == d;
    } else if a[0] == b[0] {
      assert (a + c)[1..] == a[1..] + c && (b + d)[1..] == b[1..] + d;
      CommonPrefixAppend(a[1..], b[1..], c, d);
      assert a == [a[0]] + a[1..] && b == [b[0]] + b[1..];
    } else {
      assert (a + c)[0] == a[0] && (b + d)[0] == b[0];
    }
  }

  // ---------------------------------------------------------------- machine words

  function LeadingZeros(word: BitString): nat {
    if word == [] || word[0] then 0 else 1 + LeadingZeros(word[1..])
  }

  function Xor(a: BitString, b: BitString): (s: BitString)
    requires |a| == |b|
  {
    seq(|a|, i requires 0 <= i < |a| => a[i] != b[i])
  }

  function And(a: Byte, b: Byte): Byte {
    seq(8, i requires 0 <= i < 8 => a[i] && b[i])
  }

  /** (b >> shift) & 1. */
  function ShiftRightAnd1(b: Byte, shift: nat): nat
    requires shift < 8
  {
    if b[7 - shift] then 1 else 0
  }

  function Uint32(b: Bytes): BitString
    requires |b| == 4
  {
    var first: BitString := b[0];
    first + b[1] + b[2] + b[3]
  }

  function Uint64(b: Bytes): BitString
    requires |b| == 8
  {
    Uint32(b[..4]) + Uint32(b[4..])
  }

  predicate IsZeroWord(word: BitString) {
    forall i :: 0 <= i < |word| ==> !word[i]
  }

  lemma {:induction false} LeadingZerosOfXor(a: BitString, b: BitString)
    requires |a| == |b|
    ensures LeadingZeros(Xor(a, b)) == CommonPrefix(a, b)
  {
    if a != [] {
      assert Xor(a, b)[1..] == Xor(a[1..], b[1..]);
      LeadingZerosOfXor(a[1..], b[1..]);
    }
  }

  lemma Uint32Bits(b: Bytes)
    requires |b| == 4
    ensures Uint32(b) == Bits(b)
  {
    assert b == [b[0]] + [b[1]] + [b[2]] + [b[3]];
    BitsConcat([b[0]] + [b[1]] + [b[2]], [b[3]]);
    BitsConcat([b[0]] + [b[1]], [b[2]]);
    BitsConcat([b[0]], [b[1]]);
    assert forall i :: 0 <= i < 4 ==> Bits([b[i]]) == b[i] + Bits([]);
  }

  lemma Uint64Bits(b: Bytes)
    requires |b| == 8
    ensures Uint64(b) == Bits(b)
  {
    Uint32Bits(b[..4]);
    Uint32Bits(b[4..]);
    BitsConcat(b[..4], b[4..]);
    assert b == b[..4] + b[4..];
  }

  // ---------------------------------------------------------------- the operations of the table

  /** The number of leading bits two addresses of one family share. */
  function CommonBits(ip1: Bytes, ip2: Bytes): (n: nat)
    requires |ip1| == |ip2| && |ip1| in {IPV4_LEN, IPV6_LEN}
    ensures n == CommonPrefix(Bits(ip1), Bits(ip2))
  {
    if |ip1| == IPV4_LEN then
      Uint32Bits(ip1); Uint32Bits(ip2);
      LeadingZerosOfXor(Uint32(ip1), Uint32(ip2));
      LeadingZeros(Xor(Uint32(ip1), Uint32(ip2)))
    else
      CommonBits128(ip1, ip2);
      var x := Xor(Uint64(ip1[..8]), Uint64(ip2[..8]));
      if !IsZeroWord(x) then LeadingZeros(x)
      else 64 + LeadingZeros(Xor(Uint64(ip1[8..]), Uint64(ip2[8..])))
  }

  lemma CommonBits128(a: Bytes, b: Bytes)
    requires |a| == 16 && |b| == 16
    ensures var x := Xor(Uint64(a[..8]), Uint64(b[..8]));
            (if !IsZeroWord(x) then LeadingZeros(x) else 64 + LeadingZeros(Xor(Uint64(a[8..]), Uint64(b[8..]))))
            == CommonPrefix(Bits(a), Bits(b))
  {
    var a1, a2, b1, b2 := Bits(a[..8]), Bits(a[8..]), Bits(b[..8]), Bits(b[8..]);
    Uint64Bits(a[..8]); Uint64Bits(a[8..]); Uint64Bits(b[..8]); Uint64Bits(b[8..]);
    LeadingZerosOfXor(a1, b1);
    LeadingZerosOfXor(a2, b2);
    assert a == a[..8] + a[8..] && b == b[..8] + b[8..];
    BitsConcat(a[..8], a[8..]);
    BitsConcat(b[..8], b[8..]);
    CommonPrefixAppend(a1, b1, a2, b2);
    assert IsZeroWord(Xor(a1, b1)) <==> a1 == b1 by {
      forall i | 0 <= i < 64 ensures Xor(a1, b1)[i] == (a1[i] != b1[i]) {}
    }
  }

  /** The bit of an address that a node branches on, through the node's stored byte and shift. */
  function Choose(ip: Bytes, bitAtByte: nat, bitAtShift: nat): (bit: nat)
    requires bitAtByte < |ip| && bitAtShift < 8
    ensures bit == if Bits(ip)[8 * bitAtByte + 7 - bitAtShift] then 1 else 0
  {
    BitsAt(ip, 8 * bitAtByte + 7 - bitAtShift);
    ShiftRightAnd1(ip[bitAtByte], bitAtShift)
  }

  /** The byte of an address mask: cidr ones followed by zeros. */
  function MaskByte(cidr: nat, i: nat): Byte {
    seq(8, j requires 0 <= j < 8 => 8 * i + j < cidr)
  }

  function Masked(bits: Bytes, cidr: nat): (r: Bytes)
    ensures |r| == |bits|
    ensures forall i :: 0 <= i < 8 * |bits| ==> Bits(r)[i] == (Bits(bits)[i] && i < cidr)
    ensures cidr <= 8 * |bits| ==> Bits(r)[..cidr] == Bits(bits)[..cidr]
  {
    var r: Bytes := seq(|bits|, i requires 0 <= i < |bits| => And(bits[i], MaskByte(cidr, i)));
    MaskedBits(bits, cidr, r);
    r
  }

  lemma MaskedBits(bits: Bytes, cidr: nat, r: Bytes)
    requires |r| == |bits|
    requires forall i :: 0 <= i < |bits| ==> r[i] == And(bits[i], MaskByte(cidr, i))
    ensures forall i :: 0 <= i < 8 * |bits| ==> Bits(r)[i] == (Bits(bits)[i] && i < cidr)
    ensures cidr <= 8 * |bits| ==> Bits(r)[..cidr] == Bits(bits)[..cidr]
  {
    forall i | 0 <= i < 8 * |bits|
      ensures Bits(r)[i] == (Bits(bits)[i] && i < cidr)
    {
      BitsAt(r, i);
      BitsAt(bits, i);
    }
  }
}
