/**
 The Montgomery ladder on top of the limb arithmetic, and the whole function of section 5 of RFC 7748.
 The reference is that section's step, written on integers modulo 2^255 - 19.  The code climbs all 256
 bits of the scalar and the RFC 255 of them; that makes no difference to the result.
 */
module Ladder {
  import opened Field25519
  import opened Primes
  import opened Words

  // ---------------------------------------------------------------- the reference

  /** A point by its projective x coordinate. */
  datatype Pair = Pair(x: int, z: int)

  /** One step of section 5 of RFC 7748: doubles p, and adds p and pq, whose difference has coordinate u. */
  ghost function Step(p: Pair, pq: Pair, u: int): (Pair, Pair) {
    var a, b := p.x + p.z, p.x - p.z;
    var aa, bb := a * a, b * b;
    var e := aa - bb;
    var c, d := pq.x + pq.z, pq.x - pq.z;
    var da, cb := d * a, c * b;
    (Pair(aa * bb, e * (aa + 121665 * e)), Pair((da + cb) * (da + cb), u * ((da - cb) * (da - cb))))
  }

  ghost function Modulo(p: Pair): Pair { Pair(p.x % P, p.z % P) }

  /** A step for one bit of the scalar: the points change places before and after if it is set. */
  ghost function BitStep(s: (Pair, Pair), u: int, bit: bool): (Pair, Pair) {
    var r := if bit then Step(s.1, s.0, u) else Step(s.0, s.1, u);
    if bit then (Modulo(r.1), Modulo(r.0)) else (Modulo(r.0), Modulo(r.1))
  }

  /** The ladder over the bits of a scalar, the highest first. */
  ghost function Climb(bits: seq<bool>, u: int): (Pair, Pair) {
    if bits == [] then (Pair(1, 0), Pair(u, 1)) else BitStep(Climb(bits[..|bits| - 1], u), u, bits[|bits| - 1])
  }

  // ---------------------------------------------------------------- arrays and what they stand for

  /** The array stands for v and may be an operand. */
  ghost predicate Val(a: array<u64>, v: int)
    reads a
  {
    a.Length == 5 && Bounded(Of64(a), BOUND) && Same(Eval(Of64(a)), v)
  }

  /** The array stands for v, with limbs near 51 bits. */
  ghost predicate Low(a: array<u64>, v: int)
    reads a
  {
    a.Length == 5 && Bounded(Of64(a), R + 0x2000) && Same(Eval(Of64(a)), v)
  }

  /** The array stands for v, with limbs of at most 52 bits: what scaling by a small number gives. */
  ghost predicate Near(a: array<u64>, v: int)
    reads a
  {
    a.Length == 5 && Bounded(Of64(a), 2 * R) && Same(Eval(Of64(a)), v)
  }

  lemma LowIsVal(a: array<u64>, v: int)
    requires Low(a, v)
    ensures Val(a, v) && Near(a, v)
  {
    hide Eval, Same;
  }

  lemma SameVal(a: array<u64>, v: int, w: int)
    requires Low(a, v) && Same(v, w)
    ensures Low(a, w)
  {
    hide Eval, Same;
    SameTrans(Eval(Of64(a)), v, w);
  }

  method Mul(output: array<u64>, a: array<u64>, b: array<u64>, ghost v: int, ghost w: int)
    requires output.Length == 5 && Val(a, v) && Val(b, w)
    modifies output
    ensures Low(output, v * w) && Val(output, v * w)
  {
    hide Eval, Same;
    ghost var x, y := Eval(Of64(a)), Eval(Of64(b));
    FmulFmul(output, a, b);
    SameMul(x, v, y, w);
    SameTrans(Eval(Of64(output)), x * y, v * w);
  }

  method Square(output: array<u64>, a: array<u64>, ghost v: int)
    requires output.Length == 5 && Val(a, v)
    modifies output
    ensures Low(output, v * v) && Val(output, v * v)
  {
    hide Eval, Same;
    ghost var x := Eval(Of64(a));
    output[0], output[1], output[2], output[3], output[4] := a[0], a[1], a[2], a[3], a[4];
    var t := new u128[5];
    FsquareInPlace(t, output);
    SameMul(x, v, x, v);
    SameTrans(Eval(Of64(output)), x * x, v * v);
  }

  method Sum(a: array<u64>, b: array<u64>, ghost v: int, ghost w: int)
    requires a != b && Near(a, v) && Low(b, w)
    modifies a
    ensures Val(a, v + w)
  {
    hide Eval, Same;
    ghost var x, y := Eval(Of64(a)), Eval(Of64(b));
    Fsum(a, b);
    SameAdd(x, v, y, w);
  }

  /** a becomes b - a. */
  method Difference(a: array<u64>, b: array<u64>, ghost v: int, ghost w: int)
    requires Low(a, v) && Low(b, w)
    modifies a
    ensures Val(a, w - v)
  {
    hide Eval, Same;
    ghost var x: int, y: int := Eval(Of64(a)), Eval(Of64(b));
    Fdifference(a, b);
    DifferenceIs(Eval(Of64(a)), x, y);
    SameSub(y, w, x, v);
    SameTrans(Eval(Of64(a)), y - x, w - v);
  }

  lemma SameSub(x: int, y: int, u: int, v: int)
    requires Same(x, y) && Same(u, v)
    ensures Same(x - u, y - v)
  {
    var a := SameGives(x, y);
    var b := SameGives(u, v);
    SameBy(x - u, y - v, a - b);
  }

  method Copy(dst: array<u64>, src: array<u64>, ghost v: int)
    requires dst.Length == 5 && Low(src, v)
    modifies dst
    ensures Low(dst, v)
  {
    hide Eval, Same;
    dst[0], dst[1], dst[2], dst[3], dst[4] := src[0], src[1], src[2], src[3], src[4];
  }

  // ---------------------------------------------------------------- scaling

  /** The limbs times a small number. */
  lemma EvalScaled(a: Limbs, s: nat)
    ensures Eval(SumScaled(Limbs(0, 0, 0, 0, 0), a, s)) == Eval(a) * s
  {
    EvalSumScaled(Limbs(0, 0, 0, 0, 0), a, s);
  }

  lemma ScaledFits(a: Limbs, s: nat)
    requires Bounded(a, BOUND) && s == 121665
    ensures var t := SumScaled(Limbs(0, 0, 0, 0, 0), a, s);
            Bounded(t, TWO128 / 4) && Carry(t).l4 / R < TWO64 && Bounded(CarryTop(Carry(t)), 2 * R)
  {
  }

  method Scale(output: array<u64>, b: array<u64>, s: u64, ghost v: int)
    requires output.Length == 5 && Val(b, v) && s == 121665
    modifies output
    ensures Near(output, s * v)
  {
    hide Eval, Same, Carry;
    ghost var x, t := Eval(Of64(b)), SumScaled(Limbs(0, 0, 0, 0, 0), Of64(b), s);
    ScaledFits(Of64(b), s);
    EvalScaled(Of64(b), s);
    var tmp := new u128[5];
    tmp[0], tmp[1], tmp[2], tmp[3], tmp[4] := b[0] * s, b[1] * s, b[2] * s, b[3] * s, b[4] * s;
    CarryWide(tmp);
    var b4, b0 := tmp[4], tmp[0];
    var top: u64 := b4 / R;
    tmp[4] := b4 % R;
    tmp[0] := b0 + 19 * top;
    CopyFromWide(output, tmp);
    EvalCarry(t);
    EvalCarryTop(Carry(t));
    SameItself(s);
    SameMul(x, v, s, s);
    assert v * s == s * v;
    SameTrans(Eval(Of64(output)), x * s, s * v);
  }

  // ---------------------------------------------------------------- one step

  /** A point in two arrays. */
  datatype Point = Point(x: array<u64>, z: array<u64>)
  {
    ghost predicate Formed() { x != z && x.Length == 5 && z.Length == 5 }

    ghost function Arrays(): set<array<u64>> { {x, z} }

    ghost predicate Is(p: Pair)
      reads x, z
    {
      x != z && Low(x, p.x) && Low(z, p.z)
    }
  }

  /** Sums, differences and cross products of the two points. */
  method Products(p: Point, pq: Point, cb: array<u64>, da: array<u64>, ghost v: Pair, ghost w: Pair)
    requires p.Is(v) && pq.Is(w) && cb.Length == 5 && da.Length == 5 && cb != da && p.Arrays() !! pq.Arrays() !! {cb, da}
    modifies p.Arrays(), pq.Arrays(), cb, da
    ensures Val(p.x, v.x + v.z) && Val(p.z, v.x - v.z)
    ensures Low(cb, (w.x + w.z) * (v.x - v.z)) && Low(da, (v.x + v.z) * (w.x - w.z))
  {
    hide Low, Val, Near;
    var origX := new u64[5];
    Lengths(p.x, v.x);
    LowIsVal(p.x, v.x);
    Copy(origX, p.x, v.x);
    Sum(p.x, p.z, v.x, v.z);
    Difference(p.z, origX, v.z, v.x);
    LowIsVal(pq.x, w.x);
    Copy(origX, pq.x, w.x);
    Sum(pq.x, pq.z, w.x, w.z);
    Difference(pq.z, origX, w.z, w.x);
    Mul(cb, pq.x, p.z, w.x + w.z, v.x - v.z);
    Mul(da, p.x, pq.z, v.x + v.z, w.x - w.z);
  }

  lemma Lengths(a: array<u64>, v: int)
    requires Low(a, v)
    ensures a.Length == 5
  {
  }

  /** The sum of the two points. */
  method Addition(ppq: Point, cb: array<u64>, da: array<u64>, qx: array<u64>, ghost c: int, ghost d: int, ghost u: int)
    requires ppq.Formed() && Low(cb, c) && Low(da, d) && Low(qx, u) && cb != da && ppq.Arrays() !! {cb, da} !! {qx}
    modifies ppq.Arrays(), cb, da
    ensures Low(ppq.x, (c + d) * (c + d)) && Low(ppq.z, ((c - d) * (c - d)) * u)
  {
    hide Low, Val, Near;
    var orig, zzz := new u64[5], new u64[5];
    Copy(orig, cb, c);
    LowIsVal(cb, c);
    Sum(cb, da, c, d);
    Difference(da, orig, d, c);
    Square(ppq.x, cb, c + d);
    Square(zzz, da, c - d);
    LowIsVal(qx, u);
    Mul(ppq.z, zzz, qx, (c - d) * (c - d), u);
  }

  /** The double of a point, from its sum and difference. */
  method Doubling(pp: Point, x: array<u64>, z: array<u64>, ghost a: int, ghost b: int)
    requires pp.Formed() && Val(x, a) && Val(z, b) && x != z && pp.Arrays() !! {x, z}
    modifies pp.Arrays()
    ensures var e := a * a - b * b; Low(pp.x, (a * a) * (b * b)) && Low(pp.z, (121665 * e + a * a) * e)
  {
    hide Low, Val, Near;
    var xx, zz, zzz := new u64[5], new u64[5], new u64[5];
    Square(xx, x, a);
    Square(zz, z, b);
    Mul(pp.x, xx, zz, a * a, b * b);
    Difference(zz, xx, b * b, a * a);
    ghost var e := a * a - b * b;
    Scale(zzz, zz, 121665, e);
    Sum(zzz, xx, 121665 * e, a * a);
    Mul(pp.z, zzz, zz, 121665 * e + a * a, e);
  }

  /** Doubling and adding at once; the points given are used up. */
  method AddAndDouble(pp: Point, ppq: Point, p: Point, pq: Point, qx: array<u64>, ghost v: Pair, ghost w: Pair, ghost u: int)
    requires p.Is(v) && pq.Is(w) && Low(qx, u) && pp.Formed() && ppq.Formed()
    requires pp.Arrays() !! ppq.Arrays() !! p.Arrays() !! pq.Arrays() !! {qx}
    modifies pp.Arrays(), ppq.Arrays(), p.Arrays(), pq.Arrays()
    ensures pp.Is(Step(v, w, u).0) && ppq.Is(Step(v, w, u).1)
  {
    hide Low, Val, Near;
    var cb, da := new u64[5], new u64[5];
    Products(p, pq, cb, da, v, w);
    ghost var c, d := (w.x + w.z) * (v.x - v.z), (v.x + v.z) * (w.x - w.z);
    Addition(ppq, cb, da, qx, c, d, u);
    Doubling(pp, p.x, p.z, v.x + v.z, v.x - v.z);
    StepIs(v, w, u);
  }

  /** The same products in the order they are computed in. */
  lemma StepIs(v: Pair, w: Pair, u: int)
    ensures var a, b := v.x + v.z, v.x - v.z;
            var e := a * a - b * b;
            var c, d := (w.x + w.z) * (v.x - v.z), (v.x + v.z) * (w.x - w.z);
            && Step(v, w, u).0 == Pair((a * a) * (b * b), (121665 * e + a * a) * e)
            && Step(v, w, u).1 == Pair((c + d) * (c + d), ((c - d) * (c - d)) * u)
  {
    var a, b := v.x + v.z, v.x - v.z;
    var e := a * a - b * b;
    assert (121665 * e + a * a) * e == e * (a * a + 121665 * e);
    var c, d := (w.x + w.z) * b, a * (w.x - w.z);
    var d' := (w.x - w.z) * a;
    assert d == d';
    assert (c - d) * (c - d) == (d - c) * (d - c);
    assert ((c - d) * (c - d)) * u == u * ((d - c) * (d - c));
  }

  // ---------------------------------------------------------------- conditional swaps

  /** The limbs are exchanged under a mask of all ones, and kept under zero. */
  method SwapLimbs(a: array<u64>, b: array<u64>, swap1: u64)
    requires a.Length == 5 && b.Length == 5 && a != b && (swap1 == ONES || swap1 == 0)
    modifies a, b
    ensures Of64(a) == (if swap1 == ONES then old(Of64(b)) else old(Of64(a))) && Of64(b) == if swap1 == ONES then old(Of64(a)) else old(Of64(b))
  {
    hide Word;
    var ctr := 5;
    while ctr > 0
      invariant 0 <= ctr <= 5
      invariant forall k :: 0 <= k < ctr ==> a[k] == old(a[k]) && b[k] == old(b[k])
      invariant forall k :: ctr <= k < 5 ==> a[k] == (if swap1 == ONES then old(b[k]) else old(a[k]))
      invariant forall k :: ctr <= k < 5 ==> b[k] == (if swap1 == ONES then old(a[k]) else old(b[k]))
    {
      ctr := ctr - 1;
      var ai, bi := a[ctr], b[ctr];
      MaskedExchange(swap1, ai, bi);
      var x := Word(And, swap1, Word(Xor, ai, bi));
      a[ctr] := Word(Xor, ai, x);
      b[ctr] := Word(Xor, bi, x);
    }
  }

  method Swap(p: Point, pq: Point, iswap: u64, ghost v: Pair, ghost w: Pair)
    requires p.Is(v) && pq.Is(w) && p.Arrays() !! pq.Arrays() && iswap <= 1
    modifies p.Arrays(), pq.Arrays()
    ensures p.Is(if iswap == 1 then w else v) && pq.Is(if iswap == 1 then v else w)
  {
    hide Same, Eval;
    var swap1: u64 := (0 - iswap) % TWO64;
    SwapLimbs(p.x, pq.x, swap1);
    SwapLimbs(p.z, pq.z, swap1);
  }

  // ---------------------------------------------------------------- the loops

  type u8 = x: int | 0 <= x < 0x100

  /** The upper n bits of a byte, the highest first. */
  ghost function BitsOf(b: u8, n: nat): seq<bool>
    decreases n
  {
    if n == 0 then [] else [b >= 128] + BitsOf(b * 2 % 0x100, n - 1)
  }

  /** The bits of a little-endian scalar, the highest first. */
  ghost function ScalarBits(n1: seq<u8>): seq<bool> {
    if n1 == [] then [] else BitsOf(n1[|n1| - 1], 8) + ScalarBits(n1[..|n1| - 1])
  }

  lemma ClimbMore(bits: seq<bool>, u: int, bit: bool)
    ensures Climb(bits + [bit], u) == BitStep(Climb(bits, u), u, bit)
  {
    assert (bits + [bit])[..|bits|] == bits;
  }

  lemma ModuloSame(x: int)
    ensures Same(x, x % P)
  {
    var q := x / P;
    SameBy(x, x % P, q);
  }

  lemma PointModulo(p: Point, v: Pair)
    requires p.Is(v)
    ensures p.Is(Modulo(v))
  {
    hide Low;
    ModuloSame(v.x);
    ModuloSame(v.z);
    SameVal(p.x, v.x, v.x % P);
    SameVal(p.z, v.z, v.z % P);
  }

  /** One bit: swap, step, swap back. */
  method SmallLoopStep(nq: Point, nqpq: Point, nq2: Point, nqpq2: Point, qx: array<u64>, byt: u8, ghost s: (Pair, Pair), ghost u: int)
    requires nq.Is(s.0) && nqpq.Is(s.1) && Low(qx, u) && nq2.Formed() && nqpq2.Formed()
    requires nq.Arrays() !! nqpq.Arrays() !! nq2.Arrays() !! nqpq2.Arrays() !! {qx}
    modifies nq.Arrays(), nqpq.Arrays(), nq2.Arrays(), nqpq2.Arrays()
    ensures nq2.Is(BitStep(s, u, byt >= 128).0) && nqpq2.Is(BitStep(s, u, byt >= 128).1)
  {
    hide Low, Step;
    ghost var bit := byt >= 128;
    Swap(nq, nqpq, byt / 128, s.0, s.1);
    ghost var v, w := if bit then s.1 else s.0, if bit then s.0 else s.1;
    AddAndDouble(nq2, nqpq2, nq, nqpq, qx, v, w, u);
    ghost var r := Step(v, w, u);
    Swap(nq2, nqpq2, byt / 128, r.0, r.1);
    PointModulo(nq2, if bit then r.1 else r.0);
    PointModulo(nqpq2, if bit then r.0 else r.1);
  }

  /** What every step keeps: two points that are those of the ladder so far, and two buffers. */
  ghost predicate Climbed(nq: Point, nqpq: Point, nq2: Point, nqpq2: Point, qx: array<u64>, bits: seq<bool>, u: int)
    reads nq.x, nq.z, nqpq.x, nqpq.z, qx
  {
    && nq.Is(Climb(bits, u).0) && nqpq.Is(Climb(bits, u).1) && Low(qx, u) && nq.Formed() && nqpq.Formed() && nq2.Formed() && nqpq2.Formed()
    && nq.Arrays() !! nqpq.Arrays() !! nq2.Arrays() !! nqpq2.Arrays() !! {qx}
  }

  /** Two bits; the points end where they were. */
  method DoubleStep(nq: Point, nqpq: Point, nq2: Point, nqpq2: Point, qx: array<u64>, byt: u8, ghost bits: seq<bool>, ghost u: int)
    requires Climbed(nq, nqpq, nq2, nqpq2, qx, bits, u)
    modifies nq.Arrays(), nqpq.Arrays(), nq2.Arrays(), nqpq2.Arrays()
    ensures Climbed(nq, nqpq, nq2, nqpq2, qx, bits + BitsOf(byt, 2), u)
  {
    hide Low, BitStep, Climb;
    var byt1 := byt * 2 % 0x100;
    ghost var s := Climb(bits, u);
    ghost var one := bits + [byt >= 128];
    ClimbMore(bits, u, byt >= 128);
    ClimbMore(one, u, byt1 >= 128);
    SmallLoopStep(nq, nqpq, nq2, nqpq2, qx, byt, s, u);
    SmallLoopStep(nq2, nqpq2, nq, nqpq, qx, byt1, Climb(one, u), u);
    TwoBits(byt);
    assert one + [byt1 >= 128] == bits + BitsOf(byt, 2);
  }

  lemma TwoBits(byt: u8)
    ensures BitsOf(byt, 2) == [byt >= 128, byt * 2 % 0x100 >= 128]
  {
    assert BitsOf(byt * 2 % 0x100, 1) == [byt * 2 % 0x100 >= 128] + BitsOf(byt * 2 % 0x100 * 2 % 0x100, 0);
  }

  lemma ShiftTwice(byt: u8)
    ensures byt * 2 % 0x100 * 2 % 0x100 == byt * 4 % 0x100
  {
  }

  lemma BitsSplit(byt: u8, n: nat)
    ensures BitsOf(byt, n + 2) == BitsOf(byt, 2) + BitsOf(byt * 4 % 0x100, n)
  {
    var b1 := byt * 2 % 0x100;
    ShiftTwice(byt);
    TwoBits(byt);
    assert BitsOf(byt, n + 2) == [byt >= 128] + BitsOf(b1, n + 1);
    assert BitsOf(b1, n + 1) == [b1 >= 128] + BitsOf(b1 * 2 % 0x100, n);
  }

  /** The bits of a byte, two at a time. */
  method SmallLoop(nq: Point, nqpq: Point, nq2: Point, nqpq2: Point, qx: array<u64>, byt0: u8, count: nat, ghost bits: seq<bool>, ghost u: int)
    requires Climbed(nq, nqpq, nq2, nqpq2, qx, bits, u)
    modifies nq.Arrays(), nqpq.Arrays(), nq2.Arrays(), nqpq2.Arrays()
    ensures Climbed(nq, nqpq, nq2, nqpq2, qx, bits + BitsOf(byt0, 2 * count), u)
  {
    hide Climbed, BitsOf;
    var byt, i := byt0, count;
    ghost var done := bits;
    while i > 0
      invariant 0 <= i <= count && Climbed(nq, nqpq, nq2, nqpq2, qx, done, u)
      invariant done + BitsOf(byt, 2 * i) == bits + BitsOf(byt0, 2 * count)
    {
      i := i - 1;
      DoubleStep(nq, nqpq, nq2, nqpq2, qx, byt, done, u);
      BitsSplit(byt, 2 * i);
      var next: u8 := byt as int * 4 % 0x100;
      assert done + (BitsOf(byt, 2) + BitsOf(next, 2 * i)) == (done + BitsOf(byt, 2)) + BitsOf(next, 2 * i);
      done := done + BitsOf(byt, 2);
      byt := next;
    }
    NoBits(byt);
    assert done + [] == done;
  }

  lemma NoBits(byt: u8)
    ensures BitsOf(byt, 0) == []
  {
  }

  /** The bytes of the scalar, the highest first. */
  method BigLoop(n1: seq<u8>, nq: Point, nqpq: Point, nq2: Point, nqpq2: Point, qx: array<u64>, ghost u: int)
    requires Climbed(nq, nqpq, nq2, nqpq2, qx, [], u)
    modifies nq.Arrays(), nqpq.Arrays(), nq2.Arrays(), nqpq2.Arrays()
    ensures Climbed(nq, nqpq, nq2, nqpq2, qx, ScalarBits(n1), u)
  {
    hide Climbed, BitsOf;
    var i := |n1|;
    ghost var done: seq<bool> := [];
    assert n1[..i] == n1 && done + ScalarBits(n1) == ScalarBits(n1);
    while i > 0
      invariant 0 <= i <= |n1| && Climbed(nq, nqpq, nq2, nqpq2, qx, done, u)
      invariant done + ScalarBits(n1[..i]) == ScalarBits(n1)
    {
      i := i - 1;
      assert n1[..i + 1][i] == n1[i] && n1[..i + 1][..i] == n1[..i];
      SmallLoop(nq, nqpq, nq2, nqpq2, qx, n1[i], 4, done, u);
      assert done + (BitsOf(n1[i], 8) + ScalarBits(n1[..i])) == (done + BitsOf(n1[i], 8)) + ScalarBits(n1[..i]);
      done := done + BitsOf(n1[i], 8);
    }
    assert done + [] == done;
  }

  // ---------------------------------------------------------------- what the bits stand for

  /** The number bits stand for, the highest first. */
  ghost function Number(bits: seq<bool>): nat {
    if bits == [] then 0 else 2 * Number(bits[..|bits| - 1]) + if bits[|bits| - 1] then 1 else 0
  }

  /** The number a byte string stands for, the lowest byte first. */
  ghost function LittleEndian(s: seq<u8>): nat {
    if s == [] then 0 else s[|s| - 1] * TwoTo(8 * (|s| - 1)) + LittleEndian(s[..|s| - 1])
  }

  lemma {:induction false} NumberAppend(a: seq<bool>, b: seq<bool>)
    ensures Number(a + b) == Number(a) * TwoTo(|b|) + Number(b)
    decreases |b|
  {
    if b == [] {
      assert a + b == a;
    } else {
      var b' := b[..|b| - 1];
      assert (a + b)[..|a + b| - 1] == a + b';
      NumberAppend(a, b');
      assert Number(a) * (2 * TwoTo(|b'|)) == 2 * (Number(a) * TwoTo(|b'|));
    }
  }

  lemma {:induction false} BitsLength(b: u8, n: nat)
    ensures |BitsOf(b, n)| == n
    decreases n
  {
    if n > 0 {
      BitsLength(b as int * 2 % 0x100, n - 1);
    }
  }

  /** The upper n bits of a byte are what shifting it left by n pushes out. */
  lemma {:induction false} BitsNumber(b: u8, n: nat) returns (r: nat)
    ensures r < 0x100 && 0x100 * Number(BitsOf(b, n)) + r == b * TwoTo(n)
    decreases n
  {
    hide Number;
    if n == 0 {
      NumberNone();
      r := b;
    } else {
      var c: u8 := b as int * 2 % 0x100;
      var t := if b >= 128 then 1 else 0;
      r := BitsNumber(c, n - 1);
      NumberAppend([b >= 128], BitsOf(c, n - 1));
      BitsLength(c, n - 1);
      NumberOne(b >= 128);
      PushedOut(b, t, c, TwoTo(n - 1), Number(BitsOf(c, n - 1)), r);
    }
  }

  lemma NumberNone()
    ensures Number([]) == 0
  {
  }

  lemma NumberOne(bit: bool)
    ensures Number([bit]) == if bit then 1 else 0
  {
    assert [bit][..0] == [];
  }

  lemma PushedOut(b: int, t: int, c: int, p: int, n: int, r: int)
    requires 2 * b == 0x100 * t + c && 0x100 * n + r == c * p
    ensures 0x100 * (t * p + n) + r == b * (2 * p)
  {
    assert b * (2 * p) == (2 * b) * p == (0x100 * t + c) * p == 0x100 * (t * p) + c * p;
  }

  lemma TwoToEight()
    ensures TwoTo(8) == 0x100
  {
    TwoToAdd(4, 4);
  }

  lemma ByteNumber(b: u8)
    ensures Number(BitsOf(b, 8)) == b
  {
    var r := BitsNumber(b, 8);
    TwoToEight();
  }

  /** The ladder climbs the scalar's own bits. */
  lemma {:induction false} ScalarNumber(n1: seq<u8>)
    ensures |ScalarBits(n1)| == 8 * |n1| && Number(ScalarBits(n1)) == LittleEndian(n1)
    decreases |n1|
  {
    hide BitsOf;
    if n1 != [] {
      var b, rest := n1[|n1| - 1], n1[..|n1| - 1];
      ScalarNumber(rest);
      BitsLength(b, 8);
      ByteNumber(b);
      NumberAppend(BitsOf(b, 8), ScalarBits(rest));
    }
  }

  // ---------------------------------------------------------------- the whole function

  /** A scalar as section 5 of RFC 7748 has it decoded. */
  function Clamp(secret: seq<u8>): seq<u8>
    requires |secret| == 32
  {
    secret[0 := secret[0] as int / 8 * 8][31 := secret[31] as int % 64 + 64]
  }

  /** The function as it is computed, with the ladder over all 256 bits. */
  ghost function X25519(secret: seq<u8>, point: nat): nat
    requires |secret| == 32
  {
    Affine(Climb(ScalarBits(Clamp(secret)), point % (P + 19)).0) % P
  }

  method Fresh(first: u64) returns (a: array<u64>)
    requires first <= 1
    ensures fresh(a) && Low(a, first)
  {
    a := new u64[5](_ => 0);
    a[0] := first;
    SameItself(first);
  }

  method NewPoint(first: u64) returns (p: Point)
    requires first <= 1
    ensures fresh(p.x) && fresh(p.z) && p.Formed() && p.Is(Pair(first, 0))
  {
    hide Same, Eval;
    var a := Fresh(first);
    var b := Fresh(0);
    p := Point(a, b);
  }

  method LadderCmult(n1: seq<u8>, q: Point, ghost u: int) returns (result: Point)
    requires q.Is(Pair(u, 1))
    ensures fresh(result.x) && fresh(result.z) && result.Is(Climb(ScalarBits(n1), u).0)
  {
    hide Low, ScalarBits, Climb, Climbed;
    var nq := NewPoint(1);
    var nqpq := NewPoint(0);
    var nq2 := NewPoint(0);
    var nqpq2 := NewPoint(0);
    Copy(nqpq.x, q.x, u);
    Copy(nqpq.z, q.z, 1);
    Started(nq, nqpq, nq2, nqpq2, q.x, u);
    BigLoop(n1, nq, nqpq, nq2, nqpq2, q.x, u);
    Finished(nq, nqpq, nq2, nqpq2, q.x, ScalarBits(n1), u);
    result := nq;
  }

  lemma Started(nq: Point, nqpq: Point, nq2: Point, nqpq2: Point, qx: array<u64>, u: int)
    requires nq.Is(Pair(1, 0)) && nqpq.Is(Pair(u, 1)) && Low(qx, u) && nq.Formed() && nqpq.Formed() && nq2.Formed() && nqpq2.Formed()
    requires nq.Arrays() !! nqpq.Arrays() !! nq2.Arrays() !! nqpq2.Arrays() !! {qx}
    ensures Climbed(nq, nqpq, nq2, nqpq2, qx, [], u)
  {
    hide Low;
  }

  lemma Finished(nq: Point, nqpq: Point, nq2: Point, nqpq2: Point, qx: array<u64>, bits: seq<bool>, u: int)
    requires Climbed(nq, nqpq, nq2, nqpq2, qx, bits, u)
    ensures nq.Is(Climb(bits, u).0)
  {
    hide Low, Climb;
  }

  lemma {:induction false} PowSame(x: int, y: int, e: nat)
    requires Same(x, y)
    ensures Same(Pow(x, e), Pow(y, e))
  {
    hide Same;
    if e > 0 {
      PowSame(x, y, e - 1);
      SameMul(x, y, Pow(x, e - 1), Pow(y, e - 1));
    } else {
      SameItself(1);
    }
  }

  /** The affine coordinate of a point, in canonical form. */
  method ScalarOfPoint(point: Point, ghost v: Pair) returns (o: array<u64>)
    requires point.Is(v)
    ensures fresh(o) && o.Length == 5 && Tight(Of64(o)) && Eval(Of64(o)) == v.x * Pow(v.z, INVERSE_EXPONENT) % P
  {
    hide Same, Eval, Pow, Tight;
    var zmone := new u64[5];
    o := new u64[5];
    ghost var x, z := Eval(Of64(point.x)), Eval(Of64(point.z));
    CrecipCrecip(zmone, point.z);
    PowerIs(zmone, z, INVERSE_EXPONENT);
    PowSame(z, v.z, INVERSE_EXPONENT);
    SameTrans(Eval(Of64(zmone)), Pow(z, INVERSE_EXPONENT), Pow(v.z, INVERSE_EXPONENT));
    LowIsVal(point.x, v.x);
    Mul(o, point.x, zmone, v.x, Pow(v.z, INVERSE_EXPONENT));
    ghost var y := Eval(Of64(o));
    Contract(o);
    RemainderSame(y, v.x * Pow(v.z, INVERSE_EXPONENT));
  }

  lemma PowerIs(a: array<u64>, z: int, e: nat)
    requires Power(a, z, e)
    ensures a.Length == 5 && Bounded(Of64(a), BOUND) && Same(Eval(Of64(a)), Pow(z, e))
  {
    hide Pow, Eval;
  }

  lemma RemainderSame(x: nat, y: int)
    requires Same(x, y)
    ensures x % P == y % P
  {
    var q := SameGives(x, y);
    var a, r := y / P, y % P;
    assert x == (a + q) * P + r by {
      assert a * P + q * P == (a + q) * P;
    }
    RemainderIs(x, P, a + q, r);
  }

  // ---------------------------------------------------------------- the leading zero bit

  /** p is q with both coordinates multiplied by k, modulo 2^255 - 19. */
  ghost predicate Scaled(p: Pair, q: Pair, k: int) { Same(p.x, k * q.x) && Same(p.z, k * q.z) }

  /** A sum and a difference of scaled numbers. */
  lemma SumScaledBy(x: int, z: int, x': int, z': int, k: int)
    requires Same(x, k * x') && Same(z, k * z')
    ensures Same(x + z, k * (x' + z')) && Same(x - z, k * (x' - z'))
  {
    hide Same;
    SameAdd(x, k * x', z, k * z');
    SameSub(x, k * x', z, k * z');
    assert k * x' + k * z' == k * (x' + z') && k * x' - k * z' == k * (x' - z');
  }

  lemma ProductScaledBy(x: int, y: int, x': int, y': int, k: int, m: int)
    requires Same(x, k * x') && Same(y, m * y')
    ensures Same(x * y, (k * m) * (x' * y'))
  {
    hide Same;
    SameMul(x, k * x', y, m * y');
    assert (k * x') * (m * y') == (k * m) * (x' * y');
  }

  /** Doubling a scaled point. */
  lemma DoubleScaled(p: Pair, q: Pair, k: int, s: Pair, t: Pair, u: int)
    requires Scaled(p, q, k)
    ensures Scaled(Step(p, s, u).0, Step(q, t, u).0, (k * k) * (k * k))
  {
    hide Same;
    SumScaledBy(p.x, p.z, q.x, q.z, k);
    var a, b, a', b' := p.x + p.z, p.x - p.z, q.x + q.z, q.x - q.z;
    ProductScaledBy(a, a, a', a', k, k);
    ProductScaledBy(b, b, b', b', k, k);
    ProductScaledBy(a * a, b * b, a' * a', b' * b', k * k, k * k);
    SumScaledBy(a * a, b * b, a' * a', b' * b', k * k);
    var e, e' := a * a - b * b, a' * a' - b' * b';
    SameItself(121665);
    SameMul(121665, 121665, e, (k * k) * e');
    assert 121665 * ((k * k) * e') == (k * k) * (121665 * e');
    SumScaledBy(a * a, 121665 * e, a' * a', 121665 * e', k * k);
    ProductScaledBy(e, a * a + 121665 * e, e', a' * a' + 121665 * e', k * k, k * k);
  }

  /** Adding two scaled points. */
  lemma AddScaled(p: Pair, q: Pair, k: int, s: Pair, t: Pair, m: int, u: int)
    requires Scaled(p, q, k) && Scaled(s, t, m)
    ensures Scaled(Step(p, s, u).1, Step(q, t, u).1, (m * k) * (m * k))
  {
    hide Same;
    SumScaledBy(p.x, p.z, q.x, q.z, k);
    SumScaledBy(s.x, s.z, t.x, t.z, m);
    var a, b, a', b' := p.x + p.z, p.x - p.z, q.x + q.z, q.x - q.z;
    var c, d, c', d' := s.x + s.z, s.x - s.z, t.x + t.z, t.x - t.z;
    ProductScaledBy(d, a, d', a', m, k);
    ProductScaledBy(c, b, c', b', m, k);
    SumScaledBy(d * a, c * b, d' * a', c' * b', m * k);
    var x, y, x', y' := d * a + c * b, d * a - c * b, d' * a' + c' * b', d' * a' - c' * b';
    ProductScaledBy(x, x, x', x', m * k, m * k);
    ProductScaledBy(y, y, y', y', m * k, m * k);
    SameItself(u);
    SameMul(u, u, y * y, ((m * k) * (m * k)) * (y' * y'));
    assert u * (((m * k) * (m * k)) * (y' * y')) == ((m * k) * (m * k)) * (u * (y' * y'));
  }

  lemma ModuloScaled(p: Pair, q: Pair, k: int)
    requires Scaled(p, q, k)
    ensures Scaled(Modulo(p), Modulo(q), k)
  {
    hide Same;
    ModuloScaledBy(p.x, q.x, k);
    ModuloScaledBy(p.z, q.z, k);
  }

  lemma ModuloScaledBy(x: int, y: int, k: int)
    requires Same(x, k * y)
    ensures Same(x % P, k * (y % P))
  {
    hide Same;
    ModuloSame(x);
    ModuloSame(y);
    SameSym(x, x % P);
    SameTrans(x % P, x, k * y);
    SameItself(k);
    SameMul(k, k, y, y % P);
    SameTrans(x % P, k * y, k * (y % P));
  }

  lemma SameSym(x: int, y: int)
    requires Same(x, y)
    ensures Same(y, x)
  {
    var q := SameGives(x, y);
    SameBy(y, x, -q);
  }

  /** The numbers of factors 4u that the two points are ahead by, one bit further on. */
  function Ahead(bit: bool, a: nat, b: nat): (nat, nat) {
    if bit then (2 * a + 2 * b, 4 * b) else (4 * a, 2 * a + 2 * b)
  }

  lemma PowTwice(z: int, a: nat, b: nat)
    ensures (Pow(z, a) * Pow(z, b)) * (Pow(z, a) * Pow(z, b)) == Pow(z, 2 * a + 2 * b)
  {
    hide Pow;
    PowAdd(z, a, b);
    PowAdd(z, a + b, a + b);
  }

  lemma BitStepScaled(s: (Pair, Pair), t: (Pair, Pair), u: int, bit: bool, z: int, a: nat, b: nat)
    requires Scaled(s.0, t.0, Pow(z, a)) && Scaled(s.1, t.1, Pow(z, b))
    ensures var n := Ahead(bit, a, b);
            Scaled(BitStep(s, u, bit).0, BitStep(t, u, bit).0, Pow(z, n.0)) && Scaled(BitStep(s, u, bit).1, BitStep(t, u, bit).1, Pow(z, n.1))
  {
    hide Scaled, Step, Modulo, Pow;
    PowTwice(z, a, a);
    PowTwice(z, b, b);
    PowTwice(z, a, b);
    PowTwice(z, b, a);
    if bit {
      DoubleScaled(s.1, t.1, Pow(z, b), s.0, t.0, u);
      AddScaled(s.1, t.1, Pow(z, b), s.0, t.0, Pow(z, a), u);
      ModuloScaled(Step(s.1, s.0, u).0, Step(t.1, t.0, u).0, Pow(z, 4 * b));
      ModuloScaled(Step(s.1, s.0, u).1, Step(t.1, t.0, u).1, Pow(z, 2 * a + 2 * b));
    } else {
      DoubleScaled(s.0, t.0, Pow(z, a), s.1, t.1, u);
      AddScaled(s.0, t.0, Pow(z, a), s.1, t.1, Pow(z, b), u);
      ModuloScaled(Step(s.0, s.1, u).0, Step(t.0, t.1, u).0, Pow(z, 4 * a));
      ModuloScaled(Step(s.0, s.1, u).1, Step(t.0, t.1, u).1, Pow(z, 2 * a + 2 * b));
    }
  }

  /** A zero bit in front only multiplies the coordinates by powers of 4u. */
  lemma {:induction false} LeadingZero(bits: seq<bool>, u: int) returns (a: nat, b: nat)
    ensures Scaled(Climb([false] + bits, u).0, Climb(bits, u).0, Pow(4 * u, a))
    ensures Scaled(Climb([false] + bits, u).1, Climb(bits, u).1, Pow(4 * u, b))
  {
    if bits == [] {
      assert [false] + bits == [false];
      a, b := 0, 1;
      FirstStep(u);
    } else {
      hide Scaled, BitStep, Pow;
      var front, bit := bits[..|bits| - 1], bits[|bits| - 1];
      var a0, b0 := LeadingZero(front, u);
      assert [false] + bits == ([false] + front) + [bit] && bits == front + [bit];
      ClimbMore([false] + front, u, bit);
      ClimbMore(front, u, bit);
      BitStepScaled(Climb([false] + front, u), Climb(front, u), u, bit, 4 * u, a0, b0);
      var n := Ahead(bit, a0, b0);
      a, b := n.0, n.1;
    }
  }

  /** The step from the neutral point: it stays as it is, and adding it multiplies the coordinates by 4u. */
  lemma NeutralStep(u: int)
    ensures Step(Pair(1, 0), Pair(u, 1), u) == (Pair(1, 0), Pair((4 * u) * u, 4 * u))
  {
    assert (u - 1) * 1 == u - 1 && (u + 1) * 1 == u + 1;
    assert (2 * u) * (2 * u) == (4 * u) * u;
  }

  lemma FirstStep(u: int)
    ensures Scaled(Climb([false], u).0, Climb([], u).0, Pow(4 * u, 0)) && Scaled(Climb([false], u).1, Climb([], u).1, Pow(4 * u, 1))
  {
    hide Step, Modulo;
    ClimbMore([], u, false);
    assert [] + [false] == [false];
    NeutralStep(u);
    assert Climb([], u) == (Pair(1, 0), Pair(u, 1));
    PowSmall(4 * u);
    ScaledOnce(Pair(1, 0), 1);
    ScaledOnce(Pair(u, 1), 4 * u);
  }

  lemma ScaledOnce(p: Pair, k: int)
    ensures Scaled(Modulo(Pair(k * p.x, k * p.z)), p, k)
  {
    hide Same;
    ModuloSame(k * p.x);
    ModuloSame(k * p.z);
    SameSym(k * p.x, k * p.x % P);
    SameSym(k * p.z, k * p.z % P);
  }

  /** The function of section 5 of RFC 7748 as it stands there: the ladder climbs the 255 bits below the highest. */
  ghost function Rfc7748(secret: seq<u8>, point: nat): nat
    requires |secret| == 32
  {
    var bits := ScalarBits(Clamp(secret));
    if bits == [] then 0 else Affine(Climb(bits[1..], point % (P + 19)).0) % P
  }

  ghost function Affine(p: Pair): int { p.x * Pow(p.z, INVERSE_EXPONENT) }

  /** Multiplying both coordinates by k multiplies what is computed from them by the power of k that is 1 for a prime modulus. */
  lemma AffineScaled(p: Pair, q: Pair, k: int)
    requires Scaled(p, q, k)
    ensures Same(Affine(p), Pow(k, P - 1) * Affine(q))
  {
    hide Same, Pow;
    var n := INVERSE_EXPONENT;
    PowSame(p.z, k * q.z, n);
    PowMul(k, q.z, n);
    SameMul(p.x, k * q.x, Pow(p.z, n), Pow(k, n) * Pow(q.z, n));
    MiddleTwo(k, q.x, Pow(k, n), Pow(q.z, n));
    PowAdd(k, 1, n);
    PowSmall(k);
  }

  /** The highest bit of a clamped scalar is zero. */
  lemma HighestIsZero(secret: seq<u8>)
    requires |secret| == 32
    ensures var bits := ScalarBits(Clamp(secret)); bits != [] && bits == [false] + bits[1..]
  {
    hide BitsOf, ScalarBits;
    var n1 := Clamp(secret);
    TopBit(n1[31]);
    HighestBit(n1);
  }

  lemma HighestBit(n1: seq<u8>)
    requires n1 != [] && BitsOf(n1[|n1| - 1], 8) != []
    ensures ScalarBits(n1) != [] && ScalarBits(n1)[0] == BitsOf(n1[|n1| - 1], 8)[0]
  {
    hide BitsOf;
  }

  lemma TopBit(b: u8)
    ensures BitsOf(b, 8) != [] && BitsOf(b, 8)[0] == (b >= 128)
  {
  }

  /** What is computed and what the RFC defines differ by a power of (4u)^(p - 1). */
  lemma ComputedAndDefined(secret: seq<u8>, point: nat) returns (a: nat)
    requires |secret| == 32
    ensures Same(X25519(secret, point), Pow(Pow(4 * (point % (P + 19)), P - 1), a) * Rfc7748(secret, point))
  {
    hide Same, Pow, Climb, ScalarBits, Clamp;
    var bits, u := ScalarBits(Clamp(secret)), point % (P + 19);
    HighestIsZero(secret);
    var b;
    a, b := LeadingZero(bits[1..], u);
    var p, q := Climb(bits, u).0, Climb(bits[1..], u).0;
    AffineScaled(p, q, Pow(4 * u, a));
    PowPow(4 * u, a, P - 1);
    PowPow(4 * u, P - 1, a);
    assert a * (P - 1) == (P - 1) * a;
    var k := Pow(Pow(4 * u, P - 1), a);
    ModuloSame(Affine(p));
    ModuloSame(Affine(q));
    SameSym(Affine(p), Affine(p) % P);
    SameTrans(Affine(p) % P, Affine(p), k * Affine(q));
    SameItself(k);
    SameMul(k, k, Affine(q), Affine(q) % P);
    SameTrans(Affine(p) % P, k * Affine(q), k * (Affine(q) % P));
  }

  /** For the point zero the second coordinate stays zero all along. */
  lemma {:induction false} ZeroPoint(bits: seq<bool>, u: int)
    requires Same(u, 0)
    ensures Same(Climb(bits, u).0.z, 0)
  {
    hide Same;
    if bits == [] {
      SameItself(0);
    } else {
      var front, bit := bits[..|bits| - 1], bits[|bits| - 1];
      ZeroPoint(front, u);
      var s := Climb(front, u);
      var r := if bit then Step(s.1, s.0, u).1.z else Step(s.0, s.1, u).0.z;
      if bit { ZeroSum(s.1, s.0, u); } else { ZeroDouble(s.0, s.1, u); }
      ModuloSame(r);
      SameSym(r, r % P);
      SameTrans(r % P, r, 0);
    }
  }

  lemma ZeroSum(p: Pair, pq: Pair, u: int)
    requires Same(u, 0)
    ensures Same(Step(p, pq, u).1.z, 0)
  {
    hide Same;
    var d := (pq.x - pq.z) * (p.x + p.z) - (pq.x + pq.z) * (p.x - p.z);
    SameItself(d * d);
    SameMul(u, 0, d * d, d * d);
  }

  lemma ZeroDouble(p: Pair, pq: Pair, u: int)
    requires Same(p.z, 0)
    ensures Same(Step(p, pq, u).0.z, 0)
  {
    hide Same;
    var a, b := p.x + p.z, p.x - p.z;
    var e := a * a - b * b;
    FourTimes(p.x, p.z);
    SameItself(4 * p.x);
    SameMul(4 * p.x, 4 * p.x, p.z, 0);
    SameItself(a * a + 121665 * e);
    SameMul(e, 0, a * a + 121665 * e, a * a + 121665 * e);
  }

  lemma FourTimes(x: int, z: int)
    ensures (x + z) * (x + z) - (x - z) * (x - z) == (4 * x) * z
  {
  }

  lemma ZeroAffine(p: Pair)
    requires Same(p.z, 0)
    ensures Affine(p) % P == 0
  {
    hide Same, Pow;
    var n := INVERSE_EXPONENT;
    PowSame(p.z, 0, n);
    PowAdd(0, 1, n - 1);
    PowSmall(0);
    assert Pow(0, n) == 0;
    SameItself(p.x);
    SameMul(p.x, p.x, Pow(p.z, n), 0);
    SameIsZero(Affine(p));
  }

  lemma SameIsZero(x: int)
    requires Same(x, 0)
    ensures x % P == 0
  {
  }

  /** Modulo a prime, the power that is computed is the inverse of every number but zero. */
  lemma ExponentInverts(z: int)
    requires Prime(P) && !Same(z, 0)
    ensures Same(Pow(z, P - 1), 1) && Same(z * Pow(z, INVERSE_EXPONENT), 1)
  {
    hide Same, Pow, Prime;
    var r := z % P;
    ModuloSame(z);
    assert !Divides(P, r) by { if Divides(P, r) { SameFromDivides(r); SameTrans(z, r, 0); } }
    Fermat(P, r);
    PowSame(z, r, P - 1);
    SameFromCong(Pow(r, P - 1), 1);
    SameTrans(Pow(z, P - 1), Pow(r, P - 1), 1);
    PowAdd(z, 1, INVERSE_EXPONENT);
    PowSmall(z);
  }

  lemma SameFromDivides(x: int)
    requires Divides(P, x)
    ensures Same(x, 0)
  {
    assert x - 0 == x;
  }

  lemma SameFromCong(x: int, y: int)
    requires Cong(P, x, y)
    ensures Same(x, y)
  {
  }

  lemma FourTimesZero(u: int)
    requires Prime(P) && Same(4 * u, 0)
    ensures Same(u, 0)
  {
    assert 4 * u - 0 == 4 * u;
    EuclidSmall(P, 4, u);
    SameFromDivides(u);
  }

  /**
   2^255 - 19 being prime, the computed value is the RFC's, for every secret and every point.  The bit in front that
   the code climbs and the RFC does not only multiplies the coordinates, and the inversion takes that out again.
   */
  lemma ComputedIsDefined(secret: seq<u8>, point: nat)
    requires |secret| == 32 && Prime(P)
    ensures X25519(secret, point) == Rfc7748(secret, point)
  {
    hide Same, Pow, Climb, ScalarBits, Clamp, Prime;
    var bits, u := ScalarBits(Clamp(secret)), point % (P + 19);
    HighestIsZero(secret);
    if Same(u, 0) {
      ZeroPoint(bits, u);
      ZeroPoint(bits[1..], u);
      ZeroAffine(Climb(bits, u).0);
      ZeroAffine(Climb(bits[1..], u).0);
    } else {
      if Same(4 * u, 0) { FourTimesZero(u); }
      ExponentInverts(4 * u);
      var a := ComputedAndDefined(secret, point);
      var k, y := Pow(Pow(4 * u, P - 1), a), Rfc7748(secret, point);
      PowSame(Pow(4 * u, P - 1), 1, a);
      PowOne(a);
      SameItself(y);
      SameMul(k, 1, y, y);
      SameTrans(X25519(secret, point), k * y, y);
      SameSmall(X25519(secret, point), y);
    }
  }

  lemma SameSmall(x: nat, y: nat)
    requires Same(x, y) && x < P && y < P
    ensures x == y
  {
    RemainderSame(x, y);
  }

  /** The public value: for every secret and every point, the ladder's; 2^255 - 19 being prime, the RFC's. */
  method Curve25519(secret: seq<u8>, basepoint: nat) returns (o0: u64, o1: u64, o2: u64, o3: u64)
    requires |secret| == 32
    ensures o0 + TWO64 * o1 + TWO64 * TWO64 * o2 + TWO64 * TWO64 * TWO64 * o3 == X25519(secret, basepoint)
    ensures Prime(P) ==> o0 + TWO64 * o1 + TWO64 * TWO64 * o2 + TWO64 * TWO64 * TWO64 * o3 == Rfc7748(secret, basepoint)
  {
    hide Eval, Same, Pow, Climb, ScalarBits, Tight, Prime, X25519, Rfc7748;
    var x := new u64[5];
    var z := Fresh(1);
    Fexpand(x, basepoint);
    ghost var u := basepoint % (P + 19);
    TightIsLow(x, u);
    var e := Clamp(secret);
    var nq := LadderCmult(e, Point(x, z), u);
    var sc := ScalarOfPoint(nq, Climb(ScalarBits(e), u).0);
    o0, o1, o2, o3 := ContractStore(sc);
    X25519Is(secret, basepoint);
    if Prime(P) { ComputedIsDefined(secret, basepoint); }
  }

  lemma X25519Is(secret: seq<u8>, point: nat)
    requires |secret| == 32
    ensures var p := Climb(ScalarBits(Clamp(secret)), point % (P + 19)).0; X25519(secret, point) == p.x * Pow(p.z, INVERSE_EXPONENT) % P
  {
  }

  lemma TightIsLow(a: array<u64>, v: nat)
    requires a.Length == 5 && Tight(Of64(a)) && Eval(Of64(a)) == v
    ensures Low(a, v)
  {
    SameItself(v);
  }

  /** A digit and what is below it. */
  lemma Digit(b: int, lo: int, hi: int, m: int, rest: int)
    requires lo <= b < hi && 0 <= rest < m
    ensures lo * m <= b * m + rest < hi * m
  {
    MulBelow(lo, b, m);
    MulBelow(b + 1, hi, m);
    assert (b + 1) * m == b * m + m;
  }

  lemma MulBelow(x: int, y: int, m: int)
    requires x <= y && m >= 0
    ensures x * m <= y * m
  {
    assert (y - x) * m >= 0;
  }

  lemma {:induction false} LittleEndianBound(s: seq<u8>)
    ensures LittleEndian(s) < TwoTo(8 * |s|)
    decreases |s|
  {
    hide TwoTo;
    if s == [] {
      TwoToEight();
      PositiveTwo(0);
    } else {
      var rest, b := s[..|s| - 1], s[|s| - 1];
      LittleEndianBound(rest);
      TwoToAdd(8, 8 * |rest|);
      TwoToEight();
      Digit(b, 0, 0x100, TwoTo(8 * |rest|), LittleEndian(rest));
    }
  }

  lemma PositiveTwo(n: nat)
    ensures TwoTo(n) > 0
  {
  }

  lemma {:induction false} LowByte(s: seq<u8>)
    requires s != []
    ensures LittleEndian(s) % 8 == s[0] % 8
    decreases |s|
  {
    hide TwoTo;
    var rest, b := s[..|s| - 1], s[|s| - 1];
    if rest == [] {
      TwoToNone();
      LittleEndianNone();
    } else {
      LowByte(rest);
      var k := 8 * |rest| - 3;
      TwoToAdd(3, k);
      SmallTwos();
      EightTimes(b, TwoTo(k), LittleEndian(rest));
    }
  }

  lemma TwoToNone()
    ensures TwoTo(0) == 1
  {
  }

  lemma LittleEndianNone()
    ensures LittleEndian([]) == 0
  {
  }

  lemma EightTimes(b: int, m: int, rest: int)
    ensures (b * (8 * m) + rest) % 8 == rest % 8
  {
    assert b * (8 * m) == 8 * (b * m);
  }

  /** A clamped scalar is a multiple of eight, at least 2^254 and below 2^255, and its middle bytes are the secret's. */
  lemma ClampedScalar(secret: seq<u8>)
    requires |secret| == 32
    ensures var n := LittleEndian(Clamp(secret)); n % 8 == 0 && TwoTo(254) <= n < TwoTo(255)
    ensures forall i :: 0 < i < 31 ==> Clamp(secret)[i] == secret[i]
  {
    hide TwoTo;
    var e := Clamp(secret);
    LowByte(e);
    LittleEndianBound(e[..31]);
    TwoToAdd(6, 248);
    TwoToAdd(7, 248);
    SmallTwos();
    Digit(e[31], 64, 128, TwoTo(248), LittleEndian(e[..31]));
  }

  lemma SmallTwos()
    ensures TwoTo(3) == 8 && TwoTo(6) == 64 && TwoTo(7) == 128
  {
  }
}
