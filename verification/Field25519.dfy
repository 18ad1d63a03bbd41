/**
 Arithmetic modulo 2^255 - 19 on five limbs of 51 bits, with 64-bit words and 128-bit products.
 Masking with 0x7ffffffffffff and shifting by 51 are written as remainder and quotient by 2^51;
 the types u64 and u128 make the absence of wrap-around part of every assignment.
 */
module Field25519 {
  import opened Primes
  import opened Words

  const R: nat := 0x8_0000_0000_0000
  const TWO128: nat := 0x1_0000_0000_0000_0000_0000_0000_0000_0000
  const P: nat := 0x7fffffffffffffffffffffffffffffffffffffffffffffffffffffffffffffed

  type u128 = x: int | 0 <= x < 0x1_0000_0000_0000_0000_0000_0000_0000_0000

  const R2: nat := 0x40_0000_0000_0000_0000_0000_0000
  const R3: nat := 0x200_0000_0000_0000_0000_0000_0000_0000_0000_0000
  const R4: nat := 0x1000_0000_0000_0000_0000_0000_0000_0000_0000_0000_0000_0000_0000

  lemma Powers()
    ensures R2 == R * R && R3 == R * R2 && R4 == R * R3 && P == R * R4 - 19
  {
  }

  /** Five limbs, of whatever width. */
  datatype Limbs = Limbs(l0: nat, l1: nat, l2: nat, l3: nat, l4: nat)

  ghost function Eval(a: Limbs): nat {
    a.l0 + R * a.l1 + R2 * a.l2 + R3 * a.l3 + R4 * a.l4
  }

  // ---------------------------------------------------------------- congruence

  /** Equal modulo 2^255 - 19. */
  ghost predicate Same(x: int, y: int) { Cong(P, x, y) }

  lemma SameBy(x: int, y: int, q: int)
    requires x == y + q * P
    ensures Same(x, y)
  {
    DividesBy(P, x - y, q);
  }

  lemma SameGives(x: int, y: int) returns (q: int)
    requires Same(x, y)
    ensures x == y + q * P
  {
    q :| x - y == P * q;
  }

  lemma SameItself(x: int)
    ensures Same(x, x)
  {
    SameBy(x, x, 0);
  }

  lemma SameTrans(x: int, y: int, z: int)
    requires Same(x, y) && Same(y, z)
    ensures Same(x, z)
  {
    hide Cong;
    CongTrans(P, x, y, z);
  }

  lemma SameAdd(x: int, y: int, u: int, v: int)
    requires Same(x, y) && Same(u, v)
    ensures Same(x + u, y + v)
  {
    hide Cong;
    CongAdd(P, x, y, u, v);
  }

  lemma SameMul(x: int, y: int, u: int, v: int)
    requires Same(x, y) && Same(u, v)
    ensures Same(x * u, y * v)
  {
    hide Cong;
    CongMul(P, x, y, u, v);
  }

  // ---------------------------------------------------------------- products

  /** Multiplying by 2^51: every limb moves up, the top one comes back nineteenfold. */
  function ShiftReduce(a: Limbs): Limbs {
    Limbs(19 * a.l4, a.l0, a.l1, a.l2, a.l3)
  }

  lemma EvalShift(a: Limbs)
    ensures Eval(ShiftReduce(a)) == R * Eval(a) - a.l4 * P
    ensures Same(Eval(ShiftReduce(a)), R * Eval(a))
  {
    var q: int := a.l4;
    SameBy(Eval(ShiftReduce(a)), R * Eval(a), -q);
  }

  /** One row of the product is added. */
  function SumScaled(t: Limbs, a: Limbs, s: nat): Limbs {
    Limbs(t.l0 + a.l0 * s, t.l1 + a.l1 * s, t.l2 + a.l2 * s, t.l3 + a.l3 * s, t.l4 + a.l4 * s)
  }

  lemma EvalSumScaled(t: Limbs, a: Limbs, s: nat)
    ensures Eval(SumScaled(t, a, s)) == Eval(t) + Eval(a) * s
  {
    calc {
      Eval(a) * s;
      a.l0 * s + (R * a.l1) * s + (R2 * a.l2) * s + (R3 * a.l3) * s + (R4 * a.l4) * s;
      a.l0 * s + R * (a.l1 * s) + R2 * (a.l2 * s) + R3 * (a.l3 * s) + R4 * (a.l4 * s);
    }
  }

  /** The largest limb the arithmetic takes: what a difference of reduced values can reach, with some room. */
  const BOUND: nat := 9 * 0x8_0000_0000_0000 + 0x10_0000

  ghost predicate Bounded(a: Limbs, b: nat) {
    a.l0 <= b && a.l1 <= b && a.l2 <= b && a.l3 <= b && a.l4 <= b
  }

  /** What products, squares and inverses come out as. */
  ghost predicate Reduced(a: Limbs) {
    a.l0 < R && a.l1 < R + 0x2000 && a.l2 < R && a.l3 < R && a.l4 < R
  }

  /** The five rows of a product in a row: the value is the product, and row r adds a shifted r times. */
  ghost function Wide(a: Limbs, b: Limbs): Limbs {
    var a1 := ShiftReduce(a);
    var a2 := ShiftReduce(a1);
    var a3 := ShiftReduce(a2);
    var a4 := ShiftReduce(a3);
    SumScaled(SumScaled(SumScaled(SumScaled(SumScaled(Limbs(0, 0, 0, 0, 0), a, b.l0), a1, b.l1), a2, b.l2), a3, b.l3), a4, b.l4)
  }

  /** One more row adds b times 2^(51 r) times a. */
  lemma RowAdds(t: Limbs, x: int, a: nat, ar: Limbs, rr: nat, s: nat)
    requires Same(Eval(t), x) && Same(Eval(ar), rr * a)
    ensures Same(Eval(SumScaled(t, ar, s)), x + (rr * s) * a)
  {
    EvalSumScaled(t, ar, s);
    SameItself(s);
    SameMul(Eval(ar), rr * a, s, s);
    assert rr * a * s == (rr * s) * a;
    SameAdd(Eval(t), x, Eval(ar) * s, (rr * s) * a);
  }

  lemma ShiftAgain(a: nat, ar: Limbs, rr: nat)
    requires Same(Eval(ar), rr * a)
    ensures Same(Eval(ShiftReduce(ar)), (R * rr) * a)
  {
    EvalShift(ar);
    SameItself(R);
    SameMul(R, R, Eval(ar), rr * a);
    assert R * (rr * a) == (R * rr) * a;
    SameTrans(Eval(ShiftReduce(ar)), R * Eval(ar), (R * rr) * a);
  }

  lemma EvalWide(a: Limbs, b: Limbs)
    ensures Same(Eval(Wide(a, b)), Eval(a) * Eval(b))
  {
    hide Eval, Same, ShiftReduce, SumScaled;
    Powers();
    var n := Eval(a);
    var a1 := ShiftReduce(a);
    var a2 := ShiftReduce(a1);
    var a3 := ShiftReduce(a2);
    var a4 := ShiftReduce(a3);
    SameBy(n, 1 * n, 0);
    ShiftAgain(n, a, 1);
    ShiftAgain(n, a1, R);
    ShiftAgain(n, a2, R2);
    ShiftAgain(n, a3, R3);
    var t := Limbs(0, 0, 0, 0, 0);
    EvalZero();
    RowAdds(t, 0, n, a, 1, b.l0);
    var t1 := SumScaled(t, a, b.l0);
    RowAdds(t1, b.l0 * n, n, a1, R, b.l1);
    var t2 := SumScaled(t1, a1, b.l1);
    RowAdds(t2, b.l0 * n + (R * b.l1) * n, n, a2, R2, b.l2);
    var t3 := SumScaled(t2, a2, b.l2);
    RowAdds(t3, b.l0 * n + (R * b.l1) * n + (R2 * b.l2) * n, n, a3, R3, b.l3);
    var t4 := SumScaled(t3, a3, b.l3);
    RowAdds(t4, b.l0 * n + (R * b.l1) * n + (R2 * b.l2) * n + (R3 * b.l3) * n, n, a4, R4, b.l4);
    Distributes(n, b);
  }

  lemma EvalZero()
    ensures Same(Eval(Limbs(0, 0, 0, 0, 0)), 0)
  {
    SameBy(0, 0, 0);
  }

  lemma Distributes(n: nat, b: Limbs)
    ensures n * Eval(b) == b.l0 * n + (R * b.l1) * n + (R2 * b.l2) * n + (R3 * b.l3) * n + (R4 * b.l4) * n
  {
  }

  // ---------------------------------------------------------------- carries

  /** Carries from each limb into the next. */
  function Carry(t: Limbs): Limbs {
    var c1 := t.l1 + t.l0 / R;
    var c2 := t.l2 + c1 / R;
    var c3 := t.l3 + c2 / R;
    Limbs(t.l0 % R, c1 % R, c2 % R, c3 % R, t.l4 + c3 / R)
  }

  lemma EvalCarry(t: Limbs)
    ensures Eval(Carry(t)) == Eval(t)
  {
    Powers();
  }

  /** What is above 2^255 comes back nineteenfold. */
  function CarryTop(t: Limbs): Limbs {
    Limbs(t.l0 + 19 * (t.l4 / R), t.l1, t.l2, t.l3, t.l4 % R)
  }

  lemma EvalCarryTop(t: Limbs)
    ensures Same(Eval(CarryTop(t)), Eval(t))
  {
    Powers();
    var q: int := t.l4 / R;
    SameBy(Eval(CarryTop(t)), Eval(t), -q);
  }

  function CarryFirst(t: Limbs): Limbs {
    Limbs(t.l0 % R, t.l1 + t.l0 / R, t.l2, t.l3, t.l4)
  }

  lemma EvalCarryFirst(t: Limbs)
    ensures Eval(CarryFirst(t)) == Eval(t)
  {
  }

  // ---------------------------------------------------------------- multiplication in place

  ghost function Of64(a: array<u64>): Limbs
    requires a.Length == 5
    reads a
  {
    Limbs(a[0], a[1], a[2], a[3], a[4])
  }

  ghost function Of128(a: array<u128>): Limbs
    requires a.Length == 5
    reads a
  {
    Limbs(a[0], a[1], a[2], a[3], a[4])
  }

  /** Products of what fits in 64 bits fit in 128, and so do the sums. */
  ghost predicate RowFits(t: Limbs, a: Limbs, s: nat) {
    Bounded(SumScaled(t, a, s), TWO128 - 1)
  }

  method SumScalarMultiplication(output: array<u128>, input: array<u64>, s: u64)
    requires output.Length == 5 && input.Length == 5 && RowFits(Of128(output), Of64(input), s)
    modifies output
    ensures Of128(output) == SumScaled(old(Of128(output)), Of64(input), s)
  {
    output[0] := output[0] + input[0] * s;
    output[1] := output[1] + input[1] * s;
    output[2] := output[2] + input[2] * s;
    output[3] := output[3] + input[3] * s;
    output[4] := output[4] + input[4] * s;
  }

  method FmulShiftReduce(output: array<u64>)
    requires output.Length == 5 && 19 * output[4] < TWO64
    modifies output
    ensures Of64(output) == ShiftReduce(old(Of64(output)))
  {
    var tmp := output[4];
    output[4] := output[3];
    output[3] := output[2];
    output[2] := output[1];
    output[1] := output[0];
    output[0] := tmp;
    output[0] := 19 * output[0];
  }

  method CarryStep(tmp: array<u128>, ctr: nat)
    requires ctr < 4 && tmp.Length == 5 && tmp[ctr] <= TWO128 / 2 && tmp[ctr + 1] <= TWO128 / 4
    modifies tmp
    ensures tmp[ctr] == old(tmp[ctr]) % R && tmp[ctr + 1] == old(tmp[ctr + 1]) + old(tmp[ctr]) / R <= TWO128 / 2
    ensures forall k :: 0 <= k < 5 && k != ctr && k != ctr + 1 ==> tmp[k] == old(tmp[k])
  {
    var tctr, tctrp1 := tmp[ctr], tmp[ctr + 1];
    tmp[ctr] := tctr % R;
    tmp[ctr + 1] := tctrp1 + tctr / R;
  }

  method CarryWide(tmp: array<u128>)
    requires tmp.Length == 5 && Bounded(Of128(tmp), TWO128 / 4)
    modifies tmp
    ensures Of128(tmp) == Carry(old(Of128(tmp)))
  {
    CarryStep(tmp, 0);
    CarryStep(tmp, 1);
    CarryStep(tmp, 2);
    CarryStep(tmp, 3);
  }

  /** How large a sum of rows can be for the reduction to lose nothing: only the top limb matters. */
  ghost predicate WideFits(t: Limbs) {
    Bounded(t, 100 * BOUND * BOUND) && t.l4 <= 5 * BOUND * BOUND
  }

  /** What a wide value reduces to. */
  function ReduceWide(t: Limbs): Limbs {
    CarryFirst(CarryTop(Carry(t)))
  }

  lemma EvalReduceWide(t: Limbs)
    ensures Same(Eval(ReduceWide(t)), Eval(t))
  {
    hide Eval, Same, Carry, CarryTop, CarryFirst;
    EvalCarry(t);
    EvalCarryTop(Carry(t));
    EvalCarryFirst(CarryTop(Carry(t)));
  }

  /** The limbs after the carries: only the top one is more than 51 bits, and not by much. */
  lemma CarriedWide(t: Limbs)
    requires WideFits(t)
    ensures var c := Carry(t); c.l0 < R && c.l1 < R && c.l2 < R && c.l3 < R && c.l4 <= 405 * R * R + R * 0x1_0000_0000
  {
    var c1 := t.l1 + t.l0 / R;
    var c2 := t.l2 + c1 / R;
    var c3 := t.l3 + c2 / R;
    CarrySmall(t.l0, t.l1);
    CarrySmall(c1, t.l2);
    CarrySmall(c2, t.l3);
    CarrySmall(c3, t.l4);
    TopCarried(t.l4, c3 / R);
  }

  /** What is carried out of a wide limb is small, and leaves the next one wide. */
  lemma CarrySmall(x: nat, next: nat)
    requires x <= 101 * BOUND * BOUND && next <= 100 * BOUND * BOUND
    ensures x / R <= R * 0x1_0000 && next + x / R <= 101 * BOUND * BOUND && x % R < R
  {
  }

  lemma TopCarried(top: nat, k: nat)
    requires top <= 5 * BOUND * BOUND && k <= R * 0x1_0000
    ensures top + k <= 405 * R * R + R * 0x1_0000_0000
  {
  }

  /** Nothing is lost when the top carry and the limbs are cut down to 64 bits. */
  lemma ReduceWideFits(t: Limbs)
    requires WideFits(t)
    ensures Carry(t).l4 / R < TWO64 && Bounded(CarryTop(Carry(t)), TWO64 - 1) && Reduced(ReduceWide(t))
  {
    hide Carry, WideFits;
    CarriedWide(t);
    assert Carry(t).l4 / R <= 405 * R + 0x1_0000_0000;
  }

  /** The end of a multiplication: carries, and back to 64 bits. */
  method ReduceInto(tmp: array<u128>, output: array<u64>)
    requires tmp.Length == 5 && output.Length == 5 && WideFits(Of128(tmp))
    modifies tmp, output
    ensures Of64(output) == ReduceWide(old(Of128(tmp))) && Reduced(Of64(output))
  {
    hide Carry, WideFits;
    ghost var t := Of128(tmp);
    ReduceWideFits(t);
    WideQuarter(t);
    CarryWide(tmp);
    var b4, b0 := tmp[4], tmp[0];
    var top: u64 := b4 / R;
    tmp[4] := b4 % R;
    tmp[0] := b0 + 19 * top;
    CopyFromWide(output, tmp);
    var i0, i1 := output[0], output[1];
    output[0] := i0 % R;
    output[1] := i1 + i0 / R;
  }

  lemma WideQuarter(t: Limbs)
    requires WideFits(t)
    ensures Bounded(t, TWO128 / 4)
  {
  }

  /** The limbs cut down to 64 bits; they fit. */
  method CopyFromWide(output: array<u64>, input: array<u128>)
    requires output.Length == 5 && input.Length == 5 && Bounded(Of128(input), TWO64 - 1)
    modifies output
    ensures Of64(output) == Of128(input)
  {
    output[0] := input[0];
    output[1] := input[1];
    output[2] := input[2];
    output[3] := input[3];
    output[4] := input[4];
  }

  /** A limb in place k of an operand that was shifted r times: those that came around are up to 19 times the bound. */
  ghost predicate Shifted(a: Limbs, r: nat) {
    && a.l0 <= (if 0 < r then 19 * BOUND else BOUND) && a.l1 <= (if 1 < r then 19 * BOUND else BOUND)
    && a.l2 <= (if 2 < r then 19 * BOUND else BOUND) && a.l3 <= (if 3 < r then 19 * BOUND else BOUND) && a.l4 <= BOUND
  }

  lemma ShiftedMore(a: Limbs, r: nat)
    requires r < 4 && Shifted(a, r)
    ensures Shifted(ShiftReduce(a), r + 1)
  {
  }

  /** The rows so far. */
  ghost predicate Rows(t: Limbs, r: nat) {
    Bounded(t, r * (19 * BOUND * BOUND)) && t.l4 <= r * (BOUND * BOUND)
  }

  lemma RowsMore(t: Limbs, r: nat, a: Limbs, s: nat)
    requires r < 5 && Rows(t, r) && Shifted(a, r) && s <= BOUND
    ensures Rows(SumScaled(t, a, s), r + 1) && RowFits(t, a, s)
  {
    hide Shifted;
    ShiftedBounds(a, r);
    RowMore(t.l0, r, a.l0, s, 19);
    RowMore(t.l1, r, a.l1, s, 19);
    RowMore(t.l2, r, a.l2, s, 19);
    RowMore(t.l3, r, a.l3, s, 19);
    RowMore(t.l4, r, a.l4, s, 1);
  }

  /** One limb of one more row. */
  lemma RowMore(t: nat, r: nat, x: nat, s: nat, k: nat)
    requires r < 5 && k <= 19 && t <= r * (k * BOUND * BOUND) && x <= k * BOUND && s <= BOUND
    ensures t + x * s <= (r + 1) * (k * BOUND * BOUND) <= TWO128 - 1
    ensures t + x * s <= (r + 1) * (19 * BOUND * BOUND)
  {
    ProductBound(x, s, k);
    var kb := k * BOUND * BOUND;
    assert (r + 1) * kb == r * kb + kb;
    assert kb <= 19 * BOUND * BOUND;
    assert (r + 1) * kb <= 5 * kb && (r + 1) * kb <= (r + 1) * (19 * BOUND * BOUND);
  }

  lemma ShiftedBounds(a: Limbs, r: nat)
    requires Shifted(a, r)
    ensures Bounded(a, 19 * BOUND) && a.l4 <= BOUND
  {
  }

  lemma ProductBound(x: nat, s: nat, k: nat)
    requires x <= k * BOUND && s <= BOUND
    ensures x * s <= k * BOUND * BOUND
  {
    assert x * s <= (k * BOUND) * s <= (k * BOUND) * BOUND;
  }

  /** The five rows of the product. */
  method MulShiftReduce(output: array<u128>, input: array<u64>, input2: array<u64>)
    requires output.Length == 5 && input.Length == 5 && input2.Length == 5 && input != input2
    requires Of128(output) == Limbs(0, 0, 0, 0, 0) && Bounded(Of64(input), BOUND) && Bounded(Of64(input2), BOUND)
    modifies output, input
    ensures Of128(output) == Wide(old(Of64(input)), Of64(input2)) && Rows(Of128(output), 5)
  {
    hide ShiftReduce, SumScaled, Rows, RowFits;
    ghost var a, b, t := Of64(input), Of64(input2), Of128(output);
    RowsNone();
    RowsMore(t, 0, a, b.l0);
    SumScalarMultiplication(output, input, input2[0]);
    ShiftedMore(a, 0);
    FmulShiftReduce(input);
    RowsMore(Of128(output), 1, Of64(input), b.l1);
    SumScalarMultiplication(output, input, input2[1]);
    ShiftedMore(Of64(input), 1);
    FmulShiftReduce(input);
    RowsMore(Of128(output), 2, Of64(input), b.l2);
    SumScalarMultiplication(output, input, input2[2]);
    ShiftedMore(Of64(input), 2);
    FmulShiftReduce(input);
    RowsMore(Of128(output), 3, Of64(input), b.l3);
    SumScalarMultiplication(output, input, input2[3]);
    ShiftedMore(Of64(input), 3);
    FmulShiftReduce(input);
    RowsMore(Of128(output), 4, Of64(input), b.l4);
    SumScalarMultiplication(output, input, input2[4]);
  }

  lemma RowsNone()
    ensures Rows(Limbs(0, 0, 0, 0, 0), 0)
  {
  }

  lemma RowsFit(t: Limbs)
    requires Rows(t, 5)
    ensures WideFits(t)
  {
  }

  /** The product modulo 2^255 - 19; output may be either operand. */
  method FmulFmul(output: array<u64>, input: array<u64>, input2: array<u64>)
    requires output.Length == 5 && input.Length == 5 && input2.Length == 5
    requires Bounded(Of64(input), BOUND) && Bounded(Of64(input2), BOUND)
    modifies output
    ensures Reduced(Of64(output)) && Same(Eval(Of64(output)), Eval(old(Of64(input))) * Eval(old(Of64(input2))))
  {
    hide Eval, Same, Wide, Rows, WideFits, ReduceWide;
    ghost var a, b := Of64(input), Of64(input2);
    var tmp := new u64[5];
    tmp[0], tmp[1], tmp[2], tmp[3], tmp[4] := input[0], input[1], input[2], input[3], input[4];
    var t := new u128[5];
    t[0], t[1], t[2], t[3], t[4] := 0, 0, 0, 0, 0;
    MulShiftReduce(t, tmp, input2);
    RowsFit(Of128(t));
    ReduceInto(t, output);
    EvalReduceWide(Wide(a, b));
    EvalWide(a, b);
    SameTrans(Eval(Of64(output)), Eval(Wide(a, b)), Eval(a) * Eval(b));
  }

  // ---------------------------------------------------------------- squaring

  /** Three products and their sum. */
  function Dot(x: nat, x': nat, y: nat, y': nat, z: nat, z': nat): nat {
    x * x' + y * y' + z * z'
  }

  /** The square's limbs as they are computed, with doubled and nineteenfold limbs shared. */
  ghost function WideSquare(a: Limbs): Limbs {
    var d0, d1, d2, d419 := a.l0 * 2, a.l1 * 2, a.l2 * 2 * 19, a.l4 * 19;
    var d4 := d419 * 2;
    Limbs(Dot(a.l0, a.l0, d4, a.l1, d2, a.l3),
          Dot(d0, a.l1, d4, a.l2, a.l3 * 19, a.l3),
          Dot(d0, a.l2, a.l1, a.l1, d4, a.l3),
          Dot(d0, a.l3, d1, a.l2, a.l4, d419),
          Dot(d0, a.l4, d1, a.l3, a.l2, a.l2))
  }

  /** A doubled cross term stands for the two rows it occurs in. */
  lemma Cross(x: nat, y: nat)
    ensures (x * 2) * y == x * y + y * x
    ensures (x * 19 * 2) * y == (19 * x) * y + (19 * y) * x == (x * 2 * 19) * y
    ensures (x * 19) * x == (19 * x) * x == x * (x * 19)
  {
  }

  lemma WideSquareIsWide(a: Limbs)
    ensures WideSquare(a) == Wide(a, a)
  {
    Cross(a.l4, a.l1);
    Cross(a.l2, a.l3);
    Cross(a.l0, a.l1);
    Cross(a.l4, a.l2);
    Cross(a.l3, a.l3);
    Cross(a.l0, a.l2);
    Cross(a.l4, a.l3);
    Cross(a.l0, a.l3);
    Cross(a.l1, a.l2);
    Cross(a.l4, a.l4);
    Cross(a.l0, a.l4);
    Cross(a.l1, a.l3);
  }

  lemma WideRows(a: Limbs, b: Limbs)
    requires Bounded(a, BOUND) && Bounded(b, BOUND)
    ensures Rows(Wide(a, b), 5)
  {
    hide ShiftReduce, SumScaled, Rows, RowFits;
    var a1 := ShiftReduce(a);
    var a2 := ShiftReduce(a1);
    var a3 := ShiftReduce(a2);
    ShiftedMore(a, 0);
    ShiftedMore(a1, 1);
    ShiftedMore(a2, 2);
    ShiftedMore(a3, 3);
    var t := Limbs(0, 0, 0, 0, 0);
    RowsNone();
    RowsMore(t, 0, a, b.l0);
    var t1 := SumScaled(t, a, b.l0);
    RowsMore(t1, 1, a1, b.l1);
    var t2 := SumScaled(t1, a1, b.l1);
    RowsMore(t2, 2, a2, b.l2);
    var t3 := SumScaled(t2, a2, b.l2);
    RowsMore(t3, 3, a3, b.l3);
    RowsMore(SumScaled(t3, a3, b.l3), 4, ShiftReduce(a3), b.l4);
  }

  /** All parts of a limb fit if the limb does. */
  method SquareLimbs(tmp: array<u128>, output: array<u64>)
    requires tmp.Length == 5 && output.Length == 5 && Bounded(Of64(output), BOUND) && Bounded(WideSquare(Of64(output)), TWO128 - 1)
    modifies tmp
    ensures Of128(tmp) == WideSquare(Of64(output))
  {
    hide Dot;
    var r0, r1, r2, r3, r4 := output[0], output[1], output[2], output[3], output[4];
    var d0: u64, d1: u64, d2: u64, d319: u64, d419: u64 := r0 * 2, r1 * 2, r2 * 2 * 19, r3 * 19, r4 * 19;
    var d4: u64 := d419 * 2;
    tmp[0] := Dot(r0, r0, d4, r1, d2, r3);
    tmp[1] := Dot(d0, r1, d4, r2, d319, r3);
    tmp[2] := Dot(d0, r2, r1, r1, d4, r3);
    tmp[3] := Dot(d0, r3, d1, r2, r4, d419);
    tmp[4] := Dot(d0, r4, d1, r3, r2, r2);
  }

  /** The square modulo 2^255 - 19, in place. */
  method FsquareInPlace(tmp: array<u128>, output: array<u64>)
    requires tmp.Length == 5 && output.Length == 5 && Bounded(Of64(output), BOUND)
    modifies tmp, output
    ensures Reduced(Of64(output)) && Same(Eval(Of64(output)), Eval(old(Of64(output))) * Eval(old(Of64(output))))
  {
    hide Eval, Same, Wide, WideSquare, Rows, WideFits, ReduceWide;
    ghost var a := Of64(output);
    WideSquareIsWide(a);
    WideRows(a, a);
    RowsFit(Wide(a, a));
    WideIs128(Wide(a, a));
    SquareLimbs(tmp, output);
    ReduceInto(tmp, output);
    EvalReduceWide(Wide(a, a));
    EvalWide(a, a);
    SameTrans(Eval(Of64(output)), Eval(Wide(a, a)), Eval(a) * Eval(a));
  }

  lemma WideIs128(t: Limbs)
    requires WideFits(t)
    ensures Bounded(t, TWO128 - 1)
  {
  }

  // ---------------------------------------------------------------- sums and differences

  method Fsum(a: array<u64>, b: array<u64>)
    requires a.Length == 5 && b.Length == 5 && a != b && Bounded(Of64(a), TWO64 / 2 - 1) && Bounded(Of64(b), TWO64 / 2 - 1)
    modifies a
    ensures Eval(Of64(a)) == Eval(old(Of64(a))) + Eval(Of64(b))
    ensures old(Bounded(Of64(a), 2 * R)) && Bounded(Of64(b), 2 * R) ==> Bounded(Of64(a), BOUND)
  {
    a[0] := a[0] + b[0];
    a[1] := a[1] + b[1];
    a[2] := a[2] + b[2];
    a[3] := a[3] + b[3];
    a[4] := a[4] + b[4];
  }

  const EIGHT_P0: u64 := 0x3fffffffffff68
  const EIGHT_P1: u64 := 0x3ffffffffffff8

  /** a becomes b - a; eight times the modulus is added so that no limb goes below zero. */
  method Fdifference(a: array<u64>, b: array<u64>)
    requires a.Length == 5 && b.Length == 5
    requires Bounded(Of64(a), EIGHT_P0) && Bounded(Of64(b), TWO64 - EIGHT_P1 - 1)
    modifies a
    ensures Eval(Of64(a)) == Eval(old(Of64(b))) - Eval(old(Of64(a))) + 8 * P
    ensures old(Bounded(Of64(b), R + 0x2000)) ==> Bounded(Of64(a), BOUND)
  {
    var t0: u64, t1: u64, t2: u64, t3: u64, t4: u64 :=
      b[0] + EIGHT_P0, b[1] + EIGHT_P1, b[2] + EIGHT_P1, b[3] + EIGHT_P1, b[4] + EIGHT_P1;
    a[0] := t0 - a[0];
    a[1] := t1 - a[1];
    a[2] := t2 - a[2];
    a[3] := t3 - a[3];
    a[4] := t4 - a[4];
  }

  /** The difference is congruent to b - a. */
  lemma DifferenceIs(x: nat, a: nat, b: nat)
    requires x == b - a + 8 * P
    ensures Same(x, b - a)
  {
    SameBy(x, b - a, 8);
  }

  // ---------------------------------------------------------------- powers

  /** The limbs stand for the e-th power of z. */
  ghost predicate IsPower(x: int, z: int, e: nat) { Same(x, Pow(z, e)) }

  lemma PowerProduct(x: int, y: int, xy: int, z: int, d: nat, e: nat)
    requires IsPower(x, z, d) && IsPower(y, z, e) && Same(xy, x * y)
    ensures IsPower(xy, z, d + e)
  {
    SameMul(x, Pow(z, d), y, Pow(z, e));
    PowAdd(z, d, e);
    SameTrans(xy, x * y, Pow(z, d + e));
  }

  lemma PowerItself(z: int)
    ensures IsPower(z, z, 1)
  {
    assert Pow(z, 1) == z * Pow(z, 0) == z;
    SameBy(z, z, 0);
  }

  /** The array holds the e-th power of z, within the bounds all operations take. */
  ghost predicate Power(a: array<u64>, z: int, e: nat)
    reads a
  {
    a.Length == 5 && Bounded(Of64(a), BOUND) && IsPower(Eval(Of64(a)), z, e)
  }

  /** Squares the value count times. */
  method FsquareTimesInPlace(output: array<u64>, count: nat, ghost z: int, ghost e: nat, ghost f: nat)
    requires count >= 1 && Power(output, z, e) && f == TwoTo(count)
    modifies output
    ensures Power(output, z, e * f) && Reduced(Of64(output))
  {
    hide Eval, IsPower;
    var t := new u128[5];
    ghost var x := Eval(Of64(output));
    FsquareInPlace(t, output);
    PowerProduct(x, x, Eval(Of64(output)), z, e, e);
    TwoToOne();
    assert e + e == e * TwoTo(1);
    var i := 1;
    while i < count
      invariant 1 <= i <= count && Reduced(Of64(output)) && fresh(t)
      invariant IsPower(Eval(Of64(output)), z, e * TwoTo(i))
    {
      x := Eval(Of64(output));
      FsquareInPlace(t, output);
      PowerProduct(x, x, Eval(Of64(output)), z, e * TwoTo(i), e * TwoTo(i));
      Doubled(e, i);
      i := i + 1;
    }
  }

  lemma TwoToOne()
    ensures TwoTo(1) == 2
  {
  }

  lemma Doubled(e: nat, i: nat)
    ensures e * TwoTo(i) + e * TwoTo(i) == e * TwoTo(i + 1)
  {
  }

  method FsquareTimes(output: array<u64>, input: array<u64>, count: nat, ghost z: int, ghost e: nat, ghost f: nat)
    requires output.Length == 5 && count >= 1 && Power(input, z, e) && f == TwoTo(count)
    modifies output
    ensures Power(output, z, e * f) && Reduced(Of64(output))
  {
    hide Eval, IsPower;
    output[0], output[1], output[2], output[3], output[4] := input[0], input[1], input[2], input[3], input[4];
    FsquareTimesInPlace(output, count, z, e, f);
  }

  /** Multiplication, with the powers it is used for. */
  method FmulPowers(output: array<u64>, input: array<u64>, input2: array<u64>, ghost z: int, ghost d: nat, ghost e: nat)
    requires output.Length == 5 && Power(input, z, d) && Power(input2, z, e)
    modifies output
    ensures Power(output, z, d + e) && Reduced(Of64(output))
  {
    hide Eval, IsPower;
    ghost var x, y := Eval(Of64(input)), Eval(Of64(input2));
    FmulFmul(output, input, input2);
    PowerProduct(x, y, Eval(Of64(output)), z, d, e);
  }

  lemma ItselfPower(z: array<u64>)
    requires z.Length == 5 && Bounded(Of64(z), BOUND)
    ensures Power(z, Eval(Of64(z)), 1)
  {
    hide Eval, IsPower;
    PowerItself(Eval(Of64(z)));
  }

  lemma TwoToValues()
    ensures TwoTo(1) == 2 && TwoTo(2) == 4 && TwoTo(5) == 0x20 && TwoTo(10) == 0x400 && TwoTo(20) == 0x10_0000
    ensures TwoTo(50) == 0x4_0000_0000_0000 && TwoTo(100) == 0x10_0000_0000_0000_0000_0000_0000
  {
    TwoToAdd(5, 5);
    TwoToAdd(10, 10);
    TwoToAdd(20, 20);
    TwoToAdd(40, 10);
    TwoToAdd(50, 50);
  }

  /** The exponent that inverts, by Fermat's little theorem: section 4.1 of RFC 7748. */
  const INVERSE_EXPONENT: nat := 0x7fffffffffffffffffffffffffffffffffffffffffffffffffffffffffffffeb

  /** The three stretches of the addition chain. */
  method CrecipFirst(z: array<u64>, a: array<u64>, t: array<u64>, b: array<u64>, ghost v: int)
    requires a.Length == 5 && t.Length == 5 && b.Length == 5 && a != t && a != b && t != b && z != a && z != t && z != b && Power(z, v, 1)
    modifies a, t, b
    ensures Power(a, v, 11) && Power(b, v, 0x3ff)
  {
    hide Power, TwoTo, Reduced;
    TwoToValues();
    FsquareTimes(a, z, 1, v, 1, 2);
    FsquareTimes(t, a, 2, v, 2, 4);
    FmulPowers(b, t, z, v, 8, 1);
    FmulPowers(a, b, a, v, 9, 2);
    FsquareTimes(t, a, 1, v, 11, 2);
    FmulPowers(b, t, b, v, 22, 9);
    FsquareTimes(t, b, 5, v, 31, 0x20);
    FmulPowers(b, t, b, v, 992, 31);
  }

  method CrecipSecond(t: array<u64>, b: array<u64>, c: array<u64>, ghost v: int)
    requires t.Length == 5 && b.Length == 5 && c.Length == 5 && t != b && t != c && b != c && Power(b, v, 0x3ff)
    modifies t, b, c
    ensures Power(b, v, 0x3_ffff_ffff_ffff)
  {
    hide Power, TwoTo, Reduced;
    TwoToValues();
    FsquareTimes(t, b, 10, v, 0x3ff, 0x400);
    FmulPowers(c, t, b, v, 0xf_fc00, 0x3ff);
    FsquareTimes(t, c, 20, v, 0xf_ffff, 0x10_0000);
    FmulPowers(t, t, c, v, 0xff_fff0_0000, 0xf_ffff);
    FsquareTimesInPlace(t, 10, v, 0xff_ffff_ffff, 0x400);
    FmulPowers(b, t, b, v, 0x3_ffff_ffff_fc00, 0x3ff);
  }

  method CrecipThird(t: array<u64>, b: array<u64>, c: array<u64>, ghost v: int)
    requires t.Length == 5 && b.Length == 5 && c.Length == 5 && t != b && t != c && b != c && Power(b, v, 0x3_ffff_ffff_ffff)
    modifies t, c
    ensures Power(t, v, 0x7fffffffffffffffffffffffffffffffffffffffffffffffffffffffffffffe0)
  {
    hide Power, TwoTo, Reduced;
    TwoToValues();
    FsquareTimes(t, b, 50, v, 0x3_ffff_ffff_ffff, 0x4_0000_0000_0000);
    FmulPowers(c, t, b, v, 0xffffffffffffc000000000000, 0x3_ffff_ffff_ffff);
    FsquareTimes(t, c, 100, v, 0xfffffffffffffffffffffffff, 0x10_0000_0000_0000_0000_0000_0000);
    FmulPowers(t, t, c, v, 0xfffffffffffffffffffffffff0000000000000000000000000, 0xfffffffffffffffffffffffff);
    FsquareTimesInPlace(t, 50, v, 0xffffffffffffffffffffffffffffffffffffffffffffffffff, 0x4_0000_0000_0000);
    FmulPowers(t, t, b, v, 0x3fffffffffffffffffffffffffffffffffffffffffffffffffc000000000000, 0x3_ffff_ffff_ffff);
    FsquareTimesInPlace(t, 5, v, 0x3ffffffffffffffffffffffffffffffffffffffffffffffffffffffffffffff, 0x20);
  }

  /** The inverse: z to the power 2^255 - 21. */
  method CrecipCrecip(out: array<u64>, z: array<u64>)
    requires out.Length == 5 && z.Length == 5 && Bounded(Of64(z), BOUND)
    modifies out
    ensures Reduced(Of64(out)) && Power(out, old(Eval(Of64(z))), INVERSE_EXPONENT)
  {
    hide Power, Reduced;
    ghost var v: int := Eval(Of64(z));
    ItselfPower(z);
    var a, t, b, c := new u64[5], new u64[5], new u64[5], new u64[5];
    CrecipFirst(z, a, t, b, v);
    CrecipSecond(t, b, c, v);
    CrecipThird(t, b, c, v);
    FmulPowers(out, t, a, v, 0x7fffffffffffffffffffffffffffffffffffffffffffffffffffffffffffffe0, 11);
  }

  // ---------------------------------------------------------------- the other inversion chain

  /** Multiplication as the 32-bit limb routines promise it. */
  function FeMul(x: nat, y: nat): nat { x * y % P }

  lemma FeMulPower(x: nat, y: nat, z: int, d: nat, e: nat)
    requires IsPower(x, z, d) && IsPower(y, z, e)
    ensures IsPower(FeMul(x, y), z, d + e)
  {
    hide IsPower;
    var q: int := x * y / P;
    SameBy(FeMul(x, y), x * y, -q);
    PowerProduct(x, y, FeMul(x, y), z, d, e);
  }

  /** One squaring, and then count - 1 more. */
  method FeSqTimes(x: nat, count: nat, ghost z: int, ghost e: nat, ghost f: nat) returns (r: nat)
    requires count >= 1 && IsPower(x, z, e) && f == TwoTo(count)
    ensures r < P && IsPower(r, z, e * f)
  {
    hide IsPower, FeMul;
    r := FeMul(x, x);
    FeMulPower(x, x, z, e, e);
    TwoToOne();
    FeMulSmall(x, x);
    assert e + e == e * TwoTo(1);
    var i := 1;
    while i < count
      invariant 1 <= i <= count && r < P && IsPower(r, z, e * TwoTo(i))
    {
      FeMulPower(r, r, z, e * TwoTo(i), e * TwoTo(i));
      Doubled(e, i);
      FeMulSmall(r, r);
      r := FeMul(r, r);
      i := i + 1;
    }
  }

  lemma FeMulSmall(x: nat, y: nat)
    ensures FeMul(x, y) < P
  {
  }

  method FeMulPowers(x: nat, y: nat, ghost z: int, ghost d: nat, ghost e: nat) returns (r: nat)
    requires IsPower(x, z, d) && IsPower(y, z, e)
    ensures r < P && IsPower(r, z, d + e)
  {
    hide IsPower;
    r := FeMul(x, y);
    FeMulPower(x, y, z, d, e);
  }

  /** The same power by another order of steps. */
  method FeLooseInvert(z: nat) returns (out: nat)
    ensures out < P && IsPower(out, z, INVERSE_EXPONENT)
  {
    hide IsPower, TwoTo;
    TwoToValues();
    PowerItself(z);
    var t0 := FeSqTimes(z, 1, z, 1, 2);
    var t1 := FeSqTimes(t0, 2, z, 2, 4);
    t1 := FeMulPowers(z, t1, z, 1, 8);
    t0 := FeMulPowers(t0, t1, z, 2, 9);
    var t2 := FeSqTimes(t0, 1, z, 11, 2);
    t1 := FeMulPowers(t1, t2, z, 9, 22);
    t2 := FeSqTimes(t1, 5, z, 31, 0x20);
    t1 := FeMulPowers(t2, t1, z, 992, 31);
    t2 := FeSqTimes(t1, 10, z, 0x3ff, 0x400);
    t2 := FeMulPowers(t2, t1, z, 0xf_fc00, 0x3ff);
    var t3 := FeSqTimes(t2, 20, z, 0xf_ffff, 0x10_0000);
    t2 := FeMulPowers(t3, t2, z, 0xff_fff0_0000, 0xf_ffff);
    t2 := FeSqTimes(t2, 10, z, 0xff_ffff_ffff, 0x400);
    t1 := FeMulPowers(t2, t1, z, 0x3_ffff_ffff_fc00, 0x3ff);
    t2 := FeSqTimes(t1, 50, z, 0x3_ffff_ffff_ffff, 0x4_0000_0000_0000);
    t2 := FeMulPowers(t2, t1, z, 0xffffffffffffc000000000000, 0x3_ffff_ffff_ffff);
    t3 := FeSqTimes(t2, 100, z, 0xfffffffffffffffffffffffff, 0x10_0000_0000_0000_0000_0000_0000);
    t2 := FeMulPowers(t3, t2, z, 0xfffffffffffffffffffffffff0000000000000000000000000, 0xfffffffffffffffffffffffff);
    t2 := FeSqTimes(t2, 50, z, 0xffffffffffffffffffffffffffffffffffffffffffffffffff, 0x4_0000_0000_0000);
    t1 := FeMulPowers(t2, t1, z, 0x3fffffffffffffffffffffffffffffffffffffffffffffffffc000000000000, 0x3_ffff_ffff_ffff);
    t1 := FeSqTimes(t1, 5, z, 0x3ffffffffffffffffffffffffffffffffffffffffffffffffffffffffffffff, 0x20);
    out := FeMulPowers(t1, t0, z, 0x7fffffffffffffffffffffffffffffffffffffffffffffffffffffffffffffe0, 11);
  }

  // ---------------------------------------------------------------- the canonical form

  /** One carry pass on 64-bit limbs. */
  method ContractCarryPass(input: array<u64>)
    requires input.Length == 5 && Bounded(Of64(input), TWO64 - 0x4000)
    modifies input
    ensures Of64(input) == Carry(old(Of64(input)))
  {
    var t0, t1, t2, t3, t4 := input[0], input[1], input[2], input[3], input[4];
    var t1': u64 := t1 + t0 / R;
    var t2': u64 := t2 + t1' / R;
    var t3': u64 := t3 + t2' / R;
    var t4': u64 := t4 + t3' / R;
    input[0], input[1], input[2], input[3], input[4] := t0 % R, t1' % R, t2' % R, t3' % R, t4';
  }

  method ModuloCarryTop(b: array<u64>)
    requires b.Length == 5 && b[0] < R
    modifies b
    ensures Of64(b) == CarryTop(old(Of64(b)))
  {
    var b4, b0 := b[4], b[0];
    b[4] := b4 % R;
    b[0] := b0 + 19 * (b4 / R);
  }

  /** All limbs within 51 bits. */
  ghost predicate Tight(a: Limbs) { Bounded(a, R - 1) }

  /** After one full carry little is left to carry. */
  lemma FirstCarry(t: Limbs)
    requires Bounded(t, TWO64 - 0x4000)
    ensures var u := CarryTop(Carry(t)); u.l0 < R + 0x4_0000 && u.l1 < R && u.l2 < R && u.l3 < R && u.l4 < R
  {
  }

  /** After the second, and one more carry out of the first limb, nothing is. */
  lemma SecondCarry(u: Limbs)
    requires u.l0 < R + 0x4_0000 && u.l1 < R && u.l2 < R && u.l3 < R && u.l4 < R
    ensures Tight(CarryFirst(CarryTop(Carry(u))))
  {
    var k1 := u.l0 / R;
    CarryBit(u.l1, k1);
    var k2 := (u.l1 + k1) / R;
    CarryBit(u.l2, k2);
    var k3 := (u.l2 + k2) / R;
    CarryBit(u.l3, k3);
    var k4 := (u.l3 + k3) / R;
    CarryBit(u.l4, k4);
    var top := (u.l4 + k4) / R;
    LastCarry(Carry(u), top);
  }

  /** Adding a carry of one overflows only a full limb, which then is zero. */
  lemma CarryBit(x: nat, k: nat)
    requires x < R && k <= 1
    ensures (x + k) / R <= 1 && ((x + k) / R == 1 ==> k == 1 && (x + k) % R == 0)
  {
  }

  lemma LastCarry(t: Limbs, top: nat)
    requires t.l0 < R && t.l1 < R && t.l2 < R && t.l3 < R && top == t.l4 / R <= 1 && (top == 1 ==> t.l1 == 0)
    ensures Tight(CarryFirst(CarryTop(t)))
  {
  }

  method ContractCarry(input: array<u64>)
    requires input.Length == 5 && Bounded(Of64(input), TWO64 - 0x4000)
    modifies input
    ensures Tight(Of64(input)) && Same(Eval(Of64(input)), old(Eval(Of64(input))))
  {
    hide Eval, Same;
    ghost var t := Of64(input);
    EvalCarry(t);
    EvalCarryTop(Carry(t));
    FirstCarry(t);
    ContractCarryPass(input);
    ModuloCarryTop(input);
    ghost var u := Of64(input);
    EvalCarry(u);
    EvalCarryTop(Carry(u));
    EvalCarryFirst(CarryTop(Carry(u)));
    SecondCarry(u);
    ContractCarryPass(input);
    ModuloCarryTop(input);
    var i0, i1 := input[0], input[1];
    input[0] := i0 % R;
    input[1] := i1 + i0 / R;
    SameTrans(Eval(Of64(input)), Eval(u), Eval(t));
  }

  const P0: u64 := 0x7ffffffffffed
  const P1: u64 := 0x7ffffffffffff

  /** Limbs within 51 bits stand for the modulus or more exactly when the upper four are full and the first reaches its part. */
  lemma AtLeastP(a: Limbs)
    requires Tight(a)
    ensures Eval(a) >= P <==> a.l0 >= P0 && a.l1 == P1 && a.l2 == P1 && a.l3 == P1 && a.l4 == P1
    ensures Eval(a) < P + 19
  {
    Powers();
  }

  /** The mask that is all ones when the limbs stand for the modulus or more, zero otherwise. */
  function TrimMask(a0: u64, a1: u64, a2: u64, a3: u64, a4: u64): u64 {
    Word(And, Word(And, Word(And, Word(And, GteMask(a0, P0), EqMask(a1, P1)), EqMask(a2, P1)), EqMask(a3, P1)), EqMask(a4, P1))
  }

  lemma TrimMaskIs(a0: u64, a1: u64, a2: u64, a3: u64, a4: u64)
    ensures TrimMask(a0, a1, a2, a3, a4) == if a0 >= P0 && a1 == P1 && a2 == P1 && a3 == P1 && a4 == P1 then ONES else 0
  {
    hide GteMask, EqMask, Word;
    GteMaskIs(a0, P0);
    EqMaskIs(a1, P1);
    EqMaskIs(a2, P1);
    EqMaskIs(a3, P1);
    EqMaskIs(a4, P1);
    Masked(GteMask(a0, P0), EqMask(a1, P1));
    var m1 := Word(And, GteMask(a0, P0), EqMask(a1, P1));
    Masked(m1, EqMask(a2, P1));
    var m2 := Word(And, m1, EqMask(a2, P1));
    Masked(m2, EqMask(a3, P1));
    Masked(Word(And, m2, EqMask(a3, P1)), EqMask(a4, P1));
  }

  /** The value is brought below the modulus. */
  method ContractTrim(input: array<u64>)
    requires input.Length == 5 && Tight(Of64(input))
    modifies input
    ensures Tight(Of64(input)) && Eval(Of64(input)) == old(Eval(Of64(input))) % P
  {
    hide TrimMask, Word;
    var a0, a1, a2, a3, a4 := input[0], input[1], input[2], input[3], input[4];
    AtLeastP(Of64(input));
    var mask := TrimMask(a0, a1, a2, a3, a4);
    TrimMaskIs(a0, a1, a2, a3, a4);
    Masked(mask, P0);
    Masked(mask, P1);
    input[0] := a0 - Word(And, mask, P0);
    input[1] := a1 - Word(And, mask, P1);
    input[2] := a2 - Word(And, mask, P1);
    input[3] := a3 - Word(And, mask, P1);
    input[4] := a4 - Word(And, mask, P1);
  }

  /** The canonical representative: the limbs of the value modulo 2^255 - 19. */
  method Contract(input: array<u64>)
    requires input.Length == 5 && Bounded(Of64(input), TWO64 - 0x4000)
    modifies input
    ensures Tight(Of64(input)) && Eval(Of64(input)) == old(Eval(Of64(input))) % P
  {
    hide Eval, Same;
    ghost var x := Eval(Of64(input));
    ContractCarry(input);
    ghost var y := Eval(Of64(input));
    ContractTrim(input);
    SameRemainder(y, x);
  }

  lemma SameRemainder(x: nat, y: nat)
    requires Same(x, y)
    ensures x % P == y % P
  {
    var q := SameGives(x, y);
    var a, r := y / P, y % P;
    assert x == (a + q) * P + r;
    RemainderIs(x, P, a + q, r);
  }

  lemma RemainderIs(x: nat, n: nat, q: int, r: nat)
    requires n > 0 && x == q * n + r && r < n
    ensures x % n == r
  {
    var q', r' := x / n, x % n;
    assert (q - q') * n == r' - r;
    if q - q' >= 1 {
      Grows(n, q - q');
    } else if q' - q >= 1 {
      Grows(n, q' - q);
    }
  }

  /** Shifting left within 64 bits keeps the low bits. */
  lemma ShiftedLeft(t: nat, s: nat, m: nat)
    requires s * m == TWO64
    ensures m > 0 && t * s % TWO64 == (t % m) * s
  {
    var q, r := t / m, t % m;
    assert t * s == q * TWO64 + r * s by {
      assert (q * m + r) * s == q * (m * s) + r * s;
    }
    assert r * s < m * s;
    RemainderIs(t * s, TWO64, q, r * s);
  }

  lemma Packed(a: Limbs)
    requires Tight(a)
    ensures var o0, o1 := (a.l1 % 0x2000) * 0x8_0000_0000_0000 + a.l0, (a.l2 % 0x400_0000) * 0x40_0000_0000 + a.l1 / 0x2000;
            var o2, o3 := (a.l3 % 0x80_0000_0000) * 0x200_0000 + a.l2 / 0x400_0000, a.l4 * 0x1000 + a.l3 / 0x80_0000_0000;
            && o0 < TWO64 && o1 < TWO64 && o2 < TWO64 && o3 < TWO64
            && o0 + TWO64 * o1 + TWO64 * TWO64 * o2 + TWO64 * TWO64 * TWO64 * o3 == Eval(a)
  {
    Powers();
  }

  /** Packing the limbs into four 64-bit words. */
  method ContractStore(input: array<u64>) returns (o0: u64, o1: u64, o2: u64, o3: u64)
    requires input.Length == 5 && Tight(Of64(input))
    ensures o0 + TWO64 * o1 + TWO64 * TWO64 * o2 + TWO64 * TWO64 * TWO64 * o3 == Eval(Of64(input))
  {
    var t0, t1, t2, t3, t4 := input[0], input[1], input[2], input[3], input[4];
    ShiftedLeft(t1, 0x8_0000_0000_0000, 0x2000);
    ShiftedLeft(t2, 0x40_0000_0000, 0x400_0000);
    ShiftedLeft(t3, 0x200_0000, 0x80_0000_0000);
    Packed(Of64(input));
    o0 := t1 * 0x8_0000_0000_0000 % TWO64 + t0;
    o1 := t2 * 0x40_0000_0000 % TWO64 + t1 / 0x2000;
    o2 := t3 * 0x200_0000 % TWO64 + t2 / 0x400_0000;
    o3 := t4 * 0x1000 % TWO64 + t3 / 0x80_0000_0000;
  }

  // ---------------------------------------------------------------- reading a value

  /** A 64-bit load from byte offset k of a little-endian number. */
  function Load64(n: nat, unit: nat): u64
    requires unit > 0
  {
    n / unit % TWO64
  }

  lemma QuotientIs(x: nat, n: nat, q: int, r: nat)
    requires n > 0 && x == q * n + r && r < n
    ensures x / n == q
  {
    RemainderIs(x, n, q, r);
    var d := q - x / n;
    assert d * n == 0;
    if d >= 1 {
      Grows(n, d);
    } else if d <= -1 {
      Grows(n, -d);
    }
  }

  lemma Euclid(x: nat, n: nat) returns (q: nat, r: nat)
    requires n > 0
    ensures q == x / n && r == x % n && x == q * n + r && r < n
  {
    q, r := x / n, x % n;
  }

  lemma Regroup(q: int, b: int, r: int, a: int)
    ensures (q * b + r) * a == q * (a * b) + r * a
  {
    assert (q * b + r) * a == (q * b) * a + r * a;
    assert (q * b) * a == q * (b * a);
  }

  lemma Below(r: nat, b: nat, s: nat, a: nat)
    requires r < b && s < a
    ensures r * a + s < a * b
  {
    Grows(a, b - r);
    assert (b - r) * a == b * a - r * a;
  }

  /** Dividing twice is dividing once. */
  lemma DivDiv(x: nat, a: nat, b: nat)
    requires a > 0 && b > 0
    ensures a * b > 0 && x / a / b == x / (a * b)
  {
    var q1, r1 := Euclid(x, a);
    var q, r2 := Euclid(q1, b);
    Regroup(q, b, r2, a);
    Below(r2, b, r1, a);
    QuotientIs(x, a * b, q, r2 * a + r1);
  }

  /** 51 bits from the middle of a 64-bit load are those bits of the number. */
  lemma Window(n: nat, unit: nat, shift: nat, above: nat)
    requires unit > 0 && shift > 0 && above > 0 && shift * (R * above) == TWO64
    ensures unit * shift > 0 && Load64(n, unit) / shift % R == n / (unit * shift) % R
  {
    DivDiv(n, unit, shift);
    WindowOf(n / unit, shift, above);
  }

  lemma WindowOf(x: nat, shift: nat, above: nat)
    requires shift > 0 && above > 0 && shift * (R * above) == TWO64
    ensures x % TWO64 / shift % R == x / shift % R
  {
    var q, y := Euclid(x, TWO64);
    var y', s := Euclid(y, shift);
    Regroup(q, R * above, y', shift);
    QuotientIs(x, shift, q * (R * above) + y', s);
    var d, m := Euclid(y', R);
    assert q * (R * above) == (q * above) * R;
    assert x / shift == (q * above + d) * R + m;
    RemainderIs(x / shift, R, q * above + d, m);
  }

  /** The five limbs of a number's low 255 bits. */
  lemma Digits(n: nat)
    ensures n % (P + 19) == n % R + R * (n / R % R) + R2 * (n / R2 % R) + R3 * (n / R3 % R) + R4 * (n / R4 % R)
  {
    Powers();
    DivDiv(n, R, R);
    DivDiv(n, R2, R);
    DivDiv(n, R3, R);
    DivDiv(n, R4, R);
    var q5 := n / R4 / R;
    var low := n % R + R * (n / R % R) + R2 * (n / R2 % R) + R3 * (n / R3 % R) + R4 * (n / R4 % R);
    assert n == q5 * (P + 19) + low;
    RemainderIs(n, P + 19, q5, low);
  }

  /** Reading a point's coordinate ignores its top bit: section 5 of RFC 7748. */
  method Fexpand(output: array<u64>, n: nat)
    requires output.Length == 5
    modifies output
    ensures Tight(Of64(output)) && Eval(Of64(output)) == n % (P + 19)
  {
    Window(n, 1, 1, 0x2000);
    Window(n, 0x1_0000_0000_0000, 8, 0x400);
    Window(n, 0x1_0000_0000_0000_0000_0000_0000, 0x40, 0x80);
    Window(n, 0x100_0000_0000_0000_0000_0000_0000_0000_0000_0000, 2, 0x1000);
    Window(n, 0x1_0000_0000_0000_0000_0000_0000_0000_0000_0000_0000_0000_0000, 0x1000, 2);
    Digits(n);
    output[0] := Load64(n, 1) % R;
    output[1] := Load64(n, 0x1_0000_0000_0000) / 8 % R;
    output[2] := Load64(n, 0x1_0000_0000_0000_0000_0000_0000) / 0x40 % R;
    output[3] := Load64(n, 0x100_0000_0000_0000_0000_0000_0000_0000_0000_0000) / 2 % R;
    output[4] := Load64(n, 0x1_0000_0000_0000_0000_0000_0000_0000_0000_0000_0000_0000_0000) / 0x1000 % R;
  }
}
