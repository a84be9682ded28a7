/** The exponentiation chains of field.go. */
module FieldPower {
  import opened Bits
  import opened FieldLimbs
  import opened FieldProduct
  import opened GroupElement

  function Power(v: int, n: nat): int {
    if n == 0 then 1 else v * Power(v, n - 1)
  }

  lemma {:induction false} PowerAdd(v: int, m: nat, n: nat)
    ensures Power(v, m + n) == Power(v, m) * Power(v, n)
  {
    if m > 0 {
      PowerAdd(v, m - 1, n);
      assert v * (Power(v, m - 1) * Power(v, n)) == Power(v, m) * Power(v, n);
    }
  }

  /** f stands for v^n. */
  ghost predicate IsPower(f: Limbs, v: int, n: nat) {
    Repr(f, Power(v, n), 1)
  }

  // FeMul
  method Product(f: Limbs, g: Limbs, ghost v: int, ghost m: nat, ghost n: nat) returns (h: Limbs)
    requires IsPower(f, v, m) && IsPower(g, v, n)
    ensures IsPower(h, v, m + n)
  {
    hide Repr, Mul;
    h := Mul(f, g);
    ReprMul(f, Power(v, m), 1, g, Power(v, n), 1);
    PowerAdd(v, m, n);
  }

  // FeSquare, then k - 1 more times in place
  method Squares(f: Limbs, k: nat, ghost v: int, ghost n: nat) returns (h: Limbs)
    requires k > 0 && IsPower(f, v, n)
    ensures IsPower(h, v, n * Pow2(k))
  {
    hide Repr, Square, Power;
    h := Squared(f, v, n);
    var i := 1;
    assert Pow2(1) == 2;
    while i < k
      invariant 1 <= i <= k
      invariant IsPower(h, v, n * Pow2(i))
    {
      h := Squared(h, v, n * Pow2(i));
      assert 2 * (n * Pow2(i)) == n * Pow2(i + 1);
      i := i + 1;
    }
  }

  method Squared(f: Limbs, ghost v: int, ghost n: nat) returns (h: Limbs)
    requires IsPower(f, v, n)
    ensures IsPower(h, v, 2 * n)
  {
    hide Repr, Square, Power;
    h := Square(f);
    ReprSquare(f, Power(v, n), 1);
    PowerAdd(v, n, n);
  }

  /** (2^a - 1) 2^b + (2^b - 1) = 2^(a+b) - 1 */
  lemma Ones(a: nat, b: nat)
    ensures Pow2(a) - 1 >= 0 && (Pow2(a) - 1) * Pow2(b) + (Pow2(b) - 1) == Pow2(a + b) - 1
  {
    PowAdd(a, b);
  }

  // z^11 and z^(2^250 - 1), which both chains build
  method Prefix(z: Limbs, ghost v: int) returns (eleven: Limbs, ones: Limbs)
    requires IsPower(z, v, 1)
    ensures IsPower(eleven, v, 11)
    ensures IsPower(ones, v, Pow2(250) - 1)
  {
    hide IsPower, Pow2;
    SmallOnes();
    var t0 := Squares(z, 1, v, 1);
    var t1 := Squares(t0, 2, v, 2);
    t1 := Product(z, t1, v, 1, 8);
    t0 := Product(t0, t1, v, 2, 9);
    eleven := t0;
    var t2 := Squares(t0, 1, v, 11);
    t1 := Product(t1, t2, v, 9, 22);
    t1 := Append(t1, t1, v, 5, 5);
    t2 := Append(t1, t1, v, 10, 10);
    t2 := Append(t2, t2, v, 20, 20);
    t1 := Append(t2, t1, v, 40, 10);
    t2 := Append(t1, t1, v, 50, 50);
    t2 := Append(t2, t2, v, 100, 100);
    ones := Append(t2, t1, v, 200, 50);
  }

  // square b times, then multiply: the exponent a ones long becomes a + b ones long
  method Append(f: Limbs, g: Limbs, ghost v: int, ghost a: nat, b: nat) returns (h: Limbs)
    requires b > 0 && IsPower(f, v, Pow2(a) - 1) && IsPower(g, v, Pow2(b) - 1)
    ensures IsPower(h, v, Pow2(a + b) - 1)
  {
    hide IsPower, Pow2;
    Ones(a, b);
    h := Squares(f, b, v, Pow2(a) - 1);
    h := Product(h, g, v, (Pow2(a) - 1) * Pow2(b), Pow2(b) - 1);
  }

  lemma LastExponents()
    ensures (Pow2(250) - 1) * Pow2(5) + 11 == Pow2(255) - 21
    ensures (Pow2(250) - 1) * Pow2(2) + 1 == Pow2(252) - 3
  {
    hide Pow2;
    SmallOnes();
    PowAdd(250, 5);
    PowAdd(250, 2);
  }

  lemma SmallOnes()
    ensures Pow2(1) == 2 && Pow2(2) == 4 && Pow2(5) == 32 && Pow2(10) > 0
  {
    assert Pow2(3) == 8;
  }

  /** FeInvert raises to 2^255 - 21, which is p - 2. */
  method Invert(z: Limbs, ghost v: int) returns (out: Limbs)
    requires Repr(z, v, 1)
    ensures IsPower(out, v, Pow2(255) - 21) && Pow2(255) - 21 == P - 2
  {
    hide IsPower, Pow2;
    FirstPower(z, v);
    var t0, t1 := Prefix(z, v);
    t1 := Squares(t1, 5, v, Pow2(250) - 1);
    LastExponents();
    WholePower();
    out := Product(t1, t0, v, (Pow2(250) - 1) * Pow2(5), 11);
  }

  /** fePow22523 raises to 2^252 - 3. */
  method Pow22523(z: Limbs, ghost v: int) returns (out: Limbs)
    requires Repr(z, v, 1)
    ensures IsPower(out, v, Pow2(252) - 3)
  {
    hide IsPower, Pow2;
    FirstPower(z, v);
    var t1, t0 := Prefix(z, v);
    t0 := Squares(t0, 2, v, Pow2(250) - 1);
    LastExponents();
    out := Product(t0, z, v, (Pow2(250) - 1) * Pow2(2), 1);
  }

  lemma FirstPower(z: Limbs, v: int)
    requires Repr(z, v, 1)
    ensures IsPower(z, v, 1)
  {
    assert Power(v, 0) == 1;
    assert Power(v, 1) == v;
  }
}
