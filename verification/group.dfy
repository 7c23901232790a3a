/** The pairing group G1 and its scalar field Fr, as the verifier's arithmetic
    needs them. Fr is the integers modulo the prime group order Q. A point of G1
    is kept in discrete-log form: its scalar relative to a fixed generator, so
    point addition and scalar multiplication are arithmetic modulo Q. */
module Group {

  /** Order of G1 (and modulus of Fr) of the BN254 curve mcl's bn_c256 uses by default. */
  const Q: nat := 16798108731015832284940804142231733909759579603404752749028378864165570215949

  type Fr = x: int | 0 <= x < Q

  /** mclBnFr_add, mclBnFr_mul, mclBnFr_neg. Dafny's `%` is Euclidean, so each
      result is the canonical representative in [0, Q). */
  function FrAdd(a: Fr, b: Fr): Fr { (a + b) % Q }
  function FrMul(a: Fr, b: Fr): Fr { (a * b) % Q }
  function FrNeg(a: Fr): Fr { (-(a as int)) % Q }
  function FrSub(a: Fr, b: Fr): Fr { (a - b) % Q }

  /** A point of G1 by its discrete logarithm. */
  datatype Point = Point(log: Fr)

  /** mclBnG1_add and mclBnG1_mul. */
  function PointAdd(p: Point, r: Point): Point { Point((p.log + r.log) % Q) }
  function PointMul(p: Point, k: Fr): Point { Point((p.log * k) % Q) }

  /** mclBnG1_normalize converts projective to affine coordinates; it does not
      change which group element a point is, so in discrete-log form it is the identity. */
  function Normalize(p: Point): Point { p }

  // ---------------------------------------------------------------------------
  // Congruence modulo Q on the integers.

  lemma {:induction false} ModAddMultiple(x: int, k: int)
    ensures (x + Q * k) % Q == x % Q
    decreases if k < 0 then -k else k
  {
    if k > 0 {
      ModAddMultiple(x, k - 1);
      assert x + Q * k == (x + Q * (k - 1)) + Q;
    } else if k < 0 {
      ModAddMultiple(x, k + 1);
      assert x + Q * k == (x + Q * (k + 1)) - Q;
    }
  }

  /** Reducing an operand of a sum or a product modulo Q does not change the residue. */
  lemma ModAddLeft(a: int, b: int)
    ensures (a % Q + b) % Q == (a + b) % Q
  {
    ModAddMultiple(a % Q + b, a / Q);
    assert a % Q + b + Q * (a / Q) == a + b;
  }

  lemma ModMulLeft(a: int, b: int)
    ensures (a % Q * b) % Q == (a * b) % Q
  {
    ModAddMultiple(a % Q * b, (a / Q) * b);
    assert a % Q * b + Q * ((a / Q) * b) == a * b by {
      assert a == a % Q + Q * (a / Q);
    }
  }

  lemma ModNeg(a: int)
    ensures (-(a % Q)) % Q == (-a) % Q
  {
    ModAddMultiple(-(a % Q), -(a / Q));
    assert -(a % Q) + Q * (-(a / Q)) == -a;
  }

  /** Congruence modulo Q. */
  predicate Cong(a: int, b: int)
  {
    a % Q == b % Q
  }

  /** Each field operation is the integer operation, up to congruence. */
  lemma FrAddCong(a: Fr, b: Fr)
    ensures Cong(FrAdd(a, b), a + b)
  {
    ModReduce(a + b);
  }

  lemma FrMulCong(a: Fr, b: Fr)
    ensures Cong(FrMul(a, b), a * b)
  {
    ModReduce(a * b);
  }

  lemma FrNegCong(a: Fr)
    ensures Cong(FrNeg(a), -(a as int))
  {
    ModReduce(-(a as int));
  }

  lemma FrSubCong(a: Fr, b: Fr)
    ensures Cong(FrSub(a, b), a - b)
  {
    ModReduce(a - b);
  }

  lemma ModReduce(x: int)
    ensures (x % Q) % Q == x % Q
  {
  }

  lemma CongAdd(a: int, a': int, b: int, b': int)
    requires Cong(a, a') && Cong(b, b')
    ensures Cong(a + b, a' + b')
  {
    ModAddLeft(a, b);
    ModAddLeft(a', b);
    ModAddLeft(b, a');
    ModAddLeft(b', a');
  }

  lemma CongMul(a: int, a': int, b: int, b': int)
    requires Cong(a, a') && Cong(b, b')
    ensures Cong(a * b, a' * b')
  {
    ModMulLeft(a, b);
    ModMulLeft(a', b);
    ModMulLeft(b, a');
    ModMulLeft(b', a');
    assert b * a' == a' * b;
    assert b' * a' == a' * b';
  }

  lemma CongNeg(a: int, a': int)
    requires Cong(a, a')
    ensures Cong(-a, -a')
  {
    ModNeg(a);
    ModNeg(a');
  }

  /** A multiple of a number congruent to zero vanishes from a sum. */
  lemma CongDropMultiple(x: int, e: int, z: int)
    requires Cong(z, 0)
    ensures Cong(x + e * z, x)
  {
    assert z == Q * (z / Q);
    ModAddMultiple(x, e * (z / Q));
    assert x + e * z == x + Q * (e * (z / Q));
  }

  /** Congruent integers differ by something congruent to zero. */
  lemma CongSubZero(a: int, b: int)
    requires Cong(a, b)
    ensures Cong(a - b, 0)
  {
    CongNeg(b, a);
    CongAdd(a, a, -b, -a);
  }

  // ---------------------------------------------------------------------------
  // Group laws of G1 in discrete-log form.

  /** Addition of points is associative. */
  lemma PointAddAssoc(a: Point, b: Point, c: Point)
    ensures PointAdd(PointAdd(a, b), c) == PointAdd(a, PointAdd(b, c))
  {
    var x, y, z := a.log, b.log, c.log;
    ModAddLeft(x + y, z);
    ModAddLeft(y + z, x);
    assert x + (y + z) % Q == (y + z) % Q + x;
    assert x + y + z == y + z + x;
  }

  /** Scalar multiplication distributes over addition of scalars:
      p·a + p·b == p·(a + b). */
  lemma PointMulDistributes(p: Point, a: Fr, b: Fr)
    ensures PointAdd(PointMul(p, a), PointMul(p, b)) == PointMul(p, FrAdd(a, b))
  {
    var x := p.log;
    calc {
      (x * a % Q + x * b % Q) % Q;
      { ModAddLeft(x * a, x * b % Q); }
      (x * a + x * b % Q) % Q;
      { ModAddLeft(x * b, x * a); }
      (x * a + x * b) % Q;
      { assert x * a + x * b == (a + b) * x; }
      ((a + b) * x) % Q;
      { ModMulLeft(a + b, x); }
      ((a + b) % Q * x) % Q;
      { assert (a + b) % Q * x == x * ((a + b) % Q); }
      (x * FrAdd(a, b)) % Q;
    }
  }

  /** The combination p·s + r·a of two points, read as an integer modulo Q. */
  lemma PointCombinationCong(p: Point, s: Fr, r: Point, a: Fr, sInt: int, aInt: int)
    requires Cong(s, sInt) && Cong(a, aInt)
    ensures Cong(PointAdd(PointMul(p, s), PointMul(r, a)).log, p.log * sInt + r.log * aInt)
  {
    FrMulCong(p.log, s);
    FrMulCong(r.log, a);
    CongMul(p.log, p.log, s, sInt);
    CongMul(r.log, r.log, a, aInt);
    CongAdd(FrMul(p.log, s), p.log * sInt, FrMul(r.log, a), r.log * aInt);
    FrAddCong(FrMul(p.log, s), FrMul(r.log, a));
  }
}
