/**
 * Points of the curve -x^2 + y^2 = 1 + d x^2 y^2. The code works on extended coordinates (X, Y, Z, T);
 * the affine law is the meaning its additions, doublings and negations are proved against.
 */
module Edwards {
  import opened Bytes
  import opened Counting
  import opened Field25519
  import opened Modular

  const B256: nat := Folded(0x10000000000000000000000000000000000000000000000000000000000000000, 5)

  lemma B256Shape()
    ensures B256 == Exp2(256) && P < B256
  {
    hide Folded;
    FoldedValue(0x10000000000000000000000000000000000000000000000000000000000000000, 5);
    ConstantValues();
    Exp2Values();
    assert Exp2(256) == 2 * Exp2(255);
  }

  // ---- the affine law ----

  datatype Affine = Affine(x: int, y: int)

  const ZERO := Affine(0, 1)

  ghost predicate InField(a: Affine) {
    0 <= a.x < P && 0 <= a.y < P
  }

  /** -x^2 + y^2 = 1 + d x^2 y^2, folded like the literals: OnCurveIs unfolds it. */
  ghost predicate OnCurve(a: Affine) {
    InField(a) && Balanced(a, 5)
  }

  ghost predicate Balanced(a: Affine, depth: nat) {
    if depth == 0 then Cong(a.y * a.y - a.x * a.x, DenX(a, a), P) else Balanced(a, depth - 1)
  }

  lemma {:induction false} BalancedIs(a: Affine, depth: nat)
    ensures Balanced(a, depth) <==> Cong(a.y * a.y - a.x * a.x, DenX(a, a), P)
  {
    hide Cong, DenX;
    if depth > 0 {
      BalancedIs(a, depth - 1);
    }
  }

  lemma OnCurveIs(a: Affine)
    ensures OnCurve(a) <==> InField(a) && Cong(a.y * a.y - a.x * a.x, DenX(a, a), P)
  {
    hide Balanced, Cong, DenX;
    BalancedIs(a, 5);
  }

  /** d x1 x2 y1 y2, folded like the literals: CrossIs unfolds it. */
  ghost function Cross(d: int, a: Affine, b: Affine): int {
    CrossAt(d, a, b, 5)
  }

  ghost function CrossAt(d: int, a: Affine, b: Affine, depth: nat): int {
    if depth == 0 then d * (a.x * b.x) * (a.y * b.y) else CrossAt(d, a, b, depth - 1)
  }

  lemma {:induction false} CrossAtIs(d: int, a: Affine, b: Affine, depth: nat)
    ensures CrossAt(d, a, b, depth) == d * (a.x * b.x) * (a.y * b.y)
  {
    if depth > 0 {
      CrossAtIs(d, a, b, depth - 1);
    }
  }

  lemma CrossIs(d: int, a: Affine, b: Affine)
    ensures Cross(d, a, b) == d * (a.x * b.x) * (a.y * b.y)
  {
    CrossAtIs(d, a, b, 5);
  }

  ghost function DenX(a: Affine, b: Affine): int {
    1 + Cross(CURVE_D, a, b)
  }

  ghost function DenY(a: Affine, b: Affine): int {
    1 - Cross(CURVE_D, a, b)
  }

  ghost function NumX(a: Affine, b: Affine): int {
    a.x * b.y + a.y * b.x
  }

  ghost function NumY(a: Affine, b: Affine): int {
    a.y * b.y + a.x * b.x
  }

  /** `z` is the quotient r / k in the field. */
  ghost predicate Quotient(z: int, r: int, k: int) {
    Cong(z * k, r, P)
  }

  /** The addition law of twisted Edwards curves. */
  ghost predicate IsSum(a: Affine, b: Affine, c: Affine) {
    && InField(c)
    && Quotient(c.x, NumX(a, b), DenX(a, b))
    && Quotient(c.y, NumY(a, b), DenY(a, b))
  }

  ghost function Plus(a: Affine, b: Affine): (c: Affine)
    ensures 0 <= c.x < P && 0 <= c.y < P
  {
    if exists c :: IsSum(a, b, c) then var c :| IsSum(a, b, c); c else ZERO
  }

  function Minus(a: Affine): Affine {
    Affine(M(-a.x, P), a.y)
  }

  /** What is assumed of the curve: P is prime, the law is complete and closed, and it is associative. */
  ghost predicate CurveGroup() {
    && PrimeField()
    && (forall a: Affine, b: Affine :: OnCurve(a) && OnCurve(b) ==>
          !Cong(DenX(a, b), 0, P) && !Cong(DenY(a, b), 0, P))
    && (forall a: Affine, b: Affine, c: Affine :: OnCurve(a) && OnCurve(b) && IsSum(a, b, c) ==> OnCurve(c))
    && (forall a: Affine, b: Affine, c: Affine :: OnCurve(a) && OnCurve(b) && OnCurve(c) ==>
          Plus(Plus(a, b), c) == Plus(a, Plus(b, c)))
  }

  lemma Complete(a: Affine, b: Affine)
    requires CurveGroup() && OnCurve(a) && OnCurve(b)
    ensures !Cong(DenX(a, b), 0, P) && !Cong(DenY(a, b), 0, P)
  {
  }

  lemma Closed(a: Affine, b: Affine, c: Affine)
    requires CurveGroup() && OnCurve(a) && OnCurve(b) && IsSum(a, b, c)
    ensures OnCurve(c)
  {
  }

  lemma PlusAssociative(a: Affine, b: Affine, c: Affine)
    requires CurveGroup() && OnCurve(a) && OnCurve(b) && OnCurve(c)
    ensures Plus(Plus(a, b), c) == Plus(a, Plus(b, c))
  {
  }

  lemma PrimeModulus()
    requires CurveGroup()
    ensures PrimeField()
  {
  }

  lemma PowBelowFermat(k: int) returns (i: int)
    ensures Pow(k, P - 1) == k * i
  {
    i := Pow(k, P - 2);
  }

  /** A quotient by a number that is not a multiple of P exists in the field. */
  lemma QuotientExists(r: int, k: int) returns (z: int)
    requires PrimeField() && !Cong(k, 0, P)
    ensures 0 <= z < P && Quotient(z, r, k)
  {
    hide PrimeField, Cong, M;
    var i := PowBelowFermat(k);
    hide Pow;
    Fermat(k);
    CongScale(k * i, 1, r, P);
    z := M(i * r, P);
    CongM(i * r, P);
    CongScale(z, i * r, k, P);
    assert i * r * k == k * i * r;
    CongTrans(z * k, k * i * r, r, P);
  }

  /** And only one does. */
  lemma QuotientUnique(y: int, z: int, r: int, k: int)
    requires PrimeField() && !Cong(k, 0, P)
    requires Quotient(y, r, k) && Quotient(z, r, k)
    ensures Cong(y, z, P)
    ensures 0 <= y < P && 0 <= z < P ==> y == z
  {
    hide PrimeField, Cong;
    CongSym(z * k, r, P);
    CongTrans(y * k, r, z * k, P);
    CancelFactor(y, z, k);
    if 0 <= y < P && 0 <= z < P {
      CongUnique(y, z, P);
    }
  }

  lemma CancelFactor(y: int, z: int, k: int)
    requires PrimeField() && !Cong(k, 0, P) && Cong(y * k, z * k, P)
    ensures Cong(y, z, P)
  {
    hide PrimeField, Cong;
    CongRefl(z * k, P);
    CongAdd(y * k, z * k, z * k, z * k, P);
    assert (y - z) * k == y * k - z * k;
    NoZeroDivisors(y - z, k);
    CongRefl(z, P);
    CongAdd(y - z, 0, z, z, P);
  }

  /** On the curve the sum exists and is the only point the law admits. */
  lemma PlusIsSum(a: Affine, b: Affine)
    requires CurveGroup() && OnCurve(a) && OnCurve(b)
    ensures IsSum(a, b, Plus(a, b)) && OnCurve(Plus(a, b))
  {
    hide PrimeField, OnCurve, DenX, DenY, NumX, NumY, Quotient, Cong;
    Complete(a, b);
    PrimeModulus();
    var x := QuotientExists(NumX(a, b), DenX(a, b));
    var y := QuotientExists(NumY(a, b), DenY(a, b));
    assert IsSum(a, b, Affine(x, y));
    Closed(a, b, Plus(a, b));
  }

  lemma SumUnique(a: Affine, b: Affine, c: Affine)
    requires CurveGroup() && OnCurve(a) && OnCurve(b) && IsSum(a, b, c)
    ensures c == Plus(a, b)
  {
    hide PrimeField, OnCurve, DenX, DenY, NumX, NumY, Quotient, Cong, Plus;
    Complete(a, b);
    PrimeModulus();
    PlusIsSum(a, b);
    QuotientUnique(c.x, Plus(a, b).x, NumX(a, b), DenX(a, b));
    QuotientUnique(c.y, Plus(a, b).y, NumY(a, b), DenY(a, b));
  }

  lemma LawSymmetric(a: Affine, b: Affine)
    ensures DenX(a, b) == DenX(b, a) && DenY(a, b) == DenY(b, a)
    ensures NumX(a, b) == NumX(b, a) && NumY(a, b) == NumY(b, a)
  {
    hide Cross;
    CrossIs(CURVE_D, a, b);
    CrossIs(CURVE_D, b, a);
    assert a.x * b.x == b.x * a.x && a.y * b.y == b.y * a.y;
    assert a.x * b.y == b.y * a.x && a.y * b.x == b.x * a.y;
  }

  lemma PlusCommutative(a: Affine, b: Affine)
    requires CurveGroup() && OnCurve(a) && OnCurve(b)
    ensures Plus(a, b) == Plus(b, a)
  {
    hide CurveGroup, OnCurve, DenX, DenY, NumX, NumY, Quotient, Plus;
    LawSymmetric(a, b);
    PlusIsSum(a, b);
    SumUnique(b, a, Plus(a, b));
  }

  lemma ZeroOnCurve()
    ensures OnCurve(ZERO)
  {
    hide OnCurve;
    OnCurveIs(ZERO);
    CongRefl(1, P);
  }

  lemma LawAtZero(a: Affine)
    ensures DenX(a, ZERO) == 1 && DenY(a, ZERO) == 1
    ensures NumX(a, ZERO) == a.x && NumY(a, ZERO) == a.y
  {
    hide Cross;
    CrossIs(CURVE_D, a, ZERO);
    assert CURVE_D * (a.x * 0) == 0;
    assert CURVE_D * (a.x * 0) * (a.y * 1) == 0;
  }

  lemma PlusZero(a: Affine)
    requires CurveGroup() && OnCurve(a)
    ensures Plus(a, ZERO) == a && Plus(ZERO, a) == a
  {
    hide CurveGroup, DenX, DenY, NumX, NumY, Plus;
    ZeroOnCurve();
    LawAtZero(a);
    CongRefl(a.x, P);
    CongRefl(a.y, P);
    SumUnique(a, ZERO, a);
    PlusCommutative(a, ZERO);
  }

  lemma CrossAtMinus(d: int, a: Affine, nx: int)
    requires Cong(nx, -a.x, P)
    ensures Cong(1 - Cross(d, a, Affine(nx, a.y)), 1 + Cross(d, a, a), P)
  {
    hide Cong, Cross;
    var y2, m := a.y * a.y, Affine(nx, a.y);
    CrossIs(d, a, m);
    CrossIs(d, a, a);
    CongScale(nx, -a.x, a.x, P);
    CongScale(a.x * nx, a.x * -a.x, d, P);
    CongScale(d * (a.x * nx), d * (a.x * -a.x), y2, P);
    NegatedCross(d, a.x, y2);
    CongRefl(1, P);
    CongAdd(1, 1, Cross(d, a, m), -Cross(d, a, a), P);
  }

  lemma NegatedCross(d: int, x: int, y2: int)
    ensures d * (x * -x) * y2 == -(d * (x * x) * y2)
  {
    assert x * -x == -(x * x);
    assert d * -(x * x) == -(d * (x * x));
  }

  lemma NumAtMinus(x: int, y: int, nx: int)
    requires Cong(nx, -x, P)
    ensures Cong(x * y + y * nx, 0, P) && Cong(y * y + x * nx, y * y - x * x, P)
  {
    hide Cong;
    CongScale(nx, -x, y, P);
    CongScale(nx, -x, x, P);
    CongRefl(x * y, P);
    CongAdd(x * y, x * y, y * nx, y * -x, P);
    CongRefl(y * y, P);
    CongAdd(y * y, y * y, x * nx, x * -x, P);
    NegatedProducts(x, y);
  }

  lemma NegatedProducts(x: int, y: int)
    ensures y * -x == -(x * y) && x * -x == -(x * x)
  {
  }

  lemma MinusOnCurve(a: Affine)
    requires OnCurve(a)
    ensures OnCurve(Minus(a))
  {
    hide Cong, M, Cross, OnCurve;
    var m := Minus(a);
    OnCurveIs(a);
    OnCurveIs(m);
    CongM(-a.x, P);
    SquareOfMinus(m.x, a.x);
    CurveOfSquares(CURVE_D, a, m);
  }

  lemma SquareOfMinus(n: int, x: int)
    requires Cong(n, -x, P)
    ensures Cong(n * n, x * x, P)
  {
    hide Cong;
    CongMul(n, -x, n, -x, P);
    assert -x * -x == x * x;
  }

  lemma CurveOfSquares(d: int, a: Affine, b: Affine)
    requires Cong(b.x * b.x, a.x * a.x, P) && b.y == a.y
    requires Cong(a.y * a.y - a.x * a.x, 1 + Cross(d, a, a), P)
    ensures Cong(b.y * b.y - b.x * b.x, 1 + Cross(d, b, b), P)
  {
    hide Cong, Cross;
    CrossIs(d, a, a);
    CrossIs(d, b, b);
    var y2 := a.y * a.y;
    CongRefl(y2, P);
    CongAdd(y2, y2, b.x * b.x, a.x * a.x, P);
    CongSym(b.x * b.x, a.x * a.x, P);
    CongScale(a.x * a.x, b.x * b.x, d, P);
    CongScale(d * (a.x * a.x), d * (b.x * b.x), y2, P);
    CongRefl(1, P);
    CongAdd(1, 1, Cross(d, a, a), Cross(d, b, b), P);
    CongTrans(y2 - b.x * b.x, y2 - a.x * a.x, 1 + Cross(d, a, a), P);
    CongTrans(y2 - b.x * b.x, 1 + Cross(d, a, a), 1 + Cross(d, b, b), P);
  }

  lemma QuotientZeroOne(r: int, k: int)
    ensures Cong(r, 0, P) ==> Quotient(0, r, k)
    ensures Cong(k, r, P) ==> Quotient(1, r, k)
  {
    assert 0 * k == 0 && 1 * k == k;
    if Cong(r, 0, P) {
      CongSym(r, 0, P);
    }
  }

  lemma ZeroIsSumWithMinus(a: Affine, m: Affine)
    requires OnCurve(a) && Cong(m.x, -a.x, P) && m.y == a.y
    ensures IsSum(a, m, ZERO)
  {
    hide OnCurve, Balanced;
    OnCurveIs(a);
    CrossAtMinus(CURVE_D, a, m.x);
    NumAtMinus(a.x, a.y, m.x);
    hide Cong, Cross;
    CongSym(DenY(a, m), DenX(a, a), P);
    CongTrans(NumY(a, m), a.y * a.y - a.x * a.x, DenX(a, a), P);
    CongTrans(NumY(a, m), DenX(a, a), DenY(a, m), P);
    CongSym(NumY(a, m), DenY(a, m), P);
    hide Quotient, DenX, DenY, NumX, NumY;
    QuotientZeroOne(NumX(a, m), DenX(a, m));
    QuotientZeroOne(NumY(a, m), DenY(a, m));
  }

  /** Minus is the inverse of the law. */
  lemma PlusMinus(a: Affine)
    requires CurveGroup() && OnCurve(a)
    ensures OnCurve(Minus(a)) && Plus(a, Minus(a)) == ZERO && Plus(Minus(a), a) == ZERO
  {
    hide CurveGroup, OnCurve, Plus, IsSum, M, Cong;
    var m := Minus(a);
    MinusOnCurve(a);
    CongM(-a.x, P);
    ZeroIsSumWithMinus(a, m);
    SumUnique(a, m, ZERO);
    PlusCommutative(a, m);
  }

  // ---- extended coordinates ----

  datatype Point = Point(ex: int, ey: int, ez: int, et: int)

  const IDENTITY := Point(0, 1, 1, 0)

  predicate InRange(p: Point) {
    0 <= p.ex < B256 && 0 <= p.ey < B256 && 1 <= p.ez < B256 && 0 <= p.et < B256
  }

  /** The constructor: it throws outside its ranges. */
  function NewPoint(ex: int, ey: int, ez: int, et: int): Result<Point> {
    var p := Point(ex, ey, ez, et);
    if InRange(p) then Ok(p) else Err("bad number: out of range")
  }

  /** `p` stands for the affine point `a`. The equations sit behind a short recursion, for proofs to open when they need them. */
  ghost predicate Represents(p: Point, a: Affine): (r: bool)
    ensures r ==> OnCurve(a)
  {
    RepresentsAt(p, a, 5)
  }

  ghost predicate RepresentsAt(p: Point, a: Affine, depth: nat): (r: bool)
    ensures r ==> OnCurve(a)
  {
    if depth == 0 then StandsFor(p, a) else RepresentsAt(p, a, depth - 1)
  }

  /** X = x Z, Y = y Z, T = x y Z, with Z not a multiple of P. */
  ghost predicate StandsFor(p: Point, a: Affine) {
    && InRange(p) && OnCurve(a)
    && !Cong(p.ez, 0, P)
    && Cong(p.ex, a.x * p.ez, P)
    && Cong(p.ey, a.y * p.ez, P)
    && Cong(p.et, a.x * a.y * p.ez, P)
  }

  lemma {:induction false} RepresentsAtIs(p: Point, a: Affine, depth: nat)
    ensures RepresentsAt(p, a, depth) <==> StandsFor(p, a)
  {
    hide StandsFor;
    if depth > 0 {
      RepresentsAtIs(p, a, depth - 1);
    }
  }

  lemma RepresentsIs(p: Point, a: Affine)
    ensures Represents(p, a) <==> StandsFor(p, a)
  {
    hide StandsFor, RepresentsAt;
    RepresentsAtIs(p, a, 5);
  }

  function Negate(p: Point): Result<Point> {
    NewPoint(M(-p.ex, P), p.ey, p.ez, M(-p.et, P))
  }

  /** The last four products, shared by addition and doubling. */
  function FromEfgh(e: int, f: int, g: int, h: int): Result<Point> {
    NewPoint(M(e * f, P), M(g * h, P), M(f * g, P), M(e * h, P))
  }

  function Add(p: Point, q: Point): Result<Point> {
    var a := M(p.ex * q.ex, P);
    var b := M(p.ey * q.ey, P);
    var c := M(p.et * CURVE_D * q.et, P);
    var d := M(p.ez * q.ez, P);
    var e := M((p.ex + p.ey) * (q.ex + q.ey) - a - b, P);
    FromEfgh(e, M(d - c, P), M(d + c, P), M(b - CURVE_A * a, P))
  }

  function Double(p: Point): Result<Point> {
    var a := M(p.ex * p.ex, P);
    var b := M(p.ey * p.ey, P);
    var c := M(2 * M(p.ez * p.ez, P), P);
    var d := M(CURVE_A * a, P);
    var s := p.ex + p.ey;
    var e := M(M(s * s, P) - a - b, P);
    var g := d + b;
    FromEfgh(e, g - c, g, d - b)
  }

  predicate Equals(p: Point, q: Point) {
    M(p.ex * q.ez, P) == M(q.ex * p.ez, P) && M(p.ey * q.ez, P) == M(q.ey * p.ez, P)
  }

  /** If x G = E and y F = H then the four products are the extended coordinates of (x, y). */
  lemma EfghRepresents(e: int, f: int, g: int, h: int, a: Affine)
    requires PrimeField() && OnCurve(a)
    requires !Cong(f, 0, P) && !Cong(g, 0, P)
    requires Cong(a.x * g, e, P) && Cong(a.y * f, h, P)
    ensures FromEfgh(e, f, g, h).Ok? && Represents(FromEfgh(e, f, g, h).value, a)
  {
    hide PrimeField, OnCurve, Cong, M;
    RepresentsIs(Point(M(e * f, P), M(g * h, P), M(f * g, P), M(e * h, P)), a);
    var z := M(f * g, P);
    CongM(f * g, P);
    ProductNotZero(f, g);
    ZNotZero(z, f * g);
    CoordinateOf(M(e * f, P), e * f, a.x, z, f * g) by {
      CongM(e * f, P);
      CongScale(a.x * g, e, f, P);
      assert a.x * (f * g) == a.x * g * f;
    }
    CoordinateOf(M(g * h, P), g * h, a.y, z, f * g) by {
      CongM(g * h, P);
      CongScale(a.y * f, h, g, P);
      assert a.y * (f * g) == a.y * f * g && h * g == g * h;
    }
    CoordinateOf(M(e * h, P), e * h, a.x * a.y, z, f * g) by {
      CongM(e * h, P);
      CongMul(a.x * g, e, a.y * f, h, P);
      Interchange(a.x, a.y, g, f);
      assert g * f == f * g;
    }
  }

  lemma CoordinateOf(c: int, num: int, x: int, z: int, den: int)
    requires Cong(c, num, P) && Cong(z, den, P) && Cong(x * den, num, P)
    ensures Cong(c, x * z, P)
  {
    hide Cong;
    CongScale(z, den, x, P);
    CongTrans(x * z, x * den, num, P);
    CongSym(x * z, num, P);
    CongTrans(c, num, x * z, P);
  }

  lemma ProductNotZero(f: int, g: int)
    requires PrimeField() && !Cong(f, 0, P) && !Cong(g, 0, P)
    ensures !Cong(f * g, 0, P)
  {
    hide PrimeField, Cong;
    if Cong(f * g, 0, P) {
      NoZeroDivisors(f, g);
    }
  }

  lemma ZNotZero(z: int, k: int)
    requires 0 <= z < P && Cong(z, k, P) && !Cong(k, 0, P)
    ensures 1 <= z && !Cong(z, 0, P)
  {
    hide Cong;
    CongRefl(0, P);
    CongSym(z, k, P);
    if Cong(z, 0, P) {
      CongTrans(k, z, 0, P);
    }
  }

  /** `u` is the field element x scaled by z. */
  ghost predicate Over(u: int, x: int, z: int) {
    Cong(u, x * z, P)
  }

  lemma OverReduced(u: int, x: int, z: int)
    requires Over(u, x, z)
    ensures Over(M(u, P), x, z)
  {
    CongM(u, P);
    CongTrans(M(u, P), u, x * z, P);
  }

  lemma OverSum(u: int, x: int, v: int, y: int, z: int)
    requires Over(u, x, z) && Over(v, y, z)
    ensures Over(u + v, x + y, z) && Over(u - v, x - y, z)
  {
    CongAdd(u, x * z, v, y * z, P);
    assert (x + y) * z == x * z + y * z && (x - y) * z == x * z - y * z;
  }

  lemma OverProduct(u: int, x: int, z: int, v: int, y: int, w: int)
    requires Over(u, x, z) && Over(v, y, w)
    ensures Over(u * v, x * y, z * w)
  {
    CongMul(u, x * z, v, y * w, P);
    Interchange(x, z, y, w);
  }

  lemma OverScaled(u: int, x: int, z: int, c: int)
    requires Over(u, x, z)
    ensures Over(c * u, c * x, z)
  {
    CongScale(u, x * z, c, P);
    assert c * (x * z) == c * x * z;
  }

  lemma OverMinusOne(u: int, x: int, z: int)
    requires Over(u, x, z)
    ensures Over(CURVE_A * u, -x, z)
  {
    hide Cong;
    CongBy(CURVE_A, -1, 1, P);
    CongScale(CURVE_A, -1, u, P);
    CongScale(u, x * z, -1, P);
    assert -1 * (x * z) == -x * z;
    CongTrans(CURVE_A * u, -1 * u, -x * z, P);
  }

  lemma OverNotZero(u: int, x: int, z: int)
    requires PrimeField() && Over(u, x, z) && !Cong(x, 0, P) && !Cong(z, 0, P)
    ensures !Cong(u, 0, P)
  {
    hide PrimeField, Cong;
    ProductNotZero(x, z);
    if Cong(u, 0, P) {
      CongSym(u, x * z, P);
      CongTrans(x * z, u, 0, P);
    }
  }

  lemma QuotientOver(q: int, num: int, den: int, u: int, v: int, z: int)
    requires Quotient(q, num, den) && Over(u, den, z) && Over(v, num, z)
    ensures Cong(q * u, v, P)
  {
    hide Cong;
    CongScale(u, den * z, q, P);
    CongScale(q * den, num, z, P);
    assert q * (den * z) == q * den * z;
    CongTrans(q * u, q * den * z, num * z, P);
    CongSym(v, num * z, P);
    CongTrans(q * u, num * z, v, P);
  }

  lemma ZOverOne(z: int)
    ensures Over(z, 1, z)
  {
    CongRefl(z, P);
  }

  lemma SumCoefficients(x1: int, y1: int, x2: int, y2: int, d: int)
    ensures (x1 + y1) * (x2 + y2) - x1 * x2 - y1 * y2 == x1 * y2 + y1 * x2
    ensures x1 * y1 * d * (x2 * y2) == d * (x1 * x2) * (y1 * y2)
  {
    Interchange(x1, y1, x2, y2);
  }

  /** `add` computes the affine sum. */
  lemma AddIsPlus(p: Point, a: Affine, q: Point, b: Affine)
    requires CurveGroup() && Represents(p, a) && Represents(q, b)
    ensures Add(p, q).Ok? && Represents(Add(p, q).value, Plus(a, b))
  {
    hide PrimeField, OnCurve, Cong, M, Quotient, Plus;
    RepresentsIs(p, a);
    RepresentsIs(q, b);
    PrimeModulus();
    Complete(a, b);
    PlusIsSum(a, b);
    hide CurveGroup;
    var z := p.ez * q.ez;
    var e, f, g, h := AddPieces(p, a, q, b);
    ProductNotZero(p.ez, q.ez);
    OverNotZero(f, DenY(a, b), z);
    OverNotZero(g, DenX(a, b), z);
    QuotientOver(Plus(a, b).x, NumX(a, b), DenX(a, b), g, e, z);
    QuotientOver(Plus(a, b).y, NumY(a, b), DenY(a, b), f, h, z);
    EfghRepresents(e, f, g, h, Plus(a, b));
  }

  lemma AddPieces(p: Point, a: Affine, q: Point, b: Affine) returns (e: int, f: int, g: int, h: int)
    requires Over(p.ex, a.x, p.ez) && Over(p.ey, a.y, p.ez) && Over(p.et, a.x * a.y, p.ez)
    requires Over(q.ex, b.x, q.ez) && Over(q.ey, b.y, q.ez) && Over(q.et, b.x * b.y, q.ez)
    ensures Add(p, q) == FromEfgh(e, f, g, h)
    ensures Over(e, NumX(a, b), p.ez * q.ez) && Over(f, DenY(a, b), p.ez * q.ez)
    ensures Over(g, DenX(a, b), p.ez * q.ez) && Over(h, NumY(a, b), p.ez * q.ez)
  {
    hide Over, M, FromEfgh, NumX, NumY, Cross, Exp2;
    NumeratorsAsProducts(a, b);
    var z, s := p.ez * q.ez, (p.ex + p.ey) * (q.ex + q.ey);
    var x2, y2, k, w := a.x * b.x, a.y * b.y, Cross(CURVE_D, a, b), (a.x + a.y) * (b.x + b.y);
    OverProduct(p.ex, a.x, p.ez, q.ex, b.x, q.ez);
    OverProduct(p.ey, a.y, p.ez, q.ey, b.y, q.ez);
    TProduct(p.et, a, p.ez, q.et, b, q.ez, CURVE_D);
    OverSum(p.ex, a.x, p.ey, a.y, p.ez);
    OverSum(q.ex, b.x, q.ey, b.y, q.ez);
    OverProduct(p.ex + p.ey, a.x + a.y, p.ez, q.ex + q.ey, b.x + b.y, q.ez);
    ZOverOne(z);
    e, f, g, h := AddFromProducts(p.ex * q.ex, x2, p.ey * q.ey, y2, p.et * CURVE_D * q.et, k, s, w, z);
  }

  lemma NumeratorsAsProducts(a: Affine, b: Affine)
    ensures (a.x + a.y) * (b.x + b.y) - a.x * b.x - a.y * b.y == NumX(a, b)
    ensures a.y * b.y + a.x * b.x == NumY(a, b)
  {
  }

  lemma TProduct(t: int, a: Affine, z: int, u: int, b: Affine, w: int, d: int)
    requires Over(t, a.x * a.y, z) && Over(u, b.x * b.y, w)
    ensures Over(t * d * u, Cross(d, a, b), z * w)
  {
    hide Over, Cross;
    CrossIs(d, a, b);
    SumCoefficients(a.x, a.y, b.x, b.y, d);
    OverScaled(t, a.x * a.y, z, d);
    assert t * d == d * t && d * (a.x * a.y) == a.x * a.y * d;
    OverProduct(t * d, a.x * a.y * d, z, u, b.x * b.y, w);
  }

  lemma AddFromProducts(xx: int, x2: int, yy: int, y2: int, tt: int, k: int, ss: int, w: int, z: int)
      returns (e: int, f: int, g: int, h: int)
    requires Over(xx, x2, z) && Over(yy, y2, z) && Over(tt, k, z) && Over(ss, w, z) && Over(z, 1, z)
    ensures var a, b, c, d := M(xx, P), M(yy, P), M(tt, P), M(z, P);
      e == M(ss - a - b, P) && f == M(d - c, P) && g == M(d + c, P) && h == M(b - CURVE_A * a, P)
    ensures Over(e, w - x2 - y2, z) && Over(f, 1 - k, z) && Over(g, 1 + k, z) && Over(h, y2 + x2, z)
  {
    hide Over, M;
    var a, b, c, d := M(xx, P), M(yy, P), M(tt, P), M(z, P);
    OverReduced(xx, x2, z);
    OverReduced(yy, y2, z);
    OverReduced(tt, k, z);
    OverReduced(z, 1, z);
    OverSum(ss, w, a, x2, z);
    OverSum(ss - a, w - x2, b, y2, z);
    OverReduced(ss - a - b, w - x2 - y2, z);
    OverSum(d, 1, c, k, z);
    OverReduced(d - c, 1 - k, z);
    OverReduced(d + c, 1 + k, z);
    OverMinusOne(a, x2, z);
    OverSum(b, y2, CURVE_A * a, -x2, z);
    OverReduced(b - CURVE_A * a, y2 - -x2, z);
    e, f, g, h := M(ss - a - b, P), M(d - c, P), M(d + c, P), M(b - CURVE_A * a, P);
  }

  lemma OverCong(u: int, x: int, y: int, z: int)
    requires Over(u, x, z) && Cong(x, y, P)
    ensures Over(u, y, z)
  {
    hide Cong;
    CongScale(x, y, z, P);
    CongTrans(u, x * z, y * z, P);
  }

  /** The denominators of a doubling, read off the curve equation. */
  lemma DoubleDenominators(a: Affine)
    requires OnCurve(a)
    ensures Cong(a.y * a.y - a.x * a.x, DenX(a, a), P)
    ensures Cong(a.y * a.y - a.x * a.x - 2, -DenY(a, a), P)
  {
    hide Cong, OnCurve;
    OnCurveIs(a);
    CongRefl(2, P);
    CongAdd(a.y * a.y - a.x * a.x, DenX(a, a), 2, 2, P);
    assert DenX(a, a) - 2 == -DenY(a, a);
  }

  lemma DoublePieces(p: Point, a: Affine) returns (e: int, f: int, g: int, h: int)
    requires OnCurve(a) && Over(p.ex, a.x, p.ez) && Over(p.ey, a.y, p.ez)
    ensures Double(p) == FromEfgh(e, f, g, h)
    ensures Over(e, NumX(a, a), p.ez * p.ez) && Over(f, -DenY(a, a), p.ez * p.ez)
    ensures Over(g, DenX(a, a), p.ez * p.ez) && Over(h, -NumY(a, a), p.ez * p.ez)
  {
    hide Over, M, FromEfgh, OnCurve, Cong, DenX, DenY;
    DoubleDenominators(a);
    SumCoefficients(a.x, a.y, a.x, a.y, 1);
    var z, s, x2, y2, w := p.ez * p.ez, p.ex + p.ey, a.x * a.x, a.y * a.y, (a.x + a.y) * (a.x + a.y);
    assert w - x2 - y2 == NumX(a, a) && -x2 - y2 == -NumY(a, a);
    hide NumX, NumY;
    OverProduct(p.ex, a.x, p.ez, p.ex, a.x, p.ez);
    OverProduct(p.ey, a.y, p.ez, p.ey, a.y, p.ez);
    OverSum(p.ex, a.x, p.ey, a.y, p.ez);
    OverProduct(s, a.x + a.y, p.ez, s, a.x + a.y, p.ez);
    ZOverOne(z);
    e, f, g, h := DoubleFromSquares(p.ex * p.ex, x2, p.ey * p.ey, y2, s * s, w, z);
    OverCong(f, y2 - x2 - 2, -DenY(a, a), z);
    OverCong(g, y2 - x2, DenX(a, a), z);
  }

  lemma DoubleFromSquares(xx: int, x2: int, yy: int, y2: int, ss: int, w: int, z: int)
      returns (e: int, f: int, g: int, h: int)
    requires Over(xx, x2, z) && Over(yy, y2, z) && Over(ss, w, z) && Over(z, 1, z)
    ensures var a, b, c := M(xx, P), M(yy, P), M(2 * M(z, P), P);
      var d := M(CURVE_A * a, P);
      e == M(M(ss, P) - a - b, P) && g == d + b && f == g - c && h == d - b
    ensures Over(e, w - x2 - y2, z) && Over(f, y2 - x2 - 2, z)
    ensures Over(g, y2 - x2, z) && Over(h, -x2 - y2, z)
  {
    hide Over, M;
    var a, b, c := M(xx, P), M(yy, P), M(2 * M(z, P), P);
    OverReduced(xx, x2, z);
    OverReduced(yy, y2, z);
    OverReduced(ss, w, z);
    OverReduced(z, 1, z);
    OverScaled(M(z, P), 1, z, 2);
    OverReduced(2 * M(z, P), 2, z);
    OverMinusOne(a, x2, z);
    var d := M(CURVE_A * a, P);
    OverReduced(CURVE_A * a, -x2, z);
    OverSum(M(ss, P), w, a, x2, z);
    OverSum(M(ss, P) - a, w - x2, b, y2, z);
    OverReduced(M(ss, P) - a - b, w - x2 - y2, z);
    OverSum(d, -x2, b, y2, z);
    OverSum(d + b, -x2 + y2, c, 2, z);
    e, f, g, h := M(M(ss, P) - a - b, P), d + b - c, d + b, d - b;
  }

  lemma QuotientOfNegatives(q: int, num: int, den: int)
    requires Quotient(q, num, den)
    ensures Quotient(q, -num, -den)
  {
    CongScale(q * den, num, -1, P);
    assert -1 * (q * den) == q * -den;
  }

  lemma NegatedNotZero(k: int)
    requires !Cong(k, 0, P)
    ensures !Cong(-k, 0, P)
  {
    if Cong(-k, 0, P) {
      CongScale(-k, 0, -1, P);
    }
  }

  /** `double` computes the affine sum of a point of the curve with itself. */
  lemma DoubleIsPlus(p: Point, a: Affine)
    requires CurveGroup() && Represents(p, a)
    ensures Double(p).Ok? && Represents(Double(p).value, Plus(a, a))
  {
    hide PrimeField, OnCurve, Cong, M, Quotient, Plus, DenX, DenY, NumX, NumY;
    RepresentsIs(p, a);
    PrimeModulus();
    Complete(a, a);
    PlusIsSum(a, a);
    hide CurveGroup;
    var z := p.ez * p.ez;
    var e, f, g, h := DoublePieces(p, a);
    ProductNotZero(p.ez, p.ez);
    NegatedNotZero(DenY(a, a));
    OverNotZero(f, -DenY(a, a), z);
    OverNotZero(g, DenX(a, a), z);
    QuotientOver(Plus(a, a).x, NumX(a, a), DenX(a, a), g, e, z);
    QuotientOfNegatives(Plus(a, a).y, NumY(a, a), DenY(a, a));
    QuotientOver(Plus(a, a).y, -NumY(a, a), -DenY(a, a), f, h, z);
    EfghRepresents(e, f, g, h, Plus(a, a));
  }

  lemma NegatedProduct(nx: int, x: int, y: int)
    requires Cong(nx, -x, P)
    ensures Cong(nx * y, -(x * y), P)
  {
    hide Cong;
    CongScale(nx, -x, y, P);
    assert -x * y == -(x * y);
  }

  /** `negate` computes the inverse. */
  lemma NegateIsMinus(p: Point, a: Affine)
    requires Represents(p, a)
    ensures Negate(p).Ok? && Represents(Negate(p).value, Minus(a))
  {
    hide OnCurve, Cong, M;
    RepresentsIs(p, a);
    RepresentsIs(Point(M(-p.ex, P), p.ey, p.ez, M(-p.et, P)), Minus(a));
    MinusOnCurve(a);
    var nx := M(-a.x, P);
    CongM(-a.x, P);
    NegatedProduct(nx, a.x, a.y);
    NegatedCoordinate(p.ex, a.x, p.ez, nx);
    NegatedCoordinate(p.et, a.x * a.y, p.ez, nx * a.y);
  }

  lemma NegatedCoordinate(u: int, x: int, z: int, nx: int)
    requires Cong(u, x * z, P) && Cong(nx, -x, P)
    ensures Cong(M(-u, P), nx * z, P)
  {
    hide Cong;
    CongM(-u, P);
    CongScale(u, x * z, -1, P);
    CongScale(nx, -x, z, P);
    assert -1 * (x * z) == -x * z;
    CongSym(nx * z, -x * z, P);
    CongTrans(M(-u, P), -u, -x * z, P);
    CongTrans(M(-u, P), -x * z, nx * z, P);
  }

  lemma IdentityRepresentsZero()
    ensures Represents(IDENTITY, ZERO)
  {
    ZeroOnCurve();
    CongRefl(0, P);
    CongRefl(1, P);
    OneNotZero();
  }

  lemma OneNotZero()
    ensures !Cong(1, 0, P)
  {
    if Cong(1, 0, P) {
      CongUnique(1, 0, P);
    }
  }

  /** `equals`, by cross-multiplication, decides equality of the affine points. */
  lemma EqualsIsEquality(p: Point, a: Affine, q: Point, b: Affine)
    requires PrimeField() && Represents(p, a) && Represents(q, b)
    ensures Equals(p, q) <==> a == b
  {
    RepresentsIs(p, a);
    RepresentsIs(q, b);
    CrossMultiplied(p.ex, a.x, p.ez, q.ex, b.x, q.ez);
    CrossMultiplied(p.ey, a.y, p.ez, q.ey, b.y, q.ez);
  }

  lemma CrossMultiplied(u: int, x: int, z: int, v: int, y: int, w: int)
    requires PrimeField() && Over(u, x, z) && Over(v, y, w)
    requires !Cong(z, 0, P) && !Cong(w, 0, P) && 0 <= x < P && 0 <= y < P
    ensures M(u * w, P) == M(v * z, P) <==> x == y
  {
    ZOverOne(w);
    ZOverOne(z);
    hide PrimeField, Cong, M, Over;
    OverProduct(u, x, z, w, 1, w);
    OverProduct(v, y, w, z, 1, z);
    assert w * z == z * w;
    ProductNotZero(z, w);
    OverSame(u * w, x, v * z, y, z * w);
  }

  lemma OverSame(s: int, x: int, t: int, y: int, k: int)
    requires PrimeField() && Over(s, x, k) && Over(t, y, k) && !Cong(k, 0, P)
    requires 0 <= x < P && 0 <= y < P
    ensures M(s, P) == M(t, P) <==> x == y
  {
    hide PrimeField, Cong, M;
    CongIffM(s, t, P);
    CongSym(s, x * k, P);
    CongSym(t, y * k, P);
    if Cong(s, t, P) {
      CongTrans(x * k, s, t, P);
      CongTrans(x * k, t, y * k, P);
      CancelFactor(x, y, k);
      CongUnique(x, y, P);
    }
    if x == y {
      CongTrans(s, x * k, t, P);
    }
  }
}
