/** Multiplication of points by scalars: double-and-add, and the signed-window form with its table. */
module ScalarMult {
  import opened Bytes
  import opened Edwards
  import opened Field25519
  import opened Modular

  const N: nat := Folded(0x1000000000000000000000000000000014def9dea2f79cd65812631a5cf5d3ed, 5)
  const BASE := Affine(Folded(0x216936d3cd6e53fec0a4e231fdd6dc5c692cc7609525a7b2c9562d608f25d51a, 5),
                       Folded(0x6666666666666666666666666666666666666666666666666666666666666658, 5))

  function BasePoint(): Point {
    Point(BASE.x, BASE.y, 1, M(BASE.x * BASE.y, P))
  }

  /** The k-fold sum of `a`: what a scalar multiple means. */
  ghost function Times(k: nat, a: Affine): (c: Affine)
    ensures 0 <= c.x < P && 0 <= c.y < P
  {
    if k == 0 then ZERO else Plus(Times(k - 1, a), a)
  }

  lemma TimesNext(k: nat, a: Affine)
    ensures Times(0, a) == ZERO && Times(k + 1, a) == Plus(Times(k, a), a)
  {
  }

  lemma {:induction false} TimesOnCurve(k: nat, a: Affine)
    requires CurveGroup() && OnCurve(a)
    ensures OnCurve(Times(k, a))
  {
    hide *;
    if k == 0 {
      TimesNext(0, a);
      ZeroOnCurve();
    } else {
      TimesOnCurve(k - 1, a);
      TimesNext(k - 1, a);
      PlusIsSum(Times(k - 1, a), a);
    }
  }

  lemma {:induction false} TimesAdd(j: nat, k: nat, a: Affine)
    requires CurveGroup() && OnCurve(a)
    ensures Times(j + k, a) == Plus(Times(j, a), Times(k, a))
    decreases k
  {
    hide *;
    TimesOnCurve(j, a);
    if k == 0 {
      PlusZero(Times(j, a));
      TimesNext(0, a);
    } else {
      TimesAdd(j, k - 1, a);
      TimesOnCurve(k - 1, a);
      PlusAssociative(Times(j, a), Times(k - 1, a), a);
      TimesNext(j + k - 1, a);
      TimesNext(k - 1, a);
    }
  }

  /** Doubling the point halves the scalar. */
  lemma {:induction false} TimesDouble(k: nat, a: Affine)
    requires CurveGroup() && OnCurve(a)
    ensures Times(k, Plus(a, a)) == Times(2 * k, a)
  {
    hide *;
    TimesNext(0, a);
    TimesNext(0, Plus(a, a));
    if k > 0 {
      TimesDouble(k - 1, a);
      TimesNext(k - 1, Plus(a, a));
      TimesAdd(2 * (k - 1), 2, a);
      TimesNext(1, a);
      PlusZero(a);
    }
  }

  lemma {:induction false} TimesZero(k: nat)
    requires CurveGroup()
    ensures Times(k, ZERO) == ZERO
  {
    hide *;
    TimesNext(0, ZERO);
    if k > 0 {
      TimesZero(k - 1);
      TimesNext(k - 1, ZERO);
      ZeroOnCurve();
      PlusZero(ZERO);
    }
  }

  function Product(j: nat, k: nat): nat {
    j * k
  }

  lemma ProductNext(j: nat, k: nat)
    ensures j == 0 ==> Product(j, k) == 0
    ensures j > 0 ==> Product(j, k) == Product(j - 1, k) + k
  {
  }

  lemma {:induction false} TimesTimes(j: nat, k: nat, a: Affine)
    requires CurveGroup() && OnCurve(a)
    ensures Times(j, Times(k, a)) == Times(Product(j, k), a)
  {
    hide *;
    TimesNext(0, a);
    TimesNext(0, Times(k, a));
    ProductNext(j, k);
    if j > 0 {
      TimesTimes(j - 1, k, a);
      TimesNext(j - 1, Times(k, a));
      TimesAdd(Product(j - 1, k), k, a);
    }
  }

  lemma BaseOnCurve()
    ensures OnCurve(BASE) && Represents(BasePoint(), BASE)
  {
    hide OnCurve, M, Exp2, Cong, Folded;
    BaseEquation();
    B256Shape();
    BaseInField();
    OneNotZero();
    CongRefl(BASE.x, P);
    CongRefl(BASE.y, P);
    CongM(BASE.x * BASE.y, P);
  }

  lemma BaseValues()
    ensures BASE.x == 0x216936d3cd6e53fec0a4e231fdd6dc5c692cc7609525a7b2c9562d608f25d51a
    ensures BASE.y == 0x6666666666666666666666666666666666666666666666666666666666666658
  {
    hide Folded;
    FoldedValue(0x216936d3cd6e53fec0a4e231fdd6dc5c692cc7609525a7b2c9562d608f25d51a, 5);
    FoldedValue(0x6666666666666666666666666666666666666666666666666666666666666658, 5);
  }

  lemma BaseInField()
    ensures InField(BASE)
  {
    hide Exp2, Folded;
    BaseValues();
    ConstantValues();
  }

  lemma BaseEquation()
    ensures OnCurve(BASE)
  {
    hide Exp2, Cong, Folded, OnCurve;
    OnCurveIs(BASE);
    BaseValues();
    ConstantValues();
    var x2 := 0x45c4b60a073000f68cc5adbdab262f3e26753b2b5649768a495d2c2a99434c8143277139e21f8923ad4a68d64a182bf508d2fce6fdcf0f4face412a56e846a4;
    var y2 := 0x28f5c28f5c28f5c28f5c28f5c28f5c28f5c28f5c28f5c28f5c28f5c28f5c28ea3d70a3d70a3d70a3d70a3d70a3d70a3d70a3d70a3d70a3d70a3d70a3d70a3e40;
    var k := 0x72705895b7fd68a9fa7924f5dbf66a83342931bfa505f5c01a65246a2283b5bdefac6a6f236898302e8ed7c7df683605c40a4c5bad89dcf0c8e913ecc5b282a35cfc55550db4be5e6bd6246e4a4ea2054904f5e4438fa42b0e56e116ea5951cfeb87ecfc5b550744d2c0fca4a89ec707de8b3c9a756eb80e7ec260dc2fda59;
    assert BASE.x * BASE.x == x2 && BASE.y * BASE.y == y2;
    CongBy(y2 - x2, 1 + CURVE_D * x2 * y2, -k, P);
  }

  // ---- the table of base-point multiples ----

  ghost predicate IsMultiple(p: Point, k: nat, a: Affine) {
    Represents(p, Times(k, a))
  }

  lemma IsMultipleDef(p: Point, k: nat, a: Affine)
    ensures IsMultiple(p, k, a) <==> Represents(p, Times(k, a))
  {
  }

  lemma OneMultiple(p: Point, a: Affine)
    requires CurveGroup() && Represents(p, a)
    ensures IsMultiple(p, 1, a)
  {
    hide *;
    TimesNext(0, a);
    PlusZero(a);
    IsMultipleDef(p, 1, a);
  }

  lemma AddMultiples(p: Point, j: nat, q: Point, k: nat, a: Affine)
    requires CurveGroup() && OnCurve(a) && IsMultiple(p, j, a) && IsMultiple(q, k, a)
    ensures Add(p, q).Ok? && IsMultiple(Add(p, q).value, j + k, a)
  {
    hide *;
    IsMultipleDef(p, j, a);
    IsMultipleDef(q, k, a);
    AddIsPlus(p, Times(j, a), q, Times(k, a));
    TimesAdd(j, k, a);
    IsMultipleDef(Add(p, q).value, j + k, a);
  }

  lemma DoubleMultiple(p: Point, j: nat, a: Affine)
    requires CurveGroup() && OnCurve(a) && IsMultiple(p, j, a)
    ensures Double(p).Ok? && IsMultiple(Double(p).value, j + j, a)
  {
    hide *;
    IsMultipleDef(p, j, a);
    DoubleIsPlus(p, Times(j, a));
    TimesAdd(j, j, a);
    IsMultipleDef(Double(p).value, j + j, a);
  }

  /** i 256^w: the scalar of the i-th multiple in window w. */
  function Scaled(i: nat, w: nat): nat {
    i * Pow256(w)
  }

  /** The scalar slot j of the table stands for: (j mod 128 + 1) 256^(j div 128). */
  function Weight(j: nat): nat {
    Scaled(j % 128 + 1, j / 128)
  }

  ghost predicate Slots(t: seq<Point>) {
    forall j: nat | j < |t| :: IsMultiple(t[j], Weight(j), BASE)
  }

  lemma SlotsAppend(t: seq<Point>, p: Point, w: nat, i: nat)
    requires Slots(t) && |t| == w * 128 + i && i < 128
    requires IsMultiple(p, Scaled(i + 1, w), BASE)
    ensures Slots(t + [p])
  {
    hide IsMultiple, Scaled, Weight, Exp2;
    WeightAt(w, i);
    SlotsPush(t, p);
  }

  lemma SlotsPush(t: seq<Point>, p: Point)
    requires Slots(t) && IsMultiple(p, Weight(|t|), BASE)
    ensures Slots(t + [p])
  {
    hide IsMultiple, Weight, Exp2;
  }

  lemma SlotsAt(t: seq<Point>, j: nat)
    requires Slots(t) && j < |t|
    ensures IsMultiple(t[j], Weight(j), BASE)
  {
    hide IsMultiple, Weight, Exp2;
  }

  lemma WeightAt(w: nat, i: nat)
    requires i < 128
    ensures Weight(w * 128 + i) == Scaled(i + 1, w)
  {
    hide Scaled;
    SlotIndex(w, i);
  }

  lemma SlotIndex(w: nat, i: nat)
    requires i < 128
    ensures (w * 128 + i) / 128 == w && (w * 128 + i) % 128 == i
  {
  }

  lemma WindowSteps(i: nat, w: nat)
    ensures Scaled(i, w) + Scaled(1, w) == Scaled(i + 1, w)
    ensures Scaled(128, w) + Scaled(128, w) == Scaled(1, w + 1)
  {
  }

  /** `precompute`: the table of all window multiples of the base point. */
  method Precompute() returns (r: Result<seq<Point>>)
    ensures CurveGroup() ==> r.Ok? && Slots(r.value)
    ensures r.Ok? ==> |r.value| == 33 * 128
  {
    hide *;
    ghost var good := CurveGroup();
    BaseOnCurve();
    var points: seq<Point> := [];
    var p := BasePoint();
    var b := p;
    EmptyTable();
    if good {
      OneMultiple(p, BASE);
    }
    for w := 0 to 33
      invariant |points| == w * 128
      invariant good ==> Slots(points) && IsMultiple(p, Scaled(1, w), BASE)
    {
      b := p;
      if good {
        SlotsAppend(points, b, w, 0);
      }
      points := points + [b];
      for i := 1 to 128
        invariant |points| == w * 128 + i
        invariant good ==> Slots(points) && IsMultiple(p, Scaled(1, w), BASE) && IsMultiple(b, Scaled(i, w), BASE)
      {
        WindowSteps(i, w);
        if good {
          AddMultiples(b, Scaled(i, w), p, Scaled(1, w), BASE);
        }
        var s := Add(b, p);
        if s.Err? {
          return Err(s.error);
        }
        b := s.value;
        if good {
          SlotsAppend(points, b, w, i);
        }
        points := points + [b];
      }
      WindowSteps(0, w);
      if good {
        DoubleMultiple(b, Scaled(128, w), BASE);
      }
      var d := Double(b);
      if d.Err? {
        return Err(d.error);
      }
      p := d.value;
    }
    r := Ok(points);
  }

  lemma EmptyTable()
    ensures Scaled(1, 0) == 1 && Slots([])
  {
  }

  // ---- the signed-window form ----

  lemma SlotHolds(t: seq<Point>, w: nat, d: nat)
    requires Slots(t) && |t| == 33 * 128 && w < 33 && 1 <= d <= 128
    ensures Represents(t[w * 128 + d - 1], Times(Scaled(d, w), BASE))
  {
    hide *;
    var j := w * 128 + (d - 1);
    WeightAt(w, d - 1);
    SlotsAt(t, j);
    IsMultipleDef(t[j], Weight(j), BASE);
  }

  lemma ScaledSplit(n: nat, m: nat, d: nat, w: nat)
    ensures n == 256 * m + d ==> Scaled(n, w) == Scaled(d, w) + Scaled(m, w + 1)
    ensures n + d == 256 * m ==> Scaled(m, w + 1) == Scaled(n, w) + Scaled(d, w)
  {
    ScaledNext(m, w);
    ScaledSum(d, 256 * m, w);
    ScaledSum(n, d, w);
  }

  lemma ScaledNext(m: nat, w: nat)
    ensures Scaled(m, w + 1) == Scaled(256 * m, w)
  {
    assert m * (256 * Pow256(w)) == 256 * m * Pow256(w);
  }

  lemma ScaledSum(i: nat, j: nat, w: nat)
    ensures Scaled(i + j, w) == Scaled(i, w) + Scaled(j, w)
  {
    assert (i + j) * Pow256(w) == i * Pow256(w) + j * Pow256(w);
  }

  /** A digit added: what is gained on the left is lost on the right. */
  lemma PositiveDigit(acc: Affine, n: nat, m: nat, d: nat, w: nat)
    requires CurveGroup() && OnCurve(acc) && n == 256 * m + d
    ensures var q := Times(Scaled(d, w), BASE);
      Plus(Plus(acc, q), Times(Scaled(m, w + 1), BASE)) == Plus(acc, Times(Scaled(n, w), BASE))
  {
    hide *;
    BaseOnCurve();
    ScaledSplit(n, m, d, w);
    TimesAdd(Scaled(d, w), Scaled(m, w + 1), BASE);
    TimesOnCurve(Scaled(d, w), BASE);
    TimesOnCurve(Scaled(m, w + 1), BASE);
    PlusAssociative(acc, Times(Scaled(d, w), BASE), Times(Scaled(m, w + 1), BASE));
  }

  /** A digit subtracted, with the carry that pays for it. */
  lemma NegativeDigit(acc: Affine, n: nat, m: nat, d: nat, w: nat)
    requires CurveGroup() && OnCurve(acc) && n + d == 256 * m
    ensures var q := Times(Scaled(d, w), BASE);
      Plus(Plus(acc, Minus(q)), Times(Scaled(m, w + 1), BASE)) == Plus(acc, Times(Scaled(n, w), BASE))
  {
    hide *;
    BaseOnCurve();
    ScaledSplit(n, m, d, w);
    TimesOnCurve(Scaled(d, w), BASE);
    TimesOnCurve(Scaled(n, w), BASE);
    TimesAdd(Scaled(n, w), Scaled(d, w), BASE);
    Cancel(acc, Times(Scaled(d, w), BASE), Times(Scaled(n, w), BASE));
  }

  lemma Cancel(a: Affine, q: Affine, r: Affine)
    requires CurveGroup() && OnCurve(a) && OnCurve(q) && OnCurve(r)
    ensures Plus(Plus(a, Minus(q)), Plus(r, q)) == Plus(a, r)
  {
    hide *;
    PlusMinus(q);
    PlusCommutative(r, q);
    PlusIsSum(q, r);
    PlusAssociative(a, Minus(q), Plus(q, r));
    PlusAssociative(Minus(q), q, r);
    PlusZero(r);
  }

  /** One window: the next digit, between -127 and 128, and what is left of the scalar. */
  function Digit(n: nat): (d: int)
    ensures -127 <= d <= 128
  {
    if n % 256 > 128 then n % 256 - 256 else n % 256
  }

  function Rest(n: nat): nat {
    if n % 256 > 128 then n / 256 + 1 else n / 256
  }

  /** Every window takes a factor 256 off the bound on the scalar, carry included. */
  lemma RestBound(n: nat, k: nat)
    requires n <= Pow256(k)
    ensures n == 256 * Rest(n) + Digit(n)
    ensures k > 0 ==> Rest(n) <= Pow256(k - 1)
    ensures k == 0 ==> Rest(n) == 0
  {
  }

  /** `wNAF`: its result is the n-fold base point. The table is computed here; the source caches it. */
  method WNaf(n0: nat) returns (r: Result<Point>)
    ensures CurveGroup() && n0 < Pow256(32) ==> r.Ok? && IsMultiple(r.value, n0, BASE)
  {
    hide *;
    var table := Precompute();
    if table.Err? {
      return Err(table.error);
    }
    var comp := table.value;
    var p := IDENTITY;
    var n: nat := n0;
    ghost var good := CurveGroup() && n0 < Pow256(32);
    ghost var acc := ZERO;
    StartOfWindows(n0);
    for w := 0 to 33
      invariant good ==> Represents(p, acc) && OnCurve(acc)
      invariant good ==> Plus(acc, Times(Scaled(n, w), BASE)) == Times(n0, BASE)
      invariant good ==> if w == 33 then n == 0 else n <= Pow256(32 - w)
    {
      var wbits: int := n % 256;
      var rest := n / 256;
      if wbits > 128 {
        wbits := wbits - 256;
        rest := rest + 1;
      }
      if good {
        RestBound(n, 32 - w);
        DigitAndRest(n, wbits, rest);
        if wbits >= 0 {
          PositiveDigit(acc, n, rest, wbits, w);
        } else {
          NegativeDigit(acc, n, rest, -wbits, w);
        }
      }
      if wbits == 0 {
        if good {
          NoDigit(acc, w);
        }
      } else {
        var d := if wbits < 0 then -wbits else wbits;
        var slot := comp[w * 128 + d - 1];
        var neg := Negate(slot);
        if neg.Err? {
          if good { SlotHolds(comp, w, d); NegateIsMinus(slot, Times(Scaled(d, w), BASE)); }
          return Err(neg.error);
        }
        var addend := if wbits < 0 then neg.value else slot;
        ghost var q := Times(Scaled(d, w), BASE);
        ghost var signed := if wbits < 0 then Minus(q) else q;
        if good {
          SlotHolds(comp, w, d);
          NegateIsMinus(slot, q);
          AddIsPlus(p, acc, addend, signed);
        }
        var s := Add(p, addend);
        if s.Err? {
          return Err(s.error);
        }
        p := s.value;
        acc := Plus(acc, signed);
      }
      n := rest;
    }
    if good {
      EndOfWindows(p, acc, n0);
    }
    r := Ok(p);
  }

  lemma DigitAndRest(n: nat, wbits: int, rest: nat)
    requires wbits == if n % 256 > 128 then n % 256 - 256 else n % 256
    requires rest == if n % 256 > 128 then n / 256 + 1 else n / 256
    ensures wbits == Digit(n) && rest == Rest(n)
  {
  }

  lemma StartOfWindows(n0: nat)
    ensures CurveGroup() ==> Represents(IDENTITY, ZERO) && OnCurve(ZERO)
    ensures CurveGroup() ==> Plus(ZERO, Times(Scaled(n0, 0), BASE)) == Times(n0, BASE)
  {
    hide CurveGroup, OnCurve, Represents, Plus, Times;
    if CurveGroup() {
      IdentityRepresentsZero();
      ZeroOnCurve();
      BaseOnCurve();
      TimesOnCurve(n0, BASE);
      PlusZero(Times(n0, BASE));
      assert Scaled(n0, 0) == n0;
    }
  }

  lemma NoDigit(acc: Affine, w: nat)
    requires CurveGroup() && OnCurve(acc)
    ensures Plus(acc, Times(Scaled(0, w), BASE)) == acc
  {
    hide CurveGroup, OnCurve, Plus;
    assert Scaled(0, w) == 0;
    PlusZero(acc);
  }

  lemma EndOfWindows(p: Point, acc: Affine, n0: nat)
    requires CurveGroup() && OnCurve(acc) && Represents(p, acc)
    requires Plus(acc, Times(Scaled(0, 33), BASE)) == Times(n0, BASE)
    ensures IsMultiple(p, n0, BASE)
  {
    hide *;
    NoDigit(acc, 33);
    IsMultipleDef(p, n0, BASE);
  }

  // ---- double and add ----

  lemma EvenBit(acc: Affine, d: Affine, m: nat)
    requires CurveGroup() && OnCurve(acc) && OnCurve(d)
    ensures Plus(acc, Times(m, Plus(d, d))) == Plus(acc, Times(2 * m, d))
  {
    hide *;
    TimesDouble(m, d);
  }

  lemma OddBit(acc: Affine, d: Affine, m: nat)
    requires CurveGroup() && OnCurve(acc) && OnCurve(d)
    ensures Plus(Plus(acc, d), Times(m, Plus(d, d))) == Plus(acc, Times(1 + 2 * m, d))
  {
    hide *;
    EvenBit(Plus(acc, d), d, m) by { PlusIsSum(acc, d); }
    TimesOnCurve(2 * m, d);
    TimesNext(0, d);
    PlusZero(d);
    PlusAssociative(acc, d, Times(2 * m, d));
    TimesAdd(1, 2 * m, d);
  }

  /** Halving the scalar and doubling the point, with the odd bit moved to the accumulator. */
  lemma BinaryDigit(acc: Affine, d: Affine, n: nat)
    requires CurveGroup() && OnCurve(acc) && OnCurve(d)
    ensures Plus(if n % 2 == 1 then Plus(acc, d) else acc, Times(n / 2, Plus(d, d))) == Plus(acc, Times(n, d))
  {
    hide *;
    if n % 2 == 1 {
      OddBit(acc, d, n / 2);
    } else {
      EvenBit(acc, d, n / 2);
    }
  }

  /** The range test and the shortcuts of `multiply`. */
  predicate Multiplies(n: int, isZero: bool, safe: bool) {
    1 <= n < N || (!safe && (n == 0 || isZero))
  }

  lemma MultipliesDef(n: int, isZero: bool, safe: bool)
    ensures Multiplies(n, isZero, safe) <==> 1 <= n < N || (!safe && (n == 0 || isZero))
  {
  }

  /** `Point.multiply`. The accumulator of dummy additions is not kept: it never reaches the result. */
  method Multiply(point: Point, n0: int, safe: bool, ghost a: Affine) returns (r: Result<Point>)
    ensures !Multiplies(n0, Equals(point, IDENTITY), safe) ==> r.Err?
    ensures CurveGroup() && Represents(point, a) ==>
      && (r.Ok? <==> Multiplies(n0, a == ZERO, safe))
      && (r.Ok? ==> IsMultiple(r.value, if n0 < 0 then 0 else n0, a))
  {
    hide *;
    MultipliesDef(n0, a == ZERO, safe);
    MultipliesDef(n0, Equals(point, IDENTITY), safe);
    ghost var good := CurveGroup() && Represents(point, a);
    if good {
      MultiplyFacts(point, a);
    }
    if !safe && (n0 == 0 || Equals(point, IDENTITY)) {
      if good {
        MultipleOfZero(point, if n0 < 0 then 0 else n0, a);
      }
      return Ok(IDENTITY);
    }
    if !(1 <= n0 < N) {
      return Err("bad number: out of range");
    }
    if n0 == 1 {
      return Ok(point);
    }
    if Equals(point, BasePoint()) {
      if good {
        OrderFits();
      }
      r := WNaf(n0);
      return r;
    }
    var p, d, n := IDENTITY, point, n0;
    ghost var acc, da := ZERO, a;
    while n > 0
      invariant n >= 0
      invariant good ==> Represents(p, acc) && Represents(d, da) && OnCurve(acc) && OnCurve(da)
      invariant good ==> Plus(acc, Times(n, da)) == Times(n0, a)
    {
      if good {
        BinaryDigit(acc, da, n);
        DoubleIsPlus(d, da);
        PlusIsSum(da, da);
      }
      if n % 2 == 1 {
        if good {
          AddIsPlus(p, acc, d, da);
          PlusIsSum(acc, da);
        }
        var s := Add(p, d);
        if s.Err? {
          return Err(s.error);
        }
        p, acc := s.value, Plus(acc, da);
      }
      var t := Double(d);
      if t.Err? {
        return Err(t.error);
      }
      d, da, n := t.value, Plus(da, da), n / 2;
    }
    if good {
      EndOfBits(p, acc, da, n0, a);
    }
    r := Ok(p);
  }

  lemma MultiplyFacts(point: Point, a: Affine)
    requires CurveGroup() && Represents(point, a)
    ensures Equals(point, IDENTITY) <==> a == ZERO
    ensures Equals(point, BasePoint()) <==> a == BASE
    ensures OnCurve(a) && IsMultiple(point, 1, a)
    ensures Represents(IDENTITY, ZERO) && OnCurve(ZERO)
    ensures forall n: nat :: Plus(ZERO, Times(n, a)) == Times(n, a)
  {
    hide *;
    PrimeModulus();
    IdentityRepresentsZero();
    ZeroOnCurve();
    BaseOnCurve();
    EqualsIsEquality(point, a, IDENTITY, ZERO);
    EqualsIsEquality(point, a, BasePoint(), BASE);
    OneMultiple(point, a);
    forall n: nat ensures Plus(ZERO, Times(n, a)) == Times(n, a) {
      TimesOnCurve(n, a);
      PlusZero(Times(n, a));
    }
  }

  lemma MultipleOfZero(point: Point, n: nat, a: Affine)
    requires CurveGroup() && (n == 0 || a == ZERO)
    ensures IsMultiple(IDENTITY, n, a)
  {
    hide *;
    IdentityRepresentsZero();
    TimesZero(n);
    TimesNext(0, a);
    IsMultipleDef(IDENTITY, n, a);
  }

  lemma EndOfBits(p: Point, acc: Affine, da: Affine, n0: nat, a: Affine)
    requires CurveGroup() && Represents(p, acc) && OnCurve(acc)
    requires Plus(acc, Times(0, da)) == Times(n0, a)
    ensures IsMultiple(p, n0, a)
  {
    hide *;
    TimesNext(0, da);
    PlusZero(acc);
    IsMultipleDef(p, n0, a);
  }

  /** The group order in its short form. */
  lemma OrderShape()
    ensures N == Exp2(252) + 0x14def9dea2f79cd65812631a5cf5d3ed
  {
    hide Exp2, Folded;
    FoldedValue(0x1000000000000000000000000000000014def9dea2f79cd65812631a5cf5d3ed, 5);
    Exp2Values();
  }

  /** The constants are those of section 5.1 of RFC 8032: d = -121665 / 121666, y = 4 / 5 with an even x, and the order. */
  lemma StandardConstants()
    ensures P == Exp2(255) - 19 && CURVE_A == P - 1
    ensures 121666 * CURVE_D == 77955 * P - 121665
    ensures 5 * BASE.y == 4 * P + 4 && BASE.x % 2 == 0 && OnCurve(BASE)
    ensures N == Exp2(252) + 27742317777372353535851937790883648493
  {
    hide Exp2, Folded, OnCurve;
    PShape();
    BaseEquation();
    BaseValues();
    ConstantValues();
    OrderShape();
  }

  lemma OrderBounds()
    ensures 16 * Pow256(31) < N < 17 * Pow256(31)
  {
    hide Pow256, Exp2;
    OrderShape();
    TopWindows();
    Exp2Values();
    Exp2Add(128, 120);
    ProductAtLeast(Exp2(128), Exp2(120));
  }

  lemma ProductAtLeast(a: nat, b: nat)
    requires b >= 1
    ensures a * b >= a
  {
  }

  lemma OrderFits()
    ensures N < Pow256(32)
  {
    hide Pow256, Exp2;
    OrderBounds();
    TopWindows();
  }

  /** N is five modulo eight. */
  lemma OrderModulo8() returns (q: nat)
    ensures N == 8 * q + 5
  {
    hide Folded;
    OrderShape();
    assert Exp2(252) == 2 * Exp2(251) && Exp2(251) == 2 * Exp2(250) && Exp2(250) == 2 * Exp2(249);
    q := Exp2(249) + 0x29bdf3bd45ef39acb024c634b9eba7d;
  }
}
