/** The field of Ed25519: powers by the fixed addition chain, and the square root of a ratio. */
module Field25519 {
  import opened Counting
  import opened Modular

  // The constants of the curve.
  const P: nat := Folded(0x7fffffffffffffffffffffffffffffffffffffffffffffffffffffffffffffed, 5)
  const CURVE_A: nat := P - 1
  const CURVE_D: nat := Folded(0x52036cee2b6ffe738cc740797779e89800700a4d4141d8ab75eb4dca135978a3, 5)
  const RM1: nat := Folded(0x2b8324804fc1df0b2b4d00993dfbd7a72f431806ad2fe478c4ee1b274a0ea0b0, 5)

  lemma ConstantValues()
    ensures P == 0x7fffffffffffffffffffffffffffffffffffffffffffffffffffffffffffffed
    ensures CURVE_D == 0x52036cee2b6ffe738cc740797779e89800700a4d4141d8ab75eb4dca135978a3
    ensures RM1 == 0x2b8324804fc1df0b2b4d00993dfbd7a72f431806ad2fe478c4ee1b274a0ea0b0
  {
    hide Folded;
    FoldedValue(0x7fffffffffffffffffffffffffffffffffffffffffffffffffffffffffffffed, 5);
    FoldedValue(0x52036cee2b6ffe738cc740797779e89800700a4d4141d8ab75eb4dca135978a3, 5);
    FoldedValue(0x2b8324804fc1df0b2b4d00993dfbd7a72f431806ad2fe478c4ee1b274a0ea0b0, 5);
  }

  /** d is neither 0 nor -1 in the field. */
  lemma CurveDBound()
    ensures 0 < CURVE_D < P - 1
  {
    ConstantValues();
  }

  /** The prime in its short form. */
  lemma PShape()
    ensures P == Exp2(255) - 19
  {
    hide Exp2, Folded;
    ConstantValues();
    Exp2Values();
  }

  lemma POdd()
    ensures P % 2 == 1 && P > 200
  {
    hide Folded;
    ConstantValues();
  }

  lemma {:induction false} PowAdd(x: int, m: nat, n: nat)
    ensures Pow(x, m + n) == Pow(x, m) * Pow(x, n)
  {
    if m > 0 {
      PowAdd(x, m - 1, n);
      Associate(x, Pow(x, m - 1), Pow(x, n));
    } else {
      assert Pow(x, m) == 1;
    }
  }

  /** `r` stands for the power x^e of the field. */
  ghost predicate Stands(r: int, x: int, e: nat) {
    Cong(r, Pow(x, e), P)
  }

  lemma StandsProduct(r: int, s: int, x: int, e: nat, f: nat)
    requires Stands(r, x, e) && Stands(s, x, f)
    ensures Stands(r * s, x, e + f) && Stands(JsRem(r * s, P), x, e + f)
  {
    hide Cong, Pow, JsRem;
    CongMul(r, Pow(x, e), s, Pow(x, f), P);
    PowAdd(x, e, f);
    CongJsRem(r * s, P);
    CongTrans(JsRem(r * s, P), r * s, Pow(x, e + f), P);
  }

  lemma HalvedExponent(f: nat, k: nat)
    requires k > 0
    ensures f * Exp2(k) == (f + f) * Exp2(k - 1)
  {
    assert f * (2 * Exp2(k - 1)) == (f + f) * Exp2(k - 1);
  }

  /** `pow2`: repeated squaring raises to the power 2^power. */
  method Pow2(r0: nat, power: nat, ghost x: int, ghost e: nat) returns (r: nat)
    requires Stands(r0, x, e)
    ensures Stands(r, x, e * Exp2(power))
  {
    hide Stands, Pow;
    r := r0;
    var left := power;
    ghost var f: nat := e;
    while left > 0
      invariant Stands(r, x, f)
      invariant f * Exp2(left) == e * Exp2(power)
    {
      StandsProduct(r, r, x, f, f);
      HalvedExponent(f, left);
      r, left, f := JsRem(r * r, P), left - 1, f + f;
    }
  }

  /** `r` stands for x^(2^k - 1): the exponent is k one-bits. */
  ghost predicate Ones(r: nat, x: int, k: nat) {
    Stands(r, x, Exp2(k) - 1)
  }

  lemma OnesExponent(a: int, b: int)
    ensures (a - 1) * b + (b - 1) == a * b - 1
  {
  }

  /** One line of the chain: k more one-bits on the right of j of them. */
  method AppendOnes(a: nat, b: nat, ghost j: nat, k: nat, ghost x: int) returns (r: nat)
    requires Ones(a, x, j) && Ones(b, x, k)
    ensures Ones(r, x, j + k)
  {
    hide Stands, Pow, Cong, Exp2;
    var s := Pow2(a, k, x, Exp2(j) - 1);
    Exp2Add(j, k);
    OnesExponent(Exp2(j), Exp2(k));
    StandsProduct(s, b, x, (Exp2(j) - 1) * Exp2(k), Exp2(k) - 1);
    r := JsRem(s * b, P);
  }

  /** The last line of the chain: two squarings and one more factor. */
  method AppendZeroOne(a: nat, x: nat, ghost j: nat) returns (r: nat)
    requires Ones(a, x, j)
    ensures Exp2(j + 2) >= 4
    ensures r < P && Cong(r, Pow(x, Exp2(j + 2) - 3), P)
  {
    var s := Pow2(a, 2, x, Exp2(j) - 1);
    assert Exp2(2) == 4 && Exp2(j + 2) == 4 * Exp2(j);
    assert Pow(x, 0) == 1 && Pow(x, 1) == x;
    CongRefl(x, P);
    StandsProduct(s, x, x, (Exp2(j) - 1) * 4, 1);
    assert (Exp2(j) - 1) * 4 + 1 == Exp2(j + 2) - 3;
    r := JsRem(s * x, P);
  }

  method FirstOnes(x: nat) returns (b2: nat)
    ensures Ones(x, x, 1) && Ones(b2, x, 2)
  {
    hide Stands, Cong, Pow, Exp2, JsRem;
    FirstPower(x);
    StandsProduct(x, x, x, 1, 1);
    var x2 := JsRem(x * x, P);
    StandsProduct(x2, x, x, 2, 1);
    b2 := JsRem(x2 * x, P);
  }

  lemma FirstPower(x: int)
    ensures Stands(x, x, 1) && Exp2(1) == 2 && Exp2(2) == 4
  {
    CongRefl(x, P);
    assert Pow(x, 1) == x * Pow(x, 0);
  }

  /** `pow_2_252_3`: the power (P - 5) / 8 of the square-root computation. */
  method Pow2To252Minus3(x: nat) returns (r: nat)
    ensures r < P && Cong(r, Pow(x, Exp2(252) - 3), P)
  {
    hide Ones, Exp2, Pow;
    var b2 := FirstOnes(x);
    var b4 := AppendOnes(b2, b2, 2, 2, x);
    var b5 := AppendOnes(b4, x, 4, 1, x);
    var b10 := AppendOnes(b5, b5, 5, 5, x);
    var b20 := AppendOnes(b10, b10, 10, 10, x);
    var b40 := AppendOnes(b20, b20, 20, 20, x);
    var b80 := AppendOnes(b40, b40, 40, 40, x);
    var b160 := AppendOnes(b80, b80, 80, 80, x);
    var b240 := AppendOnes(b160, b80, 160, 80, x);
    var b250 := AppendOnes(b240, b10, 240, 10, x);
    r := AppendZeroOne(b250, x, 250);
  }

  // ---- the square root of a ratio ----

  /** The field element (u v^3) (u v^7)^((P - 5) / 8), the candidate root of u / v. */
  ghost function Candidate(u: int, v: int): int {
    CandidateAt(u, v, 5)
  }

  /** Folded like the literals: CandidateIs unfolds it. */
  ghost function CandidateAt(u: int, v: int, depth: nat): int {
    if depth == 0 then u * (v * v * v) * Pow(u * (v * v * v * (v * v * v) * v), Exp2(252) - 3)
    else CandidateAt(u, v, depth - 1)
  }

  lemma {:induction false} CandidateAtIs(u: int, v: int, depth: nat)
    ensures CandidateAt(u, v, depth) ==
      u * (v * v * v) * Pow(u * (v * v * v * (v * v * v) * v), Exp2(252) - 3)
  {
    if depth > 0 {
      CandidateAtIs(u, v, depth - 1);
    }
  }

  lemma CandidateIs(u: int, v: int)
    ensures Candidate(u, v) == u * (v * v * v) * Pow(u * (v * v * v * (v * v * v) * v), Exp2(252) - 3)
  {
    CandidateAtIs(u, v, 5);
  }

  /** The candidate, turned by the root of -1 when its square has the wrong sign, and made even. */
  ghost function Root(u: int, v: int): int {
    var root1 := M(Candidate(u, v), P);
    var vx2 := M(v * root1 * root1, P);
    var x := if vx2 == M(-u, P) || vx2 == M(-u * RM1, P) then M(root1 * RM1, P) else root1;
    if x % 2 == 1 then M(-x, P) else x
  }

  /** The square of the candidate is u / v or -u / v. */
  ghost predicate Rooted(u: int, v: int) {
    var c := Candidate(u, v);
    Cong(v * c * c, u, P) || Cong(v * c * c, -u, P)
  }

  ghost predicate EvenRoot(u: int, v: int, x: int) {
    0 <= x < P && x % 2 == 0 && Cong(v * x * x, u, P)
  }

  lemma Rm1IsRootOfMinusOne()
    ensures Cong(RM1 * RM1, -1, P)
  {
    hide Exp2, Cong, Folded;
    ConstantValues();
    CongBy(RM1 * RM1, -1, 0xecaa2e2f6a2302ccedb31ac05720688238ced2078f3eb0ec9f22e8f621972e5, P);
  }

  lemma {:induction false} PowCong(a: int, b: int, n: nat)
    requires Cong(a, b, P)
    ensures Cong(Pow(a, n), Pow(b, n), P)
  {
    if n == 0 {
      CongRefl(1, P);
    } else {
      PowCong(a, b, n - 1);
      CongMul(a, b, Pow(a, n - 1), Pow(b, n - 1), P);
    }
  }

  lemma CandidateReached(u: int, v: int, v3: int, v7: int, pow: int, x: int)
    requires Cong(v3, v * v * v, P) && Cong(v7, v3 * v3 * v, P)
    requires Cong(pow, Pow(u * v7, Exp2(252) - 3), P) && Cong(x, u * v3 * pow, P)
    ensures Cong(x, Candidate(u, v), P)
  {
    hide Pow, Cong, Candidate;
    CandidateIs(u, v);
    var w3 := v * v * v;
    var w7 := w3 * w3 * v;
    var e := Exp2(252) - 3;
    CongMul(v3, w3, v3, w3, P);
    CongScale(v3 * v3, w3 * w3, v, P);
    CongTrans(v7, v3 * v3 * v, w7, P);
    CongScale(v7, w7, u, P);
    PowCong(u * v7, u * w7, e);
    CongTrans(pow, Pow(u * v7, e), Pow(u * w7, e), P);
    CongScale(v3, w3, u, P);
    CongMul(u * v3, u * w3, pow, Pow(u * w7, e), P);
    CongTrans(x, u * v3 * pow, Candidate(u, v), P);
  }

  lemma VSquare(v: int, x: int, c: int)
    requires Cong(x, c, P)
    ensures Cong(v * x * x, v * c * c, P)
  {
    CongScale(x, c, v, P);
    CongMul(v * x, v * c, x, c, P);
  }

  /** Multiplying by the root of -1 turns a root of -u / v into a root of u / v. */
  lemma TurnRoot(u: int, v: int, x: int, y: int)
    requires Cong(v * x * x, -u, P) && Cong(y, x * RM1, P)
    ensures Cong(v * y * y, u, P)
  {
    hide Cong;
    VSquare(v, y, x * RM1);
    Rm1IsRootOfMinusOne();
    CongMul(v * x * x, -u, RM1 * RM1, -1, P);
    assert v * (x * RM1) * (x * RM1) == (v * x * x) * (RM1 * RM1);
    CongTrans(v * y * y, v * (x * RM1) * (x * RM1), -u * -1, P);
  }

  lemma NegateRoot(u: int, v: int, x: int, y: int)
    requires Cong(v * x * x, u, P) && Cong(y, -x, P)
    ensures Cong(v * y * y, u, P)
  {
    hide Cong;
    VSquare(v, y, -x);
    assert v * -x * -x == v * x * x;
    CongTrans(v * y * y, v * x * x, u, P);
  }

  lemma RootTest(u: int, s: int, t: int)
    requires 0 <= u < P && Cong(s, t, P)
    ensures M(s, P) == u <==> Cong(t, u, P)
    ensures M(s, P) == M(-u, P) <==> Cong(t, -u, P)
  {
    CongSym(s, t, P);
    CongIffM(s, t, P);
    CongIffM(t, u, P);
    CongIffM(t, -u, P);
    CongM(u, P);
    CongUnique(M(u, P), u, P);
  }

  /** A square that is u and -u times the root of -1 at once is zero, so `noRoot` never spoils a root. */
  lemma NoRootMeansZero(u: int)
    requires 0 <= u < P && Cong(u, -u * RM1, P)
    ensures u == 0
  {
    hide Cong, Exp2, Folded;
    Rm1IsRootOfMinusOne();
    var k := CongWitness(u, -u * RM1, P);
    var l := CongWitness(RM1 * RM1, -1, P);
    TwiceIsMultiple(u, RM1, k, -l, P);
    l := -l;
    HalfOfOddMultiple(u, k * (1 - RM1) - l * u);
  }

  lemma HalfOfOddMultiple(u: int, j: int)
    requires 0 <= u < P && u * 2 == j * P
    ensures u == 0
  {
    POdd();
    hide Exp2;
    assert j < 0 ==> j * P < 0;
    assert j > 1 ==> j * P >= 2 * P;
  }

  lemma TwiceIsMultiple(u: int, i: int, k: int, l: int, m: int)
    requires u * (1 + i) == k * m && 1 - i * i == 2 + l * m
    ensures u * 2 == (k * (1 - i) - l * u) * m
  {
    assert u * (1 - i * i) == u * (1 + i) * (1 - i);
    assert u * (1 - i * i) == u * 2 + u * (l * m);
    assert k * m * (1 - i) == k * (1 - i) * m && u * (l * m) == l * u * m;
  }

  /** Choosing the candidate: root1 stays unless one of the other two tests holds. */
  lemma ChosenRoot(u: int, v: int, x: int, root2: int)
    requires 0 <= u < P && Cong(root2, x * RM1, P)
    requires M(v * x * x, P) == u || M(v * x * x, P) == M(-u, P)
    ensures var vx2 := M(v * x * x, P);
            Cong(v * (if vx2 == M(-u, P) || vx2 == M(-u * RM1, P) then root2 else x)
                   * (if vx2 == M(-u, P) || vx2 == M(-u * RM1, P) then root2 else x), u, P)
  {
    hide Cong;
    CongRefl(v * x * x, P);
    RootTest(u, v * x * x, v * x * x);
    if M(v * x * x, P) == u == M(-u * RM1, P) {
      CongM(-u * RM1, P);
      NoRootMeansZero(u);
    }
    if M(v * x * x, P) == M(-u, P) {
      TurnRoot(u, v, x, root2);
    }
  }

  lemma EvenSign(x: int)
    requires 0 <= x < P
    ensures var y := if x % 2 == 1 then M(-x, P) else x;
            0 <= y < P && y % 2 == 0 && (x == 0 ==> y == 0)
  {
    if x % 2 == 1 {
      NegateInRange(x);
    }
  }

  lemma NegateInRange(x: int)
    requires 0 < x < P
    ensures M(-x, P) == P - x
  {
    CongM(-x, P);
    CongBy(-x, P - x, -1, P);
    CongTrans(M(-x, P), -x, P - x, P);
    CongUnique(M(-x, P), P - x, P);
  }

  /** And back: a square root of u / v that is a turned number shows that number to be a root of -u / v. */
  lemma UnturnRoot(u: int, v: int, x: int, y: int)
    requires Cong(v * y * y, u, P) && Cong(y, x * RM1, P)
    ensures Cong(v * x * x, -u, P)
  {
    hide Cong;
    VSquare(v, y, x * RM1);
    CongSym(v * y * y, v * (x * RM1) * (x * RM1), P);
    CongTrans(v * (x * RM1) * (x * RM1), v * y * y, u, P);
    assert v * (x * RM1) * (x * RM1) == (RM1 * RM1) * (v * x * x);
    Rm1IsRootOfMinusOne();
    CongScale(RM1 * RM1, -1, v * x * x, P);
    CongSym(RM1 * RM1 * (v * x * x), -1 * (v * x * x), P);
    CongTrans(-1 * (v * x * x), RM1 * RM1 * (v * x * x), u, P);
    CongScale(-1 * (v * x * x), u, -1, P);
    assert -1 * (v * x * x) * -1 == v * x * x && u * -1 == -u;
  }

  /** Making a number even keeps what its square says. */
  lemma EvenedRoot(u: int, v: int, x: int)
    requires 0 <= x < P
    ensures Cong(v * x * x, u, P) <==> var y := if x % 2 == 1 then M(-x, P) else x; Cong(v * y * y, u, P)
  {
    hide Cong;
    if x % 2 == 1 {
      var y := M(-x, P);
      NegateInRange(x);
      CongBy(x, -y, 1, P);
      CongBy(y, -x, 1, P);
      if Cong(v * x * x, u, P) {
        NegateRoot(u, v, x, y);
      }
      if Cong(v * y * y, u, P) {
        NegateRoot(u, v, y, x);
      }
    }
  }

  /** A root that the two tests do not announce is none. */
  lemma RootIsAnnounced(u: int, v: int, root1: int, x: int)
    requires 0 <= u < P && root1 == M(Candidate(u, v), P)
    requires x == root1 || x == M(root1 * RM1, P)
    requires Cong(v * x * x, u, P)
    ensures Rooted(u, v)
  {
    hide Cong, M, Candidate;
    var c := Candidate(u, v);
    CongM(c, P);
    VSquare(v, root1, c);
    CongSym(v * root1 * root1, v * c * c, P);
    if x == root1 {
      CongTrans(v * c * c, v * root1 * root1, u, P);
    } else {
      CongM(root1 * RM1, P);
      UnturnRoot(u, v, root1, x);
      CongTrans(v * c * c, v * root1 * root1, -u, P);
    }
  }

  /** Soundness: the value is a square root of u / v exactly when it is announced as one, it is even, and the root of zero is zero. */
  lemma RootIsSound(u: int, v: int)
    requires 0 <= u < P
    ensures 0 <= Root(u, v) < P && Root(u, v) % 2 == 0
    ensures Rooted(u, v) <==> EvenRoot(u, v, Root(u, v))
    ensures u == 0 ==> Rooted(u, v) && Root(u, v) == 0
  {
    hide Candidate, Cong, M, Rooted;
    var root1 := M(Candidate(u, v), P);
    RootedTest(u, v, root1);
    var root2 := M(root1 * RM1, P);
    CongM(root1 * RM1, P);
    var vx2 := M(v * root1 * root1, P);
    var x := if vx2 == M(-u, P) || vx2 == M(-u * RM1, P) then root2 else root1;
    EvenSign(x);
    EvenedRoot(u, v, x);
    if Rooted(u, v) {
      ChosenRoot(u, v, root1, root2);
    }
    if Cong(v * x * x, u, P) {
      RootIsAnnounced(u, v, root1, x);
    }
    if u == 0 {
      RootOfZero(v);
    }
  }

  lemma RootOfZero(v: int)
    ensures Candidate(0, v) == 0 && M(0, P) == 0
    ensures Rooted(0, v) && Root(0, v) == 0
  {
    CandidateIs(0, v);
    hide Candidate;
    CongRefl(0, P);
  }

  /** The two tests of the code decide whether the candidate leads to a root. */
  lemma RootedTest(u: int, v: int, root1: int)
    requires 0 <= u < P && root1 == M(Candidate(u, v), P)
    ensures var vx2 := M(v * root1 * root1, P);
      Rooted(u, v) <==> vx2 == u || vx2 == M(-u, P)
  {
    hide Pow, Exp2, Cong, M, Candidate;
    var c := Candidate(u, v);
    CongM(c, P);
    VSquare(v, root1, c);
    RootTest(u, v * root1 * root1, v * c * c);
  }

  lemma NatProduct(a: nat, b: nat)
    ensures a * b >= 0
  {
  }

  /** `uvRatio`: an even square root of u / v when the candidate leads to one. */
  method UvRatio(u: int, v: int) returns (isValid: bool, value: int)
    requires 0 <= u < P && 0 <= v < P
    ensures isValid <==> Rooted(u, v)
    ensures value == Root(u, v)
  {
    hide Pow, Exp2, Cong, M, Candidate, Rooted;
    var v3 := M(v * v * v, P);
    CongM(v * v * v, P);
    var v7 := M(v3 * v3 * v, P);
    CongM(v3 * v3 * v, P);
    NatProduct(u, v7);
    var pow := Pow2To252Minus3(u * v7);
    var root1 := M(u * v3 * pow, P);
    CongM(u * v3 * pow, P);
    CandidateReached(u, v, v3, v7, pow, root1);
    InRangeIsM(root1, Candidate(u, v));
    RootedTest(u, v, root1);
    var vx2 := M(v * root1 * root1, P);
    var root2 := M(root1 * RM1, P);
    var useRoot1 := vx2 == u;
    var useRoot2 := vx2 == M(-u, P);
    var noRoot := vx2 == M(-u * RM1, P);
    var x := root1;
    if useRoot2 || noRoot {
      x := root2;
    }
    InRangeIsM(x, x) by { CongRefl(x, P); }
    if M(x, P) % 2 == 1 {
      x := M(-x, P);
    }
    return useRoot1 || useRoot2, x;
  }

  lemma InRangeIsM(r: int, c: int)
    requires 0 <= r < P && Cong(r, c, P)
    ensures r == M(c, P)
  {
    CongIffM(r, c, P);
    CongM(r, P);
    CongUnique(M(r, P), r, P);
  }

  // ---- completeness, from the two facts that make P a prime ----

  /** The modulus is prime: no zero divisors, and Fermat's little theorem. */
  ghost predicate PrimeField() {
    && (forall a: int, b: int :: Cong(a * b, 0, P) ==> Cong(a, 0, P) || Cong(b, 0, P))
    && (forall a: int :: !Cong(a, 0, P) ==> Cong(Pow(a, P - 1), 1, P))
  }

  lemma NoZeroDivisors(a: int, b: int)
    requires PrimeField() && Cong(a * b, 0, P)
    ensures Cong(a, 0, P) || Cong(b, 0, P)
  {
  }

  lemma Fermat(a: int)
    requires PrimeField() && !Cong(a, 0, P)
    ensures Cong(Pow(a, P - 1), 1, P)
  {
  }

  lemma {:induction false} PowProduct(a: int, b: int, n: nat)
    ensures Pow(a * b, n) == Pow(a, n) * Pow(b, n)
  {
    if n > 0 {
      PowProduct(a, b, n - 1);
      Interchange(a, b, Pow(a, n - 1), Pow(b, n - 1));
    }
  }

  lemma Interchange(a: int, b: int, c: int, d: int)
    ensures a * b * (c * d) == a * c * (b * d)
  {
    assert a * b * (c * d) == a * (b * c) * d;
    assert b * c == c * b;
  }

  lemma {:induction false} PowPower(a: int, m: nat, n: nat)
    ensures Pow(Pow(a, m), n) == Pow(a, m * n)
  {
    if n == 0 {
      assert m * n == 0;
    } else {
      PowPower(a, m, n - 1);
      assert m * n == m + m * (n - 1);
      PowAdd(a, m, m * (n - 1));
    }
  }

  /** For w = v s^2 the candidate is v^(8e+4) s^(2e+2), an identity of integers. */
  lemma CandidateOfSquare(v: int, s: int, e: nat)
    requires e == Exp2(252) - 3
    ensures Candidate(v * s * s, v) == Pow(v, 8 * e + 4) * Pow(s, 2 * e + 2)
  {
    hide Exp2, Candidate;
    CandidateIs(v * s * s, v);
    var v4, s2 := v * (v * v * v), s * s;
    assert Pow(v, 4) == v4 && Pow(s, 2) == s2 by { SmallPowers(v); SmallPowers(s); }
    assert Pow(v, 8) == v4 * v4 by { PowAdd(v, 4, 4); }
    EighthPower(v, s);
    PowProduct(v4 * v4, s2, e);
    PowPower(v, 8, e);
    PowPower(s, 2, e);
    PowAdd(v, 4, 8 * e);
    PowAdd(s, 2, 2 * e);
    Interchange(v4, s2, Pow(v, 8 * e), Pow(s, 2 * e));
  }

  lemma SmallPowers(v: int)
    ensures Pow(v, 2) == v * v && Pow(v, 4) == v * (v * v * v)
  {
    assert Pow(v, 1) == v * Pow(v, 0);
    assert Pow(v, 3) == v * Pow(v, 2);
    assert v * (v * v) == v * v * v;
  }

  lemma EighthPower(v: int, s: int)
    ensures v * s * s * (v * v * v) == v * (v * v * v) * (s * s)
    ensures v * s * s * (v * v * v * (v * v * v) * v) == v * (v * v * v) * (v * (v * v * v)) * (s * s)
  {
    var c, t := v * v * v, s * s;
    assert v * s * s == v * t;
    assert v * t * c == v * c * t;
    assert v * t * (c * c * v) == (v * c) * (v * c) * t;
  }

  lemma ExponentOfFermat(e: int)
    requires e == Exp2(252) - 3
    ensures e >= 0 && 8 * e + 4 == P - 1
  {
    hide Folded;
    PShape();
    assert Exp2(255) == 2 * Exp2(254) && Exp2(254) == 2 * Exp2(253) && Exp2(253) == 2 * Exp2(252);
  }

  /** A square root of one in a field is one or minus one. */
  lemma RootsOfOne(k: int)
    requires PrimeField() && Cong(k * k, 1, P)
    ensures Cong(k, 1, P) || Cong(k, -1, P)
  {
    hide PrimeField;
    var j := CongWitness(k * k, 1, P);
    assert (k - 1) * (k + 1) == 0 + j * P;
    CongBy((k - 1) * (k + 1), 0, j, P);
    NoZeroDivisors(k - 1, k + 1);
    CongRefl(1, P);
    if Cong(k - 1, 0, P) {
      CongAdd(k - 1, 0, 1, 1, P);
    } else {
      CongAdd(k + 1, 0, 1, 1, P);
    }
  }

  /** Euler's criterion for a number that is not a multiple of P: s^((P-1)/2) is 1 or -1. */
  lemma HalfPower(s: int, e: nat)
    requires PrimeField() && e == Exp2(252) - 3 && !Cong(s, 0, P)
    ensures Cong(Pow(s, 4 * e + 2), 1, P) || Cong(Pow(s, 4 * e + 2), -1, P)
  {
    hide PrimeField, Pow, Exp2;
    PowAdd(s, 4 * e + 2, 4 * e + 2);
    ExponentOfFermat(e);
    Fermat(s);
    RootsOfOne(Pow(s, 4 * e + 2));
  }

  lemma SquareOfHalf(v: int, s: int, e: nat)
    ensures var h := Pow(s, 2 * e + 2); v * h * h == v * s * s * Pow(s, 4 * e + 2)
  {
    hide Pow;
    var h := Pow(s, 2 * e + 2);
    PowAdd(s, 2 * e + 2, 2 * e + 2);
    PowAdd(s, 2, 4 * e + 2);
    SmallPowers(s);
    assert v * h * h == v * (h * h);
    assert v * (s * s * Pow(s, 4 * e + 2)) == v * s * s * Pow(s, 4 * e + 2);
  }

  lemma CandidateCong(u: int, w: int, v: int)
    requires Cong(u, w, P)
    ensures Cong(Candidate(u, v), Candidate(w, v), P)
  {
    hide Pow, Cong, Candidate;
    CandidateIs(u, v);
    CandidateIs(w, v);
    assert Exp2(252) - 3 >= 0;
    hide Exp2;
    var v3 := v * v * v;
    var v7 := v3 * v3 * v;
    CongScale(u, w, v3, P);
    CongScale(u, w, v7, P);
    PowCong(u * v7, w * v7, Exp2(252) - 3);
    CongMul(u * v3, w * v3, Pow(u * v7, Exp2(252) - 3), Pow(w * v7, Exp2(252) - 3), P);
  }

  lemma CandidateOfRatio(u: int, v: int, s: int, e: nat)
    requires PrimeField() && e == Exp2(252) - 3
    requires !Cong(v, 0, P) && Cong(u, v * s * s, P)
    ensures Cong(Candidate(u, v), Pow(s, 2 * e + 2), P)
  {
    hide PrimeField, Pow, Cong, Exp2, Candidate;
    var h := Pow(s, 2 * e + 2);
    CandidateCong(u, v * s * s, v);
    CandidateOfSquare(v, s, e);
    ExponentOfFermat(e);
    Fermat(v);
    CongScale(Pow(v, P - 1), 1, h, P);
    CongTrans(Candidate(u, v), Candidate(v * s * s, v), h, P);
  }

  /** Completeness: whenever u / v has a square root at all, the candidate finds it. */
  lemma SquaresAreRooted(u: int, v: int, s: int)
    requires PrimeField() && !Cong(v, 0, P) && Cong(u, v * s * s, P)
    ensures Rooted(u, v)
  {
    hide PrimeField, Pow, Cong, Candidate;
    var e := Exp2(252) - 3;
    hide Exp2;
    var c, h, k := Candidate(u, v), Pow(s, 2 * e + 2), Pow(s, 4 * e + 2);
    CandidateOfRatio(u, v, s, e);
    VSquare(v, c, h);
    SquareOfHalf(v, s, e);
    CongSym(u, v * s * s, P);
    CongScale(v * s * s, u, k, P);
    CongTrans(v * c * c, v * s * s * k, u * k, P);
    if Cong(s, 0, P) {
      VSquare(v, s, 0);
      CongTrans(u, v * s * s, 0, P);
      CongScale(u, 0, k, P);
      CongTrans(v * c * c, u * k, 0, P);
      CongSym(u, 0, P);
      CongTrans(v * c * c, 0, u, P);
    } else {
      HalfPower(s, e);
      CongScaleTo(u, k, v * c * c);
    }
  }

  lemma CongScaleTo(u: int, k: int, t: int)
    requires Cong(t, u * k, P) && (Cong(k, 1, P) || Cong(k, -1, P))
    ensures Cong(t, u, P) || Cong(t, -u, P)
  {
    hide Cong;
    var i := if Cong(k, 1, P) then 1 else -1;
    CongScale(k, i, u, P);
    CongTrans(t, u * k, u * i, P);
  }
}
