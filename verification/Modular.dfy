/** Remainders, congruences, inverses and powers: the number theory under the Ed25519 code. */
module Modular {

  import opened Options

  function Exp2(k: nat): (e: nat)
    ensures e > k
  {
    if k == 0 then 1 else 2 * Exp2(k - 1)
  }

  lemma {:induction false} Exp2Add(j: nat, k: nat)
    ensures Exp2(j + k) == Exp2(j) * Exp2(k)
  {
    if j > 0 {
      Exp2Add(j - 1, k);
      Associate(2, Exp2(j - 1), Exp2(k));
    }
  }

  lemma Associate(a: int, b: int, c: int)
    ensures a * (b * c) == a * b * c
  {
  }

  lemma Exp2Product(j: nat, k: nat, a: int, b: int)
    requires Exp2(j) == a && Exp2(k) == b
    ensures Exp2(j + k) == a * b
  {
    Exp2Add(j, k);
  }

  /** The powers of two the curve's constants are written with. */
  lemma Exp2Values()
    ensures Exp2(128) == 0x1_0000_0000_0000_0000_0000_0000_0000_0000
    ensures Exp2(252) == 0x1000_0000_0000_0000_0000_0000_0000_0000_0000_0000_0000_0000_0000_0000_0000_0000
    ensures Exp2(255) == 0x8000_0000_0000_0000_0000_0000_0000_0000_0000_0000_0000_0000_0000_0000_0000_0000
  {
    assert Exp2(0) == 1 && Exp2(1) == 2 && Exp2(2) == 4 && Exp2(3) == 8 && Exp2(4) == 0x10;
    hide Exp2;
    Exp2Product(4, 4, 0x10, 0x10);
    Exp2Product(8, 8, 0x100, 0x100);
    Exp2Product(16, 16, 0x1_0000, 0x1_0000);
    Exp2Product(32, 32, 0x1_0000_0000, 0x1_0000_0000);
    Exp2Product(64, 64, 0x1_0000_0000_0000_0000, 0x1_0000_0000_0000_0000);
    Exp2Product(64, 128, 0x1_0000_0000_0000_0000, 0x1_0000_0000_0000_0000_0000_0000_0000_0000);
    Exp2Product(32, 192, 0x1_0000_0000, 0x1_0000_0000_0000_0000_0000_0000_0000_0000_0000_0000_0000_0000);
    Exp2Product(16, 8, 0x1_0000, 0x100);
    Exp2Product(24, 224, 0x100_0000, 0x1_0000_0000_0000_0000_0000_0000_0000_0000_0000_0000_0000_0000_0000_0000);
    Exp2Product(4, 248, 0x10, 0x1_0000_0000_0000_0000_0000_0000_0000_0000_0000_0000_0000_0000_0000_0000_0000_00);
    Exp2Product(3, 252, 8, 0x1000_0000_0000_0000_0000_0000_0000_0000_0000_0000_0000_0000_0000_0000_0000_0000);
  }

  /**
   * A literal behind a short recursion: the verifier meets its digits only where FoldedValue is called, and
   * reasons about it as an unknown number everywhere else.
   */
  function Folded(n: nat, depth: nat): (r: nat)
    ensures n > 255 ==> r > 255
  {
    if depth == 0 then n else Folded(n, depth - 1)
  }

  lemma {:induction false} FoldedValue(n: nat, depth: nat)
    ensures Folded(n, depth) == n
  {
    if depth > 0 {
      FoldedValue(n, depth - 1);
    }
  }

  lemma MultipleInRange(k: int, n: int, m: int)
    requires m > 0 && n == k * m && -m < n < m
    ensures k == 0 && n == 0
  {
    assert k >= 1 ==> k * m >= m;
    assert k <= -1 ==> k * m <= -m;
  }

  lemma RemainderUnique(a: int, q: int, r: int, m: int)
    requires m > 0 && a == q * m + r && 0 <= r < m
    ensures a % m == r
  {
    assert (q - a / m) * m == q * m - a / m * m;
    MultipleInRange(q - a / m, a % m - r, m);
  }

  /** The Euclidean remainder, folded like the literals: it is the operator `%` where ResidueValue is called. */
  function Residue(n: int, m: int): (r: int)
    requires m > 0
    ensures 0 <= r < m
  {
    FoldedResidue(n, m, 5)
  }

  function FoldedResidue(n: int, m: int, depth: nat): (r: int)
    requires m > 0
    ensures 0 <= r < m
  {
    if depth == 0 then n % m else FoldedResidue(n, m, depth - 1)
  }

  lemma {:induction false} FoldedResidueValue(n: int, m: int, depth: nat)
    requires m > 0
    ensures FoldedResidue(n, m, depth) == n % m
  {
    if depth > 0 {
      FoldedResidueValue(n, m, depth - 1);
    }
  }

  lemma ResidueValue(n: int, m: int)
    requires m > 0
    ensures Residue(n, m) == n % m
  {
    FoldedResidueValue(n, m, 5);
  }

  lemma ResidueWitness(n: int, m: int) returns (k: int)
    requires m > 0
    ensures n == Residue(n, m) + k * m
  {
    hide Residue;
    ResidueValue(n, m);
    DivRem(n, m);
    k := n / m;
  }

  lemma ResidueUnique(n: int, r: int, k: int, m: int)
    requires m > 0 && n == r + k * m && 0 <= r < m
    ensures Residue(n, m) == r
  {
    hide Residue;
    var l := ResidueWitness(n, m);
    assert (k - l) * m == k * m - l * m;
    MultipleInRange(k - l, Residue(n, m) - r, m);
  }

  /** BigInt `%`: truncated towards zero, so the sign is that of the dividend. */
  function JsRem(a: int, b: int): (r: int)
    requires b > 0
    ensures a >= 0 ==> 0 <= r < b
  {
    if a >= 0 then Residue(a, b) else -Residue(-a, b)
  }

  /** The helper `M`: it corrects the truncated remainder. */
  function M(a: int, b: int): (r: int)
    requires b > 0
    ensures 0 <= r < b
  {
    var r := JsRem(a, b);
    if r >= 0 then r else b + r
  }

  /** So `M` is the Euclidean remainder. */
  lemma MIsResidue(a: int, b: int)
    requires b > 0
    ensures M(a, b) == Residue(a, b) == a % b
  {
    hide Residue;
    ResidueValue(a, b);
    if a < 0 {
      var k := ResidueWitness(-a, b);
      NegatedRemainder(a, Residue(-a, b), k, b);
    }
  }

  lemma NegatedRemainder(a: int, r: int, k: int, b: int)
    requires b > 0 && -a == r + k * b && 0 <= r < b
    ensures Residue(a, b) == if r == 0 then 0 else b - r
  {
    hide Residue;
    assert -k * b == -(k * b) && (-k - 1) * b == -(k * b) - b;
    ResidueUnique(a, if r == 0 then 0 else b - r, if r == 0 then -k else -k - 1, b);
  }

  /** Congruence: the same remainder. */
  ghost predicate Cong(a: int, b: int, m: int) {
    m > 0 && Residue(a, m) == Residue(b, m)
  }

  lemma CongBy(a: int, b: int, k: int, m: int)
    requires m > 0 && a == b + k * m
    ensures Cong(a, b, m)
  {
    hide Residue;
    var l := ResidueWitness(b, m);
    assert (l + k) * m == l * m + k * m;
    ResidueUnique(a, Residue(b, m), l + k, m);
  }

  lemma CongWitness(a: int, b: int, m: int) returns (k: int)
    requires Cong(a, b, m)
    ensures m > 0 && a == b + k * m
  {
    hide Residue;
    var i := ResidueWitness(a, m);
    var j := ResidueWitness(b, m);
    assert (i - j) * m == i * m - j * m;
    k := i - j;
  }

  lemma CongRefl(a: int, m: int)
    requires m > 0
    ensures Cong(a, a, m)
  {
  }

  lemma CongSym(a: int, b: int, m: int)
    requires Cong(a, b, m)
    ensures Cong(b, a, m)
  {
  }

  lemma CongTrans(a: int, b: int, c: int, m: int)
    requires Cong(a, b, m) && Cong(b, c, m)
    ensures Cong(a, c, m)
  {
  }

  lemma CongAdd(a: int, b: int, c: int, d: int, m: int)
    requires Cong(a, b, m) && Cong(c, d, m)
    ensures Cong(a + c, b + d, m) && Cong(a - c, b - d, m)
  {
    hide Cong;
    var k := CongWitness(a, b, m);
    var l := CongWitness(c, d, m);
    assert (k + l) * m == k * m + l * m && (k - l) * m == k * m - l * m;
    CongBy(a + c, b + d, k + l, m);
    CongBy(a - c, b - d, k - l, m);
  }

  lemma CongScale(a: int, b: int, c: int, m: int)
    requires Cong(a, b, m)
    ensures Cong(a * c, b * c, m) && Cong(c * a, c * b, m)
  {
    hide Cong;
    var k := CongWitness(a, b, m);
    assert (b + k * m) * c == b * c + (k * c) * m;
    CongBy(a * c, b * c, k * c, m);
    assert a * c == c * a && b * c == c * b;
  }

  lemma CongMul(a: int, b: int, c: int, d: int, m: int)
    requires Cong(a, b, m) && Cong(c, d, m)
    ensures Cong(a * c, b * d, m)
  {
    hide Cong;
    CongScale(a, b, c, m);
    CongScale(c, d, b, m);
    CongTrans(a * c, b * c, b * d, m);
  }

  lemma CongM(a: int, m: int)
    requires m > 0
    ensures Cong(M(a, m), a, m) && Cong(a, M(a, m), m)
  {
    hide M, Residue;
    MIsResidue(a, m);
    ResidueInRange(M(a, m), m);
  }

  lemma CongJsRem(a: int, m: int)
    requires m > 0
    ensures Cong(JsRem(a, m), a, m)
  {
    hide Residue, Cong;
    var k := ResidueWitness(if a >= 0 then a else -a, m);
    assert -k * m == -(k * m);
    CongSym(a, JsRem(a, m), m) by { CongBy(a, JsRem(a, m), if a >= 0 then k else -k, m); }
  }

  lemma ResidueInRange(a: int, m: int)
    requires 0 <= a < m
    ensures Residue(a, m) == a
  {
    hide Residue;
    ResidueUnique(a, a, 0, m);
  }

  /** Two congruent numbers in range are equal. */
  lemma CongUnique(a: int, b: int, m: int)
    requires m > 0 && 0 <= a < m && 0 <= b < m
    requires Cong(a, b, m)
    ensures a == b
  {
    hide Residue;
    ResidueInRange(a, m);
    ResidueInRange(b, m);
  }

  lemma CongIffM(a: int, b: int, m: int)
    requires m > 0
    ensures Cong(a, b, m) <==> M(a, m) == M(b, m)
  {
    hide M, Residue;
    MIsResidue(a, m);
    MIsResidue(b, m);
  }

  // ---- modular inversion ----

  ghost predicate IsInverse(num: int, md: int, y: int) {
    0 <= y < md && Cong(num * y, 1, md)
  }

  ghost predicate HasInverse(num: int, md: int) {
    exists y: int :: IsInverse(num, md, y)
  }

  lemma InverseUnique(num: int, md: int, y: int, z: int)
    requires IsInverse(num, md, y) && IsInverse(num, md, z)
    ensures y == z
  {
    hide Cong;
    // y == y * 1 == y * (num * z) == (num * y) * z == z, modulo md
    CongScale(num * z, 1, y, md);
    CongScale(num * y, 1, z, md);
    assert num * z * y == num * y * z;
    CongSym(num * z * y, y, md);
    CongTrans(y, num * y * z, z, md);
    CongUnique(y, z, md);
  }

  function Gcd(a: nat, b: nat): nat
    decreases a
  {
    if a == 0 then b else Gcd(b % a, a)
  }

  lemma {:induction false} GcdDivides(a: nat, b: nat) returns (i: int, j: int)
    ensures a == Gcd(a, b) * i && b == Gcd(a, b) * j
    decreases a
  {
    if a == 0 {
      i, j := 0, 1;
    } else {
      var i', j' := GcdDivides(b % a, a);
      DivRem(b, a);
      i, j := j', i' + j' * (b / a);
      FactorOfSum(Gcd(b % a, a), i', j', b / a);
    }
  }

  lemma FactorOfSum(g: int, i: int, j: int, q: int)
    ensures g * (i + j * q) == g * i + q * (g * j)
  {
  }

  lemma CommonFactorOfOne(g: nat, a: int, md: int, num: int, i: int, j: int, t: int, y: int, k: int)
    requires a == g * i && md == g * j && num == a + t * md && num * y == k * md + 1
    ensures g == 1
  {
    var c := i * y + t * j * y - k * j;
    assert num * y == g * i * y + t * (g * j) * y;
    assert g * i * y == g * (i * y) && t * (g * j) * y == g * (t * j * y) && k * (g * j) == g * (k * j);
    assert g * c == 1;
    if g != 1 {
      assert c >= 1 ==> g * c >= g;
      assert c <= 0 ==> g * c <= 0;
    }
  }

  /** An inverse exists only when the greatest common divisor is 1. */
  lemma InverseNeedsCoprime(num: int, a: nat, md: nat)
    requires Cong(num, a, md) && HasInverse(num, md)
    ensures Gcd(a, md) == 1
  {
    hide Cong;
    var y :| IsInverse(num, md, y);
    var k := CongWitness(num * y, 1, md);
    var t := CongWitness(num, a, md);
    var i, j := GcdDivides(a, md);
    CommonFactorOfOne(Gcd(a, md), a, md, num, i, j, t, y, k);
  }

  lemma InverseFromBezout(num: int, a: int, md: int, x: int, y: int, r: int)
    requires Cong(num, a, md) && Cong(r, x, md) && 0 <= r < md
    requires 1 == x * a + y * md
    ensures IsInverse(num, md, r)
  {
    hide Cong;
    CongMul(num, a, r, x, md);
    assert a * x == x * a;
    CongBy(a * x, 1, -y, md);
    CongTrans(num * r, a * x, 1, md);
  }

  lemma DivRem(b: int, a: int)
    requires a > 0
    ensures b == b % a + b / a * a && 0 <= b % a < a
  {
  }

  lemma EuclidStep(a: int, b: int, x: int, y: int, u: int, v: int, a0: int, md: int, q: int)
    requires b == x * a0 + y * md && a == u * a0 + v * md
    ensures b - q * a == (x - u * q) * a0 + (y - v * q) * md
  {
    assert q * a == q * (u * a0) + q * (v * md);
    assert q * (u * a0) == u * q * a0 && q * (v * md) == v * q * md;
  }

  /** `invert`: extended Euclid. None stands for the thrown error. */
  method Invert(num: int, md: int) returns (r: Option<int>)
    ensures r.Some? <==> num != 0 && md > 0 && HasInverse(num, md)
    ensures r.Some? ==> IsInverse(num, md, r.value)
    ensures num != 0 && md > 0 ==> (r.Some? <==> Gcd(M(num, md), md) == 1)
  {
    if num == 0 || md <= 0 {
      return None;
    }
    var a0 := M(num, md);
    CongM(num, md);
    hide M;
    var a, b, x, y, u, v := a0, md, 0, 1, 1, 0;
    while a != 0
      invariant a >= 0 && b > 0
      invariant b == x * a0 + y * md && a == u * a0 + v * md
      invariant Gcd(a, b) == Gcd(a0, md)
      decreases a
    {
      var q, rem := b / a, b % a;
      DivRem(b, a);
      EuclidStep(a, b, x, y, u, v, a0, md, q);
      var m, n := x - u * q, y - v * q;
      b, a, x, y, u, v := a, rem, u, v, m, n;
    }
    if b == 1 {
      r := Some(M(x, md));
      CongM(x, md);
      InverseFromBezout(num, a0, md, x, y, r.value);
    } else {
      r := None;
      if HasInverse(num, md) {
        InverseNeedsCoprime(num, a0, md);
      }
    }
  }

  /** The guard on zero refuses exactly one case that has an inverse: every number is one modulo 1. */
  lemma InvertRefusesZeroModOne(md: int)
    requires md > 0
    ensures HasInverse(0, md) <==> md == 1
  {
    hide Cong;
    if md == 1 {
      CongBy(0, 1, -1, 1);
      assert IsInverse(0, 1, 0);
    } else if HasInverse(0, md) {
      var y :| IsInverse(0, md, y);
      CongUnique(0, 1, md);
    }
  }
}
