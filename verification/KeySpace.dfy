/** Node ids, the XOR distance between them, and the leading zero bits of a distance. */
module KeySpace {

  import opened Counting

  /** Width of the key space in bits. */
  const ID_BITS: nat := 264

  /** A node id, read as the number its bits spell. */
  type Id = nat

  /** Bitwise exclusive or. */
  function Xor(a: nat, b: nat): nat {
    if a == 0 && b == 0 then 0 else 2 * Xor(a / 2, b / 2) + (a + b) % 2
  }

  lemma XorStep(a: nat, b: nat)
    ensures Xor(a, b) == 2 * Xor(a / 2, b / 2) + (a + b) % 2
  {
  }

  lemma SameHalves(t: nat, a: nat, b: nat)
    requires a / 2 == b / 2 && (t + a) % 2 == (t + b) % 2
    ensures a == b
  {
  }

  /** Two different ids are never at the same distance from a third. */
  lemma {:induction false} XorInjective(t: nat, a: nat, b: nat)
    requires Xor(t, a) == Xor(t, b)
    ensures a == b
    decreases t + a + b
  {
    hide Xor;
    XorStep(t, a);
    XorStep(t, b);
    if t + a + b != 0 {
      XorInjective(t / 2, a / 2, b / 2);
      SameHalves(t, a, b);
    }
  }

  /** Only an id itself is at distance zero. */
  lemma {:induction false} XorZero(a: nat, b: nat)
    ensures Xor(a, b) == 0 <==> a == b
  {
    if a != 0 || b != 0 {
      XorZero(a / 2, b / 2);
    }
  }

  lemma {:induction false} XorSymmetric(a: nat, b: nat)
    ensures Xor(a, b) == Xor(b, a)
  {
    if a != 0 || b != 0 {
      XorSymmetric(a / 2, b / 2);
    }
  }

  function BitLength(n: nat): nat {
    if n == 0 then 0 else 1 + BitLength(n / 2)
  }

  /** `clz264`: the leading zero bits of a number written on 264 bits. */
  function Clz264(n: nat): (c: nat)
    ensures c <= ID_BITS
  {
    if BitLength(n) >= ID_BITS then 0 else ID_BITS - BitLength(n)
  }

  /** Bit `k` of a number. */
  function Bit(n: nat, k: nat): nat {
    if k == 0 then n % 2 else Bit(n / 2, k - 1)
  }

  /** A bit of the distance is set exactly where the two ids differ. */
  lemma {:induction false} XorBit(a: nat, b: nat, k: nat)
    ensures Bit(Xor(a, b), k) == if Bit(a, k) == Bit(b, k) then 0 else 1
  {
    hide Xor;
    XorStep(a, b);
    if k > 0 {
      XorBit(a / 2, b / 2, k - 1);
    }
  }

  /** A number lies between the powers of two its bit length names. */
  lemma {:induction false} BitLengthBounds(n: nat)
    ensures n < Pow(2, BitLength(n))
    ensures n > 0 ==> Pow(2, BitLength(n) - 1) <= n
  {
    if n > 0 {
      BitLengthBounds(n / 2);
    }
  }

  lemma {:induction false} Pow2Monotone(j: nat, k: nat)
    ensures Pow(2, j) >= 1
    ensures j <= k ==> Pow(2, j) <= Pow(2, k)
  {
    if j < k {
      Pow2Monotone(j, k - 1);
    } else if j > 0 {
      Pow2Monotone(j - 1, j - 1);
    }
  }

  /** At most `c` of the 264 bits lead with zero exactly when the number reaches the bit that follows them. */
  lemma ClzBound(n: nat, c: nat)
    requires n < Pow(2, ID_BITS) && c < ID_BITS
    ensures Clz264(n) <= c <==> Pow(2, ID_BITS - 1 - c) <= n
  {
    hide Pow;
    var l := BitLength(n);
    BitLengthBounds(n);
    Pow2Monotone(l, ID_BITS - 1 - c);
    if n > 0 {
      hide BitLength;
      Pow2Monotone(ID_BITS - 1 - c, l - 1);
      Pow2Monotone(ID_BITS, l - 1);
    }
  }
}
