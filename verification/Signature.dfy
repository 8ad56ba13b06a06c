/** Ed25519 key derivation, signing and verification, as sections 5.1.5 to 5.1.7 of RFC 8032 describe them. */
module Signature {
  import opened Bytes
  import opened Edwards
  import opened Field25519
  import opened Modular
  import opened Options
  import opened PointCodec
  import opened ScalarMult

  /** SHA-512 is a parameter: a function from byte strings to byte strings. */
  type Hash = Octets -> Octets

  /** The base point has order N. */
  ghost predicate BaseOrder() {
    Times(N, BASE) == ZERO && forall k: nat :: 0 < k < N ==> Times(k, BASE) != ZERO
  }

  /** `modL_LE`: a byte string read as a number modulo the group order. */
  function ModL(b: Octets): (k: int)
    ensures 0 <= k < N
  {
    M(LeValue(b), N)
  }

  /** The whole byte string counts, and nothing but a multiple of the order is taken off it. */
  lemma ModLIsCongruent(b: Octets) returns (q: int)
    ensures LeValue(b) == q * N + ModL(b)
    ensures Cong(LeValue(b), ModL(b), N)
  {
    hide M, LeValue, Cong;
    CongM(LeValue(b), N);
    q := CongWitness(LeValue(b), M(LeValue(b), N), N);
  }

  lemma OrderOfBase()
    requires BaseOrder()
    ensures Times(N, BASE) == ZERO
  {
  }

  lemma TimesReduced(q: nat, m: nat)
    requires CurveGroup() && BaseOrder()
    ensures Times(Product(q, N) + m, BASE) == Times(m, BASE)
  {
    hide *;
    OrderOfBase();
    BaseOnCurve();
    TimesAdd(Product(q, N), m, BASE);
    TimesTimes(q, N, BASE);
    TimesZero(q);
    TimesOnCurve(m, BASE);
    PlusZero(Times(m, BASE));
  }

  lemma QuotientAndM(k: nat, n: nat) returns (q: nat)
    requires n > 0
    ensures k == Product(q, n) + M(k, n)
  {
    hide M;
    MIsResidue(k, n);
    DivRem(k, n);
    q := k / n;
  }

  lemma TimesOrder(k: nat)
    requires CurveGroup() && BaseOrder()
    ensures Times(k, BASE) == Times(M(k, N), BASE)
  {
    hide M, CurveGroup, BaseOrder, Times, Product;
    var q := QuotientAndM(k, N);
    TimesReduced(q, M(k, N));
  }

  lemma TimesBelowOrder(k: nat)
    requires BaseOrder() && 0 < k < N
    ensures Times(k, BASE) != ZERO
  {
  }

  // ---- keys ----

  function Clamped(head: Octets): Octets
    requires |head| == 32
  {
    head[0 := head[0] - head[0] % 8][31 := head[31] % 64 + 64]
  }

  lemma ScaleBetween(top: nat, d: nat)
    requires 64 <= d <= 127
    ensures 64 * top <= top * d <= 127 * top
  {
  }

  lemma LowBits(c: Octets)
    requires |c| > 0
    ensures LeValue(c) % 8 == c[0] % 8
  {
    LowBitsOf(c[0], LeValue(c[1..]), LeValue(c));
  }

  lemma LowBitsOf(low: nat, rest: nat, v: nat)
    requires v == low + 256 * rest
    ensures v % 8 == low % 8
  {
    RemainderUnique(v, low / 8 + 32 * rest, low % 8, 8);
  }

  lemma ClampedValue(head: Octets, top: nat)
    requires |head| == 32 && top == Pow256(31)
    ensures LeValue(Clamped(head)) % 8 == 0
    ensures 64 * top <= LeValue(Clamped(head)) < 128 * top
  {
    hide LeValue, Pow256;
    var c := Clamped(head);
    LowBits(c);
    SplitLast(c, top);
    ScaleBetween(top, c[31]);
  }

  /** The group order is odd: none of its first seven multiples is divisible by 8. */
  lemma OrderIsOdd(m: int)
    requires 1 <= m <= 7
    ensures m * N % 8 != 0
  {
    var q := OrderModulo8();
    hide Exp2;
    FiveTimes(m, q, N);
  }

  lemma FiveTimes(m: int, q: int, n: int)
    requires 1 <= m <= 7 && n == 8 * q + 5
    ensures m * n % 8 != 0
  {
    assert m * n == m * (8 * q) + m * 5;
    assert m * (8 * q) == 8 * (m * q);
    RemainderUnique(m * n, m * q + m * 5 / 8, m * 5 % 8, 8);
  }

  lemma FewMultiples(m: int, v: int)
    requires v == m * N && 0 < v < 8 * N
    ensures 1 <= m <= 7
  {
    assert m <= 0 ==> m * N <= 0;
    assert m >= 8 ==> m * N >= 8 * N;
  }

  /** A clamped scalar is never a multiple of the group order, so a key always has a public point. */
  lemma ClampedNotZero(head: Octets)
    requires |head| == 32
    ensures ModL(Clamped(head)) != 0
  {
    hide LeValue, M, Clamped, Product, Pow256;
    OrderBounds();
    ClampedValue(head, Pow256(31));
    var v := LeValue(Clamped(head));
    var q := QuotientAndM(v, N);
    ProductIsTimes(q, N);
    if M(v, N) == 0 {
      FewMultiples(q, v);
      OrderIsOdd(q);
    }
  }

  lemma ProductIsTimes(j: nat, k: nat)
    ensures Product(j, k) == j * k
  {
  }

  datatype ExtendedKey = ExtendedKey(prefix: Octets, scalar: nat, pointBytes: Octets)

  /** A key pair: a scalar below the group order and the encoding of its multiple of the base point. */
  ghost predicate IsKey(e: ExtendedKey) {
    1 <= e.scalar < N && e.pointBytes == EncodedAffine(Times(e.scalar, BASE))
  }

  /** The bytes of a point known to stand for `a`: the encoding of `a`, refused only for the identity. */
  lemma EncodedOf(p: Point, a: Affine)
    requires CurveGroup() && Represents(p, a)
    ensures Encoded(p) == if a == ZERO then Err("bad point: ZERO") else Ok(EncodedAffine(a))
  {
    hide Represents, Validity, AffineOf, Equals, EncodedAffine, CurveGroup;
    PrimeModulus();
    IdentityRepresentsZero();
    EqualsIsEquality(p, a, IDENTITY, ZERO);
    if a == ZERO {
      ZeroIsRefused(p);
    } else {
      RepresentedIsValid(p, a);
      AffineOfRepresented(p, a);
    }
  }

  lemma ZeroIsRefused(p: Point)
    requires Equals(p, IDENTITY)
    ensures Validity(p) == Some("bad point: ZERO")
  {
  }

  /** Dividing by Z recovers the affine point. */
  lemma AffineOfRepresented(p: Point, a: Affine)
    requires PrimeField() && Represents(p, a) && !Equals(p, IDENTITY)
    ensures AffineOf(p) == Ok(a)
  {
    hide PrimeField, Cong, M, Equals, OnCurve;
    RepresentsIs(p, a);
    assert 0 <= a.x < P && 0 <= a.y < P by { OnCurveInField(a); }
    var i := QuotientExists(1, p.ez);
    InverseFromQuotient(p.ez, i);
    var iz :| IsInverse(p.ez, P, iz) && AffineOf(p) == Ok(Affine(M(p.ex * iz, P), M(p.ey * iz, P)));
    DividedOut(p.ex, a.x, p.ez, iz);
    DividedOut(p.ey, a.y, p.ez, iz);
  }

  lemma OnCurveInField(a: Affine)
    requires OnCurve(a)
    ensures InField(a)
  {
  }

  lemma InverseFromQuotient(z: int, i: int)
    requires Quotient(i, 1, z) && 0 <= i < P
    ensures HasInverse(z, P)
  {
    assert i * z == z * i;
    assert IsInverse(z, P, i);
  }

  lemma DividedOut(u: int, x: int, z: int, iz: int)
    requires Cong(u, x * z, P) && IsInverse(z, P, iz) && 0 <= x < P
    ensures M(u * iz, P) == x
  {
    hide Cong, M;
    CongScale(u, x * z, iz, P);
    CongScale(z * iz, 1, x, P);
    assert x * z * iz == x * (z * iz);
    CongTrans(u * iz, x * (z * iz), x, P);
    CongSym(u * iz, x, P);
    InRangeIsM(x, u * iz);
  }

  /** `hash2extK`: the key pair of a 64-byte hash. */
  method Hash2ExtK(hashed: Octets) returns (r: Result<ExtendedKey>)
    requires |hashed| == 64
    ensures CurveGroup() && BaseOrder() ==> r.Ok? && IsKey(r.value) && r.value.prefix == hashed[32..]
    ensures r.Ok? ==> r.value.scalar == ModL(Clamped(hashed[..32]))
  {
    hide *;
    var head := hashed[..32];
    head := head[0 := head[0] - head[0] % 8];
    head := head[31 := head[31] % 128];
    head := head[31 := if head[31] < 64 then head[31] + 64 else head[31]];
    ClampedSteps(hashed[..32], head);
    var prefix := hashed[32..];
    var scalar := ModL(head);
    ghost var good := CurveGroup() && BaseOrder();
    if good {
      ClampedNotZero(hashed[..32]);
      KeyPointFacts(scalar);
    }
    var point := Multiply(BasePoint(), scalar, true, BASE);
    if point.Err? {
      return Err(point.error);
    }
    if good {
      IsMultipleDef(point.value, scalar, BASE);
      EncodedOf(point.value, Times(scalar, BASE));
    }
    var pointBytes := ToBytes(point.value);
    if pointBytes.Err? {
      return Err(pointBytes.error);
    }
    r := Ok(ExtendedKey(prefix, scalar, pointBytes.value));
    if good {
      KeyDef(r.value);
    }
  }

  lemma KeyDef(e: ExtendedKey)
    ensures IsKey(e) <==> 1 <= e.scalar < N && e.pointBytes == EncodedAffine(Times(e.scalar, BASE))
  {
  }

  lemma ClampedSteps(h: Octets, head: Octets)
    requires |h| == 32 == |head|
    requires var a := h[0 := h[0] - h[0] % 8]; var b := a[31 := a[31] % 128];
      head == b[31 := if b[31] < 64 then b[31] + 64 else b[31]]
    ensures head == Clamped(h)
  {
  }

  lemma KeyPointFacts(k: nat)
    requires CurveGroup() && BaseOrder() && 1 <= k < N
    ensures Represents(BasePoint(), BASE) && Times(k, BASE) != ZERO
    ensures Multiplies(k, BASE == ZERO, true)
  {
    BaseOnCurve();
    TimesBelowOrder(k);
  }

  // ---- signing ----

  /** The second half of a signature: r + k s modulo the order. */
  function Response(r: int, k: int, s: int): (t: int)
    ensures 0 <= t < N
  {
    M(r + k * s, N)
  }

  lemma ResponseOf(r: nat, k: nat, s: nat)
    ensures Response(r, k, s) == M(r + Product(k, s), N)
  {
    hide M;
  }

  /** The 64 bytes R, S for a nonce r whose point is encoded as rBytes. */
  function Assembled(e: ExtendedKey, r: nat, rBytes: Octets, msg: Octets, hash: Hash): Octets {
    rBytes + LeBytes(Response(r, ModL(hash(rBytes + e.pointBytes + msg)), e.scalar), 32)
  }

  lemma AssembledDef(e: ExtendedKey, r: nat, rBytes: Octets, msg: Octets, hash: Hash)
    ensures Assembled(e, r, rBytes, msg, hash) ==
      rBytes + LeBytes(Response(r, ModL(hash(rBytes + e.pointBytes + msg)), e.scalar), 32)
  {
    hide Response, ModL, LeBytes;
  }

  /** The signature section 5.1.6 prescribes for a nonce r: R = rB and S = r + k s modulo the order. */
  ghost function SignatureOf(e: ExtendedKey, r: nat, msg: Octets, hash: Hash): Octets {
    Assembled(e, r, EncodedAffine(Times(r, BASE)), msg, hash)
  }

  /** `_sign`, with the nonce hash already computed: it fails only on a nonce that is zero modulo the order. */
  method Sign(e: ExtendedKey, nonceHash: Octets, msg: Octets, hash: Hash) returns (sig: Result<Octets>)
    ensures CurveGroup() && BaseOrder() ==>
      && (sig.Ok? <==> ModL(nonceHash) != 0)
      && (sig.Ok? ==> sig.value == SignatureOf(e, ModL(nonceHash), msg, hash))
    ensures sig.Ok? && 0 <= e.scalar ==> |sig.value| == 64 && Responds(e, nonceHash, msg, hash, sig.value)
  {
    hide *;
    var r := ModL(nonceHash);
    ghost var good := CurveGroup() && BaseOrder();
    NonceFacts(r);
    var point := Multiply(BasePoint(), r, true, BASE);
    if point.Err? {
      return Err(point.error);
    }
    if good {
      IsMultipleDef(point.value, r, BASE);
      EncodedOf(point.value, Times(r, BASE));
    }
    var rBytes := ToBytes(point.value);
    if rBytes.Err? {
      return Err(rBytes.error);
    }
    var hashable := rBytes.value + e.pointBytes + msg;
    var s := Response(r, ModL(hash(hashable)), e.scalar);
    sig := Ok(rBytes.value + LeBytes(s, 32));
    Halves(point.value, rBytes.value, LeBytes(s, 32));
    RespondsFrom(e, nonceHash, msg, hash, sig.value);
    if good {
      SignatureDef(e, r, msg, hash);
      AssembledDef(e, r, rBytes.value, msg, hash);
    }
  }

  lemma Halves(p: Point, rBytes: Octets, sBytes: Octets)
    requires Encoded(p) == Ok(rBytes) && |sBytes| == 32
    ensures |rBytes| == 32
    ensures |rBytes + sBytes| == 64 && (rBytes + sBytes)[..32] == rBytes && (rBytes + sBytes)[32..] == sBytes
  {
    hide Validity, AffineOf, LeBytes;
  }

  /** S is reduced, and is congruent to r + H(R || A || M) s with the whole of both hashes, as section 5.1.6 has it. */
  ghost predicate Responds(e: ExtendedKey, nonceHash: Octets, msg: Octets, hash: Hash, sig: Octets)
    requires |sig| == 64
  {
    && LeValue(sig[32..]) < N
    && Cong(LeValue(sig[32..]), LeValue(nonceHash) + LeValue(hash(sig[..32] + e.pointBytes + msg)) * e.scalar, N)
  }

  lemma RespondsFrom(e: ExtendedKey, nonceHash: Octets, msg: Octets, hash: Hash, sig: Octets)
    requires |sig| == 64
    requires sig[32..] == LeBytes(Response(ModL(nonceHash), ModL(hash(sig[..32] + e.pointBytes + msg)), e.scalar), 32)
    ensures Responds(e, nonceHash, msg, hash, sig)
  {
    hide LeValue, LeBytes, M, ModL, Cong;
    var h := hash(sig[..32] + e.pointBytes + msg);
    var r, k, s := ModL(nonceHash), ModL(h), e.scalar;
    OrderValue(Response(r, k, s));
    var q0 := ModLIsCongruent(nonceHash);
    var q1 := ModLIsCongruent(h);
    CongM(r + k * s, N);
    CongSym(LeValue(nonceHash), r, N);
    CongSym(LeValue(h), k, N);
    CongScale(k, LeValue(h), s, N);
    CongAdd(r, LeValue(nonceHash), k * s, LeValue(h) * s, N);
    CongTrans(Response(r, k, s), r + k * s, LeValue(nonceHash) + LeValue(h) * s, N);
  }

  lemma NonceFacts(r: nat)
    requires r < N
    ensures CurveGroup() && BaseOrder() ==>
      && Represents(BasePoint(), BASE)
      && (Multiplies(r, BASE == ZERO, true) <==> r != 0)
      && (r != 0 ==> Times(r, BASE) != ZERO)
  {
    hide CurveGroup, BaseOrder, Represents, Times;
    BaseOnCurve();
    if BaseOrder() && r != 0 {
      TimesBelowOrder(r);
    }
  }

  lemma SignatureDef(e: ExtendedKey, r: nat, msg: Octets, hash: Hash)
    ensures SignatureOf(e, r, msg, hash) == Assembled(e, r, EncodedAffine(Times(r, BASE)), msg, hash)
  {
    hide Assembled, EncodedAffine, Times;
  }

  // ---- verification ----

  /**
   * What is hashed: the re-encoded R and A before the message. When either is the identity its encoding throws
   * and nothing replaces the empty byte string the code started with, so the hash is that of no bytes at all.
   */
  function Hashable(r: Affine, a: Affine, msg: Octets): Octets
    requires 0 <= r.y && 0 <= a.y
  {
    if r == ZERO || a == ZERO then [] else EncodedAffine(r) + EncodedAffine(a) + msg
  }

  /** The group equation of section 5.1.7 with the cofactor: 8 (R + kA - SB) = 0. */
  ghost predicate Equation(r: Affine, a: Affine, k: nat, s: nat) {
    Times(8, Plus(Plus(r, Times(k, a)), Minus(Times(s, BASE)))) == ZERO
  }

  ghost predicate Accepts(sig: Octets, msg: Octets, pub: Octets, zip215: bool, hash: Hash)
    requires |sig| == 64 && |pub| == 32
  {
    && Decoded(pub, zip215).Ok? && Decoded(sig[..32], zip215).Ok?
    && LeValue(sig[32..]) < N
    && var a, r := Meaning(Decoded(pub, zip215).value), Meaning(Decoded(sig[..32], zip215).value);
      && (zip215 || Times(8, a) != ZERO)
      && Equation(r, a, ModL(hash(Hashable(r, a, msg))), LeValue(sig[32..]))
  }

  lemma DecodedFacts(hex: Octets, zip215: bool)
    requires Decoded(hex, zip215).Ok?
    ensures var p := Decoded(hex, zip215).value;
      Represents(p, Meaning(p)) && OnCurve(Meaning(p)) && InField(Meaning(p))
  {
    DecodedOnCurve(hex, zip215);
    OnCurveInField(Meaning(Decoded(hex, zip215).value));
  }

  /** `clearCofactor().is0()`: whether the 8-fold of a point is the identity. */
  method EightfoldIsZero(p: Point, ghost a: Affine) returns (r: Result<bool>)
    ensures CurveGroup() && Represents(p, a) ==> r == Ok(Times(8, a) == ZERO)
  {
    hide *;
    var c := Multiply(p, 8, false, a);
    if c.Err? {
      MultipliesEight(a == ZERO);
      return Err(c.error);
    }
    if CurveGroup() && Represents(p, a) {
      IsMultipleDef(c.value, 8, a);
      PrimeModulus();
      IdentityRepresentsZero();
      EqualsIsEquality(c.value, Times(8, a), IDENTITY, ZERO);
    }
    r := Ok(Equals(c.value, IDENTITY));
  }

  lemma MultipliesEight(isZero: bool)
    ensures Multiplies(8, isZero, false)
  {
  }

  lemma MultipliesUnsafe(n: int, isZero: bool)
    requires 0 <= n
    ensures n < N ==> Multiplies(n, isZero, false)
    ensures n >= N && !isZero ==> !Multiplies(n, isZero, false)
  {
  }

  /** The part of `_verify` after decoding: the group equation itself. */
  method CheckEquation(pr: Point, pa: Point, ps: Point, k: nat, ghost s: nat, ghost r: Affine, ghost a: Affine)
      returns (res: Result<bool>)
    requires k < N
    ensures CurveGroup() && Represents(pr, r) && Represents(pa, a) && IsMultiple(ps, s, BASE) ==>
      res == Ok(Equation(r, a, k, s))
  {
    hide *;
    ghost var good := CurveGroup() && Represents(pr, r) && Represents(pa, a) && IsMultiple(ps, s, BASE);
    MultipliesUnsafe(k, a == ZERO);
    var ka := Multiply(pa, k, false, a);
    if ka.Err? {
      return Err(ka.error);
    }
    if good {
      IsMultipleDef(ka.value, k, a);
      AddIsPlus(pr, r, ka.value, Times(k, a));
    }
    var sum := Add(pr, ka.value);
    if sum.Err? {
      return Err(sum.error);
    }
    if good {
      IsMultipleDef(ps, s, BASE);
      NegateIsMinus(ps, Times(s, BASE));
    }
    var neg := Negate(ps);
    if neg.Err? {
      return Err(neg.error);
    }
    if good {
      AddIsPlus(sum.value, Plus(r, Times(k, a)), neg.value, Minus(Times(s, BASE)));
    }
    var diff := Add(sum.value, neg.value);
    if diff.Err? {
      return Err(diff.error);
    }
    res := EightfoldIsZero(diff.value, Plus(Plus(r, Times(k, a)), Minus(Times(s, BASE))));
    if good {
      EquationDef(r, a, k, s);
    }
  }

  lemma EquationDef(r: Affine, a: Affine, k: nat, s: nat)
    ensures Equation(r, a, k, s) <==> Times(8, Plus(Plus(r, Times(k, a)), Minus(Times(s, BASE)))) == ZERO
  {
  }

  /** `_verify`: an error for arguments of the wrong length, otherwise whether the signature is accepted. */
  method Verify(sig: Octets, msg: Octets, pub: Octets, zip215: bool, hash: Hash) returns (r: Result<bool>)
    ensures |sig| != 64 || |pub| != 32 ==> r.Err?
    ensures |sig| == 64 && |pub| == 32 && LeValue(sig[32..]) >= N ==> r == Ok(false)
    ensures |sig| == 64 && |pub| == 32 && CurveGroup() && BaseOrder() ==>
      r == Ok(Accepts(sig, msg, pub, zip215, hash))
  {
    hide *;
    if |sig| != 64 || |pub| != 32 {
      return Err("Uint8Array expected");
    }
    ghost var good := CurveGroup() && BaseOrder();
    AcceptsDef(sig, msg, pub, zip215, hash);
    var pa := FromBytes(pub, zip215);
    if pa.Err? {
      return Ok(false);
    }
    var pr := FromBytes(sig[..32], zip215);
    if pr.Err? {
      return Ok(false);
    }
    ghost var a, ar := Meaning(pa.value), Meaning(pr.value);
    DecodedFacts(pub, zip215);
    DecodedFacts(sig[..32], zip215);
    var s := LeValue(sig[32..]);
    BasePointFacts(s);
    var sb := Multiply(BasePoint(), s, false, BASE);
    if sb.Err? {
      return Ok(false);
    }
    if good {
      EncodedOf(pr.value, ar);
      EncodedOf(pa.value, a);
    }
    var hashable := [];
    var rBytes := ToBytes(pr.value);
    var aBytes := ToBytes(pa.value);
    if rBytes.Ok? && aBytes.Ok? {
      hashable := rBytes.value + aBytes.value + msg;
    }
    HashableDef(ar, a, msg);
    if !zip215 {
      var small := EightfoldIsZero(pa.value, a);
      if small.Err? {
        return small;
      }
      if small.value {
        return Ok(false);
      }
    }
    r := CheckEquation(pr.value, pa.value, sb.value, ModL(hash(hashable)), s, ar, a);
  }

  lemma BasePointFacts(s: nat)
    ensures Represents(BasePoint(), BASE)
    ensures Multiplies(s, BASE == ZERO, false) <==> s < N
    ensures Multiplies(s, Equals(BasePoint(), IDENTITY), false) <==> s < N
  {
    hide Represents, M, OnCurve, CurveGroup;
    BaseOnCurve();
    assert !Equals(BasePoint(), IDENTITY) by {
      BaseInField();
      InRangeIsM(BASE.x, BASE.x * 1) by { CongRefl(BASE.x, P); }
      InRangeIsM(0, 0) by { CongRefl(0, P); }
    }
    assert BASE != ZERO;
  }

  lemma HashableDef(r: Affine, a: Affine, msg: Octets)
    requires InField(r) && InField(a)
    ensures 0 <= r.y && 0 <= a.y
    ensures Hashable(r, a, msg) == if r == ZERO || a == ZERO then [] else EncodedAffine(r) + EncodedAffine(a) + msg
  {
  }

  lemma AcceptsDef(sig: Octets, msg: Octets, pub: Octets, zip215: bool, hash: Hash)
    requires |sig| == 64 && |pub| == 32
    ensures Accepts(sig, msg, pub, zip215, hash) <==>
      && Decoded(pub, zip215).Ok? && Decoded(sig[..32], zip215).Ok?
      && LeValue(sig[32..]) < N
      && var a, r := Meaning(Decoded(pub, zip215).value), Meaning(Decoded(sig[..32], zip215).value);
        && (zip215 || Times(8, a) != ZERO)
        && Equation(r, a, ModL(hash(Hashable(r, a, msg))), LeValue(sig[32..]))
  {
    hide Decoded, LeValue, Meaning, Times, Equation, ModL, Hashable;
  }

  // ---- every signature verifies ----

  lemma DecodeOfEncoded(a: Affine, zip215: bool)
    requires CurveGroup() && OnCurve(a)
    ensures |EncodedAffine(a)| == 32
    ensures Decoded(EncodedAffine(a), zip215).Ok? && Meaning(Decoded(EncodedAffine(a), zip215).value) == a
  {
    hide CurveGroup, OnCurve, EncodedAffine, Decoded;
    PrimeModulus();
    OnCurveInField(a);
    EncodeThenDecode(a, zip215);
    EncodedFields(a);
    InRangeIsM(a.y, a.y) by { CongRefl(a.y, P); }
  }

  /** The group order is odd, so no public point is of small order. */
  lemma NotSmallOrder(s: nat)
    requires CurveGroup() && BaseOrder() && 1 <= s < N
    ensures Times(8, Times(s, BASE)) != ZERO
  {
    hide *;
    BaseOnCurve();
    TimesTimes(8, s, BASE);
    ProductIsTimes(8, s);
    TimesOrder(8 * s);
    var q := QuotientAndM(8 * s, N);
    ProductIsTimes(q, N);
    if M(8 * s, N) == 0 {
      FewMultiples(q, 8 * s);
      OrderIsOdd(q);
    } else {
      TimesBelowOrder(M(8 * s, N));
    }
  }

  /** R + kA = SB, so the equation holds. */
  lemma EquationHolds(r: nat, k: nat, s: nat)
    requires CurveGroup() && BaseOrder()
    ensures Equation(Times(r, BASE), Times(s, BASE), k, M(r + Product(k, s), N))
  {
    hide *;
    BaseOnCurve();
    TimesTimes(k, s, BASE);
    TimesAdd(r, Product(k, s), BASE);
    TimesOrder(r + Product(k, s));
    var t := Times(M(r + Product(k, s), N), BASE);
    TimesOnCurve(M(r + Product(k, s), N), BASE);
    PlusMinus(t);
    TimesZero(8);
    EquationDef(Times(r, BASE), Times(s, BASE), k, M(r + Product(k, s), N));
  }

  lemma OrderValue(s: nat)
    requires s < N
    ensures LeValue(LeBytes(s, 32)) == s
  {
    hide LeValue, LeBytes, Pow256;
    OrderFits();
    LeValueOfLeBytes(s, 32);
  }

  /** Every signature of section 5.1.6 is accepted under section 5.1.7, strictly or with zip215. */
  lemma SignatureIsAccepted(e: ExtendedKey, r: nat, msg: Octets, zip215: bool, hash: Hash)
    requires CurveGroup() && BaseOrder() && IsKey(e) && 1 <= r < N
    ensures var sig := SignatureOf(e, r, msg, hash);
      |sig| == 64 && |e.pointBytes| == 32 && Accepts(sig, msg, e.pointBytes, zip215, hash)
  {
    hide *;
    KeyDef(e);
    SignatureDef(e, r, msg, hash);
    AssembledDef(e, r, EncodedAffine(Times(r, BASE)), msg, hash);
    var pr, pa := Times(r, BASE), Times(e.scalar, BASE);
    BaseOnCurve();
    TimesOnCurve(r, BASE);
    TimesOnCurve(e.scalar, BASE);
    TimesBelowOrder(r);
    TimesBelowOrder(e.scalar);
    DecodeOfEncoded(pr, zip215);
    DecodeOfEncoded(pa, zip215);
    OnCurveInField(pr);
    OnCurveInField(pa);
    InFieldDef(pr);
    InFieldDef(pa);
    HashableDef(pr, pa, msg);
    var k := ModL(hash(EncodedAffine(pr) + e.pointBytes + msg));
    var s := Response(r, k, e.scalar);
    ResponseOf(r, k, e.scalar);
    OrderValue(s);
    var sig := SignatureOf(e, r, msg, hash);
    assert sig[..32] == EncodedAffine(pr) && sig[32..] == LeBytes(s, 32);
    NotSmallOrder(e.scalar);
    EquationHolds(r, k, e.scalar);
    AcceptsDef(sig, msg, e.pointBytes, zip215, hash);
  }

  lemma InFieldDef(a: Affine)
    requires InField(a)
    ensures 0 <= a.x && 0 <= a.y
  {
  }

  // ---- section 5.1.7 ----

  lemma Shuffle(x: Affine, y: Affine, a: Affine, b: Affine)
    requires CurveGroup() && OnCurve(x) && OnCurve(y) && OnCurve(a) && OnCurve(b)
    ensures Plus(Plus(x, y), Plus(a, b)) == Plus(Plus(x, a), Plus(y, b))
  {
    hide *;
    PlusIsSum(x, a);
    PlusIsSum(y, b);
    PlusIsSum(a, b);
    PlusIsSum(x, y);
    PlusAssociative(x, y, Plus(a, b));
    PlusAssociative(y, a, b);
    PlusCommutative(y, a);
    PlusAssociative(a, y, b);
    PlusAssociative(x, a, Plus(y, b));
  }

  lemma {:induction false} TimesPlus(n: nat, a: Affine, b: Affine)
    requires CurveGroup() && OnCurve(a) && OnCurve(b)
    ensures Times(n, Plus(a, b)) == Plus(Times(n, a), Times(n, b))
  {
    hide *;
    if n == 0 {
      TimesNext(0, a);
      TimesNext(0, b);
      TimesNext(0, Plus(a, b));
      ZeroOnCurve();
      PlusZero(ZERO);
    } else {
      TimesPlus(n - 1, a, b);
      TimesNext(n - 1, a);
      TimesNext(n - 1, b);
      TimesNext(n - 1, Plus(a, b));
      TimesOnCurve(n - 1, a);
      TimesOnCurve(n - 1, b);
      Shuffle(Times(n - 1, a), Times(n - 1, b), a, b);
    }
  }

  /** A multiple of a difference vanishes exactly when the multiples are equal. */
  lemma DifferenceVanishes(n: nat, u: Affine, v: Affine)
    requires CurveGroup() && OnCurve(u) && OnCurve(v)
    ensures Times(n, Plus(u, Minus(v))) == ZERO <==> Times(n, u) == Times(n, v)
  {
    hide *;
    PlusMinus(v);
    TimesPlus(n, u, Minus(v));
    TimesPlus(n, Minus(v), v);
    TimesPlus(n, v, Minus(v));
    TimesZero(n);
    TimesOnCurve(n, u);
    TimesOnCurve(n, v);
    TimesOnCurve(n, Minus(v));
    PlusAssociative(Times(n, u), Times(n, Minus(v)), Times(n, v));
    PlusZero(Times(n, u));
    PlusZero(Times(n, v));
  }

  /**
   * Acceptance in the words of section 5.1.7: S is below the order, and [8][S]B = [8]R + [8][k]A' for the hash as a
   * number modulo the order; strictly, A is not of small order besides.
   */
  lemma AcceptsAsPrescribed(sig: Octets, msg: Octets, pub: Octets, zip215: bool, hash: Hash, k: nat)
    requires CurveGroup() && |sig| == 64 && |pub| == 32
    requires Decoded(pub, zip215).Ok? && Decoded(sig[..32], zip215).Ok?
    ensures var a, r := Meaning(Decoded(pub, zip215).value), Meaning(Decoded(sig[..32], zip215).value);
      && 0 <= r.y && 0 <= a.y
      && (k < N && Cong(LeValue(hash(Hashable(r, a, msg))), k, N) ==>
        (Accepts(sig, msg, pub, zip215, hash) <==>
          && LeValue(sig[32..]) < N
          && (zip215 || Times(8, a) != ZERO)
          && Times(8, Times(LeValue(sig[32..]), BASE)) == Plus(Times(8, r), Times(8, Times(k, a)))))
  {
    hide *;
    var a, r := Meaning(Decoded(pub, zip215).value), Meaning(Decoded(sig[..32], zip215).value);
    DecodedFacts(pub, zip215);
    DecodedFacts(sig[..32], zip215);
    HashableDef(r, a, msg);
    var h := hash(Hashable(r, a, msg));
    if k < N && Cong(LeValue(h), k, N) {
      var q := ModLIsCongruent(h);
      CongSym(LeValue(h), k, N);
      CongTrans(k, LeValue(h), ModL(h), N);
      CongUnique(k, ModL(h), N);
      var s := LeValue(sig[32..]);
      BaseOnCurve();
      TimesOnCurve(s, BASE);
      TimesOnCurve(k, a);
      PlusIsSum(r, Times(k, a));
      AcceptsDef(sig, msg, pub, zip215, hash);
      EquationDef(r, a, k, s);
      DifferenceVanishes(8, Plus(r, Times(k, a)), Times(s, BASE));
      TimesPlus(8, r, Times(k, a));
    }
  }

  // ---- what the hash binds ----

  lemma EncodedWidth(a: Affine)
    requires 0 <= a.y
    ensures |EncodedAffine(a)| == 32
  {
  }

  /** The hashed bytes tell two messages apart unless R or A is the identity: then they hold no message at all. */
  lemma MessageIsHashed(r: Affine, a: Affine, m1: Octets, m2: Octets)
    requires 0 <= r.y && 0 <= a.y
    ensures Hashable(r, a, m1) == Hashable(r, a, m2) <==> m1 == m2 || r == ZERO || a == ZERO
  {
    hide EncodedAffine;
    var head := EncodedAffine(r) + EncodedAffine(a);
    assert (head + m1)[|head|..] == m1 && (head + m2)[|head|..] == m2;
  }

  /** With R or A the identity, one signature is as good for any message as for any other. */
  lemma IdentityIgnoresMessage(sig: Octets, pub: Octets, zip215: bool, hash: Hash, m1: Octets, m2: Octets)
    requires |sig| == 64 && |pub| == 32 && Decoded(pub, zip215).Ok? && Decoded(sig[..32], zip215).Ok?
    requires Meaning(Decoded(pub, zip215).value) == ZERO || Meaning(Decoded(sig[..32], zip215).value) == ZERO
    ensures Accepts(sig, m1, pub, zip215, hash) <==> Accepts(sig, m2, pub, zip215, hash)
  {
    hide *;
    var a, r := Meaning(Decoded(pub, zip215).value), Meaning(Decoded(sig[..32], zip215).value);
    DecodedFacts(pub, zip215);
    DecodedFacts(sig[..32], zip215);
    HashableDef(r, a, m1);
    HashableDef(r, a, m2);
    AcceptsDef(sig, m1, pub, zip215, hash);
    AcceptsDef(sig, m2, pub, zip215, hash);
  }

  /**
   * Section 5.1.7 hashes R and A as they were received. The code hashes what it re-encodes, and the two agree
   * exactly when both encodings are canonical.
   */
  lemma HashesWhatWasReceived(sig: Octets, pub: Octets, msg: Octets, zip215: bool)
    requires CurveGroup() && |sig| == 64 && |pub| == 32
    requires Decoded(pub, zip215).Ok? && Decoded(sig[..32], zip215).Ok?
    ensures var a, r := Meaning(Decoded(pub, zip215).value), Meaning(Decoded(sig[..32], zip215).value);
      && 0 <= r.y && 0 <= a.y
      && (Hashable(r, a, msg) == sig[..32] + pub + msg <==> Canonical(sig[..32]) && Canonical(pub))
  {
    hide *;
    var a, r := Meaning(Decoded(pub, zip215).value), Meaning(Decoded(sig[..32], zip215).value);
    DecodedFacts(pub, zip215);
    DecodedFacts(sig[..32], zip215);
    HashableDef(r, a, msg);
    EncodedOf(Decoded(pub, zip215).value, a);
    EncodedOf(Decoded(sig[..32], zip215).value, r);
    DecodeThenEncode(pub, zip215);
    DecodeThenEncode(sig[..32], zip215);
    EncodedWidth(r);
    EncodedWidth(a);
    TwoHalves(EncodedAffine(r), EncodedAffine(a), sig[..32], pub, msg);
  }

  lemma TwoHalves(a: Octets, b: Octets, c: Octets, d: Octets, m: Octets)
    requires |a| == |c| && |b| == |d|
    ensures a + b + m == c + d + m <==> a == c && b == d
    ensures |a| > 0 ==> c + d + m != []
  {
    assert (a + b + m)[..|a|] == a && (c + d + m)[..|c|] == c;
    assert (a + b + m)[|a|..|a| + |b|] == b && (c + d + m)[|c|..|c| + |d|] == d;
  }
}
