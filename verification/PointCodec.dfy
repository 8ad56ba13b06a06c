/** Decoding and encoding of curve points, as sections 5.1.2 and 5.1.3 of RFC 8032 describe them. */
module PointCodec {
  import opened Bytes
  import opened Edwards
  import opened Field25519
  import opened Modular
  import opened Options

  type Octets = seq<Byte>

  // ---- decoding ----

  predicate SignBit(hex: Octets)
    requires |hex| == 32
  {
    hex[31] >= 128
  }

  /** The y coordinate: the bytes without the sign bit, least significant first. */
  function YOf(hex: Octets): nat
    requires |hex| == 32
  {
    LeValue(hex[31 := hex[31] % 128])
  }

  ghost function UOf(y: int): int {
    M(M(y * y, P) - 1, P)
  }

  ghost function VOf(y: int): int {
    M(CURVE_D * M(y * y, P) + 1, P)
  }

  function Signed(x: int, odd: bool): int {
    if odd != (x % 2 == 1) then M(-x, P) else x
  }

  ghost function Decoded(hex: Octets, zip215: bool): Result<Point> {
    if |hex| != 32 then Err("Uint8Array expected") else
    var y := YOf(hex);
    if y >= (if zip215 then B256 else P) then Err("bad number: out of range") else
    if !Rooted(UOf(y), VOf(y)) then Err("bad point: y not sqrt") else
    var x := Root(UOf(y), VOf(y));
    if !zip215 && x == 0 && SignBit(hex) then Err("bad point: x==0, isLastByteOdd") else
    var sx := Signed(x, SignBit(hex));
    NewPoint(sx, y, 1, M(sx * y, P))
  }

  method FromBytes(hex: Octets, zip215: bool) returns (r: Result<Point>)
    ensures r == Decoded(hex, zip215)
  {
    hide Cong, M, Root, Rooted, LeValue, NewPoint;
    if |hex| != 32 {
      return Err("Uint8Array expected");
    }
    var lastByte := hex[31];
    var normed := hex[31 := lastByte % 128];
    var y := LeValue(normed);
    var max := if zip215 then B256 else P;
    if !(0 <= y < max) {
      return Err("bad number: out of range");
    }
    var y2 := M(y * y, P);
    var u := M(y2 - 1, P);
    var v := M(CURVE_D * y2 + 1, P);
    var isValid, x := UvRatio(u, v);
    if !isValid {
      return Err("bad point: y not sqrt");
    }
    var isXOdd, isLastByteOdd := x % 2 == 1, lastByte >= 128;
    if !zip215 && x == 0 && isLastByteOdd {
      return Err("bad point: x==0, isLastByteOdd");
    }
    if isLastByteOdd != isXOdd {
      x := M(-x, P);
    }
    r := NewPoint(x, y, 1, M(x * y, P));
  }

  // ---- encoding ----

  /** The two equations `assertValidity` tests; the error message of the first that fails. */
  function Validity(p: Point): Option<string> {
    var x2, y2, z2 := M(p.ex * p.ex, P), M(p.ey * p.ey, P), M(p.ez * p.ez, P);
    var z4 := M(z2 * z2, P);
    var ax2 := M(x2 * CURVE_A, P);
    var left := M(z2 * M(ax2 + y2, P), P);
    var right := M(z4 + M(CURVE_D * M(x2 * y2, P), P), P);
    if Equals(p, IDENTITY) then Some("bad point: ZERO")
    else if left != right then Some("bad point: equation left != right (1)")
    else if M(p.ex * p.ey, P) != M(p.ez * p.et, P) then Some("bad point: equation left != right (2)")
    else None
  }

  ghost function AffineOf(p: Point): (r: Result<Affine>)
    ensures r.Ok? ==> 0 <= r.value.x < P && 0 <= r.value.y < P
  {
    if Equals(p, IDENTITY) then Ok(ZERO)
    else if p.ez != 0 && HasInverse(p.ez, P) then
      var iz :| IsInverse(p.ez, P, iz);
      Ok(Affine(M(p.ex * iz, P), M(p.ey * iz, P)))
    else Err("no inverse")
  }

  method ToAffine(p: Point) returns (r: Result<Affine>)
    ensures r == AffineOf(p)
  {
    hide Cong, M;
    if Equals(p, IDENTITY) {
      return Ok(Affine(0, 1));
    }
    var inv := Invert(p.ez, P);
    if inv.None? {
      return Err("no inverse");
    }
    var iz := inv.value;
    ProductIsOne(p.ez, iz);
    if M(p.ez * iz, P) != 1 {
      return Err("invalid inverse");
    }
    ghost var chosen :| IsInverse(p.ez, P, chosen) && AffineOf(p) == Ok(Affine(M(p.ex * chosen, P), M(p.ey * chosen, P)));
    InverseUnique(p.ez, P, iz, chosen);
    r := Ok(Affine(M(p.ex * iz, P), M(p.ey * iz, P)));
  }

  lemma ProductIsOne(z: int, iz: int)
    requires IsInverse(z, P, iz)
    ensures M(z * iz, P) == 1
  {
    CongIffM(z * iz, 1, P);
    InRangeIsM(1, 1) by { CongRefl(1, P); }
  }

  /** `b[31] |= 0x80` when x is odd. */
  function WithSign(b: Octets, odd: bool): Octets
    requires |b| == 32
  {
    if odd && b[31] < 128 then b[31 := b[31] + 128] else b
  }

  function EncodedAffine(a: Affine): Octets
    requires 0 <= a.y
  {
    WithSign(LeBytes(a.y, 32), a.x % 2 == 1)
  }

  ghost function Encoded(p: Point): Result<Octets> {
    match Validity(p)
    case Some(e) => Err(e)
    case None =>
      match AffineOf(p)
      case Err(e) => Err(e)
      case Ok(a) => Ok(EncodedAffine(a))
  }

  method ToBytes(p: Point) returns (r: Result<Octets>)
    ensures r == Encoded(p)
  {
    hide M, Validity, AffineOf, Equals, LeBytes, Exp2;
    var invalid := Validity(p);
    if invalid.Some? {
      return Err(invalid.value);
    }
    var a := ToAffine(p);
    if a.Err? {
      return Err(a.error);
    }
    var b := LeBytes(a.value.y, 32);
    if a.value.x % 2 == 1 && b[31] < 128 {
      b := b[31 := b[31] + 128];
    }
    r := Ok(b);
  }

  // ---- what decoding means ----

  /** u = y^2 - 1 and v = d y^2 + 1 up to multiples of P. */
  lemma UvFacts(y: int)
    ensures Cong(UOf(y), y * y - 1, P) && Cong(VOf(y), CURVE_D * (y * y) + 1, P)
    ensures 0 <= UOf(y) < P && 0 <= VOf(y) < P
  {
    hide Cong, M, Exp2;
    CongM(y * y, P);
    ShiftedResidue(M(y * y, P), y * y, 1, -1);
    ShiftedResidue(M(y * y, P), y * y, CURVE_D, 1);
  }

  lemma ShiftedResidue(s: int, t: int, d: int, c: int)
    requires Cong(s, t, P)
    ensures Cong(M(d * s + c, P), d * t + c, P)
  {
    hide Cong, M, Exp2;
    CongScale(s, t, d, P);
    CongRefl(c, P);
    CongAdd(d * s, d * t, c, c, P);
    CongM(d * s + c, P);
    CongTrans(M(d * s + c, P), d * s + c, d * t + c, P);
  }

  /** The curve equation solved for x^2: v x^2 = u. */
  lemma CurveFromRatio(x: int, y: int, d: int, u: int, v: int)
    requires Cong(u, y * y - 1, P) && Cong(v, d * (y * y) + 1, P)
    ensures Cong(v * x * x, u, P) <==> Cong(y * y - x * x, 1 + d * (x * x) * (y * y), P)
  {
    hide Cong;
    var w := d * (x * x) * (y * y);
    CongScale(v, d * (y * y) + 1, x * x, P);
    assert (d * (y * y) + 1) * (x * x) == w + x * x by {
      assert d * (y * y) * (x * x) == d * (x * x) * (y * y);
    }
    assert v * (x * x) == v * x * x;
    CongRefl(1 - x * x, P);
    CongSym(v * x * x, w + x * x, P);
    CongSym(u, y * y - 1, P);
    if Cong(v * x * x, u, P) {
      CongTrans(w + x * x, v * x * x, u, P);
      CongTrans(w + x * x, u, y * y - 1, P);
      CongAdd(w + x * x, y * y - 1, 1 - x * x, 1 - x * x, P);
      CongSym(1 + w, y * y - x * x, P);
    }
    if Cong(y * y - x * x, 1 + w, P) {
      CongRefl(x * x - 1, P);
      CongAdd(y * y - x * x, 1 + w, x * x - 1, x * x - 1, P);
      CongTrans(u, y * y - 1, w + x * x, P);
      CongSym(u, w + x * x, P);
      CongTrans(v * x * x, w + x * x, u, P);
    }
  }

  /** The affine point a decoded point stands for: under zip215 its y may exceed P. */
  ghost function Meaning(p: Point): Affine {
    Affine(p.ex, M(p.ey, P))
  }

  lemma SignedFacts(x: int, odd: bool)
    requires 0 <= x < P
    ensures 0 <= Signed(x, odd) < P
    ensures Signed(x, odd) % 2 == 1 <==> odd && x != 0
    ensures Signed(x, odd) == 0 <==> x == 0
    ensures Cong(Signed(x, odd), x, P) || Cong(Signed(x, odd), -x, P)
  {
    CongRefl(x, P);
    CongM(-x, P);
    if x > 0 {
      NegateInRange(x);
    } else {
      InRangeIsM(0, 0) by { CongRefl(0, P); }
    }
  }

  lemma UvFactsReduced(y: int, r: int)
    requires Cong(r, y, P)
    ensures Cong(UOf(y), r * r - 1, P) && Cong(VOf(y), CURVE_D * (r * r) + 1, P)
  {
    hide Cong, UOf, VOf;
    UvFacts(y);
    CongSym(r, y, P);
    CongMul(y, r, y, r, P);
    CongRefl(1, P);
    CongAdd(y * y, r * r, 1, 1, P);
    CongTrans(UOf(y), y * y - 1, r * r - 1, P);
    CongScale(y * y, r * r, CURVE_D, P);
    CongAdd(CURVE_D * (y * y), CURVE_D * (r * r), 1, 1, P);
    CongTrans(VOf(y), CURVE_D * (y * y) + 1, CURVE_D * (r * r) + 1, P);
  }

  /** A root of u / v with either sign lies on the curve. */
  lemma RootOnCurve(y: int, r: int, x: int, sx: int)
    requires 0 <= sx < P && 0 <= r < P && Cong(r, y, P)
    requires Cong(VOf(y) * x * x, UOf(y), P) && (Cong(sx, x, P) || Cong(sx, -x, P))
    ensures OnCurve(Affine(sx, r))
  {
    hide Cong, UOf, VOf, Cross, OnCurve;
    OnCurveIs(Affine(sx, r));
    var u, v := UOf(y), VOf(y);
    if Cong(sx, x, P) {
      VSquare(v, sx, x);
      CongTrans(v * sx * sx, v * x * x, u, P);
    } else {
      NegateRoot(u, v, x, sx);
    }
    UvFactsReduced(y, r);
    CrossIs(CURVE_D, Affine(sx, r), Affine(sx, r));
    CurveFromRatio(sx, r, CURVE_D, u, v);
  }

  lemma UnitRepresents(sx: int, y: int, r: int)
    requires 0 <= y < B256 && Cong(y, r, P) && OnCurve(Affine(sx, r))
    ensures NewPoint(sx, y, 1, M(sx * y, P)).Ok?
    ensures Represents(NewPoint(sx, y, 1, M(sx * y, P)).value, Affine(sx, r))
  {
    hide Cong, M;
    RepresentsIs(Point(sx, y, 1, M(sx * y, P)), Affine(sx, r));
    OneNotZero();
    CongRefl(sx, P);
    CongM(sx * y, P);
    CongScale(y, r, sx, P);
    CongTrans(M(sx * y, P), sx * y, sx * r, P);
    assert 0 <= sx < P && sx * r * 1 == sx * r;
  }

  /** Whatever is decoded lies on the curve, and its x has the parity the sign bit asks for. */
  lemma DecodedOnCurve(hex: Octets, zip215: bool)
    requires Decoded(hex, zip215).Ok?
    ensures |hex| == 32
    ensures var p := Decoded(hex, zip215).value;
      && 0 <= p.ex < P && Represents(p, Meaning(p)) && OnCurve(Meaning(p))
      && p.ez == 1 && p.ey == YOf(hex)
      && (p.ex % 2 == 1 <==> SignBit(hex) && p.ex != 0)
      && (!zip215 ==> p.ey < P && (p.ex % 2 == 1 <==> SignBit(hex)))
      && (p.ex == 0 <==> UOf(p.ey) == 0)
  {
    hide Cong, M, Root, Rooted, UOf, VOf;
    var y := YOf(hex);
    var x := Root(UOf(y), VOf(y));
    UvFacts(y);
    RootIsSound(UOf(y), VOf(y));
    var sx := Signed(x, SignBit(hex));
    SignedFacts(x, SignBit(hex));
    CongM(y, P);
    RootOnCurve(y, M(y, P), x, sx);
    UnitRepresents(sx, y, M(y, P));
    if x == 0 {
      CongSym(VOf(y) * x * x, UOf(y), P);
      CongUnique(UOf(y), VOf(y) * x * x, P);
    }
  }

  // ---- round trips ----

  /** On a point with Z = 1 the inverse is 1, so the affine coordinates are the reduced X and Y. */
  lemma AffineOfUnit(p: Point)
    requires p.ez == 1 && 0 <= p.ex < P
    ensures Equals(p, IDENTITY) <==> p.ex == 0 && M(p.ey, P) == 1
    ensures AffineOf(p) == Ok(Meaning(p))
  {
    InRangeIsM(0, 0) by { CongRefl(0, P); }
    InRangeIsM(1, 1) by { CongRefl(1, P); }
    InRangeIsM(p.ex, p.ex) by { CongRefl(p.ex, P); }
    CongRefl(1, P);
    hide Cong, M;
    assert IsInverse(1, P, 1);
    if !Equals(p, IDENTITY) {
      var iz :| IsInverse(1, P, iz) && AffineOf(p) == Ok(Affine(M(p.ex * iz, P), M(p.ey * iz, P)));
      InverseUnique(1, P, iz, 1);
    }
  }

  /** `assertValidity` refuses nothing that stands for a point of the curve, except the identity. */
  lemma RepresentedIsValid(p: Point, a: Affine)
    requires Represents(p, a)
    ensures Equals(p, IDENTITY) || Validity(p) == None
  {
    hide Cong, M, Equals;
    ValidEquation(p, a);
    ValidProduct(p, a);
  }

  /** Products and sums of residues are those of the numbers. */
  lemma ProductOfResidues(s: int, s': int, t: int, t': int)
    requires Cong(s', s, P) && Cong(t', t, P)
    ensures Cong(M(s' * t', P), s * t, P) && Cong(M(s' + t', P), s + t, P) && Cong(s' + t', s + t, P)
  {
    hide Cong, M;
    CongMul(s', s, t', t, P);
    CongAdd(s', s, t', t, P);
    CongM(s' * t', P);
    CongM(s' + t', P);
    CongTrans(M(s' * t', P), s' * t', s * t, P);
    CongTrans(M(s' + t', P), s' + t', s + t, P);
  }

  lemma LeftOfValidity(x2: int, y2: int, z2: int)
    ensures Cong(M(M(z2, P) * M(M(M(x2, P) * CURVE_A, P) + M(y2, P), P), P), (y2 - x2) * z2, P)
  {
    hide Cong, M;
    CongM(x2, P);
    CongM(y2, P);
    CongM(z2, P);
    CongBy(CURVE_A, -1, 1, P);
    ProductOfResidues(x2, M(x2, P), -1, CURVE_A);
    ProductOfResidues(-x2, M(M(x2, P) * CURVE_A, P), y2, M(y2, P));
    ProductOfResidues(z2, M(z2, P), -x2 + y2, M(M(M(x2, P) * CURVE_A, P) + M(y2, P), P));
    assert z2 * (-x2 + y2) == (y2 - x2) * z2 && x2 * -1 == -x2;
  }

  lemma RightOfValidity(x2: int, y2: int, z2: int)
    ensures Cong(M(M(M(z2, P) * M(z2, P), P) + M(CURVE_D * M(M(x2, P) * M(y2, P), P), P), P),
                 z2 * z2 + CURVE_D * (x2 * y2), P)
  {
    hide Cong, M;
    CongM(x2, P);
    CongM(y2, P);
    CongM(z2, P);
    CongRefl(CURVE_D, P);
    ProductOfResidues(z2, M(z2, P), z2, M(z2, P));
    ProductOfResidues(x2, M(x2, P), y2, M(y2, P));
    ProductOfResidues(CURVE_D, CURVE_D, x2 * y2, M(M(x2, P) * M(y2, P), P));
    ProductOfResidues(z2 * z2, M(M(z2, P) * M(z2, P), P),
                      CURVE_D * (x2 * y2), M(CURVE_D * M(M(x2, P) * M(y2, P), P), P));
  }

  /** `assertValidity` accepts exactly what satisfies both equations modulo P and is not the identity, and names the first that fails. */
  lemma ValidityIff(p: Point)
    ensures var x2, y2, z2 := p.ex * p.ex, p.ey * p.ey, p.ez * p.ez;
            Validity(p) ==
            if Equals(p, IDENTITY) then Some("bad point: ZERO")
            else if !Cong((y2 - x2) * z2, z2 * z2 + CURVE_D * (x2 * y2), P) then Some("bad point: equation left != right (1)")
            else if !Cong(p.ex * p.ey, p.ez * p.et, P) then Some("bad point: equation left != right (2)")
            else None
  {
    hide Cong, M, Equals;
    var x2, y2, z2 := p.ex * p.ex, p.ey * p.ey, p.ez * p.ez;
    LeftOfValidity(x2, y2, z2);
    RightOfValidity(x2, y2, z2);
    var left := M(M(z2, P) * M(M(M(x2, P) * CURVE_A, P) + M(y2, P), P), P);
    var right := M(M(M(z2, P) * M(z2, P), P) + M(CURVE_D * M(M(x2, P) * M(y2, P), P), P), P);
    SameReduced(left, (y2 - x2) * z2);
    SameReduced(right, z2 * z2 + CURVE_D * (x2 * y2));
    CongIffM((y2 - x2) * z2, z2 * z2 + CURVE_D * (x2 * y2), P);
    CongIffM(p.ex * p.ey, p.ez * p.et, P);
    ResidueOfResidue(M(z2, P) * M(M(M(x2, P) * CURVE_A, P) + M(y2, P), P));
    ResidueOfResidue(M(M(z2, P) * M(z2, P), P) + M(CURVE_D * M(M(x2, P) * M(y2, P), P), P));
  }

  lemma SameReduced(s: int, t: int)
    requires Cong(s, t, P)
    ensures M(s, P) == M(t, P)
  {
    hide Cong, M;
    CongIffM(s, t, P);
  }

  lemma ResidueOfResidue(n: int)
    ensures M(M(n, P), P) == M(n, P)
  {
    hide Cong, M;
    CongM(n, P);
    CongIffM(M(n, P), n, P);
  }

  lemma ValidProduct(p: Point, a: Affine)
    requires Represents(p, a)
    ensures M(p.ex * p.ey, P) == M(p.ez * p.et, P)
  {
    hide Cong, M, OnCurve;
    RepresentsIs(p, a);
    OverProduct(p.ex, a.x, p.ez, p.ey, a.y, p.ez);
    ZOverOne(p.ez);
    OverProduct(p.ez, 1, p.ez, p.et, a.x * a.y, p.ez);
    SameResidue(p.ex * p.ey, p.ez * p.et, a.x * a.y * (p.ez * p.ez));
  }

  lemma SameResidue(s: int, t: int, k: int)
    requires Cong(s, k, P) && Cong(t, k, P)
    ensures M(s, P) == M(t, P)
  {
    CongSym(t, k, P);
    CongTrans(s, k, t, P);
    CongIffM(s, t, P);
  }

  lemma ValidEquation(p: Point, a: Affine)
    requires Represents(p, a)
    ensures var x2, y2, z2 := M(p.ex * p.ex, P), M(p.ey * p.ey, P), M(p.ez * p.ez, P);
      M(z2 * M(M(x2 * CURVE_A, P) + y2, P), P) == M(M(z2 * z2, P) + M(CURVE_D * M(x2 * y2, P), P), P)
  {
    hide Cong, M, Over;
    var z := p.ez * p.ez;
    var x2, y2, z2 := M(p.ex * p.ex, P), M(p.ey * p.ey, P), M(z, P);
    var ax, ay := a.x * a.x, a.y * a.y;
    assert Over(x2, ax, z) && Over(y2, ay, z) && Over(z2, 1, z) by {
      assert Over(p.ex, a.x, p.ez) && Over(p.ey, a.y, p.ez) by { CoordinatesOver(p, a); }
      OverProduct(p.ex, a.x, p.ez, p.ex, a.x, p.ez);
      OverProduct(p.ey, a.y, p.ez, p.ey, a.y, p.ez);
      OverReduced(p.ex * p.ex, ax, z);
      OverReduced(p.ey * p.ey, ay, z);
      ZOverOne(z);
      OverReduced(z, 1, z);
    }
    hide Represents;
    var left := LeftSide(x2, ax, y2, ay, z2, z);
    var right := RightSide(x2, ax, y2, ay, z2, z);
    assert Cong(ay - ax, 1 + CURVE_D * ax * ay, P) by { CurveEquation(p, a); }
    OverCong(left, ay - ax, 1 + CURVE_D * ax * ay, z * z);
    assert M(left, P) == M(right, P) by {
      OverCongruent(left, right, 1 + CURVE_D * ax * ay, z * z);
    }
  }

  lemma CoordinatesOver(p: Point, a: Affine)
    requires Represents(p, a)
    ensures Over(p.ex, a.x, p.ez) && Over(p.ey, a.y, p.ez)
  {
    RepresentsIs(p, a);
  }

  lemma CurveEquation(p: Point, a: Affine)
    requires Represents(p, a)
    ensures Cong(a.y * a.y - a.x * a.x, 1 + CURVE_D * (a.x * a.x) * (a.y * a.y), P)
  {
    hide Cross, Cong, OnCurve;
    RepresentsIs(p, a);
    OnCurveIs(a);
    CrossIs(CURVE_D, a, a);
  }

  lemma OverCongruent(s: int, t: int, x: int, z: int)
    requires Over(s, x, z) && Over(t, x, z)
    ensures M(s, P) == M(t, P)
  {
    SameResidue(s, t, x * z);
  }

  lemma LeftSide(x2: int, ax: int, y2: int, ay: int, z2: int, z: int) returns (left: int)
    requires Over(x2, ax, z) && Over(y2, ay, z) && Over(z2, 1, z)
    ensures left == z2 * M(M(x2 * CURVE_A, P) + y2, P) && Over(left, ay - ax, z * z)
  {
    hide Over, M;
    OverMinusOne(x2, ax, z);
    assert x2 * CURVE_A == CURVE_A * x2;
    OverReduced(CURVE_A * x2, -ax, z);
    OverSum(M(x2 * CURVE_A, P), -ax, y2, ay, z);
    OverReduced(M(x2 * CURVE_A, P) + y2, -ax + ay, z);
    left := z2 * M(M(x2 * CURVE_A, P) + y2, P);
    OverProduct(z2, 1, z, M(M(x2 * CURVE_A, P) + y2, P), ay - ax, z);
  }

  lemma RightSide(x2: int, ax: int, y2: int, ay: int, z2: int, z: int) returns (right: int)
    requires Over(x2, ax, z) && Over(y2, ay, z) && Over(z2, 1, z)
    ensures right == M(z2 * z2, P) + M(CURVE_D * M(x2 * y2, P), P)
    ensures Over(right, 1 + CURVE_D * ax * ay, z * z)
  {
    hide Over, M;
    OverProduct(z2, 1, z, z2, 1, z);
    OverReduced(z2 * z2, 1, z * z);
    OverProduct(x2, ax, z, y2, ay, z);
    OverReduced(x2 * y2, ax * ay, z * z);
    OverScaled(M(x2 * y2, P), ax * ay, z * z, CURVE_D);
    OverReduced(CURVE_D * M(x2 * y2, P), CURVE_D * (ax * ay), z * z);
    OverSum(M(z2 * z2, P), 1, M(CURVE_D * M(x2 * y2, P), P), CURVE_D * (ax * ay), z * z);
    right := M(z2 * z2, P) + M(CURVE_D * M(x2 * y2, P), P);
    assert CURVE_D * (ax * ay) == CURVE_D * ax * ay;
  }

  /** A number below P leaves the top bit of its 32 bytes free. */
  lemma TopBitFree(m: int)
    requires 0 <= m < P
    ensures LeBytes(m, 32)[31] < 128 && LeValue(LeBytes(m, 32)) == m
  {
    hide LeBytes, LeValue, Pow256, Exp2;
    TopWindows();
    PShape();
    LeValueOfLeBytes(m, 32);
    SplitLast(LeBytes(m, 32), Pow256(31));
    QuotientBelow(Pow256(31), LeBytes(m, 32)[31], m, 128);
  }

  /** The last of 32 bytes fixes the number up to 256^31. */
  lemma SplitLast(c: Octets, top: nat)
    requires |c| == 32 && top == Pow256(31)
    ensures top * c[31] <= LeValue(c) < top * c[31] + top
  {
    hide LeValue, Pow256;
    assert c == c[..31] + [c[31]];
    LeValueAppend(c[..31], [c[31]]);
    SingleByte(c[31]);
    LeValueBound(c[..31]);
  }

  lemma QuotientBelow(top: nat, d: nat, m: nat, k: nat)
    requires top * d <= m < k * top
    ensures d < k
  {
    assert d >= k ==> top * d >= top * k;
  }

  lemma SingleByte(c: Byte)
    ensures LeValue([c]) == c
  {
    assert [c][1..] == [];
  }

  /** The encoding of (x, y) carries y in its low 255 bits and the parity of x in its sign bit. */
  lemma EncodedFields(a: Affine)
    requires 0 <= a.y < P
    ensures var b := EncodedAffine(a);
      |b| == 32 && YOf(b) == a.y && (SignBit(b) <==> a.x % 2 == 1)
  {
    hide LeBytes, LeValue;
    TopBitFree(a.y);
    var l := LeBytes(a.y, 32);
    assert l[31 := l[31] % 128] == l;
    assert EncodedAffine(a)[31 := EncodedAffine(a)[31] % 128] == l;
  }

  lemma ReencodeCanonical(hex: Octets, odd: bool)
    requires |hex| == 32
    ensures WithSign(LeBytes(YOf(hex), 32), odd) == hex <==> odd == SignBit(hex)
  {
    hide LeBytes, LeValue;
    var normed := hex[31 := hex[31] % 128];
    LeBytesOfLeValue(normed);
    assert odd && SignBit(hex) ==> WithSign(normed, odd) == hex;
    assert !SignBit(hex) ==> normed == hex;
    assert WithSign(normed, odd)[31] >= 128 <==> odd;
  }

  /** The encodings `ToBytes` can give: y below P, not the identity, and no sign bit on x = 0. */
  ghost predicate Canonical(hex: Octets)
    requires |hex| == 32
  {
    YOf(hex) < P && YOf(hex) != 1 && !(UOf(YOf(hex)) == 0 && SignBit(hex))
  }

  /**
   * Decoding and then encoding gives the same bytes back exactly for the canonical encodings.
   * Strict decoding already refuses a y of P or more and the sign bit on x = 0.
   */
  lemma DecodeThenEncode(hex: Octets, zip215: bool)
    requires Decoded(hex, zip215).Ok?
    ensures |hex| == 32
    ensures Encoded(Decoded(hex, zip215).value) == Ok(hex) <==> Canonical(hex)
    ensures !zip215 ==>
      (Encoded(Decoded(hex, zip215).value) == Ok(hex) <==> YOf(hex) != 1)
  {
    hide Decoded, Represents, Validity, AffineOf, LeValue, LeBytes, OnCurve, Cong, M;
    DecodedOnCurve(hex, zip215);
    var p, y := Decoded(hex, zip215).value, YOf(hex);
    AffineOfUnit(p);
    if y < P {
      InRangeIsM(y, y) by { CongRefl(y, P); }
    }
    if p.ex == 0 && M(y, P) == 1 {
      assert Validity(p).Some? by { IdentityIsRefused(p); }
    } else {
      RepresentedIsValid(p, Meaning(p));
      EncodedFields(Meaning(p));
      ReencodeCanonical(hex, p.ex % 2 == 1);
    }
    if y == 1 {
      UOfOne();
    }
  }

  lemma IdentityIsRefused(p: Point)
    requires Equals(p, IDENTITY)
    ensures Validity(p).Some?
  {
  }

  lemma UOfOne()
    ensures UOf(1) == 0
  {
    InRangeIsM(1, 1) by { CongRefl(1, P); }
    InRangeIsM(0, 0) by { CongRefl(0, P); }
  }

  /** Encoding a point of the curve and decoding the bytes gives the point, in both modes. */
  lemma EncodeThenDecode(a: Affine, zip215: bool)
    requires PrimeField() && OnCurve(a)
    ensures Decoded(EncodedAffine(a), zip215) == Ok(Point(a.x, a.y, 1, M(a.x * a.y, P)))
  {
    hide PrimeField, Cong, M, Rooted, Root, LeBytes, LeValue, Cross, OnCurve;
    OnCurveIs(a);
    EncodedFields(a);
    var u, v := UOf(a.y), VOf(a.y);
    UvFacts(a.y);
    hide UOf, VOf;
    CrossIs(CURVE_D, a, a);
    CurveFromRatio(a.x, a.y, CURVE_D, u, v);
    CongSym(v * a.x * a.x, u, P);
    DenominatorNotZero(a);
    SquaresAreRooted(u, v, a.x);
    RootIsSound(u, v);
    SameUpToSign(u, v, Root(u, v), a.x);
    SignedFacts(Root(u, v), a.x % 2 == 1);
    SignDecides(a.x, Root(u, v));
  }

  /** d y^2 + 1 vanishes nowhere on the curve: there y^2 would be 1, and d is not -1. */
  lemma DenominatorNotZero(a: Affine)
    requires OnCurve(a)
    ensures !Cong(VOf(a.y), 0, P)
  {
    hide Cong, M, UOf, VOf, Cross, OnCurve;
    OnCurveIs(a);
    UvFacts(a.y);
    CurveDBound();
    CrossIs(CURVE_D, a, a);
    CurveFromRatio(a.x, a.y, CURVE_D, UOf(a.y), VOf(a.y));
    if Cong(VOf(a.y), 0, P) {
      VanishingDenominator(a.x, a.y, CURVE_D, UOf(a.y), VOf(a.y));
      CongUnique(CURVE_D + 1, 0, P);
    }
  }

  lemma VanishingDenominator(x: int, y: int, d: int, u: int, v: int)
    requires Cong(u, y * y - 1, P) && Cong(v, d * (y * y) + 1, P)
    requires Cong(v * x * x, u, P) && Cong(v, 0, P)
    ensures Cong(d + 1, 0, P)
  {
    hide Cong;
    VSquareZero(v, x);
    CongSym(v * x * x, u, P);
    CongTrans(u, v * x * x, 0, P);
    CongSym(u, y * y - 1, P);
    CongTrans(y * y - 1, u, 0, P);
    CongRefl(1, P);
    CongAdd(y * y - 1, 0, 1, 1, P);
    CongScale(y * y, 1, d, P);
    CongAdd(d * (y * y), d * 1, 1, 1, P);
    CongSym(v, d * (y * y) + 1, P);
    CongTrans(d * (y * y) + 1, v, 0, P);
    CongSym(d * (y * y) + 1, d + 1, P);
    CongTrans(d + 1, d * (y * y) + 1, 0, P);
  }

  lemma VSquareZero(v: int, x: int)
    requires Cong(v, 0, P)
    ensures Cong(v * x * x, 0, P)
  {
    CongScale(v, 0, x, P);
    CongScale(v * x, 0, x, P);
  }

  /** Two square roots of the same ratio differ at most in sign. */
  lemma SameUpToSign(u: int, v: int, x: int, s: int)
    requires PrimeField() && !Cong(v, 0, P)
    requires Cong(v * x * x, u, P) && Cong(v * s * s, u, P)
    ensures Cong(x, s, P) || Cong(x, -s, P)
  {
    hide PrimeField, Cong;
    CongSym(v * s * s, u, P);
    CongTrans(v * x * x, u, v * s * s, P);
    FactorLast(v, x);
    FactorLast(v, s);
    CancelFactor(x * x, s * s, v);
    SquaresEqual(x, s);
  }

  lemma FactorLast(v: int, x: int)
    ensures v * x * x == x * x * v
  {
  }

  lemma SquaresEqual(x: int, s: int)
    requires PrimeField() && Cong(x * x, s * s, P)
    ensures Cong(x, s, P) || Cong(x, -s, P)
  {
    hide PrimeField, Cong;
    CongRefl(s * s, P);
    CongAdd(x * x, s * s, s * s, s * s, P);
    assert (x - s) * (x + s) == x * x - s * s;
    NoZeroDivisors(x - s, x + s);
    CongRefl(s, P);
    if Cong(x - s, 0, P) {
      CongAdd(x - s, 0, s, s, P);
    } else {
      CongAdd(x + s, 0, s, s, P);
    }
  }

  lemma SignDecides(s: int, x: int)
    requires 0 <= s < P && 0 <= x < P && (Cong(x, s, P) || Cong(x, -s, P))
    ensures Signed(x, s % 2 == 1) == s
    ensures x == 0 <==> s == 0
  {
    hide Cong, M;
    if Cong(x, s, P) {
      CongUnique(x, s, P);
    } else if s > 0 {
      NegateInRange(s);
      InRangeIsM(x, -s);
      NegateInRange(x);
    } else {
      CongUnique(x, -s, P);
    }
  }
}
