/** Hill (3x3, as the code is written): blocks of three letter indexes are
    multiplied by the key matrix modulo 26; decryption multiplies by the
    adjugate scaled by the inverse of the determinant. */
module Hill {
  import opened Wrappers
  import opened Alphabet
  import opened ModArith

  datatype Mat3 = Mat3(m00: int, m01: int, m02: int,
                       m10: int, m11: int, m12: int,
                       m20: int, m21: int, m22: int)

  datatype Vec3 = Vec3(x0: int, x1: int, x2: int)

  const Identity := Mat3(1, 0, 0, 0, 1, 0, 0, 0, 1)

  /** The nine key numbers, row-major. */
  function KeyMatrix(key: seq<int>): Mat3
    requires |key| == 9
  {
    Mat3(key[0], key[1], key[2], key[3], key[4], key[5], key[6], key[7], key[8])
  }

  /** Cofactor expansion along the first row, before reduction. */
  function Det(k: Mat3): int {
    k.m00 * (k.m11 * k.m22 - k.m12 * k.m21)
    - k.m01 * (k.m10 * k.m22 - k.m12 * k.m20)
    + k.m02 * (k.m10 * k.m21 - k.m11 * k.m20)
  }

  /** Transpose of the cofactor matrix, with the signs the code writes. */
  function Adjugate(k: Mat3): Mat3 {
    Mat3(  k.m11 * k.m22 - k.m12 * k.m21,  -(k.m01 * k.m22 - k.m02 * k.m21),   k.m01 * k.m12 - k.m02 * k.m11,
         -(k.m10 * k.m22 - k.m12 * k.m20),   k.m00 * k.m22 - k.m02 * k.m20,  -(k.m00 * k.m12 - k.m02 * k.m10),
           k.m10 * k.m21 - k.m11 * k.m20,  -(k.m00 * k.m21 - k.m01 * k.m20),   k.m00 * k.m11 - k.m01 * k.m10)
  }

  /** Every entry of the adjugate times detInv, reduced modulo 26. */
  function DecryptionMatrix(k: Mat3, detInv: int): (d: Mat3)
    ensures IsReduced(d)
  {
    ScaleMod(Adjugate(k), detInv)
  }

  /** Every entry times s, reduced modulo 26. */
  function ScaleMod(a: Mat3, s: int): (d: Mat3)
    ensures IsReduced(d)
  {
    Mat3(Mod(a.m00 * s, 26), Mod(a.m01 * s, 26), Mod(a.m02 * s, 26),
         Mod(a.m10 * s, 26), Mod(a.m11 * s, 26), Mod(a.m12 * s, 26),
         Mod(a.m20 * s, 26), Mod(a.m21 * s, 26), Mod(a.m22 * s, 26))
  }

  predicate IsReduced(d: Mat3) {
    && 0 <= d.m00 < 26 && 0 <= d.m01 < 26 && 0 <= d.m02 < 26
    && 0 <= d.m10 < 26 && 0 <= d.m11 < 26 && 0 <= d.m12 < 26
    && 0 <= d.m20 < 26 && 0 <= d.m21 < 26 && 0 <= d.m22 < 26
  }

  function MatMul(a: Mat3, b: Mat3): Mat3 {
    Mat3(a.m00 * b.m00 + a.m01 * b.m10 + a.m02 * b.m20,
         a.m00 * b.m01 + a.m01 * b.m11 + a.m02 * b.m21,
         a.m00 * b.m02 + a.m01 * b.m12 + a.m02 * b.m22,
         a.m10 * b.m00 + a.m11 * b.m10 + a.m12 * b.m20,
         a.m10 * b.m01 + a.m11 * b.m11 + a.m12 * b.m21,
         a.m10 * b.m02 + a.m11 * b.m12 + a.m12 * b.m22,
         a.m20 * b.m00 + a.m21 * b.m10 + a.m22 * b.m20,
         a.m20 * b.m01 + a.m21 * b.m11 + a.m22 * b.m21,
         a.m20 * b.m02 + a.m21 * b.m12 + a.m22 * b.m22)
  }

  function ModMat(a: Mat3): Mat3 {
    Mat3(Mod(a.m00, 26), Mod(a.m01, 26), Mod(a.m02, 26),
         Mod(a.m10, 26), Mod(a.m11, 26), Mod(a.m12, 26),
         Mod(a.m20, 26), Mod(a.m21, 26), Mod(a.m22, 26))
  }

  /** One block: the matrix times the column of indexes, each row reduced
      modulo 26. */
  function Apply(k: Mat3, p: Vec3): (y: Vec3)
    ensures IsResidue(y)
  {
    Vec3(Mod(k.m00 * p.x0 + k.m01 * p.x1 + k.m02 * p.x2, 26),
         Mod(k.m10 * p.x0 + k.m11 * p.x1 + k.m12 * p.x2, 26),
         Mod(k.m20 * p.x0 + k.m21 * p.x1 + k.m22 * p.x2, 26))
  }

  predicate IsResidue(v: Vec3) {
    0 <= v.x0 < 26 && 0 <= v.x1 < 26 && 0 <= v.x2 < 26
  }

  /** The adjugate times the matrix is the determinant times the identity. */
  lemma AdjugateProduct(k: Mat3)
    ensures var d := Det(k);
            MatMul(Adjugate(k), k) == Mat3(d, 0, 0, 0, d, 0, 0, 0, d)
  {
    CofactorIdentities(k.m00, k.m01, k.m02, k.m10, k.m11, k.m12, k.m20, k.m21, k.m22);
  }

  /** The nine entries of adj(K) * K for K = [a b c; d e f; g h i]. */
  lemma CofactorIdentities(a: int, b: int, c: int, d: int, e: int, f: int, g: int, h: int, i: int)
    ensures var det := a * (e * i - f * h) - b * (d * i - f * g) + c * (d * h - e * g);
      && (e * i - f * h) * a + -(b * i - c * h) * d + (b * f - c * e) * g == det
      && (e * i - f * h) * b + -(b * i - c * h) * e + (b * f - c * e) * h == 0
      && (e * i - f * h) * c + -(b * i - c * h) * f + (b * f - c * e) * i == 0
      && -(d * i - f * g) * a + (a * i - c * g) * d + -(a * f - c * d) * g == 0
      && -(d * i - f * g) * b + (a * i - c * g) * e + -(a * f - c * d) * h == det
      && -(d * i - f * g) * c + (a * i - c * g) * f + -(a * f - c * d) * i == 0
      && (d * h - e * g) * a + -(a * h - b * g) * d + (a * e - b * d) * g == 0
      && (d * h - e * g) * b + -(a * h - b * g) * e + (a * e - b * d) * h == 0
      && (d * h - e * g) * c + -(a * h - b * g) * f + (a * e - b * d) * i == det
  {
  }

  /** One entry of (detInv * adj reduced) * K, modulo 26, is detInv times
      the same entry of adj * K. */
  lemma ScaledEntry(a0: int, a1: int, a2: int, k0: int, k1: int, k2: int, inv: int, target: int,
                    d0: int, d1: int, d2: int)
    requires a0 * k0 + a1 * k1 + a2 * k2 == target
    requires d0 == Mod(a0 * inv, 26) && d1 == Mod(a1 * inv, 26) && d2 == Mod(a2 * inv, 26)
    ensures Mod(d0 * k0 + d1 * k1 + d2 * k2, 26) == (inv * target) % 26
  {
    ReducedFactor(a0, k0, inv);
    ReducedFactor(a1, k1, inv);
    ReducedFactor(a2, k2, inv);
    CongSum3(d0 * k0, d1 * k1, d2 * k2, (a0 * inv) * k0, (a1 * inv) * k1, (a2 * inv) * k2);
    FactorOut(a0, a1, a2, k0, k1, k2, inv);
  }

  /** The entries where adj * K is zero stay zero. */
  lemma ScaledZero(a0: int, a1: int, a2: int, k0: int, k1: int, k2: int, inv: int,
                   d0: int, d1: int, d2: int)
    requires a0 * k0 + a1 * k1 + a2 * k2 == 0
    requires d0 == Mod(a0 * inv, 26) && d1 == Mod(a1 * inv, 26) && d2 == Mod(a2 * inv, 26)
    ensures Mod(d0 * k0 + d1 * k1 + d2 * k2, 26) == 0
  {
    var t := a0 * k0 + a1 * k1 + a2 * k2;
    ScaledEntry(a0, a1, a2, k0, k1, k2, inv, t, d0, d1, d2);
    TimesZero(inv, t);
  }

  /** Any multiple of zero is zero modulo 26. */
  lemma TimesZero(x: int, t: int)
    requires t == 0
    ensures (x * t) % 26 == 0
  {
  }

  /** The entries where adj * K is the determinant become 1. */
  lemma ScaledOne(a0: int, a1: int, a2: int, k0: int, k1: int, k2: int, inv: int, det: int,
                  d0: int, d1: int, d2: int)
    requires a0 * k0 + a1 * k1 + a2 * k2 == det && (inv * det) % 26 == 1
    requires d0 == Mod(a0 * inv, 26) && d1 == Mod(a1 * inv, 26) && d2 == Mod(a2 * inv, 26)
    ensures Mod(d0 * k0 + d1 * k1 + d2 * k2, 26) == 1
  {
    ScaledEntry(a0, a1, a2, k0, k1, k2, inv, det, d0, d1, d2);
  }

  lemma ReducedFactor(a: int, k: int, inv: int)
    ensures (Mod(a * inv, 26) * k) % 26 == ((a * inv) * k) % 26
  {
    CongMul(k, Mod(a * inv, 26), a * inv);
    assert Mod(a * inv, 26) * k == k * Mod(a * inv, 26);
    assert (a * inv) * k == k * (a * inv);
  }

  lemma FactorOut(a0: int, a1: int, a2: int, k0: int, k1: int, k2: int, inv: int)
    ensures (a0 * inv) * k0 + (a1 * inv) * k1 + (a2 * inv) * k2 == inv * (a0 * k0 + a1 * k1 + a2 * k2)
  {
  }

  /** When detInv inverts the reduced determinant, the decryption matrix
      times the key matrix is the identity modulo 26. */
  lemma DecryptionMatrixInverts(k: Mat3, inv: int)
    requires (Mod(Det(k), 26) * inv) % 26 == 1
    ensures ModMat(MatMul(DecryptionMatrix(k, inv), k)) == Identity
  {
    var det := Det(k);
    CongMul(inv, Mod(det, 26), det);
    AdjugateProduct(k);
    ScaledInverse(Adjugate(k), k, inv, det);
  }

  /** If a * k is det times the identity and inv inverts det modulo 26,
      then (inv * a reduced) * k is the identity modulo 26. */
  lemma ScaledInverse(a: Mat3, k: Mat3, inv: int, det: int)
    requires (inv * det) % 26 == 1
    requires MatMul(a, k) == Mat3(det, 0, 0, 0, det, 0, 0, 0, det)
    ensures ModMat(MatMul(ScaleMod(a, inv), k)) == Identity
  {
    ScaledFirstRow(a, k, inv, det);
    ScaledSecondRow(a, k, inv, det);
    ScaledThirdRow(a, k, inv, det);
  }

  lemma ScaledFirstRow(a: Mat3, k: Mat3, inv: int, det: int)
    requires (inv * det) % 26 == 1
    requires MatMul(a, k) == Mat3(det, 0, 0, 0, det, 0, 0, 0, det)
    ensures var p := MatMul(ScaleMod(a, inv), k);
            Mod(p.m00, 26) == 1 && Mod(p.m01, 26) == 0 && Mod(p.m02, 26) == 0
  {
    var d := ScaleMod(a, inv);
    var p := MatMul(d, k);
    assert p.m00 == d.m00 * k.m00 + d.m01 * k.m10 + d.m02 * k.m20;
    assert p.m01 == d.m00 * k.m01 + d.m01 * k.m11 + d.m02 * k.m21;
    assert p.m02 == d.m00 * k.m02 + d.m01 * k.m12 + d.m02 * k.m22;
    assert d.m00 == Mod(a.m00 * inv, 26) && d.m01 == Mod(a.m01 * inv, 26) && d.m02 == Mod(a.m02 * inv, 26);
    ScaledOne(a.m00, a.m01, a.m02, k.m00, k.m10, k.m20, inv, det, d.m00, d.m01, d.m02);
    ScaledZero(a.m00, a.m01, a.m02, k.m01, k.m11, k.m21, inv, d.m00, d.m01, d.m02);
    ScaledZero(a.m00, a.m01, a.m02, k.m02, k.m12, k.m22, inv, d.m00, d.m01, d.m02);
  }

  lemma ScaledSecondRow(a: Mat3, k: Mat3, inv: int, det: int)
    requires (inv * det) % 26 == 1
    requires MatMul(a, k) == Mat3(det, 0, 0, 0, det, 0, 0, 0, det)
    ensures var p := MatMul(ScaleMod(a, inv), k);
            Mod(p.m10, 26) == 0 && Mod(p.m11, 26) == 1 && Mod(p.m12, 26) == 0
  {
    var d := ScaleMod(a, inv);
    var p := MatMul(d, k);
    assert p.m10 == d.m10 * k.m00 + d.m11 * k.m10 + d.m12 * k.m20;
    assert p.m11 == d.m10 * k.m01 + d.m11 * k.m11 + d.m12 * k.m21;
    assert p.m12 == d.m10 * k.m02 + d.m11 * k.m12 + d.m12 * k.m22;
    assert d.m10 == Mod(a.m10 * inv, 26) && d.m11 == Mod(a.m11 * inv, 26) && d.m12 == Mod(a.m12 * inv, 26);
    ScaledZero(a.m10, a.m11, a.m12, k.m00, k.m10, k.m20, inv, d.m10, d.m11, d.m12);
    ScaledOne(a.m10, a.m11, a.m12, k.m01, k.m11, k.m21, inv, det, d.m10, d.m11, d.m12);
    ScaledZero(a.m10, a.m11, a.m12, k.m02, k.m12, k.m22, inv, d.m10, d.m11, d.m12);
  }

  lemma ScaledThirdRow(a: Mat3, k: Mat3, inv: int, det: int)
    requires (inv * det) % 26 == 1
    requires MatMul(a, k) == Mat3(det, 0, 0, 0, det, 0, 0, 0, det)
    ensures var p := MatMul(ScaleMod(a, inv), k);
            Mod(p.m20, 26) == 0 && Mod(p.m21, 26) == 0 && Mod(p.m22, 26) == 1
  {
    var d := ScaleMod(a, inv);
    var p := MatMul(d, k);
    assert p.m20 == d.m20 * k.m00 + d.m21 * k.m10 + d.m22 * k.m20;
    assert p.m21 == d.m20 * k.m01 + d.m21 * k.m11 + d.m22 * k.m21;
    assert p.m22 == d.m20 * k.m02 + d.m21 * k.m12 + d.m22 * k.m22;
    assert d.m20 == Mod(a.m20 * inv, 26) && d.m21 == Mod(a.m21 * inv, 26) && d.m22 == Mod(a.m22 * inv, 26);
    ScaledZero(a.m20, a.m21, a.m22, k.m00, k.m10, k.m20, inv, d.m20, d.m21, d.m22);
    ScaledZero(a.m20, a.m21, a.m22, k.m01, k.m11, k.m21, inv, d.m20, d.m21, d.m22);
    ScaledOne(a.m20, a.m21, a.m22, k.m02, k.m12, k.m22, inv, det, d.m20, d.m21, d.m22);
  }

  /** One output row of a block applied after another block: reducing the
      inner result first does not change the outer result. */
  lemma ComposeRow(r0: int, r1: int, r2: int, b: Mat3, p: Vec3, y: Vec3, c0: int, c1: int, c2: int)
    requires y == Apply(b, p)
    requires c0 == r0 * b.m00 + r1 * b.m10 + r2 * b.m20
    requires c1 == r0 * b.m01 + r1 * b.m11 + r2 * b.m21
    requires c2 == r0 * b.m02 + r1 * b.m12 + r2 * b.m22
    ensures Mod(r0 * y.x0 + r1 * y.x1 + r2 * y.x2, 26) == Mod(c0 * p.x0 + c1 * p.x1 + c2 * p.x2, 26)
  {
    var y0 := b.m00 * p.x0 + b.m01 * p.x1 + b.m02 * p.x2;
    var y1 := b.m10 * p.x0 + b.m11 * p.x1 + b.m12 * p.x2;
    var y2 := b.m20 * p.x0 + b.m21 * p.x1 + b.m22 * p.x2;
    assert y.x0 == Mod(y0, 26) && y.x1 == Mod(y1, 26) && y.x2 == Mod(y2, 26);
    ReduceInner(r0, r1, r2, y0, y1, y2);
    RowExpansion(r0, r1, r2, b.m00, b.m01, b.m02, b.m10, b.m11, b.m12,
                 b.m20, b.m21, b.m22, p.x0, p.x1, p.x2);
  }

  lemma ReduceInner(r0: int, r1: int, r2: int, y0: int, y1: int, y2: int)
    ensures (r0 * Mod(y0, 26) + r1 * Mod(y1, 26) + r2 * Mod(y2, 26)) % 26
         == (r0 * y0 + r1 * y1 + r2 * y2) % 26
  {
    MulMod(r0, y0);
    MulMod(r1, y1);
    MulMod(r2, y2);
    CongSum3(r0 * Mod(y0, 26), r1 * Mod(y1, 26), r2 * Mod(y2, 26), r0 * y0, r1 * y1, r2 * y2);
  }

  lemma MulMod(r: int, y: int)
    ensures (r * Mod(y, 26)) % 26 == (r * y) % 26
  {
    CongMul(r, Mod(y, 26), y);
  }

  lemma RowExpansion(r0: int, r1: int, r2: int,
                     b00: int, b01: int, b02: int, b10: int, b11: int, b12: int,
                     b20: int, b21: int, b22: int, x0: int, x1: int, x2: int)
    ensures r0 * (b00 * x0 + b01 * x1 + b02 * x2)
          + r1 * (b10 * x0 + b11 * x1 + b12 * x2)
          + r2 * (b20 * x0 + b21 * x1 + b22 * x2)
         == (r0 * b00 + r1 * b10 + r2 * b20) * x0
          + (r0 * b01 + r1 * b11 + r2 * b21) * x1
          + (r0 * b02 + r1 * b12 + r2 * b22) * x2
  {
  }

  /** Applying b and then a is applying their product. */
  lemma ApplyCompose(a: Mat3, b: Mat3, p: Vec3)
    ensures Apply(a, Apply(b, p)) == Apply(MatMul(a, b), p)
  {
    ComposeFirst(a, b, p);
    ComposeSecond(a, b, p);
    ComposeThird(a, b, p);
  }

  lemma ComposeFirst(a: Mat3, b: Mat3, p: Vec3)
    ensures Apply(a, Apply(b, p)).x0 == Apply(MatMul(a, b), p).x0
  {
    var y, m := Apply(b, p), MatMul(a, b);
    ComposeRow(a.m00, a.m01, a.m02, b, p, y, m.m00, m.m01, m.m02);
  }

  lemma ComposeSecond(a: Mat3, b: Mat3, p: Vec3)
    ensures Apply(a, Apply(b, p)).x1 == Apply(MatMul(a, b), p).x1
  {
    var y, m := Apply(b, p), MatMul(a, b);
    ComposeRow(a.m10, a.m11, a.m12, b, p, y, m.m10, m.m11, m.m12);
  }

  lemma ComposeThird(a: Mat3, b: Mat3, p: Vec3)
    ensures Apply(a, Apply(b, p)).x2 == Apply(MatMul(a, b), p).x2
  {
    var y, m := Apply(b, p), MatMul(a, b);
    ComposeRow(a.m20, a.m21, a.m22, b, p, y, m.m20, m.m21, m.m22);
  }

  /** A matrix congruent to the identity fixes every block of residues. */
  lemma ApplyIdentity(a: Mat3, p: Vec3)
    requires ModMat(a) == Identity && IsResidue(p)
    ensures Apply(a, p) == p
  {
    IdentityRow(a.m00, a.m01, a.m02, p.x0, p.x1, p.x2);
    IdentityRow(a.m11, a.m12, a.m10, p.x1, p.x2, p.x0);
    IdentityRow(a.m22, a.m20, a.m21, p.x2, p.x0, p.x1);
  }

  lemma IdentityRow(one: int, z0: int, z1: int, x: int, y0: int, y1: int)
    requires one % 26 == 1 && z0 % 26 == 0 && z1 % 26 == 0 && 0 <= x < 26
    ensures Mod(one * x + z0 * y0 + z1 * y1, 26) == x
  {
    var r0, r1 := one % 26, z0 % 26;
    MulSplit(one, r0, x);
    MulSplit(z0, r1, y0);
    MulSplit(z1, r1, y1);
    var k := (one / 26) * x + (z0 / 26) * y0 + (z1 / 26) * y1;
    assert one * x + z0 * y0 + z1 * y1 == x + 26 * k;
    ModAddMultiple(x, k);
  }

  /** c times y is c's remainder times y plus a multiple of 26. */
  lemma MulSplit(c: int, r: int, y: int)
    requires c % 26 == r
    ensures c * y == r * y + 26 * ((c / 26) * y)
  {
    var q := c / 26;
    assert c == r + 26 * q;
  }

  /** A block whose three indexes are inverted by d after k comes back. */
  lemma BlockRoundTrip(k: Mat3, d: Mat3, p: Vec3)
    requires ModMat(MatMul(d, k)) == Identity && IsResidue(p)
    ensures Apply(d, Apply(k, p)) == p
  {
    ApplyCompose(d, k, p);
    ApplyIdentity(MatMul(d, k), p);
  }

  /** `while (cleanText.length % 3 !== 0) cleanText += "X"`: the text
      followed by the fewest X that make its length a multiple of 3. */
  function PadX(s: seq<char>): (r: seq<char>)
    ensures |r| % 3 == 0 && |s| <= |r| < |s| + 3
    ensures r[..|s|] == s
    ensures forall i :: |s| <= i < |r| ==> r[i] == 'X'
    decreases (3 - |s| % 3) % 3
  {
    if |s| % 3 == 0 then s
    else
      var r := PadX(s + "X");
      assert r[..|s|] == (s + "X")[..|s|];
      r
  }

  /** One block of three letters through the matrix. */
  function Block(k: Mat3, x: char, y: char, z: char): (r: seq<char>)
    requires IsLetter(x) && IsLetter(y) && IsLetter(z)
    ensures |r| == 3 && AllLetters(r)
  {
    var v := Apply(k, Vec3(Idx(x), Idx(y), Idx(z)));
    [Letter(v.x0), Letter(v.x1), Letter(v.x2)]
  }

  /** Letters three at a time through the matrix, in order. */
  function Blocks(k: Mat3, s: seq<char>): (r: seq<char>)
    requires |s| % 3 == 0 && AllLetters(s)
    ensures |r| == |s| && AllLetters(r)
    decreases |s|
  {
    if s == [] then []
    else
      ThreeMore(|s|);
      var b := Block(k, s[0], s[1], s[2]);
      var rest := Blocks(k, s[3..]);
      AllLettersConcat(b, rest);
      b + rest
  }

  /** A positive multiple of 3 has a whole block and a multiple of 3 after it. */
  lemma ThreeMore(n: int)
    requires n > 0 && n % 3 == 0
    ensures n >= 3 && (n - 3) % 3 == 0
  {
  }

  /** Blocks reads the leading three letters and continues after them. */
  lemma BlocksCons(k: Mat3, x: char, y: char, z: char, rest: seq<char>)
    requires IsLetter(x) && IsLetter(y) && IsLetter(z)
    requires |rest| % 3 == 0 && AllLetters(rest)
    ensures AllLetters([x, y, z] + rest)
    ensures Blocks(k, [x, y, z] + rest) == Block(k, x, y, z) + Blocks(k, rest)
  {
    var s := [x, y, z] + rest;
    AllLettersConcat([x, y, z], rest);
    assert s[0] == x && s[1] == y && s[2] == z && s[3..] == rest;
  }

  /** A block of letters comes back through d after k. */
  lemma LetterBlockRoundTrip(k: Mat3, d: Mat3, x: char, y: char, z: char)
    requires ModMat(MatMul(d, k)) == Identity
    requires IsLetter(x) && IsLetter(y) && IsLetter(z)
    ensures var b := Block(k, x, y, z); Block(d, b[0], b[1], b[2]) == [x, y, z]
  {
    var p := Vec3(Idx(x), Idx(y), Idx(z));
    BlockRoundTrip(k, d, p);
    LetterIdx(x);
    LetterIdx(y);
    LetterIdx(z);
  }

  lemma {:induction false} BlocksRoundTrip(k: Mat3, d: Mat3, s: seq<char>)
    requires ModMat(MatMul(d, k)) == Identity && |s| % 3 == 0 && AllLetters(s)
    ensures Blocks(d, Blocks(k, s)) == s
    decreases |s|
  {
    if s != [] {
      ThreeMore(|s|);
      var x, y, z, tail := s[0], s[1], s[2], s[3..];
      SplitTriple(s);
      BlocksCons(k, x, y, z, tail);
      var b := Block(k, x, y, z);
      var rest := Blocks(k, tail);
      assert b == [b[0], b[1], b[2]];
      BlocksCons(d, b[0], b[1], b[2], rest);
      LetterBlockRoundTrip(k, d, x, y, z);
      BlocksRoundTrip(k, d, tail);
    }
  }

  /** The determinant reduced into [0, 26), as the code keeps it. */
  function ReducedDet(key: seq<int>): (det: int)
    requires |key| == 9
    ensures 0 <= det < 26
  {
    Mod(Det(KeyMatrix(key)), 26)
  }

  /** `hill(text, key, isEncrypt)`: a key of other than nine numbers is
      refused; so is one whose reduced determinant fails the inverse
      sentinel test, in both directions; otherwise the cleaned text padded
      with X is transformed block by block. */
  function Hill(text: seq<char>, key: seq<int>, encrypt: bool): (r: Result<seq<char>>)
    ensures |key| != 9 ==> r == Err(InvalidKeyLength)
    ensures |key| == 9 ==> (r.Err? <==> SentinelRejects(ReducedDet(key)))
    ensures |key| == 9 && r.Err? ==> r.error == NonInvertibleMatrix
    ensures r.Ok? ==> |r.value| == |PadX(Clean(text))| && AllLetters(r.value)
  {
    if |key| != 9 then Err(InvalidKeyLength)
    else
      var k := KeyMatrix(key);
      var det := ReducedDet(key);
      var detInv := ModInverse(det, 26);
      if detInv == 1 && det != 1 then Err(NonInvertibleMatrix)
      else
        var matrix := if encrypt then k else DecryptionMatrix(k, detInv);
        var clean := PadX(Clean(text));
        assert AllLetters(clean);
        Ok(Blocks(matrix, clean))
  }

  /** A nine-number key is refused exactly when its reduced determinant
      shares a factor with 26. */
  lemma HillRejectsIffNotCoprime(text: seq<char>, key: seq<int>, encrypt: bool)
    requires |key| == 9
    ensures Hill(text, key, encrypt).Err? <==> Gcd(ReducedDet(key), 26) != 1
  {
    SentinelRejectsIffNotCoprime(ReducedDet(key));
  }

  /** For an accepted key the decryption matrix inverts the key matrix
      modulo 26. */
  lemma HillInverseMatrix(key: seq<int>)
    requires |key| == 9 && !SentinelRejects(ReducedDet(key))
    ensures ModMat(MatMul(DecryptionMatrix(KeyMatrix(key), ModInverse(ReducedDet(key), 26)),
                          KeyMatrix(key))) == Identity
  {
    AcceptedHasInverse(ReducedDet(key));
    DecryptionMatrixInverts(KeyMatrix(key), ModInverse(ReducedDet(key), 26));
  }

  /** The matrix decryption uses for a key. */
  function DecryptionKey(key: seq<int>): Mat3
    requires |key| == 9
  {
    DecryptionMatrix(KeyMatrix(key), ModInverse(ReducedDet(key), 26))
  }

  lemma EncryptionIsBlocks(text: seq<char>, key: seq<int>)
    requires Hill(text, key, true).Ok?
    ensures |key| == 9 && !SentinelRejects(ReducedDet(key))
    ensures AllLetters(PadX(Clean(text)))
    ensures Hill(text, key, true).value == Blocks(KeyMatrix(key), PadX(Clean(text)))
  {
  }

  lemma DecryptionOfBlocks(c: seq<char>, key: seq<int>)
    requires |key| == 9 && !SentinelRejects(ReducedDet(key))
    requires AllLetters(c) && |c| % 3 == 0
    ensures Hill(c, key, false) == Ok(Blocks(DecryptionKey(key), c))
  {
    assert Clean(c) == c;
    assert PadX(c) == c;
  }

  /** Decrypting an encryption with the same key gives back the cleaned
      text with its X padding. */
  lemma HillRoundTrip(text: seq<char>, key: seq<int>)
    requires Hill(text, key, true).Ok?
    ensures Hill(Hill(text, key, true).value, key, false) == Ok(PadX(Clean(text)))
  {
    EncryptionIsBlocks(text, key);
    var padded := PadX(Clean(text));
    var c := Blocks(KeyMatrix(key), padded);
    DecryptionOfBlocks(c, key);
    HillInverseMatrix(key);
    BlocksRoundTrip(KeyMatrix(key), DecryptionKey(key), padded);
  }
}
