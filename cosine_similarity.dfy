/** Cosine similarity of every row of one frame against every row of
    another (cos_sim). The square root is a parameter `sqrt`; the proofs use
    only that it maps every x >= 0 to a non-negative number whose square
    is x. */
module CosineSimilarity {
  import opened Tables
  import opened ExtReal

  /** sqrt is a square root on the non-negative reals. */
  ghost predicate IsSqrt(sqrt: real -> real)
  {
    forall x :: 0.0 <= x ==> 0.0 <= sqrt(x) && sqrt(x) * sqrt(x) == x
  }

  // ---------------------------------------------------------------------
  // Vectors
  // ---------------------------------------------------------------------

  /** The dot product, accumulated from the left. */
  function Dot(a: seq<real>, b: seq<real>): real
    requires |a| == |b|
  {
    if a == [] then 0.0
    else
      var k := |a| - 1;
      Dot(a[..k], b[..k]) + a[k] * b[k]
  }

  /** The Euclidean norm of one row: the square root of the sum of squares. */
  function Norm(sqrt: real -> real, a: seq<real>): real
  {
    sqrt(Dot(a, a))
  }

  lemma {:induction false} DotSymmetric(a: seq<real>, b: seq<real>)
    requires |a| == |b|
    ensures Dot(a, b) == Dot(b, a)
  {
    if a != [] {
      DotSymmetric(a[..|a| - 1], b[..|b| - 1]);
    }
  }

  // Facts about a product x * y of two reals. The solver reasons poorly
  // about a square x * x once it occurs among other terms, so the proofs
  // below state each fact about a square by passing the same term for x
  // and y to one of these lemmas and use the result as it stands.

  /** The sign of d + x * y for a non-negative d. */
  lemma ProductSign(x: real, y: real, d: real, s: real)
    requires 0.0 <= d && s == d + x * y
    ensures (0.0 <= x && 0.0 <= y) || (x <= 0.0 && y <= 0.0) ==> 0.0 <= s
    ensures (0.0 < x && 0.0 < y) || (x < 0.0 && y < 0.0) ==> 0.0 < s
    ensures x == 0.0 ==> s == d
  {
  }

  lemma ProductOfZero(x: real, y: real, p: real)
    requires p == x * y
    ensures x == 0.0 ==> p == 0.0
  {
  }

  /** Products of non-negative factors grow strictly with both factors. */
  lemma ProductMonotone(a: real, b: real, c: real, e: real, lo: real, hi: real)
    requires 0.0 <= a < c && 0.0 <= b < e && lo == a * b && hi == c * e
    ensures lo < hi
  {
    assert a * b <= a * e;
    assert a * e < c * e;
  }

  lemma QuotientOfEqual(x: real, y: real)
    requires x == y && y != 0.0
    ensures x / y == 1.0
  {
  }

  lemma {:induction false} DotSelfNonNeg(a: seq<real>)
    ensures 0.0 <= Dot(a, a)
  {
    if a != [] {
      var n := |a| - 1;
      DotSelfNonNeg(a[..n]);
      assert Dot(a, a) == Dot(a[..n], a[..n]) + a[n] * a[n];
      ProductSign(a[n], a[n], Dot(a[..n], a[..n]), Dot(a, a));
    }
  }

  /** A vector whose squares sum to zero is the zero vector, and conversely. */
  lemma {:induction false} DotSelfZeroIffAllZero(a: seq<real>)
    ensures Dot(a, a) == 0.0 <==> AllZero(a)
  {
    if a != [] {
      var n := |a| - 1;
      var init, x := a[..n], a[n];
      var d, s := Dot(init, init), Dot(a, a);
      DotSelfNonNeg(init);
      DotSelfZeroIffAllZero(init);
      assert s == d + x * x;
      ProductSign(x, x, d, s);
      if s == 0.0 {
        assert x == 0.0;
        assert AllZero(init);
        forall i | 0 <= i < |a|
          ensures a[i] == 0.0
        {
          if i < n {
            assert a[i] == init[i];
          }
        }
      }
      if AllZero(a) {
        assert AllZero(init) && x == 0.0;
      }
    }
  }

  lemma {:induction false} DotZeroLeft(a: seq<real>, b: seq<real>)
    requires |a| == |b| && AllZero(a)
    ensures Dot(a, b) == 0.0
  {
    if a != [] {
      DotZeroLeft(a[..|a| - 1], b[..|b| - 1]);
    }
  }

  /** The last step of the dot product. */
  lemma DotLast(a: seq<real>, b: seq<real>, n: nat)
    requires |a| == |b| == n + 1
    ensures Dot(a, b) == Dot(a[..n], b[..n]) + a[n] * b[n]
  {
  }

  lemma ScaleStep(k: real, s: real, x: real, u: real, w: real, r: real, q: real)
    requires s == k * x && r == s + (k * u) * w && q == x + u * w
    ensures r == k * q
  {
  }

  /** Scale splits like its argument. */
  lemma ScaleSplit(k: real, a: seq<real>)
    requires a != []
    ensures Scale(k, a)[..|a| - 1] == Scale(k, a[..|a| - 1])
    ensures Scale(k, a)[|a| - 1] == k * a[|a| - 1]
  {
    var n := |a| - 1;
    assert forall i :: 0 <= i < n ==> Scale(k, a)[i] == Scale(k, a[..n])[i];
  }

  lemma {:induction false} DotScaleLeft(k: real, a: seq<real>, b: seq<real>)
    requires |a| == |b|
    ensures Dot(Scale(k, a), b) == k * Dot(a, b)
  {
    if a != [] {
      var n := |a| - 1;
      var sa := Scale(k, a);
      ScaleSplit(k, a);
      DotScaleLeft(k, a[..n], b[..n]);
      DotLast(sa, b, n);
      DotLast(a, b, n);
      ScaleStep(k, Dot(sa[..n], b[..n]), Dot(a[..n], b[..n]), a[n], b[n], Dot(sa, b), Dot(a, b));
    }
  }

  /** 0 < k and 0 <= k z give 0 <= z. */
  lemma PositiveFactor(k: real, z: real, p: real)
    requires 0.0 < k && p == k * z && 0.0 <= p
    ensures 0.0 <= z
  {
  }

  /** The cross term of one Cauchy-Schwarz induction step when aa == 0:
      then d == 0 and 2 d x y == 0 <= bb x^2. */
  lemma CrossBoundZero(d: real, aa: real, bb: real, x: real, y: real, p: real, q: real, r: real)
    requires aa == 0.0 && 0.0 <= bb && d * d <= aa * bb
    requires p == x * y && q == x * x && r == y * y
    ensures 2.0 * d * p <= aa * r + bb * q
  {
    ProductSign(x, x, 0.0, q);
    ProductSign(bb, q, 0.0, bb * q);
    ProductSign(d, d, 0.0, d * d);
    ProductSign(aa, bb, 0.0, aa * bb);
    ProductSign(aa, r, 0.0, aa * r);
    assert d == 0.0;
  }

  /** The cross term when 0 < aa: with e = aa y - d x,
      aa (aa y^2 + bb x^2 - 2 d x y) == e^2 + (aa bb - d^2) x^2 >= 0. */
  lemma CrossBoundPositive(d: real, aa: real, bb: real, x: real, y: real, p: real, q: real, r: real)
    requires 0.0 < aa && 0.0 <= bb && d * d <= aa * bb
    requires p == x * y && q == x * x && r == y * y
    ensures 2.0 * d * p <= aa * r + bb * q
  {
    ProductSign(x, x, 0.0, q);
    var e := aa * y - d * x;
    ProductSign(e, e, 0.0, e * e);
    assert e * e == aa * (aa * r) - 2.0 * aa * (d * p) + (d * d) * q;
    var g := aa * bb - d * d;
    ProductSign(g, q, 0.0, g * q);
    var z := aa * r + bb * q - 2.0 * d * p;
    assert e * e + g * q == aa * z;
    PositiveFactor(aa, z, aa * z);
  }

  /** One induction step of Cauchy-Schwarz on the reals: appending x to one
      vector and y to the other keeps d^2 <= aa bb. */
  lemma CauchySchwarzStep(d: real, aa: real, bb: real, x: real, y: real, d1: real, aa1: real, bb1: real)
    requires 0.0 <= aa && 0.0 <= bb && d * d <= aa * bb
    requires d1 == d + x * y && aa1 == aa + x * x && bb1 == bb + y * y
    ensures d1 * d1 <= aa1 * bb1
  {
    var p, q, r := x * y, x * x, y * y;
    if aa == 0.0 {
      CrossBoundZero(d, aa, bb, x, y, p, q, r);
    } else {
      CrossBoundPositive(d, aa, bb, x, y, p, q, r);
    }
    assert d1 * d1 == d * d + 2.0 * d * p + p * p;
    assert aa1 * bb1 == aa * bb + aa * r + bb * q + q * r;
    assert p * p == q * r;
  }

  /** |a . b|^2 <= |a|^2 |b|^2, by induction on the common length. */
  lemma {:induction false} CauchySchwarz(a: seq<real>, b: seq<real>)
    requires |a| == |b|
    ensures Dot(a, b) * Dot(a, b) <= Dot(a, a) * Dot(b, b)
  {
    if a != [] {
      var n := |a| - 1;
      CauchySchwarz(a[..n], b[..n]);
      DotSelfNonNeg(a[..n]);
      DotSelfNonNeg(b[..n]);
      CauchySchwarzStep(Dot(a[..n], b[..n]), Dot(a[..n], a[..n]), Dot(b[..n], b[..n]), a[n], b[n],
                        Dot(a, b), Dot(a, a), Dot(b, b));
    }
  }

  /** Two non-negative numbers with the same square are equal. */
  lemma SquareRootUnique(s: real, t: real, q: real)
    requires 0.0 <= s && 0.0 <= t && q == s * s && q == t * t
    ensures s == t
  {
    if s < t {
      ProductMonotone(s, s, t, t, q, q);
    } else if t < s {
      ProductMonotone(t, t, s, s, q, q);
    }
  }

  /** The norm is non-negative, its square is the sum of squares, and it is
      zero exactly for the zero vector. */
  lemma NormZeroIffAllZero(sqrt: real -> real, a: seq<real>)
    requires IsSqrt(sqrt)
    ensures 0.0 <= Norm(sqrt, a)
    ensures Norm(sqrt, a) * Norm(sqrt, a) == Dot(a, a)
    ensures Norm(sqrt, a) == 0.0 <==> AllZero(a)
  {
    var d := Dot(a, a);
    DotSelfNonNeg(a);
    DotSelfZeroIffAllZero(a);
    var s := Norm(sqrt, a);
    assert d == s * s;
    ProductOfZero(s, s, d);
    if d == 0.0 {
      SquareRootUnique(s, 0.0, d);
    }
  }

  /** Scaling by k > 0 scales the norm by k. */
  lemma NormScale(sqrt: real -> real, k: real, a: seq<real>)
    requires IsSqrt(sqrt) && 0.0 < k
    ensures Norm(sqrt, Scale(k, a)) == k * Norm(sqrt, a)
  {
    var sa := Scale(k, a);
    DotSelfScale(k, a);
    NormZeroIffAllZero(sqrt, a);
    NormZeroIffAllZero(sqrt, sa);
    ScaledRoot(k, Norm(sqrt, a), Dot(a, a), Norm(sqrt, sa), Dot(sa, sa));
  }

  /** (k a) . (k a) == k (k (a . a)). */
  lemma DotSelfScale(k: real, a: seq<real>)
    ensures Dot(Scale(k, a), Scale(k, a)) == k * (k * Dot(a, a))
  {
    var sa := Scale(k, a);
    DotScaleLeft(k, a, sa);
    DotSymmetric(a, sa);
    DotScaleLeft(k, a, a);
  }

  /** The non-negative root s of k (k x) is k r, for r the non-negative root
      of x. */
  lemma ScaledRoot(k: real, r: real, x: real, s: real, y: real)
    requires 0.0 < k && 0.0 <= r && r * r == x
    requires 0.0 <= s && s * s == y && y == k * (k * x)
    ensures s == k * r
  {
    assert y == (k * r) * (k * r);
    assert 0.0 <= k * r;
    SquareRootUnique(s, k * r, y);
  }

  // ---------------------------------------------------------------------
  // cos_sim as written
  // ---------------------------------------------------------------------

  /** One cell of the result: the dot product over the product of the two
      norms, computed with IEEE special values, then NaN replaced by 0. */
  function CosCell(sqrt: real -> real, a: seq<real>, b: seq<real>): (c: Ext)
    requires |a| == |b|
    ensures !c.NaN?
    ensures Norm(sqrt, a) * Norm(sqrt, b) != 0.0 ==>
              c == Fin(Dot(a, b) / (Norm(sqrt, a) * Norm(sqrt, b)))
    ensures Norm(sqrt, a) * Norm(sqrt, b) == 0.0 && Dot(a, b) == 0.0 ==> c == Fin(0.0)
    ensures c.Fin? || Norm(sqrt, a) * Norm(sqrt, b) == 0.0
  {
    FillNaN(Div(Dot(a, b), Norm(sqrt, a) * Norm(sqrt, b)), 0.0)
  }

  /** cos_sim: the dot product of the two frames fails when their widths differ;
      otherwise the |a| x |b| table of cosine cells, rows labelled by a's
      index and columns by b's. */
  function CosSim(sqrt: real -> real, a: Frame, b: Frame): (r: Result<Table<Ext>>)
    requires WellFormed(a) && WellFormed(b)
    ensures r.Failure? <==> a.width != b.width
    ensures r.Failure? ==> r.error == NotAligned
    ensures r.Success? ==> HasShape(r.value, |a.rows|, |b.rows|)
    ensures r.Success? ==> r.value.rowLabels == a.labels && r.value.colLabels == b.labels
  {
    if a.width != b.width then Failure(NotAligned)
    else
      Success(Table(a.labels, b.labels,
        seq(|a.rows|, i requires 0 <= i < |a.rows| =>
          seq(|b.rows|, j requires 0 <= j < |b.rows| => CosCell(sqrt, a.rows[i], b.rows[j])))))
  }

  // ---------------------------------------------------------------------
  // Properties of one cell
  // ---------------------------------------------------------------------

  /** A cell is the cosine dot / (|a| |b|) when both norms are non-zero,
      and 0 when either is zero: that row is then all zeros, the dot
      product is 0, the quotient is 0/0 = NaN, and the NaN fill replaces it by 0.
      No cell is ever infinite. */
  lemma CosCellValue(sqrt: real -> real, a: seq<real>, b: seq<real>)
    requires IsSqrt(sqrt) && |a| == |b|
    ensures Norm(sqrt, a) != 0.0 && Norm(sqrt, b) != 0.0 ==>
              CosCell(sqrt, a, b) == Fin(Dot(a, b) / (Norm(sqrt, a) * Norm(sqrt, b)))
    ensures Norm(sqrt, a) == 0.0 || Norm(sqrt, b) == 0.0 ==> CosCell(sqrt, a, b) == Fin(0.0)
  {
    NormZeroIffAllZero(sqrt, a);
    NormZeroIffAllZero(sqrt, b);
    if Norm(sqrt, a) == 0.0 {
      DotZeroLeft(a, b);
    } else if Norm(sqrt, b) == 0.0 {
      DotZeroLeft(b, a);
      DotSymmetric(a, b);
    } else {
      assert Norm(sqrt, a) * Norm(sqrt, b) != 0.0;
    }
  }

  /** |d| <= p from d * d <= p * p for a positive p. */
  lemma SquareBound(d: real, p: real, dd: real, pp: real)
    requires 0.0 < p && dd == d * d && pp == p * p && dd <= pp
    ensures -p <= d <= p
  {
    if p < d {
      ProductMonotone(p, p, d, d, pp, dd);
    }
    if d < -p {
      ProductMonotone(p, p, -d, -d, pp, dd);
    }
  }

  /** A dot product d bounded as Cauchy-Schwarz bounds it, divided by the
      product of the two (positive) norms, lies in [-1, 1]. */
  lemma CosineBound(d: real, na: real, nb: real, aa: real, bb: real)
    requires 0.0 < na && 0.0 < nb && na * na == aa && nb * nb == bb
    requires d * d <= aa * bb
    ensures -1.0 <= d / (na * nb) <= 1.0
  {
    var p := na * nb;
    assert 0.0 < p;
    assert d * d <= p * p;
    SquareBound(d, p, d * d, p * p);
  }

  /** Every cell is a finite number in [-1, 1]. */
  lemma CosCellBounded(sqrt: real -> real, a: seq<real>, b: seq<real>)
    requires IsSqrt(sqrt) && |a| == |b|
    ensures CosCell(sqrt, a, b).Fin?
    ensures -1.0 <= CosCell(sqrt, a, b).v <= 1.0
  {
    CosCellValue(sqrt, a, b);
    var na, nb := Norm(sqrt, a), Norm(sqrt, b);
    NormZeroIffAllZero(sqrt, a);
    NormZeroIffAllZero(sqrt, b);
    if na != 0.0 && nb != 0.0 {
      CauchySchwarz(a, b);
      CosineBound(Dot(a, b), na, nb, Dot(a, a), Dot(b, b));
    }
  }

  /** cos(a, b) == cos(b, a). */
  lemma CosCellSymmetric(sqrt: real -> real, a: seq<real>, b: seq<real>)
    requires |a| == |b|
    ensures CosCell(sqrt, a, b) == CosCell(sqrt, b, a)
  {
    DotSymmetric(a, b);
    assert Norm(sqrt, a) * Norm(sqrt, b) == Norm(sqrt, b) * Norm(sqrt, a);
  }

  /** cos(a, a) == 1 for a non-zero row. */
  lemma CosCellSelf(sqrt: real -> real, a: seq<real>)
    requires IsSqrt(sqrt) && !AllZero(a)
    ensures CosCell(sqrt, a, a) == Fin(1.0)
  {
    NormZeroIffAllZero(sqrt, a);
    DotSelfZeroIffAllZero(a);
    CosCellValue(sqrt, a, a);
    var n := Norm(sqrt, a);
    QuotientOfEqual(Dot(a, a), n * n);
  }

  /** Scaling the numerator and one factor of the denominator by the same
      k > 0 leaves the filled quotient unchanged, also when that quotient
      is NaN (filled with 0) or an infinity. */
  lemma FilledQuotientScale(k: real, d: real, x: real, y: real)
    requires 0.0 < k
    ensures FillNaN(Div(k * d, (k * x) * y), 0.0) == FillNaN(Div(d, x * y), 0.0)
  {
    assert (k * x) * y == k * (x * y);
    if x * y != 0.0 {
      DivCancel(k, d, x * y);
    } else {
      assert (k * x) * y == 0.0;
      assert k * d == 0.0 <==> d == 0.0;
      assert 0.0 < k * d <==> 0.0 < d;
    }
  }

  /** A cosine cell is unchanged when its dot product and the first norm
      are both multiplied by the same positive k. */
  lemma CosCellScaleNorm(sqrt: real -> real, k: real, a: seq<real>, b: seq<real>)
    requires 0.0 < k && |a| == |b| && Norm(sqrt, Scale(k, a)) == k * Norm(sqrt, a)
    ensures CosCell(sqrt, Scale(k, a), b) == CosCell(sqrt, a, b)
  {
    DotScaleLeft(k, a, b);
    FilledQuotientScale(k, Dot(a, b), Norm(sqrt, a), Norm(sqrt, b));
  }

  /** Scaling a row by a positive constant leaves its cosine with any other
      row unchanged. */
  lemma CosCellScale(sqrt: real -> real, k: real, a: seq<real>, b: seq<real>)
    requires IsSqrt(sqrt) && 0.0 < k && |a| == |b|
    ensures CosCell(sqrt, Scale(k, a), b) == CosCell(sqrt, a, b)
  {
    NormScale(sqrt, k, a);
    CosCellScaleNorm(sqrt, k, a, b);
  }

  // ---------------------------------------------------------------------
  // Properties of the table
  // ---------------------------------------------------------------------

  /** Every cell of cos_sim(a, b) is finite, lies in [-1, 1], is the cosine
      of its two rows when both norms are non-zero and 0 when either row is
      all zeros (exactly the rows of norm 0). */
  lemma CosSimCells(sqrt: real -> real, a: Frame, b: Frame)
    requires IsSqrt(sqrt) && WellFormed(a) && WellFormed(b) && a.width == b.width
    ensures CosSim(sqrt, a, b).Success?
    ensures forall i, j :: 0 <= i < |a.rows| && 0 <= j < |b.rows| ==>
              var c := CosSim(sqrt, a, b).value.cells[i][j];
              var na, nb := Norm(sqrt, a.rows[i]), Norm(sqrt, b.rows[j]);
              c.Fin? && -1.0 <= c.v <= 1.0 &&
              (na != 0.0 && nb != 0.0 ==> c.v == Dot(a.rows[i], b.rows[j]) / (na * nb)) &&
              (AllZero(a.rows[i]) || AllZero(b.rows[j]) ==> c.v == 0.0)
  {
    forall i, j | 0 <= i < |a.rows| && 0 <= j < |b.rows|
      ensures var c := CosSim(sqrt, a, b).value.cells[i][j];
              var na, nb := Norm(sqrt, a.rows[i]), Norm(sqrt, b.rows[j]);
              c.Fin? && -1.0 <= c.v <= 1.0 &&
              (na != 0.0 && nb != 0.0 ==> c.v == Dot(a.rows[i], b.rows[j]) / (na * nb)) &&
              (AllZero(a.rows[i]) || AllZero(b.rows[j]) ==> c.v == 0.0)
    {
      CosCellBounded(sqrt, a.rows[i], b.rows[j]);
      CosCellValue(sqrt, a.rows[i], b.rows[j]);
      NormZeroIffAllZero(sqrt, a.rows[i]);
      NormZeroIffAllZero(sqrt, b.rows[j]);
    }
  }

  /** cos_sim(a, a) is symmetric and has 1 on the diagonal of every
      non-zero row. */
  lemma CosSimSelf(sqrt: real -> real, a: Frame)
    requires IsSqrt(sqrt) && WellFormed(a)
    ensures CosSim(sqrt, a, a).Success?
    ensures forall i, j :: 0 <= i < |a.rows| && 0 <= j < |a.rows| ==>
              CosSim(sqrt, a, a).value.cells[i][j] == CosSim(sqrt, a, a).value.cells[j][i]
    ensures forall i :: 0 <= i < |a.rows| && !AllZero(a.rows[i]) ==>
              CosSim(sqrt, a, a).value.cells[i][i] == Fin(1.0)
  {
    forall i, j | 0 <= i < |a.rows| && 0 <= j < |a.rows|
      ensures CosSim(sqrt, a, a).value.cells[i][j] == CosSim(sqrt, a, a).value.cells[j][i]
    {
      CosCellSymmetric(sqrt, a.rows[i], a.rows[j]);
    }
    forall i | 0 <= i < |a.rows| && !AllZero(a.rows[i])
      ensures CosSim(sqrt, a, a).value.cells[i][i] == Fin(1.0)
    {
      CosCellSelf(sqrt, a.rows[i]);
    }
  }

  /** Swapping the two frames transposes the table. */
  lemma CosSimSwap(sqrt: real -> real, a: Frame, b: Frame)
    requires WellFormed(a) && WellFormed(b) && a.width == b.width
    ensures CosSim(sqrt, a, b).Success? && CosSim(sqrt, b, a).Success?
    ensures forall i, j :: 0 <= i < |a.rows| && 0 <= j < |b.rows| ==>
              CosSim(sqrt, b, a).value.cells[j][i] == CosSim(sqrt, a, b).value.cells[i][j]
  {
    forall i, j | 0 <= i < |a.rows| && 0 <= j < |b.rows|
      ensures CosSim(sqrt, b, a).value.cells[j][i] == CosSim(sqrt, a, b).value.cells[i][j]
    {
      CosCellSymmetric(sqrt, a.rows[i], b.rows[j]);
    }
  }

  /** Row i of a frame multiplied by k. */
  function ScaleRow(f: Frame, i: nat, k: real): (g: Frame)
    requires WellFormed(f) && i < |f.rows|
    ensures WellFormed(g)
  {
    f.(rows := f.rows[i := Scale(k, f.rows[i])])
  }

  /** Scaling any row of either frame by a positive constant leaves the
      whole table unchanged. */
  lemma CosSimScaleRow(sqrt: real -> real, a: Frame, b: Frame, i: nat, j: nat, k: real)
    requires IsSqrt(sqrt) && 0.0 < k
    requires WellFormed(a) && WellFormed(b) && i < |a.rows| && j < |b.rows|
    ensures CosSim(sqrt, ScaleRow(a, i, k), b) == CosSim(sqrt, a, b)
    ensures CosSim(sqrt, a, ScaleRow(b, j, k)) == CosSim(sqrt, a, b)
  {
    var a', b' := ScaleRow(a, i, k), ScaleRow(b, j, k);
    if a.width == b.width {
      var t, ta, tb := CosSim(sqrt, a, b).value, CosSim(sqrt, a', b).value, CosSim(sqrt, a, b').value;
      forall x | 0 <= x < |a.rows|
        ensures ta.cells[x] == t.cells[x]
      {
        forall y | 0 <= y < |b.rows|
          ensures ta.cells[x][y] == t.cells[x][y]
        {
          if x == i {
            CosCellScale(sqrt, k, a.rows[x], b.rows[y]);
          }
        }
      }
      assert ta.cells == t.cells;
      forall x | 0 <= x < |a.rows|
        ensures tb.cells[x] == t.cells[x]
      {
        forall y | 0 <= y < |b.rows|
          ensures tb.cells[x][y] == t.cells[x][y]
        {
          if y == j {
            CosCellSymmetric(sqrt, a.rows[x], Scale(k, b.rows[y]));
            CosCellScale(sqrt, k, b.rows[y], a.rows[x]);
            CosCellSymmetric(sqrt, b.rows[y], a.rows[x]);
          }
        }
      }
      assert tb.cells == t.cells;
    }
  }

  /** The identity rows [1, 0] and [0, 1] compared with themselves give the
      identity table. */
  lemma CosSimOfIdentity(sqrt: real -> real)
    requires IsSqrt(sqrt)
    ensures var f := FromArray([[1.0, 0.0], [0.0, 1.0]], 2);
            CosSim(sqrt, f, f) == Success(Table(f.labels, f.labels,
                                   [[Fin(1.0), Fin(0.0)], [Fin(0.0), Fin(1.0)]]))
  {
    var e0, e1 := [1.0, 0.0], [0.0, 1.0];
    var f := FromArray([e0, e1], 2);
    assert !AllZero(e0) && !AllZero(e1) by {
      assert e0[0] != 0.0 && e1[1] != 0.0;
    }
    CosCellSelf(sqrt, e0);
    CosCellSelf(sqrt, e1);
    assert e0[..1] == [1.0] && e1[..1] == [0.0] && e0[..1][..0] == [];
    assert Dot(e0, e1) == 0.0;
    CosCellSymmetric(sqrt, e0, e1);
    assert CosCell(sqrt, e0, e1) == Fin(0.0);
    var t := CosSim(sqrt, f, f).value;
    assert t.cells[0] == [Fin(1.0), Fin(0.0)];
    assert t.cells[1] == [Fin(0.0), Fin(1.0)];
    assert t.cells == [[Fin(1.0), Fin(0.0)], [Fin(0.0), Fin(1.0)]];
  }
}
