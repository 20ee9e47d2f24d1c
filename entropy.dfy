/** Shannon entropy in bits of a count vector (get_entropy) and of every row
    of a matrix (get_entropy_all). The base-2 logarithm is a parameter
    `log2`; the only facts about it any proof uses are log2(1) == 0 and,
    for non-negativity, that log2 is not positive on (0, 1]. */
module Entropy {
  import opened Tables
  import opened ExtReal

  // ---------------------------------------------------------------------
  // Reference definition: skip zero terms
  // ---------------------------------------------------------------------

  /** p * log2(p), where a zero probability contributes nothing. */
  function H(log2: real -> real, p: real): real
  {
    if p == 0.0 then 0.0 else p * log2(p)
  }

  /** The sum of H(c[i] / total) over the vector. */
  function TermSum(log2: real -> real, c: seq<real>, total: real): real
    requires total != 0.0
  {
    if c == [] then 0.0
    else TermSum(log2, c[..|c| - 1], total) + H(log2, c[|c| - 1] / total)
  }

  /** The entropy of the distribution the counts c describe; a vector that
      sums to zero carries no information and has entropy 0. */
  function Entropy(log2: real -> real, c: seq<real>): real
  {
    if Sum(c) == 0.0 then 0.0 else -TermSum(log2, c, Sum(c))
  }

  // ---------------------------------------------------------------------
  // get_entropy as written
  // ---------------------------------------------------------------------

  /** What get_entropy is handed: a Python list or an ndarray. */
  datatype Counts = ListCounts(counts: seq<real>) | ArrayCounts(counts: seq<real>)

  /** The probabilities: every count divided by the common total; an all-zero
      vector gives 0/0 = NaN everywhere. */
  function Probabilities(c: seq<real>): (ps: seq<Ext>)
    ensures |ps| == |c|
    ensures Sum(c) != 0.0 ==> forall i :: 0 <= i < |c| ==> ps[i] == Fin(c[i] / Sum(c))
    ensures Sum(c) == 0.0 ==> forall i :: 0 <= i < |c| ==> (ps[i].NaN? <==> c[i] == 0.0)
  {
    Shares(c, Sum(c))
  }

  /** The filter on positive probabilities: the positive entries, in order
      (a NaN entry fails the comparison and is dropped; no infinity arises
      for non-negative counts). Never more entries than there were. */
  function KeepPositive(ps: seq<Ext>): (r: seq<real>)
    ensures |r| <= |ps|
  {
    if ps == [] then []
    else
      var last := ps[|ps| - 1];
      KeepPositive(ps[..|ps| - 1]) + (if last.Fin? && 0.0 < last.v then [last.v] else [])
  }

  /** The sum of p times log2 of p over the kept probabilities. */
  function PLogPSum(log2: real -> real, ps: seq<real>): real
  {
    if ps == [] then 0.0
    else PLogPSum(log2, ps[..|ps| - 1]) + ps[|ps| - 1] * log2(ps[|ps| - 1])
  }

  /** get_entropy: an ndarray argument leaves `counts` unbound and fails; a
      list is normalised, filtered to its positive probabilities, and
      -sum p*log2(p) is returned. */
  function GetEntropy(log2: real -> real, input: Counts): (r: Result<real>)
    requires input.ListCounts? ==> NonNeg(input.counts)
    ensures r.Failure? <==> input.ArrayCounts?
    ensures r.Failure? ==> r.error == UnboundCounts
  {
    match input
    case ArrayCounts(_) => Failure(UnboundCounts)
    case ListCounts(c) => Success(-PLogPSum(log2, KeepPositive(Probabilities(c))))
  }

  /** For non-negative counts no probability is infinite, and NaN arises
      exactly when the counts sum to zero: the `> 0` filter therefore sees
      either finite values or only NaN. */
  lemma ProbabilitiesAreFiniteOrNaN(c: seq<real>)
    requires NonNeg(c)
    ensures forall i :: 0 <= i < |c| ==> Probabilities(c)[i].Fin? || Probabilities(c)[i].NaN?
    ensures forall i :: 0 <= i < |c| ==> (Probabilities(c)[i].NaN? <==> Sum(c) == 0.0)
  {
    SumZeroIffAllZero(c);
  }

  lemma {:induction false} PLogPSumSnoc(log2: real -> real, ps: seq<real>, tail: seq<real>)
    requires |tail| <= 1
    ensures PLogPSum(log2, ps + tail) ==
            PLogPSum(log2, ps) + (if tail == [] then 0.0 else tail[0] * log2(tail[0]))
  {
    if tail == [] {
      assert ps + tail == ps;
    } else {
      assert (ps + tail)[..|ps + tail| - 1] == ps;
    }
  }

  lemma {:induction false} KeepPositiveOfNaN(ps: seq<Ext>)
    requires forall i :: 0 <= i < |ps| ==> ps[i].NaN?
    ensures KeepPositive(ps) == []
  {
    if ps != [] {
      KeepPositiveOfNaN(ps[..|ps| - 1]);
    }
  }

  /** The filter keeps only positive values, and when every entry is a
      positive probability it keeps all of them, in order. */
  lemma {:induction false} KeepPositiveKeeps(ps: seq<Ext>)
    ensures forall k :: 0 <= k < |KeepPositive(ps)| ==> 0.0 < KeepPositive(ps)[k]
    ensures (forall i :: 0 <= i < |ps| ==> ps[i].Fin? && 0.0 < ps[i].v) ==>
              |KeepPositive(ps)| == |ps| && forall i :: 0 <= i < |ps| ==> KeepPositive(ps)[i] == ps[i].v
  {
    if ps != [] {
      var init := ps[..|ps| - 1];
      KeepPositiveKeeps(init);
      var last := ps[|ps| - 1];
      var tail := if last.Fin? && 0.0 < last.v then [last.v] else [];
      assert KeepPositive(ps) == KeepPositive(init) + tail;
      if forall i :: 0 <= i < |ps| ==> ps[i].Fin? && 0.0 < ps[i].v {
        assert forall i :: 0 <= i < |init| ==> init[i] == ps[i];
      }
    }
  }

  /** x * y is not positive when x is not negative and y is not positive. */
  lemma NonPosProduct(x: real, y: real)
    requires 0.0 <= x && y <= 0.0
    ensures x * y <= 0.0
  {
  }

  /** A non-negative count over a positive total is a non-negative
      probability, and zero only for a zero count. */
  lemma ProbabilityOfCount(x: real, total: real)
    requires 0.0 <= x && 0.0 < total
    ensures 0.0 <= x / total
    ensures x / total == 0.0 <==> x == 0.0
  {
  }

  /** Every count over a given total. */
  function Shares(c: seq<real>, total: real): (ps: seq<Ext>)
    ensures |ps| == |c|
  {
    seq(|c|, i requires 0 <= i < |c| => Div(c[i], total))
  }

  lemma SharesInit(c: seq<real>, total: real)
    requires c != []
    ensures Shares(c, total)[..|c| - 1] == Shares(c[..|c| - 1], total)
  {
  }

  /** One more count adds its p*log2(p) to the filtered sum when it is
      positive and nothing when it is zero. */
  lemma FilteredSumStep(log2: real -> real, c: seq<real>, total: real)
    requires c != [] && NonNeg(c) && 0.0 < total
    ensures PLogPSum(log2, KeepPositive(Shares(c, total))) ==
            PLogPSum(log2, KeepPositive(Shares(c[..|c| - 1], total))) + H(log2, c[|c| - 1] / total)
  {
    var ps := Shares(c, total);
    var ps' := Shares(c[..|c| - 1], total);
    SharesInit(c, total);
    var x := c[|c| - 1];
    var p := x / total;
    ProbabilityOfCount(x, total);
    assert ps[|ps| - 1] == Fin(p);
    var tail := if 0.0 < p then [p] else [];
    assert KeepPositive(ps) == KeepPositive(ps') + tail;
    PLogPSumSnoc(log2, KeepPositive(ps'), tail);
  }

  /** With a positive total, dropping the non-positive probabilities and
      summing p*log2(p) is the skip-zero-terms sum. */
  lemma {:induction false} FilteredSumIsTermSum(log2: real -> real, c: seq<real>, total: real)
    requires NonNeg(c) && 0.0 < total
    ensures PLogPSum(log2, KeepPositive(Shares(c, total))) == TermSum(log2, c, total)
  {
    if c != [] {
      FilteredSumIsTermSum(log2, c[..|c| - 1], total);
      FilteredSumStep(log2, c, total);
    }
  }

  /** get_entropy on a list is the skip-zero-terms entropy: the zero-sum
      case yields 0 because every probability is NaN and none survives the
      filter, and otherwise the filter drops exactly the zero counts. */
  lemma GetEntropyIsEntropy(log2: real -> real, c: seq<real>)
    requires NonNeg(c)
    ensures GetEntropy(log2, ListCounts(c)) == Success(Entropy(log2, c))
  {
    SumNonNeg(c);
    ProbabilitiesAreFiniteOrNaN(c);
    if Sum(c) == 0.0 {
      KeepPositiveOfNaN(Probabilities(c));
    } else {
      FilteredSumIsTermSum(log2, c, Sum(c));
    }
  }

  /** Every entry of a non-negative vector is at most the vector's sum. */
  lemma {:induction false} EntryAtMostSum(s: seq<real>)
    requires NonNeg(s)
    ensures forall i :: 0 <= i < |s| ==> s[i] <= Sum(s)
  {
    if s != [] {
      var init := s[..|s| - 1];
      EntryAtMostSum(init);
      SumNonNeg(init);
      assert forall i :: 0 <= i < |init| ==> s[i] == init[i];
    }
  }

  /** A count between 0 and a positive total gives a probability in [0, 1]. */
  lemma ProbabilityAtMostOne(x: real, total: real)
    requires 0.0 <= x <= total && 0.0 < total
    ensures 0.0 <= x / total <= 1.0
  {
  }

  /** With every count at most the total and log2 not positive on (0, 1],
      no term of the sum is positive. */
  lemma {:induction false} TermSumNonPos(log2: real -> real, c: seq<real>, total: real)
    requires NonNeg(c) && 0.0 < total
    requires forall i :: 0 <= i < |c| ==> c[i] <= total
    requires forall p :: 0.0 < p <= 1.0 ==> log2(p) <= 0.0
    ensures TermSum(log2, c, total) <= 0.0
  {
    if c != [] {
      var x := c[|c| - 1];
      TermSumNonPos(log2, c[..|c| - 1], total);
      ProbabilityAtMostOne(x, total);
      if x != 0.0 {
        ProbabilityOfCount(x, total);
        NonPosProduct(x / total, log2(x / total));
      }
    }
  }

  /** The entropy of non-negative counts is never negative, and neither is
      what get_entropy returns for them, given only that log2 is not
      positive on (0, 1]. */
  lemma EntropyNonNeg(log2: real -> real, c: seq<real>)
    requires NonNeg(c)
    requires forall p :: 0.0 < p <= 1.0 ==> log2(p) <= 0.0
    ensures 0.0 <= Entropy(log2, c)
    ensures GetEntropy(log2, ListCounts(c)).Success? && 0.0 <= GetEntropy(log2, ListCounts(c)).value
  {
    GetEntropyIsEntropy(log2, c);
    if Sum(c) != 0.0 {
      SumNonNeg(c);
      EntryAtMostSum(c);
      TermSumNonPos(log2, c, Sum(c));
    }
  }

  /** get_entropy of an all-zero list is 0, with no division by zero. */
  lemma GetEntropyOfZeros(log2: real -> real, k: nat)
    ensures GetEntropy(log2, ListCounts(Zeros(k))) == Success(0.0)
  {
    SumZeroIffAllZero(Zeros(k));
    KeepPositiveOfNaN(Probabilities(Zeros(k)));
  }

  // ---------------------------------------------------------------------
  // Properties of the entropy
  // ---------------------------------------------------------------------

  lemma {:induction false} TermSumScale(log2: real -> real, c: seq<real>, total: real, k: real)
    requires total != 0.0 && k != 0.0
    ensures TermSum(log2, Scale(k, c), k * total) == TermSum(log2, c, total)
  {
    if c != [] {
      var init := c[..|c| - 1];
      assert forall i :: 0 <= i < |init| ==> Scale(k, c)[i] == Scale(k, init)[i];
      assert Scale(k, c)[..|c| - 1] == Scale(k, init);
      TermSumScale(log2, init, total, k);
      var x := c[|c| - 1];
      assert Scale(k, c)[|c| - 1] == k * x;
      DivCancel(k, x, total);
      assert H(log2, (k * x) / (k * total)) == H(log2, x / total);
    }
  }

  /** Multiplying every count by the same positive constant leaves the
      entropy unchanged: only the proportions matter. */
  lemma EntropyScaleInvariant(log2: real -> real, c: seq<real>, k: real)
    requires 0.0 < k
    ensures Entropy(log2, Scale(k, c)) == Entropy(log2, c)
  {
    SumScale(k, c);
    var t := Sum(c);
    if t != 0.0 {
      assert Sum(Scale(k, c)) == k * t && k * t != 0.0;
      TermSumScale(log2, c, t, k);
      assert Entropy(log2, Scale(k, c)) == -TermSum(log2, Scale(k, c), k * t);
    }
  }

  /** The non-zero entries of a vector, in order. */
  function NonZeros(c: seq<real>): (r: seq<real>)
    ensures |r| <= |c|
  {
    if c == [] then []
    else NonZeros(c[..|c| - 1]) + (if c[|c| - 1] == 0.0 then [] else [c[|c| - 1]])
  }

  /** Over a positive total, the filter on positive probabilities keeps
      exactly the shares of the non-zero counts, in order: a zero count
      gives a zero share and is dropped, every other count is kept. */
  lemma {:induction false} KeepPositiveIsNonZeroShares(c: seq<real>, t: real)
    requires NonNeg(c) && 0.0 < t
    ensures KeepPositive(Shares(c, t)) ==
            seq(|NonZeros(c)|, i requires 0 <= i < |NonZeros(c)| => NonZeros(c)[i] / t)
  {
    if c != [] {
      var init := c[..|c| - 1];
      var x := c[|c| - 1];
      KeepPositiveIsNonZeroShares(init, t);
      SharesInit(c, t);
      ProbabilityOfCount(x, t);
      var ps := Shares(c, t);
      assert ps[|ps| - 1] == Fin(x / t);
      var kept := if x != 0.0 then [x / t] else [];
      assert KeepPositive(ps) == KeepPositive(Shares(init, t)) + kept;
      var nz := NonZeros(init);
      assert NonZeros(c) == nz + (if x == 0.0 then [] else [x]);
      var lhs := seq(|NonZeros(c)|, i requires 0 <= i < |NonZeros(c)| => NonZeros(c)[i] / t);
      assert lhs == seq(|nz|, i requires 0 <= i < |nz| => nz[i] / t) + kept;
    }
  }

  lemma {:induction false} NonZerosAppend(s: seq<real>, t: seq<real>)
    ensures NonZeros(s + t) == NonZeros(s) + NonZeros(t)
  {
    if t == [] {
      assert s + t == s;
    } else {
      assert (s + t)[..|s + t| - 1] == s + t[..|t| - 1];
      NonZerosAppend(s, t[..|t| - 1]);
    }
  }

  lemma {:induction false} NonZerosOfAllZero(s: seq<real>)
    requires AllZero(s)
    ensures NonZeros(s) == []
  {
    if s != [] {
      NonZerosOfAllZero(s[..|s| - 1]);
    }
  }

  lemma {:induction false} NonZerosKeepSums(log2: real -> real, c: seq<real>, total: real)
    requires total != 0.0
    ensures Sum(NonZeros(c)) == Sum(c)
    ensures TermSum(log2, NonZeros(c), total) == TermSum(log2, c, total)
  {
    if c != [] {
      var init := c[..|c| - 1];
      var x := c[|c| - 1];
      NonZerosKeepSums(log2, init, total);
      if x == 0.0 {
        assert NonZeros(c) == NonZeros(init) + [];
        assert NonZeros(init) + [] == NonZeros(init);
      } else {
        var r := NonZeros(c);
        assert r == NonZeros(init) + [x];
        assert r[..|r| - 1] == NonZeros(init);
      }
    }
  }

  /** Zero counts contribute nothing: the entropy of a vector is that of its
      non-zero entries. */
  lemma EntropyIgnoresZeros(log2: real -> real, c: seq<real>)
    ensures Entropy(log2, NonZeros(c)) == Entropy(log2, c)
  {
    NonZerosKeepSums(log2, c, 1.0);
    if Sum(c) != 0.0 {
      NonZerosKeepSums(log2, c, Sum(c));
    }
  }

  /** Appending zeros (the padding of a ragged row) does not change the
      entropy. */
  lemma EntropyZeroPadding(log2: real -> real, c: seq<real>, k: nat)
    ensures Entropy(log2, c + Zeros(k)) == Entropy(log2, c)
  {
    NonZerosAppend(c, Zeros(k));
    NonZerosOfAllZero(Zeros(k));
    assert NonZeros(c) + [] == NonZeros(c);
    EntropyIgnoresZeros(log2, c + Zeros(k));
    EntropyIgnoresZeros(log2, c);
  }

  /** Removing a zero from any position does not change the entropy. */
  lemma EntropyZeroRemoval(log2: real -> real, c: seq<real>, i: nat)
    requires i < |c| && c[i] == 0.0
    ensures Entropy(log2, c[..i] + c[i + 1..]) == Entropy(log2, c)
  {
    var left, right := c[..i], c[i + 1..];
    assert c == (left + [0.0]) + right;
    NonZerosAppend(left + [0.0], right);
    NonZerosAppend(left, [0.0]);
    NonZerosAppend(left, right);
    assert [0.0][..0] == [];
    assert NonZeros([0.0]) == [];
    assert NonZeros(left + [0.0]) == NonZeros(left);
    assert NonZeros(c) == NonZeros(left + right);
    EntropyIgnoresZeros(log2, left + right);
    EntropyIgnoresZeros(log2, c);
  }

  /** A vector with a single non-zero count describes a certain outcome and
      has entropy 0. */
  lemma EntropyOfSingleOutcome(log2: real -> real, c: seq<real>, j: nat)
    requires log2(1.0) == 0.0
    requires j < |c| && c[j] != 0.0
    requires forall i :: 0 <= i < |c| && i != j ==> c[i] == 0.0
    ensures Entropy(log2, c) == 0.0
  {
    var x := c[j];
    assert c == c[..j] + ([x] + c[j + 1..]);
    NonZerosAppend(c[..j], [x] + c[j + 1..]);
    NonZerosAppend([x], c[j + 1..]);
    NonZerosOfAllZero(c[..j]);
    NonZerosOfAllZero(c[j + 1..]);
    assert [x][..0] == [];
    assert NonZeros([x]) == [x];
    assert NonZeros(c) == [x];
    EntropyIgnoresZeros(log2, c);
    assert [x][..0] == [];
    assert Sum([x]) == x;
    assert x / x == 1.0;
    assert TermSum(log2, [x], x) == H(log2, 1.0);
  }

  /** An all-zero vector has entropy 0. */
  lemma EntropyOfAllZero(log2: real -> real, c: seq<real>)
    requires AllZero(c)
    ensures Entropy(log2, c) == 0.0
  {
    NonZerosOfAllZero(c);
    EntropyIgnoresZeros(log2, c);
  }

  lemma {:induction false} TermSumOfConstant(log2: real -> real, n: nat, x: real, total: real)
    requires total != 0.0
    ensures TermSum(log2, seq(n, _ => x), total) == (n as real) * H(log2, x / total)
  {
    if n != 0 {
      var c := seq(n, _ => x);
      assert c[..n - 1] == seq(n - 1, _ => x);
      TermSumOfConstant(log2, n - 1, x, total);
    }
  }

  lemma {:induction false} SumOfConstant(n: nat, x: real)
    ensures Sum(seq(n, _ => x)) == (n as real) * x
  {
    if n != 0 {
      assert seq(n, _ => x)[..n - 1] == seq(n - 1, _ => x);
      SumOfConstant(n - 1, x);
    }
  }

  /** n copies of x over a total of n * x are each 1/n. */
  lemma ShareOfUniform(n: real, x: real)
    requires 1.0 <= n && 0.0 < x
    ensures x / (n * x) == 1.0 / n
  {
    DivCancel(x, 1.0, n);
    assert x * 1.0 == x && x * n == n * x;
  }

  /** n equal positive counts give the uniform distribution, whose entropy
      is -log2(1/n), i.e. log2(n) bits. */
  lemma UniformEntropy(log2: real -> real, n: nat, x: real)
    requires 1 <= n && 0.0 < x
    ensures Entropy(log2, seq(n, _ => x)) == -log2(1.0 / (n as real))
  {
    var nr := n as real;
    var c := seq(n, _ => x);
    SumOfConstant(n, x);
    assert Sum(c) == nr * x;
    assert 0.0 < nr * x;
    TermSumOfConstant(log2, n, x, nr * x);
    ShareOfUniform(nr, x);
    var q := 1.0 / nr;
    assert q != 0.0;
    assert H(log2, q) == q * log2(q);
    assert TermSum(log2, c, Sum(c)) == nr * (q * log2(q));
    assert nr * q == 1.0;
    assert nr * (q * log2(q)) == (nr * q) * log2(q);
  }

  // ---------------------------------------------------------------------
  // get_entropy_all as written
  // ---------------------------------------------------------------------

  /** What get_entropy_all is handed: a list of rows (possibly ragged), or
      an ndarray / DataFrame whose rows all have the same width. */
  datatype Matrix = ListRows(rows: seq<seq<real>>) | ArrayRows(rows: seq<seq<real>>)

  /** The largest row length: the width every row is padded to. */
  function MaxLength(rows: seq<seq<real>>): (r: nat)
    requires rows != []
    ensures forall i :: 0 <= i < |rows| ==> |rows[i]| <= r
    ensures exists i :: 0 <= i < |rows| && |rows[i]| == r
  {
    if |rows| == 1 then |rows[0]|
    else
      var m := MaxLength(rows[..|rows| - 1]);
      assert forall i :: 0 <= i < |rows| - 1 ==> rows[..|rows| - 1][i] == rows[i];
      if m < |rows[|rows| - 1]| then |rows[|rows| - 1]| else m
  }

  /** A row extended with zeros on the right up to the given width. */
  function Pad(row: seq<real>, width: nat): seq<real>
    requires |row| <= width
  {
    row + Zeros(width - |row|)
  }

  /** The row total used as divisor: the total itself when positive, and 1
      in its place when it is zero. */
  function SafeSum(row: seq<real>): (t: real)
    ensures 0.0 < t
  {
    if 0.0 < Sum(row) then Sum(row) else 1.0
  }

  /** The entry of `term` for probability p: p * log2(p) where the mask
      p > 0 holds, the zero the array was initialised with elsewhere. */
  function MaskedTerm(log2: real -> real, p: real): (r: real)
    ensures 0.0 <= p ==> r == H(log2, p)
    ensures p < 0.0 ==> r == 0.0
  {
    if 0.0 < p then p * log2(p) else 0.0
  }

  /** The masked terms of one row, summed along the row. */
  function MaskedSum(log2: real -> real, row: seq<real>, t: real): real
    requires 0.0 < t
  {
    if row == [] then 0.0
    else MaskedSum(log2, row[..|row| - 1], t) + MaskedTerm(log2, row[|row| - 1] / t)
  }

  lemma {:induction false} MaskedSumIsTermSum(log2: real -> real, row: seq<real>, t: real)
    requires NonNeg(row) && 0.0 < t
    ensures MaskedSum(log2, row, t) == TermSum(log2, row, t)
  {
    if row != [] {
      MaskedSumIsTermSum(log2, row[..|row| - 1], t);
      assert 0.0 <= row[|row| - 1] / t;
    }
  }

  lemma {:induction false} TermSumOfAllZero(log2: real -> real, row: seq<real>, t: real)
    requires AllZero(row) && t != 0.0
    ensures TermSum(log2, row, t) == 0.0
  {
    if row != [] {
      TermSumOfAllZero(log2, row[..|row| - 1], t);
    }
  }

  /** Safe division and the p > 0 mask give the skip-zero-terms entropy,
      including 0 for a row that sums to zero. */
  lemma MaskedRowIsEntropy(log2: real -> real, row: seq<real>)
    requires NonNeg(row)
    ensures -MaskedSum(log2, row, SafeSum(row)) == Entropy(log2, row)
  {
    SumNonNeg(row);
    MaskedSumIsTermSum(log2, row, SafeSum(row));
    if Sum(row) == 0.0 {
      SumZeroIffAllZero(row);
      TermSumOfAllZero(log2, row, 1.0);
    }
  }

  /** The rows zero-padded to width d, as the list comprehension builds them. */
  function PadRows(rows: seq<seq<real>>, d: nat): (r: seq<seq<real>>)
    requires forall i :: 0 <= i < |rows| ==> |rows[i]| <= d
    ensures |r| == |rows|
    ensures forall i :: 0 <= i < |r| ==> |r[i]| == d && r[i] == Pad(rows[i], d)
  {
    seq(|rows|, i requires 0 <= i < |rows| => Pad(rows[i], d))
  }

  /** term[i, k] for every cell: zero-initialised, then p * log2(p) written
      through the mask p > 0, where p = rows[i][k] / safe[i]. */
  method MaskedTerms(log2: real -> real, rows: seq<seq<real>>, d: nat, safe: seq<real>)
    returns (term: array2<real>)
    requires |safe| == |rows|
    requires forall i :: 0 <= i < |rows| ==> |rows[i]| == d && 0.0 < safe[i]
    ensures fresh(term) && term.Length0 == |rows| && term.Length1 == d
    ensures forall i, k :: 0 <= i < |rows| && 0 <= k < d ==>
              term[i, k] == MaskedTerm(log2, rows[i][k] / safe[i])
  {
    var n := |rows|;
    term := new real[n, d]((i, k) => 0.0);
    for i := 0 to n
      invariant forall i', k' :: 0 <= i' < n && 0 <= k' < d ==>
                  term[i', k'] == if i' < i then MaskedTerm(log2, rows[i'][k'] / safe[i']) else 0.0
    {
      for k := 0 to d
        invariant forall i', k' :: 0 <= i' < n && 0 <= k' < d ==>
                    term[i', k'] == if i' < i || (i' == i && k' < k)
                                    then MaskedTerm(log2, rows[i'][k'] / safe[i']) else 0.0
      {
        var p := rows[i][k] / safe[i];
        if 0.0 < p {
          term[i, k] := p * log2(p);
        }
      }
    }
  }

  /** Steps 1 to 5 of get_entropy_all on a rectangular non-negative matrix:
      safe row sums, masked terms, and minus their row-wise sums. The result
      is the entropy of every row. */
  method RowEntropies(log2: real -> real, rows: seq<seq<real>>, d: nat) returns (e: seq<real>)
    requires forall i :: 0 <= i < |rows| ==> |rows[i]| == d && NonNeg(rows[i])
    ensures |e| == |rows|
    ensures forall i :: 0 <= i < |rows| ==> e[i] == Entropy(log2, rows[i])
  {
    var n := |rows|;
    var safe := seq(n, i requires 0 <= i < n => SafeSum(rows[i]));
    var term := MaskedTerms(log2, rows, d, safe);
    var entropies := new real[n];
    for i := 0 to n
      modifies entropies
      invariant forall i' :: 0 <= i' < i ==> entropies[i'] == Entropy(log2, rows[i'])
    {
      var acc := 0.0;
      for k := 0 to d
        invariant acc == MaskedSum(log2, rows[i][..k], safe[i])
      {
        assert rows[i][..k + 1][..k] == rows[i][..k];
        assert MaskedSum(log2, rows[i][..k + 1], safe[i]) ==
               MaskedSum(log2, rows[i][..k], safe[i]) + MaskedTerm(log2, rows[i][k] / safe[i]);
        acc := acc + term[i, k];
      }
      assert rows[i][..d] == rows[i];
      MaskedRowIsEntropy(log2, rows[i]);
      entropies[i] := -acc;
    }
    e := entropies[..];
  }

  /** get_entropy_all: one entropy per row, in row order. List rows are
      zero-padded to the longest row first, and an empty list fails for
      want of a longest row. Each entry is the entropy of that row as given, and equals
      what get_entropy returns for the row as a list. */
  method GetEntropyAll(log2: real -> real, matrix: Matrix) returns (r: Result<seq<real>>)
    requires matrix.ArrayRows? ==> forall i, j :: 0 <= i < j < |matrix.rows| ==> |matrix.rows[i]| == |matrix.rows[j]|
    requires forall i :: 0 <= i < |matrix.rows| ==> NonNeg(matrix.rows[i])
    ensures r.Failure? <==> matrix.ListRows? && matrix.rows == []
    ensures r.Failure? ==> r.error == EmptyRowList
    ensures r.Success? ==> |r.value| == |matrix.rows|
    ensures r.Success? ==> forall i :: 0 <= i < |r.value| ==> r.value[i] == Entropy(log2, matrix.rows[i])
    ensures r.Success? ==> forall i :: 0 <= i < |r.value| ==>
              GetEntropy(log2, ListCounts(matrix.rows[i])) == Success(r.value[i])
  {
    var given := matrix.rows;
    var rows: seq<seq<real>>;
    var d: nat;
    if matrix.ListRows? {
      if given == [] {
        return Failure(EmptyRowList);
      }
      d := MaxLength(given);
      rows := PadRows(given, d);
      forall i | 0 <= i < |given|
        ensures NonNeg(rows[i]) && Entropy(log2, rows[i]) == Entropy(log2, given[i])
      {
        EntropyZeroPadding(log2, given[i], d - |given[i]|);
      }
    } else {
      rows := given;
      d := if rows == [] then 0 else |rows[0]|;
      assert forall i :: 0 <= i < |rows| ==> |rows[i]| == d by {
        forall i | 0 <= i < |rows| ensures |rows[i]| == d {
          if i != 0 {
            assert |rows[0]| == |rows[i]|;
          }
        }
      }
    }
    var e := RowEntropies(log2, rows, d);
    forall i | 0 <= i < |given|
      ensures GetEntropy(log2, ListCounts(given[i])) == Success(Entropy(log2, given[i]))
    {
      GetEntropyIsEntropy(log2, given[i]);
    }
    r := Success(e);
  }
}
