/** Coefficient-wise sum and the convolution product (C.c
    `add_polynomials`, `multiply_polynomials`). A polynomial is its array of
    coefficients, index = degree, 0..100 for the operands and 0..200 for a
    product. */
module PolyArith {
  import opened PolyParse

  const ProductDegree: nat := 2 * MaxDegree

  function Add(a: seq<int>, b: seq<int>): (r: seq<int>)
    requires |a| > MaxDegree && |b| > MaxDegree
    ensures |r| == MaxDegree + 1
  {
    seq(MaxDegree + 1, i requires 0 <= i <= MaxDegree => a[i] + b[i])
  }

  /** The product term of `a[i]` with the `b` coefficient it meets at
      degree `k`, or 0 when that coefficient is out of range. */
  function Cross(a: seq<int>, b: seq<int>, k: int, i: nat): int
    requires |a| > MaxDegree && |b| > MaxDegree && i <= MaxDegree
  {
    if 0 <= k - i <= MaxDegree then a[i] * b[k - i] else 0
  }

  /** `Σ_{i < m, i + j = k} a[i] * b[j]`, the rows of the double loop
      finished so far. */
  function RowSum(a: seq<int>, b: seq<int>, k: int, m: nat): int
    requires |a| > MaxDegree && |b| > MaxDegree && m <= MaxDegree + 1
  {
    if m == 0 then 0 else RowSum(a, b, k, m - 1) + Cross(a, b, k, m - 1)
  }

  /** The product: coefficient `k` is `Σ_{i + j = k} a[i] * b[j]`. */
  function Product(a: seq<int>, b: seq<int>): (r: seq<int>)
    requires |a| > MaxDegree && |b| > MaxDegree
    ensures |r| == ProductDegree + 1
  {
    seq(ProductDegree + 1, k => RowSum(a, b, k, MaxDegree + 1))
  }

  /** `add_polynomials`: writes `a[i] + b[i]` for i in 0..100 and nothing
      else. */
  method AddPolynomials(a: array<int>, b: array<int>, result: array<int>)
    requires a.Length > MaxDegree && b.Length > MaxDegree && result.Length > MaxDegree
    modifies result
    ensures result[..MaxDegree + 1] == Add(old(a[..]), old(b[..]))
    ensures result[MaxDegree + 1..] == old(result[MaxDegree + 1..])
  {
    ghost var sum := Add(a[..], b[..]);
    var i := 0;
    while i <= MaxDegree
      invariant i <= MaxDegree + 1
      invariant forall k :: 0 <= k < i ==> result[k] == sum[k]
      invariant forall k :: i <= k <= MaxDegree ==> a[k] == old(a[k]) && b[k] == old(b[k])
      invariant result[MaxDegree + 1..] == old(result[MaxDegree + 1..])
    {
      result[i] := a[i] + b[i];
      i := i + 1;
    }
  }

  /** `multiply_polynomials`: zeroes the 201 result coefficients, then adds
      `a[i] * b[j]` into `result[i + j]` for every pair. */
  method MultiplyPolynomials(a: array<int>, b: array<int>, result: array<int>)
    requires a.Length == MaxDegree + 1 && b.Length == MaxDegree + 1
    requires result.Length == ProductDegree + 1
    modifies result
    ensures result[..] == Product(a[..], b[..])
  {
    ZeroFill(result);
    var i := 0;
    while i <= MaxDegree
      invariant i <= MaxDegree + 1
      invariant forall k :: 0 <= k <= ProductDegree ==> result[k] == RowSum(a[..], b[..], k, i)
    {
      var j := 0;
      while j <= MaxDegree
        invariant j <= MaxDegree + 1
        invariant forall k :: 0 <= k <= ProductDegree ==>
                    result[k] == RowSum(a[..], b[..], k, i) + (if i <= k < i + j then a[i] * b[k - i] else 0)
      {
        if i + j <= ProductDegree {
          result[i + j] := result[i + j] + a[i] * b[j];
        }
        j := j + 1;
      }
      i := i + 1;
    }
  }

  /** Every coefficient above degree `d` is zero. */
  predicate DegreeAtMost(a: seq<int>, d: nat) {
    forall i :: d < i < |a| ==> a[i] == 0
  }

  /** The constant polynomial 1. */
  function One(): (r: seq<int>)
    ensures |r| == MaxDegree + 1
  {
    Zeros(MaxDegree + 1)[0 := 1]
  }

  lemma {:induction false} RowSumOne(a: seq<int>, k: int, m: nat)
    requires |a| > MaxDegree && m <= MaxDegree + 1
    ensures RowSum(a, One(), k, m) == if 0 <= k < m then a[k] else 0
  {
    if m > 0 {
      RowSumOne(a, k, m - 1);
    }
  }

  /** Multiplying by 1 gives the polynomial back, with zeros above degree
      100. */
  lemma ProductByOne(a: seq<int>)
    requires |a| == MaxDegree + 1
    ensures Product(a, One()) == a + Zeros(MaxDegree)
  {
    forall k | 0 <= k <= ProductDegree
      ensures Product(a, One())[k] == (a + Zeros(MaxDegree))[k]
    {
      RowSumOne(a, k, MaxDegree + 1);
    }
  }

  lemma {:induction false} RowSumLeading(a: seq<int>, b: seq<int>, da: nat, db: nat, k: int, m: nat)
    requires |a| == MaxDegree + 1 && |b| == MaxDegree + 1 && m <= MaxDegree + 1
    requires da <= MaxDegree && db <= MaxDegree
    requires DegreeAtMost(a, da) && DegreeAtMost(b, db)
    requires k >= da + db
    ensures RowSum(a, b, k, m) == if k == da + db && da < m then a[da] * b[db] else 0
  {
    if m > 0 {
      RowSumLeading(a, b, da, db, k, m - 1);
      var i := m - 1;
      if i < da {
        assert k - i > db;
      } else if i > da {
        assert a[i] == 0;
      }
    }
  }

  /** The product of polynomials of degree at most `da` and `db` has degree
      at most `da + db`, and its coefficient there is the product of the two
      leading coefficients. */
  lemma ProductLeading(a: seq<int>, b: seq<int>, da: nat, db: nat)
    requires |a| == MaxDegree + 1 && |b| == MaxDegree + 1
    requires da <= MaxDegree && db <= MaxDegree
    requires DegreeAtMost(a, da) && DegreeAtMost(b, db)
    ensures Product(a, b)[da + db] == a[da] * b[db]
    ensures DegreeAtMost(Product(a, b), da + db)
  {
    RowSumLeading(a, b, da, db, da + db, MaxDegree + 1);
    forall k | da + db < k <= ProductDegree
      ensures Product(a, b)[k] == 0
    {
      RowSumLeading(a, b, da, db, k, MaxDegree + 1);
    }
  }

  /** Each partial row sum of the product splits over a sum in the second
      operand. */
  lemma {:induction false} RowSumDistributes(a: seq<int>, b: seq<int>, c: seq<int>, k: int, m: nat)
    requires |a| > MaxDegree && |b| > MaxDegree && |c| > MaxDegree && m <= MaxDegree + 1
    ensures RowSum(a, Add(b, c), k, m) == RowSum(a, b, k, m) + RowSum(a, c, k, m)
  {
    if m > 0 {
      RowSumDistributes(a, b, c, k, m - 1);
      var i := m - 1;
      if 0 <= k - i <= MaxDegree {
        assert Add(b, c)[k - i] == b[k - i] + c[k - i];
        assert a[i] * (b[k - i] + c[k - i]) == a[i] * b[k - i] + a[i] * c[k - i];
      }
    }
  }

  /** Multiplication distributes over addition: multiplying by a sum gives
      the sum of the two products, coefficient by coefficient. */
  lemma ProductDistributes(a: seq<int>, b: seq<int>, c: seq<int>)
    requires |a| > MaxDegree && |b| > MaxDegree && |c| > MaxDegree
    ensures forall k :: 0 <= k <= ProductDegree ==>
              Product(a, Add(b, c))[k] == Product(a, b)[k] + Product(a, c)[k]
  {
    forall k | 0 <= k <= ProductDegree
      ensures Product(a, Add(b, c))[k] == Product(a, b)[k] + Product(a, c)[k]
    {
      RowSumDistributes(a, b, c, k, MaxDegree + 1);
    }
  }
}
