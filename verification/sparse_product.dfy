/** The matrix product on the sparse model. The value at (r, c) is a sum over
    the stored keys of the left operand, in no particular order. */
module SparseProduct {
  import opened SparseMaps

  /** What the stored key k of a contributes to the product at (r, c). */
  function Term(a: Elements, b: Elements, k: Key, r: int, c: int): int
  {
    if k.0 == r then Get(a, k) * Get(b, (k.1, c)) else 0
  }

  /** The sum of the contributions of the keys in `keys`, taken in an
      arbitrary order. */
  ghost function RowDot(a: Elements, b: Elements, keys: set<Key>, r: int, c: int): int
    decreases keys
  {
    if keys == {} then 0
    else
      var k :| k in keys;
      Term(a, b, k, r, c) + RowDot(a, b, keys - {k}, r, c)
  }

  /** Any key may be taken out first: the sum does not depend on the order
      in which the stored keys are visited. */
  lemma {:induction false} RowDotRemove(a: Elements, b: Elements, keys: set<Key>, r: int, c: int, k: Key)
    requires k in keys
    ensures RowDot(a, b, keys, r, c) == Term(a, b, k, r, c) + RowDot(a, b, keys - {k}, r, c)
    decreases keys
  {
    var x :| x in keys && RowDot(a, b, keys, r, c) == Term(a, b, x, r, c) + RowDot(a, b, keys - {x}, r, c);
    if x != k {
      RowDotRemove(a, b, keys - {x}, r, c, k);
      RowDotRemove(a, b, keys - {k}, r, c, x);
      assert keys - {x} - {k} == keys - {k} - {x};
    }
  }

  /** Keys of other rows contribute nothing. */
  lemma {:induction false} RowDotOtherRows(a: Elements, b: Elements, keys: set<Key>, r: int, c: int)
    requires forall k :: k in keys ==> k.0 != r
    ensures RowDot(a, b, keys, r, c) == 0
    decreases keys
  {
    if keys != {} {
      var k :| k in keys;
      RowDotRemove(a, b, keys, r, c, k);
      RowDotOtherRows(a, b, keys - {k}, r, c);
    }
  }

  /** The candidate coordinates of the product: a row of a stored key of a,
      and a column in [0, cols). */
  function Candidates(a: Elements, cols: int): set<Key>
  {
    set k, c | k in a.Keys && 0 <= c < cols :: (k.0, c)
  }

  /** The product of a by b, for a right operand with `cols` columns. */
  ghost function Product(a: Elements, b: Elements, cols: int): Elements
  {
    map k | k in Candidates(a, cols) && RowDot(a, b, a.Keys, k.0, k.1) != 0 :: RowDot(a, b, a.Keys, k.0, k.1)
  }

  /** Every value of the product is the sum, over the stored keys (r, j) of
      a, of a[(r, j)] * b[(j, c)]; outside the columns of b it is 0. */
  lemma ProductAt(a: Elements, b: Elements, cols: int, k: Key)
    ensures Get(Product(a, b, cols), k) == if 0 <= k.1 < cols then RowDot(a, b, a.Keys, k.0, k.1) else 0
  {
    if 0 <= k.1 < cols && k !in Candidates(a, cols) {
      assert forall j :: j in a.Keys ==> (j.0, k.1) in Candidates(a, cols);
      RowDotOtherRows(a, b, a.Keys, k.0, k.1);
    }
  }

  /** The product never stores a zero. */
  lemma ProductNoZero(a: Elements, b: Elements, cols: int)
    ensures NoZero(Product(a, b, cols))
  {
  }

  /** The dense dot product of row r of a and column c of b, over the
      column indices [0, n) of a, restricted to the coordinates in `keys`. */
  function MaskedDot(a: Elements, b: Elements, keys: set<Key>, r: int, c: int, n: int): int
    decreases n
  {
    if n <= 0 then 0
    else
      MaskedDot(a, b, keys, r, c, n - 1)
      + (if (r, n - 1) in keys then Get(a, (r, n - 1)) * Get(b, (n - 1, c)) else 0)
  }

  /** The textbook definition: sum of a[r][j] * b[j][c] for j in [0, n). */
  function DenseDot(a: Elements, b: Elements, r: int, c: int, n: int): int
    decreases n
  {
    if n <= 0 then 0
    else DenseDot(a, b, r, c, n - 1) + Get(a, (r, n - 1)) * Get(b, (n - 1, c))
  }

  lemma {:induction false} MaskedDotRemove(a: Elements, b: Elements, keys: set<Key>, r: int, c: int, n: int, k: Key)
    requires k in keys
    ensures MaskedDot(a, b, keys, r, c, n)
         == MaskedDot(a, b, keys - {k}, r, c, n) + (if 0 <= k.1 < n then Term(a, b, k, r, c) else 0)
    decreases n
  {
    if n > 0 {
      MaskedDotRemove(a, b, keys, r, c, n - 1, k);
    }
  }

  lemma {:induction false} RowDotIsMasked(a: Elements, b: Elements, keys: set<Key>, r: int, c: int, n: int)
    requires forall k :: k in keys ==> 0 <= k.1 < n
    ensures RowDot(a, b, keys, r, c) == MaskedDot(a, b, keys, r, c, n)
    decreases keys
  {
    if keys == {} {
      MaskedDotEmpty(a, b, r, c, n);
    } else {
      var k :| k in keys;
      RowDotRemove(a, b, keys, r, c, k);
      MaskedDotRemove(a, b, keys, r, c, n, k);
      RowDotIsMasked(a, b, keys - {k}, r, c, n);
    }
  }

  lemma {:induction false} MaskedDotEmpty(a: Elements, b: Elements, r: int, c: int, n: int)
    ensures MaskedDot(a, b, {}, r, c, n) == 0
    decreases n
  {
    if n > 0 {
      MaskedDotEmpty(a, b, r, c, n - 1);
    }
  }

  lemma {:induction false} MaskedDotAllKeys(a: Elements, b: Elements, r: int, c: int, n: int)
    ensures MaskedDot(a, b, a.Keys, r, c, n) == DenseDot(a, b, r, c, n)
    decreases n
  {
    if n > 0 {
      MaskedDotAllKeys(a, b, r, c, n - 1);
    }
  }

  /** When every stored key of a has its column in [0, n) -- a has n columns
      and its entries lie inside them -- the product is the textbook one:
      the value at (r, c) is the sum of a[r][j] * b[j][c] over j in [0, n). */
  lemma ProductIsDense(a: Elements, b: Elements, n: int, cols: int, r: int, c: int)
    requires forall k :: k in a ==> 0 <= k.1 < n
    requires 0 <= c < cols
    ensures Get(Product(a, b, cols), (r, c)) == DenseDot(a, b, r, c, n)
  {
    ProductAt(a, b, cols, (r, c));
    RowDotIsMasked(a, b, a.Keys, r, c, n);
    MaskedDotAllKeys(a, b, r, c, n);
  }
}
