/** The SparseMatrix class: its dimensions and a map holding only the
    nonzero entries, updated in place through SetElement. */
module Matrices {
  import opened Outcome
  import opened SparseMaps
  import opened SparseProduct
  import opened MatrixText

  class SparseMatrix {
    var numRows: int
    var numCols: int
    var elements: Elements

    /** The sparsity invariant every method keeps. */
    ghost predicate Valid()
      reads this
    {
      NoZero(elements)
    }

    /** A matrix with the given dimensions and no stored entry. */
    constructor (numRows: int, numCols: int)
      ensures this.numRows == numRows && this.numCols == numCols
      ensures elements == map[]
      ensures Valid()
    {
      this.numRows := numRows;
      this.numCols := numCols;
      elements := map[];
    }

    /** The value at (row, col): the stored one, or 0 when none is stored. */
    function GetElement(row: int, col: int): (v: int)
      reads this
      ensures (row, col) in elements ==> v == elements[(row, col)]
      ensures (row, col) !in elements ==> v == 0
      ensures Valid() ==> (v != 0 <==> (row, col) in elements)
    {
      Get(elements, (row, col))
    }

    /** Stores value at (row, col); a zero removes the entry instead. */
    method SetElement(row: int, col: int, value: int)
      requires Valid()
      modifies this`elements
      ensures Valid()
      ensures elements == Set(old(elements), (row, col), value)
      ensures GetElement(row, col) == value
      ensures forall r, c :: (r, c) != (row, col) ==> GetElement(r, c) == old(GetElement(r, c))
    {
      if value != 0 {
        elements := elements[(row, col) := value];
      } else if (row, col) in elements {
        elements := elements - {(row, col)};
      }
    }

    /** The elementwise sum, built in two passes: every key of this matrix,
        then the keys only the other matrix has. */
    method Add(other: SparseMatrix) returns (r: Result<SparseMatrix>)
      requires Valid() && other.Valid()
      ensures r.Ok? <==> numRows == other.numRows && numCols == other.numCols
      ensures r.Err? ==> r.error == DimensionMismatch
      ensures r.Ok? ==> fresh(r.value) && r.value.Valid()
      ensures r.Ok? ==> r.value.numRows == numRows && r.value.numCols == numCols
      ensures r.Ok? ==> r.value.elements == Sum(elements, other.elements)
    {
      if numRows != other.numRows || numCols != other.numCols {
        return Err(DimensionMismatch);
      }
      var result := new SparseMatrix(numRows, numCols);
      var a, b := elements, other.elements;

      var todo := a.Keys;
      while todo != {}
        invariant fresh(result) && result.Valid()
        invariant result.numRows == numRows && result.numCols == numCols
        invariant todo <= a.Keys
        invariant forall k :: Get(result.elements, k) ==
                    if k in a.Keys - todo then Get(a, k) + Get(b, k) else 0
        decreases todo
      {
        var k :| k in todo;
        result.SetElement(k.0, k.1, a[k] + other.GetElement(k.0, k.1));
        todo := todo - {k};
      }

      todo := b.Keys;
      while todo != {}
        invariant fresh(result) && result.Valid()
        invariant result.numRows == numRows && result.numCols == numCols
        invariant todo <= b.Keys
        invariant forall k :: Get(result.elements, k) ==
                    if k in a.Keys || k in b.Keys - todo then Get(a, k) + Get(b, k) else 0
        decreases todo
      {
        var k :| k in todo;
        if k !in a {
          result.SetElement(k.0, k.1, b[k]);
        }
        todo := todo - {k};
      }

      SameValuesSameMap(result.elements, Sum(a, b));
      return Ok(result);
    }

    /** The elementwise difference, built in the same two passes; a key only
        the other matrix has is stored negated. */
    method Subtract(other: SparseMatrix) returns (r: Result<SparseMatrix>)
      requires Valid() && other.Valid()
      ensures r.Ok? <==> numRows == other.numRows && numCols == other.numCols
      ensures r.Err? ==> r.error == DimensionMismatch
      ensures r.Ok? ==> fresh(r.value) && r.value.Valid()
      ensures r.Ok? ==> r.value.numRows == numRows && r.value.numCols == numCols
      ensures r.Ok? ==> r.value.elements == Difference(elements, other.elements)
    {
      if numRows != other.numRows || numCols != other.numCols {
        return Err(DimensionMismatch);
      }
      var result := new SparseMatrix(numRows, numCols);
      var a, b := elements, other.elements;

      var todo := a.Keys;
      while todo != {}
        invariant fresh(result) && result.Valid()
        invariant result.numRows == numRows && result.numCols == numCols
        invariant todo <= a.Keys
        invariant forall k :: Get(result.elements, k) ==
                    if k in a.Keys - todo then Get(a, k) - Get(b, k) else 0
        decreases todo
      {
        var k :| k in todo;
        result.SetElement(k.0, k.1, a[k] - other.GetElement(k.0, k.1));
        todo := todo - {k};
      }

      todo := b.Keys;
      while todo != {}
        invariant fresh(result) && result.Valid()
        invariant result.numRows == numRows && result.numCols == numCols
        invariant todo <= b.Keys
        invariant forall k :: Get(result.elements, k) ==
                    if k in a.Keys || k in b.Keys - todo then Get(a, k) - Get(b, k) else 0
        decreases todo
      {
        var k :| k in todo;
        if k !in a {
          result.SetElement(k.0, k.1, -b[k]);
        }
        todo := todo - {k};
      }

      SameValuesSameMap(result.elements, Difference(a, b));
      return Ok(result);
    }

    /** The matrix product: for every stored entry (row1, col1) of this
        matrix and every column col2 of the other, the product with the
        other's (col1, col2) is added into (row1, col2). */
    method Multiply(other: SparseMatrix) returns (r: Result<SparseMatrix>)
      requires Valid() && other.Valid()
      ensures r.Ok? <==> numCols == other.numRows
      ensures r.Err? ==> r.error == DimensionMismatch
      ensures r.Ok? ==> fresh(r.value) && r.value.Valid()
      ensures r.Ok? ==> r.value.numRows == numRows && r.value.numCols == other.numCols
      ensures r.Ok? ==> r.value.elements == Product(elements, other.elements, other.numCols)
    {
      if numCols != other.numRows {
        return Err(DimensionMismatch);
      }
      var result := new SparseMatrix(numRows, other.numCols);
      var a, b, p := elements, other.elements, other.numCols;

      var todo := a.Keys;
      while todo != {}
        invariant fresh(result) && result.Valid()
        invariant result.numRows == numRows && result.numCols == p
        invariant todo <= a.Keys
        invariant forall k :: Get(result.elements, k) ==
                    if 0 <= k.1 < p then RowDot(a, b, a.Keys - todo, k.0, k.1) else 0
        decreases todo
      {
        var k1 :| k1 in todo;
        ghost var done := a.Keys - todo;
        var col2 := 0;
        while col2 < p
          invariant fresh(result) && result.Valid()
          invariant result.numRows == numRows && result.numCols == p
          invariant forall k :: Get(result.elements, k) ==
                      if 0 <= k.1 < p then
                      RowDot(a, b, done, k.0, k.1) + (if k.1 < col2 then Term(a, b, k1, k.0, k.1) else 0)
                      else 0
          decreases p - col2
        {
          var value2 := other.GetElement(k1.1, col2);
          if value2 != 0 {
            result.SetElement(k1.0, col2, result.GetElement(k1.0, col2) + a[k1] * value2);
          }
          col2 := col2 + 1;
        }
        forall c: int, row: int | 0 <= c < p
          ensures RowDot(a, b, done + {k1}, row, c) == RowDot(a, b, done, row, c) + Term(a, b, k1, row, c)
        {
          RowDotRemove(a, b, done + {k1}, row, c, k1);
          assert done + {k1} - {k1} == done;
        }
        assert a.Keys - (todo - {k1}) == done + {k1};
        todo := todo - {k1};
      }

      assert a.Keys - todo == a.Keys;
      forall k
        ensures Get(result.elements, k) == Get(Product(a, b, p), k)
      {
        ProductAt(a, b, p, k);
      }
      ProductNoZero(a, b, p);
      SameValuesSameMap(result.elements, Product(a, b, p));
      return Ok(result);
    }

    /** Reads a matrix text into this object, as the loader does: the two
        header values, then every body line in order, each triple stored
        through SetElement. Fails on the first malformed line. */
    method Load(lines: seq<string>) returns (ok: bool)
      requires Valid()
      modifies this
      ensures Valid()
      ensures ok <==> Parse(lines).Ok?
      ensures ok ==> numRows == Parse(lines).value.rows && numCols == Parse(lines).value.cols
      ensures ok ==> elements == Install(old(elements), Parse(lines).value.entries)
    {
      if |lines| == 0 {
        return false;
      }
      var rows := HeaderValue(lines[0]);
      if rows.None? {
        return false;
      }
      numRows := rows.value;
      if |lines| == 1 {
        return false;
      }
      var cols := HeaderValue(lines[1]);
      if cols.None? {
        return false;
      }
      numCols := cols.value;
      ok := LoadBody(lines);
    }

    /** The loader's loop over the lines after the header: every triple
        stored through SetElement, in order; it stops at the first
        malformed line. */
    method LoadBody(lines: seq<string>) returns (ok: bool)
      requires Valid() && |lines| >= 2
      modifies this`elements
      ensures Valid()
      ensures ok <==> ParseBody(lines[2..]).Some?
      ensures ok ==> elements == Install(old(elements), ParseBody(lines[2..]).value)
    {
      ghost var ts: seq<Triple> := [];
      assert lines[2..2] == [];
      assert LineEntries([]) == [];
      var i := 2;
      while i < |lines|
        invariant 2 <= i <= |lines|
        invariant Valid()
        invariant ParseBody(lines[2..i]) == Some(ts)
        invariant elements == Install(old(elements), ts)
        decreases |lines| - i
      {
        ParseBodyStep(lines, i, ts);
        var stored := StoreLine(lines[i]);
        if !stored {
          return false;
        }
        var e := LineEntry(lines[i]).value;
        InstallAppend(old(elements), ts, e);
        ts := ts + e;
        i := i + 1;
      }
      assert lines[2..i] == lines[2..];
      return true;
    }

    /** One pass of the loader's loop: a blank line (after strip) is
        skipped, a line that starts with a triple has it stored through
        SetElement, any other line fails. */
    method StoreLine(line: string) returns (ok: bool)
      requires Valid()
      modifies this`elements
      ensures Valid()
      ensures ok <==> LineEntry(line).Some?
      ensures ok ==> elements == Install(old(elements), LineEntry(line).value)
      ensures !ok ==> elements == old(elements)
    {
      var s := Strip(line);
      if s == [] {
        return true;
      }
      var m := MatchTriple(s);
      if m.None? {
        return false;
      }
      SetElement(m.value.row, m.value.col, m.value.value);
      return true;
    }

    /** SparseMatrix(matrixFilePath=...): a matrix read from the lines of a
        file, or the format error the loader reports. */
    static method FromLines(lines: seq<string>) returns (r: Result<SparseMatrix>)
      ensures r.Ok? <==> Parse(lines).Ok?
      ensures r.Err? ==> r.error == FormatError
      ensures r.Ok? ==> fresh(r.value) && r.value.Valid()
      ensures r.Ok? ==> r.value.numRows == Parse(lines).value.rows
      ensures r.Ok? ==> r.value.numCols == Parse(lines).value.cols
      ensures r.Ok? ==> r.value.elements == Install(map[], Parse(lines).value.entries)
    {
      var m := new SparseMatrix(0, 0);
      var ok := m.Load(lines);
      if !ok {
        return Err(FormatError);
      }
      return Ok(m);
    }
  }
}
