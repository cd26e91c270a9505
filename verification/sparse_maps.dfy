/** The mathematical model of a sparse matrix: a finite map from (row, col)
    to a value, in which an absent key stands for the value 0. */
module SparseMaps {

  type Key = (int, int)
  type Elements = map<Key, int>

  /** One (row, col, value) entry as it appears in the input text. */
  datatype Triple = Triple(row: int, col: int, value: int)

  /** The sparsity invariant: no stored value is 0. */
  ghost predicate NoZero(m: Elements)
  {
    forall k :: k in m ==> m[k] != 0
  }

  /** The value at k: the stored value, or 0 when k is absent. */
  function Get(m: Elements, k: Key): (v: int)
    ensures k in m ==> v == m[k]
    ensures k !in m ==> v == 0
    ensures NoZero(m) ==> (v != 0 <==> k in m)
  {
    if k in m then m[k] else 0
  }

  /** Storing v at k: a nonzero v is stored, a zero v removes k. */
  function Set(m: Elements, k: Key, v: int): (r: Elements)
    ensures Get(r, k) == v
    ensures k in r <==> v != 0
    ensures forall j :: j != k ==> Get(r, j) == Get(m, j)
    ensures forall j :: j != k ==> (j in r <==> j in m)
    ensures v == 0 && k !in m ==> r == m
    ensures NoZero(m) ==> NoZero(r)
  {
    if v != 0 then m[k := v] else m - {k}
  }

  /** Two maps without stored zeros that agree on every value are equal:
      a sparse matrix is determined by the values it reads as. */
  lemma SameValuesSameMap(m1: Elements, m2: Elements)
    requires NoZero(m1) && NoZero(m2)
    requires forall k :: Get(m1, k) == Get(m2, k)
    ensures m1 == m2
  {
    forall k | k in m1
      ensures k in m2 && m2[k] == m1[k]
    {
      assert Get(m1, k) == m1[k];
      assert Get(m2, k) == Get(m1, k);
    }
    forall k | k in m2
      ensures k in m1
    {
      assert Get(m1, k) == Get(m2, k);
    }
  }

  /** Elementwise sum: the union of the two key sets, zero sums dropped. */
  function Sum(a: Elements, b: Elements): (s: Elements)
    ensures NoZero(s)
    ensures forall k :: Get(s, k) == Get(a, k) + Get(b, k)
    ensures s.Keys <= a.Keys + b.Keys
  {
    map k | k in a.Keys + b.Keys && Get(a, k) + Get(b, k) != 0 :: Get(a, k) + Get(b, k)
  }

  /** Elementwise difference, zero differences dropped. */
  function Difference(a: Elements, b: Elements): (d: Elements)
    ensures NoZero(d)
    ensures forall k :: Get(d, k) == Get(a, k) - Get(b, k)
    ensures d.Keys <= a.Keys + b.Keys
  {
    map k | k in a.Keys + b.Keys && Get(a, k) - Get(b, k) != 0 :: Get(a, k) - Get(b, k)
  }

  /** Addition does not depend on the order of the operands. */
  lemma SumCommutes(a: Elements, b: Elements)
    ensures Sum(a, b) == Sum(b, a)
  {
    SameValuesSameMap(Sum(a, b), Sum(b, a));
  }

  /** Subtracting a matrix from itself cancels every entry. */
  lemma DifferenceWithItself(a: Elements)
    ensures Difference(a, a) == map[]
  {
    SameValuesSameMap(Difference(a, a), map[]);
  }

  /** Subtracting is adding the negation. */
  lemma DifferenceIsSumOfNegation(a: Elements, b: Elements)
    ensures Difference(a, b) == Sum(a, Negation(b))
  {
    SameValuesSameMap(Difference(a, b), Sum(a, Negation(b)));
  }

  /** Every stored value negated. */
  function Negation(b: Elements): (n: Elements)
    ensures NoZero(b) ==> NoZero(n)
    ensures forall k :: Get(n, k) == -Get(b, k)
  {
    map k | k in b :: -b[k]
  }

  /** Installing entries one after another, as the loader does. */
  function Install(m: Elements, ts: seq<Triple>): (r: Elements)
    ensures NoZero(m) ==> NoZero(r)
  {
    if ts == [] then m
    else
      var t := ts[|ts| - 1];
      Set(Install(m, ts[..|ts| - 1]), (t.row, t.col), t.value)
  }

  /** Installing ts then e is installing ts + e. */
  lemma {:induction false} InstallAppend(m: Elements, ts: seq<Triple>, e: seq<Triple>)
    ensures Install(m, ts + e) == Install(Install(m, ts), e)
    decreases |e|
  {
    if e == [] {
      assert ts + e == ts;
    } else {
      var init := e[..|e| - 1];
      assert (ts + e)[..|ts + e| - 1] == ts + init;
      InstallAppend(m, ts, init);
    }
  }

  /** An entry whose coordinate is not written again later decides the value
      at that coordinate: of repeated coordinates the last one wins, and an
      explicit zero leaves the coordinate unstored. */
  lemma {:induction false} InstallLastWins(m: Elements, ts: seq<Triple>, i: nat)
    requires i < |ts|
    requires forall j :: i < j < |ts| ==> (ts[j].row, ts[j].col) != (ts[i].row, ts[i].col)
    ensures Get(Install(m, ts), (ts[i].row, ts[i].col)) == ts[i].value
    ensures (ts[i].row, ts[i].col) in Install(m, ts) <==> ts[i].value != 0
    decreases |ts|
  {
    if i < |ts| - 1 {
      InstallLastWins(m, ts[..|ts| - 1], i);
    }
  }

  /** A coordinate no entry mentions keeps its old value. */
  lemma {:induction false} InstallUntouched(m: Elements, ts: seq<Triple>, k: Key)
    requires forall j :: 0 <= j < |ts| ==> (ts[j].row, ts[j].col) != k
    ensures Get(Install(m, ts), k) == Get(m, k)
    ensures k in Install(m, ts) <==> k in m
    decreases |ts|
  {
    if ts != [] {
      InstallUntouched(m, ts[..|ts| - 1], k);
    }
  }
}
