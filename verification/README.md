# Sparse matrices in Dafny

A model of the `SparseMatrix` class of `matrices.py`. A matrix has two
dimensions, `numRows` and `numCols`, and a dictionary `elements` that maps a
`(row, col)` pair to a value. Only nonzero values are stored. The model covers:

- reading and writing one element (`get_element`, `set_element`);
- the three arithmetic operations (`add`, `subtract`, `multiply`), each of which
  builds a fresh result matrix;
- the loader, which reads a text of the form

  ```
  rows=<int>
  cols=<int>
  (<row>, <col>, <value>)
  ...
  ```

  line by line and stores every entry through `set_element`.

Modules:

- `Outcome` (`outcome.dfy`): `Option`, `Result` and the two failures the
  class reports, `DimensionMismatch` and `FormatError`.
- `SparseMaps` (`sparse_maps.dfy`): the value model. The elements are a
  `map<(int, int), int>` with no stored zero. The module holds the value at a
  key (absent means 0), a store that removes on zero, the elementwise sum and
  difference, and a fold of stores in order (`Install`).
- `SparseProduct` (`sparse_product.dfy`): the matrix product on that model.
  The value at `(r, c)` is a sum, over the stored keys `(r, j)` of the left
  matrix, of `a[(r, j)] * b(j, c)`. It is proved independent of the order the
  keys are taken in, and equal to the textbook dense dot product.
- `MatrixText` (`matrix_text.dfy`): the loader's line parsing as pure
  functions. It covers Python's `str.strip()`, `split('=')[1]` and `int()` on
  ASCII text, each with its own whitespace: `strip()` and `\s` also remove
  the separators 0x1C to 0x1F, while `int()` skips only space and `\t` to
  `\r` (numbers of any length: the digit limit of recent Python versions is
  not modelled, see "Left out"), and the prefix match of the pattern
  `\((\d+),\s*(\d+),\s*(-?\d+)\)`. It also has the printed form of an entry,
  `(row, col, value)`, together with round-trip lemmas: int/str, header,
  entry, body and whole text.
- `Matrices` (`matrices.dfy`): `class SparseMatrix`. Its fields are updated in
  place, and its methods are written as loops over the dictionaries, the way
  the source iterates. Each method is proved against the functions above.
  `add`, `subtract` and `multiply` carry no `modifies` clause, so they leave
  both operands unchanged. Errors are results rather than exceptions.

Where the code and the format description differ, the model follows the code:

- The header key is never checked. `xyz=3` is read like `rows=3`, and a header
  value can be negative.
- The header value is the text between the first and the second `=`, since
  that is what `split('=')[1]` gives. A line without `=` fails.
- The separators before the column and the value are `,\s*`: any amount of
  whitespace, including none.
- The groups accept leading zeros and the value `-0`: `(01,\t2,  -0)` is the
  entry (1, 2, 0). `int()` in the header also accepts a `+` sign and
  whitespace around the number, but not the separators 0x1C to 0x1F that
  `strip()` removes: `rows=\x1c5` is rejected.
- The match is anchored only at the start of the line. Text after the closing
  `)` is ignored (`MatchIgnoresTrailing`).
- Every load failure is one `FormatError`, with no line number and no message.

## Model

| member | source | states |
|---|---|---|
| Matrices.SparseMatrix.constructor | matrices.py:5-8 | the new matrix has the given dimensions and no stored entry |
| Matrices.SparseMatrix.GetElement | matrices.py:37-39 | the stored value for (row, col), or 0 when absent; under the sparsity invariant the value is nonzero exactly when the key is stored |
| Matrices.SparseMatrix.SetElement | matrices.py:41-46 | afterwards (row, col) reads as `value`, it is stored iff `value != 0`, every other coordinate reads as before, and no zero is ever stored |
| Matrices.SparseMatrix.Add | matrices.py:48-63 | fails with DimensionMismatch exactly when the dimensions differ; otherwise returns a fresh matrix of the same dimensions whose elements are the elementwise sum, operands unchanged |
| Matrices.SparseMatrix.Subtract | matrices.py:65-80 | fails with DimensionMismatch exactly when the dimensions differ; otherwise returns a fresh matrix whose elements are the elementwise difference (keys only the other has are stored negated) |
| Matrices.SparseMatrix.Multiply | matrices.py:82-96 | fails with DimensionMismatch exactly when `numCols != other.numRows`; otherwise returns a fresh `numRows x other.numCols` matrix whose elements are the sparse product, whatever order the stored entries are visited in |
| Matrices.SparseMatrix.Load | matrices.py:12-33 | succeeds exactly when the whole text parses; then the dimensions are the two header values and the elements are the old ones with every parsed entry stored in order through set_element |
| Matrices.SparseMatrix.LoadBody | matrices.py:24-33 | the loop over `lines[2:]` succeeds exactly when the body parses, and then has stored every parsed entry in order through set_element |
| Matrices.SparseMatrix.StoreLine | matrices.py:25-33 | one pass of the loop succeeds exactly when the stripped line is blank or starts with a triple, and then has stored what the line yields; otherwise nothing changes |
| Matrices.SparseMatrix.FromLines | matrices.py:5-10 | a matrix is built exactly when its text parses, with the header dimensions and the entries stored in order into an empty dictionary; otherwise FormatError |
| SparseMaps.Get | matrices.py:39 | the stored value, or 0 when absent; with no stored zero, nonzero exactly when stored |
| SparseMaps.Set | matrices.py:43-46 | the key reads as the new value and is stored iff it is nonzero, every other key is untouched, and the sparsity invariant is kept |
| SparseMaps.SameValuesSameMap | matrices.py:46 | two dictionaries without stored zeros that agree on every coordinate are equal, which is why removing zeros makes the representation unique |
| SparseMaps.Sum | matrices.py:55-61 | the sum stores no zero, reads as `a + b` at every coordinate and has no key outside the two operands' keys |
| SparseMaps.Difference | matrices.py:72-78 | the difference stores no zero, reads as `a - b` at every coordinate and has no key outside the two operands' keys |
| SparseMaps.SumCommutes | matrices.py:55-61 | `add` does not depend on the order of its operands |
| SparseMaps.DifferenceWithItself | matrices.py:72-78 | subtracting a matrix from itself leaves no stored entry |
| SparseMaps.DifferenceIsSumOfNegation | matrices.py:76-78 | subtracting is adding the matrix with every value negated |
| SparseMaps.Negation | matrices.py:78 | every coordinate reads as minus the original value, and no zero is introduced |
| SparseMaps.Install | matrices.py:24-33 | storing a sequence of entries in order keeps the sparsity invariant |
| SparseMaps.InstallAppend | matrices.py:24-33 | storing the entries of ts and then those of e is storing the entries of ts + e |
| SparseMaps.InstallLastWins | matrices.py:32-33 | an entry whose coordinate is not repeated later decides the loaded value there (a later duplicate overwrites an earlier one) |
| SparseMaps.InstallUntouched | matrices.py:32-33 | a coordinate no entry mentions keeps its old value |
| SparseProduct.RowDot | matrices.py:90-94 | the sum the nested loops accumulate into one product entry, taken over the stored keys in any order; its value is pinned by `RowDotRemove`, `RowDotOtherRows` and `RowDotIsMasked` |
| SparseProduct.Product | matrices.py:82-96 | the elements `multiply` returns: every candidate (row, column) whose accumulated sum is nonzero; its values are stated by `ProductAt`, `ProductNoZero` and `ProductIsDense` |
| SparseProduct.RowDotRemove | matrices.py:90-94 | any stored key may be taken out of the accumulated sum first, so the sum is independent of dictionary iteration order |
| SparseProduct.RowDotOtherRows | matrices.py:90-94 | stored entries of other rows contribute nothing to a row of the product |
| SparseProduct.ProductAt | matrices.py:87-94 | the product at (r, c) is the accumulated sum over all stored entries of row r when `0 <= c < other.numCols`, and 0 outside those columns |
| SparseProduct.ProductNoZero | matrices.py:93-94 | the product stores no zero |
| SparseProduct.RowDotIsMasked | matrices.py:90-94 | when the stored columns lie in [0, n), the accumulated sum equals the dot product restricted to those keys |
| SparseProduct.MaskedDotAllKeys | matrices.py:90-94 | restricted to all stored keys, the dot product is the dense `sum_j a[r][j] * b[j][c]` for j in [0, n) |
| SparseProduct.ProductIsDense | matrices.py:82-96 | when the left matrix stores only columns in [0, n), every in-range value of the product is the dense dot product of row r and column c |
| MatrixText.Strip | matrices.py:20-25 | `str.strip()`: the whitespace (`\s`, 0x1C to 0x1F included) removed at both ends; what it keeps is stated by `StripSpec` |
| MatrixText.TrimStartSpec | matrices.py:25 | trimming at the start removes exactly the leading whitespace run |
| MatrixText.TrimEndSpec | matrices.py:25 | trimming at the end removes exactly the trailing whitespace run |
| MatrixText.StripSpec | matrices.py:20-25 | `strip()` keeps a slice of the line with whitespace only outside it and no whitespace at either end |
| MatrixText.StripUnchanged | matrices.py:25 | a line that neither starts nor ends with whitespace is its own strip |
| MatrixText.IndexOf | matrices.py:20-21 | the first position of the character, or the length when it does not occur |
| MatrixText.FieldAfterEq | matrices.py:20-21 | `split('=')[1]` exists exactly when the line contains `=`; it is the text that starts right after the first `=` and ends at the next `=` or at the end of the line |
| MatrixText.FieldOfParts | matrices.py:20-21 | `split('=')[1]` of `key=f` followed by nothing or by another `=` is f, for key and f free of `=` |
| MatrixText.FieldParts | matrices.py:20-21 | a line with a field is a key free of `=`, then `=`, the field, then nothing or another `=` |
| MatrixText.DigitsValue | matrices.py:32 | the value `int()` gives a run of decimal digits of any length (no 4300-digit limit); `DigitsRoundTrip` shows it reads the printed digits of n back as n |
| MatrixText.IntStrip | matrices.py:20-21 | the text `int()` reads a number from: the line without the space and `\t` to `\r` it skips at both ends |
| MatrixText.IntStripUnchanged | matrices.py:20-21 | a text that neither starts nor ends with whitespace `int()` skips is read as it is |
| MatrixText.IntTrimStartParts | matrices.py:20-21 | what `int()` skips at the start is a run of its whitespace in front of the rest |
| MatrixText.IntTrimEndParts | matrices.py:20-21 | what `int()` skips at the end is a run of its whitespace after the rest |
| MatrixText.IntStripParts | matrices.py:20-21 | every text is what `int()` reads between two runs of whitespace it skips |
| MatrixText.IntTrimStartSpaces | matrices.py:20-21 | whitespace `int()` skips, before text that does not start with such whitespace, is exactly what is skipped |
| MatrixText.IntTrimEndSpaces | matrices.py:20-21 | whitespace `int()` skips, after text that does not end with such whitespace, is exactly what is skipped |
| MatrixText.IntStripPadded | matrices.py:20-21 | skipping the `int()` whitespace around a text that has none at its ends gives the text back |
| MatrixText.IntStripIsStrip | matrices.py:20-21 | when what `int()` reads has no `strip()` whitespace at its ends, it is also the strip of the text |
| MatrixText.ParseIntRejectsSeparator | matrices.py:20-21 | text that starts with one of the separators 0x1C to 0x1F, which `strip()` would remove, is not a number for `int()` |
| MatrixText.ParseInt | matrices.py:20-21 | `int()` succeeds only on text whose strip ends with a digit and starts with `-` when the value is negative; a plain run of digits reads as its value |
| MatrixText.TrimStartSpaces | matrices.py:20-21 | leading whitespace before text that does not start with whitespace is exactly what is trimmed |
| MatrixText.TrimEndSpaces | matrices.py:20-21 | trailing whitespace after text that does not end with whitespace is exactly what is trimmed |
| MatrixText.StripPadded | matrices.py:20-21 | stripping the whitespace around a text that has none at its ends gives the text back |
| MatrixText.StripParts | matrices.py:20-21 | every text is its strip between two whitespace runs |
| MatrixText.ParseIntOfText | matrices.py:20-21 | `int()` reads whitespace it skips (space, `\t` to `\r`), an optional `+` or `-`, digits and such whitespace as the value of the digits, negated after `-` |
| MatrixText.TextOfInt | matrices.py:20-21 | every text `int()` accepts has that form |
| MatrixText.ParseIntIff | matrices.py:20-21 | `int(s) == v` exactly when s is whitespace `int()` skips (space, `\t` to `\r`), an optional sign, one or more digits and such whitespace, with v their value (negated after `-`); exact for numbers of any length, which Python versions without the 4300-digit limit accept |
| MatrixText.HeaderValue | matrices.py:20-21 | a header value exists only when the line contains `=` |
| MatrixText.HeaderValueIff | matrices.py:20-21 | a header line reads as v exactly when its strip is a key free of `=`, `=`, a field that `int()` reads as v, and then nothing or another `=` |
| MatrixText.Number | matrices.py:29 | the group `\d+` at i: found only when it consumes at least one character, ending within the line; `NumberAt` and `UnsignedItemShape` state the digits it reads |
| MatrixText.SignedNumber | matrices.py:29 | the group `-?\d+` at i: found only when it consumes at least one character, ending within the line; `SignedItemAt` and `SignedItemShape` state the text it reads |
| MatrixText.SpanDigits | matrices.py:29 | the end of the maximal digit run starting at i |
| MatrixText.SpanSpaces | matrices.py:29 | the end of the maximal whitespace run starting at i (`\s*`) |
| MatrixText.Item | matrices.py:29 | a group found ends just after its closing character, and an unsigned group is non-negative (the text it accepts is stated by the `*ItemAt`, `*GroupAt` and `*ItemShape` rows) |
| MatrixText.MatchTriple | matrices.py:29 | a match starts with `(` and has a non-negative row and column (which texts match is stated by `MatchTripleIff`) |
| MatrixText.LineEntry | matrices.py:25-33 | a body line yields at most one entry, with a non-negative row and column |
| MatrixText.ParseBody | matrices.py:24-33 | a parsed body has at most one entry per line, each with a non-negative row and column |
| MatrixText.Parse | matrices.py:12-35 | every failure is a FormatError; a success needs both header lines and has at most one entry per body line (when it succeeds, and with what, is stated by `PartsOfParse`) |
| MatrixText.CollectAppend | matrices.py:24-33 | combining line outcomes is compositional: the outcome of x + y is that of x followed by that of y |
| MatrixText.ParseBodyAppend | matrices.py:24-33 | the body is read line by line: the body x + y yields x's entries followed by y's, and fails if either fails |
| MatrixText.ParseBodyStep | matrices.py:24-33 | one more line read by the loop either appends what it yields to the entries so far or makes the whole body fail |
| MatrixText.ParseBodySingle | matrices.py:24-33 | a body of one line yields what that line yields |
| MatrixText.BlankLineEmpty | matrices.py:25-27 | a blank or all-whitespace line yields no entry |
| MatrixText.BlankLineSkipped | matrices.py:26-27 | inserting a blank line anywhere in the body changes nothing |
| MatrixText.CollectFailsIff | matrices.py:30-31 | the combined outcome fails exactly when one line outcome fails |
| MatrixText.IsBad | matrices.py:25-31 | a body line on which the loader fails: not blank once stripped, and no triple at its start; `ParseBodyFailsIff` shows the body fails exactly when one line is bad |
| MatrixText.ParseBodyFailsIff | matrices.py:28-31 | the body fails exactly when some line is neither blank nor starts with a triple |
| MatrixText.ParseRejectsBadLine | matrices.py:30-31 | one bad body line makes the whole load fail with FormatError |
| MatrixText.BodyRejectsBadLine | matrices.py:30-31 | one bad line after the header makes the body fail |
| MatrixText.ItemExtend | matrices.py:29 | a group matched inside a line matches the same way whatever text is appended |
| MatrixText.MatchIgnoresTrailing | matrices.py:29 | `re.match` is anchored only at the start: text after a matched triple does not change the match |
| MatrixText.NatDigits | matrices.py:119 | the decimal digits of n form a non-empty digit string |
| MatrixText.IntToString | matrices.py:119 | `str(n)` is non-empty, starts with `-` or a digit and ends with a digit |
| MatrixText.DigitsRoundTrip | matrices.py:32 | the printed digits of n are a non-empty digit run that reads back as n |
| MatrixText.IntToStringDecimal | matrices.py:119 | `str(v)` is a digit run with value `abs(v)`, preceded by `-` exactly when v < 0 |
| MatrixText.ParseIntDecimal | matrices.py:20-21 | `int()` reads such a text (optional `-`, then digits) as its value |
| MatrixText.IntRoundTrip | matrices.py:20-21 | `int(str(n)) == n` for every integer n, without the 4300-digit limit of recent Python versions |
| MatrixText.UnpaddedHeaderOf | matrices.py:20-21 | a header line `key=w` whose key does not start with whitespace is its own strip and reads as the value of w |
| MatrixText.HeaderOf | matrices.py:20-21 | a header line `key=w`, w the text of n and key free of `=`, reads as n; whitespace before the key is stripped and the key is never read |
| MatrixText.HeaderRoundTrip | matrices.py:20-21 | a header line `key=n` reads back as n, for any key without `=` |
| MatrixText.NumberAt | matrices.py:29 | a digit run followed by a non-digit matches `\d+` as its value, ending right after it |
| MatrixText.SignedDecimalDigits | matrices.py:29 | the text of an integer is also a text the group `-?\d+` reads as that integer |
| MatrixText.SignedItemAt | matrices.py:29 | an optional `-` and digits (leading zeros allowed) followed by the closing character match the signed group `-?\d+` as their value |
| MatrixText.UnsignedItemAt | matrices.py:29 | the digits of n followed by the closing character match the group `\d+` as n |
| MatrixText.SpacesAt | matrices.py:29 | `\s*` stops exactly after a whitespace run followed by a non-whitespace character |
| MatrixText.UnsignedGroupAt | matrices.py:29 | whitespace, then digits, then the closing character: `\s*` ends where the digits start and `\d+` reads their value |
| MatrixText.SignedGroupAt | matrices.py:29 | whitespace, then an optional `-` and digits, then the closing character: `\s*` ends where the number starts and `-?\d+` reads its value |
| MatrixText.MatchTripleOf | matrices.py:29 | the three groups found one after the other give the match of their three values |
| MatrixText.GroupsOfLayout | matrices.py:29 | the pieces of a triple text, in place, read as the three groups in turn |
| MatrixText.MatchOfText | matrices.py:29 | every text `(d1,w1 d2,w2 dv)` followed by anything, with digit runs d1 and d2, whitespace runs w1 and w2 and an optionally negated digit run dv, matches as their values |
| MatrixText.UnsignedItemShape | matrices.py:29 | an unsigned group read is a non-empty digit run holding its value, followed by the closing character |
| MatrixText.SignedItemShape | matrices.py:29 | a signed group read is an optional `-` and a non-empty digit run holding its value, followed by the closing character |
| MatrixText.SpacesShape | matrices.py:29 | what `\s*` skips is whitespace |
| MatrixText.MatchTextOf | matrices.py:29 | every match comes from such a text |
| MatrixText.MatchTripleIff | matrices.py:29 | `re.match` gives t exactly when the line starts with `(`, the row digits, `,`, any whitespace, the column digits, `,`, any whitespace, an optional `-` and the value digits, and `)`, holding the values of t |
| MatrixText.MatchFormatted | matrices.py:29 | an entry printed as `(row, col, value)` matches the pattern as the same entry |
| MatrixText.LineOfFormatted | matrices.py:25-33 | a printed entry is a body line that yields exactly that entry |
| MatrixText.FormatTriple | matrices.py:119 | the printed line starts with `(`, ends with `)` and has no surrounding whitespace, so `strip()` leaves it unchanged |
| MatrixText.FormatBody | matrices.py:118-119 | one printed line per entry, in order |
| MatrixText.CollectSingles | matrices.py:24-33 | lines that each yield one entry yield those entries in order |
| MatrixText.FormattedBodyRoundTrip | matrices.py:24-33 | the printed lines of a sequence of entries load back as the same entries in the same order |
| MatrixText.Render | matrices.py:20-21 | a rendered text has two header lines followed by the printed entries |
| MatrixText.ParseOfParts | matrices.py:20-33 | two valid header lines followed by a body that parses give exactly those dimensions and entries |
| MatrixText.PartsOfParse | matrices.py:12-35 | a text loads exactly when it has two header lines whose field `int()` reads and a body that parses, and then as those two numbers and the body's entries |
| MatrixText.ParseRejectsBadHeader | matrices.py:20-21 | a missing header line, or one without `=` or with a field `int()` rejects, makes the whole load fail with FormatError |
| MatrixText.RenderRoundTrip | matrices.py:12-33 | loading a rendered text gives back its dimensions and its entries, in order |

## Left out

- File access is not modelled. Resolving the path, opening and reading the
  file, and any read failure are outside the model, and so is the message
  printed on line 15. `Load` and `FromLines` take the file's lines as a
  sequence of strings.
- When no path is given (or it is empty), the constructor skips the loader.
  That case is `constructor`; `FromLines` is the case with a path.
- `main` (lines 99-123) is not modelled: reading the operation from the
  console and dispatching to it. Only the format of the line it prints for an
  entry (line 119) is modelled, as `FormatTriple` and `FormatBody`, so that the
  round trip of the loader can be stated and proved. The printing itself is
  not modelled.
- Error messages and exception types are not modelled. Every failure is one of
  two values, `DimensionMismatch` or `FormatError`. The loader's wrapping of
  any exception into a `ValueError` becomes `FormatError`.
- Dictionary iteration order is not modelled. The loops take any remaining
  key (`:|`), so every property holds for every order. The printed order of a
  result is not part of any contract.
- Unicode is not modelled. Whitespace and digits are ASCII only, so `strip()`,
  `\s`, `\d` and `int()` accept no other Unicode whitespace or digit, and
  `int()` does not accept underscores. The two ASCII whitespace sets do
  differ as in Python: `int()` does not skip 0x1C to 0x1F.
- ParseInt: the limit on decimal text of more than 4300 digits is not
  modelled. Python 3.11 and later (and the security releases 3.7.14, 3.8.14,
  3.9.14 and 3.10.7) make `int()` and `str()` raise `ValueError` on such
  text. `DigitsValue`, `IntToString`, `ParseIntIff` and `IntRoundTrip` hold
  for numbers of any length. So on those versions a header or an entry with
  a number of more than 4300 digits loads in the model but fails in the
  program.
- The dimensions are not checked against the coordinates, in the source or in
  the model. An entry may lie outside `numRows x numCols`. `ProductIsDense`
  assumes the left matrix stores only columns in range.
- Load: on failure the contract says nothing about the fields. The source may
  have assigned a header value before failing, but it then raises from the
  constructor, and the object is never used (`FromLines` returns only the
  error).
- LoadBody: on failure the contract says nothing about the elements. The
  entries before the bad line have been stored, but the load then fails as a
  whole, as above.
- Render: the header keys are parameters, because the loader never reads them.
  The source writes only the body lines (line 119) and never a header.
