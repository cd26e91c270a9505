/** Reading a matrix from the lines of its text form:
      rows=<int>
      cols=<int>
      (<row>, <col>, <value>)
      ...
    The header value is what follows the first '=' on each of the first two
    lines (the key before it is not looked at); every later line is either
    blank or starts with a (row, col, value) triple. */
module MatrixText {
  import opened Outcome
  import opened SparseMaps

  /** The ASCII characters Python counts as whitespace. */
  predicate IsSpace(ch: char)
  {
    ch == ' ' || ch == '\t' || ch == '\n' || ch == '\r'
    || ch == '\U{0B}' || ch == '\U{0C}' || ('\U{1C}' <= ch <= '\U{1F}')
  }

  predicate IsDigit(ch: char)
  {
    '0' <= ch <= '9'
  }

  predicate AllDigits(s: string)
  {
    forall i :: 0 <= i < |s| ==> IsDigit(s[i])
  }

  predicate AllSpace(s: string)
  {
    forall i :: 0 <= i < |s| ==> IsSpace(s[i])
  }

  /** s without its leading whitespace. */
  function TrimStart(s: string): string
    decreases |s|
  {
    if s != [] && IsSpace(s[0]) then TrimStart(s[1..]) else s
  }

  /** s without its trailing whitespace. */
  function TrimEnd(s: string): string
    decreases |s|
  {
    if s != [] && IsSpace(s[|s| - 1]) then TrimEnd(s[..|s| - 1]) else s
  }

  /** Python's str.strip(): whitespace removed at both ends. */
  function Strip(s: string): string
  {
    TrimEnd(TrimStart(s))
  }

  /** TrimStart removes exactly the leading run of whitespace. */
  lemma {:induction false} TrimStartSpec(s: string)
    ensures |TrimStart(s)| <= |s| && TrimStart(s) == s[|s| - |TrimStart(s)|..]
    ensures forall i :: 0 <= i < |s| - |TrimStart(s)| ==> IsSpace(s[i])
    ensures TrimStart(s) != [] ==> !IsSpace(TrimStart(s)[0])
    decreases |s|
  {
    if s != [] && IsSpace(s[0]) {
      TrimStartSpec(s[1..]);
    }
  }

  /** TrimEnd removes exactly the trailing run of whitespace. */
  lemma {:induction false} TrimEndSpec(s: string)
    ensures |TrimEnd(s)| <= |s| && TrimEnd(s) == s[..|TrimEnd(s)|]
    ensures forall i :: |TrimEnd(s)| <= i < |s| ==> IsSpace(s[i])
    ensures TrimEnd(s) != [] ==> !IsSpace(TrimEnd(s)[|TrimEnd(s)| - 1])
    decreases |s|
  {
    if s != [] && IsSpace(s[|s| - 1]) {
      TrimEndSpec(s[..|s| - 1]);
    }
  }

  /** Strip keeps a slice s[i..j] of s: everything before i and from j on is
      whitespace, and the slice neither starts nor ends with whitespace. */
  lemma StripSpec(s: string)
    ensures exists i, j ::
              && 0 <= i <= j <= |s| && Strip(s) == s[i..j]
              && (forall k :: 0 <= k < i ==> IsSpace(s[k]))
              && (forall k :: j <= k < |s| ==> IsSpace(s[k]))
    ensures Strip(s) != [] ==> !IsSpace(Strip(s)[0]) && !IsSpace(Strip(s)[|Strip(s)| - 1])
  {
    var t := TrimStart(s);
    TrimStartSpec(s);
    TrimEndSpec(t);
    var i := |s| - |t|;
    var j := i + |TrimEnd(t)|;
    assert Strip(s) == s[i..j];
    forall k | j <= k < |s|
      ensures IsSpace(s[k])
    {
      assert s[k] == t[k - i];
    }
  }

  /** A string that neither starts nor ends with whitespace is its own strip. */
  lemma StripUnchanged(s: string)
    requires s != [] ==> !IsSpace(s[0]) && !IsSpace(s[|s| - 1])
    ensures Strip(s) == s
  {
    assert TrimStart(s) == s;
  }

  /** A string that neither starts nor ends with whitespace int() skips is
      the text int() reads. */
  lemma IntStripUnchanged(s: string)
    requires s != [] ==> !IsIntSpace(s[0]) && !IsIntSpace(s[|s| - 1])
    ensures IntStrip(s) == s
  {
    assert IntTrimStart(s) == s;
  }

  // ---------------------------------------------------------------------
  // The whitespace int() skips around a number

  /** The ASCII characters int() skips around a number: ' ' and '\t' to
      '\r'. Unlike str.strip() and \s, int() does not skip 0x1C to 0x1F. */
  predicate IsIntSpace(ch: char)
  {
    ch == ' ' || '\t' <= ch <= '\r'
  }

  predicate AllIntSpace(s: string)
  {
    forall i :: 0 <= i < |s| ==> IsIntSpace(s[i])
  }

  /** s without the leading whitespace int() skips. */
  function IntTrimStart(s: string): string
    decreases |s|
  {
    if s != [] && IsIntSpace(s[0]) then IntTrimStart(s[1..]) else s
  }

  /** s without the trailing whitespace int() skips. */
  function IntTrimEnd(s: string): string
    decreases |s|
  {
    if s != [] && IsIntSpace(s[|s| - 1]) then IntTrimEnd(s[..|s| - 1]) else s
  }

  /** The text int() reads a number from. */
  function IntStrip(s: string): string
  {
    IntTrimEnd(IntTrimStart(s))
  }

  /** IntTrimStart removes a leading run of whitespace int() skips. */
  lemma {:induction false} IntTrimStartParts(s: string) returns (ws: string)
    ensures s == ws + IntTrimStart(s) && AllIntSpace(ws)
    decreases |s|
  {
    if s != [] && IsIntSpace(s[0]) {
      var w := IntTrimStartParts(s[1..]);
      ws := [s[0]] + w;
      assert s == [s[0]] + s[1..];
      forall k | 0 <= k < |ws|
        ensures IsIntSpace(ws[k])
      {
        if k > 0 {
          assert ws[k] == w[k - 1];
        }
      }
    } else {
      ws := [];
    }
  }

  /** IntTrimEnd removes a trailing run of whitespace int() skips. */
  lemma {:induction false} IntTrimEndParts(s: string) returns (ws: string)
    ensures s == IntTrimEnd(s) + ws && AllIntSpace(ws)
    decreases |s|
  {
    if s != [] && IsIntSpace(s[|s| - 1]) {
      var init := s[..|s| - 1];
      var w := IntTrimEndParts(init);
      ws := w + [s[|s| - 1]];
      assert s == init + [s[|s| - 1]];
      forall k | 0 <= k < |ws|
        ensures IsIntSpace(ws[k])
      {
        if k < |w| {
          assert ws[k] == w[k];
        }
      }
    } else {
      ws := [];
    }
  }

  /** s is the text int() reads between two runs of whitespace it skips. */
  lemma IntStripParts(s: string) returns (ws1: string, ws2: string)
    ensures s == ws1 + IntStrip(s) + ws2 && AllIntSpace(ws1) && AllIntSpace(ws2)
  {
    ws1 := IntTrimStartParts(s);
    ws2 := IntTrimEndParts(IntTrimStart(s));
  }

  /** Leading whitespace ws before text that does not start with such
      whitespace is all IntTrimStart removes. */
  lemma {:induction false} IntTrimStartSpaces(ws: string, y: string)
    requires AllIntSpace(ws) && (y == [] || !IsIntSpace(y[0]))
    ensures IntTrimStart(ws + y) == y
    decreases |ws|
  {
    if ws == [] {
      assert ws + y == y;
    } else {
      assert (ws + y)[1..] == ws[1..] + y;
      assert AllIntSpace(ws[1..]) by {
        forall k | 0 <= k < |ws| - 1
          ensures IsIntSpace(ws[1..][k])
        {
          assert ws[1..][k] == ws[k + 1];
        }
      }
      IntTrimStartSpaces(ws[1..], y);
    }
  }

  /** Trailing whitespace ws after text that does not end with such
      whitespace is all IntTrimEnd removes. */
  lemma {:induction false} IntTrimEndSpaces(y: string, ws: string)
    requires AllIntSpace(ws) && (y == [] || !IsIntSpace(y[|y| - 1]))
    ensures IntTrimEnd(y + ws) == y
    decreases |ws|
  {
    if ws == [] {
      assert y + ws == y;
    } else {
      var z := y + ws;
      var init := ws[..|ws| - 1];
      assert z[..|z| - 1] == y + init;
      assert z[|z| - 1] == ws[|ws| - 1];
      assert AllIntSpace(init) by {
        forall k | 0 <= k < |init|
          ensures IsIntSpace(init[k])
        {
          assert init[k] == ws[k];
        }
      }
      IntTrimEndSpaces(y, init);
    }
  }

  /** Removing the whitespace int() skips from around x gives x back. */
  lemma IntStripPadded(ws1: string, x: string, ws2: string)
    requires AllIntSpace(ws1) && AllIntSpace(ws2)
    requires x != [] && !IsIntSpace(x[0]) && !IsIntSpace(x[|x| - 1])
    ensures IntStrip(ws1 + x + ws2) == x
  {
    assert ws1 + x + ws2 == ws1 + (x + ws2);
    assert (x + ws2)[0] == x[0];
    IntTrimStartSpaces(ws1, x + ws2);
    IntTrimEndSpaces(x, ws2);
  }

  /** Text int() reads whose ends are not whitespace at all is also what
      str.strip() leaves. */
  lemma IntStripIsStrip(s: string)
    ensures IntStrip(s) != [] && !IsSpace(IntStrip(s)[0]) && !IsSpace(IntStrip(s)[|IntStrip(s)| - 1])
            ==> Strip(s) == IntStrip(s)
  {
    var x := IntStrip(s);
    if x != [] && !IsSpace(x[0]) && !IsSpace(x[|x| - 1]) {
      var ws1, ws2 := IntStripParts(s);
      StripPadded(ws1, x, ws2);
    }
  }

  /** The value of a run of decimal digits. */
  function DigitsValue(s: string): nat
    requires AllDigits(s)
    decreases |s|
  {
    if s == [] then 0
    else DigitsValue(s[..|s| - 1]) * 10 + (s[|s| - 1] - '0') as nat
  }

  /** The index of the first ch in s, or |s| when there is none. */
  function IndexOf(s: string, ch: char): (i: nat)
    ensures i <= |s|
    ensures forall j :: 0 <= j < i ==> s[j] != ch
    ensures i < |s| ==> s[i] == ch
    decreases |s|
  {
    if s == [] then 0
    else if s[0] == ch then 0
    else 1 + IndexOf(s[1..], ch)
  }

  /** Python's s.split('=')[1]: the text between the first '=' and the next
      one (or the end); no field when s has no '='. */
  function FieldAfterEq(s: string): (r: Option<string>)
    ensures r.Some? <==> '=' in s
    ensures r.Some? ==> '=' !in r.value
    ensures r.Some? ==> var i := IndexOf(s, '='); var j := i + 1 + |r.value|;
              && j <= |s| && r.value == s[i + 1..j]
              && (j == |s| || s[j] == '=')
  {
    var i := IndexOf(s, '=');
    if i == |s| then None
    else
      var rest := s[i + 1..];
      Some(rest[..IndexOf(rest, '=')])
  }

  /** Python's int(s) on ASCII text: the whitespace int() skips, an optional
      sign, one or more decimal digits, and that whitespace again. */
  function ParseInt(s: string): (r: Option<int>)
    ensures r.Some? ==> Strip(s) != [] && IsDigit(Strip(s)[|Strip(s)| - 1])
    ensures r.Some? && r.value < 0 ==> Strip(s)[0] == '-'
    ensures s != [] && AllDigits(s) ==> r == Some(DigitsValue(s) as int)
  {
    DigitsUnstripped(s);
    IntStripIsStrip(s);
    var t := IntStrip(s);
    if t != [] && (t[0] == '-' || t[0] == '+') then
      var d := t[1..];
      if d != [] && AllDigits(d) then
        var v: int := DigitsValue(d);
        Some(if t[0] == '-' then -v else v)
      else None
    else if t != [] && AllDigits(t) then Some(DigitsValue(t))
    else None
  }

  /** A run of digits has no whitespace to strip. */
  lemma DigitsUnstripped(s: string)
    ensures s != [] && AllDigits(s) ==> IntStrip(s) == s
  {
    if s != [] && AllDigits(s) {
      IntStripUnchanged(s);
    }
  }

  /** Unlike str.strip(), int() does not skip the separators 0x1C to 0x1F:
      text that starts with one is no number. */
  lemma ParseIntRejectsSeparator(ch: char, s: string)
    requires '\U{1C}' <= ch <= '\U{1F}'
    ensures ParseInt([ch] + s) == None
  {
    var x := [ch] + s;
    assert IntTrimStart(x) == x;
    var ws := IntTrimEndParts(x);
    assert IntStrip(x)[0] == x[0];
  }

  /** A header line: int(line.strip().split('=')[1]). */
  function HeaderValue(line: string): (r: Option<int>)
    ensures r.Some? ==> '=' in line
  {
    StripSpec(line);
    match FieldAfterEq(Strip(line))
    case None => None
    case Some(f) => ParseInt(f)
  }

  /** The end of the run of digits that starts at i. */
  function SpanDigits(s: string, i: nat): (j: nat)
    requires i <= |s|
    ensures i <= j <= |s|
    ensures forall k :: i <= k < j ==> IsDigit(s[k])
    ensures j < |s| ==> !IsDigit(s[j])
    decreases |s| - i
  {
    if i < |s| && IsDigit(s[i]) then SpanDigits(s, i + 1) else i
  }

  /** The end of the run of whitespace that starts at i. */
  function SpanSpaces(s: string, i: nat): (j: nat)
    requires i <= |s|
    ensures i <= j <= |s|
    ensures forall k :: i <= k < j ==> IsSpace(s[k])
    ensures j < |s| ==> !IsSpace(s[j])
    decreases |s| - i
  {
    if i < |s| && IsSpace(s[i]) then SpanSpaces(s, i + 1) else i
  }

  /** \d+ at position i: the value of the digits and the position after
      them, when there is at least one digit. */
  function Number(s: string, i: nat): (r: Option<(nat, nat)>)
    requires i <= |s|
    ensures r.Some? ==> i < r.value.1 <= |s|
  {
    var j := SpanDigits(s, i);
    if j == i then None else Some((DigitsValue(s[i..j]), j))
  }

  /** -?\d+ at position i. */
  function SignedNumber(s: string, i: nat): (r: Option<(int, nat)>)
    requires i <= |s|
    ensures r.Some? ==> i < r.value.1 <= |s|
  {
    if i < |s| && s[i] == '-' then
      match Number(s, i + 1)
      case None => None
      case Some((v, j)) => Some((-(v as int), j))
    else
      match Number(s, i)
      case None => None
      case Some((v, j)) => Some((v as int, j))
  }

  /** The character at position i is ch. */
  predicate At(s: string, i: nat, ch: char)
  {
    i < |s| && s[i] == ch
  }

  /** One group of the pattern and the character that closes it: \d+ (or
      -?\d+ when signed) at position i, then `close`. Gives the number and
      the position after `close`. */
  function Item(s: string, i: nat, signed: bool, close: char): (r: Option<(int, nat)>)
    requires i <= |s|
    ensures r.Some? ==> i < r.value.1 <= |s| && s[r.value.1 - 1] == close
    ensures r.Some? && !signed ==> r.value.0 >= 0
  {
    var n := if signed then SignedNumber(s, i) else
      match Number(s, i)
      case None => None
      case Some((v, j)) => Some((v as int, j));
    if n.Some? && At(s, n.value.1, close) then Some((n.value.0, n.value.1 + 1)) else None
  }

  /** re.match(r'\((\d+),\s*(\d+),\s*(-?\d+)\)', s): a match of the pattern
      at the start of s, whatever follows it. Row and column carry no sign. */
  function MatchTriple(s: string): (r: Option<Triple>)
    ensures r.Some? ==> At(s, 0, '(')
    ensures r.Some? ==> r.value.row >= 0 && r.value.col >= 0
  {
    if !At(s, 0, '(') then None
    else
      match Item(s, 1, false, ',')
      case None => None
      case Some((row, p1)) =>
        match Item(s, SpanSpaces(s, p1), false, ',')
        case None => None
        case Some((col, p2)) =>
          match Item(s, SpanSpaces(s, p2), true, ')')
          case None => None
          case Some((value, _)) => Some(Triple(row, col, value))
  }

  /** One body line: no entry when it is blank, its triple when it starts
      with one, a failure otherwise. */
  function LineEntry(line: string): (r: Option<seq<Triple>>)
    ensures r.Some? ==> |r.value| <= 1
    ensures r.Some? && r.value != [] ==> r.value[0].row >= 0 && r.value[0].col >= 0
  {
    var s := Strip(line);
    if s == [] then Some([])
    else
      match MatchTriple(s)
      case None => None
      case Some(t) => Some([t])
  }

  /** A body line that makes the load fail: not blank, and no triple at its start. */
  predicate IsBad(line: string)
  {
    Strip(line) != [] && MatchTriple(Strip(line)).None?
  }

  /** The outcome of every body line, in order. */
  function LineEntries(lines: seq<string>): (es: seq<Option<seq<Triple>>>)
    ensures |es| == |lines|
    ensures forall i :: 0 <= i < |lines| ==> es[i] == LineEntry(lines[i])
  {
    seq(|lines|, i requires 0 <= i < |lines| => LineEntry(lines[i]))
  }

  /** The line outcomes combined in order: the first failure fails the
      whole body, otherwise the entries one after the other. */
  function Collect(es: seq<Option<seq<Triple>>>): Option<seq<Triple>>
    decreases |es|
  {
    if es == [] then Some([])
    else
      var init := Collect(es[..|es| - 1]);
      var last := es[|es| - 1];
      if init.None? || last.None? then None
      else Some(init.value + last.value)
  }

  /** The body lines in order: blank lines skipped, every other line a triple. */
  function ParseBody(lines: seq<string>): (r: Option<seq<Triple>>)
    ensures r.Some? ==> forall j :: 0 <= j < |r.value| ==> r.value[j].row >= 0 && r.value[j].col >= 0
    ensures r.Some? ==> |r.value| <= |lines|
  {
    var es := LineEntries(lines);
    CollectBounds(es);
    Collect(es)
  }

  /** When every line yields at most one entry with an unsigned coordinate,
      so does the combination. */
  lemma {:induction false} CollectBounds(es: seq<Option<seq<Triple>>>)
    requires forall i :: 0 <= i < |es| && es[i].Some? ==> |es[i].value| <= 1
    requires forall i :: 0 <= i < |es| && es[i].Some? && es[i].value != [] ==>
               es[i].value[0].row >= 0 && es[i].value[0].col >= 0
    ensures Collect(es).Some? ==> |Collect(es).value| <= |es|
    ensures Collect(es).Some? ==> forall j :: 0 <= j < |Collect(es).value| ==>
              Collect(es).value[j].row >= 0 && Collect(es).value[j].col >= 0
    decreases |es|
  {
    if es != [] {
      CollectBounds(es[..|es| - 1]);
      var init, last := Collect(es[..|es| - 1]), es[|es| - 1];
      if init.Some? && last.Some? {
        var ts := init.value + last.value;
        assert forall j :: |init.value| <= j < |ts| ==> ts[j] == last.value[0];
      }
    }
  }

  /** What a successful load yields: the two header values and the entries
      in the order they are installed. */
  datatype Loaded = Loaded(rows: int, cols: int, entries: seq<Triple>)

  /** The whole text: two header lines, then the body. Every failure is the
      one format error. */
  function Parse(lines: seq<string>): (r: Result<Loaded>)
    ensures r.Err? ==> r.error == FormatError
    ensures r.Ok? ==> |lines| >= 2 && |r.value.entries| <= |lines| - 2
  {
    if |lines| < 2 then Err(FormatError)
    else
      match (HeaderValue(lines[0]), HeaderValue(lines[1]), ParseBody(lines[2..]))
      case (Some(rows), Some(cols), Some(ts)) => Ok(Loaded(rows, cols, ts))
      case _ => Err(FormatError)
  }

  // ---------------------------------------------------------------------
  // Properties of the body

  /** Both parts parsed, their entries one after the other; else a failure. */
  function Join(x: Option<seq<Triple>>, y: Option<seq<Triple>>): Option<seq<Triple>>
  {
    if x.Some? && y.Some? then Some(x.value + y.value) else None
  }

  /** Combining outcomes distributes over concatenation: the outcomes x + y
      combine to those of x followed by those of y, or fail when either does. */
  lemma {:induction false} CollectAppend(x: seq<Option<seq<Triple>>>, y: seq<Option<seq<Triple>>>)
    ensures Collect(x + y) == Join(Collect(x), Collect(y))
    decreases |y|
  {
    if y == [] {
      assert x + y == x;
      if Collect(x).Some? {
        assert Collect(x).value + [] == Collect(x).value;
      }
    } else {
      var y' := y[..|y| - 1];
      assert (x + y)[..|x + y| - 1] == x + y';
      CollectAppend(x, y');
      var cx, cy', last := Collect(x), Collect(y'), y[|y| - 1];
      if cx.Some? && cy'.Some? && last.Some? {
        assert (cx.value + cy'.value) + last.value == cx.value + (cy'.value + last.value);
      }
    }
  }

  /** Parsing is line by line: the body of x + y is the body of x followed by
      the body of y. */
  lemma ParseBodyAppend(x: seq<string>, y: seq<string>)
    ensures ParseBody(x + y) == Join(ParseBody(x), ParseBody(y))
  {
    var ex, ey, exy := LineEntries(x), LineEntries(y), LineEntries(x + y);
    forall i | 0 <= i < |x + y|
      ensures exy[i] == (ex + ey)[i]
    {
      if i < |x| {
        assert (x + y)[i] == x[i];
      } else {
        assert (x + y)[i] == y[i - |x|];
      }
    }
    assert exy == ex + ey;
    CollectAppend(LineEntries(x), LineEntries(y));
  }

  /** A body of one line yields what that line yields. */
  lemma ParseBodySingle(line: string)
    ensures ParseBody([line]) == LineEntry(line)
  {
    var e := LineEntries([line]);
    assert e[..0] == [];
    assert Collect(e[..0]) == Some([]);
    if LineEntry(line).Some? {
      assert [] + LineEntry(line).value == LineEntry(line).value;
    }
  }

  /** A blank (or all-whitespace) line yields no entry. */
  lemma BlankLineEmpty(blank: string)
    requires Strip(blank) == []
    ensures ParseBody([blank]) == Some([])
  {
    var e := LineEntries([blank]);
    assert e[0] == LineEntry(blank) == Some([]);
    assert e[..0] == [];
    assert Collect(e[..0]) == Some([]);
    var nothing: seq<Triple> := [];
    assert nothing + nothing == nothing;
  }

  /** A blank (or all-whitespace) line anywhere in the body changes nothing. */
  lemma BlankLineSkipped(x: seq<string>, blank: string, y: seq<string>)
    requires Strip(blank) == []
    ensures ParseBody(x + [blank] + y) == ParseBody(x + y)
  {
    ParseBodyAppend(x + [blank], y);
    ParseBodyAppend(x, [blank]);
    ParseBodyAppend(x, y);
    BlankLineEmpty(blank);
    if ParseBody(x).Some? {
      assert ParseBody(x).value + [] == ParseBody(x).value;
    }
  }

  lemma {:induction false} CollectFailsIff(es: seq<Option<seq<Triple>>>)
    ensures Collect(es).None? <==> exists i :: 0 <= i < |es| && es[i].None?
    decreases |es|
  {
    if es != [] {
      var init := es[..|es| - 1];
      CollectFailsIff(init);
      if Collect(init).None? {
        var i :| 0 <= i < |init| && init[i].None?;
        assert es[i] == init[i];
      } else if es[|es| - 1].Some? {
        forall i | 0 <= i < |es|
          ensures es[i].Some?
        {
          if i < |init| {
            assert es[i] == init[i];
          }
        }
      }
    }
  }

  /** The body fails exactly when one of its lines is neither blank nor a
      triple. */
  lemma ParseBodyFailsIff(lines: seq<string>)
    ensures ParseBody(lines).None? <==> exists i :: 0 <= i < |lines| && IsBad(lines[i])
  {
    CollectFailsIff(LineEntries(lines));
  }

  /** One bad line after the header makes the whole load fail. */
  lemma ParseRejectsBadLine(lines: seq<string>, i: nat)
    requires 2 <= i < |lines| && IsBad(lines[i])
    ensures Parse(lines) == Err(FormatError)
  {
    BodyRejectsBadLine(lines, i);
  }

  /** One bad line after the header makes the body fail. */
  lemma BodyRejectsBadLine(lines: seq<string>, i: nat)
    requires 2 <= i < |lines| && IsBad(lines[i])
    ensures ParseBody(lines[2..]) == None
  {
    assert lines[2..][i - 2] == lines[i];
    ParseBodyFailsIff(lines[2..]);
  }

  /** A slice grown by the element that follows it. */
  lemma ExtendSlice<T>(xs: seq<T>, j: nat, i: nat)
    requires j <= i < |xs|
    ensures xs[j..i + 1] == xs[j..i] + [xs[i]]
  {
  }

  /** One more line of the body, as the loader's loop reads it: what the
      line yields is appended, or the load fails. */
  lemma ParseBodyStep(lines: seq<string>, i: nat, ts: seq<Triple>)
    requires 2 <= i < |lines| && ParseBody(lines[2..i]) == Some(ts)
    ensures LineEntry(lines[i]).Some? ==> ParseBody(lines[2..i + 1]) == Some(ts + LineEntry(lines[i]).value)
    ensures LineEntry(lines[i]).None? ==> ParseBody(lines[2..]) == None
  {
    ExtendSlice(lines, 2, i);
    ParseBodyAppend(lines[2..i], [lines[i]]);
    ParseBodySingle(lines[i]);
    if LineEntry(lines[i]).None? {
      BodyRejectsBadLine(lines, i);
    }
  }

  // ---------------------------------------------------------------------
  // The triple pattern

  lemma SpanDigitsAt(s: string, i: nat, j: nat)
    requires i <= j <= |s|
    requires forall k :: i <= k < j ==> IsDigit(s[k])
    requires j < |s| ==> !IsDigit(s[j])
    ensures SpanDigits(s, i) == j
  {
  }

  lemma SpanSpacesAt(s: string, i: nat, j: nat)
    requires i <= j <= |s|
    requires forall k :: i <= k < j ==> IsSpace(s[k])
    requires j < |s| ==> !IsSpace(s[j])
    ensures SpanSpaces(s, i) == j
  {
  }

  /** A run of digits or spaces that stops inside s stops at the same place
      in s + rest; so do the groups built on them. */
  lemma SpanDigitsExtend(s: string, rest: string, i: nat)
    requires i <= |s| && SpanDigits(s, i) < |s|
    ensures SpanDigits(s + rest, i) == SpanDigits(s, i)
  {
    var j := SpanDigits(s, i);
    SpanDigitsAt(s + rest, i, j);
  }

  lemma SpanSpacesExtend(s: string, rest: string, i: nat)
    requires i <= |s| && SpanSpaces(s, i) < |s|
    ensures SpanSpaces(s + rest, i) == SpanSpaces(s, i)
  {
    var j := SpanSpaces(s, i);
    SpanSpacesAt(s + rest, i, j);
  }

  lemma NumberExtend(s: string, rest: string, i: nat)
    requires i <= |s| && Number(s, i).Some? && Number(s, i).value.1 < |s|
    ensures Number(s + rest, i) == Number(s, i)
  {
    var j := SpanDigits(s, i);
    SpanDigitsExtend(s, rest, i);
    assert (s + rest)[i..j] == s[i..j];
  }

  lemma SignedNumberExtend(s: string, rest: string, i: nat)
    requires i <= |s| && SignedNumber(s, i).Some? && SignedNumber(s, i).value.1 < |s|
    ensures SignedNumber(s + rest, i) == SignedNumber(s, i)
  {
    assert (s + rest)[i] == s[i];
    if s[i] == '-' {
      NumberExtend(s, rest, i + 1);
    } else {
      NumberExtend(s, rest, i);
    }
  }

  lemma ItemExtend(s: string, rest: string, i: nat, signed: bool, close: char)
    requires i <= |s| && Item(s, i, signed, close).Some?
    ensures Item(s + rest, i, signed, close) == Item(s, i, signed, close)
  {
    if signed {
      SignedNumberExtend(s, rest, i);
    } else {
      NumberExtend(s, rest, i);
    }
    var j := Item(s, i, signed, close).value.1 - 1;
    assert (s + rest)[j] == s[j];
  }

  /** The pattern is anchored at the start of the line only: whatever follows
      the closing parenthesis is ignored. */
  lemma MatchIgnoresTrailing(s: string, rest: string)
    requires MatchTriple(s).Some?
    ensures MatchTriple(s + rest) == MatchTriple(s)
  {
    ItemExtend(s, rest, 1, false, ',');
    var p1 := Item(s, 1, false, ',').value.1;
    SpanSpacesExtend(s, rest, p1);
    var b2 := SpanSpaces(s, p1);
    ItemExtend(s, rest, b2, false, ',');
    var p2 := Item(s, b2, false, ',').value.1;
    SpanSpacesExtend(s, rest, p2);
    ItemExtend(s, rest, SpanSpaces(s, p2), true, ')');
  }

  // ---------------------------------------------------------------------
  // Writing numbers and triples, and reading them back

  /** The decimal digits of n, without leading zeros. */
  function NatDigits(n: nat): (s: string)
    ensures s != [] && AllDigits(s)
    decreases n
  {
    (if n < 10 then [] else NatDigits(n / 10)) + [('0' as int + n % 10) as char]
  }

  /** Python's str(n) for an integer. */
  function IntToString(n: int): (s: string)
    ensures s != [] && (s[0] == '-' || IsDigit(s[0])) && IsDigit(s[|s| - 1])
  {
    if n < 0 then "-" + NatDigits(-n) else NatDigits(n)
  }

  /** d is a non-empty run of decimal digits whose value is n. */
  predicate Decimal(d: string, n: nat)
  {
    d != [] && AllDigits(d) && DigitsValue(d) == n
  }

  /** w is the text of the integer v: its digits, after a '-' when v < 0. */
  predicate SignedDecimal(w: string, v: int)
  {
    if v < 0 then |w| >= 2 && w[0] == '-' && Decimal(w[1..], -v) else Decimal(w, v)
  }

  /** w as the group -?\d+ reads it: a digit run, after a '-' when the
      value is read negated; leading zeros and "-0" included. */
  predicate SignedDigits(w: string, v: int)
  {
    w != [] && if w[0] == '-' then v <= 0 && Decimal(w[1..], -v) else v >= 0 && Decimal(w, v)
  }

  /** The text of an integer is also read by the group -?\d+. */
  lemma SignedDecimalDigits(w: string, v: int)
    requires SignedDecimal(w, v)
    ensures SignedDigits(w, v)
  {
    if v >= 0 {
      assert IsDigit(w[0]);
    }
  }

  /** Reading the digits of n gives n back. */
  lemma {:induction false} DigitsRoundTrip(n: nat)
    ensures Decimal(NatDigits(n), n)
    decreases n
  {
    var s := NatDigits(n);
    var init := if n < 10 then [] else NatDigits(n / 10);
    assert s[..|s| - 1] == init;
    if n >= 10 {
      DigitsRoundTrip(n / 10);
    }
  }

  /** str(v) is the text of v. */
  lemma IntToStringDecimal(v: int)
    ensures SignedDecimal(IntToString(v), v)
  {
    if v < 0 {
      assert IntToString(v)[1..] == NatDigits(-v);
      DigitsRoundTrip(-v);
    } else {
      DigitsRoundTrip(v);
    }
  }

  /** int() reads the text of v as v. */
  lemma ParseIntDecimal(w: string, v: int)
    requires SignedDecimal(w, v)
    ensures ParseInt(w) == Some(v)
  {
    if v < 0 {
      assert w[|w| - 1] == w[1..][|w| - 2];
    }
    IntStripUnchanged(w);
  }

  /** int(str(n)) == n. */
  lemma IntRoundTrip(n: int)
    ensures ParseInt(IntToString(n)) == Some(n)
  {
    IntToStringDecimal(n);
    ParseIntDecimal(IntToString(n), n);
  }

  lemma IndexOfAt(s: string, ch: char, i: nat)
    requires i <= |s|
    requires forall j :: 0 <= j < i ==> s[j] != ch
    requires i < |s| ==> s[i] == ch
    ensures IndexOf(s, ch) == i
  {
  }

  /** A header line key=w, the key not starting with whitespace and w the
      text of n, reads as n. */
  lemma UnpaddedHeaderOf(key: string, w: string, n: int)
    requires '=' !in key
    requires key != [] ==> !IsSpace(key[0])
    requires SignedDecimal(w, n)
    ensures Strip(key + "=" + w) == key + "=" + w
    ensures HeaderValue(key + "=" + w) == Some(n)
  {
    var s := key + "=" + w;
    assert s[|s| - 1] == w[|w| - 1];
    if n < 0 {
      assert w[|w| - 1] == w[1..][|w| - 2];
    }
    StripUnchanged(s);
    IndexOfAt(s, '=', |key|);
    assert s[|key| + 1..] == w;
    forall i | 0 <= i < |w|
      ensures w[i] != '='
    {
      if n < 0 && i > 0 {
        assert w[i] == w[1..][i - 1];
      }
    }
    IndexOfAt(w, '=', |w|);
    assert w[..|w|] == w;
    assert FieldAfterEq(s) == Some(w);
    ParseIntDecimal(w, n);
  }

  /** A header line key=w, w the text of n, reads as n: strip() removes
      any whitespace in front of the key, and the key is never read. */
  lemma HeaderOf(key: string, w: string, n: int)
    requires '=' !in key
    requires SignedDecimal(w, n)
    ensures HeaderValue(key + "=" + w) == Some(n)
  {
    TrimStartSpec(key);
    var k := TrimStart(key);
    var ws := key[..|key| - |k|];
    assert key == ws + k;
    assert AllSpace(ws) by {
      forall i | 0 <= i < |ws|
        ensures IsSpace(ws[i])
      {
        assert ws[i] == key[i];
      }
    }
    forall i | 0 <= i < |k|
      ensures k[i] != '='
    {
      assert k[i] == key[|ws| + i];
    }
    var y := k + "=" + w;
    assert key + "=" + w == ws + y;
    assert y[0] == if k == [] then '=' else k[0];
    UnpaddedHeaderOf(k, w, n);
    TrimStartSpaces(ws, y);
    assert TrimStart(y) == y;
    assert Strip(key + "=" + w) == y;
  }

  /** A header line written as key=n reads back as n, for any key without
      '='. */
  lemma HeaderRoundTrip(key: string, n: int)
    requires '=' !in key
    ensures HeaderValue(key + "=" + IntToString(n)) == Some(n)
  {
    IntToStringDecimal(n);
    HeaderOf(key, IntToString(n), n);
  }

  /** s is text int() reads as v: whitespace it skips, an optional sign, one
      or more digits, whitespace it skips. */
  ghost predicate IntText(s: string, v: int, ws1: string, sign: string, d: string, ws2: string)
  {
    && s == ws1 + sign + d + ws2
    && AllIntSpace(ws1) && AllIntSpace(ws2)
    && (sign == "" || sign == "+" || sign == "-")
    && d != [] && AllDigits(d)
    && v == if sign == "-" then -(DigitsValue(d) as int) else DigitsValue(d) as int
  }

  /** Leading whitespace ws before text that does not start with whitespace
      is all TrimStart removes. */
  lemma {:induction false} TrimStartSpaces(ws: string, y: string)
    requires AllSpace(ws) && (y == [] || !IsSpace(y[0]))
    ensures TrimStart(ws + y) == y
    decreases |ws|
  {
    if ws == [] {
      assert ws + y == y;
    } else {
      assert (ws + y)[1..] == ws[1..] + y;
      assert AllSpace(ws[1..]) by {
        forall k | 0 <= k < |ws| - 1
          ensures IsSpace(ws[1..][k])
        {
          assert ws[1..][k] == ws[k + 1];
        }
      }
      TrimStartSpaces(ws[1..], y);
    }
  }

  /** Trailing whitespace ws after text that does not end with whitespace
      is all TrimEnd removes. */
  lemma {:induction false} TrimEndSpaces(y: string, ws: string)
    requires AllSpace(ws) && (y == [] || !IsSpace(y[|y| - 1]))
    ensures TrimEnd(y + ws) == y
    decreases |ws|
  {
    if ws == [] {
      assert y + ws == y;
    } else {
      var z := y + ws;
      var init := ws[..|ws| - 1];
      assert z[..|z| - 1] == y + init;
      assert z[|z| - 1] == ws[|ws| - 1];
      assert AllSpace(init) by {
        forall k | 0 <= k < |init|
          ensures IsSpace(init[k])
        {
          assert init[k] == ws[k];
        }
      }
      TrimEndSpaces(y, init);
    }
  }

  /** Stripping whitespace from around x gives x back. */
  lemma StripPadded(ws1: string, x: string, ws2: string)
    requires AllSpace(ws1) && AllSpace(ws2)
    requires x != [] && !IsSpace(x[0]) && !IsSpace(x[|x| - 1])
    ensures Strip(ws1 + x + ws2) == x
  {
    assert ws1 + x + ws2 == ws1 + (x + ws2);
    assert (x + ws2)[0] == x[0];
    TrimStartSpaces(ws1, x + ws2);
    TrimEndSpaces(x, ws2);
  }

  /** int() reads skipped whitespace, an optional sign, digits and skipped
      whitespace as the value of the digits, negated after '-'. */
  lemma ParseIntOfText(s: string, v: int, ws1: string, sign: string, d: string, ws2: string)
    requires IntText(s, v, ws1, sign, d, ws2)
    ensures ParseInt(s) == Some(v)
  {
    var x := sign + d;
    assert s == ws1 + x + ws2;
    assert x[|x| - 1] == d[|d| - 1];
    assert IsDigit(d[0]);
    if sign == "" {
      assert x == d;
    } else {
      assert x[0] == sign[0];
      assert x[1..] == d;
    }
    IntStripPadded(ws1, x, ws2);
  }

  /** Whatever int() reads is such a text. */
  lemma TextOfInt(s: string, v: int)
    requires ParseInt(s) == Some(v)
    ensures exists ws1, sign, d, ws2 :: IntText(s, v, ws1, sign, d, ws2)
  {
    var ws1, ws2 := IntStripParts(s);
    var t := IntStrip(s);
    if t[0] == '-' || t[0] == '+' {
      var sign, d := t[..1], t[1..];
      assert t == sign + d;
      assert IntText(s, v, ws1, sign, d, ws2);
    } else {
      assert s == ws1 + "" + t + ws2;
      assert IntText(s, v, ws1, "", t, ws2);
    }
  }

  /** s is its strip between two runs of whitespace. */
  lemma StripParts(s: string) returns (ws1: string, ws2: string)
    ensures s == ws1 + Strip(s) + ws2 && AllSpace(ws1) && AllSpace(ws2)
  {
    var t := TrimStart(s);
    TrimStartSpec(s);
    TrimEndSpec(t);
    var i, j := |s| - |t|, |TrimEnd(t)|;
    ws1, ws2 := s[..i], t[j..];
    forall k | 0 <= k < |ws1|
      ensures IsSpace(ws1[k])
    {
      assert ws1[k] == s[k];
    }
    forall k | 0 <= k < |ws2|
      ensures IsSpace(ws2[k])
    {
      assert ws2[k] == t[j + k];
    }
    assert t == TrimEnd(t) + ws2;
    assert s == ws1 + t;
  }

  /** int(s) == v exactly when s is whitespace int() skips, an optional
      sign, digits and such whitespace, and the digits, negated after '-',
      make v. */
  lemma ParseIntIff(s: string, v: int)
    ensures ParseInt(s) == Some(v) <==> exists ws1, sign, d, ws2 :: IntText(s, v, ws1, sign, d, ws2)
  {
    if ParseInt(s) == Some(v) {
      TextOfInt(s, v);
    }
    if exists ws1, sign, d, ws2 :: IntText(s, v, ws1, sign, d, ws2) {
      var ws1, sign, d, ws2 :| IntText(s, v, ws1, sign, d, ws2);
      ParseIntOfText(s, v, ws1, sign, d, ws2);
    }
  }

  /** split('=')[1] of key=f, followed by nothing or by another '=', is f. */
  lemma FieldOfParts(key: string, f: string, tail: string)
    requires '=' !in key && '=' !in f && (tail == [] || tail[0] == '=')
    ensures FieldAfterEq(key + "=" + f + tail) == Some(f)
  {
    var s := key + "=" + f + tail;
    forall j | 0 <= j < |key|
      ensures s[j] != '='
    {
      assert s[j] == key[j];
    }
    IndexOfAt(s, '=', |key|);
    var rest := s[|key| + 1..];
    assert rest == f + tail;
    forall j | 0 <= j < |f|
      ensures rest[j] != '='
    {
      assert rest[j] == f[j];
    }
    IndexOfAt(rest, '=', |f|);
    assert rest[..|f|] == f;
  }

  /** s is a key without '=', then '=', its field split('=')[1], and either
      nothing or another '=' and anything. */
  lemma FieldParts(s: string) returns (key: string, tail: string)
    requires FieldAfterEq(s).Some?
    ensures s == key + "=" + FieldAfterEq(s).value + tail
    ensures '=' !in key && (tail == [] || tail[0] == '=')
  {
    var f := FieldAfterEq(s).value;
    var i := IndexOf(s, '=');
    var j := i + 1 + |f|;
    key, tail := s[..i], s[j..];
    assert s[..i + 1] == key + "=";
    assert s[..j] == s[..i + 1] + f;
    assert s == s[..j] + tail;
    forall k | 0 <= k < |key|
      ensures key[k] != '='
    {
      assert key[k] == s[k];
    }
  }

  /** A header line, stripped, is a key without '=', then '=', the field
      int() reads as v, and either nothing or another '=' and anything. */
  ghost predicate HeaderText(line: string, v: int, key: string, f: string, tail: string)
  {
    && Strip(line) == key + "=" + f + tail
    && '=' !in key && '=' !in f && (tail == [] || tail[0] == '=')
    && ParseInt(f) == Some(v)
  }

  /** A header line reads as v exactly when it is such a text. */
  lemma HeaderValueIff(line: string, v: int)
    ensures HeaderValue(line) == Some(v) <==> exists key, f, tail :: HeaderText(line, v, key, f, tail)
  {
    if HeaderValue(line) == Some(v) {
      var key, tail := FieldParts(Strip(line));
      assert HeaderText(line, v, key, FieldAfterEq(Strip(line)).value, tail);
    }
    if exists key, f, tail :: HeaderText(line, v, key, f, tail) {
      var key, f, tail :| HeaderText(line, v, key, f, tail);
      FieldOfParts(key, f, tail);
    }
  }

  /** The line the program prints for one entry: "(row, col, value)". */
  function FormatTriple(t: Triple): (line: string)
    requires t.row >= 0 && t.col >= 0
    ensures line != [] && line[0] == '(' && line[|line| - 1] == ')'
    ensures Strip(line) == line
  {
    var s := "(" + NatDigits(t.row) + ", " + NatDigits(t.col) + ", " + IntToString(t.value) + ")";
    PrintedLayout(s, NatDigits(t.row), NatDigits(t.col), IntToString(t.value));
    StripUnchanged(s);
    s
  }

  /** The digits of n, followed by a character that is not a digit, read as
      the number n. */
  lemma NumberAt(s: string, i: nat, d: string, n: nat)
    requires Decimal(d, n) && Placed(s, i, d)
    requires i + |d| < |s| && !IsDigit(s[i + |d|])
    ensures Number(s, i) == Some((n, i + |d|))
  {
    assert s[i..i + |d|] == d;
    SpanDigitsAt(s, i, i + |d|);
  }

  /** The text of v, as the signed group reads it, followed by `close`,
      reads as the signed group v. */
  lemma SignedItemAt(s: string, i: nat, w: string, v: int, close: char)
    requires SignedDigits(w, v) && Placed(s, i, w)
    requires i + |w| < |s| && s[i + |w|] == close && !IsDigit(close)
    ensures Item(s, i, true, close) == Some((v, i + |w| + 1))
  {
    assert s[i] == w[0];
    if w[0] == '-' {
      var d := w[1..];
      forall k | 0 <= k < |d|
        ensures s[i + 1 + k] == d[k]
      {
        assert s[i + (k + 1)] == w[k + 1];
      }
      NumberAt(s, i + 1, d, -v);
    } else {
      NumberAt(s, i, w, v);
    }
  }

  /** The digits of n followed by `close` read as the unsigned group n. */
  lemma UnsignedItemAt(s: string, i: nat, d: string, n: nat, close: char)
    requires Decimal(d, n) && Placed(s, i, d)
    requires i + |d| < |s| && s[i + |d|] == close && !IsDigit(close)
    ensures Item(s, i, false, close) == Some((n as int, i + |d| + 1))
  {
    NumberAt(s, i, d, n);
  }

  /** The characters of d sit in s from position i on. */
  ghost predicate Placed(s: string, i: nat, d: string)
  {
    i + |d| <= |s| && forall k {:trigger d[k]} :: 0 <= k < |d| ==> s[i + k] == d[k]
  }

  /** Where the pieces of a printed entry sit. */
  lemma PrintedLayout(s: string, d1: string, d2: string, dv: string)
    requires s == "(" + d1 + ", " + d2 + ", " + dv + ")"
    ensures |s| == |d1| + 2 + 1 + |d2| + 1 + 1 + |dv| + 1
    ensures s[0] == '('
    ensures Placed(s, 1, d1) && s[|d1| + 1] == ',' && s[|d1| + 2] == ' '
    ensures Placed(s, |d1| + 2 + 1, d2)
    ensures s[|d1| + 2 + 1 + |d2|] == ',' && s[|d1| + 2 + 1 + |d2| + 1] == ' '
    ensures Placed(s, |d1| + 2 + 1 + |d2| + 1 + 1, dv)
    ensures s[|d1| + 2 + 1 + |d2| + 1 + 1 + |dv|] == ')'
  {
  }

  /** A run of whitespace w in place at p stops where a character that is
      not whitespace follows it. */
  lemma SpacesAt(s: string, p: nat, w: string)
    requires AllSpace(w) && Placed(s, p, w)
    requires p + |w| < |s| && !IsSpace(s[p + |w|])
    ensures SpanSpaces(s, p) == p + |w|
  {
    forall k | p <= k < p + |w|
      ensures IsSpace(s[k])
    {
      assert s[k] == w[k - p];
    }
    SpanSpacesAt(s, p, p + |w|);
  }

  /** `\s*` then the unsigned group: whitespace w from p, the digits of n
      from b, then `close` just before e. */
  lemma UnsignedGroupAt(s: string, p: nat, w: string, d: string, n: nat, close: char, b: nat, e: nat)
    requires b == p + |w| && e == b + |d| + 1 && e <= |s|
    requires AllSpace(w) && Placed(s, p, w)
    requires Decimal(d, n) && Placed(s, b, d)
    requires s[e - 1] == close && !IsDigit(close)
    ensures SpanSpaces(s, p) == b
    ensures Item(s, b, false, close) == Some((n as int, e))
  {
    assert s[b] == d[0];
    SpacesAt(s, p, w);
    UnsignedItemAt(s, b, d, n, close);
  }

  /** `\s*` then the signed group: whitespace w from p, the text dv of v
      from b, then `close` just before e. */
  lemma SignedGroupAt(s: string, p: nat, w: string, dv: string, v: int, close: char, b: nat, e: nat)
    requires b == p + |w| && e == b + |dv| + 1 && e <= |s|
    requires AllSpace(w) && Placed(s, p, w)
    requires SignedDigits(dv, v) && Placed(s, b, dv)
    requires s[e - 1] == close && !IsDigit(close)
    ensures SpanSpaces(s, p) == b
    ensures Item(s, b, true, close) == Some((v, e))
  {
    assert s[b] == dv[0];
    SpacesAt(s, p, w);
    SignedItemAt(s, b, dv, v, close);
  }

  /** The three groups found one after the other make the match. */
  lemma MatchTripleOf(s: string, t: Triple, p1: nat, b1: nat, p2: nat, b2: nat, end: nat)
    requires At(s, 0, '(')
    requires Item(s, 1, false, ',') == Some((t.row, p1))
    requires SpanSpaces(s, p1) == b1 && Item(s, b1, false, ',') == Some((t.col, p2))
    requires SpanSpaces(s, p2) == b2 && Item(s, b2, true, ')') == Some((t.value, end))
    ensures MatchTriple(s) == Some(t)
  {
  }

  /** The text the pattern describes: "(" d1 "," w1 d2 "," w2 dv ")" and
      anything after it, where d1 and d2 are digit runs holding the row and
      the column (leading zeros allowed), w1 and w2 whitespace runs (possibly
      empty), and dv a digit run holding the value, after a '-' when the
      value is read negated. */
  ghost predicate TripleText(s: string, t: Triple, d1: string, w1: string, d2: string,
                             w2: string, dv: string, rest: string)
  {
    && s == "(" + d1 + "," + w1 + d2 + "," + w2 + dv + ")" + rest
    && t.row >= 0 && Decimal(d1, t.row) && AllSpace(w1)
    && t.col >= 0 && Decimal(d2, t.col) && AllSpace(w2)
    && SignedDigits(dv, t.value)
  }

  /** Where the pieces of a triple text sit: the row digits from 1, the
      whitespace runs from p1 and p2, the column digits from b1, the value
      from b2; the punctuation just before p1, p2 and e. */
  lemma TextLayout(s: string, d1: string, w1: string, d2: string, w2: string, dv: string, rest: string,
                   p1: nat, b1: nat, p2: nat, b2: nat, e: nat)
    requires s == "(" + d1 + "," + w1 + d2 + "," + w2 + dv + ")" + rest
    requires p1 == |d1| + 2 && b1 == p1 + |w1| && p2 == b1 + |d2| + 1
    requires b2 == p2 + |w2| && e == b2 + |dv| + 1
    ensures e <= |s| && s[0] == '(' && Placed(s, 1, d1) && s[p1 - 1] == ','
    ensures Placed(s, p1, w1) && Placed(s, b1, d2) && s[p2 - 1] == ','
    ensures Placed(s, p2, w2) && Placed(s, b2, dv) && s[e - 1] == ')'
  {
  }

  /** The pieces of a triple text, in place, read as the groups of the
      pattern, one after the other. */
  lemma GroupsOfLayout(s: string, t: Triple, d1: string, w1: string, d2: string, w2: string, dv: string,
                       p1: nat, b1: nat, p2: nat, b2: nat, e: nat)
    requires p1 == |d1| + 2 && b1 == p1 + |w1| && p2 == b1 + |d2| + 1
    requires b2 == p2 + |w2| && e == b2 + |dv| + 1 && e <= |s|
    requires t.row >= 0 && Decimal(d1, t.row) && AllSpace(w1)
    requires t.col >= 0 && Decimal(d2, t.col) && AllSpace(w2) && SignedDigits(dv, t.value)
    requires Placed(s, 1, d1) && s[p1 - 1] == ','
    requires Placed(s, p1, w1) && Placed(s, b1, d2) && s[p2 - 1] == ','
    requires Placed(s, p2, w2) && Placed(s, b2, dv) && s[e - 1] == ')'
    ensures Item(s, 1, false, ',') == Some((t.row, p1))
    ensures SpanSpaces(s, p1) == b1 && Item(s, b1, false, ',') == Some((t.col, p2))
    ensures SpanSpaces(s, p2) == b2 && Item(s, b2, true, ')') == Some((t.value, e))
  {
    assert AllSpace([]) && Placed(s, 1, []);
    UnsignedGroupAt(s, 1, [], d1, t.row, ',', 1, p1);
    UnsignedGroupAt(s, p1, w1, d2, t.col, ',', b1, p2);
    SignedGroupAt(s, p2, w2, dv, t.value, ')', b2, e);
  }

  /** Every triple text matches as its triple. */
  lemma MatchOfText(s: string, t: Triple, d1: string, w1: string, d2: string, w2: string, dv: string, rest: string)
    requires TripleText(s, t, d1, w1, d2, w2, dv, rest)
    ensures MatchTriple(s) == Some(t)
  {
    var p1 := |d1| + 2;
    var b1 := p1 + |w1|;
    var p2 := b1 + |d2| + 1;
    var b2 := p2 + |w2|;
    var e := b2 + |dv| + 1;
    TextLayout(s, d1, w1, d2, w2, dv, rest, p1, b1, p2, b2, e);
    GroupsOfLayout(s, t, d1, w1, d2, w2, dv, p1, b1, p2, b2, e);
    MatchTripleOf(s, t, p1, b1, p2, b2, e);
  }

  /** An unsigned group read from i to p: the characters before `close` are
      the digits of its number. */
  lemma UnsignedItemShape(s: string, i: nat, close: char, n: int, p: nat)
    requires i <= |s| && Item(s, i, false, close) == Some((n, p))
    ensures i < p - 1 && p <= |s| && s[p - 1] == close
    ensures n >= 0 && Decimal(s[i..p - 1], n)
  {
    var j := SpanDigits(s, i);
    assert Number(s, i) == Some((DigitsValue(s[i..j]), j));
    assert p == j + 1;
    forall k | 0 <= k < j - i
      ensures IsDigit(s[i..j][k])
    {
      assert s[i..j][k] == s[i + k];
    }
  }

  /** A signed group read from i to p: the characters before `close` are an
      optional '-' and the digits of its number. */
  lemma SignedItemShape(s: string, i: nat, close: char, v: int, p: nat)
    requires i <= |s| && Item(s, i, true, close) == Some((v, p))
    ensures i < p - 1 && p <= |s| && s[p - 1] == close
    ensures SignedDigits(s[i..p - 1], v)
  {
    var w := s[i..p - 1];
    if i < |s| && s[i] == '-' {
      var j := SpanDigits(s, i + 1);
      assert Number(s, i + 1) == Some((DigitsValue(s[i + 1..j]), j));
      assert p == j + 1;
      var d := s[i + 1..j];
      assert w[1..] == d;
      forall k | 0 <= k < |d|
        ensures IsDigit(d[k])
      {
        assert d[k] == s[i + 1 + k];
      }
    } else {
      var j := SpanDigits(s, i);
      assert Number(s, i) == Some((DigitsValue(s[i..j]), j));
      assert p == j + 1;
      forall k | 0 <= k < j - i
        ensures IsDigit(w[k])
      {
        assert w[k] == s[i + k];
      }
    }
  }

  /** The run SpanSpaces skips is whitespace. */
  lemma SpacesShape(s: string, i: nat)
    requires i <= |s|
    ensures AllSpace(s[i..SpanSpaces(s, i)])
  {
    var j := SpanSpaces(s, i);
    forall k | 0 <= k < j - i
      ensures IsSpace(s[i..j][k])
    {
      assert s[i..j][k] == s[i + k];
    }
  }

  /** Every match is read from a triple text. */
  lemma MatchTextOf(s: string)
    requires MatchTriple(s).Some?
    ensures exists d1, w1, d2, w2, dv, rest :: TripleText(s, MatchTriple(s).value, d1, w1, d2, w2, dv, rest)
  {
    var t := MatchTriple(s).value;
    var p1 := Item(s, 1, false, ',').value.1;
    var b1 := SpanSpaces(s, p1);
    var p2 := Item(s, b1, false, ',').value.1;
    var b2 := SpanSpaces(s, p2);
    var e := Item(s, b2, true, ')').value.1;
    TextOfGroups(s, t, p1, b1, p2, b2, e);
  }

  /** The three groups of a match, read one after the other, cut s into a
      triple text. */
  lemma TextOfGroups(s: string, t: Triple, p1: nat, b1: nat, p2: nat, b2: nat, e: nat)
    requires At(s, 0, '(')
    requires Item(s, 1, false, ',') == Some((t.row, p1))
    requires SpanSpaces(s, p1) == b1 && Item(s, b1, false, ',') == Some((t.col, p2))
    requires SpanSpaces(s, p2) == b2 && Item(s, b2, true, ')') == Some((t.value, e))
    ensures TripleText(s, t, s[1..p1 - 1], s[p1..b1], s[b1..p2 - 1], s[p2..b2], s[b2..e - 1], s[e..])
  {
    UnsignedItemShape(s, 1, ',', t.row, p1);
    SpacesShape(s, p1);
    UnsignedItemShape(s, b1, ',', t.col, p2);
    SpacesShape(s, p2);
    SignedItemShape(s, b2, ')', t.value, e);
    TextOfPieces(s, t, p1, b1, p2, b2, e);
  }

  /** s cut where the groups of a match start and end is a triple text. */
  lemma TextOfPieces(s: string, t: Triple, p1: nat, b1: nat, p2: nat, b2: nat, e: nat)
    requires 1 < p1 - 1 && p1 <= b1 < p2 - 1 && p2 <= b2 < e - 1 && e <= |s|
    requires s[0] == '(' && s[p1 - 1] == ',' && s[p2 - 1] == ',' && s[e - 1] == ')'
    requires t.row >= 0 && Decimal(s[1..p1 - 1], t.row) && AllSpace(s[p1..b1])
    requires t.col >= 0 && Decimal(s[b1..p2 - 1], t.col) && AllSpace(s[p2..b2])
    requires SignedDigits(s[b2..e - 1], t.value)
    ensures TripleText(s, t, s[1..p1 - 1], s[p1..b1], s[b1..p2 - 1], s[p2..b2], s[b2..e - 1], s[e..])
  {
    JoinPieces(s, p1, b1, p2, b2, e);
  }

  /** s is "(" d1 "," w1 d2 "," w2 dv ")" rest for the pieces between the
      punctuation at 0, p1 - 1, p2 - 1 and e - 1. */
  lemma JoinPieces(s: string, p1: nat, b1: nat, p2: nat, b2: nat, e: nat)
    requires 1 < p1 - 1 && p1 <= b1 < p2 - 1 && p2 <= b2 < e - 1 && e <= |s|
    requires s[0] == '(' && s[p1 - 1] == ',' && s[p2 - 1] == ',' && s[e - 1] == ')'
    ensures s == "(" + s[1..p1 - 1] + "," + s[p1..b1] + s[b1..p2 - 1] + "," + s[p2..b2] + s[b2..e - 1] + ")" + s[e..]
  {
    assert s[..p1] == "(" + s[1..p1 - 1] + ",";
    assert s[..p2] == s[..p1] + s[p1..b1] + s[b1..p2 - 1] + ",";
    assert s[..e] == s[..p2] + s[p2..b2] + s[b2..e - 1] + ")";
    assert s == s[..e] + s[e..];
  }

  /** The pattern matches as t exactly when s starts with a triple text of t. */
  lemma MatchTripleIff(s: string, t: Triple)
    ensures MatchTriple(s) == Some(t) <==>
              exists d1, w1, d2, w2, dv, rest :: TripleText(s, t, d1, w1, d2, w2, dv, rest)
  {
    if MatchTriple(s) == Some(t) {
      MatchTextOf(s);
    }
    if exists d1, w1, d2, w2, dv, rest :: TripleText(s, t, d1, w1, d2, w2, dv, rest) {
      var d1, w1, d2, w2, dv, rest :| TripleText(s, t, d1, w1, d2, w2, dv, rest);
      MatchOfText(s, t, d1, w1, d2, w2, dv, rest);
    }
  }

  /** A printed entry reads back as the same entry. */
  lemma MatchFormatted(t: Triple)
    requires t.row >= 0 && t.col >= 0
    ensures MatchTriple(FormatTriple(t)) == Some(t)
  {
    var d1, d2, dv := NatDigits(t.row), NatDigits(t.col), IntToString(t.value);
    DigitsRoundTrip(t.row);
    DigitsRoundTrip(t.col);
    IntToStringDecimal(t.value);
    SignedDecimalDigits(dv, t.value);
    PrintedIsText(d1, d2, dv);
    assert AllSpace(" ");
    MatchOfText(FormatTriple(t), t, d1, " ", d2, " ", dv, "");
  }

  /** The printed layout is the triple text with one space in each run. */
  lemma PrintedIsText(d1: string, d2: string, dv: string)
    ensures "(" + d1 + ", " + d2 + ", " + dv + ")" == "(" + d1 + "," + " " + d2 + "," + " " + dv + ")" + ""
  {
  }

  /** A printed entry is a body line that yields exactly that entry. */
  lemma LineOfFormatted(t: Triple)
    requires t.row >= 0 && t.col >= 0
    ensures LineEntry(FormatTriple(t)) == Some([t])
  {
    var s := FormatTriple(t);
    PrintedLayout(s, NatDigits(t.row), NatDigits(t.col), IntToString(t.value));
    StripUnchanged(s);
    MatchFormatted(t);
  }

  /** The body lines written for a sequence of entries, one per line. */
  function FormatBody(ts: seq<Triple>): (lines: seq<string>)
    requires forall i :: 0 <= i < |ts| ==> ts[i].row >= 0 && ts[i].col >= 0
    ensures |lines| == |ts|
    ensures forall i :: 0 <= i < |ts| ==> lines[i] == FormatTriple(ts[i])
  {
    seq(|ts|, i requires 0 <= i < |ts| => FormatTriple(ts[i]))
  }

  /** Line outcomes that are one entry each combine into those entries, in
      order. */
  lemma {:induction false} CollectSingles(es: seq<Option<seq<Triple>>>, ts: seq<Triple>)
    requires |es| == |ts|
    requires forall i :: 0 <= i < |es| ==> es[i] == Some([ts[i]])
    ensures Collect(es) == Some(ts)
    decreases |ts|
  {
    if ts != [] {
      var n := |ts| - 1;
      CollectSingles(es[..n], ts[..n]);
      assert ts[..n] + [ts[n]] == ts;
    }
  }

  /** The body written for some entries reads back as the same entries, in
      the same order. */
  lemma FormattedBodyRoundTrip(ts: seq<Triple>)
    requires forall i :: 0 <= i < |ts| ==> ts[i].row >= 0 && ts[i].col >= 0
    ensures ParseBody(FormatBody(ts)) == Some(ts)
  {
    var lines := FormatBody(ts);
    var es := LineEntries(lines);
    forall i | 0 <= i < |es|
      ensures es[i] == Some([ts[i]])
    {
      LineOfFormatted(ts[i]);
    }
    CollectSingles(es, ts);
  }

  /** A whole matrix text: two header lines key=n (the program expects the
      keys rows and cols, but reads only what follows the '='), then one
      line per entry. */
  function Render(k0: string, k1: string, rows: int, cols: int, ts: seq<Triple>): (lines: seq<string>)
    requires forall i :: 0 <= i < |ts| ==> ts[i].row >= 0 && ts[i].col >= 0
    ensures |lines| == |ts| + 2
    ensures lines[2..] == FormatBody(ts)
  {
    [k0 + "=" + IntToString(rows), k1 + "=" + IntToString(cols)] + FormatBody(ts)
  }

  /** Two header lines and a body that all parse give the loaded matrix. */
  lemma ParseOfParts(h0: string, h1: string, body: seq<string>, rows: int, cols: int, ts: seq<Triple>)
    requires HeaderValue(h0) == Some(rows) && HeaderValue(h1) == Some(cols)
    requires ParseBody(body) == Some(ts)
    ensures Parse([h0, h1] + body) == Ok(Loaded(rows, cols, ts))
  {
    var lines := [h0, h1] + body;
    assert lines[0] == h0 && lines[1] == h1 && lines[2..] == body;
  }

  /** A text loads exactly when it has two header lines that read as numbers
      and a body that parses, and then as those numbers and entries. */
  lemma PartsOfParse(lines: seq<string>)
    ensures Parse(lines).Ok? <==> && |lines| >= 2
                                   && HeaderValue(lines[0]).Some? && HeaderValue(lines[1]).Some?
                                   && ParseBody(lines[2..]).Some?
    ensures Parse(lines).Ok? ==>
              Parse(lines).value
              == Loaded(HeaderValue(lines[0]).value, HeaderValue(lines[1]).value, ParseBody(lines[2..]).value)
  {
  }

  /** A missing header line, or one that does not read as a number, makes
      the whole load fail. */
  lemma ParseRejectsBadHeader(lines: seq<string>)
    requires |lines| < 2 || HeaderValue(lines[0]).None? || HeaderValue(lines[1]).None?
    ensures Parse(lines) == Err(FormatError)
  {
    PartsOfParse(lines);
  }

  /** Loading a rendered text gives back its dimensions and its entries,
      for any header keys without '='. */
  lemma RenderRoundTrip(k0: string, k1: string, rows: int, cols: int, ts: seq<Triple>)
    requires '=' !in k0 && '=' !in k1
    requires forall i :: 0 <= i < |ts| ==> ts[i].row >= 0 && ts[i].col >= 0
    ensures Parse(Render(k0, k1, rows, cols, ts)) == Ok(Loaded(rows, cols, ts))
  {
    HeaderRoundTrip(k0, rows);
    HeaderRoundTrip(k1, cols);
    FormattedBodyRoundTrip(ts);
    ParseOfParts(k0 + "=" + IntToString(rows), k1 + "=" + IntToString(cols), FormatBody(ts), rows, cols, ts);
  }
}
