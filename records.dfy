/** The persisted template format. The training script writes one CSV row per
    recorded hand whose cells are `str((x, y))`, and the testing script reads
    each cell back by dropping its first and last character and taking the
    runs of decimal digits, then builds each row's descriptor. */
module Records {
  import opened Wrappers
  import opened Descriptors

  predicate IsDigit(c: char) {
    '0' <= c <= '9'
  }

  predicate AllDigits(s: string) {
    forall i :: 0 <= i < |s| ==> IsDigit(s[i])
  }

  predicate NoDigits(s: string) {
    forall i :: 0 <= i < |s| ==> !IsDigit(s[i])
  }

  function DigitChar(d: nat): (c: char)
    requires d < 10
    ensures IsDigit(c)
  {
    ('0' as int + d) as char
  }

  function DigitValue(c: char): nat
    requires IsDigit(c)
  {
    c as int - '0' as int
  }

  /** `str(n)` for n >= 0: its decimal digits, most significant first. */
  function NatToString(n: nat): (s: string)
    ensures s != [] && AllDigits(s)
  {
    if n < 10 then [DigitChar(n)] else NatToString(n / 10) + [DigitChar(n % 10)]
  }

  /** `str(i)`: a minus sign before the digits of a negative number. */
  function IntToString(i: int): (s: string)
    ensures i >= 0 ==> s != [] && AllDigits(s)
    ensures i < 0 ==> |s| >= 2 && s[0] == '-' && AllDigits(s[1..])
  {
    if i < 0 then "-" + NatToString(-i) else NatToString(i)
  }

  /** `int(s)` for a run of decimal digits. */
  function ParseNat(s: string): (n: nat)
    requires AllDigits(s)
    // the last digit is the units digit
    ensures s != [] ==> n % 10 == DigitValue(s[|s| - 1])
  {
    if s == [] then 0 else 10 * ParseNat(s[..|s| - 1]) + DigitValue(s[|s| - 1])
  }

  /** Reading back the digits `str` writes gives the number. */
  lemma {:induction false} ParseNatToString(n: nat)
    ensures ParseNat(NatToString(n)) == n
  {
    var s := NatToString(n);
    if n < 10 {
      assert s[..0] == [];
    } else {
      ParseNatToString(n / 10);
      assert s[..|s| - 1] == NatToString(n / 10);
    }
  }

  /** `str((x, y))`: the cell `saveToCSV` writes for one landmark. */
  function FormatCell(p: Point): (cell: string)
    ensures |cell| >= 6 && cell[0] == '(' && cell[|cell| - 1] == ')'
  {
    "(" + IntToString(p.x) + ", " + IntToString(p.y) + ")"
  }

  /** Length of the run of digits that `s` starts with. */
  function DigitPrefixLength(s: string): (n: nat)
    ensures n <= |s| && AllDigits(s[..n]) && (n < |s| ==> !IsDigit(s[n]))
  {
    if s == [] || !IsDigit(s[0]) then 0
    else
      var n := 1 + DigitPrefixLength(s[1..]);
      assert s[..n] == [s[0]] + s[1..][..n - 1];
      n
  }

  /** `re.findall('\d+', s)`: the maximal runs of decimal digits, left to right. */
  function DigitRuns(s: string): (runs: seq<string>)
    ensures forall k :: 0 <= k < |runs| ==> runs[k] != [] && AllDigits(runs[k])
    decreases |s|
  {
    if s == [] then []
    else if !IsDigit(s[0]) then DigitRuns(s[1..])
    else
      var n := DigitPrefixLength(s);
      [s[..n]] + DigitRuns(s[n..])
  }

  /** `s[1:-1]` */
  function Inner(s: string): string {
    if |s| < 2 then [] else s[1..|s| - 1]
  }

  /** `tuple(map(int, re.findall('\d+', s[1:-1])))`: the numbers of one cell. */
  function ParseCell(cell: string): (t: seq<nat>)
    ensures |t| == |DigitRuns(Inner(cell))|
  {
    var runs := DigitRuns(Inner(cell));
    seq(|runs|, k requires 0 <= k < |runs| => ParseNat(runs[k]))
  }

  lemma {:induction false} DigitPrefixOf(d: string, rest: string)
    requires AllDigits(d) && (rest == [] || !IsDigit(rest[0]))
    ensures DigitPrefixLength(d + rest) == |d|
  {
    if d == [] {
      assert d + rest == rest;
    } else {
      assert (d + rest)[1..] == d[1..] + rest;
      DigitPrefixOf(d[1..], rest);
    }
  }

  lemma {:induction false} RunsTakeDigits(d: string, rest: string)
    requires d != [] && AllDigits(d) && (rest == [] || !IsDigit(rest[0]))
    ensures DigitRuns(d + rest) == [d] + DigitRuns(rest)
  {
    DigitPrefixOf(d, rest);
    var s := d + rest;
    assert s[..|d|] == d;
    assert s[|d|..] == rest;
  }

  lemma {:induction false} RunsSkipNonDigits(p: string, rest: string)
    requires NoDigits(p)
    ensures DigitRuns(p + rest) == DigitRuns(rest)
  {
    if p == [] {
      assert p + rest == rest;
    } else {
      assert (p + rest)[1..] == p[1..] + rest;
      RunsSkipNonDigits(p[1..], rest);
    }
  }

  /** The absolute value of an integer. */
  function Magnitude(i: int): nat {
    if i < 0 then -i else i
  }

  /** The sign `str` writes before the digits of `i`. */
  function Sign(i: int): (s: string)
    ensures NoDigits(s)
  {
    if i < 0 then "-" else ""
  }

  lemma IntToStringParts(i: int)
    ensures IntToString(i) == Sign(i) + NatToString(Magnitude(i))
  {
    if i >= 0 {
      assert "" + NatToString(i) == NatToString(i);
    }
  }

  /** What is left of a written cell once its parentheses are dropped. */
  lemma {:induction false} InnerOfCell(p: Point)
    ensures Inner(FormatCell(p)) == Sign(p.x) + (NatToString(Magnitude(p.x)) + (", " + Sign(p.y) + NatToString(Magnitude(p.y))))
  {
    IntToStringParts(p.x);
    IntToStringParts(p.y);
    var inner := Sign(p.x) + (NatToString(Magnitude(p.x)) + (", " + Sign(p.y) + NatToString(Magnitude(p.y))));
    assert FormatCell(p) == "(" + inner + ")";
  }

  /** The digit runs of `a, b` with optional signs are the digits of a and of b. */
  lemma {:induction false} RunsOfPair(sx: string, dx: string, sy: string, dy: string)
    requires NoDigits(sx) && NoDigits(sy)
    requires dx != [] && AllDigits(dx) && dy != [] && AllDigits(dy)
    ensures DigitRuns(sx + (dx + (", " + sy + dy))) == [dx, dy]
  {
    var tail := ", " + sy + dy;
    RunsSkipNonDigits(sx, dx + tail);
    RunsTakeDigits(dx, tail);
    assert tail == (", " + sy) + (dy + "");
    RunsSkipNonDigits(", " + sy, dy + "");
    assert dy + "" == dy;
    RunsTakeDigits(dy, "");
  }

  /** Parsing a written cell gives back both coordinates without their signs:
      `(x, y)` for non-negative coordinates, `(|x|, |y|)` in general. */
  lemma {:induction false} CellRoundTrip(p: Point)
    ensures ParseCell(FormatCell(p)) == [Magnitude(p.x), Magnitude(p.y)]
    ensures p.x >= 0 && p.y >= 0 ==> ParseCell(FormatCell(p)) == [p.x, p.y]
  {
    InnerOfCell(p);
    RunsOfPair(Sign(p.x), NatToString(Magnitude(p.x)), Sign(p.y), NatToString(Magnitude(p.y)));
    ParseNatToString(Magnitude(p.x));
    ParseNatToString(Magnitude(p.y));
  }

  /** One landmark from a parsed cell: `findDistances` reads entries 0 and 1
      of it, so a cell with fewer than two numbers is an IndexError. */
  function CellPoint(t: seq<nat>): Option<Point> {
    if |t| < 2 then None else Some(Point(t[0], t[1]))
  }

  /** The landmarks of one CSV row, or None when a cell has fewer than two numbers. */
  function ParseRow(row: seq<string>): (r: Option<seq<Point>>)
    ensures r.None? <==> exists k :: 0 <= k < |row| && CellPoint(ParseCell(row[k])).None?
    ensures r.Some? ==> |r.value| == |row| && forall k :: 0 <= k < |row| ==> CellPoint(ParseCell(row[k])) == Some(r.value[k])
  {
    if row == [] then Some([])
    else
      match (ParseRow(row[..|row| - 1]), CellPoint(ParseCell(row[|row| - 1])))
      case (Some(front), Some(p)) =>
        assert forall k :: 0 <= k < |row| - 1 ==> row[..|row| - 1][k] == row[k];
        Some(front + [p])
      case (None, _) =>
        assert forall k :: 0 <= k < |row| - 1 ==> row[..|row| - 1][k] == row[k];
        None
      case (_, None) => None
  }

  /** The row `saveToCSV` writes for one hand. */
  function FormatRow(hand: seq<Point>): (row: seq<string>)
    ensures |row| == |hand|
  {
    seq(|hand|, k requires 0 <= k < |hand| => FormatCell(hand[k]))
  }

  /** The hand with the sign of every coordinate dropped. */
  function AbsHand(hand: seq<Point>): (r: seq<Point>)
    ensures |r| == |hand|
  {
    seq(|hand|, k requires 0 <= k < |hand| => Point(Magnitude(hand[k].x), Magnitude(hand[k].y)))
  }

  predicate NonNegative(hand: seq<Point>) {
    forall k :: 0 <= k < |hand| ==> hand[k].x >= 0 && hand[k].y >= 0
  }

  /** Reading a written row gives the hand back with its signs dropped, and
      gives it back exactly when no coordinate is negative. */
  lemma {:induction false} RowRoundTrip(hand: seq<Point>)
    ensures ParseRow(FormatRow(hand)) == Some(AbsHand(hand))
    ensures NonNegative(hand) ==> ParseRow(FormatRow(hand)) == Some(hand)
  {
    var row := FormatRow(hand);
    forall k | 0 <= k < |row|
      ensures CellPoint(ParseCell(row[k])) == Some(AbsHand(hand)[k])
    {
      CellRoundTrip(hand[k]);
    }
    var r := ParseRow(row);
    assert r.Some?;
    assert r.value == AbsHand(hand);
    if NonNegative(hand) {
      assert AbsHand(hand) == hand;
    }
  }

  /** The descriptor the testing script builds from one CSV row, or the
      exception it raises. `findDistances` reads landmarks 0 and 9 for the
      palm size before it reads any other landmark, so a zero palm size is
      reported even when a later cell is short. */
  function RowDescriptor(row: seq<string>, sqrt: real -> real): (r: Result<Matrix, DescriptorError>)
    // too few cells is an IndexError
    ensures |row| <= PALM_INDEX ==> r == Failure(IndexError)
    // cells 0 and 9 are read first: they alone decide a zero palm size
    ensures r == Failure(ZeroDivisionError) <==>
      |row| > PALM_INDEX && CellPoint(ParseCell(row[0])).Some? && CellPoint(ParseCell(row[PALM_INDEX])).Some? &&
      Distance(CellPoint(ParseCell(row[0])).value, CellPoint(ParseCell(row[PALM_INDEX])).value, sqrt) == 0.0
    // otherwise a short cell anywhere is an IndexError
    ensures ParseRow(row).None? && r != Failure(ZeroDivisionError) ==> r == Failure(IndexError)
    // a row whose every cell holds a landmark gives the descriptor of those landmarks
    ensures ParseRow(row).Some? ==> r == DistanceMatrix(ParseRow(row).value, sqrt)
  {
    if |row| <= PALM_INDEX then Failure(IndexError)
    else
      var wrist, palm := CellPoint(ParseCell(row[0])), CellPoint(ParseCell(row[PALM_INDEX]));
      if wrist.None? || palm.None? then Failure(IndexError)
      else if Distance(wrist.value, palm.value, sqrt) == 0.0 then Failure(ZeroDivisionError)
      else
        match ParseRow(row)
        case None => Failure(IndexError)
        case Some(points) => DistanceMatrix(points, sqrt)
  }

  /** The descriptor, or the exception, of every row of the data file. */
  function RowDescriptors(rows: seq<seq<string>>, sqrt: real -> real): (rs: seq<Result<Matrix, DescriptorError>>)
    ensures |rs| == |rows|
  {
    seq(|rows|, k requires 0 <= k < |rows| => RowDescriptor(rows[k], sqrt))
  }

  /** The values of a run of results, or the error of the first failure. */
  function Collect(rs: seq<Result<Matrix, DescriptorError>>): (r: Result<seq<Matrix>, DescriptorError>)
    ensures r.Success? ==> |r.value| == |rs|
  {
    if rs == [] then Success([])
    else
      var front := Collect(rs[..|rs| - 1]);
      if front.Failure? then front
      else if rs[|rs| - 1].Failure? then Failure(rs[|rs| - 1].error)
      else Success(front.value + [rs[|rs| - 1].value])
  }

  /** Collecting succeeds exactly when every result does, and then keeps
      their values in order; otherwise it reports the first failure. */
  lemma {:induction false} CollectMeaning(rs: seq<Result<Matrix, DescriptorError>>)
    ensures Collect(rs).Success? <==> forall k :: 0 <= k < |rs| ==> rs[k].Success?
    ensures Collect(rs).Success? ==> forall k :: 0 <= k < |rs| ==> rs[k] == Success(Collect(rs).value[k])
    ensures Collect(rs).Failure? ==>
      exists i :: 0 <= i < |rs| && rs[i] == Failure(Collect(rs).error) && (forall k :: 0 <= k < i ==> rs[k].Success?)
  {
    if rs != [] {
      var front := rs[..|rs| - 1];
      CollectMeaning(front);
      assert forall k :: 0 <= k < |front| ==> front[k] == rs[k];
    }
  }

  /** If every result is the value it should be, collecting them succeeds
      with those values. */
  lemma CollectAllSucceed(rs: seq<Result<Matrix, DescriptorError>>, values: seq<Matrix>)
    requires |rs| == |values| && forall k :: 0 <= k < |rs| ==> rs[k] == Success(values[k])
    ensures Collect(rs) == Success(values)
  {
    CollectMeaning(rs);
    assert Collect(rs).value == values;
  }

  /** Once a prefix of the results fails, collecting all of them fails the same way. */
  lemma {:induction false} CollectFailurePersists(rs: seq<Result<Matrix, DescriptorError>>, i: nat)
    requires i <= |rs| && Collect(rs[..i]).Failure?
    ensures Collect(rs) == Collect(rs[..i])
    decreases |rs|
  {
    if i == |rs| {
      assert rs[..i] == rs;
    } else {
      var front := rs[..|rs| - 1];
      assert front[..i] == rs[..i];
      CollectFailurePersists(front, i);
    }
  }

  /** The result of `loadKnownGestures` on the rows of the data file. */
  function LoadAll(rows: seq<seq<string>>, sqrt: real -> real): (r: Result<seq<Matrix>, DescriptorError>)
    ensures r.Success? <==> forall k :: 0 <= k < |rows| ==> RowDescriptor(rows[k], sqrt).Success?
    ensures r.Success? ==> |r.value| == |rows| && forall k :: 0 <= k < |rows| ==> RowDescriptor(rows[k], sqrt) == Success(r.value[k])
  {
    var rs := RowDescriptors(rows, sqrt);
    CollectMeaning(rs);
    assert forall k :: 0 <= k < |rows| ==> rs[k] == RowDescriptor(rows[k], sqrt);
    Collect(rs)
  }

  /** `loadKnownGestures` on the parsed rows of the data file. */
  method LoadKnownGestures(examples: seq<seq<string>>, sqrt: real -> real) returns (r: Result<seq<Matrix>, DescriptorError>)
    ensures r == LoadAll(examples, sqrt)
  {
    ghost var rs := RowDescriptors(examples, sqrt);
    var knownGestures: seq<Matrix> := [];
    for i := 0 to |examples|
      invariant Collect(rs[..i]) == Success(knownGestures)
    {
      var knownGesture := RowDescriptor(examples[i], sqrt);
      assert rs[..i + 1][..i] == rs[..i];
      if knownGesture.Failure? {
        CollectFailurePersists(rs, i + 1);
        return Failure(knownGesture.error);
      }
      knownGestures := knownGestures + [knownGesture.value];
    }
    assert rs[..|examples|] == rs;
    r := Success(knownGestures);
  }

  /** `loadKnownGesturesNames`: the names are the first row of the names
      file; an empty file raises IndexError, modelled as None. */
  function LoadNames(rows: seq<seq<string>>): (names: Option<seq<string>>)
    ensures names.Some? <==> rows != []
    ensures names.Some? ==> names.value == rows[0]
  {
    if rows == [] then None else Some(rows[0])
  }

  /** Signs lost in the round trip change what is loaded: a hand whose
      landmarks 0 and 9 are mirror images across x = 0 has a palm size when
      it is recorded, but after saving and loading both landmarks coincide
      and building its descriptor divides by zero. */
  lemma MirroredPalmDoesNotReload(hand: seq<Point>, sqrt: real -> real)
    requires IsRoot(sqrt)
    requires |hand| > PALM_INDEX
    requires hand[0].x < 0 && hand[PALM_INDEX].x == -hand[0].x && hand[PALM_INDEX].y == hand[0].y
    ensures DistanceMatrix(hand, sqrt).Success?
    ensures RowDescriptor(FormatRow(hand), sqrt) == Failure(ZeroDivisionError)
  {
    DegenerateIffCoincident(hand, sqrt);
    RowRoundTrip(hand);
    DegenerateIffCoincident(AbsHand(hand), sqrt);
  }
}
