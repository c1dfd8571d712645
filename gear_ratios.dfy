/** The first engine-schematic scanner (3-gear_ratios/src/main.rs): the grid is cut
    into rows, each row is scanned for the first and last column of its digit runs,
    the columns are paired, every pair becomes a Number holding the three row slices
    over its window, and the values of the part numbers are summed. The scanner is
    modelled as written, quirks included: digits in the rows above and below count
    as symbols, and the column pairing goes wrong for some run shapes. */
module GearRatios {
  import opened Text

  /** A located number: the slices of the row above, of its own row and of the row
      below over its window (absent at the top and bottom edge), and its value. */
  datatype Number = Number(prevLine: Option<string>, line: string, nextLine: Option<string>, number: nat)

  // ---------------------------------------------------------------------------
  // Schematic::new

  /** The rows of the schematic: the trimmed text split at every `'\n'`. */
  function NewSchematic(text: string): (lines: seq<string>)
    ensures |lines| >= 1
    ensures forall i :: 0 <= i < |lines| ==> '\n' !in lines[i]
    ensures Join(lines, "\n") == Trim(text)
  {
    JoinSplitOn(Trim(text), "\n");
    Split(Trim(text), '\n')
  }

  // ---------------------------------------------------------------------------
  // The column scan of a row (the inner loop of Schematic::to_numbers)

  /** What the `match j` pushes onto `current` for column `j` of a row scanned over
      width `w`: the first column, the last column and a single digit are handled
      first; otherwise a digit is pushed when the column before it was not pushed or
      the column after it is no digit. */
  function Pushed(row: string, w: nat, j: nat, current: seq<nat>): (r: seq<nat>)
    requires j < w <= |row|
    ensures forall k :: 0 <= k < |r| ==> r[k] == j
    ensures r != [] ==> IsDigit(row[j])
    ensures (|r| == 2) <==> (IsDigit(row[j]) && 0 < j < w - 1 && !IsDigit(row[j - 1]) && !IsDigit(row[j + 1]))
  {
    if !IsDigit(row[j]) then []
    else if j == 0 then [j]
    else if j == w - 1 then [j]
    else if !IsDigit(row[j - 1]) && !IsDigit(row[j + 1]) then [j, j]
    else if (j - 1) !in current || !IsDigit(row[j + 1]) then [j]
    else []
  }

  /** `current` after the scan has visited columns `0 .. n - 1`: digit columns, in
      non-decreasing order. */
  function Marks(row: string, w: nat, n: nat): (c: seq<nat>)
    requires n <= w <= |row|
    ensures forall k :: 0 <= k < |c| ==> c[k] < n && IsDigit(row[c[k]])
    ensures forall k, l :: 0 <= k <= l < |c| ==> c[k] <= c[l]
  {
    if n == 0 then [] else
      var c := Marks(row, w, n - 1);
      c + Pushed(row, w, n - 1, c)
  }

  // ---------------------------------------------------------------------------
  // Pairing (starts zipped with ends)

  /** `iter().step_by(2)`: the elements at even positions. */
  function EveryOther(c: seq<nat>): (r: seq<nat>)
    ensures |r| == (|c| + 1) / 2
    ensures forall k :: 0 <= k < |r| ==> r[k] == c[2 * k]
  {
    if |c| <= 2 then (if c == [] then [] else [c[0]]) else [c[0]] + EveryOther(c[2..])
  }

  /** `zip`: pairs of elements at equal positions, as many as the shorter side has. */
  function Zip<A, B>(a: seq<A>, b: seq<B>): (r: seq<(A, B)>)
    ensures |r| == if |a| <= |b| then |a| else |b|
    ensures forall k :: 0 <= k < |r| ==> r[k] == (a[k], b[k])
  {
    if a == [] || b == [] then [] else [(a[0], b[0])] + Zip(a[1..], b[1..])
  }

  /** The (start, end) pairs of a row: element 2k paired with element 2k+1; a last
      unpaired element is dropped. */
  function Pairs(current: seq<nat>): (r: seq<(nat, nat)>)
    requires current != []
    ensures |r| == |current| / 2
    ensures forall k :: 0 <= k < |r| ==> r[k] == (current[2 * k], current[2 * k + 1])
  {
    Zip(EveryOther(current), EveryOther(current[1..]))
  }

  // ---------------------------------------------------------------------------
  // The window of a pair and the Number built over it

  /** `max(s as isize - 1, 0)`: the first column of the window. */
  function WindowStart(s: nat): (lo: nat)
    ensures lo <= s && s <= lo + 1
  {
    if s >= 1 then s - 1 else 0
  }

  /** `min(e + 1, lines_len - 1)`: the last column of the window, inclusive; it never
      leaves the row's columns `0 .. w - 1`. */
  function WindowEnd(e: nat, w: nat): (hi: nat)
    requires w >= 1
    ensures hi <= w - 1
    ensures e < w ==> e <= hi <= e + 1
  {
    if e + 1 <= w - 1 then e + 1 else w - 1
  }

  /** Number::new: the value is the own-row slice with its ASCII punctuation dropped,
      read as a `u32`; anything else left in it (a letter, a space, a `'\r'`), an empty
      remainder or a value of 2^32 or more makes the `unwrap` panic. */
  function NewNumber(prev: Option<string>, line: string, next: Option<string>): (r: Result<Number>)
    ensures var kept := Filter(line, IsNotPunctuation);
      && (r.Ok? <==> |kept| > 0 && AllDigits(kept) && DigitsValue(kept) < U32_BOUND)
      && (r.Ok? ==> r.value == Number(prev, line, next, DigitsValue(kept)))
      && (r.Panic? ==> r.fault == ParseFailure)
  {
    var digits := Concat(SplitWhere(line, IsAsciiPunctuation));
    ConcatSplitWhere(line, IsAsciiPunctuation, IsNotPunctuation);
    assert |digits| > 0 ==> digits[0] in digits;
    ParseUnsignedUnsigned(digits, U32_BOUND);
    match ParseUnsigned(digits, U32_BOUND)
    case Some(v) => Ok(Number(prev, line, next, v))
    case None => Panic(ParseFailure)
  }

  predicate IsNotPunctuation(c: char) { !IsAsciiPunctuation(c) }

  /** The three slices for the pair (s, e) of row i, cut in the order the source cuts
      them: rows i-1, i and i+1 over the inclusive window; row 0 has no row above and
      row H-1 none below, and row 0 reads row 1 even when there is none. */
  function WindowSlices(lines: seq<string>, w: nat, i: nat, s: nat, e: nat): (r: Result<Slices>)
    requires 1 <= w && i < |lines|
    ensures var lo, hi := WindowStart(s), WindowEnd(e, w);
      r.Ok? <==> (&& lo <= hi + 1 <= |lines[i]|
                  && (i == 0 ==> 1 < |lines| && hi + 1 <= |lines[1]|)
                  && (0 < i ==> hi + 1 <= |lines[i - 1]|)
                  && (0 < i < |lines| - 1 ==> hi + 1 <= |lines[i + 1]|))
    ensures r.Panic? ==> r.fault in {BadSlice, IndexOutOfBounds}
  {
    var lo, hi := WindowStart(s), WindowEnd(e, w);
    var line :- Slice(lines[i], lo, hi + 1);
    if i == 0 then
      var below :- At(lines, i + 1);
      var next :- Slice(below, lo, hi + 1);
      Ok(Slices(None, line, Some(next)))
    else if i == |lines| - 1 then
      var prev :- Slice(lines[i - 1], lo, hi + 1);
      Ok(Slices(Some(prev), line, None))
    else
      var prev :- Slice(lines[i - 1], lo, hi + 1);
      var next :- Slice(lines[i + 1], lo, hi + 1);
      Ok(Slices(Some(prev), line, Some(next)))
  }

  /** The row slices over one window. */
  datatype Slices = Slices(prev: Option<string>, line: string, next: Option<string>)

  /** The Number for the pair (s, e) of row i: the window is cut first, then read. */
  function NumberAt(lines: seq<string>, w: nat, i: nat, s: nat, e: nat): (r: Result<Number>)
    requires 1 <= w && i < |lines|
    ensures var lo, hi := WindowStart(s), WindowEnd(e, w);
      r.Ok? <==> && WindowSlices(lines, w, i, s, e).Ok?
                 && var kept := Filter(lines[i][lo..hi + 1], IsNotPunctuation);
                    |kept| > 0 && AllDigits(kept) && DigitsValue(kept) < U32_BOUND
    ensures r.Panic? ==> r.fault in {BadSlice, IndexOutOfBounds, ParseFailure}
    ensures var lo, hi := WindowStart(s), WindowEnd(e, w);
      r.Ok? ==> && lo <= hi + 1 <= |lines[i]|
                && r.value.line == lines[i][lo..hi + 1]
                && (r.value.prevLine.None? <==> i == 0)
                && (0 < i ==> hi + 1 <= |lines[i - 1]| && r.value.prevLine == Some(lines[i - 1][lo..hi + 1]))
                && (r.value.nextLine.None? <==> i == |lines| - 1)
                && (i < |lines| - 1 ==> hi + 1 <= |lines[i + 1]| && r.value.nextLine == Some(lines[i + 1][lo..hi + 1]))
                && AllDigits(Filter(r.value.line, IsNotPunctuation))
                && r.value.number == DigitsValue(Filter(r.value.line, IsNotPunctuation))
                && r.value.number < U32_BOUND
  {
    var sl :- WindowSlices(lines, w, i, s, e);
    NumberWindow(lines, w, i, s, e);
    NewNumber(sl.prev, sl.line, sl.next)
  }

  /** What the slices for the pair (s, e) of row i hold: its own row, the row above
      unless i is 0 and the row below unless i is H-1, each cut over the same window. */
  lemma NumberWindow(lines: seq<string>, w: nat, i: nat, s: nat, e: nat)
    requires 1 <= w && i < |lines| && WindowSlices(lines, w, i, s, e).Ok?
    ensures var n, lo, hi := WindowSlices(lines, w, i, s, e).value, WindowStart(s), WindowEnd(e, w);
      && lo <= hi + 1 <= |lines[i]|
      && n.line == lines[i][lo..hi + 1]
      && (n.prev.None? <==> i == 0)
      && (n.next.None? <==> i == |lines| - 1)
      && (i > 0 ==> lo <= hi + 1 <= |lines[i - 1]| && n.prev == Some(lines[i - 1][lo..hi + 1]))
      && (i < |lines| - 1 ==> lo <= hi + 1 <= |lines[i + 1]| && n.next == Some(lines[i + 1][lo..hi + 1]))
  {
  }

  /** Row 0 of a one-row grid panics on the missing row below. */
  lemma NumberOnlyRow(lines: seq<string>, w: nat, s: nat, e: nat)
    requires |lines| == 1 && s <= e < w <= |lines[0]|
    ensures NumberAt(lines, w, 0, s, e) == Panic(IndexOutOfBounds)
  {
  }

  // ---------------------------------------------------------------------------
  // Schematic::to_numbers, as a function of the rows

  /** The Numbers of the pairs of row i, in order; the first panic wins. */
  function PairNumbers(lines: seq<string>, w: nat, i: nat, pairs: seq<(nat, nat)>): (r: Result<seq<Number>>)
    requires 1 <= w && i < |lines|
    ensures r.Ok? <==> forall k :: 0 <= k < |pairs| ==> NumberAt(lines, w, i, pairs[k].0, pairs[k].1).Ok?
    ensures r.Ok? ==> |r.value| == |pairs|
    ensures r.Ok? ==> forall k :: 0 <= k < |pairs| ==> NumberAt(lines, w, i, pairs[k].0, pairs[k].1) == Ok(r.value[k])
  {
    if pairs == [] then Ok([]) else
      var n :- NumberAt(lines, w, i, pairs[0].0, pairs[0].1);
      var rest :- PairNumbers(lines, w, i, pairs[1..]);
      ConsEach((p: (nat, nat)) => NumberAt(lines, w, i, p.0, p.1), pairs, n, rest);
      Ok([n] + rest)
  }

  /** Each of `[x] + rest` is the outcome of `f` on its element of `ps`, when `x` is
      that of the first and `rest` those of the others. */
  lemma ConsEach<P, N>(f: P -> Result<N>, ps: seq<P>, x: N, rest: seq<N>)
    requires ps != [] && f(ps[0]) == Ok(x) && |rest| == |ps| - 1
    requires forall k :: 0 <= k < |rest| ==> f(ps[1..][k]) == Ok(rest[k])
    ensures forall k :: 0 <= k < |ps| ==> f(ps[k]) == Ok(([x] + rest)[k])
  {
    forall k | 0 < k < |ps|
      ensures f(ps[k]) == Ok(([x] + rest)[k])
    {
      assert ps[k] == ps[1..][k - 1];
    }
  }

  /** The Numbers of rows i .. H-1 scanned over width w; a row shorter than w panics
      when the scan reaches its end. */
  function RowsFrom(lines: seq<string>, w: nat, i: nat): (r: Result<seq<Number>>)
    requires i <= |lines|
    ensures r.Ok? ==> forall k :: i <= k < |lines| ==> w <= |lines[k]|
    decreases |lines| - i
  {
    if i == |lines| then Ok([])
    else if |lines[i]| < w then Panic(IndexOutOfBounds)
    else
      var current := Marks(lines[i], w, w);
      var rest := RowsFrom(lines, w, i + 1);
      WideStep(lines, w, i, rest.Ok?);
      if current == [] then rest
      else
        var here := PairNumbers(lines, w, i, Pairs(current));
        ThenOk(here, rest);
        Then(here, rest)
  }

  /** Row i at least w long, in front of rows that all are. */
  lemma WideStep(lines: seq<string>, w: nat, i: nat, ok: bool)
    requires i < |lines| && w <= |lines[i]|
    requires ok ==> forall k :: i + 1 <= k < |lines| ==> w <= |lines[k]|
    ensures ok ==> forall k :: i <= k < |lines| ==> w <= |lines[k]|
  {
  }

  /** Schematic::to_numbers: W is the length of row 0. */
  function Numbers(lines: seq<string>): (r: Result<seq<Number>>)
    ensures r.Ok? ==> |lines| >= 1 && forall k :: 0 <= k < |lines| ==> |lines[0]| <= |lines[k]|
  {
    if |lines| == 0 then Panic(IndexOutOfBounds) else RowsFrom(lines, |lines[0]|, 0)
  }

  /** The inner loop of Schematic::to_numbers over the columns of one row: starting
      from the empty `current` (it is empty at the start of every row), the digit
      columns are pushed as the `match j` decides. */
  method ScanColumns(line: string, w: nat) returns (current: seq<nat>)
    requires w <= |line|
    ensures current == Marks(line, w, w)
  {
    current := [];
    for j := 0 to w
      invariant current == Marks(line, w, j)
    {
      MarksStep(line, w, j);
      ghost var before := current;
      if IsDigit(line[j]) {
        if j == 0 {
          current := current + [j];
        } else if j == w - 1 {
          current := current + [j];
        } else if !IsDigit(line[j - 1]) && !IsDigit(line[j + 1]) {
          current := current + [j, j];
        } else if (j - 1) !in current || !IsDigit(line[j + 1]) {
          current := current + [j];
        }
      } else {
        NilRight(current);
      }
      assert current == before + Pushed(line, w, j, before);
    }
  }

  /** The loop of Schematic::to_numbers over the pairs of one row: each pair becomes a
      Number built from the row and its neighbours, in order; the first panic stops it. */
  method PairsToNumbers(lines: seq<string>, w: nat, i: nat, pairs: seq<(nat, nat)>)
    returns (r: Result<seq<Number>>)
    requires 1 <= w && i < |lines|
    ensures r == PairNumbers(lines, w, i, pairs)
  {
    var numbers: seq<Number> := [];
    assert pairs[0..] == pairs;
    PrependEmpty(PairNumbers(lines, w, i, pairs));
    for k := 0 to |pairs|
      invariant PairNumbers(lines, w, i, pairs) == Prepend(numbers, PairNumbers(lines, w, i, pairs[k..]))
    {
      var n := NumberAt(lines, w, i, pairs[k].0, pairs[k].1);
      PairNumbersAt(lines, w, i, pairs, k);
      if n.Panic? { return Panic(n.fault); }
      PrependTwice(numbers, [n.value], PairNumbers(lines, w, i, pairs[k + 1..]));
      numbers := numbers + [n.value];
    }
    assert numbers + [] == numbers;
    return Ok(numbers);
  }

  /** Schematic::to_numbers as the loops of the source: each row is scanned, the pairs
      of a row with digits are turned into Numbers in order, and `current` starts
      empty again for the next row. */
  method ToNumbers(lines: seq<string>) returns (r: Result<seq<Number>>)
    ensures r == Numbers(lines)
  {
    if |lines| == 0 { return Panic(IndexOutOfBounds); }
    var nLines, w := |lines|, |lines[0]|;
    var numbers: seq<Number> := [];
    PrependEmpty(RowsFrom(lines, w, 0));
    for i := 0 to nLines
      invariant Numbers(lines) == Prepend(numbers, RowsFrom(lines, w, i))
    {
      var line := lines[i];
      // char_vec[j] panics once j reaches the end of a row shorter than W
      if |line| < w { return Panic(IndexOutOfBounds); }
      var current := ScanColumns(line, w);
      RowStep(lines, w, i);
      if current != [] {
        var row := PairsToNumbers(lines, w, i, Pairs(current));
        if row.Panic? { return Panic(row.fault); }
        ThenStep(numbers, row.value, RowsFrom(lines, w, i + 1));
        numbers := numbers + row.value;
      }
    }
    assert numbers + [] == numbers;
    return Ok(numbers);
  }

  lemma MarksStep(row: string, w: nat, j: nat)
    requires j < w <= |row|
    ensures Marks(row, w, j + 1) == Marks(row, w, j) + Pushed(row, w, j, Marks(row, w, j))
  {
  }

  /** A row at least W long contributes the Numbers of its pairs, if it has marks. */
  lemma RowStep(lines: seq<string>, w: nat, i: nat)
    requires i < |lines| && w <= |lines[i]|
    ensures var current := Marks(lines[i], w, w);
      RowsFrom(lines, w, i)
      == if current == [] then RowsFrom(lines, w, i + 1)
         else (assert w >= 1; Then(PairNumbers(lines, w, i, Pairs(current)), RowsFrom(lines, w, i + 1)))
  {
  }

  /** PairNumbers from pair k on: the Number of pair k, then those of the pairs after it. */
  lemma PairNumbersAt(lines: seq<string>, w: nat, i: nat, pairs: seq<(nat, nat)>, k: nat)
    requires 1 <= w && i < |lines| && k < |pairs|
    ensures var n := NumberAt(lines, w, i, pairs[k].0, pairs[k].1);
      PairNumbers(lines, w, i, pairs[k..])
      == if n.Panic? then Panic(n.fault) else Prepend([n.value], PairNumbers(lines, w, i, pairs[k + 1..]))
  {
    assert pairs[k..][0] == pairs[k];
    assert pairs[k..][1..] == pairs[k + 1..];
  }

  /** Any character but the filler `'.'`. */
  predicate IsNotFiller(c: char) { c != '.' }

  /** Neither a digit nor the filler `'.'`. */
  predicate IsSymbol(c: char) { !IsDigit(c) && c != '.' }

  /** The part-number test: the row above or the row below holds a character other
      than `'.'` (a digit included), or the own row holds a character that is neither
      a digit nor `'.'`. */
  predicate Qualifies(prev: Option<string>, line: string, next: Option<string>) {
    || (prev.Some? && exists c :: c in prev.value && c != '.')
    || (next.Some? && exists c :: c in next.value && c != '.')
    || (exists c :: c in line && IsSymbol(c))
  }

  /** Number::part_number: the value when the test holds, `None` otherwise. */
  function PartNumber(n: Number): (r: Option<nat>)
    ensures r.Some? <==> Qualifies(n.prevLine, n.line, n.nextLine)
    ensures r.Some? ==> r.value == n.number
  {
    var prevHas := n.prevLine.Some? && Filter(n.prevLine.value, IsNotFiller) != "";
    var nextHas := n.nextLine.Some? && Filter(n.nextLine.value, IsNotFiller) != "";
    var lineHas := Filter(n.line, IsSymbol) != "";
    if !prevHas && !lineHas && !nextHas then None else Some(n.number)
  }

  /** The sum of the values of the part numbers among `ns`. */
  function SumParts(ns: seq<Number>): (r: nat)
    ensures (forall k :: 0 <= k < |ns| ==> PartValue(ns[k]) == 0) ==> r == 0
    ensures forall k :: 0 <= k < |ns| ==> PartValue(ns[k]) <= r
  {
    if ns == [] then 0
    else
      assert forall k :: 0 < k < |ns| ==> ns[k] == ns[1..][k - 1];
      PartValue(ns[0]) + SumParts(ns[1..])
  }

  /** The part value of one Number: its value when it passes the test, else 0. */
  function PartValue(n: Number): (v: nat)
    ensures v == if Qualifies(n.prevLine, n.line, n.nextLine) then n.number else 0
  {
    match PartNumber(n) case Some(v) => v case None => 0
  }

  /** The sum splits over a concatenation, so it is the sum of the part values. */
  lemma {:induction false} SumPartsAppend(a: seq<Number>, b: seq<Number>)
    ensures SumParts(a + b) == SumParts(a) + SumParts(b)
  {
    if a == [] {
      assert a + b == b;
    } else {
      SumPartsAppend(a[1..], b);
      SumPartsConsAppend(a, b);
      SumPartsFront(a);
    }
  }

  lemma SumPartsConsAppend(a: seq<Number>, b: seq<Number>)
    requires a != []
    ensures SumParts(a + b) == PartValue(a[0]) + SumParts(a[1..] + b)
  {
    var ab := a + b;
    assert ab[0] == a[0];
    assert ab[1..] == a[1..] + b;
    SumPartsFront(ab);
  }

  /** One Number contributes its part value. */
  lemma SumPartsOne(n: Number)
    ensures SumParts([n]) == PartValue(n)
  {
    SumPartsFront([n]);
    assert [n][1..] == [];
  }

  lemma SumPartsFront(ns: seq<Number>)
    requires ns != []
    ensures SumParts(ns) == PartValue(ns[0]) + SumParts(ns[1..])
  {
  }

  /** part1: the sum of all part numbers of the schematic. When every run of every
      row is well shaped, this is the sum over the Numbers of the digit runs. */
  function Part1(text: string): (r: Result<nat>)
    ensures var lines := NewSchematic(text);
      WellShapedFrom(lines, |lines[0]|, 0) ==>
        r == (var ns := RunNumbers(lines, |lines[0]|, 0); if ns.Ok? then Ok(SumParts(ns.value)) else Panic(ns.fault))
  {
    var lines := NewSchematic(text);
    var numbers :- (if WellShapedFrom(lines, |lines[0]|, 0) then RunNumbersAgree(lines, |lines[0]|, 0); Numbers(lines)
                    else Numbers(lines));
    Ok(SumParts(numbers))
  }

  // ---------------------------------------------------------------------------
  // What the column scan finds in a row: first and last columns of the digit runs

  /** The end (exclusive) of the digit run that starts at column k. */
  function RunEnd(row: string, w: nat, k: nat): (t: nat)
    requires k <= w <= |row|
    ensures k <= t <= w
    ensures forall j :: k <= j < t ==> IsDigit(row[j])
    ensures t == w || !IsDigit(row[t])
    decreases w - k
  {
    if k == w || !IsDigit(row[k]) then k else RunEnd(row, w, k + 1)
  }

  /** `p` is the (first, last) column pair of a maximal digit run among columns
      k .. w-1. */
  predicate IsRun(row: string, w: nat, k: nat, p: (nat, nat))
    requires w <= |row|
  {
    && k <= p.0 <= p.1 < w
    && (forall j :: p.0 <= j <= p.1 ==> IsDigit(row[j]))
    && (p.0 == k || !IsDigit(row[p.0 - 1]))
    && (p.1 == w - 1 || !IsDigit(row[p.1 + 1]))
  }

  /** The maximal digit runs among columns k .. w-1, from left to right. */
  function Runs(row: string, w: nat, k: nat): (rs: seq<(nat, nat)>)
    requires k <= w <= |row|
    ensures forall p :: p in rs ==> IsRun(row, w, k, p)
    decreases w - k
  {
    if k == w then []
    else if !IsDigit(row[k]) then Runs(row, w, k + 1)
    else
      var t := RunEnd(row, w, k);
      [(k, t - 1)] + Runs(row, w, t)
  }

  /** Every digit column lies in one of the runs. */
  lemma {:induction false} RunsCover(row: string, w: nat, k: nat)
    requires k <= w <= |row|
    ensures forall j :: k <= j < w && IsDigit(row[j]) ==>
      exists p :: p in Runs(row, w, k) && p.0 <= j <= p.1
    decreases w - k
  {
    if k == w {
    } else if !IsDigit(row[k]) {
      RunsCover(row, w, k + 1);
    } else {
      var t := RunEnd(row, w, k);
      RunsCover(row, w, t);
      assert Runs(row, w, k) == [(k, t - 1)] + Runs(row, w, t);
      assert (k, t - 1) in Runs(row, w, k);
      assert forall p :: p in Runs(row, w, t) ==> p in Runs(row, w, k);
    }
  }

  /** The runs are apart from each other, from left to right. */
  lemma {:induction false} RunsApart(row: string, w: nat, k: nat)
    requires k <= w <= |row|
    ensures forall a, b :: 0 <= a < b < |Runs(row, w, k)| ==> Runs(row, w, k)[a].1 + 1 < Runs(row, w, k)[b].0
    decreases w - k
  {
    if k == w {
    } else if !IsDigit(row[k]) {
      assert Runs(row, w, k) == Runs(row, w, k + 1);
      RunsApart(row, w, k + 1);
    } else {
      var t := RunEnd(row, w, k);
      var rest := Runs(row, w, t);
      RunsApart(row, w, t);
      assert Runs(row, w, k) == [(k, t - 1)] + rest;
      assert forall b :: 0 <= b < |rest| ==> rest[b] in rest;
      assert forall b :: 0 <= b < |rest| ==> t < rest[b].0 by {
        forall b | 0 <= b < |rest| ensures t < rest[b].0 {
          assert IsRun(row, w, t, rest[b]);
          assert IsDigit(row[rest[b].0]);
        }
      }
      var rs := Runs(row, w, k);
      forall a, b | 0 <= a < b < |rs| ensures rs[a].1 + 1 < rs[b].0 {
        assert rs[b] == rest[b - 1];
        if a > 0 {
          assert rs[a] == rest[a - 1];
          assert rest[a - 1].1 + 1 < rest[b - 1].0;
        } else {
          assert rs[a] == (k, t - 1);
          assert t < rest[b - 1].0;
        }
      }
    }
  }

  /** A run the scan handles as its comments intend: two or three digits anywhere, or
      one digit strictly inside the row. */
  predicate WellShaped(p: (nat, nat), w: nat) {
    p.1 == p.0 + 1 || p.1 == p.0 + 2 || (p.0 == p.1 && 0 < p.0 && p.0 + 1 < w)
  }

  /** The runs written out as first column, last column, first column, ... */
  function Flatten(ps: seq<(nat, nat)>): (c: seq<nat>)
    ensures |c| == 2 * |ps|
    ensures forall k :: 0 <= k < |ps| ==> c[2 * k] == ps[k].0 && c[2 * k + 1] == ps[k].1
  {
    if ps == [] then [] else [ps[0].0, ps[0].1] + Flatten(ps[1..])
  }

  lemma SkipStep(row: string, w: nat, j: nat)
    requires j < w <= |row| && !IsDigit(row[j])
    ensures Marks(row, w, j + 1) == Marks(row, w, j)
  {
  }

  /** A well-shaped run [s, t) adds its first and its last column to `current`. */
  lemma RunStep(row: string, w: nat, s: nat, t: nat)
    requires s < w <= |row| && IsDigit(row[s]) && t == RunEnd(row, w, s)
    requires s == 0 || !IsDigit(row[s - 1])
    requires WellShaped((s, t - 1), w)
    ensures Marks(row, w, t) == Marks(row, w, s) + [s, t - 1]
  {
    if t == s + 1 {
      SingleDigitRun(row, w, s);
    } else if t == s + 2 {
      TwoDigitRun(row, w, s);
    } else {
      ThreeDigitRun(row, w, s);
    }
  }

  /** A lone digit strictly inside the row is pushed twice. */
  lemma SingleDigitRun(row: string, w: nat, s: nat)
    requires 0 < s && s + 1 < w <= |row| && IsDigit(row[s])
    requires !IsDigit(row[s - 1]) && !IsDigit(row[s + 1])
    ensures Marks(row, w, s + 1) == Marks(row, w, s) + [s, s]
  {
    MarksAfter(row, w, s, Marks(row, w, s), [s, s]);
  }

  /** The first digit of a longer run is pushed once. */
  lemma RunHead(row: string, w: nat, s: nat)
    requires s + 1 < w <= |row| && IsDigit(row[s]) && IsDigit(row[s + 1])
    requires s == 0 || !IsDigit(row[s - 1])
    ensures Marks(row, w, s + 1) == Marks(row, w, s) + [s]
  {
    var m := Marks(row, w, s);
    assert (s - 1) !in m;
    MarksAfter(row, w, s, m, [s]);
  }

  lemma TwoDigitRun(row: string, w: nat, s: nat)
    requires s + 1 < w <= |row| && IsDigit(row[s]) && IsDigit(row[s + 1])
    requires s == 0 || !IsDigit(row[s - 1])
    requires s + 2 == w || !IsDigit(row[s + 2])
    ensures Marks(row, w, s + 2) == Marks(row, w, s) + [s, s + 1]
  {
    var m := Marks(row, w, s);
    RunHead(row, w, s);
    var m1 := m + [s];
    assert s in m1;
    MarksAfter(row, w, s + 1, m1, [s + 1]);
    assert m1 + [s + 1] == m + [s, s + 1];
  }

  lemma ThreeDigitRun(row: string, w: nat, s: nat)
    requires s + 2 < w <= |row| && IsDigit(row[s]) && IsDigit(row[s + 1]) && IsDigit(row[s + 2])
    requires s == 0 || !IsDigit(row[s - 1])
    requires s + 3 == w || !IsDigit(row[s + 3])
    ensures Marks(row, w, s + 3) == Marks(row, w, s) + [s, s + 2]
  {
    var m := Marks(row, w, s);
    RunHead(row, w, s);
    var m1 := m + [s];
    assert s in m1;
    PushedInsideRun(row, w, s + 1, m1);
    MarksAfter(row, w, s + 1, m1, []);
    assert m1 + [] == m1;
    MarksBelow(row, w, s);
    assert (s + 1) !in m1;
    PushedRunEnd(row, w, s + 2, m1);
    MarksAfter(row, w, s + 2, m1, [s + 2]);
    assert m1 + [s + 2] == m + [s, s + 2];
  }

  /** `current` only holds columns already scanned. */
  lemma MarksBelow(row: string, w: nat, n: nat)
    requires n <= w <= |row|
    ensures forall x :: x in Marks(row, w, n) ==> x < n
  {
  }

  /** A digit between two digits whose left neighbour was pushed adds nothing. */
  lemma PushedInsideRun(row: string, w: nat, j: nat, current: seq<nat>)
    requires 0 < j && j + 1 < w <= |row|
    requires IsDigit(row[j - 1]) && IsDigit(row[j]) && IsDigit(row[j + 1])
    requires (j - 1) in current
    ensures Pushed(row, w, j, current) == []
  {
  }

  /** A digit after a digit that was not pushed is pushed once. */
  lemma PushedRunEnd(row: string, w: nat, j: nat, current: seq<nat>)
    requires 0 < j < w <= |row|
    requires IsDigit(row[j - 1]) && IsDigit(row[j])
    requires (j - 1) !in current
    ensures Pushed(row, w, j, current) == [j]
  {
  }

  /** From a column that is not inside a run, the scan adds the first and last column
      of every remaining run, when all of them are well shaped. */
  lemma {:induction false} MarksFrom(row: string, w: nat, k: nat)
    requires k <= w <= |row|
    requires k == 0 || k == w || !IsDigit(row[k - 1]) || !IsDigit(row[k])
    requires forall p :: p in Runs(row, w, k) ==> WellShaped(p, w)
    ensures Marks(row, w, w) == Marks(row, w, k) + Flatten(Runs(row, w, k))
    decreases w - k
  {
    if k == w {
      assert Marks(row, w, k) + [] == Marks(row, w, k);
    } else if !IsDigit(row[k]) {
      SkipStep(row, w, k);
      assert Runs(row, w, k) == Runs(row, w, k + 1);
      MarksFrom(row, w, k + 1);
    } else {
      var t := RunEnd(row, w, k);
      RunsAtDigit(row, w, k);
      MarksFrom(row, w, t);
      RunThenRest(row, w, k, t);
    }
  }

  /** The runs from a digit column k: the run starting there, then the runs after it;
      when all of them are well shaped, so are the later ones. */
  lemma RunsAtDigit(row: string, w: nat, k: nat)
    requires k < w <= |row| && IsDigit(row[k])
    requires forall p :: p in Runs(row, w, k) ==> WellShaped(p, w)
    ensures var t := RunEnd(row, w, k);
      && Runs(row, w, k) == [(k, t - 1)] + Runs(row, w, t)
      && WellShaped((k, t - 1), w)
      && (forall p :: p in Runs(row, w, t) ==> WellShaped(p, w))
  {
    var t := RunEnd(row, w, k);
    assert (k, t - 1) in Runs(row, w, k);
    assert forall p :: p in Runs(row, w, t) ==> p in Runs(row, w, k);
  }

  /** One step of MarksFrom: the run at k, then what the scan adds after it. */
  lemma RunThenRest(row: string, w: nat, k: nat, t: nat)
    requires k < w <= |row| && IsDigit(row[k]) && t == RunEnd(row, w, k)
    requires k == 0 || !IsDigit(row[k - 1])
    requires WellShaped((k, t - 1), w)
    requires Runs(row, w, k) == [(k, t - 1)] + Runs(row, w, t)
    requires Marks(row, w, w) == Marks(row, w, t) + Flatten(Runs(row, w, t))
    ensures Marks(row, w, w) == Marks(row, w, k) + Flatten(Runs(row, w, k))
  {
    var rest := Runs(row, w, t);
    RunStep(row, w, k, t);
    FlattenCons((k, t - 1), rest);
    AppendAssoc(Marks(row, w, k), [k, t - 1], Flatten(rest));
  }

  lemma FlattenCons(p: (nat, nat), ps: seq<(nat, nat)>)
    ensures Flatten([p] + ps) == [p.0, p.1] + Flatten(ps)
  {
    assert ([p] + ps)[1..] == ps;
  }

  /** On a row whose runs are all well shaped, `current` holds the first and last
      column of every run and the pairs are exactly the runs. */
  lemma WellShapedRow(row: string, w: nat)
    requires w <= |row|
    requires forall p :: p in Runs(row, w, 0) ==> WellShaped(p, w)
    ensures Marks(row, w, w) == Flatten(Runs(row, w, 0))
    ensures Runs(row, w, 0) != [] ==> Pairs(Marks(row, w, w)) == Runs(row, w, 0)
  {
    MarksFrom(row, w, 0);
    assert [] + Flatten(Runs(row, w, 0)) == Flatten(Runs(row, w, 0));
    if Runs(row, w, 0) != [] {
      PairsOfFlatten(Runs(row, w, 0));
    }
  }

  /** Every row from i on that is at least w long has only well-shaped runs. */
  predicate WellShapedFrom(lines: seq<string>, w: nat, i: nat)
    requires i <= |lines|
  {
    forall k :: i <= k < |lines| && w <= |lines[k]| ==> forall p :: p in Runs(lines[k], w, 0) ==> WellShaped(p, w)
  }

  /** Reference for what the scan intends: the Numbers of rows i .. H-1 with the
      digit runs of each row as its pairs. */
  function RunNumbers(lines: seq<string>, w: nat, i: nat): Result<seq<Number>>
    requires i <= |lines|
    decreases |lines| - i
  {
    if i == |lines| then Ok([])
    else if |lines[i]| < w then Panic(IndexOutOfBounds)
    else
      var rs := Runs(lines[i], w, 0);
      if rs == [] then RunNumbers(lines, w, i + 1)
      else (assert rs[0] in rs; Then(PairNumbers(lines, w, i, rs), RunNumbers(lines, w, i + 1)))
  }

  /** On rows whose runs are all well shaped, the scan yields the Numbers of the digit
      runs, panics included. */
  lemma {:induction false} RunNumbersAgree(lines: seq<string>, w: nat, i: nat)
    requires i <= |lines| && WellShapedFrom(lines, w, i)
    ensures RowsFrom(lines, w, i) == RunNumbers(lines, w, i)
    decreases |lines| - i
  {
    if i < |lines| {
      WellShapedNext(lines, w, i);
      RunNumbersAgree(lines, w, i + 1);
      if w <= |lines[i]| {
        RowAgrees(lines[i], w);
        AgreeStep(lines, w, i);
      }
    }
  }

  /** Well-shaped rows from i on: row i's runs, and the rows after it. */
  lemma WellShapedNext(lines: seq<string>, w: nat, i: nat)
    requires i < |lines| && WellShapedFrom(lines, w, i)
    ensures WellShapedFrom(lines, w, i + 1)
    ensures w <= |lines[i]| ==> forall p :: p in Runs(lines[i], w, 0) ==> WellShaped(p, w)
  {
  }

  /** When row i's marks pair up to its runs and the later rows agree, row i on agrees. */
  lemma AgreeStep(lines: seq<string>, w: nat, i: nat)
    requires i < |lines| && w <= |lines[i]|
    requires RowsFrom(lines, w, i + 1) == RunNumbers(lines, w, i + 1)
    requires Marks(lines[i], w, w) == [] <==> Runs(lines[i], w, 0) == []
    requires Marks(lines[i], w, w) != [] ==> Pairs(Marks(lines[i], w, w)) == Runs(lines[i], w, 0)
    ensures RowsFrom(lines, w, i) == RunNumbers(lines, w, i)
  {
    RowStep(lines, w, i);
    RunNumbersStep(lines, w, i);
  }

  /** A row at least W long contributes the Numbers of its runs, if it has any. */
  lemma RunNumbersStep(lines: seq<string>, w: nat, i: nat)
    requires i < |lines| && w <= |lines[i]|
    ensures var rs := Runs(lines[i], w, 0);
      RunNumbers(lines, w, i)
      == if rs == [] then RunNumbers(lines, w, i + 1)
         else Then(PairNumbers(lines, w, i, rs), RunNumbers(lines, w, i + 1))
  {
  }

  /** A row of well-shaped runs has marks exactly when it has runs, and then its
      pairs are its runs. */
  lemma RowAgrees(row: string, w: nat)
    requires w <= |row|
    requires forall p :: p in Runs(row, w, 0) ==> WellShaped(p, w)
    ensures Marks(row, w, w) == [] <==> Runs(row, w, 0) == []
    ensures Marks(row, w, w) != [] ==> Pairs(Marks(row, w, w)) == Runs(row, w, 0)
  {
    WellShapedRow(row, w);
  }

  lemma PairsOfFlatten(ps: seq<(nat, nat)>)
    requires ps != []
    ensures Pairs(Flatten(ps)) == ps
  {
    var r := Pairs(Flatten(ps));
    assert |r| == |ps|;
    assert forall k :: 0 <= k < |ps| ==> r[k] == ps[k];
  }

  /** A run of four digits is paired wrongly: `.1234.5.` gives 1, 3, 4, 6, 6, so 1234
      is read over columns 1 .. 3 and a second number over columns 4 .. 6. */
  lemma LongRunMisaligned(row: string)
    requires row == ".1234.5."
    ensures Marks(row, 8, 8) == [1, 3, 4, 6, 6]
    ensures Pairs(Marks(row, 8, 8)) == [(1, 3), (4, 6)]
  {
    LongRunMarks(row);
    var c := [1, 3, 4, 6, 6];
    var p := Pairs(c);
    assert |p| == 2;
    assert p[0] == (c[0], c[1]) && p[1] == (c[2], c[3]);
  }

  /** The digit columns of `.1234.5.`. */
  predicate LongRunRow(row: string) {
    |row| == 8 && forall j :: 0 <= j < 8 ==> (IsDigit(row[j]) <==> j != 0 && j != 5 && j != 7)
  }

  lemma LongRunMarks(row: string)
    requires LongRunRow(row)
    ensures Marks(row, 8, 8) == [1, 3, 4, 6, 6]
  {
    LongRunHalf(row);
    assert IsDigit(row[3]) && !IsDigit(row[5]) && IsDigit(row[6]) && !IsDigit(row[7]);
    MarksAfter(row, 8, 4, [1, 3], [4]);
    SkipStep(row, 8, 5);
    MarksAfter(row, 8, 6, [1, 3] + [4], [6, 6]);
    SkipStep(row, 8, 7);
    LongRunConcats();
  }

  lemma LongRunHalf(row: string)
    requires LongRunRow(row)
    ensures Marks(row, 8, 4) == [1, 3]
  {
    LongRunStart(row);
    assert IsDigit(row[1]) && IsDigit(row[2]) && IsDigit(row[3]);
    PushedInsideRun(row, 8, 2, [1]);
    MarksAfter(row, 8, 2, [1], []);
    PushedRunEnd(row, 8, 3, [1] + []);
    MarksAfter(row, 8, 3, [1] + [], [3]);
    LongRunConcats();
  }

  /** The concatenations the scan of `.1234.5.` goes through. */
  lemma LongRunConcats()
    ensures Concat3([1], [], [3]) == [1, 3]
    ensures Concat3([1, 3], [4], [6, 6]) == [1, 3, 4, 6, 6]
  {
    assert [1] + [] + [3] == [1, 3];
    assert [1, 3] + [4] + [6, 6] == [1, 3, 4, 6, 6];
  }

  function Concat3(a: seq<nat>, b: seq<nat>, c: seq<nat>): seq<nat> { a + b + c }

  lemma LongRunStart(row: string)
    requires LongRunRow(row)
    ensures Marks(row, 8, 2) == [1]
  {
    assert !IsDigit(row[0]) && IsDigit(row[1]) && IsDigit(row[2]);
    SkipStep(row, 8, 0);
    RunHead(row, 8, 1);
    assert Marks(row, 8, 0) == [];
  }

  /** A single digit in column 0 is pushed once: in `1.23` the end of the second run
      is lost and the one pair spans columns 0 .. 2. */
  lemma EdgeDigitMisaligned(row: string)
    requires row == "1.23"
    ensures Marks(row, 4, 4) == [0, 2, 3]
    ensures Pairs(Marks(row, 4, 4)) == [(0, 2)]
  {
    EdgeDigitMarks(row);
    var p := Pairs([0, 2, 3]);
    assert |p| == 1 && p[0] == (0, 2);
  }

  lemma EdgeDigitMarks(row: string)
    requires row == "1.23"
    ensures Marks(row, 4, 4) == [0, 2, 3]
  {
    assert IsDigit(row[0]) && !IsDigit(row[1]) && IsDigit(row[2]) && IsDigit(row[3]);
    var none: seq<nat> := [];
    assert Pushed(row, 4, 0, none) == [0];
    MarksAfter(row, 4, 0, none, [0]);
    assert none + [0] == [0];
    assert Pushed(row, 4, 1, [0]) == [];
    MarksAfter(row, 4, 1, [0], []);
    assert [0] + [] == [0];
    assert Pushed(row, 4, 2, [0]) == [2];
    MarksAfter(row, 4, 2, [0], [2]);
    assert [0] + [2] == [0, 2];
    assert Pushed(row, 4, 3, [0, 2]) == [3];
    MarksAfter(row, 4, 3, [0, 2], [3]);
    assert [0, 2] + [3] == [0, 2, 3];
  }

  /** One column of the scan, with the marks so far and what the column pushes
      already known. */
  lemma MarksAfter(row: string, w: nat, j: nat, m: seq<nat>, pushed: seq<nat>)
    requires j < w <= |row|
    requires Marks(row, w, j) == m && Pushed(row, w, j, m) == pushed
    ensures Marks(row, w, j + 1) == m + pushed
  {
  }

  // ---------------------------------------------------------------------------
  // Consequences for whole grids

  /** The value read from a window that is a run of digits flanked by punctuation
      only is the value of that run. */
  lemma CleanWindow(prev: Option<string>, a: string, d: string, b: string, next: Option<string>)
    requires forall k :: 0 <= k < |a| ==> IsAsciiPunctuation(a[k])
    requires forall k :: 0 <= k < |b| ==> IsAsciiPunctuation(b[k])
    requires |d| > 0 && AllDigits(d) && DigitsValue(d) < U32_BOUND
    ensures NewNumber(prev, a + d + b, next) == Ok(Number(prev, a + d + b, next, DigitsValue(d)))
  {
    FilterFlanked(a, d, b, IsNotPunctuation);
  }

  /** A grid with one row and at least two marks panics: the row-0 branch reads a
      second row that is not there. */
  lemma OneRowPanics(row: string)
    requires |Marks(row, |row|, |row|)| >= 2
    ensures Numbers([row]) == Panic(IndexOutOfBounds)
  {
    var w := |row|;
    var c := Marks(row, w, w);
    var ps := Pairs(c);
    assert ps[0] == (c[0], c[1]);
    NumberOnlyRow([row], w, c[0], c[1]);
    assert PairNumbers([row], w, 0, ps) == Panic(IndexOutOfBounds);
  }

  /** Columns without digits add no marks. */
  lemma {:induction false} NoDigitNoMarks(row: string, w: nat, n: nat)
    requires n <= w <= |row|
    requires forall j :: 0 <= j < n ==> !IsDigit(row[j])
    ensures Marks(row, w, n) == []
  {
    if n > 0 {
      NoDigitNoMarks(row, w, n - 1);
    }
  }

  /** A grid without digits, whose rows are all at least as long as the first,
      yields no Numbers. */
  lemma {:induction false} NoDigitsNoNumbers(lines: seq<string>, w: nat, i: nat)
    requires i <= |lines|
    requires forall k :: i <= k < |lines| ==> w <= |lines[k]|
    requires forall k, j :: i <= k < |lines| && 0 <= j < |lines[k]| ==> !IsDigit(lines[k][j])
    ensures RowsFrom(lines, w, i) == Ok([])
    decreases |lines| - i
  {
    if i < |lines| {
      NoDigitNoMarks(lines[i], w, w);
      NoDigitsNoNumbers(lines, w, i + 1);
    }
  }

  /** With no digit anywhere the part-number sum is 0. */
  lemma NoDigitsSumZero(text: string)
    requires var lines := NewSchematic(text);
      && (forall k :: 0 <= k < |lines| ==> |lines[0]| <= |lines[k]|)
      && (forall k, j :: 0 <= k < |lines| && 0 <= j < |lines[k]| ==> !IsDigit(lines[k][j]))
    ensures Part1(text) == Ok(0)
  {
    var lines := NewSchematic(text);
    NoDigitsNoNumbers(lines, |lines[0]|, 0);
  }

  /** Digits in the row above or below count as symbols: in the grid `11` over `11`
      no symbol appears, yet both numbers are part numbers. */
  lemma DigitNeighboursCount(text: string)
    requires text == "11\n11"
    ensures Part1(text) == Ok(22)
  {
    ElevensSchematic(text);
    GridOfElevens(NewSchematic(text));
    var n0, n1 := Number(None, "11", Some("11"), 11), Number(Some("11"), "11", None, 11);
    ElevenParts(n0, n1);
    SumOfTwo(n0, n1, 11, 11);
  }

  /** Both Numbers of the grid of elevens pass the test on a neighbouring digit. */
  lemma ElevenParts(n0: Number, n1: Number)
    requires n0 == Number(None, "11", Some("11"), 11) && n1 == Number(Some("11"), "11", None, 11)
    ensures PartNumber(n0) == Some(11) && PartNumber(n1) == Some(11)
  {
    assert '1' in "11";
  }

  lemma SumOfTwo(a: Number, b: Number, x: nat, y: nat)
    requires PartNumber(a) == Some(x) && PartNumber(b) == Some(y)
    ensures SumParts([a, b]) == x + y
  {
    assert [b][1..] == [];
    assert SumParts([b]) == y;
    assert [a, b][1..] == [b];
  }

  lemma ElevensSchematic(text: string)
    requires text == "11\n11"
    ensures NewSchematic(text) == ["11", "11"]
  {
    assert LeadingWhitespace(text) == 0;
    assert TrailingWhitespace(text) == 0;
    assert Trim(text) == text;
    SplitAtFirstSep("11", '\n', "11");
    SplitWithoutSep("11", '\n');
    assert text == "11" + ['\n'] + "11";
  }

  lemma GridOfElevens(lines: seq<string>)
    requires lines == ["11", "11"]
    ensures Numbers(lines) == Ok([Number(None, "11", Some("11"), 11), Number(Some("11"), "11", None, 11)])
  {
    var n0, n1 := Number(None, "11", Some("11"), 11), Number(Some("11"), "11", None, 11);
    assert lines[0] == "11" && lines[1] == "11";
    ElevensMarks();
    ElevensTop(lines);
    ElevensBottom(lines);
    assert RowsFrom(lines, 2, 2) == Ok([]);
    RowOfPairs(lines, 2, 1, [(0, 1)], [n1], []);
    NilRight([n1]);
    RowOfPairs(lines, 2, 0, [(0, 1)], [n0], [n1]);
    PairOf(n0, n1);
  }

  /** A row with marks contributes the Numbers of its pairs ahead of those of the
      rows after it. */
  lemma RowOfPairs(lines: seq<string>, w: nat, i: nat, ps: seq<(nat, nat)>, ns: seq<Number>, rest: seq<Number>)
    requires i < |lines| && 1 <= w <= |lines[i]|
    requires Marks(lines[i], w, w) != [] && Pairs(Marks(lines[i], w, w)) == ps
    requires PairNumbers(lines, w, i, ps) == Ok(ns) && RowsFrom(lines, w, i + 1) == Ok(rest)
    ensures RowsFrom(lines, w, i) == Ok(ns + rest)
  {
    RowStep(lines, w, i);
  }

  lemma ElevensMarks()
    ensures Marks("11", 2, 2) == [0, 1]
    ensures Pairs([0, 1]) == [(0, 1)]
  {
    assert Marks("11", 2, 1) == [0];
  }

  lemma ElevensTop(lines: seq<string>)
    requires lines == ["11", "11"]
    ensures PairNumbers(lines, 2, 0, [(0, 1)]) == Ok([Number(None, "11", Some("11"), 11)])
  {
    ElevenNumber(None, Some("11"));
    assert lines[0] == "11" && lines[1] == "11";
    assert "11"[0..2] == "11";
    assert NumberAt(lines, 2, 0, 0, 1) == Ok(Number(None, "11", Some("11"), 11));
    assert [(0, 1)][1..] == [];
    assert PairNumbers(lines, 2, 0, []) == Ok([]);
    assert [Number(None, "11", Some("11"), 11)] + [] == [Number(None, "11", Some("11"), 11)];
  }

  lemma ElevensBottom(lines: seq<string>)
    requires lines == ["11", "11"]
    ensures PairNumbers(lines, 2, 1, [(0, 1)]) == Ok([Number(Some("11"), "11", None, 11)])
  {
    ElevenNumber(Some("11"), None);
    assert lines[0] == "11" && lines[1] == "11";
    assert "11"[0..2] == "11";
    assert NumberAt(lines, 2, 1, 0, 1) == Ok(Number(Some("11"), "11", None, 11));
    assert [(0, 1)][1..] == [];
    assert PairNumbers(lines, 2, 1, []) == Ok([]);
    assert [Number(Some("11"), "11", None, 11)] + [] == [Number(Some("11"), "11", None, 11)];
  }

  lemma ElevenNumber(prev: Option<string>, next: Option<string>)
    ensures NewNumber(prev, "11", next) == Ok(Number(prev, "11", next, 11))
  {
    assert AllDigits("11");
    assert DigitsValue("11") == 11;
    CleanWindow(prev, "", "11", "", next);
    assert "" + "11" + "" == "11";
  }
}
