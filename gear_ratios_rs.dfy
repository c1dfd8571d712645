/** The second engine-schematic scanner (gear_ratios_rs/src/main.rs): every row is
    split at its ASCII punctuation, the pieces that read as a `u32` are the values
    present in the row, every occurrence of each value's decimal string in the row
    becomes a span, and every span becomes a Number holding the three row slices over
    its window. The window is clamped by the number of rows, not by the width, and
    the part-number test is the one of the first scanner. */
module GearRatiosRs {
  import opened Text
  import GearRatios

  /** A located number: the slices of the row above, of its own row and of the row
      below over its window; the value is read from the own-row slice later. */
  datatype Number = Number(prevLine: Option<string>, line: string, nextLine: Option<string>)

  // ---------------------------------------------------------------------------
  // The values present in a row and their spans

  /** `filter_map(|s| s.parse().ok())` with `u32`: the values of the pieces that read
      as a `u32`, in order. */
  function ParsedPieces(pieces: seq<string>): (vs: seq<nat>)
    ensures |vs| <= |pieces|
    ensures forall k :: 0 <= k < |vs| ==> vs[k] < U32_BOUND
  {
    if pieces == [] then [] else PieceValue(pieces[0]) + ParsedPieces(pieces[1..])
  }

  /** `s.parse().ok()` on one piece: its `u32` value, or nothing. */
  function PieceValue(piece: string): (v: seq<nat>)
    ensures |v| <= 1 && forall k :: 0 <= k < |v| ==> v[k] < U32_BOUND
    ensures var digits := if |piece| > 0 && piece[0] == '+' then piece[1..] else piece;
      && (|v| == 1 <==> |digits| > 0 && AllDigits(digits) && DigitsValue(digits) < U32_BOUND)
      && (|v| == 1 ==> AllDigits(digits) && v[0] == DigitsValue(digits))
  {
    match ParseUnsigned(piece, U32_BOUND)
    case Some(v) => [v]
    case None => []
  }

  /** The values of two runs of pieces are the values of the first, then those of
      the second. */
  lemma {:induction false} ParsedPiecesAppend(a: seq<string>, b: seq<string>)
    ensures ParsedPieces(a + b) == ParsedPieces(a) + ParsedPieces(b)
  {
    if a == [] {
      assert a + b == b;
    } else {
      ParsedPiecesAppend(a[1..], b);
      ParsedPiecesConsAppend(a, b);
      AppendAssoc(PieceValue(a[0]), ParsedPieces(a[1..]), ParsedPieces(b));
    }
  }

  lemma ParsedPiecesConsAppend(a: seq<string>, b: seq<string>)
    requires a != []
    ensures ParsedPieces(a + b) == PieceValue(a[0]) + ParsedPieces(a[1..] + b)
  {
    var ab := a + b;
    assert ab[0] == a[0];
    assert ab[1..] == a[1..] + b;
  }

  /** One piece gives its value when it reads as a `u32`, and nothing otherwise. */
  lemma ParsedPiecesOne(p: string)
    ensures ParsedPieces([p]) == PieceValue(p)
  {
    assert [p][1..] == [];
    assert PieceValue(p) + [] == PieceValue(p);
  }

  /** The values present in a row: its maximal pieces between ASCII punctuation that
      read as a `u32`. */
  function PresentNumbers(line: string): (vs: seq<nat>)
    ensures |vs| <= |SplitWhere(line, IsAsciiPunctuation)|
    ensures forall k :: 0 <= k < |vs| ==> vs[k] < U32_BOUND
  {
    ParsedPieces(SplitWhere(line, IsAsciiPunctuation))
  }

  /** The spans of one value: `(i, i + len)` for every non-overlapping occurrence of
      its decimal string, from left to right. */
  function ValueSpans(line: string, v: nat): (r: seq<(nat, nat)>)
    ensures |r| == |MatchIndices(line, DecimalString(v))|
    ensures forall k :: 0 <= k < |r| ==> r[k].0 < r[k].1 && r[k].1 - r[k].0 == |DecimalString(v)|
  {
    var pat := DecimalString(v);
    var starts := MatchIndices(line, pat);
    seq(|starts|, k requires 0 <= k < |starts| => (starts[k], starts[k] + |pat|))
  }

  /** Each span of a value covers one occurrence of its decimal string, and the spans
      run left to right without overlapping. */
  lemma ValueSpansOccur(line: string, v: nat)
    ensures var r := ValueSpans(line, v);
      && (forall k :: 0 <= k < |r| ==>
            r[k].1 == r[k].0 + |DecimalString(v)| && OccursAt(line, DecimalString(v), r[k].0))
      && (forall k :: 0 < k < |r| ==> r[k - 1].1 <= r[k].0)
  {
  }

  /** The spans of all the values, value by value (`flat_map`). */
  function Spans(line: string, vs: seq<nat>): (r: seq<(nat, nat)>)
    ensures forall p :: p in r <==> exists k :: 0 <= k < |vs| && p in ValueSpans(line, vs[k])
  {
    if vs == [] then [] else
      assert forall k :: 0 < k < |vs| ==> vs[k] == vs[1..][k - 1];
      assert forall k :: 0 <= k < |vs[1..]| ==> vs[1..][k] == vs[k + 1];
      ValueSpans(line, vs[0]) + Spans(line, vs[1..])
  }

  /** Every span is a non-empty stretch of the row. */
  lemma {:induction false} SpansInRow(line: string, vs: seq<nat>)
    ensures forall p :: p in Spans(line, vs) ==> p.0 < p.1 <= |line|
  {
    if vs != [] {
      ValueSpansOccur(line, vs[0]);
      SpansInRow(line, vs[1..]);
    }
  }

  /** The spans of a row. */
  function RowSpans(line: string): (r: seq<(nat, nat)>)
    ensures forall p :: p in r ==> p.0 < p.1 <= |line|
  {
    SpansInRow(line, PresentNumbers(line));
    Spans(line, PresentNumbers(line))
  }

  // ---------------------------------------------------------------------------
  // The window of a span and the Number built over it

  /** `min(end_char + 1, end)`: the end (exclusive) of the window, clamped by the
      number of rows `h`. */
  function WindowEnd(e: nat, h: nat): (hi: nat)
    ensures hi <= h && hi <= e + 1
    ensures hi == h || hi == e + 1
  {
    if e + 1 <= h then e + 1 else h
  }

  /** The Number for the span (s, e) of row i. The fields are evaluated as written:
      the own row first, then the row above or the row below; row 0 reads row 1 even
      when there is none. */
  function NumberAt(lines: seq<string>, i: nat, s: nat, e: nat): (r: Result<Number>)
    requires i < |lines|
    ensures r.Panic? ==> r.fault in {BadSlice, IndexOutOfBounds}
    ensures var lo, hi := GearRatios.WindowStart(s), WindowEnd(e, |lines|);
      (r.Ok? <==> && lo <= hi <= |lines[i]|
                  && (i == 0 ==> 1 < |lines| && hi <= |lines[1]|)
                  && (0 < i ==> hi <= |lines[i - 1]|)
                  && (0 < i < |lines| - 1 ==> hi <= |lines[i + 1]|))
    ensures var lo, hi := GearRatios.WindowStart(s), WindowEnd(e, |lines|);
      r.Ok? ==> && lo <= hi <= |lines[i]|
                && r.value.line == lines[i][lo..hi]
                && (i == 0 ==> r.value.prevLine.None?)
                && (0 < i ==> hi <= |lines[i - 1]| && r.value.prevLine == Some(lines[i - 1][lo..hi]))
                && (i == |lines| - 1 ==> r.value.nextLine.None?)
                && (i < |lines| - 1 ==> hi <= |lines[i + 1]| && r.value.nextLine == Some(lines[i + 1][lo..hi]))
  {
    var lo, hi := GearRatios.WindowStart(s), WindowEnd(e, |lines|);
    var line :- Slice(lines[i], lo, hi);
    if i == 0 then
      var below :- At(lines, i + 1);
      var next :- Slice(below, lo, hi);
      Ok(Number(None, line, Some(next)))
    else if i == |lines| - 1 then
      var prev :- Slice(lines[i - 1], lo, hi);
      Ok(Number(Some(prev), line, None))
    else
      var prev :- Slice(lines[i - 1], lo, hi);
      var next :- Slice(lines[i + 1], lo, hi);
      Ok(Number(Some(prev), line, Some(next)))
  }

  // ---------------------------------------------------------------------------
  // to_numbers

  /** The Numbers of the spans of row i, in order; the first panic wins. */
  function SpanNumbers(lines: seq<string>, i: nat, spans: seq<(nat, nat)>): (r: Result<seq<Number>>)
    requires i < |lines|
    ensures r.Ok? <==> forall k :: 0 <= k < |spans| ==> NumberAt(lines, i, spans[k].0, spans[k].1).Ok?
    ensures r.Ok? ==> |r.value| == |spans|
    ensures r.Ok? ==> forall k :: 0 <= k < |spans| ==> NumberAt(lines, i, spans[k].0, spans[k].1) == Ok(r.value[k])
    ensures r.Panic? ==> r.fault in {BadSlice, IndexOutOfBounds}
  {
    if spans == [] then Ok([]) else
      var n :- NumberAt(lines, i, spans[0].0, spans[0].1);
      var rest :- SpanNumbers(lines, i, spans[1..]);
      GearRatios.ConsEach((p: (nat, nat)) => NumberAt(lines, i, p.0, p.1), spans, n, rest);
      Ok([n] + rest)
  }

  /** The spans of row i as (row, start, end) sites, in order. */
  function RowSites(i: nat, spans: seq<(nat, nat)>): (r: seq<(nat, nat, nat)>)
    ensures |r| == |spans| && forall k :: 0 <= k < |r| ==> r[k] == (i, spans[k].0, spans[k].1)
  {
    seq(|spans|, k requires 0 <= k < |spans| => (i, spans[k].0, spans[k].1))
  }

  /** The sites of rows i .. H-1: row by row, and within a row the spans in the
      order RowSpans gives them. */
  function Sites(lines: seq<string>, i: nat): (r: seq<(nat, nat, nat)>)
    requires i <= |lines|
    ensures forall k :: 0 <= k < |r| ==> i <= r[k].0 < |lines| && (r[k].1, r[k].2) in RowSpans(lines[r[k].0])
    ensures forall a, b :: 0 <= a < b < |r| ==> r[a].0 <= r[b].0
    decreases |lines| - i
  {
    if i == |lines| then [] else
      var here, rest := RowSites(i, RowSpans(lines[i])), Sites(lines, i + 1);
      assert forall k :: 0 <= k < |here| ==> (here[k].1, here[k].2) == RowSpans(lines[i])[k];
      here + rest
  }

  /** The Numbers of rows i .. H-1: one per site, in the order of the sites, Ok
      exactly when every site's Number is. */
  function RowsFrom(lines: seq<string>, i: nat): (r: Result<seq<Number>>)
    requires i <= |lines|
    ensures var ss := Sites(lines, i);
      r.Ok? <==> forall k :: 0 <= k < |ss| ==> NumberAt(lines, ss[k].0, ss[k].1, ss[k].2).Ok?
    ensures var ss := Sites(lines, i);
      r.Ok? ==> |r.value| == |ss| && forall k :: 0 <= k < |ss| ==> NumberAt(lines, ss[k].0, ss[k].1, ss[k].2) == Ok(r.value[k])
    ensures r.Panic? ==> r.fault in {BadSlice, IndexOutOfBounds}
    decreases |lines| - i
  {
    if i == |lines| then Ok([])
    else
      var here, rest := SpanNumbers(lines, i, RowSpans(lines[i])), RowsFrom(lines, i + 1);
      SitesThen(lines, RowSites(i, RowSpans(lines[i])), Sites(lines, i + 1), here, rest);
      Then(here, rest)
  }

  /** The outcome `a` of the sites `xs` and then `b` of the sites `ys` is the outcome
      of the sites `xs + ys`. */
  lemma SitesThen(lines: seq<string>, xs: seq<(nat, nat, nat)>, ys: seq<(nat, nat, nat)>,
                  a: Result<seq<Number>>, b: Result<seq<Number>>)
    requires forall k :: 0 <= k < |xs| ==> xs[k].0 < |lines|
    requires forall k :: 0 <= k < |ys| ==> ys[k].0 < |lines|
    requires a.Ok? <==> forall k :: 0 <= k < |xs| ==> NumberAt(lines, xs[k].0, xs[k].1, xs[k].2).Ok?
    requires a.Ok? ==> |a.value| == |xs| && forall k :: 0 <= k < |xs| ==> NumberAt(lines, xs[k].0, xs[k].1, xs[k].2) == Ok(a.value[k])
    requires b.Ok? <==> forall k :: 0 <= k < |ys| ==> NumberAt(lines, ys[k].0, ys[k].1, ys[k].2).Ok?
    requires b.Ok? ==> |b.value| == |ys| && forall k :: 0 <= k < |ys| ==> NumberAt(lines, ys[k].0, ys[k].1, ys[k].2) == Ok(b.value[k])
    ensures var r, ss := Then(a, b), xs + ys;
      r.Ok? <==> forall k :: 0 <= k < |ss| ==> NumberAt(lines, ss[k].0, ss[k].1, ss[k].2).Ok?
    ensures var r, ss := Then(a, b), xs + ys;
      r.Ok? ==> |r.value| == |ss| && forall k :: 0 <= k < |ss| ==> NumberAt(lines, ss[k].0, ss[k].1, ss[k].2) == Ok(r.value[k])
  {
    var ss := xs + ys;
    if a.Panic? {
      var k :| 0 <= k < |xs| && !NumberAt(lines, xs[k].0, xs[k].1, xs[k].2).Ok?;
      assert ss[k] == xs[k];
    } else if b.Panic? {
      var k :| 0 <= k < |ys| && !NumberAt(lines, ys[k].0, ys[k].1, ys[k].2).Ok?;
      assert ss[|xs| + k] == ys[k];
    } else {
      var v := a.value + b.value;
      forall k | 0 <= k < |ss|
        ensures NumberAt(lines, ss[k].0, ss[k].1, ss[k].2) == Ok(v[k])
      {
        if k < |xs| { assert ss[k] == xs[k]; } else { assert ss[k] == ys[k - |xs|]; }
      }
    }
  }

  /** `to_numbers` on a text: its rows are its pieces between `'\n'`, and there is one
      Number per site of those rows, in order; only a slice or a missing row can make
      it panic. */
  function Numbers(text: string): (r: Result<seq<Number>>)
    ensures var lines := Split(text, '\n'); var ss := Sites(lines, 0);
      r.Ok? <==> forall k :: 0 <= k < |ss| ==> NumberAt(lines, ss[k].0, ss[k].1, ss[k].2).Ok?
    ensures var lines := Split(text, '\n'); var ss := Sites(lines, 0);
      r.Ok? ==> |r.value| == |ss| && forall k :: 0 <= k < |ss| ==> NumberAt(lines, ss[k].0, ss[k].1, ss[k].2) == Ok(r.value[k])
    ensures r.Panic? ==> r.fault in {BadSlice, IndexOutOfBounds}
  {
    var lines := Split(text, '\n');
    var r := RowsFrom(lines, 0);
    assert var ss := Sites(lines, 0);
      r.Ok? <==> forall k :: 0 <= k < |ss| ==> NumberAt(lines, ss[k].0, ss[k].1, ss[k].2).Ok?;
    r
  }

  /** The loop over the spans of row i, pushing onto `line_numbers`. */
  method SpansToNumbers(lines: seq<string>, i: nat, indices: seq<(nat, nat)>)
    returns (r: Result<seq<Number>>)
    requires i < |lines|
    ensures r == SpanNumbers(lines, i, indices)
  {
    var lineNumbers: seq<Number> := [];
    assert indices[0..] == indices;
    PrependEmpty(SpanNumbers(lines, i, indices));
    for k := 0 to |indices|
      invariant SpanNumbers(lines, i, indices) == Prepend(lineNumbers, SpanNumbers(lines, i, indices[k..]))
    {
      var n := NumberAt(lines, i, indices[k].0, indices[k].1);
      SpanNumbersAt(lines, i, indices, k);
      if n.Panic? { return Panic(n.fault); }
      PrependTwice(lineNumbers, [n.value], SpanNumbers(lines, i, indices[k + 1..]));
      lineNumbers := lineNumbers + [n.value];
    }
    assert lineNumbers + [] == lineNumbers;
    return Ok(lineNumbers);
  }

  /** `to_numbers` as the loop of the source: the Numbers of each row are collected
      and appended to `numbers`, row after row. */
  method ToNumbers(text: string) returns (r: Result<seq<Number>>)
    ensures r == Numbers(text)
  {
    var lines := Split(text, '\n');
    r := LinesToNumbers(lines);
  }

  method LinesToNumbers(lines: seq<string>) returns (r: Result<seq<Number>>)
    ensures r == RowsFrom(lines, 0)
  {
    var numbers: seq<Number> := [];
    PrependEmpty(RowsFrom(lines, 0));
    for i := 0 to |lines|
      invariant RowsFrom(lines, 0) == Prepend(numbers, RowsFrom(lines, i))
    {
      var indices := RowSpans(lines[i]);
      var lineNumbers := SpansToNumbers(lines, i, indices);
      assert RowsFrom(lines, i) == Then(lineNumbers, RowsFrom(lines, i + 1));
      if lineNumbers.Panic? { return Panic(lineNumbers.fault); }
      ThenStep(numbers, lineNumbers.value, RowsFrom(lines, i + 1));
      numbers := numbers + lineNumbers.value;
    }
    assert numbers + [] == numbers;
    return Ok(numbers);
  }

  lemma SpanNumbersAt(lines: seq<string>, i: nat, spans: seq<(nat, nat)>, k: nat)
    requires i < |lines| && k < |spans|
    ensures var n := NumberAt(lines, i, spans[k].0, spans[k].1);
      SpanNumbers(lines, i, spans[k..])
      == if n.Panic? then Panic(n.fault) else Prepend([n.value], SpanNumbers(lines, i, spans[k + 1..]))
  {
    assert spans[k..][0] == spans[k];
    assert spans[k..][1..] == spans[k + 1..];
  }

  // ---------------------------------------------------------------------------
  // part_number and part_1

  /** Number::part_number: `None` when the test of the first scanner fails; otherwise
      the digits of the own-row slice read as a `u32`, whose `unwrap` panics when
      there are none or their value is 2^32 or more. */
  function PartNumber(n: Number): (r: Result<Option<nat>>)
    ensures r == Ok(None) <==> !GearRatios.Qualifies(n.prevLine, n.line, n.nextLine)
    ensures var digits := Filter(n.line, IsDigit);
      && (r.Ok? && r.value.Some? <==>
            GearRatios.Qualifies(n.prevLine, n.line, n.nextLine) && |digits| > 0 && DigitsValue(digits) < U32_BOUND)
      && (r.Ok? && r.value.Some? ==> r.value.value == DigitsValue(digits))
    ensures r.Panic? ==> r.fault == ParseFailure
  {
    var prevHas := n.prevLine.Some? && Filter(n.prevLine.value, GearRatios.IsNotFiller) != "";
    var nextHas := n.nextLine.Some? && Filter(n.nextLine.value, GearRatios.IsNotFiller) != "";
    var lineHas := Filter(n.line, GearRatios.IsSymbol) != "";
    if !prevHas && !lineHas && !nextHas then Ok(None)
    else
      var digits := Filter(n.line, IsDigit);
      assert |digits| > 0 ==> digits[0] in digits;
      ParseUnsignedUnsigned(digits, U32_BOUND);
      match ParseUnsigned(digits, U32_BOUND)
      case Some(v) => Ok(Some(v))
      case None => Panic(ParseFailure)
  }

  /** The `map(..).sum()` of part_1: each Number's part value, 0 for `None`, added up
      in order; the first panic wins. */
  function SumParts(ns: seq<Number>): (r: Result<nat>)
    ensures r.Panic? ==> r.fault == ParseFailure
  {
    if ns == [] then Ok(0) else AddPart(PartNumber(ns[0]), SumParts(ns[1..]))
  }

  /** One step of the sum: the part value first, then the sum of the rest. */
  function AddPart(p: Result<Option<nat>>, rest: Result<nat>): (r: Result<nat>)
    ensures r.Ok? <==> p.Ok? && rest.Ok?
    ensures p.Panic? ==> r == Panic(p.fault)
    ensures p.Ok? && rest.Panic? ==> r == rest
    ensures r.Ok? ==> rest.value <= r.value
    ensures r.Ok? && p.value.None? ==> r.value == rest.value
    ensures r.Ok? && p.value.Some? ==> r.value - rest.value == p.value.value
  {
    if p.Panic? then Panic(p.fault)
    else if rest.Panic? then rest
    else Ok((match p.value case Some(v) => v case None => 0) + rest.value)
  }

  /** part_1 after the file read: the sum over the Numbers of the trimmed text. */
  function Part1(text: string): (r: Result<nat>)
    ensures var ns := Numbers(Trim(text));
      && (ns.Panic? ==> r == Panic(ns.fault))
      && (ns.Ok? ==> r == Collected(AllOk(PartValues(ns.value))))
  {
    var numbers :- Numbers(Trim(text));
    SumPartsCollects(numbers);
    SumParts(numbers)
  }

  /** The part value of each Number, in order. */
  function PartValues(ns: seq<Number>): (ps: seq<Result<Option<nat>>>)
    ensures |ps| == |ns| && forall k :: 0 <= k < |ns| ==> ps[k] == PartNumber(ns[k])
  {
    seq(|ns|, k requires 0 <= k < |ns| => PartNumber(ns[k]))
  }

  /** The sum of the present values, `None` adding 0. */
  function SomeSum(ps: seq<Option<nat>>): nat {
    if ps == [] then 0 else (match ps[0] case Some(v) => v case None => 0) + SomeSum(ps[1..])
  }

  /** The sum of collected part values, or the panic that stopped the collection. */
  function Collected(ps: Result<seq<Option<nat>>>): Result<nat> {
    if ps.Ok? then Ok(SomeSum(ps.value)) else Panic(ps.fault)
  }

  /** The `map(..).sum()` panics exactly when some part value does, with the first
      such panic; otherwise it is the sum of the present values. */
  lemma SumPartsCollects(ns: seq<Number>)
    ensures SumParts(ns) == Collected(AllOk(PartValues(ns)))
  {
    SumPartsOfValues(ns);
    SumResultsCollects(PartValues(ns));
  }

  /** `SumParts` with the part values already computed. */
  function SumResults(ps: seq<Result<Option<nat>>>): Result<nat> {
    if ps == [] then Ok(0) else AddPart(ps[0], SumResults(ps[1..]))
  }

  lemma {:induction false} SumPartsOfValues(ns: seq<Number>)
    ensures SumParts(ns) == SumResults(PartValues(ns))
  {
    if ns != [] {
      SumPartsOfValues(ns[1..]);
      var ps := PartValues(ns);
      assert ps[0] == PartNumber(ns[0]);
      assert ps[1..] == PartValues(ns[1..]);
    }
  }

  lemma {:induction false} SumResultsCollects(ps: seq<Result<Option<nat>>>)
    ensures SumResults(ps) == Collected(AllOk(ps))
  {
    if ps != [] {
      SumResultsCollects(ps[1..]);
      var x, tail := ps[0], ps[1..];
      assert ps == [x] + tail;
      AllOkCons(x, tail);
      if x.Ok? && AllOk(tail).Ok? {
        assert ([x.value] + AllOk(tail).value)[1..] == AllOk(tail).value;
      }
    }
  }

  /** The first Number whose part value panics decides `part_1`'s sum. */
  lemma SumPartsFirstPanic(ns: seq<Number>, i: nat)
    requires i < |ns| && PartNumber(ns[i]).Panic?
    requires forall j :: 0 <= j < i ==> PartNumber(ns[j]).Ok?
    ensures SumParts(ns) == Panic(PartNumber(ns[i]).fault)
  {
    var ps := PartValues(ns);
    assert ps[i] == PartNumber(ns[i]);
    SumResultsFirstPanic(ps, i);
    SumPartsOfValues(ns);
  }

  lemma {:induction false} SumResultsFirstPanic(ps: seq<Result<Option<nat>>>, i: nat)
    requires i < |ps| && ps[i].Panic?
    requires forall j :: 0 <= j < i ==> ps[j].Ok?
    ensures SumResults(ps) == Panic(ps[i].fault)
  {
    if i > 0 {
      assert ps[1..][i - 1] == ps[i];
      SumResultsFirstPanic(ps[1..], i - 1);
    }
  }

  // ---------------------------------------------------------------------------
  // Properties

  /** Every value found in a row occurs in the row as its decimal string, so it gets
      at least one span. */
  lemma PresentValuesHaveSpans(line: string)
    ensures forall v :: v in PresentNumbers(line) ==> ValueSpans(line, v) != []
  {
    var pieces, starts := SplitWhere(line, IsAsciiPunctuation), SplitWhereStarts(line, IsAsciiPunctuation);
    SplitWhereOccurs(line, IsAsciiPunctuation);
    PiecesUnsigned(line, pieces);
    ParsedOccur(line, pieces, starts);
    assert forall v :: v in PresentNumbers(line) ==> |ValueSpans(line, v)| == |MatchIndices(line, DecimalString(v))|;
  }

  /** No piece between ASCII punctuation starts with a `+`, which is punctuation. */
  lemma PiecesUnsigned(line: string, pieces: seq<string>)
    requires pieces == SplitWhere(line, IsAsciiPunctuation)
    ensures forall k :: 0 <= k < |pieces| ==> |pieces[k]| == 0 || pieces[k][0] != '+'
  {
    assert IsAsciiPunctuation('+');
    forall k | 0 <= k < |pieces| && |pieces[k]| > 0 ensures pieces[k][0] != '+' {
      assert pieces[k][0] in pieces[k];
    }
  }

  lemma {:induction false} ParsedOccur(line: string, pieces: seq<string>, starts: seq<nat>)
    requires |pieces| == |starts|
    requires forall k :: 0 <= k < |pieces| ==> OccursAt(line, pieces[k], starts[k])
    requires forall k :: 0 <= k < |pieces| ==> |pieces[k]| == 0 || pieces[k][0] != '+'
    ensures forall v :: v in ParsedPieces(pieces) ==> MatchIndices(line, DecimalString(v)) != []
  {
    if pieces != [] {
      var tp, ts := pieces[1..], starts[1..];
      assert forall k :: 0 <= k < |tp| ==> tp[k] == pieces[k + 1] && ts[k] == starts[k + 1];
      ParsedOccur(line, tp, ts);
      PieceFound(line, pieces[0], starts[0]);
      var rest := ParsedPieces(tp);
      match ParseUnsigned(pieces[0], U32_BOUND)
      case Some(v) =>
        assert ParsedPieces(pieces) == [v] + rest;
      case None =>
        assert ParsedPieces(pieces) == rest;
    }
  }

  /** The value of a piece that reads as a number has a match in the row. */
  lemma PieceFound(line: string, p: string, at: nat)
    requires OccursAt(line, p, at)
    requires |p| == 0 || p[0] != '+'
    ensures ParseUnsigned(p, U32_BOUND).Some? ==>
      MatchIndices(line, DecimalString(ParseUnsigned(p, U32_BOUND).value)) != []
  {
    if ParseUnsigned(p, U32_BOUND).Some? {
      var d := DecimalString(ParseUnsigned(p, U32_BOUND).value);
      PieceValueOccurs(line, p, at);
      var i := at + |p| - |d|;
      assert OccursAt(line, d, i);
      MatchIndicesNonEmpty(line, d, 0, i);
      assert MatchIndices(line, d) != [];
    }
  }

  /** The value of a piece that reads as a number occurs at the end of the piece. */
  lemma PieceValueOccurs(line: string, p: string, at: nat)
    requires OccursAt(line, p, at)
    requires |p| == 0 || p[0] != '+'
    requires ParseUnsigned(p, U32_BOUND).Some?
    ensures var d := DecimalString(ParseUnsigned(p, U32_BOUND).value);
      |d| <= |p| && OccursAt(line, d, at + |p| - |d|)
  {
    PieceDigits(p);
    DecimalStringIsSuffix(p);
    var d := DecimalString(DigitsValue(p));
    SuffixOccurs(line, p, at, |p| - |d|);
  }

  /** A piece without a leading `+` that reads as a number is a digit string. */
  lemma PieceDigits(p: string)
    requires |p| == 0 || p[0] != '+'
    requires ParseUnsigned(p, U32_BOUND).Some?
    ensures |p| > 0 && AllDigits(p) && ParseUnsigned(p, U32_BOUND).value == DigitsValue(p)
  {
    ParseUnsignedUnsigned(p, U32_BOUND);
  }

  /** A suffix of a piece occurs where the piece's suffix starts. */
  lemma SuffixOccurs(line: string, p: string, at: nat, j: nat)
    requires OccursAt(line, p, at) && j <= |p|
    ensures OccursAt(line, p[j..], at + j)
  {
    assert line[at + j..at + |p|] == line[at..at + |p|][j..];
  }

  /** A value present twice yields each of its occurrences twice: `7.7` has four
      spans. */
  lemma RepeatedValue(line: string)
    requires line == "7.7"
    ensures RowSpans(line) == [(0, 1), (2, 3), (0, 1), (2, 3)]
  {
    SevensPresent(line);
    SevensFound(line);
    assert DecimalString(7) == "7";
    var v := ValueSpans(line, 7);
    assert |v| == 2 && v[0] == (0, 1) && v[1] == (2, 3);
    assert [7, 7][1..] == [7] && [7][1..] == [];
    assert Spans(line, [7]) == v + [];
  }

  lemma SevensPresent(line: string)
    requires line == "7.7"
    ensures PresentNumbers(line) == [7, 7]
  {
    assert line == "7" + ['.'] + "7";
    DotPieces(line, "7", "7");
    SevensParsed();
  }

  /** A row of two punctuation-free pieces around one `'.'` splits into those pieces. */
  lemma DotPieces(line: string, a: string, b: string)
    requires line == a + ['.'] + b
    requires forall k :: 0 <= k < |a| ==> !IsAsciiPunctuation(a[k])
    requires forall k :: 0 <= k < |b| ==> !IsAsciiPunctuation(b[k])
    ensures SplitWhere(line, IsAsciiPunctuation) == [a, b]
  {
    SplitWhereAtSep(a, '.', b, IsAsciiPunctuation);
    SplitWhereNoSep(b, IsAsciiPunctuation);
  }

  lemma SevensParsed()
    ensures ParsedPieces(["7", "7"]) == [7, 7]
  {
    DigitsValueSnoc("", '7');
    assert "" + ['7'] == "7";
    ParseUnsignedUnsigned("7", U32_BOUND);
    assert ["7", "7"][1..] == ["7"] && ["7"][1..] == [];
    assert ParsedPieces(["7"]) == [7];
  }

  lemma SevensFound(line: string)
    requires line == "7.7"
    ensures MatchIndices(line, "7") == [0, 2]
  {
    assert MatchIndicesFrom(line, "7", 3) == [];
    assert MatchIndicesFrom(line, "7", 2) == [2];
    assert line[1..2][0] == '.';
    assert MatchIndicesFrom(line, "7", 1) == [2];
  }

  /** A value is also found inside a longer number: in `4.467` the value 4 gets a span
      inside 467. */
  lemma ValueInsideLonger(line: string)
    requires line == "4.467"
    ensures RowSpans(line) == [(0, 1), (2, 3), (2, 5)]
  {
    FourPresent(line);
    FourFound(line);
    assert DecimalString(4) == "4";
    assert DecimalString(46) == "46";
    assert DecimalString(467) == "467";
    var a, b := ValueSpans(line, 4), ValueSpans(line, 467);
    assert |a| == 2 && a[0] == (0, 1) && a[1] == (2, 3);
    assert |b| == 1 && b[0] == (2, 5);
    assert [4, 467][1..] == [467] && [467][1..] == [];
    assert Spans(line, [467]) == b + [];
  }

  lemma FourPresent(line: string)
    requires line == "4.467"
    ensures PresentNumbers(line) == [4, 467]
  {
    assert line == "4" + ['.'] + "467";
    DotPieces(line, "4", "467");
    FourParsed();
  }

  lemma FourParsed()
    ensures ParsedPieces(["4", "467"]) == [4, 467]
  {
    DigitsValueSnoc("", '4');
    DigitsValueSnoc("4", '6');
    DigitsValueSnoc("46", '7');
    assert "" + ['4'] == "4" && "4" + ['6'] == "46" && "46" + ['7'] == "467";
    ParseUnsignedUnsigned("4", U32_BOUND);
    ParseUnsignedUnsigned("467", U32_BOUND);
    assert ["4", "467"][1..] == ["467"] && ["467"][1..] == [];
    assert ParsedPieces(["467"]) == [467];
  }

  lemma FourFound(line: string)
    requires line == "4.467"
    ensures MatchIndices(line, "4") == [0, 2]
    ensures MatchIndices(line, "467") == [2]
  {
    assert line[4..5][0] == '7' && line[3..4][0] == '6' && line[1..2][0] == '.';
    assert MatchIndicesFrom(line, "4", 4) == [];
    assert MatchIndicesFrom(line, "4", 3) == [];
    assert MatchIndicesFrom(line, "4", 2) == [2];
    assert MatchIndicesFrom(line, "4", 1) == [2];
    assert line[1..4][0] == '.';
    assert MatchIndicesFrom(line, "467", 3) == [];
    assert MatchIndicesFrom(line, "467", 2) == [2];
    assert MatchIndicesFrom(line, "467", 1) == [2];
  }

  /** A number written with leading zeros is searched without them: `007` is read as 7
      and its span covers the last column only. */
  lemma LeadingZeros(line: string)
    requires line == "007"
    ensures PresentNumbers(line) == [7]
    ensures RowSpans(line) == [(2, 3)]
  {
    SplitWhereNoSep(line, IsAsciiPunctuation);
    DigitsValueSnoc("", '0');
    DigitsValueSnoc("0", '0');
    DigitsValueSnoc("00", '7');
    assert "" + ['0'] == "0" && "0" + ['0'] == "00" && "00" + ['7'] == "007";
    ParseUnsignedUnsigned("007", U32_BOUND);
    assert DigitsValue("007") == 7;
    assert DecimalString(7) == "7";
    assert MatchIndicesFrom(line, "7", 2) == [2];
    assert MatchIndicesFrom(line, "7", 1) == [2];
    assert MatchIndices(line, "7") == [2];
  }

  /** On a grid with as many rows as columns the window is the one of the first
      scanner: a span ending before column e + 1 is cut exactly as the first scanner
      cuts the pair ending at column e, panics included. */
  lemma SquareGridWindows(lines: seq<string>, w: nat, i: nat, s: nat, e: nat)
    requires 1 <= w && i < |lines| && |lines| == w
    ensures NumberAt(lines, i, s, e + 1)
      == match GearRatios.WindowSlices(lines, w, i, s, e)
         case Ok(sl) => Ok(Number(sl.prev, sl.line, sl.next))
         case Panic(f) => Panic(f)
  {
    assert WindowEnd(e + 1, w) == GearRatios.WindowEnd(e, w) + 1;
  }

  /** On a grid with more rows than columns, a number that ends in the last column
      makes the own-row slice run past the end of the row. */
  lemma TallGridPanics(lines: seq<string>, i: nat, s: nat)
    requires i < |lines| && s < |lines[i]| < |lines|
    ensures NumberAt(lines, i, s, |lines[i]|) == Panic(BadSlice)
  {
  }

  /** A grid with one row panics on the missing row below as soon as the own-row
      slice succeeds. */
  lemma OneRowPanics(lines: seq<string>, s: nat, e: nat)
    requires |lines| == 1
    requires GearRatios.WindowStart(s) <= WindowEnd(e, 1) <= |lines[0]|
    ensures NumberAt(lines, 0, s, e) == Panic(IndexOutOfBounds)
  {
  }

  /** Over a window that holds one run of digits between punctuation, both scanners
      read the same part value: the digits of the run, when the test holds. */
  lemma CleanWindowAgrees(prev: Option<string>, a: string, d: string, b: string, next: Option<string>)
    requires forall k :: 0 <= k < |a| ==> IsAsciiPunctuation(a[k])
    requires forall k :: 0 <= k < |b| ==> IsAsciiPunctuation(b[k])
    requires |d| > 0 && AllDigits(d) && DigitsValue(d) < U32_BOUND
    ensures var line := a + d + b;
      && GearRatios.NewNumber(prev, line, next).Ok?
      && PartNumber(Number(prev, line, next)) == Ok(GearRatios.PartNumber(GearRatios.NewNumber(prev, line, next).value))
  {
    var line := a + d + b;
    GearRatios.CleanWindow(prev, a, d, b, next);
    DigitsBetweenPunctuation(a, d, b);
    DigitsAgree(Number(prev, line, next), d);
  }

  lemma DigitsBetweenPunctuation(a: string, d: string, b: string)
    requires forall k :: 0 <= k < |a| ==> IsAsciiPunctuation(a[k])
    requires forall k :: 0 <= k < |b| ==> IsAsciiPunctuation(b[k])
    requires AllDigits(d)
    ensures Filter(a + d + b, IsDigit) == d
  {
    FilterFlanked(a, d, b, IsDigit);
  }

  /** When the own-row slice holds the digits `d`, the two part-number functions agree. */
  lemma DigitsAgree(n: Number, d: string)
    requires Filter(n.line, IsDigit) == d
    requires |d| > 0 && DigitsValue(d) < U32_BOUND
    ensures PartNumber(n) == Ok(GearRatios.PartNumber(GearRatios.Number(n.prevLine, n.line, n.nextLine, DigitsValue(d))))
  {
    var n1 := GearRatios.Number(n.prevLine, n.line, n.nextLine, DigitsValue(d));
    if GearRatios.Qualifies(n.prevLine, n.line, n.nextLine) {
      assert PartNumber(n) == Ok(Some(DigitsValue(d)));
      assert GearRatios.PartNumber(n1) == Some(DigitsValue(d));
    } else {
      assert PartNumber(n) == Ok(None);
      assert GearRatios.PartNumber(n1) == None;
    }
  }
}
