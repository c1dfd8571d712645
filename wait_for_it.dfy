/** The boat-race counter: a race lasts `duration` milliseconds, and holding the
    button for `d` of them makes the boat travel `d * (duration - d)` millimetres;
    a hold wins when that beats the record. The answer multiplies the number of
    winning holds of every race. */
module WaitForIt {
  import opened Text

  /** A race: its length in milliseconds and the distance to beat. */
  datatype Race = Race(duration: nat, recordDistance: nat)

  // ---------------------------------------------------------------------------
  // Counting the winning holds

  /** Holding for `d` milliseconds, at most the whole race, beats the record. */
  predicate Wins(race: Race, d: nat)
    requires d <= race.duration
    ensures Wins(race, d) ==> 0 < d < race.duration
  {
    d * (race.duration - d) > race.recordDistance
  }

  /** The number of winning holds among `0 .. n-1`. */
  function WinsBelow(race: Race, n: nat): (c: nat)
    requires n <= race.duration + 1
    ensures c <= n
  {
    if n == 0 then 0
    else WinsBelow(race, n - 1) + (if Wins(race, n - 1) then 1 else 0)
  }

  /** The number of winning holds of the race, `0 ..= duration`. */
  function WaysToWin(race: Race): (c: nat)
    ensures c <= (if race.duration >= 1 then race.duration else 1) - 1
  {
    var t := race.duration;
    if t == 0 then WinsBelow(race, 1)
    else
      WinsBelowWithoutZero(race, t);
      WinsBelow(race, t + 1)
  }

  /** `beat`: the count, one hold after another. The subtraction `duration - d` is
      taken only for `d <= duration`, so it never goes below zero. */
  method Beat(race: Race) returns (amount: nat)
    ensures amount == WaysToWin(race)
  {
    amount := 0;
    for d := 0 to race.duration + 1
      invariant amount == WinsBelow(race, d)
    {
      if d * (race.duration - d) > race.recordDistance {
        amount := amount + 1;
      }
    }
  }

  /** The winning holds as a set. */
  ghost function WinningHolds(race: Race, n: nat): set<nat>
    requires n <= race.duration + 1
  {
    set d: nat | d < n && Wins(race, d)
  }

  /** The count is the number of winning holds. */
  lemma {:induction false} WinsBelowIsCard(race: Race, n: nat)
    requires n <= race.duration + 1
    ensures WinsBelow(race, n) == |WinningHolds(race, n)|
  {
    if n == 0 {
      assert WinningHolds(race, 0) == {};
    } else {
      WinsBelowIsCard(race, n - 1);
      var before := WinningHolds(race, n - 1);
      if Wins(race, n - 1) {
        assert WinningHolds(race, n) == before + {n - 1};
        assert n - 1 !in before;
      } else {
        assert WinningHolds(race, n) == before;
      }
    }
  }

  /** The count of `beat` is the number of holds in `0 ..= duration` that win. */
  lemma WaysToWinIsCard(race: Race)
    ensures WaysToWin(race) == |set d: nat | d <= race.duration && Wins(race, d)|
  {
    WinsBelowIsCard(race, race.duration + 1);
    assert WinningHolds(race, race.duration + 1) == set d: nat | d <= race.duration && Wins(race, d);
  }

  /** Not holding at all, and holding for the whole race, travel nowhere. */
  lemma EndsNeverWin(race: Race)
    ensures !Wins(race, 0) && !Wins(race, race.duration)
  {
  }

  /** A hold wins exactly when the complementary hold does. */
  lemma WinsSymmetric(race: Race, d: nat)
    requires d <= race.duration
    ensures Wins(race, d) <==> Wins(race, race.duration - d)
  {
    var t := race.duration;
    assert (t - d) * (t - (t - d)) == d * (t - d);
  }

  /** Without the two ends, at most `n - 1` of the holds `0 .. n-1` win. */
  lemma {:induction false} WinsBelowWithoutZero(race: Race, n: nat)
    requires 1 <= n <= race.duration + 1
    ensures WinsBelow(race, n) <= n - 1
  {
    if n > 1 {
      WinsBelowWithoutZero(race, n - 1);
    }
  }

  /** A higher record leaves no more winning holds. */
  lemma {:induction false} WinsBelowAntitone(race: Race, record: nat, n: nat)
    requires race.recordDistance <= record && n <= race.duration + 1
    ensures WinsBelow(Race(race.duration, record), n) <= WinsBelow(race, n)
  {
    if n > 0 {
      WinsBelowAntitone(race, record, n - 1);
    }
  }

  // ---------------------------------------------------------------------------
  // Reading the races

  /** `parse::<usize>().unwrap()` on a 64-bit target. */
  function ParseUsize(s: string): (r: Result<nat>)
    ensures r.Ok? ==> r.value < U64_BOUND
    ensures r.Panic? ==> r.fault == ParseFailure
  {
    match ParseUnsigned(s, U64_BOUND)
    case Some(v) => Ok(v)
    case None => Panic(ParseFailure)
  }

  /** The whitespace-separated words of every line. */
  function Rows(text: string): (rows: seq<seq<string>>)
    ensures |rows| == |Lines(text)|
  {
    var lines := Lines(text);
    seq(|lines|, k requires 0 <= k < |lines| => SplitWhitespace(lines[k]))
  }

  /** Race `item`: the duration is word `item` of the first line, parsed first; the
      record is word `item` of the second line. */
  function RaceAt(rows: seq<seq<string>>, item: nat): (r: Result<Race>)
    requires |rows| >= 1 && item < |rows[0]|
    ensures r.Ok? ==> |rows| >= 2 && item < |rows[1]|
    ensures r.Ok? ==> ParseUsize(rows[0][item]) == Ok(r.value.duration)
    ensures r.Ok? ==> ParseUsize(rows[1][item]) == Ok(r.value.recordDistance)
  {
    var duration :- ParseUsize(rows[0][item]);
    var second :- At(rows, 1);
    var word :- At(second, item);
    var record :- ParseUsize(word);
    Ok(Race(duration, record))
  }

  /** One race per word after the label of the first line. */
  function RacesOf(rows: seq<seq<string>>): (rs: seq<Result<Race>>)
    requires |rows| >= 1
    ensures |rs| == (if |rows[0]| >= 1 then |rows[0]| - 1 else 0)
    ensures forall k :: 0 <= k < |rs| && rs[k].Ok? ==>
      && |rows| >= 2 && k + 1 < |rows[1]|
      && ParseUsize(rows[0][k + 1]) == Ok(rs[k].value.duration)
      && ParseUsize(rows[1][k + 1]) == Ok(rs[k].value.recordDistance)
  {
    var n := if |rows[0]| >= 1 then |rows[0]| - 1 else 0;
    seq(n, k requires 0 <= k < n => RaceAt(rows, k + 1))
  }

  /** The races of a text's rows: a text without lines panics on its first line;
      otherwise the races in order, the first one that does not parse aborting. */
  function RacesOfRows(rows: seq<seq<string>>): (r: Result<seq<Race>>)
    ensures rows == [] ==> r == Panic(IndexOutOfBounds)
    ensures r.Ok? ==> |rows| >= 1 && |r.value| == (if |rows[0]| >= 1 then |rows[0]| - 1 else 0)
    ensures r.Ok? ==> forall k :: 0 <= k < |r.value| ==> RaceAt(rows, k + 1) == Ok(r.value[k])
  {
    var _ :- At(rows, 0);
    AllOk(RacesOf(rows))
  }

  /** `get_races`. */
  function GetRaces(text: string): (r: Result<seq<Race>>)
    ensures Rows(text) == [] ==> r == Panic(IndexOutOfBounds)
    ensures r.Ok? ==> |Rows(text)| >= 1 && |r.value| == (if |Rows(text)[0]| >= 1 then |Rows(text)[0]| - 1 else 0)
    ensures r.Ok? ==> forall k :: 0 <= k < |r.value| ==> RaceAt(Rows(text), k + 1) == Ok(r.value[k])
  {
    RacesOfRows(Rows(text))
  }

  /** Rows made of a label and the printed durations, and a label and the printed
      records, give those races. */
  lemma RacesOfPrinted(rows: seq<seq<string>>, races: seq<Race>)
    requires forall k :: 0 <= k < |races| ==> races[k].duration < U64_BOUND && races[k].recordDistance < U64_BOUND
    requires |rows| >= 2 && |rows[0]| == |races| + 1 && |rows[1]| == |races| + 1
    requires forall k :: 0 <= k < |races| ==> rows[0][k + 1] == DecimalString(races[k].duration)
    requires forall k :: 0 <= k < |races| ==> rows[1][k + 1] == DecimalString(races[k].recordDistance)
    ensures RacesOfRows(rows) == Ok(races)
  {
    var rs := RacesOf(rows);
    forall k | 0 <= k < |races|
      ensures rs[k] == Ok(races[k])
    {
      ParseDecimalString(races[k].duration, U64_BOUND);
      ParseDecimalString(races[k].recordDistance, U64_BOUND);
    }
    AllOkEach(rs, races);
  }

  /** A single word on the first line means no races, whatever follows. */
  lemma LabelOnly(rows: seq<seq<string>>)
    requires |rows| >= 1 && |rows[0]| <= 1
    ensures RacesOfRows(rows) == Ok([])
  {
  }

  /** A label: a non-empty word without whitespace. */
  predicate IsLabel(w: string) { w != [] && forall k :: 0 <= k < |w| ==> !IsWhitespace(w[k]) }

  /** A line of a label followed by numbers, separated by single spaces. */
  function LabelledLine(name: string, ns: seq<nat>): string
  {
    Join([name] + seq(|ns|, k requires 0 <= k < |ns| => DecimalString(ns[k])), " ")
  }

  /** The words of a labelled line are the label and the printed numbers; the line
      holds no line break or carriage return. */
  lemma LabelledLineWords(name: string, ns: seq<nat>)
    requires IsLabel(name)
    ensures SplitWhitespace(LabelledLine(name, ns)) == [name] + seq(|ns|, k requires 0 <= k < |ns| => DecimalString(ns[k]))
    ensures '\n' !in LabelledLine(name, ns) && '\r' !in LabelledLine(name, ns) && LabelledLine(name, ns) != []
  {
    var words := [name] + seq(|ns|, k requires 0 <= k < |ns| => DecimalString(ns[k]));
    forall k, j | 0 <= k < |words| && 0 <= j < |words[k]|
      ensures !IsWhitespace(words[k][j])
    {
      if k > 0 {
        assert IsDigit(words[k][j]);
      }
    }
    SplitWhitespaceJoin(words);
    var line := Join(words, " ");
    forall c | c == '\n' || c == '\r'
      ensures c !in line
    {
      if c in line {
        JoinChars(words, " ", c);
      }
    }
    assert line != [] by {
      if |words| > 1 {
        assert line == words[0] + " " + Join(words[1..], " ");
      }
    }
  }

  /** A race sheet: the labelled line of durations, a line break, the labelled line of
      records. */
  function Sheet(timeLabel: string, distanceLabel: string, races: seq<Race>): string
  {
    LabelledLine(timeLabel, seq(|races|, k requires 0 <= k < |races| => races[k].duration)) + "\n"
      + LabelledLine(distanceLabel, seq(|races|, k requires 0 <= k < |races| => races[k].recordDistance))
  }

  /** Reading a race sheet gives its races back. */
  lemma SheetRoundTrip(timeLabel: string, distanceLabel: string, races: seq<Race>)
    requires IsLabel(timeLabel) && IsLabel(distanceLabel)
    requires forall k :: 0 <= k < |races| ==> races[k].duration < U64_BOUND && races[k].recordDistance < U64_BOUND
    ensures GetRaces(Sheet(timeLabel, distanceLabel, races)) == Ok(races)
  {
    SheetRows(timeLabel, distanceLabel, races);
  }

  /** The rows of a printed race sheet give its races. */
  lemma SheetRows(timeLabel: string, distanceLabel: string, races: seq<Race>)
    requires IsLabel(timeLabel) && IsLabel(distanceLabel)
    requires forall k :: 0 <= k < |races| ==> races[k].duration < U64_BOUND && races[k].recordDistance < U64_BOUND
    ensures RacesOfRows(Rows(Sheet(timeLabel, distanceLabel, races))) == Ok(races)
  {
    var durations := seq(|races|, k requires 0 <= k < |races| => races[k].duration);
    var records := seq(|races|, k requires 0 <= k < |races| => races[k].recordDistance);
    var text := LabelledLine(timeLabel, durations) + "\n" + LabelledLine(distanceLabel, records);
    assert Sheet(timeLabel, distanceLabel, races) == text;
    LabelledRows(timeLabel, durations, distanceLabel, records);
    var rows := Rows(text);
    LabelledWordsAt(timeLabel, durations);
    LabelledWordsAt(distanceLabel, records);
    assert rows[0] == SplitWhitespace(LabelledLine(timeLabel, durations));
    assert rows[1] == SplitWhitespace(LabelledLine(distanceLabel, records));
    forall k | 0 <= k < |races|
      ensures rows[0][k + 1] == DecimalString(races[k].duration)
      ensures rows[1][k + 1] == DecimalString(races[k].recordDistance)
    {
      assert durations[k] == races[k].duration && records[k] == races[k].recordDistance;
    }
    RacesOfPrinted(rows, races);
  }

  /** Two labelled lines, one after the other, give one row of words each. */
  lemma LabelledRows(a: string, xs: seq<nat>, b: string, ys: seq<nat>)
    requires IsLabel(a) && IsLabel(b)
    ensures Rows(LabelledLine(a, xs) + "\n" + LabelledLine(b, ys))
      == [SplitWhitespace(LabelledLine(a, xs)), SplitWhitespace(LabelledLine(b, ys))]
  {
    var first := LabelledLine(a, xs);
    var second := LabelledLine(b, ys);
    LabelledLineWords(a, xs);
    LabelledLineWords(b, ys);
    TwoLines(first, second);
  }

  /** The words of a labelled line after the label are the printed numbers. */
  lemma LabelledWordsAt(name: string, ns: seq<nat>)
    requires IsLabel(name)
    ensures |SplitWhitespace(LabelledLine(name, ns))| == |ns| + 1
    ensures forall k :: 0 <= k < |ns| ==> SplitWhitespace(LabelledLine(name, ns))[k + 1] == DecimalString(ns[k])
  {
    LabelledLineWords(name, ns);
  }

  // ---------------------------------------------------------------------------
  // The answer

  /** The product of the counts, `1` for none (`fold(1, Mul::mul)`). */
  function Product(xs: seq<nat>): (p: nat)
    ensures (forall k :: 0 <= k < |xs| ==> xs[k] >= 1) ==> p >= 1
  {
    if xs == [] then 1 else
      var init := xs[..|xs| - 1];
      assert forall k :: 0 <= k < |init| ==> init[k] == xs[k];
      MulPositive(Product(init), xs[|xs| - 1]);
      Product(init) * xs[|xs| - 1]
  }

  lemma MulPositive(a: nat, b: nat)
    ensures a >= 1 && b >= 1 ==> a * b >= 1
  {
  }

  /** The product is zero exactly when one of the factors is. */
  lemma {:induction false} ProductZero(xs: seq<nat>)
    ensures Product(xs) == 0 <==> exists k :: 0 <= k < |xs| && xs[k] == 0
  {
    if xs != [] {
      var init := xs[..|xs| - 1];
      ProductZero(init);
      assert forall k :: 0 <= k < |init| ==> init[k] == xs[k];
      if Product(init) == 0 {
        var k :| 0 <= k < |init| && init[k] == 0;
        assert xs[k] == 0;
      }
    }
  }

  /** Every factor divides the product. */
  lemma {:induction false} ProductFactor(xs: seq<nat>, k: nat)
    requires k < |xs|
    ensures Divides(xs[k], Product(xs))
  {
    var init := xs[..|xs| - 1];
    if k == |xs| - 1 {
      assert Product(xs) == Product(init) * xs[k];
    } else {
      ProductFactor(init, k);
      var m: nat :| Product(init) == m * init[k];
      assert Product(xs) == (m * xs[|xs| - 1]) * xs[k];
    }
  }

  /** `x` is a factor of `p`. */
  ghost predicate Divides(x: nat, p: nat) {
    exists m: nat :: p == m * x
  }

  /** The counts of the races, in order. */
  function Counts(races: seq<Race>): (cs: seq<nat>)
    ensures |cs| == |races| && forall k :: 0 <= k < |races| ==> cs[k] == WaysToWin(races[k])
  {
    seq(|races|, k requires 0 <= k < |races| => WaysToWin(races[k]))
  }

  /** `part_1` on a text: the product of the races' counts. */
  function Part1(text: string): (r: Result<nat>)
    ensures r.Ok? <==> GetRaces(text).Ok?
    ensures r.Ok? ==> forall k :: 0 <= k < |GetRaces(text).value| ==> Divides(WaysToWin(GetRaces(text).value[k]), r.value)
    ensures r.Ok? ==> r.value == Product(Counts(GetRaces(text).value))
  {
    var races :- GetRaces(text);
    ProductFactors(Counts(races));
    Ok(Product(Counts(races)))
  }

  /** Every count is a factor of the product. */
  lemma ProductFactors(xs: seq<nat>)
    ensures forall k :: 0 <= k < |xs| ==> Divides(xs[k], Product(xs))
  {
    forall k | 0 <= k < |xs| ensures Divides(xs[k], Product(xs)) {
      ProductFactor(xs, k);
    }
  }

  /** The answer is zero exactly when some race cannot be won; with no races it is 1. */
  lemma Part1Zero(text: string)
    requires GetRaces(text).Ok?
    ensures Part1(text).Ok?
    ensures GetRaces(text).value == [] ==> Part1(text).value == 1
    ensures Part1(text).value == 0 <==> exists k :: 0 <= k < |GetRaces(text).value| && WaysToWin(GetRaces(text).value[k]) == 0
  {
    var races := GetRaces(text).value;
    ProductZero(Counts(races));
  }
}
