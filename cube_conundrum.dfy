/** The cube-game solver: each game line lists rounds of red, green and blue cube
    counts; a game is possible when every round fits the bag (12 red, 13 green,
    14 blue), and the power of a game is the product of the fewest cubes of each
    colour that make all its rounds possible. All counts are `u16`; arithmetic that
    leaves `u16` panics, as it does in a debug build. */
module CubeConundrum {
  import opened Text

  /** The cubes shown in one round. */
  datatype Round = Round(red: nat, green: nat, blue: nat)

  /** A game: its number and its rounds, in order. */
  datatype Game = Game(index: nat, rounds: seq<Round>)

  /** `Round::new`: no cubes of any colour. */
  const NoCubes: Round := Round(0, 0, 0)

  /** `Round::is_valid`: the round fits a bag of 12 red, 13 green and 14 blue cubes. */
  predicate IsValid(r: Round)
    ensures IsValid(r) <==> Dominates(Bag, r)
  {
    r.red <= 12 && r.green <= 13 && r.blue <= 14
  }

  /** The bag the games are played with. */
  const Bag: Round := Round(12, 13, 14)

  /** `a` has at least as many cubes of every colour as `b`. */
  predicate Dominates(a: Round, b: Round) {
    a.red >= b.red && a.green >= b.green && a.blue >= b.blue
  }

  /** A round below a possible round is possible too. */
  lemma ValidBelow(a: Round, b: Round)
    requires Dominates(a, b) && IsValid(a)
    ensures IsValid(b)
  {
  }

  // ---------------------------------------------------------------------------
  // The fewest cubes

  /** `Round::get_min_required`: the componentwise maximum, which is the least round
      dominating both. */
  function MinRequired(a: Round, b: Round): (r: Round)
    ensures Dominates(r, a) && Dominates(r, b)
    ensures r.red in {a.red, b.red} && r.green in {a.green, b.green} && r.blue in {a.blue, b.blue}
  {
    Round(Max(a.red, b.red), Max(a.green, b.green), Max(a.blue, b.blue))
  }

  function Max(x: nat, y: nat): nat { if x >= y then x else y }

  /** Every round that dominates both arguments dominates their minimum requirement. */
  lemma MinRequiredLeast(a: Round, b: Round, u: Round)
    requires Dominates(u, a) && Dominates(u, b)
    ensures Dominates(u, MinRequired(a, b))
  {
  }

  /** The minimum requirement is commutative, associative and idempotent, and the empty
      round is its unit. */
  lemma MinRequiredLattice(a: Round, b: Round, c: Round)
    ensures MinRequired(a, b) == MinRequired(b, a)
    ensures MinRequired(MinRequired(a, b), c) == MinRequired(a, MinRequired(b, c))
    ensures MinRequired(a, a) == a
    ensures MinRequired(a, NoCubes) == a
  {
  }

  /** Two rounds are both possible exactly when their minimum requirement is. */
  lemma MinRequiredValid(a: Round, b: Round)
    ensures IsValid(MinRequired(a, b)) <==> IsValid(a) && IsValid(b)
  {
  }

  /** The fold of `Game::get_max`: starting from no cubes, each round in turn combined
      with the requirement so far. */
  function MaxOf(rounds: seq<Round>): (r: Round)
    ensures forall k :: 0 <= k < |rounds| ==> Dominates(r, rounds[k])
    ensures r.red == 0 || exists k :: 0 <= k < |rounds| && r.red == rounds[k].red
    ensures r.green == 0 || exists k :: 0 <= k < |rounds| && r.green == rounds[k].green
    ensures r.blue == 0 || exists k :: 0 <= k < |rounds| && r.blue == rounds[k].blue
    decreases |rounds|
  {
    if rounds == [] then NoCubes
    else
      var init := rounds[..|rounds| - 1];
      assert forall k :: 0 <= k < |init| ==> init[k] == rounds[k];
      MinRequired(rounds[|rounds| - 1], MaxOf(init))
  }

  /** `Game::get_max`: the least round that dominates every round of the game. */
  function GetMax(g: Game): (r: Round)
    ensures forall k :: 0 <= k < |g.rounds| ==> Dominates(r, g.rounds[k])
    ensures forall u: Round :: (forall k :: 0 <= k < |g.rounds| ==> Dominates(u, g.rounds[k])) ==> Dominates(u, r)
  {
    assert forall u: Round :: (forall k :: 0 <= k < |g.rounds| ==> Dominates(u, g.rounds[k])) ==> Dominates(u, MaxOf(g.rounds)) by {
      forall u: Round | forall k :: 0 <= k < |g.rounds| ==> Dominates(u, g.rounds[k])
        ensures Dominates(u, MaxOf(g.rounds))
      {
        MaxOfLeast(g.rounds, u);
      }
    }
    MaxOf(g.rounds)
  }

  /** The result of `get_max` is the least round that dominates every round. */
  lemma {:induction false} MaxOfLeast(rounds: seq<Round>, u: Round)
    requires forall k :: 0 <= k < |rounds| ==> Dominates(u, rounds[k])
    ensures Dominates(u, MaxOf(rounds))
    decreases |rounds|
  {
    if rounds != [] {
      var init := rounds[..|rounds| - 1];
      assert forall k :: 0 <= k < |init| ==> init[k] == rounds[k];
      MaxOfLeast(init, u);
      MinRequiredLeast(rounds[|rounds| - 1], MaxOf(init), u);
    }
  }

  /** The fold of `Game::is_valid`: every round checked in turn, starting from true. */
  function AllValid(rounds: seq<Round>): (b: bool)
    ensures b <==> forall k :: 0 <= k < |rounds| ==> IsValid(rounds[k])
    decreases |rounds|
  {
    if rounds == [] then true
    else
      var init := rounds[..|rounds| - 1];
      assert forall k :: 0 <= k < |init| ==> init[k] == rounds[k];
      AllValid(init) && IsValid(rounds[|rounds| - 1])
  }

  /** `Game::is_valid`: a game is possible exactly when each of its rounds is; a game
      with no rounds is possible. */
  function GameIsValid(g: Game): (b: bool)
    ensures b <==> forall k :: 0 <= k < |g.rounds| ==> IsValid(g.rounds[k])
    ensures g.rounds == [] ==> b
  {
    AllValid(g.rounds)
  }

  /** A game is possible exactly when the fewest cubes it needs fit the bag. */
  lemma ValidIffMaxValid(g: Game)
    ensures GameIsValid(g) <==> IsValid(GetMax(g))
  {
    if IsValid(GetMax(g)) {
      forall k | 0 <= k < |g.rounds| ensures IsValid(g.rounds[k]) {
        ValidBelow(GetMax(g), g.rounds[k]);
      }
    }
  }

  /** `Round::power` in `u16`: the product of the counts, computed as `red * green`
      first and then times `blue`, either step panicking when it leaves `u16`. */
  function Power(r: Round): (p: Result<nat>)
    ensures p.Ok? ==> p.value == r.red * r.green * r.blue && p.value < U16_BOUND
    ensures p.Ok? <==> r.red * r.green < U16_BOUND && r.red * r.green * r.blue < U16_BOUND
    ensures p.Panic? ==> p.fault == Overflow
  {
    var rg := r.red * r.green;
    if rg >= U16_BOUND then Panic(Overflow)
    else if rg * r.blue >= U16_BOUND then Panic(Overflow)
    else Ok(rg * r.blue)
  }

  /** The first product already leaves `u16` even when the power itself would be 0. */
  lemma PowerOverflowsEarly(r: Round)
    requires r == Round(256, 256, 0)
    ensures r.red * r.green * r.blue == 0
    ensures Power(r) == Panic(Overflow)
  {
  }

  // ---------------------------------------------------------------------------
  // Parsing a round

  /** One item `N colour` of a round: the item is trimmed and split at single spaces;
      the first word must parse as `u16`, and a second word must exist. */
  function CountOf(item: string): (r: Result<(nat, string)>)
    ensures r.Ok? ==> r.value.0 < U16_BOUND
    ensures r.Panic? ==> r.fault in {ParseFailure, IndexOutOfBounds}
    ensures ParseUnsigned(Split(Trim(item), ' ')[0], U16_BOUND).None? ==> r == Panic(ParseFailure)
    ensures ParseUnsigned(Split(Trim(item), ' ')[0], U16_BOUND).Some? && ' ' !in Trim(item) ==> r == Panic(IndexOutOfBounds)
    ensures r.Ok? <==> ParseUnsigned(Split(Trim(item), ' ')[0], U16_BOUND).Some? && ' ' in Trim(item)
    ensures r.Ok? ==> (|Split(Trim(item), ' ')| >= 2
      && r.value == (ParseUnsigned(Split(Trim(item), ' ')[0], U16_BOUND).value, Split(Trim(item), ' ')[1]))
  {
    SplitHasSep(Trim(item), ' ');
    var words := Split(Trim(item), ' ');
    match ParseUnsigned(words[0], U16_BOUND)
    case None => Panic(ParseFailure)
    case Some(v) => if |words| < 2 then Panic(IndexOutOfBounds) else Ok((v, words[1]))
  }

  /** The parsed items of a round, one outcome per item. */
  function CountsOf(items: seq<string>): (cs: seq<Result<(nat, string)>>)
    ensures |cs| == |items| && forall k :: 0 <= k < |items| ==> cs[k] == CountOf(items[k])
  {
    seq(|items|, k requires 0 <= k < |items| => CountOf(items[k]))
  }

  /** One step of the loop in `Round::from_str`: a known colour name replaces that
      colour's count, any other name leaves the round as it is. */
  function Recolour(r: Round, value: nat, name: string): (q: Round)
    ensures name !in {"red", "green", "blue"} ==> q == r
    ensures name == "red" ==> q.red == value && q.green == r.green && q.blue == r.blue
    ensures name == "green" ==> q.green == value && q.red == r.red && q.blue == r.blue
    ensures name == "blue" ==> q.blue == value && q.red == r.red && q.green == r.green
  {
    if name == "red" then r.(red := value)
    else if name == "green" then r.(green := value)
    else if name == "blue" then r.(blue := value)
    else r
  }

  /** The round the items paint, one `Recolour` per item from no cubes on. */
  function Painted(cs: seq<(nat, string)>): (p: Round)
    ensures p.red == 0 || exists k :: 0 <= k < |cs| && cs[k] == (p.red, "red")
    ensures p.green == 0 || exists k :: 0 <= k < |cs| && cs[k] == (p.green, "green")
    ensures p.blue == 0 || exists k :: 0 <= k < |cs| && cs[k] == (p.blue, "blue")
    decreases |cs|
  {
    if cs == [] then NoCubes
    else
      var init := cs[..|cs| - 1];
      assert forall k :: 0 <= k < |init| ==> init[k] == cs[k];
      Recolour(Painted(init), cs[|cs| - 1].0, cs[|cs| - 1].1)
  }

  /** The round the items of a round give: every item parsed, the first one that
      fails aborting, and the counts painted in order. */
  function RoundOfItems(items: seq<string>): (r: Result<Round>)
    ensures r.Ok? <==> forall k :: 0 <= k < |items| ==> CountOf(items[k]).Ok?
    ensures r.Panic? ==> exists k :: 0 <= k < |items| && CountOf(items[k]) == Panic(r.fault)
    ensures r.Ok? ==> var cs := AllOk(CountsOf(items)).value;
      r.value == Round(LastCount(cs, "red"), LastCount(cs, "green"), LastCount(cs, "blue"))
  {
    var cs :- AllOk(CountsOf(items));
    PaintedIsLastCounts(cs);
    Ok(Painted(cs))
  }

  /** What `Round::from_str` computes: the items of the trimmed round, split at commas.
      It panics only in an item's parse or on an item without a colour word, and every
      count it keeps fits `u16`. */
  function ParseRound(s: string): (r: Result<Round>)
    ensures r.Ok? <==> forall k :: 0 <= k < |Split(Trim(s), ',')| ==> CountOf(Split(Trim(s), ',')[k]).Ok?
    ensures r.Panic? ==> r.fault in {ParseFailure, IndexOutOfBounds}
    ensures r.Ok? ==> r.value.red < U16_BOUND && r.value.green < U16_BOUND && r.value.blue < U16_BOUND
  {
    var items := Split(Trim(s), ',');
    var r := RoundOfItems(items);
    if r.Ok? then
      var cs := AllOk(CountsOf(items)).value;
      CountsBelow(items);
      LastCountBelow(cs, "red", U16_BOUND);
      LastCountBelow(cs, "green", U16_BOUND);
      LastCountBelow(cs, "blue", U16_BOUND);
      r
    else r
  }

  /** Every count an item reads fits `u16`. */
  lemma CountsBelow(items: seq<string>)
    requires AllOk(CountsOf(items)).Ok?
    ensures var cs := AllOk(CountsOf(items)).value;
      forall k :: 0 <= k < |cs| ==> cs[k].0 < U16_BOUND
  {
    var cs := AllOk(CountsOf(items)).value;
    forall k | 0 <= k < |cs| ensures cs[k].0 < U16_BOUND {
      assert CountsOf(items)[k] == Ok(cs[k]);
    }
  }

  /** A count below a bound in every item stays below it in the round. */
  lemma {:induction false} LastCountBelow(cs: seq<(nat, string)>, name: string, bound: nat)
    requires 0 < bound && forall k :: 0 <= k < |cs| ==> cs[k].0 < bound
    ensures LastCount(cs, name) < bound
    decreases |cs|
  {
    if cs != [] && cs[|cs| - 1].1 != name {
      LastCountBelow(cs[..|cs| - 1], name, bound);
    }
  }

  /** `Round::from_str`. */
  method RoundFromStr(s: string) returns (r: Result<Round>)
    ensures r == ParseRound(s)
  {
    r := PaintItems(Split(Trim(s), ','));
  }

  /** The loop of `Round::from_str`: each item parsed when it is reached, and the round
      so far recoloured by it. */
  method PaintItems(items: seq<string>) returns (r: Result<Round>)
    ensures r == RoundOfItems(items)
  {
    var cs := CountsOf(items);
    var round := NoCubes;
    for i := 0 to |items|
      invariant AllOk(cs[..i]).Ok? && round == Painted(AllOk(cs[..i]).value)
    {
      var c := CountOf(items[i]);
      assert cs[i] == c;
      if c.Panic? {
        AllOkStop(cs, i);
        return Panic(c.fault);
      }
      AllOkStep(cs, i);
      round := Recolour(round, c.value.0, c.value.1);
    }
    assert cs[..|cs|] == cs;
    return Ok(round);
  }

  /** The count the last item named `name` gives, or 0 when no item names it. */
  function LastCount(cs: seq<(nat, string)>, name: string): nat
    decreases |cs|
  {
    if cs == [] then 0
    else if cs[|cs| - 1].1 == name then cs[|cs| - 1].0
    else LastCount(cs[..|cs| - 1], name)
  }

  /** A colour no item names keeps the count 0. */
  lemma {:induction false} LastCountAbsent(cs: seq<(nat, string)>, name: string)
    requires forall k :: 0 <= k < |cs| ==> cs[k].1 != name
    ensures LastCount(cs, name) == 0
    decreases |cs|
  {
    if cs != [] {
      LastCountAbsent(cs[..|cs| - 1], name);
    }
  }

  /** The last item naming a colour decides its count. */
  lemma {:induction false} LastCountAt(cs: seq<(nat, string)>, name: string, j: nat)
    requires j < |cs| && cs[j].1 == name
    requires forall k :: j < k < |cs| ==> cs[k].1 != name
    ensures LastCount(cs, name) == cs[j].0
    decreases |cs|
  {
    if j < |cs| - 1 {
      LastCountAt(cs[..|cs| - 1], name, j);
    }
  }

  /** The painted round holds, for each colour, the count of the last item naming it;
      the items with other names play no part. */
  lemma {:induction false} PaintedIsLastCounts(cs: seq<(nat, string)>)
    ensures Painted(cs) == Round(LastCount(cs, "red"), LastCount(cs, "green"), LastCount(cs, "blue"))
    decreases |cs|
  {
    if cs != [] {
      PaintedIsLastCounts(cs[..|cs| - 1]);
    }
  }

  // ---------------------------------------------------------------------------
  // Parsing a game

  /** `Round::from_str(..).unwrap()` on each `;`-separated piece. */
  function RoundsOf(pieces: seq<string>): (rs: seq<Result<Round>>)
    ensures |rs| == |pieces| && forall k :: 0 <= k < |pieces| ==> rs[k] == ParseRound(pieces[k])
  {
    seq(|pieces|, k requires 0 <= k < |pieces| => ParseRound(pieces[k]))
  }

  /** The words of a game line before its first `:`, split at single spaces. */
  function HeadWords(line: string): (ws: seq<string>)
    ensures |ws| >= 1 && forall k :: 0 <= k < |ws| ==> ' ' !in ws[k]
    ensures Join(ws, " ") == Split(line, ':')[0]
  {
    JoinSplitOn(Split(line, ':')[0], " ");
    Split(Split(line, ':')[0], ' ')
  }

  /** `Game::from_str`: the index is the second space-separated word before the first
      `:` and must parse as `u16`; the rounds are the `;`-separated pieces between the
      first and the second `:`. */
  function ParseGame(line: string): (r: Result<Game>)
    ensures r.Ok? ==> r.value.index < U16_BOUND
    ensures r.Ok? ==> |Split(line, ':')| >= 2 && |r.value.rounds| == |Split(Split(line, ':')[1], ';')|
    ensures r.Ok? ==> (|HeadWords(line)| >= 2 && ParseUnsigned(HeadWords(line)[1], U16_BOUND) == Some(r.value.index))
    ensures r.Ok? ==> forall k :: 0 <= k < |r.value.rounds| ==>
      ParseRound(Split(Split(line, ':')[1], ';')[k]) == Ok(r.value.rounds[k])
    ensures ' ' !in Split(line, ':')[0] ==> r == Panic(IndexOutOfBounds)
    ensures (|HeadWords(line)| >= 2 && ParseUnsigned(HeadWords(line)[1], U16_BOUND).None?) ==> r == Panic(ParseFailure)
    ensures (|HeadWords(line)| >= 2 && ParseUnsigned(HeadWords(line)[1], U16_BOUND).Some? && ':' !in line)
      ==> r == Panic(IndexOutOfBounds)
  {
    SplitHasSep(line, ':');
    SplitHasSep(Split(line, ':')[0], ' ');
    var index :- GameIndex(line);
    var body :- At(Split(line, ':'), 1);
    var rounds :- AllOk(RoundsOf(Split(body, ';')));
    Ok(Game(index, rounds))
  }

  /** The index of a game line: its second head word, parsed as `u16`. */
  function GameIndex(line: string): (r: Result<nat>)
    ensures r.Ok? <==> |HeadWords(line)| >= 2 && ParseUnsigned(HeadWords(line)[1], U16_BOUND).Some?
    ensures r.Ok? ==> ParseUnsigned(HeadWords(line)[1], U16_BOUND) == Some(r.value) && r.value < U16_BOUND
    ensures r.Panic? ==> r.fault == (if |HeadWords(line)| < 2 then IndexOutOfBounds else ParseFailure)
  {
    var indexWord :- At(HeadWords(line), 1);
    match ParseUnsigned(indexWord, U16_BOUND)
    case None => Panic(ParseFailure)
    case Some(v) => Ok(v)
  }

  /** An empty line has no second word to read the index from. */
  lemma EmptyLinePanics(line: string)
    requires line == ""
    ensures ParseGame(line) == Panic(IndexOutOfBounds)
  {
    assert Split(line, ':') == [""];
    assert Split("", ' ') == [""];
  }

  // ---------------------------------------------------------------------------
  // Printing a game and reading it back

  /** An item as the puzzle input writes it: `N colour`. */
  function ItemText(n: nat, name: string): string { DecimalString(n) + " " + name }

  /** Three items separated by commas. */
  function Items3(a: string, b: string, c: string): string { a + "," + b + "," + c }

  /** A round as the puzzle input writes it after a `:` or a `;`: ` R red, G green, B blue`. */
  function RoundText(r: Round): string {
    " " + Items3(ItemText(r.red, "red"), " " + ItemText(r.green, "green"), " " + ItemText(r.blue, "blue"))
  }

  function RoundTexts(rounds: seq<Round>): (ts: seq<string>)
    ensures |ts| == |rounds| && forall k :: 0 <= k < |rounds| ==> ts[k] == RoundText(rounds[k])
  {
    seq(|rounds|, k requires 0 <= k < |rounds| => RoundText(rounds[k]))
  }

  /** A game line as the puzzle input writes it: `Game N: round; round; ...`. */
  function GameText(g: Game): string {
    "Game " + DecimalString(g.index) + ":" + Join(RoundTexts(g.rounds), ";")
  }

  /** Every count of the round fits `u16`. */
  predicate Fits(r: Round) { r.red < U16_BOUND && r.green < U16_BOUND && r.blue < U16_BOUND }

  /** A colour name: non-empty, without whitespace. */
  predicate IsName(w: string) { w != [] && forall k :: 0 <= k < |w| ==> !IsWhitespace(w[k]) }

  lemma NotInDigits(d: string, c: char)
    requires AllDigits(d) && !IsDigit(c)
    ensures c !in d
  {
    assert forall k :: 0 <= k < |d| ==> d[k] != c;
  }

  /** An item, padded with whitespace, is read back as its count and its name. */
  lemma ItemRoundTrip(pre: string, n: nat, name: string, post: string)
    requires forall k :: 0 <= k < |pre| ==> IsWhitespace(pre[k])
    requires forall k :: 0 <= k < |post| ==> IsWhitespace(post[k])
    requires n < U16_BOUND && IsName(name)
    ensures CountOf(pre + ItemText(n, name) + post) == Ok((n, name))
  {
    var d := DecimalString(n);
    var x := ItemText(n, name);
    assert x == d + [' '] + name;
    assert x[0] == d[0] && IsDigit(d[0]);
    assert x[|x| - 1] == name[|name| - 1];
    TrimPadded(pre, x, post);
    NotInDigits(d, ' ');
    assert ' ' !in name by {
      forall k | 0 <= k < |name| ensures name[k] != ' ' { }
    }
    SplitPair(d, ' ', name);
    ParseDecimalString(n, U16_BOUND);
  }

  /** The characters a round's text is made of. */
  lemma RoundTextChars(r: Round, c: char)
    requires !IsDigit(c) && c != ' ' && c != ','
    requires c !in "red" && c !in "green" && c !in "blue"
    ensures c !in RoundText(r)
  {
    NotInDigits(DecimalString(r.red), c);
    NotInDigits(DecimalString(r.green), c);
    NotInDigits(DecimalString(r.blue), c);
  }

  lemma NoCommaInItem(n: nat, name: string)
    requires ',' !in name
    ensures ',' !in ItemText(n, name)
  {
    NotInDigits(DecimalString(n), ',');
  }

  /** Three comma-free items behind a space: trimming drops the space, and the comma
      split gives the items back. */
  lemma ThreeItems(a: string, b: string, c: string)
    requires ',' !in a && ',' !in b && ',' !in c
    requires a != [] && !IsWhitespace(a[0]) && c != [] && !IsWhitespace(c[|c| - 1])
    ensures Trim(" " + Items3(a, b, c)) == Items3(a, b, c)
    ensures Split(Items3(a, b, c), ',') == [a, b, c]
  {
    var x := Items3(a, b, c);
    assert x[0] == a[0] && x[|x| - 1] == c[|c| - 1];
    assert " " + x == " " + x + "";
    TrimPadded(" ", x, "");
    assert x == a + [','] + (b + [','] + c);
    SplitAtFirstSep(a, ',', b + [','] + c);
    SplitPair(b, ',', c);
  }

  /** An item starts with a digit and ends with its name's last character. */
  lemma ItemEnds(n: nat, name: string)
    requires name != []
    ensures var t := ItemText(n, name); t != [] && IsDigit(t[0]) && t[|t| - 1] == name[|name| - 1]
  {
  }

  /** The trimmed round text and its comma-separated items. */
  lemma RoundItems(r: Round)
    ensures var a, b, c := ItemText(r.red, "red"), " " + ItemText(r.green, "green"), " " + ItemText(r.blue, "blue");
      && Trim(RoundText(r)) == Items3(a, b, c)
      && Split(Items3(a, b, c), ',') == [a, b, c]
  {
    var a, b, c := ItemText(r.red, "red"), " " + ItemText(r.green, "green"), " " + ItemText(r.blue, "blue");
    ItemEnds(r.red, "red");
    ItemEnds(r.blue, "blue");
    assert c[|c| - 1] == 'e';
    NoCommaInItem(r.red, "red");
    NoCommaInItem(r.green, "green");
    NoCommaInItem(r.blue, "blue");
    ThreeItems(a, b, c);
  }

  /** The three items of a printed round, parsed. */
  lemma RoundCounts(r: Round)
    requires Fits(r)
    ensures var a, b, c := ItemText(r.red, "red"), " " + ItemText(r.green, "green"), " " + ItemText(r.blue, "blue");
      AllOk(CountsOf([a, b, c])) == Ok([(r.red, "red"), (r.green, "green"), (r.blue, "blue")])
  {
    var a, b, c := ItemText(r.red, "red"), " " + ItemText(r.green, "green"), " " + ItemText(r.blue, "blue");
    ColourNames();
    ItemBare(r.red, "red");
    ItemPadded(" ", r.green, "green");
    ItemPadded(" ", r.blue, "blue");
    CountsThree(a, b, c, (r.red, "red"), (r.green, "green"), (r.blue, "blue"));
  }

  /** Three items that each parse give their three counts. */
  lemma CountsThree(a: string, b: string, c: string, x: (nat, string), y: (nat, string), z: (nat, string))
    requires CountOf(a) == Ok(x) && CountOf(b) == Ok(y) && CountOf(c) == Ok(z)
    ensures AllOk(CountsOf([a, b, c])) == Ok([x, y, z])
  {
    var cs := CountsOf([a, b, c]);
    assert cs[0] == CountOf(a) && cs[1] == CountOf(b) && cs[2] == CountOf(c);
    AllOkThree(cs, x, y, z);
  }

  /** Three outcomes that are all values collect to those values. */
  lemma AllOkThree<T>(rs: seq<Result<T>>, x: T, y: T, z: T)
    requires |rs| == 3 && rs[0] == Ok(x) && rs[1] == Ok(y) && rs[2] == Ok(z)
    ensures AllOk(rs) == Ok([x, y, z])
  {
    AllOkEach(rs, [x, y, z]);
  }

  /** The three colours are names. */
  lemma ColourNames()
    ensures IsName("red") && IsName("green") && IsName("blue")
  {
  }

  /** An item behind optional leading whitespace is read back. */
  lemma ItemPadded(pre: string, n: nat, name: string)
    requires forall k :: 0 <= k < |pre| ==> IsWhitespace(pre[k])
    requires n < U16_BOUND && IsName(name)
    ensures CountOf(pre + ItemText(n, name)) == Ok((n, name))
  {
    ItemRoundTrip(pre, n, name, "");
    assert pre + ItemText(n, name) + "" == pre + ItemText(n, name);
  }

  /** An item with no leading whitespace is read back. */
  lemma ItemBare(n: nat, name: string)
    requires n < U16_BOUND && IsName(name)
    ensures CountOf(ItemText(n, name)) == Ok((n, name))
  {
    ItemPadded("", n, name);
    assert "" + ItemText(n, name) == ItemText(n, name);
  }

  /** Painting red, green and blue in turn gives the round of those counts. */
  lemma PaintThree(r: Round)
    ensures Painted([(r.red, "red"), (r.green, "green"), (r.blue, "blue")]) == r
  {
    var cs := [(r.red, "red"), (r.green, "green"), (r.blue, "blue")];
    var r1 := Recolour(NoCubes, r.red, "red");
    var r2 := Recolour(r1, r.green, "green");
    assert r1 == Round(r.red, 0, 0);
    assert r2 == Round(r.red, r.green, 0);
    assert Recolour(r2, r.blue, "blue") == r;
    assert cs[..2] == [(r.red, "red"), (r.green, "green")];
    assert cs[..2][..1] == [(r.red, "red")];
    assert [(r.red, "red")][..0] == [];
    assert Painted([(r.red, "red")]) == r1;
    assert Painted(cs[..2]) == r2;
  }

  /** A printed round is read back unchanged by `Round::from_str`. */
  lemma RoundRoundTrip(r: Round)
    requires Fits(r)
    ensures ParseRound(RoundText(r)) == Ok(r)
  {
    RoundItems(r);
    RoundCounts(r);
    PaintThree(r);
  }

  /** A printed game is read back unchanged by `Game::from_str`, when its numbers fit
      `u16` and it has a round. */
  lemma GameRoundTrip(g: Game)
    requires g.index < U16_BOUND && |g.rounds| >= 1
    requires forall k :: 0 <= k < |g.rounds| ==> Fits(g.rounds[k])
    ensures ParseGame(GameText(g)) == Ok(g)
  {
    GameTextParts(g);
    GameHead(g.index);
    GameBody(g.rounds);
    ParseGameParts(GameText(g), "Game " + DecimalString(g.index), Join(RoundTexts(g.rounds), ";"), g.index, g.rounds);
  }

  /** A line whose head and body are read gives the game of their values. */
  lemma ParseGameParts(line: string, head: string, body: string, index: nat, rounds: seq<Round>)
    requires Split(line, ':') == [head, body]
    requires |Split(head, ' ')| >= 2 && ParseUnsigned(Split(head, ' ')[1], U16_BOUND) == Some(index)
    requires AllOk(RoundsOf(Split(body, ';'))) == Ok(rounds)
    ensures ParseGame(line) == Ok(Game(index, rounds))
  {
    var words := Split(head, ' ');
    var r := ParseGame(line);
    GameIndexOk(line, head);
    ParseGameOk(line);
    assert HeadWords(line) == words;
    assert Split(line, ':')[1] == body;
    SameRounds(Split(body, ';'), r.value.rounds, rounds);
  }

  /** Rounds read piece by piece are the rounds the pieces collect to. */
  lemma SameRounds(pieces: seq<string>, xs: seq<Round>, ys: seq<Round>)
    requires |xs| == |pieces| && forall k :: 0 <= k < |pieces| ==> ParseRound(pieces[k]) == Ok(xs[k])
    requires AllOk(RoundsOf(pieces)) == Ok(ys)
    ensures xs == ys
  {
    forall k | 0 <= k < |pieces| ensures xs[k] == ys[k] {
      assert RoundsOf(pieces)[k] == Ok(ys[k]);
    }
  }

  /** A line whose head and body both read is a game. */
  lemma ParseGameOk(line: string)
    requires GameIndex(line).Ok? && |Split(line, ':')| >= 2
    requires AllOk(RoundsOf(Split(Split(line, ':')[1], ';'))).Ok?
    ensures ParseGame(line).Ok?
  {
  }

  /** A head whose second word is a `u16` gives the index. */
  lemma GameIndexOk(line: string, head: string)
    requires Split(line, ':')[0] == head
    requires |Split(head, ' ')| >= 2 && ParseUnsigned(Split(head, ' ')[1], U16_BOUND).Some?
    ensures GameIndex(line) == Ok(ParseUnsigned(Split(head, ' ')[1], U16_BOUND).value)
  {
    assert HeadWords(line) == Split(head, ' ');
  }

  /** The printed head `Game N` gives back the index. */
  lemma GameHead(index: nat)
    requires index < U16_BOUND
    ensures var d := DecimalString(index);
      Split("Game " + d, ' ') == ["Game", d] && ParseUnsigned(d, U16_BOUND) == Some(index)
  {
    var d := DecimalString(index);
    NotInDigits(d, ' ');
    assert "Game " + d == "Game" + [' '] + d;
    SplitPair("Game", ' ', d);
    ParseDecimalString(index, U16_BOUND);
  }

  /** The printed rounds, joined by `;`, are read back. */
  lemma GameBody(rounds: seq<Round>)
    requires |rounds| >= 1
    requires forall k :: 0 <= k < |rounds| ==> Fits(rounds[k])
    ensures AllOk(RoundsOf(Split(Join(RoundTexts(rounds), ";"), ';'))) == Ok(rounds)
  {
    var ts := RoundTexts(rounds);
    forall k | 0 <= k < |ts| ensures ';' !in ts[k] {
      RoundTextChars(rounds[k], ';');
    }
    assert Join(ts, ";") == Join(ts, [';']);
    SplitJoin(ts, ';');
    forall k | 0 <= k < |ts| ensures RoundsOf(ts)[k] == Ok(rounds[k]) {
      RoundRoundTrip(rounds[k]);
    }
    AllOkEach(RoundsOf(ts), rounds);
  }

  lemma GameTextParts(g: Game)
    ensures Split(GameText(g), ':') == ["Game " + DecimalString(g.index), Join(RoundTexts(g.rounds), ";")]
  {
    var ts := RoundTexts(g.rounds);
    var body := Join(ts, ";");
    var d := DecimalString(g.index);
    var head := "Game " + d;
    BodyHasNoColon(g.rounds);
    NotInDigits(d, ':');
    assert ':' !in head;
    assert GameText(g) == head + [':'] + body;
    SplitPair(head, ':', body);
  }

  /** The printed rounds hold no `:`. */
  lemma BodyHasNoColon(rounds: seq<Round>)
    ensures ':' !in Join(RoundTexts(rounds), ";")
  {
    var ts := RoundTexts(rounds);
    forall k | 0 <= k < |ts| ensures ':' !in ts[k] {
      NoColonInRound(rounds[k]);
    }
    if ':' in Join(ts, ";") {
      JoinChars(ts, ";", ':');
    }
  }

  lemma NoColonInRound(r: Round)
    ensures ':' !in RoundText(r)
  {
    RoundTextChars(r, ':');
  }

  // ---------------------------------------------------------------------------
  // The two answers

  predicate IsLineBreak(c: char) { c == '\r' || c == '\n' }

  /** The lines `part_1` and `part_2` read: the trimmed text split at every `'\r'` and
      every `'\n'`. */
  function GameLines(text: string): (ls: seq<string>)
    ensures |ls| >= 1
    ensures forall k, c :: 0 <= k < |ls| && c in ls[k] ==> !IsLineBreak(c)
    ensures Concat(ls) == Filter(Trim(text), IsNotLineBreak)
  {
    ConcatSplitWhere(Trim(text), IsLineBreak, IsNotLineBreak);
    SplitWhere(Trim(text), IsLineBreak)
  }

  predicate IsNotLineBreak(c: char) { !IsLineBreak(c) }

  /** A `"\r\n"` line ending leaves an empty line between the two lines. */
  lemma CrlfMakesEmptyLine(a: string, b: string)
    requires forall k :: 0 <= k < |a| ==> !IsLineBreak(a[k])
    ensures SplitWhere(a + "\r\n" + b, IsLineBreak) == [a, ""] + SplitWhere(b, IsLineBreak)
  {
    assert a + "\r\n" + b == a + ['\r'] + (['\n'] + b);
    SplitWhereAtSep(a, '\r', ['\n'] + b, IsLineBreak);
    SplitWhereAtSep([], '\n', b, IsLineBreak);
    assert [] + ['\n'] + b == ['\n'] + b;
  }

  /** `u16` addition. */
  function AddU16(a: nat, b: nat): (r: Result<nat>)
    ensures r.Ok? <==> a + b < U16_BOUND
    ensures r.Ok? ==> r.value == a + b
    ensures r.Panic? ==> r.fault == Overflow
  {
    if a + b < U16_BOUND then Ok(a + b) else Panic(Overflow)
  }

  /** Every line parsed as a game. */
  function GamesOf(lines: seq<string>): (gs: seq<Result<Game>>)
    ensures |gs| == |lines| && forall k :: 0 <= k < |lines| ==> gs[k] == ParseGame(lines[k])
  {
    seq(|lines|, k requires 0 <= k < |lines| => ParseGame(lines[k]))
  }

  /** The sum of the indices of the possible games, in unbounded arithmetic. */
  function ValidIndexSum(games: seq<Game>): nat {
    if games == [] then 0
    else (if GameIsValid(games[0]) then games[0].index else 0) + ValidIndexSum(games[1..])
  }

  /** The sum of the powers of the games, in unbounded arithmetic. */
  function PowerSum(games: seq<Game>): nat {
    if games == [] then 0
    else
      var m := GetMax(games[0]);
      var rg: nat := m.red * m.green;
      rg * m.blue + PowerSum(games[1..])
  }

  /** The lazy pipeline of `part_1` over the parsed lines, from running total `acc`:
      a line that is not a game aborts, and a possible game's index is added before
      the next line is looked at. */
  function SumValidFrom(gs: seq<Result<Game>>, acc: nat): (r: Result<nat>)
    ensures r.Ok? ==> acc <= r.value && (acc < U16_BOUND ==> r.value < U16_BOUND)
  {
    if gs == [] then Ok(acc)
    else
      var g :- gs[0];
      var next :- if GameIsValid(g) then AddU16(acc, g.index) else Ok(acc);
      SumValidFrom(gs[1..], next)
  }

  /** `part_1`: the sum of the indices of the possible games. It is an answer exactly
      when every line is a game and that sum fits `u16`. */
  function Part1(text: string): (r: Result<nat>)
    ensures r.Ok? <==> (AllOk(GamesOf(GameLines(text))).Ok?
      && ValidIndexSum(AllOk(GamesOf(GameLines(text))).value) < U16_BOUND)
    ensures r.Ok? ==> r.value == ValidIndexSum(AllOk(GamesOf(GameLines(text))).value)
  {
    var gs := GamesOf(GameLines(text));
    SumValidBoth(gs);
    SumValidFrom(gs, 0)
  }

  /** Both directions of `part_1`'s contract, from SumValidIsSum and SumValidFits. */
  lemma SumValidBoth(gs: seq<Result<Game>>)
    ensures SumValidFrom(gs, 0).Ok? <==> AllOk(gs).Ok? && ValidIndexSum(AllOk(gs).value) < U16_BOUND
    ensures SumValidFrom(gs, 0).Ok? ==> SumValidFrom(gs, 0).value == ValidIndexSum(AllOk(gs).value)
  {
    if SumValidFrom(gs, 0).Ok? {
      SumValidIsSum(gs, 0);
    }
    if AllOk(gs).Ok? && ValidIndexSum(AllOk(gs).value) < U16_BOUND {
      SumValidFits(gs, 0);
    }
  }

  lemma AllOkFront(gs: seq<Result<Game>>)
    requires gs != [] && AllOk(gs).Ok?
    ensures AllOk(gs[1..]).Ok? && AllOk(gs).value == [gs[0].value] + AllOk(gs[1..]).value
  {
    var vs := AllOk(gs).value;
    assert AllOk(gs[1..]).Ok? by {
      forall k | 0 <= k < |gs[1..]| ensures gs[1..][k].Ok? {
        assert gs[1..][k] == gs[k + 1];
      }
    }
    var ws := AllOk(gs[1..]).value;
    assert forall k :: 0 <= k < |ws| ==> gs[1..][k] == Ok(ws[k]) && gs[k + 1] == gs[1..][k];
    assert vs == [gs[0].value] + ws;
  }

  /** When `part_1` succeeds, every line is a game and the answer is the sum of the
      indices of the possible ones. */
  lemma {:induction false} SumValidIsSum(gs: seq<Result<Game>>, acc: nat)
    requires SumValidFrom(gs, acc).Ok?
    ensures AllOk(gs).Ok?
    ensures SumValidFrom(gs, acc).value == acc + ValidIndexSum(AllOk(gs).value)
    ensures acc < U16_BOUND ==> SumValidFrom(gs, acc).value < U16_BOUND
    decreases |gs|
  {
    if gs != [] {
      var g := gs[0].value;
      var next := if GameIsValid(g) then acc + g.index else acc;
      SumValidIsSum(gs[1..], next);
      assert AllOk(gs).Ok? by {
        forall k | 0 <= k < |gs| ensures gs[k].Ok? {
          if k > 0 { assert gs[k] == gs[1..][k - 1]; }
        }
      }
      AllOkFront(gs);
    }
  }

  /** Conversely, when every line is a game and the sum fits `u16`, `part_1` gives it. */
  lemma {:induction false} SumValidFits(gs: seq<Result<Game>>, acc: nat)
    requires AllOk(gs).Ok?
    requires acc + ValidIndexSum(AllOk(gs).value) < U16_BOUND
    ensures SumValidFrom(gs, acc) == Ok(acc + ValidIndexSum(AllOk(gs).value))
    decreases |gs|
  {
    if gs != [] {
      AllOkFront(gs);
      var g := gs[0].value;
      var next := if GameIsValid(g) then acc + g.index else acc;
      assert ([g] + AllOk(gs[1..]).value)[1..] == AllOk(gs[1..]).value;
      SumValidFits(gs[1..], next);
    }
  }

  /** The lazy pipeline of `part_2` over the parsed lines, from running total `acc`:
      the power of each game's fewest cubes is computed and added before the next line
      is looked at. */
  function SumPowersFrom(gs: seq<Result<Game>>, acc: nat): (r: Result<nat>)
    ensures r.Ok? ==> acc <= r.value && (acc < U16_BOUND ==> r.value < U16_BOUND)
  {
    if gs == [] then Ok(acc)
    else
      var g :- gs[0];
      var p :- Power(GetMax(g));
      var next :- AddU16(acc, p);
      SumPowersFrom(gs[1..], next)
  }

  /** `part_2`: the sum of the powers of the games. It is an answer exactly when every
      line is a game, every power fits `u16` and so does their sum. */
  function Part2(text: string): (r: Result<nat>)
    ensures var gs := GamesOf(GameLines(text));
      r.Ok? <==> && AllOk(gs).Ok?
                 && (forall k :: 0 <= k < |AllOk(gs).value| ==> Power(GetMax(AllOk(gs).value[k])).Ok?)
                 && PowerSum(AllOk(gs).value) < U16_BOUND
    ensures r.Ok? ==> r.value == PowerSum(AllOk(GamesOf(GameLines(text))).value)
  {
    var gs := GamesOf(GameLines(text));
    SumPowersBoth(gs);
    SumPowersFrom(gs, 0)
  }

  /** Both directions of `part_2`'s contract, from SumPowersIsSum and SumPowersFits. */
  lemma SumPowersBoth(gs: seq<Result<Game>>)
    ensures SumPowersFrom(gs, 0).Ok? <==>
      && AllOk(gs).Ok?
      && (forall k :: 0 <= k < |AllOk(gs).value| ==> Power(GetMax(AllOk(gs).value[k])).Ok?)
      && PowerSum(AllOk(gs).value) < U16_BOUND
    ensures SumPowersFrom(gs, 0).Ok? ==> SumPowersFrom(gs, 0).value == PowerSum(AllOk(gs).value)
  {
    if SumPowersFrom(gs, 0).Ok? {
      SumPowersIsSum(gs, 0);
      SumPowersChecks(gs, 0);
    }
    if && AllOk(gs).Ok?
       && (forall k :: 0 <= k < |AllOk(gs).value| ==> Power(GetMax(AllOk(gs).value[k])).Ok?)
       && PowerSum(AllOk(gs).value) < U16_BOUND
    {
      SumPowersFits(gs, 0);
    }
  }

  /** When `part_2` succeeds, every line is a game and the answer is the sum of the
      products of their fewest cubes. */
  lemma {:induction false} SumPowersIsSum(gs: seq<Result<Game>>, acc: nat)
    requires SumPowersFrom(gs, acc).Ok?
    ensures AllOk(gs).Ok?
    ensures SumPowersFrom(gs, acc).value == acc + PowerSum(AllOk(gs).value)
    decreases |gs|
  {
    if gs != [] {
      var g := gs[0].value;
      var p := Power(GetMax(g)).value;
      SumPowersIsSum(gs[1..], acc + p);
      assert AllOk(gs).Ok? by {
        forall k | 0 <= k < |gs| ensures gs[k].Ok? {
          if k > 0 { assert gs[k] == gs[1..][k - 1]; }
        }
      }
      AllOkFront(gs);
      assert ([g] + AllOk(gs[1..]).value)[1..] == AllOk(gs[1..]).value;
    }
  }

  /** When `part_2` succeeds, every game's power fits `u16`, and so does the answer. */
  lemma {:induction false} SumPowersChecks(gs: seq<Result<Game>>, acc: nat)
    requires SumPowersFrom(gs, acc).Ok?
    ensures forall k :: 0 <= k < |gs| ==> gs[k].Ok? && Power(GetMax(gs[k].value)).Ok?
    ensures acc < U16_BOUND ==> SumPowersFrom(gs, acc).value < U16_BOUND
    decreases |gs|
  {
    if gs != [] {
      var p := Power(GetMax(gs[0].value)).value;
      SumPowersChecks(gs[1..], acc + p);
      forall k | 0 < k < |gs| ensures gs[k] == gs[1..][k - 1] { }
    }
  }

  /** The power sum from its first game. */
  lemma PowerSumFront(vs: seq<Game>)
    requires vs != [] && Power(GetMax(vs[0])).Ok?
    ensures PowerSum(vs) == Power(GetMax(vs[0])).value + PowerSum(vs[1..])
  {
  }

  /** Conversely, when every line is a game, every power fits `u16` and so does the
      sum, `part_2` gives that sum. */
  lemma SumPowersFits(gs: seq<Result<Game>>, acc: nat)
    requires AllOk(gs).Ok?
    requires forall k :: 0 <= k < |gs| ==> Power(GetMax(AllOk(gs).value[k])).Ok?
    requires acc + PowerSum(AllOk(gs).value) < U16_BOUND
    ensures SumPowersFrom(gs, acc) == Ok(acc + PowerSum(AllOk(gs).value))
  {
    SumPowersOfGames(gs, AllOk(gs).value, acc);
  }

  /** The same, over the games the lines parse to, element by element. */
  lemma {:induction false} SumPowersOfGames(gs: seq<Result<Game>>, vs: seq<Game>, acc: nat)
    requires |gs| == |vs| && forall k :: 0 <= k < |gs| ==> gs[k] == Ok(vs[k])
    requires forall k :: 0 <= k < |vs| ==> Power(GetMax(vs[k])).Ok?
    requires acc + PowerSum(vs) < U16_BOUND
    ensures SumPowersFrom(gs, acc) == Ok(acc + PowerSum(vs))
    decreases |gs|
  {
    if gs != [] {
      var p := Power(GetMax(vs[0])).value;
      PowerSumFront(vs);
      forall k | 0 <= k < |gs[1..]| ensures gs[1..][k] == Ok(vs[1..][k]) && Power(GetMax(vs[1..][k])).Ok? {
        assert gs[1..][k] == gs[k + 1] && vs[1..][k] == vs[k + 1];
      }
      SumPowersOfGames(gs[1..], vs[1..], acc + p);
      SumPowersStep(gs, acc);
    }
  }

  /** A first game whose power fits, added to a total that still fits: the sum goes on
      from the next line. */
  lemma SumPowersStep(gs: seq<Result<Game>>, acc: nat)
    requires gs != [] && gs[0].Ok? && Power(GetMax(gs[0].value)).Ok?
    requires acc + Power(GetMax(gs[0].value)).value < U16_BOUND
    ensures SumPowersFrom(gs, acc) == SumPowersFrom(gs[1..], acc + Power(GetMax(gs[0].value)).value)
  {
  }
}
