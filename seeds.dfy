/** The almanac solver: the seeds on the first line are pushed through a chain of
    range maps, each of which shifts the numbers inside one of its ranges by that
    range's offset, and the answer is the lowest location reached. */
module Seeds {
  import opened Text

  /** `RangeInclusive<isize>`: the numbers from `start` to `end`, both included. */
  datatype Range = Range(start: int, end: int)

  predicate Contains(r: Range, x: int) { r.start <= x <= r.end }

  /** One almanac map: every range key with the offset added to the numbers inside it. */
  type RangeMap = map<Range, int>

  /** The parsed almanac: the seeds and the maps, in the order they are applied. */
  datatype Almanac = Almanac(seeds: seq<int>, maps: seq<RangeMap>)

  // ---------------------------------------------------------------------------
  // get

  /** The results `get` may give for `seed`: the seed itself when no range contains it,
      otherwise the seed shifted by the offset of a containing range. Which containing
      range is used when several overlap depends on the hash map's iteration order, so
      this is a relation rather than a function. */
  predicate Yields(m: RangeMap, seed: int, out: int) {
    || ((forall r :: r in m ==> !Contains(r, seed)) && out == seed)
    || (exists r :: r in m && Contains(r, seed) && out == seed + m[r])
  }

  /** `get`: the first key that contains the seed, in the map's iteration order. */
  method Get(m: RangeMap, seed: int) returns (out: int)
    ensures Yields(m, seed, out)
  {
    if r :| r in m && Contains(r, seed) {
      out := seed + m[r];
    } else {
      out := seed;
    }
  }

  /** No number lies in two ranges with different offsets; in particular, ranges that
      do not overlap. */
  ghost predicate Consistent(m: RangeMap) {
    forall r1, r2, x :: r1 in m && r2 in m && Contains(r1, x) && Contains(r2, x) ==> m[r1] == m[r2]
  }

  /** On a consistent map `get` has a single possible result. */
  lemma YieldsDeterministic(m: RangeMap, seed: int, a: int, b: int)
    requires Consistent(m) && Yields(m, seed, a) && Yields(m, seed, b)
    ensures a == b
  {
  }

  /** A seed outside every range is returned unchanged, and only then. */
  lemma GetIdentity(m: RangeMap, seed: int, out: int)
    requires forall r :: r in m ==> !Contains(r, seed)
    ensures Yields(m, seed, out) <==> out == seed
  {
  }

  /** A seed inside a range of a consistent map is shifted by that range's offset. */
  lemma GetOffset(m: RangeMap, r: Range, seed: int, out: int)
    requires Consistent(m) && r in m && Contains(r, seed)
    ensures Yields(m, seed, out) <==> out == seed + m[r]
  {
  }

  // ---------------------------------------------------------------------------
  // traverse

  /** The locations the chain `maps` may take `seed` to: one `get` per map, in order. */
  ghost predicate Reaches(maps: seq<RangeMap>, seed: int, loc: int)
    decreases |maps|
  {
    if maps == [] then loc == seed
    else
      var init, last := maps[..|maps| - 1], maps[|maps| - 1];
      exists mid :: Reaches(init, seed, mid) && Yields(last, mid, loc)
  }

  lemma ReachesStep(maps: seq<RangeMap>, i: nat, seed: int, mid: int, loc: int)
    requires i < |maps| && Reaches(maps[..i], seed, mid) && Yields(maps[i], mid, loc)
    ensures Reaches(maps[..i + 1], seed, loc)
  {
    assert maps[..i + 1][..i] == maps[..i];
  }

  /** Through consistent maps every seed has exactly one location. */
  lemma {:induction false} ReachesDeterministic(maps: seq<RangeMap>, seed: int, a: int, b: int)
    requires forall k :: 0 <= k < |maps| ==> Consistent(maps[k])
    requires Reaches(maps, seed, a) && Reaches(maps, seed, b)
    ensures a == b
    decreases |maps|
  {
    if maps != [] {
      var init, last := maps[..|maps| - 1], maps[|maps| - 1];
      var ma :| Reaches(init, seed, ma) && Yields(last, ma, a);
      var mb :| Reaches(init, seed, mb) && Yields(last, mb, b);
      ReachesDeterministic(init, seed, ma, mb);
      YieldsDeterministic(last, ma, a, b);
    }
  }

  /** A seed that no range of any map contains keeps its number to the end. */
  lemma {:induction false} ReachesIdentity(maps: seq<RangeMap>, seed: int, loc: int)
    requires forall k, r :: 0 <= k < |maps| && r in maps[k] ==> !Contains(r, seed)
    ensures Reaches(maps, seed, loc) <==> loc == seed
    decreases |maps|
  {
    if maps != [] {
      var init, last := maps[..|maps| - 1], maps[|maps| - 1];
      forall mid ensures Reaches(init, seed, mid) <==> mid == seed {
        ReachesIdentity(init, seed, mid);
      }
      if loc == seed {
        assert Reaches(init, seed, seed) && Yields(last, seed, loc);
      }
    }
  }

  /** `locs` is a possible outcome of pushing `seeds` through `maps`, seed by seed. */
  ghost predicate Locates(maps: seq<RangeMap>, seeds: seq<int>, locs: seq<int>) {
    |locs| == |seeds| && forall k :: 0 <= k < |seeds| ==> Reaches(maps, seeds[k], locs[k])
  }

  /** One stage of `traverse`: each soil looked up in `m`, in order. */
  method Remap(m: RangeMap, soils: seq<int>) returns (next: seq<int>)
    ensures |next| == |soils|
    ensures forall k :: 0 <= k < |soils| ==> Yields(m, soils[k], next[k])
  {
    next := [];
    for i := 0 to |soils|
      invariant |next| == i
      invariant forall k :: 0 <= k < i ==> Yields(m, soils[k], next[k])
    {
      var soil := Get(m, soils[i]);
      next := next + [soil];
    }
  }

  /** `Almanac::traverse`: asserts that there are maps and seeds, then replaces the list
      of numbers map by map; the length check after each stage and the final
      non-emptiness check always hold. */
  method Traverse(a: Almanac) returns (r: Result<seq<int>>)
    ensures r.Ok? <==> a.maps != [] && a.seeds != []
    ensures r.Panic? ==> r.fault == AssertionFailed
    ensures r.Ok? ==> Locates(a.maps, a.seeds, r.value) && r.value != []
  {
    if a.maps == [] || a.seeds == [] {
      return Panic(AssertionFailed);
    }
    var soils := a.seeds;
    for i := 0 to |a.maps|
      invariant |soils| == |a.seeds|
      invariant forall k :: 0 <= k < |a.seeds| ==> Reaches(a.maps[..i], a.seeds[k], soils[k])
    {
      var next := Remap(a.maps[i], soils);
      assert |next| == |soils|;
      forall k | 0 <= k < |a.seeds| ensures Reaches(a.maps[..i + 1], a.seeds[k], next[k]) {
        ReachesStep(a.maps, i, a.seeds[k], soils[k], next[k]);
      }
      soils := next;
    }
    assert a.maps[..|a.maps|] == a.maps;
    assert soils != [];
    return Ok(soils);
  }

  // ---------------------------------------------------------------------------
  // The lowest location

  /** `reduce(isize::min)` on a non-empty list: its smallest element. */
  function Min(s: seq<int>): (m: int)
    requires s != []
    ensures m in s
    ensures forall k :: 0 <= k < |s| ==> m <= s[k]
  {
    if |s| == 1 then s[0]
    else
      var init := Min(s[..|s| - 1]);
      assert forall k :: 0 <= k < |s| - 1 ==> s[..|s| - 1][k] == s[k];
      if s[|s| - 1] < init then s[|s| - 1] else init
  }

  /** `v` is the lowest location of some possible outcome of traversing the almanac. */
  ghost predicate LowestLocation(a: Almanac, v: int) {
    exists locs :: Locates(a.maps, a.seeds, locs) && locs != [] && v == Min(locs)
  }

  /** With consistent maps the answer is unique. */
  lemma LowestDeterministic(a: Almanac, v: int, w: int)
    requires forall k :: 0 <= k < |a.maps| ==> Consistent(a.maps[k])
    requires LowestLocation(a, v) && LowestLocation(a, w)
    ensures v == w
  {
    var lv :| Locates(a.maps, a.seeds, lv) && lv != [] && v == Min(lv);
    var lw :| Locates(a.maps, a.seeds, lw) && lw != [] && w == Min(lw);
    forall k | 0 <= k < |a.seeds| ensures lv[k] == lw[k] {
      ReachesDeterministic(a.maps, a.seeds[k], lv[k], lw[k]);
    }
    assert lv == lw;
  }

  // ---------------------------------------------------------------------------
  // Parsing

  predicate IsNotSpace(c: char) { c != ' ' }

  predicate DigitOrSpace(c: char) { c == ' ' || IsDigit(c) }

  predicate NoDigits(s: string) { forall k :: 0 <= k < |s| ==> !IsDigit(s[k]) }

  /** The almanac's checks `replace(" ", "").chars().all(char::is_numeric)`: once the
      spaces are dropped only digits are left, that is, a text of digits and spaces. */
  lemma SpacelessDigits(s: string)
    ensures AllDigits(Filter(s, IsNotSpace)) <==> forall k :: 0 <= k < |s| ==> DigitOrSpace(s[k])
  {
    var f := Filter(s, IsNotSpace);
    if AllDigits(f) {
      forall k | 0 <= k < |s| ensures DigitOrSpace(s[k]) {
        if s[k] != ' ' {
          assert s[k] in f;
          var j :| 0 <= j < |f| && f[j] == s[k];
        }
      }
    } else {
      var j :| 0 <= j < |f| && !IsDigit(f[j]);
      assert f[j] in s;
    }
  }

  /** The title check `replace(" ", "").chars().all(|c| !c.is_numeric())`: the same as
      the title holding no digit, since a space is not a digit. */
  lemma SpacelessNoDigits(s: string)
    ensures NoDigits(Filter(s, IsNotSpace)) <==> NoDigits(s)
  {
    var f := Filter(s, IsNotSpace);
    if NoDigits(f) {
      forall k | 0 <= k < |s| ensures !IsDigit(s[k]) {
        if s[k] != ' ' {
          assert s[k] in f;
          var j :| 0 <= j < |f| && f[j] == s[k];
        }
      }
    } else {
      var j :| 0 <= j < |f| && IsDigit(f[j]);
      assert f[j] in s;
    }
  }

  /** `parse::<isize>().unwrap()` on each word, in order: the first word that is not an
      `isize` aborts. */
  function ParseAll(words: seq<string>): (r: Result<seq<int>>)
    ensures r.Ok? <==> forall k :: 0 <= k < |words| ==> ParseSigned(words[k], I64_BOUND).Some?
    ensures r.Ok? ==> |r.value| == |words|
    ensures r.Ok? ==> forall k :: 0 <= k < |words| ==> r.value[k] == ParseSigned(words[k], I64_BOUND).value
    ensures r.Panic? ==> r.fault == ParseFailure
  {
    if words == [] then Ok([])
    else
      match ParseSigned(words[0], I64_BOUND)
      case None => Panic(ParseFailure)
      case Some(v) =>
        var rest :- ParseAll(words[1..]);
        assert forall k :: 1 <= k < |words| ==> words[k] == words[1..][k - 1];
        Ok([v] + rest)
  }

  /** The entry a map line `dest source len` adds: the key `source ..= source + len - 1`
      with the offset `dest - source`. A word that is not an `isize` panics in the
      parse, and a line of other than three numbers panics on unwrapping `None`. */
  function Entry(line: string): (r: Result<(Range, int)>)
    ensures var p := ParseAll(SplitWhitespace(line));
      && (r.Ok? <==> p.Ok? && |p.value| == 3)
      && (r.Panic? ==> r.fault in {ParseFailure, UnwrapNone})
      && (r.Ok? ==> && r.value.0.start == p.value[1]
                    && r.value.0.end - r.value.0.start + 1 == p.value[2]
                    && r.value.0.start + r.value.1 == p.value[0])
  {
    EntryOfParsed(ParseAll(SplitWhitespace(line)))
  }

  /** The entry of a map line's parsed words: a failed parse panics, and the values
      must be exactly three. */
  function EntryOfParsed(p: Result<seq<int>>): (r: Result<(Range, int)>)
    ensures p.Panic? ==> r == Panic(p.fault)
    ensures p.Ok? ==> (r.Ok? <==> |p.value| == 3) && (r.Panic? ==> r.fault == UnwrapNone)
  {
    var vs :- p;
    EntryOfValues(vs)
  }

  /** The entry of a map line's values: exactly three of them, `dest source len`. */
  function EntryOfValues(vs: seq<int>): (r: Result<(Range, int)>)
    ensures r.Ok? <==> |vs| == 3
    ensures r.Panic? ==> r.fault == UnwrapNone
    ensures r.Ok? ==> && r.value.0.start == vs[1]
                      && r.value.0.end - r.value.0.start + 1 == vs[2]
                      && r.value.0.start + r.value.1 == vs[0]
  {
    if |vs| == 3 then Ok((Range(vs[1], vs[1] + vs[2] - 1), vs[0] - vs[1])) else Panic(UnwrapNone)
  }

  /** The offset law of a map line: its range holds exactly the `len` numbers from
      `source` on, and each of them is sent to `dest + (seed - source)`. */
  lemma EntryLaw(line: string, dest: int, source: int, len: int, seed: int)
    requires ParseAll(SplitWhitespace(line)) == Ok([dest, source, len])
    ensures Entry(line).Ok?
    ensures Contains(Entry(line).value.0, seed) <==> source <= seed < source + len
    ensures seed + Entry(line).value.1 == dest + (seed - source)
  {
  }

  /** The entries of the number lines, one per line, in order. */
  function EntriesOf(lines: seq<string>): (es: seq<Result<(Range, int)>>)
    ensures |es| == |lines| && forall k :: 0 <= k < |lines| ==> es[k] == Entry(lines[k])
  {
    seq(|lines|, k requires 0 <= k < |lines| => Entry(lines[k]))
  }

  /** The map `create_map` builds: the entries inserted in turn into an empty map, so
      that a later entry for the same range overwrites the offset; the first missing
      entry aborts with its fault. */
  function Insert(es: seq<Result<(Range, int)>>): (r: Result<RangeMap>)
    ensures r.Ok? <==> forall k :: 0 <= k < |es| ==> es[k].Ok?
    decreases |es|
  {
    if es == [] then Ok(map[])
    else
      var init := es[..|es| - 1];
      assert forall k :: 0 <= k < |init| ==> init[k] == es[k];
      var m :- Insert(init);
      var e :- es[|es| - 1];
      Ok(m[e.0 := e.1])
  }

  /** Inserting one more entry: its panic, or the map with it added. */
  lemma InsertStep(es: seq<Result<(Range, int)>>, i: nat, m: RangeMap)
    requires i < |es| && Insert(es[..i]) == Ok(m)
    ensures es[i].Panic? ==> Insert(es[..i + 1]) == Panic(es[i].fault)
    ensures es[i].Ok? ==> Insert(es[..i + 1]) == Ok(m[es[i].value.0 := es[i].value.1])
  {
    assert es[..i + 1][..i] == es[..i];
  }

  /** Once a prefix of the entries aborts, so does the whole list, with the same fault. */
  lemma {:induction false} InsertAborts(es: seq<Result<(Range, int)>>, i: nat)
    requires i <= |es| && Insert(es[..i]).Panic?
    ensures Insert(es) == Insert(es[..i])
    decreases |es|
  {
    if i == |es| {
      assert es[..i] == es;
    } else {
      var init := es[..|es| - 1];
      assert init[..i] == es[..i];
      InsertAborts(init, i);
    }
  }

  /** The keys of the map are the ranges of the entries. */
  lemma {:induction false} InsertKeys(es: seq<Result<(Range, int)>>, key: Range)
    requires Insert(es).Ok?
    ensures key in Insert(es).value <==> exists k :: 0 <= k < |es| && es[k].value.0 == key
    decreases |es|
  {
    if es != [] {
      var init, n := es[..|es| - 1], |es| - 1;
      assert forall k :: 0 <= k < |init| ==> init[k] == es[k];
      InsertKeys(init, key);
      var e := es[n].value;
      assert Insert(es).value == Insert(init).value[e.0 := e.1];
      if key == e.0 {
        assert es[n].value.0 == key;
      } else if key in Insert(es).value {
        var k :| 0 <= k < |init| && init[k].value.0 == key;
        assert es[k].value.0 == key;
      } else {
        forall k | 0 <= k < |es| ensures es[k].value.0 != key {
          if k < n {
            assert init[k].value.0 != key;
          }
        }
      }
    }
  }

  /** The last entry for a given range decides its offset. */
  lemma {:induction false} LastInsertWins(es: seq<Result<(Range, int)>>, j: nat)
    requires Insert(es).Ok? && j < |es|
    requires forall k :: j < k < |es| ==> es[k].value.0 != es[j].value.0
    ensures es[j].value.0 in Insert(es).value
    ensures Insert(es).value[es[j].value.0] == es[j].value.1
    decreases |es|
  {
    var init := es[..|es| - 1];
    assert forall k :: 0 <= k < |init| ==> init[k] == es[k];
    if j < |es| - 1 {
      LastInsertWins(init, j);
    }
  }

  /** What `create_map` computes for one block: its first line is a title without
      digits, the other lines hold digits and spaces only and each add an entry. */
  function BlockMap(block: string): (r: Result<RangeMap>)
    ensures r.Ok? ==> Lines(block) != [] && NoDigits(Lines(block)[0])
    ensures r.Ok? ==> forall k :: 0 <= k < |Concat(Lines(block)[1..])| ==> DigitOrSpace(Concat(Lines(block)[1..])[k])
    ensures Lines(block) == [] ==> r == Panic(IndexOutOfBounds)
    ensures Lines(block) != [] ==>
      r == if && NoDigits(Lines(block)[0])
              && forall k :: 0 <= k < |Concat(Lines(block)[1..])| ==> DigitOrSpace(Concat(Lines(block)[1..])[k])
           then Insert(EntriesOf(Lines(block)[1..]))
           else Panic(AssertionFailed)
  {
    var lines := Lines(block);
    var title :- At(lines, 0);
    var numbers := lines[1..];
    SpacelessNoDigits(title);
    SpacelessDigits(Concat(numbers));
    if !NoDigits(Filter(title, IsNotSpace)) then Panic(AssertionFailed)
    else if !AllDigits(Filter(Concat(numbers), IsNotSpace)) then Panic(AssertionFailed)
    else Insert(EntriesOf(numbers))
  }

  /** `create_map`: checks the block, then inserts one entry per number line. */
  method CreateMap(block: string) returns (r: Result<RangeMap>)
    ensures r == BlockMap(block)
  {
    var lines := Lines(block);
    if |lines| == 0 {
      return Panic(IndexOutOfBounds);
    }
    var title, numbers := lines[0], lines[1..];
    if !NoDigits(Filter(title, IsNotSpace)) || !AllDigits(Filter(Concat(numbers), IsNotSpace)) {
      return Panic(AssertionFailed);
    }
    r := InsertLines(numbers);
  }

  /** The `for_each` of `create_map`: each number line's entry inserted in turn. */
  method InsertLines(numbers: seq<string>) returns (r: Result<RangeMap>)
    ensures r == Insert(EntriesOf(numbers))
  {
    var es := EntriesOf(numbers);
    var m: RangeMap := map[];
    for i := 0 to |numbers|
      invariant Insert(es[..i]) == Ok(m)
    {
      var e := Entry(numbers[i]);
      InsertStep(es, i, m);
      if e.Panic? {
        InsertAborts(es, i + 1);
        return Panic(e.fault);
      }
      m := m[e.value.0 := e.value.1];
    }
    assert es[..|es|] == es;
    return Ok(m);
  }

  /** One map per block, in order; the first block that fails aborts. */
  function BlockMaps(blocks: seq<string>): (r: Result<seq<RangeMap>>)
    ensures r.Ok? <==> forall k :: 0 <= k < |blocks| ==> BlockMap(blocks[k]).Ok?
    ensures r.Ok? ==> |r.value| == |blocks| && forall k :: 0 <= k < |blocks| ==> BlockMap(blocks[k]) == Ok(r.value[k])
  {
    var rs := seq(|blocks|, k requires 0 <= k < |blocks| => BlockMap(blocks[k]));
    assert forall k :: 0 <= k < |blocks| ==> rs[k] == BlockMap(blocks[k]);
    AllOk(rs)
  }

  /** The blocks of the map section: the lines after the first two, joined back and
      cut at blank lines. */
  function MapBlocks(text: string): (blocks: seq<string>)
    ensures |Lines(text)| < 2 <==> blocks == []
    ensures |Lines(text)| >= 2 ==> Join(blocks, "\n\n") == Join(Lines(text)[2..], "\n")
    ensures forall k, i: nat :: 0 <= k < |blocks| ==> !OccursAt(blocks[k], "\n\n", i)
  {
    var lines := Lines(text);
    if |lines| < 2 then [] else
      JoinSplitOn(Join(lines[2..], "\n"), "\n\n");
      SplitOnLeftmost(Join(lines[2..], "\n"), "\n\n");
      SplitOn(Join(lines[2..], "\n"), "\n\n")
  }

  /** `get_maps`: the lines after the first two, which must exist, joined back and cut
      at blank lines into blocks, one map per block. */
  function GetMaps(text: string): (r: Result<seq<RangeMap>>)
    ensures |Lines(text)| < 2 ==> r == Panic(BadSlice)
    ensures |Lines(text)| == 2 ==> r == Panic(AssertionFailed)
    ensures r.Ok? <==> |Lines(text)| > 2 && forall k :: 0 <= k < |MapBlocks(text)| ==> BlockMap(MapBlocks(text)[k]).Ok?
    ensures r.Ok? ==> |r.value| == |MapBlocks(text)|
    ensures r.Ok? ==> forall k :: 0 <= k < |r.value| ==> BlockMap(MapBlocks(text)[k]) == Ok(r.value[k])
  {
    var lines := Lines(text);
    if |lines| < 2 then Panic(BadSlice)
    else if lines[2..] == [] then Panic(AssertionFailed)
    else BlockMaps(MapBlocks(text))
  }

  /** The keys of map k of the almanac are the ranges of the number lines of block k. */
  lemma GetMapsKeys(text: string, k: nat, key: Range)
    requires GetMaps(text).Ok? && k < |GetMaps(text).value|
    ensures var numbers := Lines(MapBlocks(text)[k])[1..];
      key in GetMaps(text).value[k] <==> exists j :: 0 <= j < |numbers| && Entry(numbers[j]).value.0 == key
  {
    var block := MapBlocks(text)[k];
    var numbers := Lines(block)[1..];
    var es := EntriesOf(numbers);
    assert BlockMap(block) == Ok(GetMaps(text).value[k]);
    assert Insert(es) == BlockMap(block);
    InsertKeys(es, key);
    assert forall j :: 0 <= j < |es| ==> es[j] == Entry(numbers[j]);
  }

  /** The words of a text of digits and spaces are digit strings. */
  lemma DigitWords(s: string)
    requires forall k :: 0 <= k < |s| ==> DigitOrSpace(s[k])
    ensures forall k :: 0 <= k < |SplitWhitespace(s)| ==> AllDigits(SplitWhitespace(s)[k])
  {
    var words := SplitWhitespace(s);
    forall k, j | 0 <= k < |words| && 0 <= j < |words[k]| ensures IsDigit(words[k][j]) {
      var c := words[k][j];
      assert c in words[k];
      assert c in s && !IsWhitespace(c);
    }
  }

  /** `get_seeds`: the first line without its `seeds: ` prefix must hold digits and
      spaces only; its words are the seeds. No seed is negative. */
  function GetSeeds(text: string): (r: Result<seq<int>>)
    ensures r.Ok? ==> forall k :: 0 <= k < |r.value| ==> 0 <= r.value[k] < I64_BOUND
    ensures Lines(text) == [] ==> r == Panic(IndexOutOfBounds)
    ensures Lines(text) != [] ==>
      var t := TrimStartMatches(Lines(text)[0], "seeds: ");
      r == if forall k :: 0 <= k < |t| ==> DigitOrSpace(t[k])
           then ParseAll(SplitWhitespace(t))
           else Panic(AssertionFailed)
  {
    var line :- At(Lines(text), 0);
    var trailing := TrimStartMatches(line, "seeds: ");
    SpacelessDigits(trailing);
    if !AllDigits(Filter(trailing, IsNotSpace)) then Panic(AssertionFailed)
    else
      var words := SplitWhitespace(trailing);
      DigitWords(trailing);
      assert forall k :: 0 <= k < |words| ==> ParseSigned(words[k], I64_BOUND) ==
        if DigitsValue(words[k]) < I64_BOUND then Some(DigitsValue(words[k]) as int) else None
      by {
        forall k | 0 <= k < |words| {
          ParseSignedDigits(words[k], I64_BOUND);
        }
      }
      ParseAll(words)
  }

  // ---------------------------------------------------------------------------
  // Printing and parsing back

  /** The decimal forms of the numbers. */
  function Decimals(ns: seq<nat>): (ds: seq<string>)
    ensures |ds| == |ns| && forall k :: 0 <= k < |ns| ==> ds[k] == DecimalString(ns[k])
  {
    seq(|ns|, k requires 0 <= k < |ns| => DecimalString(ns[k]))
  }

  /** The values of digit words. */
  function Values(ds: seq<string>): (vs: seq<int>)
    requires forall k :: 0 <= k < |ds| ==> AllDigits(ds[k])
    ensures |vs| == |ds| && forall k :: 0 <= k < |ds| ==> vs[k] == DigitsValue(ds[k])
  {
    seq(|ds|, k requires 0 <= k < |ds| => DigitsValue(ds[k]) as int)
  }

  /** Parsing digit words whose values fit an `isize` gives their values. */
  lemma ParseDigitWords(ds: seq<string>)
    requires forall k :: 0 <= k < |ds| ==> |ds[k]| > 0 && AllDigits(ds[k]) && DigitsValue(ds[k]) < I64_BOUND
    ensures ParseAll(ds) == Ok(Values(ds))
  {
    forall k | 0 <= k < |ds| ensures ParseSigned(ds[k], I64_BOUND) == Some(DigitsValue(ds[k]) as int) {
      ParseSignedDigits(ds[k], I64_BOUND);
    }
    assert ParseAll(ds).value == Values(ds);
  }

  /** Digit words joined by spaces form a text of digits and spaces. */
  lemma WordsJoined(ds: seq<string>)
    requires forall k :: 0 <= k < |ds| ==> |ds[k]| > 0 && AllDigits(ds[k])
    ensures forall k :: 0 <= k < |Join(ds, " ")| ==> DigitOrSpace(Join(ds, " ")[k])
  {
    var body := Join(ds, " ");
    forall k | 0 <= k < |body| ensures DigitOrSpace(body[k]) {
      var c := body[k];
      JoinChars(ds, " ", c);
      if c !in " " {
        var j :| 0 <= j < |ds| && c in ds[j];
        var i :| 0 <= i < |ds[j]| && ds[j][i] == c;
      }
    }
  }

  /** The first line of a text that starts with a seeds line, and what is left of it
      once its prefix is dropped. */
  lemma SeedsLine(body: string, rest: string)
    requires forall k :: 0 <= k < |body| ==> DigitOrSpace(body[k])
    ensures Lines("seeds: " + body + "\n" + rest) != []
    ensures TrimStartMatches(Lines("seeds: " + body + "\n" + rest)[0], "seeds: ") == body
  {
    var line := "seeds: " + body;
    assert forall k :: 7 <= k < |line| ==> line[k] == body[k - 7];
    assert '\n' !in line by {
      forall k | 0 <= k < |line| ensures line[k] != '\n' {
        if k >= 7 { assert DigitOrSpace(body[k - 7]); }
      }
    }
    assert line[|line| - 1] != '\r' by {
      if body != [] { assert DigitOrSpace(body[|body| - 1]); }
    }
    FirstLine(line, rest);
    assert "seeds: " + body + "\n" + rest == line + "\n" + rest;
    assert line[..7] == "seeds: " && line[7..] == body;
    assert TrimStartMatches(body, "seeds: ") == body by {
      if |body| >= 7 { assert DigitOrSpace(body[0]); }
    }
  }

  /** What `get_seeds` reads from a seeds line of digits and spaces: its words. */
  lemma SeedsOfBody(body: string, rest: string)
    requires forall k :: 0 <= k < |body| ==> DigitOrSpace(body[k])
    ensures GetSeeds("seeds: " + body + "\n" + rest) == ParseAll(SplitWhitespace(body))
  {
    SeedsLine(body, rest);
    SpacelessDigits(body);
  }

  /** A seeds line of digit words, each within `isize`, is read as their values, whatever
      follows the first line. */
  lemma SeedsOfWords(ds: seq<string>, rest: string)
    requires forall k :: 0 <= k < |ds| ==> |ds[k]| > 0 && AllDigits(ds[k]) && DigitsValue(ds[k]) < I64_BOUND
    ensures GetSeeds("seeds: " + Join(ds, " ") + "\n" + rest) == Ok(Values(ds))
  {
    WordsJoined(ds);
    SeedsOfBody(Join(ds, " "), rest);
    SplitWhitespaceJoin(ds);
    ParseDigitWords(ds);
  }

  /** Seeds printed in the almanac's first-line format are read back unchanged. */
  lemma SeedsRoundTrip(ns: seq<nat>, rest: string)
    requires forall k :: 0 <= k < |ns| ==> ns[k] < I64_BOUND
    ensures GetSeeds("seeds: " + Join(Decimals(ns), " ") + "\n" + rest) == Ok(ns)
  {
    var ds := Decimals(ns);
    forall k | 0 <= k < |ds| ensures |ds[k]| > 0 && AllDigits(ds[k]) && DigitsValue(ds[k]) == ns[k] {
      DigitsValueOfDecimalString(ns[k]);
    }
    SeedsOfWords(ds, rest);
    assert Values(ds) == ns;
  }

  /** Three words without whitespace, joined by single spaces, are split back apart. */
  lemma ThreeWords(x: string, y: string, z: string)
    requires |x| > 0 && |y| > 0 && |z| > 0 && AllDigits(x) && AllDigits(y) && AllDigits(z)
    ensures SplitWhitespace(x + " " + y + " " + z) == [x, y, z]
  {
    var ds := [x, y, z];
    assert ds[1..] == [y, z] && [y, z][1..] == [z];
    assert Join([y, z], " ") == y + " " + z;
    assert Join(ds, " ") == x + " " + (y + " " + z);
    assert x + " " + (y + " " + z) == x + " " + y + " " + z;
    SplitWhitespaceJoin(ds);
  }

  lemma EntryOfWords(line: string, vs: seq<int>)
    requires ParseAll(SplitWhitespace(line)) == Ok(vs)
    ensures Entry(line) == EntryOfParsed(Ok(vs))
  {
  }

  lemma EntryOfThree(vs: seq<int>)
    requires |vs| == 3
    ensures EntryOfParsed(Ok(vs)) == Ok((Range(vs[1], vs[1] + vs[2] - 1), vs[0] - vs[1]))
  {
  }


  lemma ThreeValues(x: string, y: string, z: string)
    requires |x| > 0 && |y| > 0 && |z| > 0 && AllDigits(x) && AllDigits(y) && AllDigits(z)
    requires DigitsValue(x) < I64_BOUND && DigitsValue(y) < I64_BOUND && DigitsValue(z) < I64_BOUND
    ensures ParseAll(SplitWhitespace(x + " " + y + " " + z))
      == Ok([DigitsValue(x) as int, DigitsValue(y) as int, DigitsValue(z) as int])
  {
    var ds := [x, y, z];
    ThreeWords(x, y, z);
    ParseDigitWords(ds);
    var vs := Values(ds);
    assert vs[0] == DigitsValue(x) && vs[1] == DigitsValue(y) && vs[2] == DigitsValue(z);
    assert vs == [DigitsValue(x) as int, DigitsValue(y) as int, DigitsValue(z) as int];
  }

  /** A map line of three digit words `dest source len` gives the range of the `len`
      numbers from `source` on, with offset `dest - source`. */
  lemma EntryOfDigitWords(line: string, x: string, y: string, z: string)
    requires line == x + " " + y + " " + z
    requires |x| > 0 && |y| > 0 && |z| > 0 && AllDigits(x) && AllDigits(y) && AllDigits(z)
    requires DigitsValue(x) < I64_BOUND && DigitsValue(y) < I64_BOUND && DigitsValue(z) < I64_BOUND
    ensures Entry(line).Ok?
    ensures Entry(line).value.0 == Range(DigitsValue(y), DigitsValue(y) + DigitsValue(z) - 1)
    ensures Entry(line).value.1 == DigitsValue(x) - DigitsValue(y)
  {
    ThreeValues(x, y, z);
    var vs := [DigitsValue(x) as int, DigitsValue(y) as int, DigitsValue(z) as int];
    EntryOfWords(line, vs);
    EntryOfThree(vs);
  }

  /** `Almanac::from`: the seeds are read before the maps. */
  function FromText(text: string): (r: Result<Almanac>)
    ensures r.Ok? <==> GetSeeds(text).Ok? && GetMaps(text).Ok?
    ensures r.Ok? ==> r.value.seeds == GetSeeds(text).value && r.value.maps == GetMaps(text).value
  {
    var seeds :- GetSeeds(text);
    var maps :- GetMaps(text);
    Ok(Almanac(seeds, maps))
  }

  /** `part_1`: the lowest location the almanac's seeds reach. */
  method Part1(text: string) returns (r: Result<int>)
    ensures FromText(text).Panic? ==> r == Panic(FromText(text).fault)
    ensures FromText(text).Ok? ==> (r.Ok? <==> FromText(text).value.seeds != [])
    ensures r.Ok? ==> FromText(text).Ok? && LowestLocation(FromText(text).value, r.value)
    ensures FromText(text).Ok? && FromText(text).value.seeds == [] ==> r == Panic(AssertionFailed)
  {
    var a := FromText(text);
    if a.Panic? {
      return Panic(a.fault);
    }
    var soils := Traverse(a.value);
    if soils.Panic? {
      return Panic(soils.fault);
    }
    r := Ok(Min(soils.value));
  }
}
