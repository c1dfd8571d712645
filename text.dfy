/** Text-processing building blocks shared by the puzzle solvers: the outcome of
    a computation that may panic, and the small standard-library string
    operations the solvers rely on (splitting, trimming, line iteration,
    decimal parsing and printing), each specified by what it computes. */
module Text {

  /** Why a run of one of the solvers aborts (a Rust panic or a Go panic). */
  datatype Fault =
    | IndexOutOfBounds   // `v[i]` with `i >= v.len()`
    | BadSlice           // `&s[a..b]` or `&v[a..]` reaching outside the string or vector
    | ParseFailure       // `.parse().unwrap()` on a string that is not a number of the type
    | UnwrapNone         // `.unwrap()` on `None`
    | AssertionFailed    // a failing `assert!`
    | Overflow           // integer arithmetic leaving its machine type (a panic in a debug build)
    | NodeNotFound       // `panic("node not found")`
    | InvalidDirection   // `log.Panicf("not a valid sequence ...")`

  /** The value of a computation, or the fault that aborted it. */
  datatype Result<+T> = Ok(value: T) | Panic(fault: Fault) {
    predicate IsFailure() { Panic? }
    function PropagateFailure<U>(): Result<U> requires Panic? { Panic(fault) }
    function Extract(): T requires Ok? { value }
  }

  datatype Option<+T> = None | Some(value: T)

  /** `a` and then `b`: the first panic, or both lists one after the other. */
  function Then<T>(a: Result<seq<T>>, b: Result<seq<T>>): Result<seq<T>>
  {
    if a.Panic? then a else if b.Panic? then b else Ok(a.value + b.value)
  }

  /** Both parts hold when `a` and then `b` does. */
  lemma ThenOk<T>(a: Result<seq<T>>, b: Result<seq<T>>)
    ensures Then(a, b).Ok? ==> a.Ok? && b.Ok? && Then(a, b).value == a.value + b.value
  {
  }

  /** `xs` in front of the list `r` holds, unless `r` is a panic. */
  function Prepend<T>(xs: seq<T>, r: Result<seq<T>>): Result<seq<T>>
  {
    if r.Ok? then Ok(xs + r.value) else r
  }

  lemma PrependEmpty<T>(r: Result<seq<T>>)
    ensures Prepend([], r) == r
  {
    if r.Ok? { assert [] + r.value == r.value; }
  }

  lemma PrependTwice<T>(a: seq<T>, b: seq<T>, r: Result<seq<T>>)
    ensures Prepend(a, Prepend(b, r)) == Prepend(a + b, r)
  {
    if r.Ok? { assert a + (b + r.value) == (a + b) + r.value; }
  }

  lemma ThenStep<T>(xs: seq<T>, row: seq<T>, after: Result<seq<T>>)
    ensures Prepend(xs, Then(Ok(row), after)) == Prepend(xs + row, after)
  {
    if after.Ok? { assert xs + (row + after.value) == (xs + row) + after.value; }
  }

  /** The values of a list of outcomes, in order, or the first panic among them
      (`collect::<Vec<_>>()` over a map whose closure may panic). */
  function AllOk<T>(rs: seq<Result<T>>): (r: Result<seq<T>>)
    ensures r.Ok? <==> forall k :: 0 <= k < |rs| ==> rs[k].Ok?
    ensures r.Ok? ==> |r.value| == |rs| && forall k :: 0 <= k < |rs| ==> rs[k] == Ok(r.value[k])
    ensures r.Panic? ==> exists k :: 0 <= k < |rs| && rs[k] == Panic(r.fault)
    decreases |rs|
  {
    if rs == [] then Ok([])
    else
      var init := rs[..|rs| - 1];
      assert forall k :: 0 <= k < |init| ==> init[k] == rs[k];
      var vs :- AllOk(init);
      var v :- rs[|rs| - 1];
      Ok(vs + [v])
  }

  /** A list of outcomes that are all values gives those values. */
  lemma AllOkEach<T>(rs: seq<Result<T>>, vs: seq<T>)
    requires |rs| == |vs|
    requires forall k :: 0 <= k < |rs| ==> rs[k] == Ok(vs[k])
    ensures AllOk(rs) == Ok(vs)
  {
    var r := AllOk(rs);
    assert r.Ok?;
    assert forall k :: 0 <= k < |vs| ==> r.value[k] == vs[k];
    assert r.value == vs;
  }

  /** Collecting from the front: the first outcome, then the collection of the rest. */
  lemma {:induction false} AllOkCons<T>(x: Result<T>, rs: seq<Result<T>>)
    ensures AllOk([x] + rs) == if x.Panic? then Panic(x.fault) else Prepend([x.value], AllOk(rs))
    decreases |rs|
  {
    var s := [x] + rs;
    if rs == [] {
      assert s[..0] == [];
      if x.Ok? { assert [] + [x.value] == [x.value] + []; }
    } else {
      var init := rs[..|rs| - 1];
      assert s[..|s| - 1] == [x] + init;
      assert s[|s| - 1] == rs[|rs| - 1];
      AllOkCons(x, init);
      if x.Ok? && AllOk(init).Ok? && rs[|rs| - 1].Ok? {
        assert [x.value] + (AllOk(init).value + [rs[|rs| - 1].value])
          == ([x.value] + AllOk(init).value) + [rs[|rs| - 1].value];
      }
    }
  }

  /** Once a prefix holds a panic, the whole list gives that prefix's first panic. */
  lemma {:induction false} AllOkAborts<T>(rs: seq<Result<T>>, i: nat)
    requires i <= |rs| && AllOk(rs[..i]).Panic?
    ensures AllOk(rs) == AllOk(rs[..i])
    decreases |rs|
  {
    if i == |rs| {
      assert rs[..i] == rs;
    } else {
      var init := rs[..|rs| - 1];
      assert init[..i] == rs[..i];
      AllOkAborts(init, i);
    }
  }

  lemma NilRight<T>(a: seq<T>)
    ensures a + [] == a
  {
  }

  lemma AppendAssoc<T>(a: seq<T>, b: seq<T>, c: seq<T>)
    ensures (a + b) + c == a + (b + c)
  {
  }

  lemma PairOf<T>(a: T, b: T)
    ensures [a] + [b] == [a, b]
  {
  }

  /** The first panic after a successful prefix is the panic of the whole list. */
  lemma AllOkStop<T>(rs: seq<Result<T>>, i: nat)
    requires i < |rs| && AllOk(rs[..i]).Ok? && rs[i].Panic?
    ensures AllOk(rs) == Panic(rs[i].fault)
  {
    assert rs[..i + 1][..i] == rs[..i];
    AllOkAborts(rs, i + 1);
  }

  /** Extending a successful prefix by one successful outcome. */
  lemma AllOkStep<T>(rs: seq<Result<T>>, i: nat)
    requires i < |rs| && AllOk(rs[..i]).Ok? && rs[i].Ok?
    ensures AllOk(rs[..i + 1]) == Ok(AllOk(rs[..i]).value + [rs[i].value])
  {
    assert rs[..i + 1][..i] == rs[..i];
  }

  // ---------------------------------------------------------------------------
  // Character classes

  /** `char::is_ascii_digit`; also the model of `char::is_numeric` on ASCII text. */
  predicate IsDigit(c: char)
  {
    '0' <= c <= '9'
  }

  /** The digits are exactly the ten characters `'0'` to `'9'`. */
  lemma DecimalDigitChars(c: char)
    ensures IsDigit(c) <==> c in "0123456789"
  {
    if IsDigit(c) {
      assert c == "0123456789"[c as int - '0' as int];
    }
  }

  /** `char::is_ascii_punctuation`: the 32 printable ASCII characters that are neither
      letters, digits nor space. */
  predicate IsAsciiPunctuation(c: char)
    ensures IsAsciiPunctuation(c) <==> ' ' < c <= '~' && !IsDigit(c) && !('a' <= c <= 'z') && !('A' <= c <= 'Z')
  {
    ('!' <= c <= '/') || (':' <= c <= '@') || ('[' <= c <= '`') || ('{' <= c <= '~')
  }

  /** The Unicode White_Space property, used by Rust's `trim`/`split_whitespace` and
      Go's `strings.TrimSpace`; no digit or punctuation character is white space. */
  predicate IsWhitespace(c: char)
    ensures IsWhitespace(c) ==> !IsDigit(c) && !IsAsciiPunctuation(c)
  {
    c == ' ' || ('\t' <= c <= '\r') || c == '\U{0085}' || c == '\U{00A0}' || c == '\U{1680}'
    || ('\U{2000}' <= c <= '\U{200A}') || c == '\U{2028}' || c == '\U{2029}'
    || c == '\U{202F}' || c == '\U{205F}' || c == '\U{3000}'
  }

  predicate AllDigits(s: string) { forall k :: 0 <= k < |s| ==> IsDigit(s[k]) }

  // ---------------------------------------------------------------------------
  // Filtering and concatenation

  /** The characters of `s` that satisfy `keep`, in order (`chars().filter(..).collect()`;
      with `keep(c) == c != x` it is also `replace(x, "")`). */
  function Filter(s: string, keep: char -> bool): (r: string)
    ensures |r| <= |s|
    ensures forall c :: c in r <==> c in s && keep(c)
    ensures forall k :: 0 <= k < |r| ==> keep(r[k])
    ensures r == [] <==> forall c :: c in s ==> !keep(c)
  {
    KeptFacts(s, keep);
    var r := Kept(s, keep);
    assert r != [] ==> r[0] in r;
    r
  }

  /** The recursion behind `Filter`, without its contract. */
  function Kept(s: string, keep: char -> bool): string
  {
    if s == [] then [] else (if keep(s[0]) then [s[0]] else []) + Kept(s[1..], keep)
  }

  lemma {:induction false} KeptFacts(s: string, keep: char -> bool)
    ensures |Kept(s, keep)| <= |s|
    ensures forall c :: c in Kept(s, keep) <==> c in s && keep(c)
    ensures forall k :: 0 <= k < |Kept(s, keep)| ==> keep(Kept(s, keep)[k])
    decreases |s|
  {
    if s != [] {
      KeptFacts(s[1..], keep);
      assert s == [s[0]] + s[1..];
    }
  }

  lemma {:induction false} KeptAppend(a: string, b: string, keep: char -> bool)
    ensures Kept(a + b, keep) == Kept(a, keep) + Kept(b, keep)
    decreases |a|
  {
    if a == [] {
      assert a + b == b;
    } else {
      var head := if keep(a[0]) then [a[0]] else [];
      assert (a + b)[0] == a[0];
      assert (a + b)[1..] == a[1..] + b;
      assert Kept(a + b, keep) == head + Kept(a[1..] + b, keep);
      KeptAppend(a[1..], b, keep);
      assert Kept(a, keep) == head + Kept(a[1..], keep);
    }
  }

  lemma FilterAppend(a: string, b: string, keep: char -> bool)
    ensures Filter(a + b, keep) == Filter(a, keep) + Filter(b, keep)
  {
    KeptAppend(a, b, keep);
  }

  lemma {:induction false} FilterKeepsAll(s: string, keep: char -> bool)
    requires forall k :: 0 <= k < |s| ==> keep(s[k])
    ensures Filter(s, keep) == s
  {
    if s != [] {
      assert forall k :: 0 <= k < |s[1..]| ==> s[1..][k] == s[k + 1];
      FilterKeepsAll(s[1..], keep);
    }
  }

  /** Filtering a kept middle between two dropped ends leaves the middle. */
  lemma FilterFlanked(a: string, d: string, b: string, keep: char -> bool)
    requires forall k :: 0 <= k < |a| ==> !keep(a[k])
    requires forall k :: 0 <= k < |d| ==> keep(d[k])
    requires forall k :: 0 <= k < |b| ==> !keep(b[k])
    ensures Filter(a + d + b, keep) == d
  {
    FilterAppend(a + d, b, keep);
    FilterAppend(a, d, keep);
    assert Filter(a, keep) == [] by {
      forall c | c in a ensures !keep(c) { }
    }
    assert Filter(b, keep) == [] by {
      forall c | c in b ensures !keep(c) { }
    }
    FilterKeepsAll(d, keep);
  }

  /** The pieces laid end to end (`collect::<String>()` / `concat()`). */
  function Concat(parts: seq<string>): (r: string)
    ensures forall c :: c in r <==> exists k :: 0 <= k < |parts| && c in parts[k]
  {
    if parts == [] then [] else
      var rest := Concat(parts[1..]);
      assert forall k :: 1 <= k < |parts| ==> parts[k] == parts[1..][k - 1];
      parts[0] + rest
  }

  lemma {:induction false} ConcatAppend(a: seq<string>, b: seq<string>)
    ensures Concat(a + b) == Concat(a) + Concat(b)
  {
    if a == [] {
      assert a + b == b;
    } else {
      assert (a + b)[0] == a[0];
      assert (a + b)[1..] == a[1..] + b;
      ConcatAppend(a[1..], b);
    }
  }

  // ---------------------------------------------------------------------------
  // Splitting

  /** Rust's `str::split` with a character predicate: the maximal pieces between
      separator characters, empty pieces included, always at least one piece. */
  function SplitWhere(s: string, isSep: char -> bool): (parts: seq<string>)
    ensures |parts| >= 1
    ensures forall k, c :: 0 <= k < |parts| && c in parts[k] ==> !isSep(c) && c in s
    decreases |s|
  {
    if s == [] then [""]
    else
      var rest := SplitWhere(s[1..], isSep);
      assert forall c :: c in s[1..] ==> c in s;
      if isSep(s[0]) then [""] + rest
      else [[s[0]] + rest[0]] + rest[1..]
  }

  /** A text without separators is one piece. */
  lemma {:induction false} SplitWhereNoSep(s: string, isSep: char -> bool)
    requires forall k :: 0 <= k < |s| ==> !isSep(s[k])
    ensures SplitWhere(s, isSep) == [s]
    decreases |s|
  {
    if s != [] {
      SplitWhereNoSep(s[1..], isSep);
      assert [s[0]] + s[1..] == s;
    }
  }

  /** Splitting at the first separator: the piece before it, then the pieces of the
      rest. */
  lemma {:induction false} SplitWhereAtSep(a: string, c: char, b: string, isSep: char -> bool)
    requires forall k :: 0 <= k < |a| ==> !isSep(a[k])
    requires isSep(c)
    ensures SplitWhere(a + [c] + b, isSep) == [a] + SplitWhere(b, isSep)
    decreases |a|
  {
    var s := a + [c] + b;
    if a == [] {
      assert s[1..] == b;
    } else {
      assert s[1..] == a[1..] + [c] + b;
      SplitWhereAtSep(a[1..], c, b, isSep);
      assert [a[0]] + a[1..] == a;
    }
  }

  /** Dropping the separators is the same as splitting and concatenating the pieces. */
  lemma {:induction false} ConcatSplitWhere(s: string, isSep: char -> bool, keep: char -> bool)
    requires forall c :: keep(c) <==> !isSep(c)
    ensures Concat(SplitWhere(s, isSep)) == Filter(s, keep)
    decreases |s|
  {
    if s != [] {
      var rest := SplitWhere(s[1..], isSep);
      ConcatSplitWhere(s[1..], isSep, keep);
      if !isSep(s[0]) {
        var parts := SplitWhere(s, isSep);
        assert parts == [[s[0]] + rest[0]] + rest[1..];
        assert parts[1..] == rest[1..];
        assert rest == [rest[0]] + rest[1..];
        assert Concat(rest) == rest[0] + Concat(rest[1..]);
      }
    }
  }

  /** Rust's `str::split` / Go's `strings.Split` with a non-empty string pattern:
      pieces between the non-overlapping matches found from left to right. */
  function SplitOn(s: string, pat: string): (parts: seq<string>)
    requires |pat| > 0
    ensures |parts| >= 1
    decreases |s|
  {
    if |s| < |pat| then [s]
    else if s[..|pat|] == pat then [""] + SplitOn(s[|pat|..], pat)
    else
      var rest := SplitOn(s[1..], pat);
      [[s[0]] + rest[0]] + rest[1..]
  }

  /** `pat` occurs somewhere in `s`. */
  predicate Contains(s: string, pat: string) {
    exists i: nat :: i <= |s| && OccursAt(s, pat, i)
  }

  /** An occurrence after the first character is an occurrence in the rest. */
  lemma OccursCons(c: char, y: string, pat: string, i: nat)
    requires i >= 1
    ensures OccursAt([c] + y, pat, i) <==> OccursAt(y, pat, i - 1)
  {
    if i + |pat| <= |[c] + y| {
      assert ([c] + y)[i..i + |pat|] == y[i - 1..i - 1 + |pat|];
    }
  }

  /** An occurrence at the start of a prefix of `s` is one at the start of `s`. */
  lemma OccursInPrefix(x: string, s: string, pat: string)
    requires |x| <= |s| && x == s[..|x|] && OccursAt(x, pat, 0)
    ensures |pat| <= |s| && s[..|pat|] == pat
  {
    assert s[..|pat|] == x[..|pat|];
  }

  /** The first piece of a split is a prefix of the text; when a second piece follows,
      the first piece and the pattern are. */
  lemma SplitOnHead(s: string, pat: string)
    requires |pat| > 0
    ensures var parts := SplitOn(s, pat);
      && |parts[0]| <= |s| && parts[0] == s[..|parts[0]|]
      && (|parts| > 1 ==> |parts[0]| + |pat| <= |s| && parts[0] + pat == s[..|parts[0]| + |pat|])
  {
    var parts := SplitOn(s, pat);
    JoinSplitOn(s, pat);
    if |parts| > 1 {
      assert s == parts[0] + pat + Join(parts[1..], pat);
      assert s[..|parts[0]| + |pat|] == parts[0] + pat;
    }
  }

  /** No piece of `parts` holds `pat`, and every piece but the last, followed by
      `pat`, holds no occurrence starting inside the piece. */
  ghost predicate LeftmostPieces(parts: seq<string>, pat: string) {
    && (forall k, i: nat :: 0 <= k < |parts| ==> !OccursAt(parts[k], pat, i))
    && (forall k, i: nat :: 0 <= k < |parts| - 1 && i < |parts[k]| ==> !OccursAt(parts[k] + pat, pat, i))
  }

  /** The pieces of `SplitOn(s, pat)` hold no occurrence of `pat`, and every cut is
      the leftmost one: a piece followed by the pattern holds no occurrence that starts
      inside the piece. With JoinSplitOn this fixes the pieces. */
  lemma {:induction false} SplitOnLeftmost(s: string, pat: string)
    requires |pat| > 0
    ensures forall k, i: nat :: 0 <= k < |SplitOn(s, pat)| ==> !OccursAt(SplitOn(s, pat)[k], pat, i)
    ensures forall k, i: nat :: 0 <= k < |SplitOn(s, pat)| - 1 && i < |SplitOn(s, pat)[k]| ==>
      !OccursAt(SplitOn(s, pat)[k] + pat, pat, i)
    decreases |s|
  {
    if |s| < |pat| {
      assert SplitOn(s, pat) == [s];
    } else if s[..|pat|] == pat {
      SplitOnLeftmost(s[|pat|..], pat);
      LeftmostAfterMatch(SplitOn(s[|pat|..], pat), pat);
      assert SplitOn(s, pat) == [""] + SplitOn(s[|pat|..], pat);
    } else {
      SplitOnLeftmost(s[1..], pat);
      SplitOnHead(s[1..], pat);
      LeftmostGlued(s, pat, SplitOn(s[1..], pat));
    }
  }

  /** An empty piece in front keeps the pieces leftmost. */
  lemma LeftmostAfterMatch(rest: seq<string>, pat: string)
    requires |pat| > 0 && LeftmostPieces(rest, pat)
    ensures LeftmostPieces([""] + rest, pat)
  {
    var parts := [""] + rest;
    forall k, i: nat | 0 <= k < |parts| ensures !OccursAt(parts[k], pat, i) {
      if k > 0 { assert parts[k] == rest[k - 1]; }
    }
    forall k, i: nat | 0 <= k < |parts| - 1 && i < |parts[k]| ensures !OccursAt(parts[k] + pat, pat, i) {
      assert k > 0 && parts[k] == rest[k - 1];
    }
  }

  /** A first character that does not start a match is glued to the first piece, which
      stays leftmost. */
  lemma LeftmostGlued(s: string, pat: string, rest: seq<string>)
    requires |pat| > 0 && |pat| <= |s| && s[..|pat|] != pat
    requires rest == SplitOn(s[1..], pat) && LeftmostPieces(rest, pat)
    requires |rest[0]| <= |s[1..]| && rest[0] == s[1..][..|rest[0]|]
    requires |rest| > 1 ==> |rest[0]| + |pat| <= |s[1..]| && rest[0] + pat == s[1..][..|rest[0]| + |pat|]
    ensures LeftmostPieces(SplitOn(s, pat), pat)
  {
    var parts := SplitOn(s, pat);
    var p := [s[0]] + rest[0];
    assert parts == [p] + rest[1..];
    GluedHead(s, pat, rest);
    forall k, i: nat | 0 <= k < |parts| ensures !OccursAt(parts[k], pat, i) {
      if k > 0 { assert parts[k] == rest[k]; }
    }
    forall k, i: nat | 0 <= k < |parts| - 1 && i < |parts[k]| ensures !OccursAt(parts[k] + pat, pat, i) {
      if k > 0 { assert parts[k] == rest[k]; }
    }
  }

  /** The glued first piece holds no match, nor does it with the pattern after it. */
  lemma GluedHead(s: string, pat: string, rest: seq<string>)
    requires |pat| > 0 && |pat| <= |s| && s[..|pat|] != pat
    requires |rest| >= 1 && LeftmostPieces(rest, pat)
    requires |rest[0]| <= |s[1..]| && rest[0] == s[1..][..|rest[0]|]
    requires |rest| > 1 ==> |rest[0]| + |pat| <= |s[1..]| && rest[0] + pat == s[1..][..|rest[0]| + |pat|]
    ensures forall i: nat :: !OccursAt([s[0]] + rest[0], pat, i)
    ensures |rest| > 1 ==> forall i: nat :: i < 1 + |rest[0]| ==> !OccursAt([s[0]] + rest[0] + pat, pat, i)
  {
    var p := [s[0]] + rest[0];
    assert p == s[..|p|];
    forall i: nat ensures !OccursAt(p, pat, i) {
      if i == 0 {
        if OccursAt(p, pat, 0) { OccursInPrefix(p, s, pat); }
      } else {
        OccursCons(s[0], rest[0], pat, i);
      }
    }
    if |rest| > 1 {
      assert p + pat == [s[0]] + (rest[0] + pat);
      assert p + pat == s[..|p| + |pat|];
      forall i: nat | i < |p| ensures !OccursAt(p + pat, pat, i) {
        if i == 0 {
          if OccursAt(p + pat, pat, 0) { OccursInPrefix(p + pat, s, pat); }
        } else {
          OccursCons(s[0], rest[0] + pat, pat, i);
        }
      }
    }
  }

  /** Splitting on one character. */
  function Split(s: string, sep: char): (parts: seq<string>)
    ensures |parts| >= 1
    ensures forall k :: 0 <= k < |parts| ==> sep !in parts[k]
  {
    SplitOnCharHasNoSep(s, sep);
    SplitOn(s, [sep])
  }

  lemma {:induction false} SplitOnCharHasNoSep(s: string, sep: char)
    ensures forall k :: 0 <= k < |SplitOn(s, [sep])| ==> sep !in SplitOn(s, [sep])[k]
    decreases |s|
  {
    if |s| >= 1 {
      SplitOnCharHasNoSep(s[1..], sep);
      assert s[..1] == [s[0]];
      if s[0] != sep {
        var rest := SplitOn(s[1..], [sep]);
        assert SplitOn(s, [sep]) == [[s[0]] + rest[0]] + rest[1..];
      }
    }
  }

  /** The pieces joined with `sep` between neighbours (`join`). */
  function Join(parts: seq<string>, sep: string): (r: string)
    ensures parts != [] ==> |r| == TotalLength(parts) + (|parts| - 1) * |sep|
  {
    if parts == [] then ""
    else if |parts| == 1 then parts[0]
    else parts[0] + sep + Join(parts[1..], sep)
  }

  /** The number of characters of all the pieces together. */
  function TotalLength(parts: seq<string>): nat {
    if parts == [] then 0 else |parts[0]| + TotalLength(parts[1..])
  }

  /** Joining is unaffected by gluing a prefix onto the first piece. */
  lemma JoinGlueFirst(x: string, parts: seq<string>, sep: string)
    requires |parts| >= 1
    ensures Join([x + parts[0]] + parts[1..], sep) == x + Join(parts, sep)
  {
    var glued := [x + parts[0]] + parts[1..];
    if |parts| > 1 {
      assert glued[1..] == parts[1..];
    }
  }

  /** Joining the pieces of a split with the pattern gives back the original. */
  lemma {:induction false} JoinSplitOn(s: string, pat: string)
    requires |pat| > 0
    ensures Join(SplitOn(s, pat), pat) == s
    decreases |s|
  {
    if |s| < |pat| {
    } else if s[..|pat|] == pat {
      JoinSplitOn(s[|pat|..], pat);
      var rest := SplitOn(s[|pat|..], pat);
      JoinGlueFirst("", [""] + rest, pat);
      assert ([""] + rest)[1..] == rest;
      assert s == pat + s[|pat|..];
    } else {
      JoinSplitOn(s[1..], pat);
      var rest := SplitOn(s[1..], pat);
      JoinGlueFirst([s[0]], rest, pat);
      assert s == [s[0]] + s[1..];
    }
  }

  /** Splitting a text that holds no separator gives the text back as the only piece. */
  lemma {:induction false} SplitWithoutSep(s: string, sep: char)
    requires sep !in s
    ensures Split(s, sep) == [s]
    decreases |s|
  {
    if |s| >= 1 {
      assert s[..1] == [s[0]];
      SplitWithoutSep(s[1..], sep);
      assert [s[0]] + s[1..] == s;
    }
  }

  /** Splitting `a + [sep] + b`, where `a` holds no separator, yields `a` and the pieces of `b`. */
  lemma {:induction false} SplitAtFirstSep(a: string, sep: char, b: string)
    requires sep !in a
    ensures Split(a + [sep] + b, sep) == [a] + Split(b, sep)
    decreases |a|
  {
    var s := a + [sep] + b;
    assert s[..1] == [s[0]];
    if a == [] {
      assert s[1..] == b;
    } else {
      assert s[1..] == a[1..] + [sep] + b;
      SplitAtFirstSep(a[1..], sep, b);
      assert [a[0]] + a[1..] == a;
    }
  }

  /** Splitting at the only occurrence of a separator gives the two sides. */
  lemma SplitPair(a: string, sep: char, b: string)
    requires sep !in a && sep !in b
    ensures Split(a + [sep] + b, sep) == [a, b]
  {
    SplitAtFirstSep(a, sep, b);
    SplitWithoutSep(b, sep);
  }

  /** Splitting pieces joined by a separator they do not hold gives the pieces back. */
  lemma {:induction false} SplitJoin(parts: seq<string>, sep: char)
    requires |parts| >= 1
    requires forall k :: 0 <= k < |parts| ==> sep !in parts[k]
    ensures Split(Join(parts, [sep]), sep) == parts
    decreases |parts|
  {
    if |parts| == 1 {
      SplitWithoutSep(parts[0], sep);
    } else {
      var rest := parts[1..];
      assert forall k :: 0 <= k < |rest| ==> rest[k] == parts[k + 1];
      SplitJoin(rest, sep);
      SplitAtFirstSep(parts[0], sep, Join(rest, [sep]));
      assert [parts[0]] + rest == parts;
    }
  }

  /** A split at `sep` has a second piece exactly when `sep` occurs. */
  lemma {:induction false} SplitHasSep(s: string, sep: char)
    ensures |Split(s, sep)| >= 2 <==> sep in s
    decreases |s|
  {
    if |s| >= 1 {
      assert s[..1] == [s[0]];
      SplitHasSep(s[1..], sep);
      assert s == [s[0]] + s[1..];
      if s[0] != sep {
        var rest := SplitOn(s[1..], [sep]);
        assert SplitOn(s, [sep]) == [[s[0]] + rest[0]] + rest[1..];
      }
    }
  }

  /** Every character of a joined text comes from a piece or from the separator. */
  lemma {:induction false} JoinChars(parts: seq<string>, sep: string, c: char)
    requires c in Join(parts, sep)
    ensures c in sep || exists k :: 0 <= k < |parts| && c in parts[k]
    decreases |parts|
  {
    if |parts| > 1 {
      var rest := Join(parts[1..], sep);
      assert Join(parts, sep) == parts[0] + sep + rest;
      if c in rest {
        JoinChars(parts[1..], sep, c);
        if !(c in sep) {
          var k :| 0 <= k < |parts[1..]| && c in parts[1..][k];
          assert c in parts[k + 1];
        }
      }
    }
  }

  /** Splitting words joined by single spaces gives the words back, when the words
      hold no whitespace. */
  lemma {:induction false} SplitWhereJoin(words: seq<string>)
    requires |words| >= 1
    requires forall k, j :: 0 <= k < |words| && 0 <= j < |words[k]| ==> !IsWhitespace(words[k][j])
    ensures SplitWhere(Join(words, " "), IsWhitespace) == words
    decreases |words|
  {
    if |words| == 1 {
      SplitWhereNoSep(words[0], IsWhitespace);
    } else {
      var rest := words[1..];
      assert forall k :: 0 <= k < |rest| ==> rest[k] == words[k + 1];
      SplitWhereJoin(rest);
      assert Join(words, " ") == words[0] + [' '] + Join(rest, " ");
      SplitWhereAtSep(words[0], ' ', Join(rest, " "), IsWhitespace);
      assert [words[0]] + rest == words;
    }
  }

  lemma {:induction false} NonEmptyKeepsAll(parts: seq<string>)
    requires forall k :: 0 <= k < |parts| ==> parts[k] != []
    ensures NonEmpty(parts) == parts
    decreases |parts|
  {
    if parts != [] {
      NonEmptyKeepsAll(parts[1..]);
      assert [parts[0]] + parts[1..] == parts;
    }
  }

  /** Words joined by single spaces are split back into the same words. */
  lemma SplitWhitespaceJoin(words: seq<string>)
    requires forall k :: 0 <= k < |words| ==> words[k] != []
    requires forall k, j :: 0 <= k < |words| && 0 <= j < |words[k]| ==> !IsWhitespace(words[k][j])
    ensures SplitWhitespace(Join(words, " ")) == words
  {
    if words == [] {
      assert Join(words, " ") == "";
      assert SplitWhere("", IsWhitespace) == [""];
      assert NonEmpty([""]) == [] + NonEmpty([""][1..]);
    } else {
      SplitWhereJoin(words);
      NonEmptyKeepsAll(words);
    }
  }

  /** Rust's `split_whitespace`: the non-empty pieces between whitespace. */
  function SplitWhitespace(s: string): (words: seq<string>)
    ensures forall k :: 0 <= k < |words| ==> |words[k]| > 0
    ensures forall k, c :: 0 <= k < |words| && c in words[k] ==> !IsWhitespace(c) && c in s
  {
    NonEmpty(SplitWhere(s, IsWhitespace))
  }

  /** The pieces that are not empty, in order (`slices.DeleteFunc` with `str == ""`,
      and the filter inside `split_whitespace`): no kept piece is empty, and every
      non-empty piece is kept. */
  function NonEmpty(parts: seq<string>): (r: seq<string>)
    ensures |r| <= |parts|
    ensures forall k :: 0 <= k < |r| ==> r[k] != [] && r[k] in parts
    ensures forall k :: 0 <= k < |parts| && parts[k] != [] ==> parts[k] in r
  {
    if parts == [] then []
    else
      var rest := NonEmpty(parts[1..]);
      assert forall k :: 1 <= k < |parts| ==> parts[k] == parts[1..][k - 1];
      (if parts[0] == [] then [] else [parts[0]]) + rest
  }

  /** Deleting the empty pieces keeps the order: it works piece by piece. */
  lemma {:induction false} NonEmptyAppend(a: seq<string>, b: seq<string>)
    ensures NonEmpty(a + b) == NonEmpty(a) + NonEmpty(b)
    decreases |a|
  {
    if a == [] {
      assert a + b == b;
    } else {
      assert (a + b)[0] == a[0];
      assert (a + b)[1..] == a[1..] + b;
      NonEmptyAppend(a[1..], b);
    }
  }

  /** One piece is kept exactly when it is not empty. */
  lemma NonEmptyOne(p: string)
    ensures NonEmpty([p]) == if p == [] then [] else [p]
  {
    assert [p][1..] == [];
  }

  // ---------------------------------------------------------------------------
  // Trimming

  /** Number of leading whitespace characters. */
  function LeadingWhitespace(s: string): (n: nat)
    ensures n <= |s|
    ensures forall k :: 0 <= k < n ==> IsWhitespace(s[k])
    ensures n == |s| || !IsWhitespace(s[n])
  {
    if s != [] && IsWhitespace(s[0]) then 1 + LeadingWhitespace(s[1..]) else 0
  }

  /** Number of trailing whitespace characters. */
  function TrailingWhitespace(s: string): (n: nat)
    ensures n <= |s|
    ensures forall k :: |s| - n <= k < |s| ==> IsWhitespace(s[k])
    ensures n == |s| || !IsWhitespace(s[|s| - n - 1])
  {
    if s != [] && IsWhitespace(s[|s| - 1]) then 1 + TrailingWhitespace(s[..|s| - 1]) else 0
  }

  /** Rust's `trim` / Go's `strings.TrimSpace`: `s` without its leading and trailing
      whitespace; the result is a contiguous part of `s` that neither starts nor ends
      with whitespace. */
  function Trim(s: string): (r: string)
    ensures exists i :: TrimmedAt(s, r, i)
    ensures r == [] || (!IsWhitespace(r[0]) && !IsWhitespace(r[|r| - 1]))
  {
    var i := LeadingWhitespace(s);
    var t := s[i..];
    var n := TrailingWhitespace(t);
    var r := t[..|t| - n];
    assert TrimmedAt(s, r, i);
    r
  }

  /** Trimming keeps only characters of the text. */
  lemma TrimInside(s: string)
    ensures forall c :: c in Trim(s) ==> c in s
  {
    var r := Trim(s);
    var i: nat :| TrimmedAt(s, r, i);
    assert forall k :: 0 <= k < |r| ==> r[k] == s[i..i + |r|][k];
  }

  /** `r` is `s[i..]` up to a whitespace-only tail, and `s[..i]` is whitespace. */
  predicate TrimmedAt(s: string, r: string, i: nat) {
    && i + |r| <= |s| && r == s[i..i + |r|]
    && (forall k :: 0 <= k < i ==> IsWhitespace(s[k]))
    && (forall k :: i + |r| <= k < |s| ==> IsWhitespace(s[k]))
  }

  /** Go's `strings.TrimPrefix`: drops `p` once if `s` starts with it. */
  function TrimPrefix(s: string, p: string): (r: string)
    ensures r == s || (|p| <= |s| && s == p + r)
  {
    if |p| <= |s| && s[..|p|] == p then s[|p|..] else s
  }

  /** Go's `strings.TrimSuffix`: drops `p` once if `s` ends with it. */
  function TrimSuffix(s: string, p: string): (r: string)
    ensures r == s || (|p| <= |s| && s == r + p)
  {
    if |p| <= |s| && s[|s| - |p|..] == p then s[..|s| - |p|] else s
  }

  /** Rust's `trim_start_matches` with a non-empty string: drops `p` from the front
      as long as `s` starts with it. */
  function TrimStartMatches(s: string, p: string): (r: string)
    requires |p| > 0
    ensures |r| <= |s| && r == s[|s| - |r|..]
    ensures !(|p| <= |r| && r[..|p|] == p)
    decreases |s|
  {
    if |p| <= |s| && s[..|p|] == p then
      var r := TrimStartMatches(s[|p|..], p);
      assert s[|p|..][|s| - |p| - |r|..] == s[|s| - |r|..];
      r
    else s
  }

  /** Trimming drops exactly the whitespace padding around a text that neither starts
      nor ends with whitespace. */
  lemma TrimPadded(pre: string, x: string, post: string)
    requires forall k :: 0 <= k < |pre| ==> IsWhitespace(pre[k])
    requires forall k :: 0 <= k < |post| ==> IsWhitespace(post[k])
    requires x != [] && !IsWhitespace(x[0]) && !IsWhitespace(x[|x| - 1])
    ensures Trim(pre + x + post) == x
  {
    var s := pre + x + post;
    var i := LeadingWhitespace(s);
    assert s[|pre|] == x[0];
    assert i == |pre|;
    var t := s[i..];
    assert t == x + post;
    var n := TrailingWhitespace(t);
    assert t[|x| - 1] == x[|x| - 1];
    assert n == |post|;
    assert t[..|t| - n] == x;
  }

  // ---------------------------------------------------------------------------
  // Lines

  /** One `'\r'` at the end of a line removed, when there is one. */
  function StripCarriageReturn(line: string): (r: string)
    ensures line == r + "\r" || (r == line && (line == [] || line[|line| - 1] != '\r'))
  {
    if |line| > 0 && line[|line| - 1] == '\r' then line[..|line| - 1] else line
  }

  /** Rust's `str::lines`: the text split at `"\n"`, each line that was ended by
      `"\n"` losing one `'\r'` before it; a final line ending adds no empty line,
      and the empty text has no lines. */
  function Lines(s: string): (ls: seq<string>)
    ensures s == [] <==> ls == []
  {
    if s == [] then []
    else
      var parts := Split(s, '\n');
      JoinSplitOn(s, "\n");
      var n := |parts|;
      var ended := seq(n - 1, k requires 0 <= k < n - 1 => StripCarriageReturn(parts[k]));
      if parts[n - 1] == [] then ended
      else ended + [parts[n - 1]]
  }

  /** The first line of a text that continues after a line ending. */
  lemma FirstLine(line: string, rest: string)
    requires '\n' !in line
    requires line == [] || line[|line| - 1] != '\r'
    ensures Lines(line + "\n" + rest) != [] && Lines(line + "\n" + rest)[0] == line
  {
    var s := line + "\n" + rest;
    assert s == line + ['\n'] + rest;
    SplitAtFirstSep(line, '\n', rest);
    var parts := Split(s, '\n');
    assert parts[0] == line && |parts| >= 2;
  }

  /** A text of two lines, the first without carriage returns. */
  lemma TwoLines(a: string, b: string)
    requires '\n' !in a && '\r' !in a && '\n' !in b && b != []
    ensures Lines(a + "\n" + b) == [a, b]
  {
    assert a + "\n" + b == a + ['\n'] + b;
    SplitPair(a, '\n', b);
    assert StripCarriageReturn(a) == a by {
      if |a| > 0 {
        assert a[|a| - 1] in a;
      }
    }
  }

  /** Lines without line endings, joined with `'\n'`, are read back by `lines()`,
      as long as none ends with `'\r'` and the last one is not empty. This generalises
      FirstLine and TwoLines. */
  lemma LinesOfJoin(ls: seq<string>)
    requires forall k :: 0 <= k < |ls| ==> '\n' !in ls[k]
    requires forall k :: 0 <= k < |ls| ==> ls[k] == [] || ls[k][|ls[k]| - 1] != '\r'
    requires ls == [] || ls[|ls| - 1] != []
    ensures Lines(Join(ls, "\n")) == ls
  {
    if ls != [] {
      var s := Join(ls, "\n");
      assert "\n" == ['\n'];
      SplitJoin(ls, '\n');
      assert Split(s, '\n') == ls;
      var n := |ls|;
      var ended := seq(n - 1, k requires 0 <= k < n - 1 => StripCarriageReturn(ls[k]));
      assert ended == ls[..n - 1];
      assert Lines(s) == ended + [ls[n - 1]];
      assert ls[..n - 1] + [ls[n - 1]] == ls;
    }
  }

  // ---------------------------------------------------------------------------
  // Slicing

  /** `&s[lo..hi]`: panics unless `lo <= hi <= s.len()`. */
  function Slice(s: string, lo: nat, hi: nat): (r: Result<string>)
    ensures r.Ok? <==> lo <= hi <= |s|
    ensures r.Ok? ==> r.value == s[lo..hi]
    ensures r.Panic? ==> r.fault == BadSlice
  {
    if lo <= hi <= |s| then Ok(s[lo..hi]) else Panic(BadSlice)
  }

  /** `v[i]` on a vector: panics unless `i < v.len()`. */
  function At<T>(v: seq<T>, i: nat): (r: Result<T>)
    ensures r.Ok? <==> i < |v|
    ensures r.Ok? ==> r.value == v[i]
  {
    if i < |v| then Ok(v[i]) else Panic(IndexOutOfBounds)
  }

  // ---------------------------------------------------------------------------
  // Decimal numbers

  /** `10^n`. */
  function Pow10(n: nat): (p: nat)
    ensures p >= 1
  {
    if n == 0 then 1 else 10 * Pow10(n - 1)
  }

  function DigitValue(c: char): nat requires IsDigit(c) { (c as int - '0' as int) as nat }

  function DigitChar(d: nat): (c: char)
    requires d < 10
    ensures IsDigit(c) && DigitValue(c) == d
  {
    (d + '0' as int) as char
  }

  /** The value of a string of decimal digits (0 for the empty string); `n` digits
      stay below `10^n`. */
  function DigitsValue(s: string): (v: nat)
    requires AllDigits(s)
    ensures v < Pow10(|s|)
  {
    if s == [] then 0 else 10 * DigitsValue(s[..|s| - 1]) + DigitValue(s[|s| - 1])
  }

  lemma DigitsValueSnoc(s: string, c: char)
    requires AllDigits(s) && IsDigit(c)
    ensures AllDigits(s + [c]) && DigitsValue(s + [c]) == 10 * DigitsValue(s) + DigitValue(c)
  {
    assert (s + [c])[..|s|] == s;
  }

  /** Rust's `from_str` for an unsigned integer type whose values lie below `bound`:
      an optional `'+'` and then at least one ASCII digit, with a value below `bound`. */
  function ParseUnsigned(s: string, bound: nat): (r: Option<nat>)
    ensures r.Some? ==> r.value < bound
  {
    var digits := if |s| > 0 && s[0] == '+' then s[1..] else s;
    if |digits| > 0 && AllDigits(digits) && DigitsValue(digits) < bound
    then Some(DigitsValue(digits)) else None
  }

  /** Without a leading `'+'`, parsing accepts exactly the non-empty digit strings
      whose value is below the bound. */
  lemma ParseUnsignedUnsigned(s: string, bound: nat)
    requires |s| == 0 || s[0] != '+'
    ensures ParseUnsigned(s, bound)
      == if |s| > 0 && AllDigits(s) && DigitsValue(s) < bound then Some(DigitsValue(s)) else None
  {
  }

  /** Rust's `from_str` for a signed integer type whose values lie in `[-bound, bound)`:
      an optional sign and then at least one ASCII digit, with a value in range. */
  function ParseSigned(s: string, bound: nat): (r: Option<int>)
    requires bound > 0
    ensures r.Some? ==> -(bound as int) <= r.value < bound
  {
    if |s| > 0 && s[0] == '-' then
      var digits := s[1..];
      if |digits| > 0 && AllDigits(digits) && DigitsValue(digits) <= bound
      then Some(-(DigitsValue(digits) as int)) else None
    else
      match ParseUnsigned(s, bound)
      case Some(v) => Some(v as int)
      case None => None
  }

  /** On a digit string a signed parse is the unsigned one: the value, when in range. */
  lemma ParseSignedDigits(s: string, bound: nat)
    requires bound > 0 && |s| > 0 && AllDigits(s)
    ensures ParseSigned(s, bound) == if DigitsValue(s) < bound then Some(DigitsValue(s) as int) else None
  {
    assert IsDigit(s[0]);
  }

  const U16_BOUND: nat := 0x1_0000
  const U32_BOUND: nat := 0x1_0000_0000
  const U64_BOUND: nat := 0x1_0000_0000_0000_0000
  /** 2^63: the smallest positive number `isize` cannot hold on a 64-bit target. */
  const I64_BOUND: nat := 0x8000_0000_0000_0000

  /** `to_string` on an unsigned integer: its decimal digits, without leading zeros. */
  function DecimalString(n: nat): (s: string)
    ensures |s| > 0 && AllDigits(s)
    ensures s[0] == '0' ==> n == 0 && s == "0"
  {
    if n < 10 then [DigitChar(n)] else DecimalString(n / 10) + [DigitChar(n % 10)]
  }

  /** Printing a number in decimal and reading it back gives the number. */
  lemma {:induction false} DigitsValueOfDecimalString(n: nat)
    ensures DigitsValue(DecimalString(n)) == n
  {
    var s := DecimalString(n);
    if n >= 10 {
      DigitsValueOfDecimalString(n / 10);
      assert s[..|s| - 1] == DecimalString(n / 10);
    }
  }

  lemma ParseDecimalString(n: nat, bound: nat)
    requires n < bound
    ensures ParseUnsigned(DecimalString(n), bound) == Some(n)
  {
    DigitsValueOfDecimalString(n);
  }

  /** The decimal string of a digit string's value is what is left after its leading
      zeros: it is a suffix of the digit string. */
  lemma {:induction false} DecimalStringIsSuffix(s: string)
    requires |s| > 0 && AllDigits(s)
    ensures |DecimalString(DigitsValue(s))| <= |s|
    ensures DecimalString(DigitsValue(s)) == s[|s| - |DecimalString(DigitsValue(s))|..]
    decreases |s|
  {
    var init, d := s[..|s| - 1], DigitValue(s[|s| - 1]);
    var v := DigitsValue(s);
    assert v == 10 * DigitsValue(init) + d;
    if DigitsValue(init) == 0 {
      assert v == d;
      assert DecimalString(v) == [DigitChar(d)];
      assert DigitChar(d) == s[|s| - 1];
    } else {
      assert |init| > 0;
      DecimalStringIsSuffix(init);
      assert v / 10 == DigitsValue(init) && v % 10 == d;
      assert DecimalString(v) == DecimalString(DigitsValue(init)) + [s[|s| - 1]];
    }
  }

  // ---------------------------------------------------------------------------
  // Substring search

  predicate OccursAt(s: string, pat: string, i: nat) {
    i + |pat| <= |s| && s[i..i + |pat|] == pat
  }

  lemma OccursShift(s: string, pat: string, i: nat)
    requires s != [] && OccursAt(s[1..], pat, i)
    ensures OccursAt(s, pat, i + 1)
  {
    assert s[i + 1..i + 1 + |pat|] == s[1..][i..i + |pat|];
  }

  /** Where the pieces of SplitWhere(s, isSep) start in `s`. */
  function SplitWhereStarts(s: string, isSep: char -> bool): (starts: seq<nat>)
    ensures |starts| == |SplitWhere(s, isSep)|
    decreases |s|
  {
    if s == [] then [0]
    else
      var rest := SplitWhereStarts(s[1..], isSep);
      var shifted := seq(|rest|, k requires 0 <= k < |rest| => rest[k] + 1);
      if isSep(s[0]) then [0] + shifted else [0] + shifted[1..]
  }

  /** Every piece of a split is a contiguous part of the text, the first one at its
      start. */
  lemma {:induction false} SplitWhereOccurs(s: string, isSep: char -> bool)
    ensures SplitWhereStarts(s, isSep)[0] == 0
    ensures forall k :: 0 <= k < |SplitWhere(s, isSep)| ==>
      OccursAt(s, SplitWhere(s, isSep)[k], SplitWhereStarts(s, isSep)[k])
    decreases |s|
  {
    if s != [] {
      var rest, rs := SplitWhere(s[1..], isSep), SplitWhereStarts(s[1..], isSep);
      SplitWhereOccurs(s[1..], isSep);
      forall k | 0 <= k < |rest| ensures OccursAt(s, rest[k], rs[k] + 1) {
        OccursShift(s, rest[k], rs[k]);
      }
      if isSep(s[0]) {
        OccursAfterSep(s, isSep, rest, rs);
      } else {
        OccursAfterGlue(s, isSep, rest, rs);
      }
    }
  }

  /** The starts of the pieces of `s` from those of `s[1..]`. */
  lemma StartsOfTail(s: string, isSep: char -> bool)
    requires s != []
    ensures var starts, rs := SplitWhereStarts(s, isSep), SplitWhereStarts(s[1..], isSep);
      && starts[0] == 0
      && (isSep(s[0]) ==> |starts| == |rs| + 1 && forall k :: 1 <= k < |starts| ==> starts[k] == rs[k - 1] + 1)
      && (!isSep(s[0]) ==> |starts| == |rs| && forall k :: 1 <= k < |starts| ==> starts[k] == rs[k] + 1)
  {
  }

  /** The pieces after a leading separator sit one place further on. */
  lemma OccursAfterSep(s: string, isSep: char -> bool, rest: seq<string>, rs: seq<nat>)
    requires s != [] && isSep(s[0])
    requires rest == SplitWhere(s[1..], isSep) && rs == SplitWhereStarts(s[1..], isSep)
    requires forall k :: 0 <= k < |rest| ==> OccursAt(s, rest[k], rs[k] + 1)
    ensures SplitWhereStarts(s, isSep)[0] == 0
    ensures forall k :: 0 <= k < |SplitWhere(s, isSep)| ==>
      OccursAt(s, SplitWhere(s, isSep)[k], SplitWhereStarts(s, isSep)[k])
  {
    var parts, starts := SplitWhere(s, isSep), SplitWhereStarts(s, isSep);
    assert parts == [""] + rest;
    StartsOfTail(s, isSep);
    forall k | 0 <= k < |parts|
      ensures OccursAt(s, parts[k], starts[k])
    {
      if k > 0 {
        assert parts[k] == rest[k - 1];
      }
    }
  }

  /** A leading non-separator is glued to the first piece, which then starts at 0. */
  lemma OccursAfterGlue(s: string, isSep: char -> bool, rest: seq<string>, rs: seq<nat>)
    requires s != [] && !isSep(s[0])
    requires rest == SplitWhere(s[1..], isSep) && rs == SplitWhereStarts(s[1..], isSep)
    requires rs[0] == 0 && OccursAt(s[1..], rest[0], 0)
    requires forall k :: 0 <= k < |rest| ==> OccursAt(s, rest[k], rs[k] + 1)
    ensures SplitWhereStarts(s, isSep)[0] == 0
    ensures forall k :: 0 <= k < |SplitWhere(s, isSep)| ==>
      OccursAt(s, SplitWhere(s, isSep)[k], SplitWhereStarts(s, isSep)[k])
  {
    var parts, starts := SplitWhere(s, isSep), SplitWhereStarts(s, isSep);
    var tail := rest[1..];
    assert parts == [[s[0]] + rest[0]] + tail;
    StartsOfTail(s, isSep);
    GluedOccurs(s, rest[0]);
    forall k | 1 <= k < |parts|
      ensures OccursAt(s, parts[k], starts[k])
    {
      assert parts[k] == tail[k - 1] == rest[k];
    }
  }

  lemma GluedOccurs(s: string, piece: string)
    requires s != [] && OccursAt(s[1..], piece, 0)
    ensures OccursAt(s, [s[0]] + piece, 0)
  {
    assert s[1..][0..|piece|] == piece;
    assert s[0..1 + |piece|] == [s[0]] + s[1..][0..|piece|];
  }



  /** Rust's `str::match_indices` with a non-empty pattern, from position `from` on:
      the start of every non-overlapping match, found greedily from the left. */
  function MatchIndicesFrom(s: string, pat: string, from: nat): (r: seq<nat>)
    requires |pat| > 0
    ensures forall k :: 0 <= k < |r| ==> from <= r[k] && OccursAt(s, pat, r[k])
    ensures forall k :: 0 < k < |r| ==> r[k - 1] + |pat| <= r[k]
    decreases |s| - from
  {
    if from + |pat| > |s| then []
    else if s[from..from + |pat|] == pat then [from] + MatchIndicesFrom(s, pat, from + |pat|)
    else MatchIndicesFrom(s, pat, from + 1)
  }

  /** No match is missed: every occurrence at or after `from` that does not overlap an
      earlier reported match is reported. */
  lemma {:induction false} MatchIndicesComplete(s: string, pat: string, from: nat, i: nat)
    requires |pat| > 0 && from <= i && OccursAt(s, pat, i)
    requires forall k :: 0 <= k < |MatchIndicesFrom(s, pat, from)| && MatchIndicesFrom(s, pat, from)[k] < i
               ==> MatchIndicesFrom(s, pat, from)[k] + |pat| <= i
    ensures i in MatchIndicesFrom(s, pat, from)
    decreases |s| - from
  {
    var r := MatchIndicesFrom(s, pat, from);
    if i == from {
    } else if s[from..from + |pat|] == pat {
      var rest := MatchIndicesFrom(s, pat, from + |pat|);
      assert r == [from] + rest;
      assert r[0] == from;
      assert forall k :: 0 <= k < |rest| ==> rest[k] == r[k + 1];
      MatchIndicesComplete(s, pat, from + |pat|, i);
    } else {
      MatchIndicesComplete(s, pat, from + 1, i);
    }
  }

  /** Some match is reported as soon as the pattern occurs at or after `from`. */
  lemma {:induction false} MatchIndicesNonEmpty(s: string, pat: string, from: nat, i: nat)
    requires |pat| > 0 && from <= i && OccursAt(s, pat, i)
    ensures MatchIndicesFrom(s, pat, from) != []
    decreases |s| - from
  {
    if s[from..from + |pat|] != pat {
      assert from != i;
      MatchIndicesNonEmpty(s, pat, from + 1, i);
    }
  }

  function MatchIndices(s: string, pat: string): (r: seq<nat>)
    requires |pat| > 0
    ensures forall k :: 0 <= k < |r| ==> OccursAt(s, pat, r[k])
    ensures forall k :: 0 < k < |r| ==> r[k - 1] + |pat| <= r[k]
    ensures r == [] <==> !Contains(s, pat)
  {
    MatchIndicesFound(s, pat);
    MatchIndicesFrom(s, pat, 0)
  }

  /** Some match is reported exactly when the pattern occurs. */
  lemma MatchIndicesFound(s: string, pat: string)
    requires |pat| > 0
    ensures MatchIndicesFrom(s, pat, 0) == [] <==> !Contains(s, pat)
  {
    var r := MatchIndicesFrom(s, pat, 0);
    if Contains(s, pat) {
      var i: nat :| i <= |s| && OccursAt(s, pat, i);
      MatchIndicesNonEmpty(s, pat, 0, i);
    }
    if r != [] {
      assert OccursAt(s, pat, r[0]);
    }
  }
}
