/** The desert-map walker: nodes `E = (L, R)` are parsed from the lines after the
    direction line, and the walk starts at `AAA`, follows the left or the right
    neighbour as the directions say (repeating them from the start once they run
    out), and counts the moves until it stands on `ZZZ`. */
module HauntedWasteland {
  import opened Text

  /** A node of the map and the labels of its left and right neighbours. */
  datatype Node = Node(element: string, left: string, right: string)

  // ---------------------------------------------------------------------------
  // Parsing the nodes

  /** One node line: the label before `=`, then the two labels between the comma,
      each trimmed, the left one losing a leading `(` and the right one a trailing
      `)`; a line without `=`, or without a comma after it, panics on the missing
      piece. */
  function NodeOf(line: string): (r: Result<Node>)
    ensures r.Panic? ==> r.fault == IndexOutOfBounds
    ensures '=' !in line ==> r == Panic(IndexOutOfBounds)
    ensures r.Ok? <==> (|Split(line, '=')| >= 2 && ',' in Split(line, '=')[1])
  {
    SplitHasSep(line, '=');
    SplitHasSep(if |Split(line, '=')| >= 2 then Split(line, '=')[1] else "", ',');
    var firstSplit := Split(line, '=');
    var element := Trim(firstSplit[0]);
    var rest :- At(firstSplit, 1);
    var secondSplit := Split(rest, ',');
    var left := TrimPrefix(Trim(secondSplit[0]), "(");
    var right :- At(secondSplit, 1);
    Ok(Node(element, left, TrimSuffix(Trim(right), ")")))
  }

  /** The node lines of a map, each parsed in turn. */
  function NodesOf(lines: seq<string>): (rs: seq<Result<Node>>)
    ensures |rs| == |lines|
    ensures forall k :: 0 <= k < |lines| ==>
      (rs[k].Ok? <==> |Split(lines[k], '=')| >= 2 && ',' in Split(lines[k], '=')[1])
    ensures forall k :: 0 <= k < |lines| && '=' !in lines[k] ==> rs[k] == Panic(IndexOutOfBounds)
  {
    seq(|lines|, k requires 0 <= k < |lines| => NodeOf(lines[k]))
  }

  /** `parse_nodes`: one node per line, in the order of the lines; the first line that
      does not parse aborts. */
  method ParseNodes(nodeLines: seq<string>) returns (r: Result<seq<Node>>)
    ensures r == AllOk(NodesOf(nodeLines))
    ensures r.Ok? ==> |r.value| == |nodeLines|
    ensures r.Ok? ==> forall k :: 0 <= k < |nodeLines| ==> NodeOf(nodeLines[k]) == Ok(r.value[k])
  {
    var rs := NodesOf(nodeLines);
    var nodes: seq<Node> := [];
    for i := 0 to |nodeLines|
      invariant AllOk(rs[..i]) == Ok(nodes)
    {
      var n := NodeOf(nodeLines[i]);
      assert rs[i] == n;
      if n.Panic? {
        AllOkStop(rs, i);
        return Panic(n.fault);
      }
      AllOkStep(rs, i);
      nodes := nodes + [n.value];
    }
    assert rs[..|rs|] == rs;
    assert forall k :: 0 <= k < |rs| ==> rs[k] == NodeOf(nodeLines[k]);
    return Ok(nodes);
  }

  /** The characters of a label in the puzzle's maps. */
  predicate IsLabelChar(c: char) { 'A' <= c <= 'Z' || '0' <= c <= '9' }

  predicate IsLabel(w: string) { w != [] && forall k :: 0 <= k < |w| ==> IsLabelChar(w[k]) }

  /** The line that describes a node, `E = (L, R)`. */
  function LineOf(n: Node): string
  {
    n.element + " = (" + n.left + ", " + n.right + ")"
  }

  lemma LabelFree(w: string, c: char)
    requires IsLabel(w) && !IsLabelChar(c)
    ensures c !in w
  {
  }

  /** The two sides of a node line around its `=`. */
  lemma SplitAtEquals(n: Node)
    requires IsLabel(n.element) && IsLabel(n.left) && IsLabel(n.right)
    ensures Split(LineOf(n), '=') == [n.element + " ", " (" + n.left + ", " + n.right + ")"]
  {
    var a := n.element + " ";
    var b := " (" + n.left + ", " + n.right + ")";
    assert LineOf(n) == a + ['='] + b;
    LabelFree(n.element, '=');
    LabelFree(n.left, '=');
    LabelFree(n.right, '=');
    assert '=' !in a;
    assert '=' !in b;
    SplitPair(a, '=', b);
  }

  /** The two sides of a node's neighbour pair around its comma. */
  lemma SplitAtComma(l: string, r: string)
    requires IsLabel(l) && IsLabel(r)
    ensures Split(" (" + l + ", " + r + ")", ',') == [" (" + l, " " + r + ")"]
  {
    var a := " (" + l;
    var b := " " + r + ")";
    assert " (" + l + ", " + r + ")" == a + [','] + b;
    LabelFree(l, ',');
    LabelFree(r, ',');
    assert ',' !in a;
    assert ',' !in b;
    SplitPair(a, ',', b);
  }

  lemma LabelEnds(w: string)
    requires IsLabel(w)
    ensures !IsWhitespace(w[0]) && !IsWhitespace(w[|w| - 1])
  {
    assert IsLabelChar(w[0]) && IsLabelChar(w[|w| - 1]);
  }

  lemma TrimmedElement(e: string)
    requires IsLabel(e)
    ensures Trim(e + " ") == e
  {
    LabelEnds(e);
    TrimPadded("", e, " ");
    assert "" + e + " " == e + " ";
  }

  lemma TrimmedLeft(l: string)
    requires IsLabel(l)
    ensures TrimPrefix(Trim(" (" + l), "(") == l
  {
    LabelEnds(l);
    var x := "(" + l;
    assert x[|x| - 1] == l[|l| - 1];
    TrimPadded(" ", x, "");
    assert " " + x + "" == " (" + l;
    assert TrimPrefix(x, "(") == l;
  }

  lemma TrimmedRight(r: string)
    requires IsLabel(r)
    ensures TrimSuffix(Trim(" " + r + ")"), ")") == r
  {
    LabelEnds(r);
    var x := r + ")";
    assert x[0] == r[0];
    TrimPadded(" ", x, "");
    assert " " + x + "" == " " + r + ")";
    assert TrimSuffix(x, ")") == r;
  }

  /** Parsing the line of a node gives the node back. */
  lemma NodeOfLine(n: Node)
    requires IsLabel(n.element) && IsLabel(n.left) && IsLabel(n.right)
    ensures NodeOf(LineOf(n)) == Ok(n)
  {
    var firstSplit := Split(LineOf(n), '=');
    SplitAtEquals(n);
    TrimmedElement(n.element);
    assert At(firstSplit, 1) == Ok(" (" + n.left + ", " + n.right + ")");
    var secondSplit := Split(" (" + n.left + ", " + n.right + ")", ',');
    SplitAtComma(n.left, n.right);
    TrimmedLeft(n.left);
    TrimmedRight(n.right);
    assert At(secondSplit, 1) == Ok(" " + n.right + ")");
  }

  /** Parsing the lines of a list of nodes gives the list back. */
  lemma NodesRoundTrip(ns: seq<Node>)
    requires forall k :: 0 <= k < |ns| ==> IsLabel(ns[k].element) && IsLabel(ns[k].left) && IsLabel(ns[k].right)
    ensures AllOk(NodesOf(LinesOf(ns))) == Ok(ns)
  {
    var rs := NodesOf(LinesOf(ns));
    forall k | 0 <= k < |ns|
      ensures rs[k] == Ok(ns[k])
    {
      NodeOfLine(ns[k]);
    }
    AllOkEach(rs, ns);
  }

  function LinesOf(ns: seq<Node>): seq<string>
  {
    seq(|ns|, k requires 0 <= k < |ns| => LineOf(ns[k]))
  }

  // ---------------------------------------------------------------------------
  // Looking nodes up

  /** The node at `k` is the first one labelled `elem`. */
  predicate FirstAt(elem: string, nodes: seq<Node>, k: nat)
  {
    k < |nodes| && nodes[k].element == elem && forall j :: 0 <= j < k ==> nodes[j].element != elem
  }

  /** What `find_in_nodes` gives: the first node labelled `elem`, a panic if none is. */
  function Lookup(elem: string, nodes: seq<Node>): (r: Result<Node>)
    ensures r.Ok? <==> exists k :: 0 <= k < |nodes| && nodes[k].element == elem
    ensures r.Ok? ==> exists k: nat :: FirstAt(elem, nodes, k) && r.value == nodes[k]
    ensures r.Panic? ==> r.fault == NodeNotFound
  {
    if nodes == [] then Panic(NodeNotFound)
    else if nodes[0].element == elem then
      assert FirstAt(elem, nodes, 0);
      Ok(nodes[0])
    else
      var r := Lookup(elem, nodes[1..]);
      if r.Ok? then
        var k: nat :| FirstAt(elem, nodes[1..], k) && r.value == nodes[1..][k];
        assert FirstAt(elem, nodes, k + 1);
        r
      else
        assert forall k :: 1 <= k < |nodes| ==> nodes[k] == nodes[1..][k - 1];
        r
  }

  /** `find_in_nodes`: the linear search. */
  method FindInNodes(elem: string, nodes: seq<Node>) returns (r: Result<Node>)
    ensures r == Lookup(elem, nodes)
  {
    for i := 0 to |nodes|
      invariant Lookup(elem, nodes) == Lookup(elem, nodes[i..])
    {
      if nodes[i].element == elem {
        return Ok(nodes[i]);
      }
      assert nodes[i..][1..] == nodes[i + 1..];
    }
    return Panic(NodeNotFound);
  }

  // ---------------------------------------------------------------------------
  // The walk

  /** One move from `n` in direction `dir`. */
  function Move(n: Node, dir: char, nodes: seq<Node>): (r: Result<Node>)
    ensures r.Ok? ==> (dir == 'L' || dir == 'R')
    ensures r.Ok? ==> r.value.element == (if dir == 'L' then n.left else n.right) && r.value in nodes
    ensures r.Panic? ==> r.fault == (if dir == 'L' || dir == 'R' then NodeNotFound else InvalidDirection)
  {
    if dir == 'L' then Lookup(n.left, nodes)
    else if dir == 'R' then Lookup(n.right, nodes)
    else Panic(InvalidDirection)
  }

  /** The direction switch inside `solve`'s loop: one lookup of the chosen
      neighbour, or a panic on any byte other than `L` and `R`. */
  method Turn(n: Node, dir: char, nodes: seq<Node>) returns (r: Result<Node>)
    ensures r == Move(n, dir, nodes)
  {
    if dir == 'L' {
      r := FindInNodes(n.left, nodes);
    } else if dir == 'R' {
      r := FindInNodes(n.right, nodes);
    } else {
      r := Panic(InvalidDirection);
    }
  }

  /** Where the walk starts: reading the first direction, then finding `AAA`. */
  function Start(sequence: seq<char>, nodes: seq<Node>): (r: Result<Node>)
    ensures r.Ok? ==> |sequence| > 0 && r.value.element == "AAA" && r.value in nodes
  {
    if |sequence| == 0 then Panic(IndexOutOfBounds) else Lookup("AAA", nodes)
  }

  /** The direction of the move made after `k` moves: the directions repeat. */
  function Direction(sequence: seq<char>, k: nat): (d: char)
    requires |sequence| > 0
    ensures d in sequence
    ensures k < |sequence| ==> d == sequence[k]
    ensures k >= |sequence| ==> d == sequence[(k - |sequence|) % |sequence|]
  {
    if k >= |sequence| then
      ModShift(k, |sequence|);
      sequence[k % |sequence|]
    else
      ModSmall(k, |sequence|);
      sequence[k % |sequence|]
  }

  /** A number below the period is its own remainder. */
  lemma ModSmall(k: nat, n: nat)
    requires k < n
    ensures k % n == k
  {
    var q, r := k / n, k % n;
    assert k == q * n + r && 0 <= r < n;
    if q >= 1 {
      MulAtLeast(q, n);
    }
  }

  /** Taking one period off does not change the remainder. */
  lemma ModShift(k: nat, n: nat)
    requires 0 < n <= k
    ensures k % n == (k - n) % n
  {
    var q, r := (k - n) / n, (k - n) % n;
    var q', r' := k / n, k % n;
    assert k - n == q * n + r && 0 <= r < n;
    assert k == q' * n + r' && 0 <= r' < n;
    var a := q' - (q + 1);
    assert a * n == r - r' by {
      assert a * n == q' * n - q * n - n;
    }
    if a >= 1 {
      MulAtLeast(a, n);
    } else if a <= -1 {
      MulAtLeast(-a, n);
    }
  }

  lemma MulAtLeast(a: int, n: nat)
    requires a >= 1
    ensures a * n >= n
  {
    assert a * n == (a - 1) * n + n;
  }

  /** The node reached after `k` moves when the walk does not stop at `ZZZ`: move `j`
      follows direction `j mod |sequence|`. */
  function Visit(sequence: seq<char>, nodes: seq<Node>, k: nat): (r: Result<Node>)
    ensures r.Ok? ==> |sequence| > 0 && r.value in nodes
    ensures r.Ok? && k == 0 ==> r.value.element == "AAA"
    ensures r.Ok? ==> forall j: nat :: j < k ==> Visit(sequence, nodes, j).Ok?
  {
    if k == 0 then Start(sequence, nodes)
    else
      var n :- Visit(sequence, nodes, k - 1);
      Move(n, Direction(sequence, k - 1), nodes)
  }

  /** The walk reaches a position after `j` moves, and it is not `ZZZ`. */
  predicate Open(sequence: seq<char>, nodes: seq<Node>, j: nat)
  {
    Visit(sequence, nodes, j).Ok? && Visit(sequence, nodes, j).value.element != "ZZZ"
  }

  /** The first `n` positions of the walk exist and none of them is `ZZZ`. */
  ghost predicate Clear(sequence: seq<char>, nodes: seq<Node>, n: nat)
  {
    forall j: nat :: j < n ==> Open(sequence, nodes, j)
  }

  /** The walk first stands on `ZZZ` after `n` moves. */
  ghost predicate Arrives(sequence: seq<char>, nodes: seq<Node>, n: nat)
  {
    Clear(sequence, nodes, n) && Visit(sequence, nodes, n).Ok? && Visit(sequence, nodes, n).value.element == "ZZZ"
  }

  /** What `solve` gives when it may make at most `fuel` moves: the number of moves to
      the first `ZZZ`, `None` when the walk has not arrived after `fuel` moves, or the
      panic of the position where the walk broke off. */
  ghost predicate Solves(sequence: seq<char>, nodes: seq<Node>, fuel: nat, r: Result<Option<nat>>)
  {
    match r
    case Ok(Some(n)) => n <= fuel && Arrives(sequence, nodes, n)
    case Ok(None) => Clear(sequence, nodes, fuel + 1)
    case Panic(f) => exists n: nat :: n <= fuel && Clear(sequence, nodes, n) && Visit(sequence, nodes, n) == Panic(f)
  }

  /** The position after one more move. */
  lemma VisitNext(sequence: seq<char>, nodes: seq<Node>, k: nat, node: Node)
    requires Visit(sequence, nodes, k) == Ok(node)
    ensures |sequence| > 0
    ensures Visit(sequence, nodes, k + 1) == Move(node, Direction(sequence, k), nodes)
  {
  }

  /** `solve`, with at most `fuel` moves. */
  method Solve(sequence: seq<char>, nodes: seq<Node>, fuel: nat) returns (r: Result<Option<nat>>)
    ensures Solves(sequence, nodes, fuel, r)
  {
    assert Clear(sequence, nodes, 0);
    if |sequence| == 0 {
      assert Visit(sequence, nodes, 0) == Panic(IndexOutOfBounds);
      return Panic(IndexOutOfBounds);
    }
    var currentStep := sequence[0];
    assert Direction(sequence, 0) == currentStep by {
      assert 0 % |sequence| == 0;
    }
    var current := FindInNodes("AAA", nodes);
    if current.Panic? {
      assert Visit(sequence, nodes, 0) == Panic(current.fault);
      return Panic(current.fault);
    }
    var node := current.value;
    var steps: nat := 0;
    while true
      invariant steps <= fuel
      invariant Visit(sequence, nodes, steps) == Ok(node)
      invariant currentStep == Direction(sequence, steps)
      invariant Clear(sequence, nodes, steps)
      decreases fuel - steps
    {
      if node.element == "ZZZ" {
        return Ok(Some(steps));
      }
      assert Clear(sequence, nodes, steps + 1);
      if steps == fuel {
        return Ok(None);
      }
      var next := Turn(node, currentStep, nodes);
      VisitNext(sequence, nodes, steps, node);
      assert Visit(sequence, nodes, steps + 1) == next;
      if next.Panic? {
        return Panic(next.fault);
      }
      node := next.value;
      steps := steps + 1;
      currentStep := sequence[steps % |sequence|];
      assert currentStep == Direction(sequence, steps);
      assert Visit(sequence, nodes, steps) == Ok(node);
    }
  }

  /** A clear stretch of the walk ends no later than the first position that is
      missing or is `ZZZ`. */
  lemma ClearBefore(sequence: seq<char>, nodes: seq<Node>, n: nat, m: nat)
    requires Clear(sequence, nodes, m)
    requires !Open(sequence, nodes, n)
    ensures m <= n
  {
  }

  /** At most one number of moves is a first arrival. */
  lemma ArrivalUnique(sequence: seq<char>, nodes: seq<Node>, n: nat, m: nat)
    requires Arrives(sequence, nodes, n) && Arrives(sequence, nodes, m)
    ensures n == m
  {
    ClearBefore(sequence, nodes, n, m);
    ClearBefore(sequence, nodes, m, n);
  }

  /** The walk makes at least one move, since it starts on `AAA`. */
  lemma ArrivalAfterStart(sequence: seq<char>, nodes: seq<Node>, n: nat)
    requires Arrives(sequence, nodes, n)
    ensures n >= 1
  {
    var v := Visit(sequence, nodes, 0);
    assert v.Ok? ==> v.value.element != "ZZZ" by {
      assert "AAA"[0] != "ZZZ"[0];
    }
  }

  /** The outcome of a walk that stops after `s` moves: beyond the fuel it has not
      arrived, otherwise it arrived or broke off there. */
  ghost function StopOutcome(sequence: seq<char>, nodes: seq<Node>, fuel: nat, s: nat): Result<Option<nat>>
  {
    if s > fuel then Ok(None)
    else match Visit(sequence, nodes, s)
      case Ok(_) => Ok(Some(s))
      case Panic(f) => Panic(f)
  }

  /** Every outcome `solve` may have stops somewhere: the walk is clear up to there,
      and (within the fuel) the stop is missing or is `ZZZ`. */
  lemma StopOf(sequence: seq<char>, nodes: seq<Node>, fuel: nat, r: Result<Option<nat>>) returns (s: nat)
    requires Solves(sequence, nodes, fuel, r)
    ensures s <= fuel + 1 && Clear(sequence, nodes, s)
    ensures s > fuel || !Open(sequence, nodes, s)
    ensures r == StopOutcome(sequence, nodes, fuel, s)
  {
    match r
    case Ok(Some(n)) => s := n;
    case Ok(None) => s := fuel + 1;
    case Panic(f) => s :| s <= fuel && Clear(sequence, nodes, s) && Visit(sequence, nodes, s) == Panic(f);
  }

  /** The outcome `solve` may have is unique: whether it arrives, runs out of moves or
      panics, and with which count or fault. */
  lemma SolvesDeterministic(sequence: seq<char>, nodes: seq<Node>, fuel: nat, r1: Result<Option<nat>>, r2: Result<Option<nat>>)
    requires Solves(sequence, nodes, fuel, r1) && Solves(sequence, nodes, fuel, r2)
    ensures r1 == r2
  {
    var s1 := StopOf(sequence, nodes, fuel, r1);
    var s2 := StopOf(sequence, nodes, fuel, r2);
    assert s1 == s2;
  }

  /** Given at least as many moves as the walk needs, `solve` reports the arrival. */
  lemma EnoughFuel(sequence: seq<char>, nodes: seq<Node>, fuel: nat, n: nat, r: Result<Option<nat>>)
    requires Arrives(sequence, nodes, n) && n <= fuel
    requires Solves(sequence, nodes, fuel, r)
    ensures r == Ok(Some(n))
  {
    assert Solves(sequence, nodes, fuel, Ok(Some(n)));
    SolvesDeterministic(sequence, nodes, fuel, r, Ok(Some(n)));
  }

  // ---------------------------------------------------------------------------
  // The answer

  /** The direction sequence: the first line, trimmed. */
  function Directions(text: string): (d: seq<char>)
    ensures '\n' !in d
    ensures d == [] || (!IsWhitespace(d[0]) && !IsWhitespace(d[|d| - 1]))
  {
    TrimInside(Split(text, '\n')[0]);
    Trim(Split(text, '\n')[0])
  }

  /** The node lines: the lines after the first, without the empty ones. */
  function NodeLines(text: string): (ls: seq<string>)
    ensures forall k :: 0 <= k < |ls| ==> ls[k] != [] && '\n' !in ls[k]
    ensures |ls| <= |Split(text, '\n')| - 1
  {
    NonEmpty(Split(text, '\n')[1..])
  }

  /** `part_1` on a map's text, with at most `fuel` moves. */
  method Part1(text: string, fuel: nat) returns (r: Result<Option<nat>>)
    ensures AllOk(NodesOf(NodeLines(text))).Panic? ==> r == Panic(AllOk(NodesOf(NodeLines(text))).fault)
    ensures AllOk(NodesOf(NodeLines(text))).Ok? ==> Solves(Directions(text), AllOk(NodesOf(NodeLines(text))).value, fuel, r)
  {
    var lines := Split(text, '\n');
    var sequence := Trim(lines[0]);
    var nodeLines := NonEmpty(lines[1..]);
    var nodes := ParseNodes(nodeLines);
    if nodes.Panic? {
      return Panic(nodes.fault);
    }
    r := Solve(sequence, nodes.value, fuel);
  }

  /** No node line is empty or holds a line break. */
  lemma LinesOfLabels(ns: seq<Node>)
    requires forall k :: 0 <= k < |ns| ==> IsLabel(ns[k].element) && IsLabel(ns[k].left) && IsLabel(ns[k].right)
    ensures forall k :: 0 <= k < |ns| ==> LinesOf(ns)[k] != [] && '\n' !in LinesOf(ns)[k]
  {
    forall k | 0 <= k < |ns|
      ensures LinesOf(ns)[k] != [] && '\n' !in LinesOf(ns)[k]
    {
      LabelFree(ns[k].element, '\n');
      LabelFree(ns[k].left, '\n');
      LabelFree(ns[k].right, '\n');
    }
  }

  /** The lines of a map written as its direction line, an empty line and the node
      lines. */
  lemma LayoutLines(dirs: string, ns: seq<Node>)
    requires '\n' !in dirs && ns != []
    requires forall k :: 0 <= k < |ns| ==> '\n' !in LinesOf(ns)[k]
    ensures Split(dirs + "\n\n" + Join(LinesOf(ns), "\n"), '\n') == [dirs, ""] + LinesOf(ns)
  {
    var parts := [dirs, ""] + LinesOf(ns);
    assert parts[1..][1..] == LinesOf(ns);
    assert Join(parts, "\n") == dirs + "\n\n" + Join(LinesOf(ns), "\n");
    SplitJoin(parts, '\n');
  }

  /** A map written as its direction line, an empty line and one line per node is read
      back as those directions and those nodes. */
  lemma MapLayout(dirs: string, ns: seq<Node>)
    requires ns != []
    requires dirs != [] && '\n' !in dirs && !IsWhitespace(dirs[0]) && !IsWhitespace(dirs[|dirs| - 1])
    requires forall k :: 0 <= k < |ns| ==> IsLabel(ns[k].element) && IsLabel(ns[k].left) && IsLabel(ns[k].right)
    ensures Directions(dirs + "\n\n" + Join(LinesOf(ns), "\n")) == dirs
    ensures AllOk(NodesOf(NodeLines(dirs + "\n\n" + Join(LinesOf(ns), "\n")))) == Ok(ns)
  {
    var text := dirs + "\n\n" + Join(LinesOf(ns), "\n");
    LinesOfLabels(ns);
    LayoutLines(dirs, ns);
    LayoutDirections(dirs, Split(text, '\n'));
    LayoutNodeLines(ns, Split(text, '\n')[1..]);
    NodesRoundTrip(ns);
  }

  lemma LayoutDirections(dirs: string, lines: seq<string>)
    requires dirs != [] && !IsWhitespace(dirs[0]) && !IsWhitespace(dirs[|dirs| - 1])
    requires lines != [] && lines[0] == dirs
    ensures Trim(lines[0]) == dirs
  {
    TrimPadded("", dirs, "");
    assert "" + dirs + "" == dirs;
  }

  lemma LayoutNodeLines(ns: seq<Node>, after: seq<string>)
    requires forall k :: 0 <= k < |ns| ==> IsLabel(ns[k].element) && IsLabel(ns[k].left) && IsLabel(ns[k].right)
    requires after == [""] + LinesOf(ns)
    ensures NonEmpty(after) == LinesOf(ns)
  {
    assert after[1..] == LinesOf(ns);
    NonEmptyKeepsAll(LinesOf(ns));
  }
}
