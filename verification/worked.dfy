/** Small puzzles evaluated on the model: a single-traveller walk that
    needs two passes over its directions, and a lock-step walk of two
    tokens. */
module WorkedExamples {
  import opened Strings
  import opened Results
  import opened Network
  import opened Traversal
  import PartOne
  import PartTwo

  /** On padded three-letter names a successor is found by its exact name. */
  lemma Lookup(nodes: seq<Node>, q: string, j: nat)
    requires PaddedNames(nodes, 3) && |q| == 3 && ' ' !in q
    requires j < |nodes| && nodes[j].name == q + " "
    ensures FindIndexOf(q, nodes) == j
  {
    FindIsExactForPaddedNames(nodes, 3, q);
  }

  /** On a padded three-letter name the "ZZZ" test is an equality test. */
  lemma ZTest(name: string)
    requires |name| == 4 && name[3] == ' '
    ensures Contains(name, "ZZZ") <==> name[..3] == "ZZZ"
  {
    assert name == name[..3] + [' '];
    PaddedContainsIsEquality(name[..3], ' ', "ZZZ");
  }

  const TwoPassNodes: seq<Node> := [
    Node("AAA ", "BBB", "BBB"), Node("BBB ", "AAA", "ZZZ"), Node("ZZZ ", "ZZZ", "ZZZ")]

  lemma TwoPassClosed()
    ensures Closed(TwoPassNodes) && PaddedNames(TwoPassNodes, 3)
  {
  }

  /** With "LLR" the walk needs two passes: AAA, BBB, AAA, BBB, AAA, BBB, ZZZ. */
  lemma PartOneTwoPasses()
    ensures Closed(TwoPassNodes) && PartOne.Solve(TwoPassNodes, "LLR", 10) == Finished(6)
  {
    TwoPassClosed();
    Lookup(TwoPassNodes, "AAA", 0);
    Lookup(TwoPassNodes, "BBB", 1);
    Lookup(TwoPassNodes, "ZZZ", 2);
    ZTest(TwoPassNodes[0].name);
    assert TwoPassNodes[0].name[..3] != "ZZZ" by { assert TwoPassNodes[0].name[0] != 'Z'; }
    ZTest(TwoPassNodes[1].name);
    assert TwoPassNodes[1].name[..3] != "ZZZ" by { assert TwoPassNodes[1].name[0] != 'Z'; }
    ZTest(TwoPassNodes[2].name);
    assert Cursor("LLR", 0) == 'L' && Cursor("LLR", 1) == 'L' && Cursor("LLR", 2) == 'R';
    assert Cursor("LLR", 3) == 'L' && Cursor("LLR", 4) == 'L' && Cursor("LLR", 5) == 'R';
    var w := PartOne.Walk(TwoPassNodes, "LLR", 1, 5, 5, 5);
    assert w == Finished(6);
    assert PartOne.Walk(TwoPassNodes, "LLR", 0, 4, 4, 6) == w;
    assert PartOne.Walk(TwoPassNodes, "LLR", 1, 3, 3, 7) == w;
    assert PartOne.Walk(TwoPassNodes, "LLR", 0, 2, 2, 8) == w;
    assert PartOne.Walk(TwoPassNodes, "LLR", 1, 1, 1, 9) == w;
  }

  const TwoTokenNodes: seq<Node> := [
    Node("11A ", "11Z", "11Z"), Node("11Z ", "11Z", "11Z"),
    Node("22A ", "22B", "22B"), Node("22B ", "22Z", "22Z"), Node("22Z ", "22B", "22B")]

  lemma TwoTokenPadded()
    ensures PaddedNames(TwoTokenNodes, 3) && PartTwo.LongNames(TwoTokenNodes)
  {
  }

  lemma TwoTokenClosed()
    ensures Closed(TwoTokenNodes)
  {
  }

  lemma TwoTokenStarts()
    ensures PartTwo.LongNames(TwoTokenNodes) && PartTwo.Starts(TwoTokenNodes) == [0, 2]
  {
    TwoTokenPadded();
    assert PartTwo.StartsFrom(TwoTokenNodes, 5) == [];
    assert PartTwo.StartsFrom(TwoTokenNodes, 4) == [];
    assert PartTwo.StartsFrom(TwoTokenNodes, 3) == [];
    assert PartTwo.StartsFrom(TwoTokenNodes, 2) == [2];
    assert PartTwo.StartsFrom(TwoTokenNodes, 1) == [2];
    assert PartTwo.StartsFrom(TwoTokenNodes, 0) == [0, 2];
  }

  /** A two-token tick moves both tokens. */
  lemma TickPair(nodes: seq<Node>, a: nat, b: nat, c: char, a': nat, b': nat)
    requires Closed(nodes) && a < |nodes| && b < |nodes|
    requires Move(nodes, a, c) == a' && Move(nodes, b, c) == b'
    ensures PartTwo.Tick(nodes, [a, b], c) == [a', b']
  {
  }

  /** One move on the two-token network's padded names, found by exact name. */
  lemma TwoTokenMove(p: nat, c: char, q: nat)
    requires p < |TwoTokenNodes| && q < |TwoTokenNodes| && (c == 'L' || c == 'R')
    requires TwoTokenNodes[q].name == (if c == 'L' then TwoTokenNodes[p].left else TwoTokenNodes[p].right) + " "
    ensures Closed(TwoTokenNodes) && Move(TwoTokenNodes, p, c) == q
  {
    TwoTokenClosed();
    TwoTokenPadded();
    var b := if c == 'L' then TwoTokenNodes[p].left else TwoTokenNodes[p].right;
    assert |b| == 3 && ' ' !in b;
    Lookup(TwoTokenNodes, b, q);
  }

  /** One iteration of the part-two loop that does not finish. */
  lemma WalkOn(nodes: seq<Node>, dirs: string, ts: seq<nat>, steps: nat, fuel: nat, ts': seq<nat>)
    requires Closed(nodes) && PartTwo.LongNames(nodes) && PartTwo.InRange(nodes, ts) && |dirs| > 0
    requires fuel > 0
    requires PartTwo.Tick(nodes, ts, Cursor(dirs, steps)) == ts'
    requires !PartTwo.AllAtGoal(nodes, ts')
    ensures PartTwo.Walk(nodes, dirs, ts, steps, fuel) == PartTwo.Walk(nodes, dirs, ts', steps + 1, fuel - 1)
  {
  }

  /** A token off the goal names makes the all-'Z' test fail. */
  lemma NotAllAtGoal(nodes: seq<Node>, ts: seq<nat>, j: nat)
    requires PartTwo.LongNames(nodes) && PartTwo.InRange(nodes, ts)
    requires j < |ts| && nodes[ts[j]].name[2] != 'Z'
    ensures !PartTwo.AllAtGoal(nodes, ts)
  {
  }

  lemma TwoTokenFirstTick()
    ensures Closed(TwoTokenNodes) && PartTwo.Tick(TwoTokenNodes, [0, 2], 'L') == [1, 3]
  {
    TwoTokenMove(0, 'L', 1);
    TwoTokenMove(2, 'L', 3);
    TickPair(TwoTokenNodes, 0, 2, 'L', 1, 3);
  }

  lemma TwoTokenSecondTick()
    ensures Closed(TwoTokenNodes) && PartTwo.Tick(TwoTokenNodes, [1, 3], 'R') == [1, 4]
  {
    TwoTokenMove(1, 'R', 1);
    TwoTokenMove(3, 'R', 4);
    TickPair(TwoTokenNodes, 1, 3, 'R', 1, 4);
  }

  lemma TwoTokenGoals()
    ensures PartTwo.LongNames(TwoTokenNodes)
    ensures !PartTwo.AllAtGoal(TwoTokenNodes, [1, 3]) && PartTwo.AllAtGoal(TwoTokenNodes, [1, 4])
  {
    TwoTokenPadded();
    NotAllAtGoal(TwoTokenNodes, [1, 3], 1);
  }

  /** Tokens start at 11A and 22A. The first reaches 11Z after one
      tick and stays; the second needs two ticks (22B, then 22Z), so the
      answer is 2. */
  lemma PartTwoTwoTokens()
    ensures Closed(TwoTokenNodes) && PartTwo.Solve(TwoTokenNodes, "LR", 5) == Finished(2)
  {
    TwoTokenStarts();
    TwoTokenFirstTick();
    TwoTokenSecondTick();
    TwoTokenGoals();
    var d := "LR";
    assert Cursor(d, 0) == 'L' && Cursor(d, 1) == 'R';
    WalkOn(TwoTokenNodes, d, [0, 2], 0, 5, [1, 3]);
    assert PartTwo.Walk(TwoTokenNodes, d, [1, 3], 1, 4) == Finished(2);
  }
}
