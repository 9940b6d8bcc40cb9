/** Part one: a single traveller from the node found for "AAA" until a
    node whose name contains "ZZZ" (the first branch of main). */
module PartOne {
  import opened Strings
  import opened Network
  import opened Results
  import opened Traversal

  /** After the k-th character (counting from 1) the traveller stands on a
      node whose name contains "ZZZ". The start itself is never checked. */
  predicate StopsAt(nodes: seq<Node>, dirs: string, start: nat, k: nat)
    requires Closed(nodes) && start < |nodes| && |dirs| > 0
  {
    k >= 1 && Contains(nodes[Run(nodes, dirs, start, 0, k)].name, "ZZZ")
  }

  /** Character k is the first after character `after` that stops the walk. */
  predicate FirstStopAfter(nodes: seq<Node>, dirs: string, start: nat, after: nat, k: nat)
    requires Closed(nodes) && start < |nodes| && |dirs| > 0
  {
    after < k && StopsAt(nodes, dirs, start, k)
    && forall j :: after < j < k ==> !StopsAt(nodes, dirs, start, j)
  }

  /** The source's loop from the state (position p, counter steps,
      characters consumed k), allowed `fuel` more characters. Each
      character is applied, counted when it is 'L' or 'R', and followed by
      the "ZZZ" test. */
  function Walk(nodes: seq<Node>, dirs: string, p: nat, steps: nat, k: nat, fuel: nat): (o: Outcome)
    requires Closed(nodes) && p < |nodes| && |dirs| > 0
    ensures !o.Crashed?
    ensures o.Finished? ==> steps <= o.steps <= steps + fuel
    decreases fuel
  {
    if fuel == 0 then Unfinished
    else
      var c := Cursor(dirs, k);
      var q := Move(nodes, p, c);
      var s := if Counted(c) then steps + 1 else steps;
      if Contains(nodes[q].name, "ZZZ") then Finished(s)
      else Walk(nodes, dirs, q, s, k + 1, fuel - 1)
  }

  /** The state the loop is in after k characters. */
  function WalkFrom(nodes: seq<Node>, dirs: string, start: nat, k: nat, fuel: nat): Outcome
    requires Closed(nodes) && start < |nodes| && |dirs| > 0
  {
    Walk(nodes, dirs, Run(nodes, dirs, start, 0, k), Counter(dirs, 0, k), k, fuel)
  }

  /** One iteration of the loop takes the state after k characters to the
      state after k + 1. */
  lemma WalkUnfold(nodes: seq<Node>, dirs: string, start: nat, k: nat, fuel: nat)
    requires Closed(nodes) && start < |nodes| && |dirs| > 0 && fuel > 0
    ensures WalkFrom(nodes, dirs, start, k, fuel)
         == if StopsAt(nodes, dirs, start, k + 1) then Finished(Counter(dirs, 0, k + 1))
            else WalkFrom(nodes, dirs, start, k + 1, fuel - 1)
  {
    StepOnce(nodes, dirs, start, 0, k);
  }

  /** No verdict within the bound exactly when no character within it stops. */
  lemma {:induction false} WalkUnfinishedIffNoStop(nodes: seq<Node>, dirs: string, start: nat, k: nat, fuel: nat)
    requires Closed(nodes) && start < |nodes| && |dirs| > 0
    ensures WalkFrom(nodes, dirs, start, k, fuel).Unfinished?
        <==> forall j :: k < j <= k + fuel ==> !StopsAt(nodes, dirs, start, j)
    decreases fuel
  {
    if fuel > 0 {
      WalkUnfold(nodes, dirs, start, k, fuel);
      if StopsAt(nodes, dirs, start, k + 1) {
        assert WalkFrom(nodes, dirs, start, k, fuel).Finished?;
      } else {
        assert WalkFrom(nodes, dirs, start, k, fuel) == WalkFrom(nodes, dirs, start, k + 1, fuel - 1);
        WalkUnfinishedIffNoStop(nodes, dirs, start, k + 1, fuel - 1);
      }
    }
  }

  /** A verdict is the counter value at the first stopping character. */
  lemma {:induction false} WalkFinishesAtFirstStop(nodes: seq<Node>, dirs: string, start: nat, k: nat, fuel: nat)
    requires Closed(nodes) && start < |nodes| && |dirs| > 0
    requires WalkFrom(nodes, dirs, start, k, fuel).Finished?
    ensures exists m: nat :: m <= k + fuel && FirstStopAfter(nodes, dirs, start, k, m)
                             && WalkFrom(nodes, dirs, start, k, fuel).steps == Counter(dirs, 0, m)
    decreases fuel
  {
    WalkUnfold(nodes, dirs, start, k, fuel);
    if StopsAt(nodes, dirs, start, k + 1) {
      assert WalkFrom(nodes, dirs, start, k, fuel).steps == Counter(dirs, 0, k + 1);
      assert FirstStopAfter(nodes, dirs, start, k, k + 1);
    } else {
      assert WalkFrom(nodes, dirs, start, k, fuel) == WalkFrom(nodes, dirs, start, k + 1, fuel - 1);
      WalkFinishesAtFirstStop(nodes, dirs, start, k + 1, fuel - 1);
      var m: nat :| m <= k + fuel && FirstStopAfter(nodes, dirs, start, k + 1, m)
                    && WalkFrom(nodes, dirs, start, k + 1, fuel - 1).steps == Counter(dirs, 0, m);
      assert FirstStopAfter(nodes, dirs, start, k, m);
    }
  }

  /** Two first stops after the same point are the same character. */
  lemma FirstStopUnique(nodes: seq<Node>, dirs: string, start: nat, after: nat, k: nat, m: nat)
    requires Closed(nodes) && start < |nodes| && |dirs| > 0
    requires FirstStopAfter(nodes, dirs, start, after, k)
    requires FirstStopAfter(nodes, dirs, start, after, m)
    ensures k == m
  {
  }

  /** Part one with at most `fuel` characters consumed. An empty direction
      string keeps the outer loop spinning without ever testing; otherwise a
      missing "AAA" throws at the first lookup. */
  function Solve(nodes: seq<Node>, dirs: string, fuel: nat): (o: Outcome)
    requires Closed(nodes)
    ensures |dirs| == 0 ==> o == Unfinished
    ensures |dirs| > 0 && FindIndexOf("AAA", nodes) < 0 ==> o == Crashed(MissingNode("AAA"))
  {
    if |dirs| == 0 then Unfinished
    else
      var start := FindIndexOf("AAA", nodes);
      if start < 0 then Crashed(MissingNode("AAA"))
      else
        Walk(nodes, dirs, start, 0, 0, fuel)
  }

  /** The answer is the counter value at the first character after which
      the traveller's node name contains "ZZZ"; no earlier character stops
      the walk; and without such a character within `fuel` there is no
      answer yet. */
  lemma SolveIsFirstStop(nodes: seq<Node>, dirs: string, fuel: nat, n: nat)
    requires Closed(nodes) && |dirs| > 0 && FindIndexOf("AAA", nodes) >= 0
    ensures var start := FindIndexOf("AAA", nodes);
      && (Solve(nodes, dirs, fuel) == Finished(n) <==>
            exists k :: 1 <= k <= fuel && FirstStopAfter(nodes, dirs, start, 0, k)
                        && n == Counter(dirs, 0, k))
      && (Solve(nodes, dirs, fuel) == Unfinished <==>
            forall k :: 1 <= k <= fuel ==> !StopsAt(nodes, dirs, start, k))
  {
    var start := FindIndexOf("AAA", nodes);
    var o := Solve(nodes, dirs, fuel);
    assert o == WalkFrom(nodes, dirs, start, 0, fuel);
    WalkUnfinishedIffNoStop(nodes, dirs, start, 0, fuel);
    if o.Finished? {
      WalkFinishesAtFirstStop(nodes, dirs, start, 0, fuel);
    }
    if exists k :: 1 <= k <= fuel && FirstStopAfter(nodes, dirs, start, 0, k) && n == Counter(dirs, 0, k) {
      var k :| 1 <= k <= fuel && FirstStopAfter(nodes, dirs, start, 0, k) && n == Counter(dirs, 0, k);
      assert !o.Unfinished?;
      var m: nat :| m <= fuel && FirstStopAfter(nodes, dirs, start, 0, m) && o.steps == Counter(dirs, 0, m);
      FirstStopUnique(nodes, dirs, start, 0, k, m);
    }
  }

  /** A larger bound does not change an answer already found. */
  lemma SolveIgnoresExtraFuel(nodes: seq<Node>, dirs: string, fuel: nat, more: nat, n: nat)
    requires Closed(nodes)
    requires Solve(nodes, dirs, fuel) == Finished(n)
    requires fuel <= more
    ensures Solve(nodes, dirs, more) == Finished(n)
  {
    var start := FindIndexOf("AAA", nodes);
    SolveIsFirstStop(nodes, dirs, fuel, n);
    SolveIsFirstStop(nodes, dirs, more, n);
  }

  /** With a direction string of 'L' and 'R' only, the counter equals the
      number of characters consumed, so the answer is at least 1 even when
      the "AAA" node's own name contains "ZZZ", and it is the number of
      the first stopping step. */
  lemma SolveOverLeftRight(nodes: seq<Node>, dirs: string, fuel: nat, n: nat)
    requires Closed(nodes) && |dirs| > 0 && FindIndexOf("AAA", nodes) >= 0
    requires forall k :: 0 <= k < |dirs| ==> Counted(dirs[k])
    requires Solve(nodes, dirs, fuel) == Finished(n)
    ensures 1 <= n
    ensures FirstStopAfter(nodes, dirs, FindIndexOf("AAA", nodes), 0, n)
  {
    var start := FindIndexOf("AAA", nodes);
    SolveIsFirstStop(nodes, dirs, fuel, n);
    var k :| 1 <= k <= fuel && FirstStopAfter(nodes, dirs, start, 0, k) && n == Counter(dirs, 0, k);
    CounterOfCountedDirections(dirs, 0, k);
  }

  /** A first character other than 'L' or 'R' leaves the traveller in
      place without counting, and the test that follows it does look at the
      start: a start whose name contains "ZZZ" then gives 0. */
  lemma SolveUncountedFirstCharacter(nodes: seq<Node>, dirs: string, fuel: nat)
    requires Closed(nodes) && |dirs| > 0 && fuel >= 1
    requires FindIndexOf("AAA", nodes) >= 0
    requires !Counted(dirs[0])
    requires Contains(nodes[FindIndexOf("AAA", nodes)].name, "ZZZ")
    ensures Solve(nodes, dirs, fuel) == Finished(0)
  {
  }
}
