/** Part two: every node whose third character is 'A' starts a token; all
    tokens take the same direction on each tick, and the shared counter
    goes up once per tick until every token's third character is 'Z'
    (the second branch of main). */
module PartTwo {
  import opened Network
  import opened Results
  import opened Traversal

  /** Every name has a third character, so charAt(2) never throws. */
  predicate LongNames(nodes: seq<Node>) {
    forall i :: 0 <= i < |nodes| ==> |nodes[i].name| >= 3
  }

  /** Index of the first name too short for charAt(2), or -1. */
  function FirstShortName(nodes: seq<Node>, i: nat): (r: int)
    requires i <= |nodes|
    ensures r == -1 || (i <= r < |nodes| && |nodes[r].name| < 3)
    ensures forall j :: i <= j < |nodes| && (r == -1 || j < r) ==> |nodes[j].name| >= 3
    decreases |nodes| - i
  {
    if i == |nodes| then -1
    else if |nodes[i].name| < 3 then i
    else FirstShortName(nodes, i + 1)
  }

  /** Every token designates a node. */
  predicate InRange(nodes: seq<Node>, ts: seq<nat>) {
    forall j :: 0 <= j < |ts| ==> ts[j] < |nodes|
  }

  /** The start-selection loop from position i: the indices of the names
      whose third character is 'A', in list order. */
  function StartsFrom(nodes: seq<Node>, i: nat): (ts: seq<nat>)
    requires LongNames(nodes) && i <= |nodes|
    ensures forall j :: 0 <= j < |ts| ==> i <= ts[j] < |nodes|
    decreases |nodes| - i
  {
    if i == |nodes| then []
    else (if nodes[i].name[2] == 'A' then [i] else []) + StartsFrom(nodes, i + 1)
  }

  /** The tokens from index i on are exactly the 'A' nodes there, in
      increasing index order. */
  lemma {:induction false} StartsFromAreTheANodes(nodes: seq<Node>, i: nat)
    requires LongNames(nodes) && i <= |nodes|
    ensures forall j :: 0 <= j < |StartsFrom(nodes, i)| ==> nodes[StartsFrom(nodes, i)[j]].name[2] == 'A'
    ensures forall k :: i <= k < |nodes| && nodes[k].name[2] == 'A' ==> k in StartsFrom(nodes, i)
    ensures forall a, b :: 0 <= a < b < |StartsFrom(nodes, i)| ==> StartsFrom(nodes, i)[a] < StartsFrom(nodes, i)[b]
    decreases |nodes| - i
  {
    if i < |nodes| {
      StartsFromAreTheANodes(nodes, i + 1);
    }
  }

  /** The initial tokens. */
  function Starts(nodes: seq<Node>): (ts: seq<nat>)
    requires LongNames(nodes)
    ensures InRange(nodes, ts)
    ensures forall j :: 0 <= j < |ts| ==> nodes[ts[j]].name[2] == 'A'
    ensures forall k :: 0 <= k < |nodes| && nodes[k].name[2] == 'A' ==> k in ts
    ensures forall a, b :: 0 <= a < b < |ts| ==> ts[a] < ts[b]
  {
    StartsFromAreTheANodes(nodes, 0);
    StartsFrom(nodes, 0)
  }

  /** One tick of the inner loop: every token takes the same character;
      tokens are overwritten in place. */
  function Tick(nodes: seq<Node>, ts: seq<nat>, c: char): (ts': seq<nat>)
    requires Closed(nodes) && InRange(nodes, ts)
    ensures |ts'| == |ts| && InRange(nodes, ts')
  {
    seq(|ts|, j requires 0 <= j < |ts| => Move(nodes, ts[j], c))
  }

  /** The tokens after n ticks, the first of them at cursor i. */
  function Ticks(nodes: seq<Node>, dirs: string, ts: seq<nat>, i: nat, n: nat): (ts': seq<nat>)
    requires Closed(nodes) && InRange(nodes, ts) && |dirs| > 0
    ensures |ts'| == |ts| && InRange(nodes, ts')
    decreases n
  {
    if n == 0 then ts else Ticks(nodes, dirs, Tick(nodes, ts, Cursor(dirs, i)), i + 1, n - 1)
  }

  /** Lock-step: after n ticks each token stands exactly where a lone
      traveller from its start would stand after the same n characters. */
  lemma {:induction false} TicksAreLockStep(nodes: seq<Node>, dirs: string, ts: seq<nat>, i: nat, n: nat)
    requires Closed(nodes) && InRange(nodes, ts) && |dirs| > 0
    ensures forall j :: 0 <= j < |ts| ==> Ticks(nodes, dirs, ts, i, n)[j] == Run(nodes, dirs, ts[j], i, n)
    decreases n
  {
    if n > 0 {
      var c := Cursor(dirs, i);
      TicksAreLockStep(nodes, dirs, Tick(nodes, ts, c), i + 1, n - 1);
    }
  }

  /** Every token's node has 'Z' as its third character. */
  predicate AllAtGoal(nodes: seq<Node>, ts: seq<nat>)
    requires LongNames(nodes) && InRange(nodes, ts)
  {
    forall j :: 0 <= j < |ts| ==> nodes[ts[j]].name[2] == 'Z'
  }

  /** After tick t (counting from 1) all tokens are at goal nodes. */
  predicate DoneAt(nodes: seq<Node>, dirs: string, t: nat)
    requires Closed(nodes) && LongNames(nodes) && |dirs| > 0
  {
    t >= 1 && AllAtGoal(nodes, Ticks(nodes, dirs, Starts(nodes), 0, t))
  }

  /** The done test read per traveller: tick t finishes the walk exactly
      when every start, walked alone for t characters, reaches a name with
      'Z' third. */
  lemma DoneAtPerTraveller(nodes: seq<Node>, dirs: string, t: nat)
    requires Closed(nodes) && LongNames(nodes) && |dirs| > 0
    ensures var ss := Starts(nodes);
      DoneAt(nodes, dirs, t) <==>
        t >= 1 && forall j :: 0 <= j < |ss| ==> nodes[Run(nodes, dirs, ss[j], 0, t)].name[2] == 'Z'
  {
    TicksAreLockStep(nodes, dirs, Starts(nodes), 0, t);
  }

  /** The loop from tokens ts with shared counter `steps`, allowed `fuel`
      more ticks. The inner loop index always equals the counter modulo
      |dirs|, so the counter selects the character. */
  function Walk(nodes: seq<Node>, dirs: string, ts: seq<nat>, steps: nat, fuel: nat): (o: Outcome)
    requires Closed(nodes) && LongNames(nodes) && InRange(nodes, ts) && |dirs| > 0
    ensures !o.Crashed?
    ensures o.Finished? ==> steps < o.steps <= steps + fuel
    decreases fuel
  {
    if fuel == 0 then Unfinished
    else
      var ts' := Tick(nodes, ts, Cursor(dirs, steps));
      if AllAtGoal(nodes, ts') then Finished(steps + 1)
      else Walk(nodes, dirs, ts', steps + 1, fuel - 1)
  }

  /** The loop's state after t ticks. */
  function WalkFrom(nodes: seq<Node>, dirs: string, t: nat, fuel: nat): Outcome
    requires Closed(nodes) && LongNames(nodes) && |dirs| > 0
  {
    Walk(nodes, dirs, Ticks(nodes, dirs, Starts(nodes), 0, t), t, fuel)
  }

  lemma {:induction false} TicksStep(nodes: seq<Node>, dirs: string, ts: seq<nat>, i: nat, n: nat)
    requires Closed(nodes) && InRange(nodes, ts) && |dirs| > 0
    ensures Ticks(nodes, dirs, ts, i, n + 1) == Tick(nodes, Ticks(nodes, dirs, ts, i, n), Cursor(dirs, i + n))
    decreases n
  {
    if n > 0 {
      TicksStep(nodes, dirs, Tick(nodes, ts, Cursor(dirs, i)), i + 1, n - 1);
    }
  }

  lemma WalkUnfold(nodes: seq<Node>, dirs: string, t: nat, fuel: nat)
    requires Closed(nodes) && LongNames(nodes) && |dirs| > 0 && fuel > 0
    ensures WalkFrom(nodes, dirs, t, fuel)
         == if DoneAt(nodes, dirs, t + 1) then Finished(t + 1) else WalkFrom(nodes, dirs, t + 1, fuel - 1)
  {
    TicksStep(nodes, dirs, Starts(nodes), 0, t);
  }

  lemma {:induction false} WalkUnfinishedIffNeverDone(nodes: seq<Node>, dirs: string, t: nat, fuel: nat)
    requires Closed(nodes) && LongNames(nodes) && |dirs| > 0
    ensures WalkFrom(nodes, dirs, t, fuel).Unfinished?
        <==> forall u :: t < u <= t + fuel ==> !DoneAt(nodes, dirs, u)
    decreases fuel
  {
    if fuel > 0 {
      WalkUnfold(nodes, dirs, t, fuel);
      if DoneAt(nodes, dirs, t + 1) {
        assert WalkFrom(nodes, dirs, t, fuel) == Finished(t + 1);
      } else {
        assert WalkFrom(nodes, dirs, t, fuel) == WalkFrom(nodes, dirs, t + 1, fuel - 1);
        WalkUnfinishedIffNeverDone(nodes, dirs, t + 1, fuel - 1);
      }
    }
  }

  lemma {:induction false} WalkFinishesAtFirstDone(nodes: seq<Node>, dirs: string, t: nat, fuel: nat)
    requires Closed(nodes) && LongNames(nodes) && |dirs| > 0
    requires WalkFrom(nodes, dirs, t, fuel).Finished?
    ensures var n := WalkFrom(nodes, dirs, t, fuel).steps;
      && t < n <= t + fuel && DoneAt(nodes, dirs, n)
      && forall u :: t < u < n ==> !DoneAt(nodes, dirs, u)
    decreases fuel
  {
    WalkUnfold(nodes, dirs, t, fuel);
    if !DoneAt(nodes, dirs, t + 1) {
      assert WalkFrom(nodes, dirs, t, fuel) == WalkFrom(nodes, dirs, t + 1, fuel - 1);
      WalkFinishesAtFirstDone(nodes, dirs, t + 1, fuel - 1);
    }
  }

  /** Part two with at most `fuel` ticks. The start selection reads the
      third character of every name before anything else happens; an empty
      direction string then spins the outer loop forever. */
  function Solve(nodes: seq<Node>, dirs: string, fuel: nat): (o: Outcome)
    requires Closed(nodes)
    ensures !LongNames(nodes) <==> o.Crashed?
    ensures o.Crashed? ==> o.fault.ShortName? && o.fault.index < |nodes| && |nodes[o.fault.index].name| < 3
                           && forall j :: 0 <= j < o.fault.index ==> |nodes[j].name| >= 3
    ensures LongNames(nodes) && |dirs| == 0 ==> o == Unfinished
  {
    var short := FirstShortName(nodes, 0);
    if short >= 0 then Crashed(ShortName(short))
    else if |dirs| == 0 then Unfinished
    else
      Walk(nodes, dirs, Starts(nodes), 0, fuel)
  }

  /** The answer is the first tick after which every token is at a goal
      node, and no earlier tick is; no verdict within `fuel` ticks means no
      tick up to `fuel` is. */
  lemma SolveIsFirstDoneTick(nodes: seq<Node>, dirs: string, fuel: nat, n: nat)
    requires Closed(nodes) && LongNames(nodes) && |dirs| > 0
    ensures Solve(nodes, dirs, fuel) == Finished(n) <==>
      && 1 <= n <= fuel && DoneAt(nodes, dirs, n)
      && forall u :: 1 <= u < n ==> !DoneAt(nodes, dirs, u)
    ensures Solve(nodes, dirs, fuel) == Unfinished <==>
      forall u :: 1 <= u <= fuel ==> !DoneAt(nodes, dirs, u)
  {
    var o := Solve(nodes, dirs, fuel);
    assert o == WalkFrom(nodes, dirs, 0, fuel);
    WalkUnfinishedIffNeverDone(nodes, dirs, 0, fuel);
    if o.Finished? {
      WalkFinishesAtFirstDone(nodes, dirs, 0, fuel);
    }
  }

  /** A larger bound does not change an answer already found. */
  lemma SolveIgnoresExtraFuel(nodes: seq<Node>, dirs: string, fuel: nat, more: nat, n: nat)
    requires Closed(nodes)
    requires Solve(nodes, dirs, fuel) == Finished(n)
    requires fuel <= more
    ensures Solve(nodes, dirs, more) == Finished(n)
  {
    SolveIsFirstDoneTick(nodes, dirs, fuel, n);
    SolveIsFirstDoneTick(nodes, dirs, more, n);
  }

  /** Without start tokens the all-'Z' test holds vacuously after the first
      tick. */
  lemma SolveWithoutStarts(nodes: seq<Node>, dirs: string, fuel: nat)
    requires Closed(nodes) && LongNames(nodes) && |dirs| > 0 && fuel >= 1
    requires forall i :: 0 <= i < |nodes| ==> nodes[i].name[2] != 'A'
    ensures Solve(nodes, dirs, fuel) == Finished(1)
  {
    NoStartsFrom(nodes, 0);
  }

  lemma {:induction false} NoStartsFrom(nodes: seq<Node>, i: nat)
    requires LongNames(nodes) && i <= |nodes|
    requires forall k :: 0 <= k < |nodes| ==> nodes[k].name[2] != 'A'
    ensures StartsFrom(nodes, i) == []
    decreases |nodes| - i
  {
    if i < |nodes| {
      NoStartsFrom(nodes, i + 1);
    }
  }
}
