/** Cycling through the direction string and following successors: the
    machinery both walks share. */
module Traversal {
  import opened Network
  import opened Arith

  /** The character consumed at the k-th iteration overall. The source's
      inner loop index runs 0 .. |dirs| - 1 and starts again each time the
      outer loop comes round, which is k mod |dirs|. */
  function Cursor(dirs: string, k: nat): char
    requires |dirs| > 0
  {
    dirs[k % |dirs|]
  }

  /** Characters that move a traveller and bump the part-one counter. */
  predicate Counted(c: char) {
    c == 'L' || c == 'R'
  }

  /** Where a traveller at `p` stands after consuming `n` characters, the
      first of them at cursor `i`. */
  function Run(nodes: seq<Node>, dirs: string, p: nat, i: nat, n: nat): (q: nat)
    requires Closed(nodes) && p < |nodes| && |dirs| > 0
    ensures q < |nodes|
    decreases n
  {
    if n == 0 then p else Run(nodes, dirs, Move(nodes, p, Cursor(dirs, i)), i + 1, n - 1)
  }

  /** How many of the `n` characters from cursor `i` on are 'L' or 'R'. */
  function Counter(dirs: string, i: nat, n: nat): (s: nat)
    requires |dirs| > 0
    ensures s <= n
    decreases n
  {
    if n == 0 then 0 else (if Counted(Cursor(dirs, i)) then 1 else 0) + Counter(dirs, i + 1, n - 1)
  }

  /** Consuming a + b characters is consuming a, then b more from where
      the cursor stopped. */
  lemma {:induction false} RunSplit(nodes: seq<Node>, dirs: string, p: nat, i: nat, a: nat, b: nat)
    requires Closed(nodes) && p < |nodes| && |dirs| > 0
    ensures Run(nodes, dirs, p, i, a + b) == Run(nodes, dirs, Run(nodes, dirs, p, i, a), i + a, b)
    decreases a
  {
    if a > 0 {
      RunSplit(nodes, dirs, Move(nodes, p, Cursor(dirs, i)), i + 1, a - 1, b);
    }
  }

  lemma {:induction false} CounterSplit(dirs: string, i: nat, a: nat, b: nat)
    requires |dirs| > 0
    ensures Counter(dirs, i, a + b) == Counter(dirs, i, a) + Counter(dirs, i + a, b)
    decreases a
  {
    if a > 0 {
      CounterSplit(dirs, i + 1, a - 1, b);
    }
  }

  /** One more character: 'L' and 'R' move to the matching successor and
      add exactly one to the counter; any other character changes neither. */
  lemma StepOnce(nodes: seq<Node>, dirs: string, p: nat, i: nat, n: nat)
    requires Closed(nodes) && p < |nodes| && |dirs| > 0
    ensures var q := Run(nodes, dirs, p, i, n); var c := Cursor(dirs, i + n);
      && Run(nodes, dirs, p, i, n + 1) == Move(nodes, q, c)
      && Counter(dirs, i, n + 1) == Counter(dirs, i, n) + (if Counted(c) then 1 else 0)
      && (!Counted(c) ==> Run(nodes, dirs, p, i, n + 1) == q)
  {
    RunSplit(nodes, dirs, p, i, n, 1);
    CounterSplit(dirs, i, n, 1);
  }

  /** The directions repeat with period |dirs|. */
  lemma {:induction false} RunShift(nodes: seq<Node>, dirs: string, p: nat, i: nat, n: nat)
    requires Closed(nodes) && p < |nodes| && |dirs| > 0
    ensures Run(nodes, dirs, p, i + |dirs|, n) == Run(nodes, dirs, p, i, n)
    decreases n
  {
    if n > 0 {
      CursorPeriodic(dirs, i);
      RunShift(nodes, dirs, Move(nodes, p, Cursor(dirs, i)), i + 1, n - 1);
    }
  }

  lemma CursorPeriodic(dirs: string, k: nat)
    requires |dirs| > 0
    ensures Cursor(dirs, k + |dirs|) == Cursor(dirs, k)
  {
    var d := |dirs|;
    var q1, r1 := k / d, k % d;
    var q2, r2 := (k + d) / d, (k + d) % d;
    assert d * (q2 - q1 - 1) == r1 - r2;
    MultipleBound(d, q2 - q1 - 1);
  }

  /** After m full passes over the directions a traveller continues exactly
      as one freshly started at the node it has reached. */
  lemma {:induction false} FullPassesRestart(nodes: seq<Node>, dirs: string, p: nat, m: nat, n: nat)
    requires Closed(nodes) && p < |nodes| && |dirs| > 0
    ensures Run(nodes, dirs, p, 0, m * |dirs| + n)
         == Run(nodes, dirs, Run(nodes, dirs, p, 0, m * |dirs|), 0, n)
  {
    var q := Run(nodes, dirs, p, 0, m * |dirs|);
    RunSplit(nodes, dirs, p, 0, m * |dirs|, n);
    ShiftPasses(nodes, dirs, q, m, n);
  }

  lemma {:induction false} ShiftPasses(nodes: seq<Node>, dirs: string, p: nat, m: nat, n: nat)
    requires Closed(nodes) && p < |nodes| && |dirs| > 0
    ensures Run(nodes, dirs, p, m * |dirs|, n) == Run(nodes, dirs, p, 0, n)
    decreases m
  {
    if m > 0 {
      assert m * |dirs| == (m - 1) * |dirs| + |dirs|;
      RunShift(nodes, dirs, p, (m - 1) * |dirs|, n);
      ShiftPasses(nodes, dirs, p, m - 1, n);
    }
  }

  /** Over a direction string of 'L' and 'R' only, every character counts. */
  lemma {:induction false} CounterOfCountedDirections(dirs: string, i: nat, n: nat)
    requires |dirs| > 0
    requires forall k :: 0 <= k < |dirs| ==> Counted(dirs[k])
    ensures Counter(dirs, i, n) == n
    decreases n
  {
    if n > 0 {
      CounterOfCountedDirections(dirs, i + 1, n - 1);
    }
  }
}
