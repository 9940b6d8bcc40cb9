/** The node list the solver builds: one entry per node, searched by
    position, with successors resolved by substring search on names. */
module Network {
  import opened Strings

  /** One parsed node line. The name keeps whatever text preceded `=`
      (usually a trailing space); left and right are letters and digits only. */
  datatype Node = Node(name: string, left: string, right: string)

  /** Index of the first node whose name contains `query`, or -1 (findIndexOf). */
  function FindIndexOf(query: string, nodes: seq<Node>): (r: int)
    ensures -1 <= r < |nodes|
    ensures 0 <= r ==> Contains(nodes[r].name, query)
    ensures forall j :: 0 <= j < |nodes| && (r == -1 || j < r) ==> !Contains(nodes[j].name, query)
  {
    FindFrom(query, nodes, 0)
  }

  /** The search loop, started at position `i`. */
  function FindFrom(query: string, nodes: seq<Node>, i: nat): (r: int)
    requires i <= |nodes|
    ensures r == -1 || i <= r < |nodes|
    ensures 0 <= r ==> Contains(nodes[r].name, query)
    ensures forall j :: i <= j < |nodes| && (r == -1 || j < r) ==> !Contains(nodes[j].name, query)
    decreases |nodes| - i
  {
    if i == |nodes| then -1
    else if Contains(nodes[i].name, query) then i
    else FindFrom(query, nodes, i + 1)
  }

  /** Every successor name resolves to some node, so no walk ever looks up
      position -1. */
  predicate Closed(nodes: seq<Node>) {
    forall i :: 0 <= i < |nodes| ==> Resolves(nodes, i)
  }

  /** Both successor names of node `i` are found. */
  predicate Resolves(nodes: seq<Node>, i: nat)
    requires i < |nodes|
  {
    FindIndexOf(nodes[i].left, nodes) >= 0 && FindIndexOf(nodes[i].right, nodes) >= 0
  }

  /** One direction character applied to the node at `p`: 'L' and 'R'
      jump to the node found for the left or right successor name, anything
      else stays put. */
  function Move(nodes: seq<Node>, p: nat, c: char): (q: nat)
    requires Closed(nodes) && p < |nodes|
    ensures q < |nodes|
  {
    assert Resolves(nodes, p);
    if c == 'L' then FindIndexOf(nodes[p].left, nodes)
    else if c == 'R' then FindIndexOf(nodes[p].right, nodes)
    else p
  }

  /** What a move means: 'L' ('R') lands on the first node whose name
      contains the left (right) successor name; other characters do not move. */
  lemma MoveFollowsBranch(nodes: seq<Node>, p: nat, c: char)
    requires Closed(nodes) && p < |nodes|
    ensures var q := Move(nodes, p, c);
      && (c == 'L' ==>
            Contains(nodes[q].name, nodes[p].left)
            && forall j :: 0 <= j < q ==> !Contains(nodes[j].name, nodes[p].left))
      && (c == 'R' ==>
            Contains(nodes[q].name, nodes[p].right)
            && forall j :: 0 <= j < q ==> !Contains(nodes[j].name, nodes[p].right))
      && (c != 'L' && c != 'R' ==> q == p)
  {
  }

  /** Names of the puzzle's usual shape: a word of `width` characters
      followed by one space, all words distinct. */
  predicate PaddedNames(nodes: seq<Node>, width: nat) {
    && (forall i :: 0 <= i < |nodes| ==>
          |nodes[i].name| == width + 1 && nodes[i].name[width] == ' ')
    && (forall i, j :: 0 <= i < j < |nodes| ==> nodes[i].name != nodes[j].name)
  }

  /** For such names, substring search is exact lookup: a space-free query
      of the same width is found exactly at the node named by it. */
  lemma FindIsExactForPaddedNames(nodes: seq<Node>, width: nat, query: string)
    requires PaddedNames(nodes, width)
    requires |query| == width && ' ' !in query
    ensures forall j :: 0 <= j < |nodes| ==>
      (FindIndexOf(query, nodes) == j <==> nodes[j].name == query + " ")
  {
    forall j | 0 <= j < |nodes|
      ensures Contains(nodes[j].name, query) <==> nodes[j].name == query + " "
    {
      var name := nodes[j].name;
      assert name == name[..width] + [' '];
      PaddedContainsIsEquality(name[..width], ' ', query);
    }
  }
}
