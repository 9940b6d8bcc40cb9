/** Turning the input lines into the direction string and the node list
    (main's first lines and parseNodes). */
module Parser {
  import opened Results
  import opened Strings
  import opened Network

  datatype ParseError =
    | NoDirectionLine             // get(0) on an empty input
    | MalformedNodeLine(line: string)  // a split with too few parts

  datatype Puzzle = Puzzle(directions: string, nodes: seq<Node>)

  /** One line that contains '='. The name is the raw text before the first
      '='; the branches are the letters and digits before and after the
      first ',' of the text that follows it. Java throws when either split
      yields fewer than two parts. */
  function ParseLine(line: string): (r: Result<Node, ParseError>)
    ensures r.Ok? ==> '=' in line && r.value.name == line[..IndexOf(line, '=')]
    ensures r.Ok? ==> forall k :: 0 <= k < |r.value.left| ==> IsAlnum(r.value.left[k])
    ensures r.Ok? ==> forall k :: 0 <= k < |r.value.right| ==> IsAlnum(r.value.right[k])
    ensures r.Err? ==> r.error == MalformedNodeLine(line)
  {
    var first := Split(line, '=');
    if |first| < 2 then Err(MalformedNodeLine(line))
    else
      var second := Split(first[1], ',');
      if |second| < 2 then Err(MalformedNodeLine(line))
      else Ok(Node(first[0], KeepAlnum(second[0]), KeepAlnum(second[1])))
  }

  /** A line `name=before,after` with a single '=', a single ',' and
      something after the comma yields the raw name and the cleaned
      branch names. */
  lemma ParseWellFormedLine(name: string, before: string, after: string)
    requires '=' !in name && '=' !in before && '=' !in after
    requires ',' !in before && ',' !in after
    requires after != ""
    ensures ParseLine(name + "=" + before + "," + after)
         == Ok(Node(name, KeepAlnum(before), KeepAlnum(after)))
  {
    var rest := before + [','] + after;
    var line := name + ['='] + rest;
    WellFormedShape(name, before, after);
    SplitOnce(name, '=', rest);
    SplitOnce(before, ',', after);
    ParseLineOfParts(line, rest, before, after);
  }

  lemma WellFormedShape(name: string, before: string, after: string)
    requires '=' !in before && '=' !in after
    ensures name + "=" + before + "," + after == name + ['='] + (before + [','] + after)
    ensures '=' !in before + [','] + after
    ensures '=' in name + ['='] + (before + [','] + after)
  {
    var line := name + ['='] + (before + [','] + after);
    assert line[|name|] == '=';
  }

  lemma ParseLineOfParts(line: string, rest: string, before: string, after: string)
    requires '=' in line
    requires |Split(line, '=')| == 2 && Split(line, '=')[1] == rest
    requires |Split(rest, ',')| >= 2 && Split(rest, ',')[0] == before && Split(rest, ',')[1] == after
    ensures ParseLine(line) == Ok(Node(Split(line, '=')[0], KeepAlnum(before), KeepAlnum(after)))
  {
  }

  /** With two or more ',' after the '=', only the text up to the second
      ',' matters: "AAA = (BBB, CCC, DDD)" has left BBB and right CCC. */
  lemma ParseLineExtraCommas(name: string, before: string, mid: string, tail: string)
    requires '=' !in name && '=' !in before && '=' !in mid && '=' !in tail
    requires ',' !in before && ',' !in mid
    requires mid != ""
    ensures ParseLine(name + "=" + before + "," + mid + "," + tail)
         == Ok(Node(name, KeepAlnum(before), KeepAlnum(mid)))
  {
    var rest := before + [','] + mid + [','] + tail;
    var line := name + ['='] + rest;
    assert name + "=" + before + "," + mid + "," + tail == line;
    assert '=' !in rest;
    assert line[|name|] == '=';
    SplitOnce(name, '=', rest);
    SplitKeepsFirstTwo(before, ',', mid, tail);
    ParseLineOfParts(line, rest, before, mid);
  }

  /** A line whose branch text ends in its only ',' is rejected, as
      `secondSplit[1]` throws: "AAA = (BBB,". */
  lemma ParseRejectsTrailingComma(name: string, before: string)
    requires '=' !in name && '=' !in before && ',' !in before
    ensures ParseLine(name + "=" + before + ",").Err?
  {
    var rest := before + [','];
    var line := name + ['='] + rest;
    assert name + "=" + before + "," == line;
    assert '=' !in rest;
    SplitOnce(name, '=', rest);
    SplitTrailingSeparator(before, ',');
  }

  /** A line whose text after its single '=' has no ',' is rejected,
      e.g. "AAA = (BBB CCC)" or "AAA =": `firstSplit[1]` throws when
      nothing follows the '=', `secondSplit[1]` otherwise. */
  lemma ParseRejectsMissingComma(name: string, rest: string)
    requires '=' !in name && '=' !in rest && ',' !in rest
    ensures ParseLine(name + "=" + rest).Err?
  {
    var line := name + "=" + rest;
    assert line == name + ['='] + rest;
    PiecesJoin([name, rest], '=');
    assert Join([name, rest], '=') == name + ['='] + Join([rest], '=');
    assert line[|name|] == '=';
  }

  /** The text of a node line in the puzzle's format. */
  function LineOf(name: string, left: string, right: string): string {
    name + " = (" + left + ", " + right + ")"
  }

  /** A node line of letters and digits parses to its name with the
      trailing space kept and its two branch names. */
  lemma ParseLineOf(name: string, left: string, right: string)
    requires forall k :: 0 <= k < |name| ==> IsAlnum(name[k])
    requires forall k :: 0 <= k < |left| ==> IsAlnum(left[k])
    requires forall k :: 0 <= k < |right| ==> IsAlnum(right[k])
    ensures '=' in LineOf(name, left, right)
    ensures ParseLine(LineOf(name, left, right)) == Ok(Node(name + " ", left, right))
  {
    var before := " (" + left;
    var after := " " + right + ")";
    LineOfShape(name, left, right);
    SeparatorsOutsideNames(name, left, right);
    CleanBranches(left, right);
    ParseWellFormedLine(name + " ", before, after);
  }

  /** The line split at its '=' and at its ','. */
  lemma LineOfShape(name: string, left: string, right: string)
    ensures LineOf(name, left, right) == (name + " ") + "=" + (" (" + left) + "," + (" " + right + ")")
    ensures LineOf(name, left, right)[|name| + 1] == '='
  {
  }

  /** The text around the separators holds no '=' and no ','. */
  lemma SeparatorsOutsideNames(name: string, left: string, right: string)
    requires forall k :: 0 <= k < |name| ==> IsAlnum(name[k])
    requires forall k :: 0 <= k < |left| ==> IsAlnum(left[k])
    requires forall k :: 0 <= k < |right| ==> IsAlnum(right[k])
    ensures '=' !in name + " " && ',' !in " (" + left && '=' !in " (" + left
    ensures '=' !in " " + right + ")" && ',' !in " " + right + ")"
  {
    AlnumFree(name);
    AlnumFree(left);
    AlnumFree(right);
    assert name + " " == name + [' '];
    assert " (" + left == [' ', '('] + left;
    assert " " + right + ")" == [' '] + right + [')'];
  }

  /** Cleaning drops the punctuation around the branch names. */
  lemma CleanBranches(left: string, right: string)
    requires forall k :: 0 <= k < |left| ==> IsAlnum(left[k])
    requires forall k :: 0 <= k < |right| ==> IsAlnum(right[k])
    ensures KeepAlnum(" (" + left) == left && KeepAlnum(" " + right + ")") == right
  {
    KeepAlnumConcat(" (", left);
    KeepAlnumConcat(" ", right);
    KeepAlnumConcat(" " + right, ")");
  }

  /** Letters and digits contain neither '=' nor ','. */
  lemma AlnumFree(s: string)
    requires forall k :: 0 <= k < |s| ==> IsAlnum(s[k])
    ensures '=' !in s && ',' !in s
  {
  }

  /** The lines that parseNodes turns into nodes. */
  function NodeLines(lines: seq<string>): (r: seq<string>)
    ensures forall k :: 0 <= k < |r| ==> '=' in r[k] && r[k] in lines
    ensures forall k :: 0 <= k < |lines| && '=' in lines[k] ==> lines[k] in r
  {
    if |lines| == 0 then []
    else (if '=' in lines[0] then [lines[0]] else []) + NodeLines(lines[1..])
  }

  lemma {:induction false} NodeLinesConcat(a: seq<string>, b: seq<string>)
    ensures NodeLines(a + b) == NodeLines(a) + NodeLines(b)
    decreases |a|
  {
    if |a| > 0 {
      var head := if '=' in a[0] then [a[0]] else [];
      assert (a + b)[0] == a[0] && (a + b)[1..] == a[1..] + b;
      assert NodeLines(a + b) == head + NodeLines(a[1..] + b);
      NodeLinesConcat(a[1..], b);
      assert NodeLines(a) == head + NodeLines(a[1..]);
    } else {
      assert a + b == b;
    }
  }

  /** Lines that all contain '=' are all node lines. */
  lemma {:induction false} NodeLinesOfNodeLines(ls: seq<string>)
    requires forall k :: 0 <= k < |ls| ==> '=' in ls[k]
    ensures NodeLines(ls) == ls
  {
    if |ls| > 0 {
      NodeLinesOfNodeLines(ls[1..]);
    }
  }

  /** Apply `f` to every element in order; the first failure aborts. */
  function CollectAll<A, B, E>(f: A -> Result<B, E>, xs: seq<A>): (r: Result<seq<B>, E>)
    ensures r.Ok? <==> forall k :: 0 <= k < |xs| ==> f(xs[k]).Ok?
    ensures r.Ok? ==> |r.value| == |xs| && forall k :: 0 <= k < |xs| ==> f(xs[k]) == Ok(r.value[k])
  {
    if |xs| == 0 then Ok([])
    else
      match f(xs[0])
      case Err(e) => Err(e)
      case Ok(y) =>
        var tail := CollectAll(f, xs[1..]);
        if tail.Err? then Err(tail.error)
        else Ok([y] + tail.value)
  }

  /** `xs[k]` is the first element on which `f` fails. */
  predicate FirstFailure<A, B, E>(f: A -> Result<B, E>, xs: seq<A>, k: int) {
    0 <= k < |xs| && f(xs[k]).Err? && forall j :: 0 <= j < k ==> f(xs[j]).Ok?
  }

  /** A failure is the failure of the first element that fails. */
  lemma {:induction false} CollectAllFailsAtFirst<A, B, E>(f: A -> Result<B, E>, xs: seq<A>)
    requires CollectAll(f, xs).Err?
    ensures exists k :: FirstFailure(f, xs, k) && f(xs[k]) == Err(CollectAll(f, xs).error)
  {
    if f(xs[0]).Err? {
      assert FirstFailure(f, xs, 0);
    } else {
      CollectAllFailsAtFirst(f, xs[1..]);
      var k :| FirstFailure(f, xs[1..], k) && f(xs[1..][k]) == Err(CollectAll(f, xs[1..]).error);
      assert FirstFailure(f, xs, k + 1);
    }
  }

  /** parseNodes: the lines containing '=', in input order, each parsed. */
  function ParseNodes(lines: seq<string>): (r: Result<seq<Node>, ParseError>)
    ensures r.Ok? <==> AllParse(NodeLines(lines))
    ensures r.Ok? ==> |r.value| == |NodeLines(lines)|
    ensures r.Ok? ==> forall k :: 0 <= k < |r.value| ==> ParseLine(NodeLines(lines)[k]) == Ok(r.value[k])
  {
    CollectParsedLines(NodeLines(lines));
    CollectAll(ParseLine, NodeLines(lines))
  }

  /** Every line parses. */
  predicate AllParse(ls: seq<string>) {
    forall k :: 0 <= k < |ls| ==> ParseLine(ls[k]).Ok?
  }

  /** The collector's contract read for ParseLine itself. */
  lemma CollectParsedLines(ls: seq<string>)
    ensures var r := CollectAll(ParseLine, ls);
      && (r.Ok? <==> AllParse(ls))
      && (r.Ok? ==> |r.value| == |ls| && forall k :: 0 <= k < |r.value| ==> ParseLine(ls[k]) == Ok(r.value[k]))
  {
    var parse: string -> Result<Node, ParseError> := ParseLine;
    var r := CollectAll(parse, ls);
    if r.Ok? {
      forall k | 0 <= k < |ls| ensures ParseLine(ls[k]) == Ok(r.value[k]) {
        assert parse(ls[k]) == Ok(r.value[k]);
      }
    } else {
      CollectAllFailsAtFirst(parse, ls);
      var k :| FirstFailure(parse, ls, k) && parse(ls[k]) == Err(r.error);
      assert !ParseLine(ls[k]).Ok?;
    }
  }

  /** parseNodes fails with the error of the first node line that does not
      parse, naming that line. */
  lemma ParseNodesFailsAtFirstBadLine(lines: seq<string>)
    requires ParseNodes(lines).Err?
    ensures exists k :: FirstFailure(ParseLine, NodeLines(lines), k)
                     && ParseNodes(lines).error == MalformedNodeLine(NodeLines(lines)[k])
  {
    CollectAllFailsAtFirst(ParseLine, NodeLines(lines));
  }

  /** Lines without '=' (the direction line, blank lines) contribute
      nothing, wherever they appear. */
  lemma SkipsLinesWithoutEquals(a: seq<string>, line: string, b: seq<string>)
    requires '=' !in line
    ensures ParseNodes(a + [line] + b) == ParseNodes(a + b)
  {
    NodeLinesConcat(a + [line], b);
    NodeLinesConcat(a, [line]);
    NodeLinesConcat(a, b);
    assert NodeLines([line]) == [];
    assert NodeLines(a + [line] + b) == NodeLines(a + b);
  }

  /** The whole input: the first line is the direction string (Java's
      get(0) throws on an empty input); every line containing '=' is a node,
      the first line included. */
  function ParseInput(lines: seq<string>): (r: Result<Puzzle, ParseError>)
    ensures |lines| == 0 <==> r == Err(NoDirectionLine)
    ensures r.Ok? ==> r.value.directions == lines[0] && ParseNodes(lines) == Ok(r.value.nodes)
    ensures |lines| > 0 && ParseNodes(lines).Err? ==> r == Err(ParseNodes(lines).error)
    ensures |lines| > 0 && ParseNodes(lines).Ok? ==> r == Ok(Puzzle(lines[0], ParseNodes(lines).value))
  {
    if |lines| == 0 then Err(NoDirectionLine)
    else
      match ParseNodes(lines)
      case Err(e) =>
        ParseNodesFailsAtFirstBadLine(lines);
        Err(e)
      case Ok(nodes) => Ok(Puzzle(lines[0], nodes))
  }
}
