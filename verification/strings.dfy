/** The parts of java.lang.String and java.lang.Character that the solver
    relies on: substring containment, splitting on a one-character
    delimiter, and the letter-or-digit test used to clean branch names. */
module Strings {

  /** Letters and digits. `Character.isAlphabetic` and `Character.isDigit`
      accept all of Unicode; only the ASCII ranges are modelled. */
  predicate IsAlnum(c: char) {
    ('a' <= c <= 'z') || ('A' <= c <= 'Z') || ('0' <= c <= '9')
  }

  /** The letters and digits of `s`, in their original order. */
  function KeepAlnum(s: string): (r: string)
    ensures |r| <= |s|
    ensures forall k :: 0 <= k < |r| ==> IsAlnum(r[k])
    ensures (forall k :: 0 <= k < |s| ==> IsAlnum(s[k])) ==> r == s
  {
    if |s| == 0 then ""
    else (if IsAlnum(s[0]) then [s[0]] else "") + KeepAlnum(s[1..])
  }

  /** Filtering distributes over concatenation, so together with its
      effect on single characters it fixes KeepAlnum completely. */
  lemma {:induction false} KeepAlnumConcat(a: string, b: string)
    ensures KeepAlnum(a + b) == KeepAlnum(a) + KeepAlnum(b)
    decreases |a|
  {
    if |a| == 0 {
      assert a + b == b;
    } else {
      assert (a + b)[1..] == a[1..] + b;
      KeepAlnumConcat(a[1..], b);
    }
  }

  /** A single character is kept exactly when it is a letter or a digit. */
  lemma KeepAlnumChar(c: char)
    ensures KeepAlnum([c]) == if IsAlnum(c) then [c] else []
  {
  }

  // ---------------------------------------------------------------------
  // String.contains

  /** `q` occurs in `s` as a contiguous block, as `String.contains` decides;
      every string contains the empty string. */
  predicate Contains(s: string, q: string)
    decreases |s|
  {
    |q| <= |s| && (q <= s || Contains(s[1..], q))
  }

  /** Independent reference: `q` sits in `s` starting at position `k`. */
  predicate OccursAt(s: string, q: string, k: int) {
    0 <= k && k + |q| <= |s| && s[k..k + |q|] == q
  }

  lemma {:induction false} ContainsIffOccurs(s: string, q: string)
    ensures Contains(s, q) <==> exists k :: OccursAt(s, q, k)
    decreases |s|
  {
    if |q| > |s| {
      assert forall k :: !OccursAt(s, q, k);
    } else if q <= s {
      assert OccursAt(s, q, 0);
    } else {
      ContainsIffOccurs(s[1..], q);
      forall k | OccursAt(s, q, k)
        ensures OccursAt(s[1..], q, k - 1)
      {
        assert k != 0;
        assert s[1..][k - 1..k - 1 + |q|] == s[k..k + |q|];
      }
      forall k | OccursAt(s[1..], q, k)
        ensures OccursAt(s, q, k + 1)
      {
        assert s[1..][k..k + |q|] == s[k + 1..k + 1 + |q|];
      }
    }
  }

  /** A fixed-width word followed by a padding character that the query
      lacks contains a query of that width exactly when the two are equal:
      substring search then behaves as an exact name lookup. */
  lemma PaddedContainsIsEquality(w: string, pad: char, q: string)
    requires |q| == |w|
    requires pad !in q
    ensures Contains(w + [pad], q) <==> q == w
  {
    var s := w + [pad];
    ContainsIffOccurs(s, q);
    if Contains(s, q) {
      var k :| OccursAt(s, q, k);
      assert |q| > 0 ==> q[|q| - 1] == s[k + |q| - 1];
      assert k == 0 || |q| == 0;
      assert s[..|q|] == w;
    } else {
      assert s[0..|q|] == w;
      assert !OccursAt(s, q, 0);
    }
  }

  // ---------------------------------------------------------------------
  // String.split with a one-character pattern

  /** Position of the first `c` in `s`, or -1 when there is none. */
  function IndexOf(s: string, c: char): (r: int)
    ensures -1 <= r < |s|
    ensures r == -1 <==> c !in s
    ensures 0 <= r ==> s[r] == c && c !in s[..r]
  {
    if |s| == 0 then -1
    else if s[0] == c then 0
    else
      var i := IndexOf(s[1..], c);
      if i < 0 then -1
      else
        assert s[..i + 1] == [s[0]] + s[1..][..i];
        i + 1
  }

  /** The text before, between and after every occurrence of `c`; there
      is always one more piece than there are occurrences. */
  function Pieces(s: string, c: char): (ps: seq<string>)
    ensures |ps| >= 1
    ensures forall k :: 0 <= k < |ps| ==> c !in ps[k]
    decreases |s|
  {
    var i := IndexOf(s, c);
    if i < 0 then [s] else [s[..i]] + Pieces(s[i + 1..], c)
  }

  /** Glue pieces back together with `c` between neighbours. */
  function Join(ps: seq<string>, c: char): string
    requires |ps| >= 1
  {
    if |ps| == 1 then ps[0] else ps[0] + [c] + Join(ps[1..], c)
  }

  lemma JoinCons(a: string, rest: seq<string>, c: char)
    requires |rest| >= 1
    ensures Join([a] + rest, c) == a + [c] + Join(rest, c)
  {
    assert ([a] + rest)[1..] == rest;
  }

  /** Joining the pieces restores the original text. */
  lemma {:induction false} JoinPieces(s: string, c: char)
    ensures Join(Pieces(s, c), c) == s
    decreases |s|
  {
    var i := IndexOf(s, c);
    if 0 <= i {
      var tail := Pieces(s[i + 1..], c);
      JoinPieces(s[i + 1..], c);
      JoinCons(s[..i], tail, c);
      assert s == s[..i] + [c] + s[i + 1..];
    }
  }

  /** The first occurrence of `c` in `a + [c] + b`, when `a` is free of
      `c`, is right after `a`. */
  lemma {:induction false} IndexOfAfterFreePrefix(a: string, c: char, b: string)
    requires c !in a
    ensures IndexOf(a + [c] + b, c) == |a|
    decreases |a|
  {
    if |a| > 0 {
      assert (a + [c] + b)[1..] == a[1..] + [c] + b;
      IndexOfAfterFreePrefix(a[1..], c, b);
    }
  }

  /** Splitting a join of `c`-free pieces gives the pieces back. */
  lemma {:induction false} PiecesJoin(ps: seq<string>, c: char)
    requires |ps| >= 1
    requires forall k :: 0 <= k < |ps| ==> c !in ps[k]
    ensures Pieces(Join(ps, c), c) == ps
    decreases |ps|
  {
    if |ps| > 1 {
      var rest := Join(ps[1..], c);
      var s := Join(ps, c);
      assert s == ps[0] + [c] + rest;
      IndexOfAfterFreePrefix(ps[0], c, rest);
      var i := |ps[0]|;
      assert s[..i] == ps[0];
      assert s[i + 1..] == rest;
      assert Pieces(s, c) == [ps[0]] + Pieces(rest, c);
      PiecesJoin(ps[1..], c);
      assert ps == [ps[0]] + ps[1..];
    }
  }

  /** Cutting `a + [c] + b`, with `a` free of `c`, yields `a` and then the
      pieces of `b`. */
  lemma PiecesAfterFreePrefix(a: string, c: char, b: string)
    requires c !in a
    ensures Pieces(a + [c] + b, c) == [a] + Pieces(b, c)
  {
    var s := a + [c] + b;
    IndexOfAfterFreePrefix(a, c, b);
    assert s[..|a|] == a;
    assert s[|a| + 1..] == b;
  }

  /** `ps` with its trailing empty strings removed. */
  function DropTrailingEmpty(ps: seq<string>): (r: seq<string>)
    ensures |r| <= |ps| && r == ps[..|r|]
    ensures |r| > 0 ==> r[|r| - 1] != ""
    ensures forall k :: |r| <= k < |ps| ==> ps[k] == ""
  {
    if |ps| == 0 then ps
    else if ps[|ps| - 1] == "" then DropTrailingEmpty(ps[..|ps| - 1])
    else ps
  }

  /** `s.split(c)` for a delimiter without regular-expression meaning: a
      text without `c` is returned whole; otherwise the pieces, minus any
      trailing empty ones. */
  function Split(s: string, c: char): (r: seq<string>)
    ensures c !in s ==> r == [s]
    ensures forall k :: 0 <= k < |r| ==> c !in r[k]
    ensures |r| <= |Pieces(s, c)| && r == Pieces(s, c)[..|r|]
    ensures c in s ==> forall k :: |r| <= k < |Pieces(s, c)| ==> Pieces(s, c)[k] == ""
    ensures c in s && |r| > 0 ==> r[|r| - 1] != ""
  {
    if c !in s then [s] else DropTrailingEmpty(Pieces(s, c))
  }

  /** A two-piece text `a + [c] + b` with `b` non-empty splits into `a` and `b`. */
  lemma SplitOnce(a: string, c: char, b: string)
    requires c !in a && c !in b
    requires b != ""
    ensures Split(a + [c] + b, c) == [a, b]
  {
    PiecesJoin([a, b], c);
    assert Join([a, b], c) == a + [c] + Join([b], c);
    assert (a + [c] + b)[|a|] == c;
  }

  /** Further separators after a non-empty second piece do not disturb the
      first two parts. */
  lemma SplitKeepsFirstTwo(a: string, c: char, m: string, t: string)
    requires c !in a && c !in m
    requires m != ""
    ensures var r := Split(a + [c] + m + [c] + t, c);
      |r| >= 2 && r[0] == a && r[1] == m
  {
    var s := a + [c] + m + [c] + t;
    assert s == a + [c] + (m + [c] + t);
    assert s[|a|] == c;
    PiecesAfterFreePrefix(a, c, m + [c] + t);
    PiecesAfterFreePrefix(m, c, t);
    var ps := Pieces(s, c);
    assert ps[0] == a && ps[1] == m;
    var r := Split(s, c);
    assert r == DropTrailingEmpty(ps);
    assert |ps| >= 2 && ps[1] != "";
    assert |r| >= 2;
  }

  /** A text ending in its only separator splits into at most one part:
      the trailing empty piece is dropped. */
  lemma SplitTrailingSeparator(a: string, c: char)
    requires c !in a
    ensures |Split(a + [c], c)| <= 1
  {
    var s := a + [c];
    assert s == a + [c] + [];
    assert s[|a|] == c;
    PiecesAfterFreePrefix(a, c, []);
    var ps := Pieces(s, c);
    assert ps == [a, []];
    var r := Split(s, c);
    assert r == DropTrailingEmpty(ps);
  }
}
