/**
 Joining and splitting on a separator character. Cache keys (':'), audit
 hash inputs ('|'), role columns (',') and scope strings (' ') are all
 instances, so the facts about them are proved here once.
 */
module Text {

  function Join(parts: seq<string>, sep: char): string
  {
    if |parts| == 0 then ""
    else if |parts| == 1 then parts[0]
    else parts[0] + [sep] + Join(parts[1..], sep)
  }

  function Split(s: string, sep: char): (parts: seq<string>)
    ensures |parts| >= 1
  {
    if s == "" then [""]
    else Grow(s[0], Split(s[1..], sep), sep)
  }

  /** The pieces of a string, given its first character and the pieces of the rest. */
  function Grow(c: char, rest: seq<string>, sep: char): (parts: seq<string>)
    requires |rest| >= 1
    ensures |parts| >= 1
  {
    if c == sep then [""] + rest else [[c] + rest[0]] + rest[1..]
  }

  lemma GrowConcat(c: char, rest: seq<string>, other: seq<string>, sep: char)
    requires |rest| >= 1
    ensures Grow(c, rest + other, sep) == Grow(c, rest, sep) + other
  {
    assert (rest + other)[1..] == rest[1..] + other;
  }

  ghost predicate AllFree(parts: seq<string>, sep: char)
  {
    forall p :: p in parts ==> sep !in p
  }

  lemma {:induction false} SplitFree(s: string, sep: char)
    requires sep !in s
    ensures Split(s, sep) == [s]
  {
    if s != "" {
      SplitFree(s[1..], sep);
      assert [s[0]] + s[1..] == s;
    }
  }

  lemma {:induction false} SplitPiecesFree(s: string, sep: char)
    ensures AllFree(Split(s, sep), sep)
  {
    if s != "" {
      SplitPiecesFree(s[1..], sep);
      var rest := Split(s[1..], sep);
      assert rest[0] in rest;
      forall p | p in Split(s, sep) ensures sep !in p {
        if s[0] != sep && p != [s[0]] + rest[0] {
          assert p in rest[1..];
          assert p in rest;
        }
      }
    }
  }

  /** Splitting distributes over a separator: the pieces on the two sides do not interact. */
  lemma {:induction false} SplitConcat(a: string, b: string, sep: char)
    ensures Split(a + [sep] + b, sep) == Split(a, sep) + Split(b, sep)
  {
    var s := a + [sep] + b;
    if a == "" {
      assert s[0] == sep && s[1..] == b;
    } else {
      var rest, other := Split(a[1..], sep), Split(b, sep);
      assert Split(s, sep) == Grow(a[0], rest + other, sep) by {
        assert s[0] == a[0] && s[1..] == a[1..] + [sep] + b;
        SplitConcat(a[1..], b, sep);
      }
      GrowConcat(a[0], rest, other, sep);
    }
  }

  lemma SplitCons(a: string, b: string, sep: char)
    requires sep !in a
    ensures Split(a + [sep] + b, sep) == [a] + Split(b, sep)
  {
    SplitConcat(a, b, sep);
    SplitFree(a, sep);
  }

  lemma {:induction false} SplitJoin(parts: seq<string>, sep: char)
    requires parts != [] && AllFree(parts, sep)
    ensures Split(Join(parts, sep), sep) == parts
  {
    assert parts[0] in parts;
    SplitFree(parts[0], sep);
    if |parts| > 1 {
      assert forall p :: p in parts[1..] ==> p in parts;
      SplitJoin(parts[1..], sep);
      SplitConcat(parts[0], Join(parts[1..], sep), sep);
    }
  }

  lemma {:induction false} JoinSplit(s: string, sep: char)
    ensures Join(Split(s, sep), sep) == s
  {
    if s != "" {
      JoinSplit(s[1..], sep);
      var rest := Split(s[1..], sep);
      if s[0] == sep {
        assert ([""] + rest)[1..] == rest;
        assert s == [sep] + s[1..];
      } else {
        assert Split(s, sep)[1..] == rest[1..];
        assert s == [s[0]] + s[1..];
      }
    }
  }

  lemma {:induction false} JoinConcat(xs: seq<string>, ys: seq<string>, sep: char)
    requires xs != [] && ys != []
    ensures Join(xs + ys, sep) == Join(xs, sep) + [sep] + Join(ys, sep)
  {
    assert (xs + ys)[1..] == xs[1..] + ys;
    if |xs| == 1 {
      assert xs[1..] + ys == ys;
    } else {
      JoinConcat(xs[1..], ys, sep);
      assert xs[0] + [sep] + (Join(xs[1..], sep) + [sep] + Join(ys, sep))
          == xs[0] + [sep] + Join(xs[1..], sep) + [sep] + Join(ys, sep);
    }
  }

  lemma JoinCons(x: string, ys: seq<string>, sep: char)
    requires ys != []
    ensures Join([x] + ys, sep) == x + [sep] + Join(ys, sep)
  {
    JoinConcat([x], ys, sep);
  }

  lemma JoinSnoc(xs: seq<string>, y: string, sep: char)
    requires xs != []
    ensures Join(xs + [y], sep) == Join(xs, sep) + [sep] + y
  {
    JoinConcat(xs, [y], sep);
  }

  /** A separator inside a piece cannot be told from one between pieces. */
  lemma JoinBoundary(xs: seq<string>, a: string, b: string, c: string, zs: seq<string>, sep: char)
    ensures Join(xs + [a + [sep] + b, c] + zs, sep) == Join(xs + [a, b + [sep] + c] + zs, sep)
  {
    var left, right := [a + [sep] + b, c], [a, b + [sep] + c];
    assert left[1..] == [c] && right[1..] == [b + [sep] + c];
    assert Join(left, sep) == a + [sep] + b + [sep] + c == a + [sep] + (b + [sep] + c) == Join(right, sep);
    JoinAround(xs, left, right, zs, sep);
  }

  lemma JoinAround(xs: seq<string>, left: seq<string>, right: seq<string>, zs: seq<string>, sep: char)
    requires left != [] && right != [] && Join(left, sep) == Join(right, sep)
    ensures Join(xs + left + zs, sep) == Join(xs + right + zs, sep)
  {
    hide Join;
    if xs == [] {
      assert xs + left == left && xs + right == right;
    } else {
      JoinConcat(xs, left, sep);
      JoinConcat(xs, right, sep);
    }
    if zs == [] {
      assert xs + left + zs == xs + left && xs + right + zs == xs + right;
    } else {
      JoinConcat(xs + left, zs, sep);
      JoinConcat(xs + right, zs, sep);
    }
  }

  lemma {:induction false} SplitOne(s: string, sep: char)
    ensures |Split(s, sep)| == 1 <==> sep !in s
  {
    if s != "" {
      SplitOne(s[1..], sep);
      assert sep in s <==> s[0] == sep || sep in s[1..];
    }
  }

  /** Joining can only lose boundaries: the joined text falls into as many pieces as were joined exactly if none of
      them holds a separator, and into more otherwise. */
  lemma {:induction false} PiecesOfJoin(parts: seq<string>, sep: char)
    requires parts != []
    ensures |Split(Join(parts, sep), sep)| >= |parts|
    ensures |Split(Join(parts, sep), sep)| == |parts| <==> AllFree(parts, sep)
  {
    SplitOne(parts[0], sep);
    assert AllFree(parts, sep) <==> sep !in parts[0] && AllFree(parts[1..], sep) by {
      assert forall p :: p in parts <==> p == parts[0] || p in parts[1..];
    }
    if |parts| > 1 {
      PiecesOfJoin(parts[1..], sep);
      SplitConcat(parts[0], Join(parts[1..], sep), sep);
    }
  }

  /** Pieces without separators are the only ones, of their number, that join to the same text. */
  lemma JoinUnique(xs: seq<string>, ys: seq<string>, sep: char)
    requires |xs| == |ys| && AllFree(xs, sep) && Join(xs, sep) == Join(ys, sep)
    ensures xs == ys
  {
    if xs != [] {
      PiecesOfJoin(xs, sep);
      PiecesOfJoin(ys, sep);
      SplitJoin(xs, sep);
      SplitJoin(ys, sep);
    }
  }

  /** And if one of at least two neighbours holds a separator, others do as well: the boundary next to it can move. */
  lemma Twin(before: seq<string>, xs: seq<string>, behind: seq<string>, sep: char) returns (ys: seq<string>)
    requires |xs| >= 2 && !AllFree(xs, sep)
    ensures |ys| == |xs| && ys != xs
    ensures Join(before + ys + behind, sep) == Join(before + xs + behind, sep)
  {
    hide Join;
    var p :| p in xs && sep in p;
    var j :| 0 <= j < |xs| && xs[j] == p;
    var k :| 0 <= k < |p| && p[k] == sep;
    var l, m := p[..k], p[k + 1..];
    assert p == l + [sep] + m;
    if j + 1 < |xs| {
      var next := xs[j + 1];
      ys := xs[j := l][j + 1 := m + [sep] + next];
      JoinBoundary(before + xs[..j], l, m, next, xs[j + 2..] + behind, sep);
      Around(before, xs, j, [p, next], behind);
      Around(before, ys, j, [l, m + [sep] + next], behind);
      assert |ys[j]| < |xs[j]|;
    } else {
      var last := xs[j - 1];
      ys := xs[j - 1 := last + [sep] + l][j := m];
      JoinBoundary(before + xs[..j - 1], last, l, m, behind, sep);
      Around(before, xs, j - 1, [last, p], behind);
      Around(before, ys, j - 1, [last + [sep] + l, m], behind);
      assert xs[j + 1..] + behind == behind;
      assert |ys[j]| < |xs[j]|;
    }
  }

  lemma Around(before: seq<string>, xs: seq<string>, j: nat, pair: seq<string>, behind: seq<string>)
    requires j + 1 < |xs| && pair == [xs[j], xs[j + 1]]
    ensures before + xs + behind == before + xs[..j] + pair + (xs[j + 2..] + behind)
  {
    assert xs == xs[..j] + pair + xs[j + 2..];
  }

  /** The last piece is found again if it holds no separator. */
  lemma LastPiece(x: string, a: string, y: string, b: string, sep: char)
    requires sep !in a && sep !in b && x + [sep] + a == y + [sep] + b
    ensures x == y && a == b
  {
    hide Split;
    SplitConcat(x, a, sep);
    SplitConcat(y, b, sep);
    SplitFree(a, sep);
    SplitFree(b, sep);
    var xs, ys := Split(x, sep), Split(y, sep);
    assert (xs + [a])[|xs|] == a && (ys + [b])[|ys|] == b;
    assert x == (x + [sep] + a)[..|x|] && y == (y + [sep] + b)[..|y|];
  }
}
