/** The Levenshtein distance behind "did you mean": the matrix fill computes the true
    edit distance, and that distance is a metric. */
module EditDistance {

  // ---------------------------------------------------------------- edit scripts

  /** One edit of a text, anywhere in it. */
  datatype Edit = Insert(at: nat, c: char) | Delete(at: nat) | Substitute(at: nat, c: char)

  predicate Applies(e: Edit, s: string) {
    if e.Insert? then e.at <= |s| else e.at < |s|
  }

  function Edited(e: Edit, s: string): string
    requires Applies(e, s)
  {
    match e
    case Insert(at, c) => s[..at] + [c] + s[at..]
    case Delete(at) => s[..at] + s[at + 1..]
    case Substitute(at, c) => s[at := c]
  }

  /** `script` turns `a` into `b`, edit by edit. */
  predicate Transforms(script: seq<Edit>, a: string, b: string)
    decreases |script|
  {
    if script == [] then a == b
    else Applies(script[0], a) && Transforms(script[1..], Edited(script[0], a), b)
  }

  // ---------------------------------------------------------------- the recurrence

  function Min(a: int, b: int): int { if a <= b then a else b }

  function Cost(x: char, y: char): nat { if x == y then 0 else 1 }

  function Init(s: string): string
    requires |s| > 0
  {
    s[..|s| - 1]
  }

  function Last(s: string): char
    requires |s| > 0
  {
    s[|s| - 1]
  }

  function Distance(a: string, b: string): (d: nat)
    decreases |a| + |b|
  {
    if a == [] then |b|
    else if b == [] then |a|
    else Min(Min(Distance(Init(a), b) + 1, Distance(a, Init(b)) + 1),
             Distance(Init(a), Init(b)) + Cost(Last(a), Last(b)))
  }

  /** The least edits are bounded by each way of ending the script. */
  lemma DistanceSteps(a: string, b: string)
    ensures |a| > 0 ==> Distance(a, b) <= Distance(Init(a), b) + 1
    ensures |b| > 0 ==> Distance(a, b) <= Distance(a, Init(b)) + 1
    ensures |a| > 0 && |b| > 0 ==> Distance(a, b) <= Distance(Init(a), Init(b)) + Cost(Last(a), Last(b))
  {
    if a == [] && b != [] {
      assert Distance(a, Init(b)) == |b| - 1;
    } else if b == [] && a != [] {
      EmptyDistance(Init(a));
    }
  }

  lemma EmptyDistance(a: string)
    ensures Distance(a, []) == |a| && Distance([], a) == |a|
  {
  }

  // ---------------------------------------------------------------- a metric

  lemma {:induction false} DistanceZeroIffEqual(a: string, b: string)
    ensures Distance(a, b) == 0 <==> a == b
    decreases |a| + |b|
  {
    if a != [] && b != [] {
      DistanceZeroIffEqual(Init(a), Init(b));
      assert a == Init(a) + [Last(a)] && b == Init(b) + [Last(b)];
    }
  }

  lemma {:induction false} DistanceIsSymmetric(a: string, b: string)
    ensures Distance(a, b) == Distance(b, a)
    decreases |a| + |b|
  {
    if a != [] && b != [] {
      DistanceIsSymmetric(Init(a), b);
      DistanceIsSymmetric(a, Init(b));
      DistanceIsSymmetric(Init(a), Init(b));
    }
  }

  /** By how the scripts for (a, b) and (b, c) treat the last characters. */
  lemma {:induction false} TriangleInequality(a: string, b: string, c: string)
    ensures Distance(a, c) <= Distance(a, b) + Distance(b, c)
    decreases |a| + |b| + |c|
  {
    DistanceSteps(a, c);
    if a == [] {
      LengthGap(b, c);
    } else if c == [] {
      LengthGap(b, a);
      DistanceIsSymmetric(a, b);
    } else if b == [] {
      LengthsBound(a, c);
    } else if Distance(a, b) == Distance(Init(a), b) + 1 {
      TriangleInequality(Init(a), b, c);
    } else if Distance(b, c) == Distance(b, Init(c)) + 1 {
      TriangleInequality(a, b, Init(c));
    } else {
      var deletes := Distance(b, c) == Distance(Init(b), c) + 1;
      if Distance(a, b) == Distance(a, Init(b)) + 1 {
        if deletes {
          TriangleInequality(a, Init(b), c);
        } else {
          TriangleInequality(a, Init(b), Init(c));
        }
      } else if deletes {
        TriangleInequality(Init(a), Init(b), c);
      } else {
        TriangleInequality(Init(a), Init(b), Init(c));
      }
    }
  }

  /** The distance is at least the difference in length. */
  lemma {:induction false} LengthGap(b: string, c: string)
    ensures |c| <= |b| + Distance(b, c)
    decreases |b| + |c|
  {
    if b != [] && c != [] {
      LengthGap(Init(b), c);
      LengthGap(b, Init(c));
      LengthGap(Init(b), Init(c));
    }
  }

  lemma {:induction false} LengthsBound(a: string, c: string)
    ensures Distance(a, c) <= |a| + |c|
    decreases |a| + |c|
  {
    if a != [] && c != [] {
      LengthsBound(Init(a), c);
    }
  }

  // ---------------------------------------------------------------- the least script

  /** Text after an unchanged tail costs nothing more. */
  lemma {:induction false} CommonTail(a: string, b: string, tail: string)
    ensures Distance(a + tail, b + tail) <= Distance(a, b)
    decreases |tail|
  {
    hide Distance;
    if tail == [] {
      assert a + tail == a && b + tail == b;
    } else {
      CommonTail(a, b, Init(tail));
      DistanceSteps(a + tail, b + tail);
      assert Init(a + tail) == a + Init(tail) && Init(b + tail) == b + Init(tail);
      assert Last(a + tail) == Last(b + tail) == Last(tail);
    }
  }

  lemma DistanceToSelf(s: string)
    ensures Distance(s, s) == 0
  {
    DistanceZeroIffEqual(s, s);
  }

  lemma AppendingIsClose(p: string, x: char, c: char)
    ensures Distance(p, p + [c]) <= 1 && Distance(p + [x], p) <= 1 && Distance(p + [x], p + [c]) <= 1
  {
    hide Distance;
    DistanceToSelf(p);
    assert Init(p + [x]) == p && Init(p + [c]) == p;
    DistanceSteps(p, p + [c]);
    DistanceSteps(p + [x], p);
    DistanceSteps(p + [x], p + [c]);
  }

  lemma OneEditIsClose(e: Edit, s: string)
    requires Applies(e, s)
    ensures Distance(s, Edited(e, s)) <= 1
  {
    hide Distance;
    var p := s[..e.at];
    match e
    case Insert(at, c) =>
      AppendingIsClose(p, c, c);
      CommonTail(p, p + [c], s[at..]);
      assert s == p + s[at..];
    case Delete(at) =>
      AppendingIsClose(p, s[at], s[at]);
      CommonTail(p + [s[at]], p, s[at + 1..]);
      assert s == p + [s[at]] + s[at + 1..];
    case Substitute(at, c) =>
      AppendingIsClose(p, s[at], c);
      CommonTail(p + [s[at]], p + [c], s[at + 1..]);
      assert s == p + [s[at]] + s[at + 1..];
      assert s[at := c] == p + [c] + s[at + 1..];
  }

  /** No script is shorter than the distance. */
  lemma {:induction false} ScriptsAreNoShorter(script: seq<Edit>, a: string, b: string)
    requires Transforms(script, a, b)
    ensures Distance(a, b) <= |script|
    decreases |script|
  {
    if script == [] {
      DistanceZeroIffEqual(a, b);
    } else {
      var next := Edited(script[0], a);
      ScriptsAreNoShorter(script[1..], next, b);
      OneEditIsClose(script[0], a);
      TriangleInequality(a, next, b);
    }
  }

  lemma {:induction false} ScriptsCompose(p: seq<Edit>, q: seq<Edit>, a: string, b: string, c: string)
    requires Transforms(p, a, b) && Transforms(q, b, c)
    ensures Transforms(p + q, a, c)
    decreases |p|
  {
    if p == [] {
      assert p + q == q;
    } else {
      ScriptsCompose(p[1..], q, Edited(p[0], a), b, c);
      assert (p + q)[1..] == p[1..] + q;
    }
  }

  /** A script works the same in front of an untouched tail. */
  lemma {:induction false} ScriptIgnoresTail(p: seq<Edit>, a: string, b: string, tail: string)
    requires Transforms(p, a, b)
    ensures Transforms(p, a + tail, b + tail)
    decreases |p|
  {
    if p != [] {
      var e := p[0];
      ScriptIgnoresTail(p[1..], Edited(e, a), b, tail);
      EditIgnoresTail(e, a, tail);
      hide Edited;
    }
  }

  lemma EditIgnoresTail(e: Edit, a: string, tail: string)
    requires Applies(e, a)
    ensures Applies(e, a + tail) && Edited(e, a) + tail == Edited(e, a + tail)
  {
    if !e.Substitute? {
      assert (a + tail)[..e.at] == a[..e.at] && (a + tail)[e.at..] == a[e.at..] + tail;
    }
  }

  lemma OneEditScript(e: Edit, s: string)
    requires Applies(e, s)
    ensures Transforms([e], s, Edited(e, s))
  {
    assert [e][1..] == [];
  }

  lemma ThenInsert(script: seq<Edit>, a: string, b: string)
    requires |b| > 0 && Transforms(script, a, Init(b))
    ensures Transforms(script + [Insert(|b| - 1, Last(b))], a, b)
  {
    hide Transforms;
    var e := Insert(|b| - 1, Last(b));
    OneEditScript(e, Init(b));
    assert Edited(e, Init(b)) == b;
    ScriptsCompose(script, [e], a, Init(b), b);
  }

  lemma DeleteThen(script: seq<Edit>, a: string, b: string)
    requires |a| > 0 && Transforms(script, Init(a), b)
    ensures Transforms([Delete(|a| - 1)] + script, a, b)
  {
    hide Transforms;
    var e := Delete(|a| - 1);
    OneEditScript(e, a);
    assert Edited(e, a) == Init(a);
    ScriptsCompose([e], script, a, Init(a), b);
  }

  lemma ThenSubstitute(script: seq<Edit>, a: string, b: string) returns (r: seq<Edit>)
    requires |a| > 0 && |b| > 0 && Transforms(script, Init(a), Init(b))
    ensures Transforms(r, a, b) && |r| == |script| + Cost(Last(a), Last(b))
  {
    hide Transforms;
    ScriptIgnoresTail(script, Init(a), Init(b), [Last(a)]);
    assert Init(a) + [Last(a)] == a && Init(b) + [Last(b)] == b;
    r := script;
    if Last(a) != Last(b) {
      var c, e := Init(b) + [Last(a)], Substitute(|b| - 1, Last(b));
      OneEditScript(e, c);
      assert Edited(e, c) == b;
      ScriptsCompose(script, [e], a, c, b);
      r := script + [e];
    }
  }

  lemma {:induction false} DistanceUnfolds(a: string, b: string)
    ensures a == [] ==> Distance(a, b) == |b|
    ensures b == [] ==> Distance(a, b) == |a|
    ensures a != [] && b != [] ==>
              Distance(a, b) == Min(Min(Distance(Init(a), b) + 1, Distance(a, Init(b)) + 1),
                                    Distance(Init(a), Init(b)) + Cost(Last(a), Last(b)))
  {
    hide Min;
    hide Cost;
    hide Init;
    hide Last;
  }

  /** Some script has exactly the length of the distance. */
  lemma {:induction false} ShortestScript(a: string, b: string) returns (script: seq<Edit>)
    ensures Transforms(script, a, b) && |script| == Distance(a, b)
    decreases |a| + |b|
  {
    hide Distance;
    DistanceUnfolds(a, b);
    if a == [] && b == [] {
      script := [];
    } else if b != [] && (a == [] || Distance(a, b) == Distance(a, Init(b)) + 1) {
      DistanceUnfolds(a, Init(b));
      script := ShortestScript(a, Init(b));
      ThenInsert(script, a, b);
      script := script + [Insert(|b| - 1, Last(b))];
    } else if b == [] || Distance(a, b) == Distance(Init(a), b) + 1 {
      DistanceUnfolds(Init(a), b);
      script := ShortestScript(Init(a), b);
      DeleteThen(script, a, b);
      script := [Delete(|a| - 1)] + script;
    } else {
      script := ShortestScript(Init(a), Init(b));
      script := ThenSubstitute(script, a, b);
    }
  }

  // ---------------------------------------------------------------- the matrix

  /** The value of a matrix cell. */
  ghost function Cell(a: string, b: string, i: nat, j: nat): nat
    requires i <= |a| && j <= |b|
  {
    Distance(a[..i], b[..j])
  }

  lemma CellUnfolds(a: string, b: string, i: nat, j: nat)
    requires i <= |a| && j <= |b|
    ensures i == 0 ==> Cell(a, b, i, j) == j
    ensures j == 0 ==> Cell(a, b, i, j) == i
    ensures i > 0 && j > 0 ==>
              Cell(a, b, i, j) == Min(Min(Cell(a, b, i - 1, j) + 1, Cell(a, b, i, j - 1) + 1),
                                      Cell(a, b, i - 1, j - 1) + Cost(a[i - 1], b[j - 1]))
  {
    hide Distance;
    DistanceUnfolds(a[..i], b[..j]);
    if i > 0 && j > 0 {
      assert Init(a[..i]) == a[..i - 1] && Init(b[..j]) == b[..j - 1];
    }
  }

  /** Fills the matrix row by row: the result is the length of a shortest edit script. */
  method Levenshtein(a: string, b: string) returns (d: nat)
    ensures d == Distance(a, b)
    ensures exists script :: Transforms(script, a, b) && |script| == d
    ensures forall script :: Transforms(script, a, b) ==> d <= |script|
  {
    hide Distance;
    hide Transforms;
    DistanceUnfolds(a, b);
    forall script | Transforms(script, a, b) ensures Distance(a, b) <= |script| {
      ScriptsAreNoShorter(script, a, b);
    }
    ghost var shortest := ShortestScript(a, b);
    if |a| == 0 {
      return |b|;
    }
    if |b| == 0 {
      return |a|;
    }
    var matrix := FillMatrix(a, b);
    d := matrix[|a|, |b|];
    assert a[..|a|] == a && b[..|b|] == b;
  }

  /** Every cell holds the distance of its two prefixes. */
  method FillMatrix(a: string, b: string) returns (matrix: array2<nat>)
    ensures matrix.Length0 == |a| + 1 && matrix.Length1 == |b| + 1
    ensures forall i, j | 0 <= i <= |a| && 0 <= j <= |b| :: matrix[i, j] == Distance(a[..i], b[..j])
  {
    hide Distance;
    var n, m := |a|, |b|;
    matrix := new nat[n + 1, m + 1];
    for i := 0 to n + 1
      invariant forall x | 0 <= x < i :: matrix[x, 0] == x
    {
      matrix[i, 0] := i;
    }
    for j := 0 to m + 1
      invariant forall x | 0 <= x <= n :: matrix[x, 0] == x
      invariant forall y | 0 <= y < j :: matrix[0, y] == y
    {
      matrix[0, j] := j;
    }
    Border(a, b);
    for i := 1 to n + 1
      invariant forall x, y | 0 <= x <= n && 0 <= y <= m && (x < i || y == 0) :: matrix[x, y] == Cell(a, b, x, y)
    {
      for j := 1 to m + 1
        invariant forall x, y | 0 <= x <= n && 0 <= y <= m && (x < i || y == 0 || (x == i && y < j)) ::
                    matrix[x, y] == Cell(a, b, x, y)
      {
        CellUnfolds(a, b, i, j);
        var cost := if a[i - 1] == b[j - 1] then 0 else 1;
        matrix[i, j] := Min(Min(matrix[i - 1, j] + 1, matrix[i, j - 1] + 1), matrix[i - 1, j - 1] + cost);
      }
    }
  }

  lemma Border(a: string, b: string)
    ensures forall x | 0 <= x <= |a| :: Cell(a, b, x, 0) == x
    ensures forall y | 0 <= y <= |b| :: Cell(a, b, 0, y) == y
  {
    hide Cell;
    forall x | 0 <= x <= |a| ensures Cell(a, b, x, 0) == x {
      CellUnfolds(a, b, x, 0);
    }
    forall y | 0 <= y <= |b| ensures Cell(a, b, 0, y) == y {
      CellUnfolds(a, b, 0, y);
    }
  }
}
