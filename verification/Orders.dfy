/** Three-way comparisons and the lexicographic order they induce. */
module Orders {

  datatype Ordering = Less | Equal | Greater

  function Flip(o: Ordering): Ordering {
    match o case Less => Greater case Equal => Equal case Greater => Less
  }

  function Then(first: Ordering, second: Ordering): Ordering {
    if first.Equal? then second else first
  }

  function Compare(a: int, b: int): Ordering {
    if a < b then Less else if a == b then Equal else Greater
  }

  /** `xz` is a possible comparison of x with z, given x with y and y with z. */
  predicate Chains(xy: Ordering, yz: Ordering, xz: Ordering) {
    !xy.Greater? && !yz.Greater? ==> !xz.Greater? && (xz.Equal? ==> xy.Equal? && yz.Equal?)
  }

  /** Element by element; a proper prefix comes first. */
  function Lexicographic<T>(cmp: (T, T) -> Ordering, a: seq<T>, b: seq<T>): Ordering {
    if a == [] then (if b == [] then Equal else Less)
    else if b == [] then Greater
    else Then(cmp(a[0], b[0]), Lexicographic(cmp, a[1..], b[1..]))
  }

  ghost predicate Flips<T(!new)>(cmp: (T, T) -> Ordering) {
    forall x, y :: cmp(y, x) == Flip(cmp(x, y))
  }

  ghost predicate Transitive<T(!new)>(cmp: (T, T) -> Ordering) {
    forall x, y, z :: Chains(cmp(x, y), cmp(y, z), cmp(x, z))
  }

  lemma {:induction false} LexicographicFlips<T(!new)>(cmp: (T, T) -> Ordering, a: seq<T>, b: seq<T>)
    requires Flips(cmp)
    ensures Lexicographic(cmp, b, a) == Flip(Lexicographic(cmp, a, b))
  {
    if a != [] && b != [] {
      LexicographicFlips(cmp, a[1..], b[1..]);
    }
  }

  lemma {:induction false} LexicographicChains<T(!new)>(cmp: (T, T) -> Ordering, a: seq<T>, b: seq<T>, c: seq<T>)
    requires Transitive(cmp)
    ensures Chains(Lexicographic(cmp, a, b), Lexicographic(cmp, b, c), Lexicographic(cmp, a, c))
  {
    if a != [] && b != [] && c != [] {
      LexicographicChains(cmp, a[1..], b[1..], c[1..]);
      assert Chains(cmp(a[0], b[0]), cmp(b[0], c[0]), cmp(a[0], c[0]));
    }
  }

  lemma {:induction false} LexicographicEqual<T(!new)>(cmp: (T, T) -> Ordering, a: seq<T>, b: seq<T>)
    requires forall x, y | x in a && y in b && cmp(x, y).Equal? :: x == y
    requires forall x | x in a :: cmp(x, x).Equal?
    ensures Lexicographic(cmp, a, b).Equal? <==> a == b
  {
    if a != [] && b != [] {
      LexicographicEqual(cmp, a[1..], b[1..]);
      assert a == [a[0]] + a[1..] && b == [b[0]] + b[1..];
    }
  }

  // ---------------------------------------------------------------- text

  function CompareChars(a: char, b: char): Ordering { Compare(a as int, b as int) }

  function CompareText(a: string, b: string): Ordering { Lexicographic(CompareChars, a, b) }

  lemma TextOrderLaws()
    ensures Flips(CompareText) && Transitive(CompareText)
  {
    assert Flips(CompareChars);
    assert Transitive(CompareChars);
    forall a, b ensures CompareText(b, a) == Flip(CompareText(a, b)) {
      LexicographicFlips(CompareChars, a, b);
    }
    forall a, b, c ensures Chains(CompareText(a, b), CompareText(b, c), CompareText(a, c)) {
      LexicographicChains(CompareChars, a, b, c);
    }
  }

  lemma EqualTextIsSame(a: string, b: string)
    ensures CompareText(a, b).Equal? <==> a == b
  {
    LexicographicEqual(CompareChars, a, b);
  }

  /** Dictionary order: the first different character decides, and a text comes before
      its continuations. */
  lemma {:induction false} TextOrderIsDictionary(p: string, x: char, a: string, y: char, b: string)
    ensures x < y ==> CompareText(p + [x] + a, p + [y] + b).Less?
    ensures x > y ==> CompareText(p + [x] + a, p + [y] + b).Greater?
    ensures CompareText(p, p + [x] + a).Less? && CompareText(p + [x] + a, p).Greater?
  {
    if p != [] {
      TextOrderIsDictionary(p[1..], x, a, y, b);
      assert (p + [x] + a)[1..] == p[1..] + [x] + a && (p + [y] + b)[1..] == p[1..] + [y] + b;
    } else {
      assert (p + [x] + a)[0] == x && (p + [y] + b)[0] == y;
    }
  }
}
