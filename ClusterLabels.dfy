/** Labels of merged clusters: the two child labels joined by '+', smaller first.
    Splitting a label at every '+' recovers the names of the species it was built
    from, which is what keeps cluster labels apart. */
module ClusterLabels {

  const Separator: char := '+'

  /** The label buildTree gives the node merging `smaller` and `larger`. */
  function Join(smaller: string, larger: string): (r: string)
    ensures |r| == |smaller| + |larger| + 1
  {
    smaller + [Separator] + larger
  }

  /** The maximal separator-free segments of `s`, in order. */
  function Pieces(s: string): (r: seq<string>)
    ensures |r| >= 1
  {
    if |s| == 0 then [""]
    else
      var rest := Pieces(s[1..]);
      if s[0] == Separator then [""] + rest
      else [[s[0]] + rest[0]] + rest[1..]
  }

  /** Splitting a joined label gives the pieces of the left part, then those of the right. */
  lemma {:induction false} PiecesOfJoin(a: string, b: string)
    ensures Pieces(Join(a, b)) == Pieces(a) + Pieces(b)
  {
    if |a| == 0 {
      assert Join(a, b)[1..] == b;
    } else {
      assert Join(a, b)[1..] == Join(a[1..], b);
      PiecesOfJoin(a[1..], b);
    }
  }

  /** A species name without the separator is a single piece. */
  lemma {:induction false} PiecesOfName(s: string)
    requires Separator !in s
    ensures Pieces(s) == [s]
  {
    if |s| != 0 {
      assert Separator !in s[1..];
      PiecesOfName(s[1..]);
      assert s == [s[0]] + s[1..];
    }
  }

  /** No piece of one label is a piece of the other. */
  ghost predicate PiecesDisjoint(a: string, b: string)
  {
    forall x :: x in Pieces(a) ==> x !in Pieces(b)
  }

  /** A joined label differs from every label whose pieces are disjoint from both parts. */
  lemma JoinIsFresh(a: string, b: string, x: string)
    requires PiecesDisjoint(a, x) && PiecesDisjoint(b, x)
    ensures PiecesDisjoint(Join(a, b), x)
    ensures Join(a, b) != x
  {
    PiecesOfJoin(a, b);
    assert Pieces(a)[0] in Pieces(Join(a, b));
  }
}
