/** Stem linking (af_latin_hints_link_segments of libfreetype/aflatin.c): every segment looks for
    its best partner on the other side of a stem, and only mutual choices stay. */
module StemLinks {
  import opened Bytes

  /** What the search does not change of a segment.  A fake segment has one point only. */
  datatype Segment = Segment(dir: int, pos: int, minCoord: int, maxCoord: int, fake: bool)

  /** What it sets: the score and index of the best partner so far, -1 for none, and the
      segment this one is a serif of. */
  datatype Stem = Stem(score: int, link: int, serif: int)

  /** The segments of an axis, with its major direction and the two constants of the search. */
  datatype Axis = Axis(segs: seq<Segment>, major: int, lenThreshold: int, lenScore: int) {
    ghost predicate Valid() { major != 0 && lenThreshold >= 1 && lenScore >= 0 }

    /** The coordinates that the segments i and j have in common. */
    function Len(i: nat, j: nat): int
      requires i < |segs| && j < |segs|
    {
      var lo := if segs[i].minCoord < segs[j].minCoord then segs[j].minCoord else segs[i].minCoord;
      var hi := if segs[i].maxCoord > segs[j].maxCoord then segs[j].maxCoord else segs[i].maxCoord;
      hi - lo
    }

    /** The segments i and j can be the two sides of a stem, i to the left. */
    predicate Sides(i: nat, j: nat)
      requires i < |segs| && j < |segs|
    {
      && segs[i].dir == major && !segs[i].fake
      && segs[i].dir + segs[j].dir == 0 && segs[j].pos > segs[i].pos && Len(i, j) >= lenThreshold
    }

    /** The less the better. */
    function Score(i: nat, j: nat): int
      requires i < |segs| && j < |segs| && lenThreshold >= 1 && Sides(i, j)
    {
      segs[j].pos - segs[i].pos + lenScore / Len(i, j)
    }

    /** The same, whichever of x and y is on the left. */
    predicate Partners(x: nat, y: nat) {
      x < |segs| && y < |segs| && (Sides(x, y) || Sides(y, x))
    }

    function Cost(x: nat, y: nat): int
      requires Partners(x, y) && lenThreshold >= 1
    {
      if Sides(x, y) then Score(x, y) else Score(y, x)
    }
  }

  const MAXSCORE := 32000

  /** The overlap of two segments is the stretch of the coordinates that both have. */
  lemma OverlapIs(ax: Axis, i: nat, j: nat, c: int)
    requires i < |ax.segs| && j < |ax.segs|
    ensures var s, t := ax.segs[i], ax.segs[j];
      var lo := if s.minCoord < t.minCoord then t.minCoord else s.minCoord;
      s.minCoord <= c <= s.maxCoord && t.minCoord <= c <= t.maxCoord <==> lo <= c <= lo + ax.Len(i, j)
  {
  }

  /** The score is the distance, and as often as the overlap goes into the length score. */
  lemma ScoreIs(ax: Axis, i: nat, j: nat)
    requires ax.Valid() && i < |ax.segs| && j < |ax.segs| && ax.Sides(i, j)
    ensures var k := ax.Score(i, j) - (ax.segs[j].pos - ax.segs[i].pos);
      k * ax.Len(i, j) <= ax.lenScore < (k + 1) * ax.Len(i, j)
  {
    var len := ax.Len(i, j);
    var k := ax.lenScore / len;
    assert ax.lenScore == len * k + ax.lenScore % len;
    assert (k + 1) * len == len * k + len;
  }

  /** Nearer is better, and so is a longer overlap; with the same overlap nearer is always less. */
  lemma ScoreLaws(ax: Axis, i: nat, j: nat, a: nat, b: nat)
    requires ax.Valid() && i < |ax.segs| && j < |ax.segs| && ax.Sides(i, j)
    requires a < |ax.segs| && b < |ax.segs| && ax.Sides(a, b) && ax.Len(i, j) >= ax.Len(a, b)
    ensures var d, e := ax.segs[j].pos - ax.segs[i].pos, ax.segs[b].pos - ax.segs[a].pos;
      && (d <= e ==> ax.Score(i, j) <= ax.Score(a, b))
      && (d < e ==> ax.Score(i, j) < ax.Score(a, b))
  {
    DivShrinks(ax.lenScore, ax.Len(i, j), ax.Len(a, b));
  }

  lemma DivShrinks(s: nat, n: nat, m: nat)
    requires n >= m > 0
    ensures s / n <= s / m
  {
    Fits(s, n);
    More(n, m, s / n);
    AtLeast(s, m, s / n);
  }

  lemma Fits(s: nat, n: nat)
    requires n > 0
    ensures n * (s / n) <= s < n * (s / n) + n
  {
  }

  lemma More(n: nat, m: nat, k: nat)
    requires n >= m
    ensures n * k >= m * k
  {
  }

  lemma AtLeast(s: nat, m: nat, k: nat)
    requires m > 0 && m * k <= s
    ensures k <= s / m
  {
    Fits(s, m);
    if k > s / m { MulMono(m, s / m, k); }
  }

  // ---------------------------------------------------------------------- the first pass

  /** The pair has been compared before the search comes to i, j. */
  predicate Before(a: nat, b: nat, i: nat, j: nat) { a < i || (a == i && b < j) }

  predicate Seen(ax: Axis, x: nat, y: nat, i: nat, j: nat) {
    ax.Partners(x, y) && if ax.Sides(x, y) then Before(x, y, i, j) else Before(y, x, i, j)
  }

  /** x has the first of its best partners among those seen, if one is better than 32000. */
  ghost predicate Best(ax: Axis, x: nat, st: Stem, i: nat, j: nat)
    requires ax.Valid()
  {
    && st.serif == -1 && st.score <= MAXSCORE
    && (forall y: nat :: Seen(ax, x, y, i, j) ==> ax.Cost(x, y) >= st.score)
    && (st.link == -1 ==> st.score == MAXSCORE)
    && (st.link != -1 ==>
          && 0 <= st.link && Seen(ax, x, st.link, i, j) && st.score == ax.Cost(x, st.link) < MAXSCORE
          && forall y: nat :: y < st.link && Seen(ax, x, y, i, j) ==> ax.Cost(x, y) > st.score)
  }

  ghost predicate AllBest(ax: Axis, st: seq<Stem>, i: nat, j: nat)
    requires ax.Valid()
  {
    |st| == |ax.segs| && forall x: nat {:trigger st[x]} :: x < |st| ==> Best(ax, x, st[x], i, j)
  }

  /** What a comparison does to one of the two. */
  function Better(st: Stem, y: nat, cost: int): Stem {
    if cost < st.score then st.(score := cost, link := y) else st
  }

  lemma SeenNext(ax: Axis, x: nat, y: nat, i: nat, j: nat)
    requires ax.Valid()
    ensures Seen(ax, x, y, i, j + 1) <==>
      || Seen(ax, x, y, i, j)
      || (ax.Partners(x, y) && ((x == i && y == j && ax.Sides(i, j)) || (x == j && y == i && ax.Sides(i, j))))
  {
  }

  /** Partners are seen in their order. */
  lemma SeenInOrder(ax: Axis, x: nat, y: nat, i: nat, j: nat)
    requires ax.Valid() && i < |ax.segs| && j < |ax.segs| && ax.Sides(i, j) && Seen(ax, x, y, i, j)
    ensures (x == i ==> y < j) && (x == j ==> y < i)
  {
  }

  lemma BestMore(ax: Axis, x: nat, y: nat, st: Stem, i: nat, j: nat)
    requires ax.Valid() && i < |ax.segs| && j < |ax.segs| && ax.Sides(i, j) && Best(ax, x, st, i, j)
    requires (x == i && y == j) || (x == j && y == i)
    ensures Best(ax, x, Better(st, y, ax.Score(i, j)), i, j + 1)
  {
    var st' := Better(st, y, ax.Score(i, j));
    forall z: nat | Seen(ax, x, z, i, j + 1)
      ensures ax.Cost(x, z) >= st'.score && (st'.link != -1 && z < st'.link ==> ax.Cost(x, z) > st'.score)
    {
      SeenNext(ax, x, z, i, j);
      if Seen(ax, x, z, i, j) { SeenInOrder(ax, x, z, i, j); }
    }
    SeenNext(ax, x, y, i, j);
    if st.link != -1 { SeenNext(ax, x, st.link, i, j); }
  }

  lemma BestStays(ax: Axis, x: nat, st: Stem, i: nat, j: nat)
    requires ax.Valid() && Best(ax, x, st, i, j)
    requires (x != i && x != j) || i >= |ax.segs| || j >= |ax.segs| || !ax.Sides(i, j)
    ensures Best(ax, x, st, i, j + 1)
  {
    forall z: nat ensures Seen(ax, x, z, i, j + 1) == Seen(ax, x, z, i, j) { SeenNext(ax, x, z, i, j); }
  }

  /** One pair of segments. */
  method Compare(ax: Axis, st: array<Stem>, i: nat, j: nat)
    requires ax.Valid() && i < |ax.segs| && j < |ax.segs| && ax.segs[i].dir == ax.major && !ax.segs[i].fake
    requires AllBest(ax, st[..], i, j)
    modifies st
    ensures AllBest(ax, st[..], i, j + 1)
  {
    ghost var was := st[..];
    var seg1, seg2 := ax.segs[i], ax.segs[j];
    var len := ax.Len(i, j);
    if seg1.dir + seg2.dir == 0 && seg2.pos > seg1.pos && len >= ax.lenThreshold {
      var score := seg2.pos - seg1.pos + ax.lenScore / len;
      if score < st[i].score {
        st[i] := st[i].(score := score, link := j);
      }
      if score < st[j].score {
        st[j] := st[j].(score := score, link := i);
      }
      assert st[i] == Better(was[i], j, ax.Score(i, j)) && st[j] == Better(was[j], i, ax.Score(i, j));
      BestMore(ax, i, j, was[i], i, j);
      BestMore(ax, j, i, was[j], i, j);
    }
    forall x: nat | x < |was| ensures Best(ax, x, st[..][x], i, j + 1) {
      if (x != i && x != j) || !ax.Sides(i, j) { BestStays(ax, x, was[x], i, j); }
    }
  }

  /** Nothing more is seen between the end of a row and the next. */
  lemma RowDone(ax: Axis, st: seq<Stem>, i: nat, j: nat)
    requires ax.Valid() && AllBest(ax, st, i, j) && i < |ax.segs|
    requires j == |ax.segs| || ax.segs[i].dir != ax.major || ax.segs[i].fake
    ensures AllBest(ax, st, i + 1, 0)
  {
    forall x: nat, y: nat ensures Seen(ax, x, y, i + 1, 0) == Seen(ax, x, y, i, j) {}
    forall x: nat | x < |st| ensures Best(ax, x, st[x], i + 1, 0) {}
  }

  /** The search for the best partners. */
  method FindPartners(ax: Axis, st: array<Stem>)
    requires ax.Valid() && st.Length == |ax.segs|
    requires forall x :: 0 <= x < st.Length ==> st[x] == Stem(MAXSCORE, -1, -1)
    modifies st
    ensures AllBest(ax, st[..], |ax.segs|, 0)
  {
    var n := |ax.segs|;
    for i := 0 to n
      invariant AllBest(ax, st[..], i, 0)
    {
      if ax.segs[i].dir == ax.major && !ax.segs[i].fake {
        for j := 0 to n
          invariant AllBest(ax, st[..], i, j)
        {
          Compare(ax, st, i, j);
        }
        RowDone(ax, st[..], i, n);
      } else {
        RowDone(ax, st[..], i, 0);
      }
    }
  }

  // --------------------------------------------------------------------- the second pass

  /** x and y have chosen each other. */
  ghost predicate Mutual(st: seq<Stem>, x: nat, y: int) {
    x < |st| && 0 <= y < |st| && st[x].link == y && st[y].link == x
  }

  ghost predicate LinksInside(st: seq<Stem>) {
    forall x {:trigger st[x]} :: 0 <= x < |st| ==> -1 <= st[x].link < |st| && st[x].link != x
  }

  /** What the second pass makes of the segment x, when it has cleared the links before it:
      a mutual link stays, any other becomes that of a serif. */
  ghost function Settled(st: seq<Stem>, x: nat): Stem
    requires x < |st| && LinksInside(st)
  {
    var y := st[x].link;
    if y == -1 || st[y].link == x then st[x]
    else st[x].(link := -1, serif := if y < x && !Mutual(st, y, st[y].link) then -1 else st[y].link)
  }

  /** The second pass: it reads links that it may have cleared before. */
  method Settle(st: array<Stem>)
    requires LinksInside(st[..])
    modifies st
    ensures forall x: nat :: x < st.Length ==> st[x] == Settled(old(st[..]), x)
  {
    ghost var was := st[..];
    for s1 := 0 to st.Length
      invariant forall x: nat :: x < st.Length ==> st[x] == if x < s1 then Settled(was, x) else was[x]
    {
      var s2 := st[s1].link;
      assert st[s1] == was[s1];
      if s2 != -1 {
        if st[s2].link != s1 {
          st[s1] := st[s1].(link := -1, serif := st[s2].link);
        }
      }
    }
  }

  // ----------------------------------------------------------------------- what it comes to

  /** x and y have come out as the two sides of a stem. */
  ghost predicate Stems(st: seq<Stem>, x: nat, y: nat) {
    x < |st| && y < |st| && st[x].link == y
  }

  /** y is the first of the best partners of x, and good enough. */
  ghost predicate FirstBest(ax: Axis, x: nat, y: nat)
    requires ax.Valid()
  {
    && ax.Partners(x, y) && ax.Cost(x, y) < MAXSCORE
    && forall z: nat :: ax.Partners(x, z) ==>
      ax.Cost(x, z) >= ax.Cost(x, y) && (z < y ==> ax.Cost(x, z) > ax.Cost(x, y))
  }

  /** The stems are exactly the pairs of segments that are each other's best partners, and only
      segments with no stem are serifs. */
  ghost predicate Linked(ax: Axis, st: seq<Stem>)
    requires ax.Valid()
  {
    && |st| == |ax.segs|
    && (forall x: nat {:trigger st[x]} :: x < |st| ==> -1 <= st[x].link < |st| && -1 <= st[x].serif < |st|)
    && (forall x: nat, y: nat {:trigger Stems(st, x, y)} {:trigger FirstBest(ax, x, y)} ::
          Stems(st, x, y) <==> FirstBest(ax, x, y) && FirstBest(ax, y, x))
    && (forall x: nat, y: nat {:trigger FirstBest(ax, x, y)} :: FirstBest(ax, x, y) && !FirstBest(ax, y, x) ==>
          st[x].serif == if y < x && st[y].link == -1 then -1 else PartnerOf(ax, y))
    && (forall x: nat {:trigger st[x]} :: x < |st| && st[x].link != -1 ==> st[x].serif == -1)
  }

  /** The first best partner of a segment, -1 if it has none. */
  ghost function PartnerOf(ax: Axis, x: nat): (y: int)
    requires ax.Valid()
    ensures y != -1 ==> y >= 0 && FirstBest(ax, x, y)
    ensures y == -1 ==> forall z: nat :: !FirstBest(ax, x, z)
  {
    if y: nat :| FirstBest(ax, x, y) then y else -1
  }

  /** A segment has only one first best partner. */
  lemma OnlyOne(ax: Axis, x: nat, y: nat, z: nat)
    requires ax.Valid() && FirstBest(ax, x, y) && FirstBest(ax, x, z)
    ensures y == z
  {
  }

  /** What the first pass has found. */
  lemma FoundIs(ax: Axis, st: seq<Stem>, x: nat)
    requires ax.Valid() && AllBest(ax, st, |ax.segs|, 0) && x < |st|
    ensures -1 <= st[x].link < |st| && st[x].link != x && st[x].serif == -1 && st[x].link == PartnerOf(ax, x)
    ensures forall y: nat :: st[x].link == y <==> FirstBest(ax, x, y)
  {
    forall y: nat ensures Seen(ax, x, y, |ax.segs|, 0) == ax.Partners(x, y) {}
    var y := st[x].link;
    assert Best(ax, x, st[x], |ax.segs|, 0);
    if y != -1 { assert FirstBest(ax, x, y); }
    forall z: nat | FirstBest(ax, x, z) ensures y == z {
      assert Seen(ax, x, z, |ax.segs|, 0);
      if y != -1 { OnlyOne(ax, x, y, z); }
    }
  }

  /** af_latin_hints_link_segments. */
  method LinkSegments(ax: Axis, st: array<Stem>)
    requires ax.Valid() && st.Length == |ax.segs|
    requires forall x :: 0 <= x < st.Length ==> st[x] == Stem(MAXSCORE, -1, -1)
    modifies st
    ensures Linked(ax, st[..])
  {
    FindPartners(ax, st);
    ghost var found := st[..];
    forall x: nat | x < |found| ensures -1 <= found[x].link < |found| && found[x].link != x { FoundIs(ax, found, x); }
    Settle(st);
    SettledLinks(ax, found, st[..]);
  }

  lemma SettledLinks(ax: Axis, found: seq<Stem>, st: seq<Stem>)
    requires ax.Valid() && AllBest(ax, found, |ax.segs|, 0) && LinksInside(found) && |st| == |found|
    requires forall x: nat {:trigger st[x]} :: x < |st| ==> st[x] == Settled(found, x)
    ensures Linked(ax, st)
  {
    forall x: nat | x < |found|
      ensures found[x].link == PartnerOf(ax, x) && found[x].serif == -1
      ensures forall y: nat :: found[x].link == y <==> FirstBest(ax, x, y)
    {
      FoundIs(ax, found, x);
    }
  }

  // -------------------------------------------------------------------- what follows from it

  /** The stems are a matching between segments of opposite directions, and neither side of a
      stem has a better partner. */
  lemma Matching(ax: Axis, st: seq<Stem>, x: nat, y: nat)
    requires ax.Valid() && Linked(ax, st) && Stems(st, x, y)
    ensures Stems(st, y, x) && ax.Partners(x, y) && ax.segs[x].dir + ax.segs[y].dir == 0 && x != y
    ensures forall z: nat :: (Stems(st, x, z) ==> z == y) && (Stems(st, z, y) ==> z == x)
    ensures forall z: nat :: ax.Partners(x, z) ==> ax.Cost(x, y) <= ax.Cost(x, z)
    ensures forall z: nat :: ax.Partners(y, z) ==> ax.Cost(x, y) <= ax.Cost(y, z)
  {
    assert FirstBest(ax, x, y) && FirstBest(ax, y, x);
    forall z: nat | Stems(st, z, y) ensures z == x {
      assert FirstBest(ax, y, z);
      OnlyOne(ax, y, x, z);
    }
  }

  /** The best pair of all, and of several the first, are each other's best partners. */
  lemma {:induction false} BestPair(ax: Axis, a: nat, b: nat) returns (x: nat, y: nat)
    requires ax.Valid() && a < |ax.segs| && b < |ax.segs| && ax.Sides(a, b) && ax.Score(a, b) < MAXSCORE
    ensures FirstBest(ax, x, y) && FirstBest(ax, y, x)
    decreases ax.Score(a, b), a, b
  {
    if z: nat :| ax.Partners(a, z) && (ax.Cost(a, z) < ax.Score(a, b) || (ax.Cost(a, z) == ax.Score(a, b) && z < b)) {
      x, y := BestPair(ax, a, z);
    } else if z: nat :| ax.Partners(b, z) &&
                        (ax.Cost(b, z) < ax.Score(a, b) || (ax.Cost(b, z) == ax.Score(a, b) && z < a)) {
      x, y := BestPair(ax, z, b);
    } else {
      x, y := a, b;
    }
  }

  /** There is a stem exactly if some two segments are good enough for one. */
  lemma SomeStem(ax: Axis, st: seq<Stem>)
    requires ax.Valid() && Linked(ax, st)
    ensures (exists x: nat, y: nat :: Stems(st, x, y)) <==>
            (exists a: nat, b: nat :: a < |ax.segs| && b < |ax.segs| && ax.Sides(a, b) && ax.Score(a, b) < 32000)
  {
    if a: nat, b: nat :| a < |ax.segs| && b < |ax.segs| && ax.Sides(a, b) && ax.Score(a, b) < MAXSCORE {
      var x, y := BestPair(ax, a, b);
      assert Stems(st, x, y);
    }
    if x: nat, y: nat :| Stems(st, x, y) {
      assert FirstBest(ax, x, y);
      assert ax.Sides(x, y) || ax.Sides(y, x);
    }
  }
}
