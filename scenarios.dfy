/** Concrete runs of the model on small inputs: the tie-break example, a
    file with a malformed line and a NaN line, and a two-cluster run whose
    means truncate back onto the starting centroids. */
module Scenarios {
  import opened Geometry
  import opened PointStore
  import opened Lloyd

  /** Two centroids at the same distance from the origin: the one with the
      lower index wins. */
  lemma TieBreakExample()
    ensures Nearest(Point(0, 0), [Point(1, 0), Point(-1, 0)]) == 0
  {
    var cs := [Point(1, 0), Point(-1, 0)];
    assert cs[..1] == [Point(1, 0)];
    assert Dist2(Point(0, 0), cs[1]) == Dist2(Point(0, 0), cs[0]) == 1;
  }

  /** `1 2`, a line with nothing to convert, `3 4` and `NaN 5` give the two
      points `(1, 2)` and `(3, 4)`. */
  lemma ParsingExample(junkX: Value, junkY: Value)
    ensures Kept([Scan(2, Num(1), Num(2)), Scan(0, junkX, junkY),
                  Scan(2, Num(3), Num(4)), Scan(2, NaN, Num(5))])
         == [Point(1, 2), Point(3, 4)]
  {
    var lines := [Scan(2, Num(1), Num(2)), Scan(0, junkX, junkY),
                  Scan(2, Num(3), Num(4)), Scan(2, NaN, Num(5))];
    assert lines[..1][..0] == [];
    assert Kept(lines[..1]) == [Point(1, 2)];
    assert lines[..2][..1] == lines[..1];
    assert Kept(lines[..2]) == [Point(1, 2)];
    assert lines[..3][..2] == lines[..2];
    assert Kept(lines[..3]) == [Point(1, 2), Point(3, 4)];
    assert lines[..3] == lines[..|lines| - 1];
  }

  /** Points `(0,0), (0,1), (10,10), (10,11)` with centroids `(0,0)` and
      `(10,10)`: each pair is one cluster, and the means `(0, 0.5)` and
      `(10, 10.5)` truncate to the old centroids, so the loop stops after
      its first iteration with those centroids. */
  lemma TruncatingRunExample()
    ensures Step([Point(0, 0), Point(0, 1), Point(10, 10), Point(10, 11)],
                 [Point(0, 0), Point(10, 10)])
         == [Point(0, 0), Point(10, 10)]
    ensures Iterate([Point(0, 0), Point(0, 1), Point(10, 10), Point(10, 11)],
                    [Point(0, 0), Point(10, 10)], 1000000)
         == LoopExit([Point(0, 0), Point(10, 10)], [Point(0, 0), Point(10, 10)], 1, true)
  {
    var ps := [Point(0, 0), Point(0, 1), Point(10, 10), Point(10, 11)];
    var cs := [Point(0, 0), Point(10, 10)];
    assert cs[..1] == [Point(0, 0)];
    assert Nearest(ps[0], cs) == 0;
    assert Nearest(ps[1], cs) == 0;
    assert Nearest(ps[2], cs) == 1;
    assert Nearest(ps[3], cs) == 1;
    assert ps[..1][..0] == [];
    assert ps[..2][..1] == ps[..1];
    assert ps[..3][..2] == ps[..2];
    assert ps[..3] == ps[..|ps| - 1];
    assert Members(ps[..2], cs, 0) == [Point(0, 0), Point(0, 1)];
    assert Members(ps, cs, 0) == [Point(0, 0), Point(0, 1)];
    assert Members(ps[..2], cs, 1) == [];
    assert Members(ps, cs, 1) == [Point(10, 10), Point(10, 11)];
    var m0 := [Point(0, 0), Point(0, 1)];
    var m1 := [Point(10, 10), Point(10, 11)];
    assert m0[..1][..0] == [] && m1[..1][..0] == [];
    assert SumX(m0) == 0 && SumY(m0) == 1;
    assert SumX(m1) == 20 && SumY(m1) == 21;
    assert Mean(m0) == Point(0, 0);
    assert Mean(m1) == Point(10, 10);
    var next := Step(ps, cs);
    assert next[0] == Point(0, 0) && next[1] == Point(10, 10);
    assert next == cs;
  }
}
