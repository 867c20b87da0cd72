/** The value-level meaning of one run of the engine in kmeans.c and the
    iteration in main.c: which centroid a point goes to, which points a
    cluster holds, where its centroid moves, when the loop stops, and which
    label each point gets in the output. The imperative code in clusters.dfy
    and driver.dfy is proved against these functions. */
module Lloyd {
  import opened Geometry

  // ---------------------------------------------------------------------
  // Initialisation (initialize_clusters)

  /** The starting centroids: cluster `i` takes the point at index
      `rand(i) % |ps|`, where `rand(i)` is what the `i`-th call of `rand()`
      returns. Duplicates are possible. */
  function InitialCentroids(ps: seq<Point>, rand: nat -> nat, k: nat): (cs: seq<Point>)
    requires |ps| > 0
    ensures |cs| == k
    ensures forall i :: 0 <= i < k ==> cs[i] in ps
  {
    seq(k, i requires 0 <= i < k => ps[rand(i) % |ps|])
  }

  // ---------------------------------------------------------------------
  // Assignment (assign_points_to_clusters)

  /** The index the nearest-centroid search ends with: over the first
      `|cs| - 1` centroids, then the last one replaces the running best
      only when strictly closer. */
  function Nearest(p: Point, cs: seq<Point>): (j: nat)
    requires |cs| > 0
    ensures j < |cs|
    decreases |cs|
  {
    if |cs| == 1 then 0
    else
      var m := Nearest(p, cs[..|cs| - 1]);
      if Dist2(p, cs[|cs| - 1]) < Dist2(p, cs[m]) then |cs| - 1 else m
  }

  /** The search finds a centroid at minimum distance and, of several at
      that distance, the one with the lowest index. */
  lemma {:induction false} NearestIsClosest(p: Point, cs: seq<Point>)
    requires |cs| > 0
    ensures forall i :: 0 <= i < |cs| ==> Dist2(p, cs[Nearest(p, cs)]) <= Dist2(p, cs[i])
    ensures forall i :: 0 <= i < Nearest(p, cs) ==> Dist2(p, cs[Nearest(p, cs)]) < Dist2(p, cs[i])
    decreases |cs|
  {
    if |cs| > 1 {
      var init := cs[..|cs| - 1];
      NearestIsClosest(p, init);
      assert forall i :: 0 <= i < |init| ==> init[i] == cs[i];
    }
  }

  /** Conversely the two properties of NearestIsClosest pick out a single
      index: any index at least as close as every centroid and strictly
      closer than every earlier one is the one the search returns. */
  lemma NearestUnique(p: Point, cs: seq<Point>, j: nat)
    requires j < |cs|
    requires forall i :: 0 <= i < |cs| ==> Dist2(p, cs[j]) <= Dist2(p, cs[i])
    requires forall i :: 0 <= i < j ==> Dist2(p, cs[j]) < Dist2(p, cs[i])
    ensures Nearest(p, cs) == j
  {
    NearestIsClosest(p, cs);
  }

  /** The members of cluster `c` after assigning `ps` against centroids
      `cs`: the points whose nearest centroid is `c`, in input order. */
  function Members(ps: seq<Point>, cs: seq<Point>, c: int): (ms: seq<Point>)
    requires |cs| > 0
    ensures |ms| <= |ps|
  {
    if ps == [] then []
    else
      var p := ps[|ps| - 1];
      Members(ps[..|ps| - 1], cs, c) + (if Nearest(p, cs) == c then [p] else [])
  }

  /** A point is a member of `c` exactly when it is an input point whose
      nearest centroid is `c`; so no point is in two clusters. */
  lemma {:induction false} MembersMember(ps: seq<Point>, cs: seq<Point>, c: int, p: Point)
    requires |cs| > 0
    ensures p in Members(ps, cs, c) <==> p in ps && Nearest(p, cs) == c
    decreases |ps|
  {
    if ps != [] {
      var init := ps[..|ps| - 1];
      MembersMember(init, cs, c, p);
      assert ps == init + [ps[|ps| - 1]];
    }
  }

  /** Assigning two runs of points one after the other gives, in every
      cluster, the members of the first run followed by those of the
      second: a cluster keeps its members in input order. */
  lemma {:induction false} MembersAppend(a: seq<Point>, b: seq<Point>, cs: seq<Point>, c: int)
    requires |cs| > 0
    ensures Members(a + b, cs, c) == Members(a, cs, c) + Members(b, cs, c)
    decreases |b|
  {
    if b == [] {
      assert a + b == a;
    } else {
      var b' := b[..|b| - 1];
      assert (a + b)[..|a + b| - 1] == a + b';
      MembersAppend(a, b', cs, c);
    }
  }

  /** The total number of members over clusters `0 .. m - 1`. */
  function TotalMembers(ps: seq<Point>, cs: seq<Point>, m: nat): nat
    requires |cs| > 0
  {
    if m == 0 then 0 else TotalMembers(ps, cs, m - 1) + |Members(ps, cs, m - 1)|
  }

  /** Adding one point to the input adds one member to exactly the
      clusters among `0 .. m - 1` that are its nearest: one if its nearest
      is below `m`, none otherwise. */
  lemma {:induction false} TotalMembersStep(ps: seq<Point>, p: Point, cs: seq<Point>, m: nat)
    requires |cs| > 0
    ensures TotalMembers(ps + [p], cs, m)
         == TotalMembers(ps, cs, m) + (if Nearest(p, cs) < m then 1 else 0)
  {
    assert (ps + [p])[..|ps + [p]| - 1] == ps;
    if m > 0 {
      TotalMembersStep(ps, p, cs, m - 1);
    }
  }

  /** Every point is assigned to exactly one cluster: the member counts of
      the `|cs|` clusters add up to the number of points. */
  lemma {:induction false} AssignmentComplete(ps: seq<Point>, cs: seq<Point>)
    requires |cs| > 0
    ensures TotalMembers(ps, cs, |cs|) == |ps|
    decreases |ps|
  {
    if ps == [] {
      ZeroMembers(cs, |cs|);
    } else {
      var init := ps[..|ps| - 1];
      assert ps == init + [ps[|ps| - 1]];
      AssignmentComplete(init, cs);
      TotalMembersStep(init, ps[|ps| - 1], cs, |cs|);
    }
  }

  lemma {:induction false} ZeroMembers(cs: seq<Point>, m: nat)
    requires |cs| > 0
    ensures TotalMembers([], cs, m) == 0
  {
    if m > 0 {
      ZeroMembers(cs, m - 1);
    }
  }

  // ---------------------------------------------------------------------
  // Update (update_centroids)

  function SumX(ms: seq<Point>): int
  {
    if ms == [] then 0 else SumX(ms[..|ms| - 1]) + ms[|ms| - 1].x
  }

  function SumY(ms: seq<Point>): int
  {
    if ms == [] then 0 else SumY(ms[..|ms| - 1]) + ms[|ms| - 1].y
  }

  /** The new centroid of a non-empty cluster: the mean of its members'
      coordinates, each truncated toward zero to an integer. */
  function Mean(ms: seq<Point>): (m: Point)
    requires |ms| > 0
    ensures 0 <= SumX(ms) ==> 0 <= m.x && m.x * |ms| <= SumX(ms) < m.x * |ms| + |ms|
    ensures SumX(ms) < 0 ==> m.x <= 0 && m.x * |ms| - |ms| < SumX(ms) <= m.x * |ms|
    ensures 0 <= SumY(ms) ==> 0 <= m.y && m.y * |ms| <= SumY(ms) < m.y * |ms| + |ms|
    ensures SumY(ms) < 0 ==> m.y <= 0 && m.y * |ms| - |ms| < SumY(ms) <= m.y * |ms|
  {
    Point(TruncDiv(SumX(ms), |ms|), TruncDiv(SumY(ms), |ms|))
  }

  /** The centroid a cluster has after the update: the mean of its members,
      or the old centroid when it has none. */
  function Updated(centroid: Point, ms: seq<Point>): (u: Point)
    ensures |ms| == 0 ==> u == centroid
    ensures |ms| > 0 && 0 <= SumX(ms) ==> 0 <= u.x && u.x * |ms| <= SumX(ms) < u.x * |ms| + |ms|
    ensures |ms| > 0 && SumX(ms) < 0 ==> u.x <= 0 && u.x * |ms| - |ms| < SumX(ms) <= u.x * |ms|
    ensures |ms| > 0 && 0 <= SumY(ms) ==> 0 <= u.y && u.y * |ms| <= SumY(ms) < u.y * |ms| + |ms|
    ensures |ms| > 0 && SumY(ms) < 0 ==> u.y <= 0 && u.y * |ms| - |ms| < SumY(ms) <= u.y * |ms|
  {
    if |ms| > 0 then Mean(ms) else centroid
  }

  /** One assign-and-update round: every cluster's members are computed
      afresh against the centroids `cs`, then every centroid is updated. */
  function Step(ps: seq<Point>, cs: seq<Point>): (next: seq<Point>)
    requires |cs| > 0
    ensures |next| == |cs|
  {
    seq(|cs|, c requires 0 <= c < |cs| => Updated(cs[c], Members(ps, cs, c)))
  }

  /** A cluster nobody is assigned to keeps its centroid. */
  lemma EmptyClusterStable(ps: seq<Point>, cs: seq<Point>, c: nat)
    requires c < |cs|
    requires forall p :: p in ps ==> Nearest(p, cs) != c
    ensures Members(ps, cs, c) == []
    ensures Step(ps, cs)[c] == cs[c]
  {
    if Members(ps, cs, c) != [] {
      var p := Members(ps, cs, c)[0];
      MembersMember(ps, cs, c, p);
    }
  }

  lemma MulSucc(a: int, n: int)
    ensures a * (n + 1) == a * n + a
  {
  }

  lemma {:induction false} SumBounds(ms: seq<Point>, lo: Point, hi: Point)
    requires forall t :: 0 <= t < |ms| ==> lo.x <= ms[t].x <= hi.x && lo.y <= ms[t].y <= hi.y
    ensures lo.x * |ms| <= SumX(ms) <= hi.x * |ms|
    ensures lo.y * |ms| <= SumY(ms) <= hi.y * |ms|
    decreases |ms|
  {
    if ms != [] {
      var init := ms[..|ms| - 1];
      assert forall t :: 0 <= t < |init| ==> init[t] == ms[t];
      SumBounds(init, lo, hi);
      MulSucc(lo.x, |init|);
      MulSucc(hi.x, |init|);
      MulSucc(lo.y, |init|);
      MulSucc(hi.y, |init|);
    }
  }

  /** The new centroid lies in the bounding box of the cluster's members
      (truncation toward zero never pushes it outside). */
  lemma MeanWithin(ms: seq<Point>, lo: Point, hi: Point)
    requires |ms| > 0
    requires forall t :: 0 <= t < |ms| ==> lo.x <= ms[t].x <= hi.x && lo.y <= ms[t].y <= hi.y
    ensures lo.x <= Mean(ms).x <= hi.x && lo.y <= Mean(ms).y <= hi.y
  {
    SumBounds(ms, lo, hi);
    TruncDivWithin(SumX(ms), |ms|, lo.x, hi.x);
    TruncDivWithin(SumY(ms), |ms|, lo.y, hi.y);
  }

  /** A cluster whose members all sit at one point moves its centroid
      exactly there. */
  lemma MeanOfCoincident(ms: seq<Point>, p: Point)
    requires |ms| > 0
    requires forall t :: 0 <= t < |ms| ==> ms[t] == p
    ensures Mean(ms) == p
  {
    MeanWithin(ms, p, p);
  }

  // ---------------------------------------------------------------------
  // Convergence (centroids_changed)

  /** Some centroid differs from its snapshot in a coordinate; as the
      ensures says, this is the same as the two sequences differing. */
  predicate Changed(current: seq<Point>, previous: seq<Point>)
    requires |current| == |previous|
    ensures Changed(current, previous) <==> current != previous
  {
    exists i :: 0 <= i < |current| &&
      (current[i].x != previous[i].x || current[i].y != previous[i].y)
  }

  // ---------------------------------------------------------------------
  // The iteration in main.c

  /** How the loop in main.c ends: the centroids it leaves, the snapshot
      taken at the start of the last iteration (the centroids the final
      membership was computed against), how many iterations ran, and
      whether it stopped because nothing changed. */
  datatype LoopExit = LoopExit(centroids: seq<Point>, previous: seq<Point>,
                               iterations: nat, converged: bool)

  /** Runs at most `budget` iterations from centroids `cs`, stopping after
      the first one in which no centroid changed. */
  function Iterate(ps: seq<Point>, cs: seq<Point>, budget: nat): (e: LoopExit)
    requires |cs| > 0 && budget > 0
    ensures |e.centroids| == |cs| && |e.previous| == |cs|
    decreases budget
  {
    var next := Step(ps, cs);
    if !Changed(next, cs) || budget == 1 then
      LoopExit(next, cs, 1, !Changed(next, cs))
    else
      var e := Iterate(ps, next, budget - 1);
      e.(iterations := e.iterations + 1)
  }

  /** The loop runs between one and `budget` iterations; a loop that did not
      converge used them all; the final centroids are one step from the
      last snapshot; and it reports convergence exactly when that step
      changed nothing, so that the final centroids are then a fixed point. */
  lemma {:induction false} IterateExit(ps: seq<Point>, cs: seq<Point>, budget: nat)
    requires |cs| > 0 && budget > 0
    ensures var e := Iterate(ps, cs, budget);
      && 1 <= e.iterations <= budget
      && (!e.converged ==> e.iterations == budget)
      && |e.previous| > 0
      && e.centroids == Step(ps, e.previous)
      && (e.converged <==> e.centroids == e.previous)
      && (e.converged ==> Step(ps, e.centroids) == e.centroids)
    decreases budget
  {
    var next := Step(ps, cs);
    if Changed(next, cs) && budget > 1 {
      IterateExit(ps, next, budget - 1);
    }
  }

  /** Once a round changes no centroid, another round assigns every point
      as before and again changes nothing: assignment depends only on the
      points and the centroids. */
  lemma FixedPoint(ps: seq<Point>, cs: seq<Point>)
    requires |cs| > 0
    requires !Changed(Step(ps, cs), cs)
    ensures forall c :: Members(ps, Step(ps, cs), c) == Members(ps, cs, c)
    ensures !Changed(Step(ps, Step(ps, cs)), Step(ps, cs))
  {
    assert Step(ps, cs) == cs;
  }

  // ---------------------------------------------------------------------
  // Output (write_clusters)

  /** One output line: the point and its 1-based cluster label. */
  datatype Labelled = Labelled(point: Point, clusterLabel: int)

  /** The lines written for one point `p` while looking through clusters
      `0 .. i - 1` in order: one line for every cluster whose members
      contain `p` (the inner `break` stops at the first match within a
      cluster, not across clusters). */
  function LinesFor(p: Point, rows: seq<seq<Point>>, i: nat): (out: seq<Labelled>)
    requires i <= |rows|
    ensures |out| <= i
  {
    if i == 0 then []
    else LinesFor(p, rows, i - 1) + (if p in rows[i - 1] then [Labelled(p, i)] else [])
  }

  /** `clusters` lines for each of `points` points, that is
      `points * clusters`; written as a sum so that the length bound on
      `Output` stays linear arithmetic. */
  function MaxLines(points: nat, clusters: nat): nat
  {
    if points == 0 then 0 else MaxLines(points - 1, clusters) + clusters
  }

  /** Everything written for the points `ps`, in input order: at most one
      line per point and cluster. */
  function Output(ps: seq<Point>, rows: seq<seq<Point>>): (out: seq<Labelled>)
    ensures |out| <= MaxLines(|ps|, |rows|)
  {
    if ps == [] then []
    else Output(ps[..|ps| - 1], rows) + LinesFor(ps[|ps| - 1], rows, |rows|)
  }

  /** The labelling the output should show: each point, in input order,
      tagged with one plus the index of its nearest centroid. */
  function Labels(ps: seq<Point>, cs: seq<Point>): (out: seq<Labelled>)
    requires |cs| > 0
    ensures |out| == |ps|
  {
    if ps == [] then []
    else
      var p := ps[|ps| - 1];
      Labels(ps[..|ps| - 1], cs) + [Labelled(p, Nearest(p, cs) + 1)]
  }

  /** Line `j` of the labelling is point `j` with a label in `1 .. |cs|`,
      namely one plus its nearest cluster's index. */
  lemma {:induction false} LabelsAt(ps: seq<Point>, cs: seq<Point>, j: nat)
    requires |cs| > 0 && j < |ps|
    ensures Labels(ps, cs)[j] == Labelled(ps[j], Nearest(ps[j], cs) + 1)
    ensures 1 <= Labels(ps, cs)[j].clusterLabel <= |cs|
    decreases |ps|
  {
    if j < |ps| - 1 {
      var init := ps[..|ps| - 1];
      LabelsAt(init, cs, j);
      assert init[j] == ps[j];
    }
  }

  /** The membership rows one assignment of `all` against `cs` produces. */
  function AssignedRows(all: seq<Point>, cs: seq<Point>): (rows: seq<seq<Point>>)
    requires |cs| > 0
    ensures |rows| == |cs|
  {
    seq(|cs|, c requires 0 <= c < |cs| => Members(all, cs, c))
  }

  /** An input point is in row `c` of an assignment exactly when `c` is
      its nearest cluster. */
  lemma InAssignedRow(p: Point, all: seq<Point>, cs: seq<Point>, c: nat)
    requires |cs| > 0 && c < |cs| && p in all
    ensures p in AssignedRows(all, cs)[c] <==> Nearest(p, cs) == c
  {
    MembersMember(all, cs, c, p);
  }

  /** For an input point, the search over the rows of an assignment finds
      it in exactly one cluster, its nearest. */
  lemma {:induction false} LinesForAssigned(p: Point, all: seq<Point>, cs: seq<Point>, i: nat)
    requires |cs| > 0 && i <= |cs| && p in all
    ensures LinesFor(p, AssignedRows(all, cs), i)
         == if Nearest(p, cs) < i then [Labelled(p, Nearest(p, cs) + 1)] else []
  {
    if i > 0 {
      var rows := AssignedRows(all, cs);
      LinesForAssigned(p, all, cs, i - 1);
      InAssignedRow(p, all, cs, i - 1);
      assert LinesFor(p, rows, i)
          == LinesFor(p, rows, i - 1) + (if p in rows[i - 1] then [Labelled(p, i)] else []);
    }
  }

  /** When the rows are those of an assignment, the value search of
      `write_clusters` emits exactly one line per input point, in input
      order, labelled with its nearest cluster: the same as tagging every
      point with its cluster during assignment. */
  lemma {:induction false} OutputIsLabels(all: seq<Point>, cs: seq<Point>, m: nat)
    requires |cs| > 0 && m <= |all|
    ensures Output(all[..m], AssignedRows(all, cs)) == Labels(all[..m], cs)
  {
    if m > 0 {
      var ps := all[..m];
      var p := all[m - 1];
      var rows := AssignedRows(all, cs);
      assert ps[..|ps| - 1] == all[..m - 1];
      assert ps[|ps| - 1] == p;
      OutputIsLabels(all, cs, m - 1);
      LinesForAssigned(p, all, cs, |cs|);
    }
  }
}
