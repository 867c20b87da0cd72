/** The checks and the iteration that `main` in main.c wraps around the
    engine: the `.txt` suffix test of `is_valid_txt_file`, the re-reading
    of `k` until it is acceptable, the no-data abort, the
    `MAX_ITERATIONS` loop of assign, update and convergence test, and the
    final labelling. */
module Driver {
  import opened Geometry
  import opened PointStore
  import opened Lloyd
  import opened Clusters

  /** `MAX_ITERATIONS` of main.c. */
  const MaxIterations: nat := 1000000

  // ---------------------------------------------------------------------
  // is_valid_txt_file (the suffix half)

  /** `len > 4 && strcmp(path + len - 4, ".txt") == 0`: the path is a
      non-empty name followed by `.txt`, so `.txt` alone is refused. */
  predicate IsTxtFile(path: string)
    ensures IsTxtFile(path) <==> |path| > 4 && path == path[..|path| - 4] + ".txt"
  {
    assert |path| >= 4 ==> path == path[..|path| - 4] + path[|path| - 4..];
    |path| > 4 && path[|path| - 4..] == ".txt"
  }

  /** Every non-empty name followed by `.txt` passes. */
  lemma TxtFileAccepted(stem: string)
    requires |stem| > 0
    ensures IsTxtFile(stem + ".txt")
  {
    var path := stem + ".txt";
    assert path[..|path| - 4] == stem;
  }

  // ---------------------------------------------------------------------
  // Reading k (main.c lines 43-62)

  /** The range the prompt loops accept: `k > 0`, and `k <= num_points`
      once the number of points is known. */
  datatype Limit = Unbounded | AtMost(n: int)

  predicate Acceptable(k: int, limit: Limit)
  {
    !(k <= 0 || (limit.AtMost? && limit.n < k))
  }

  /** The value `k` holds when a prompt loop exits, and the answers not yet
      read; `None` when the answers run out first. `answers` stands for the
      numbers the user types, in order. */
  function Prompt(k: int, answers: seq<int>, limit: Limit): (r: Option<(int, seq<int>)>)
    ensures r.Some? ==> Acceptable(r.value.0, limit) && |r.value.1| <= |answers|
    decreases |answers|
  {
    if Acceptable(k, limit) then Some((k, answers))
    else if answers == [] then None
    else Prompt(answers[0], answers[1..], limit)
  }

  datatype Option<T> = None | Some(value: T)

  /** A prompt loop ends with an acceptable value read from the current
      `k` or the answers, leaving a suffix of the answers unread; it fails
      exactly when neither `k` nor any answer is acceptable. */
  lemma {:induction false} PromptResult(k: int, answers: seq<int>, limit: Limit)
    ensures Prompt(k, answers, limit).Some? ==>
      var (k', rest) := Prompt(k, answers, limit).value;
      && Acceptable(k', limit)
      && (k' == k || k' in answers)
      && |rest| <= |answers| && rest == answers[|answers| - |rest|..]
      && (var used := |answers| - |rest|;
          && (used == 0 ==> k' == k)
          && (used > 0 ==> !Acceptable(k, limit) && k' == answers[used - 1] &&
                           forall i :: 0 <= i < used - 1 ==> !Acceptable(answers[i], limit)))
    ensures Prompt(k, answers, limit).None? <==>
      !Acceptable(k, limit) && forall i :: 0 <= i < |answers| ==> !Acceptable(answers[i], limit)
    decreases |answers|
  {
    if !Acceptable(k, limit) && answers != [] {
      PromptResult(answers[0], answers[1..], limit);
      assert forall i :: 1 <= i < |answers| ==> answers[i] == answers[1..][i - 1];
    }
  }

  /** `while (!acceptable) scanf("%d", &k);`, reading from `answers`. */
  method ReadClusterCount(k0: int, answers: seq<int>, limit: Limit)
    returns (k: int, rest: seq<int>, ok: bool)
    ensures ok <==> Prompt(k0, answers, limit).Some?
    ensures ok ==> Prompt(k0, answers, limit) == Some((k, rest))
  {
    k, rest := k0, answers;
    while !Acceptable(k, limit)
      invariant Prompt(k, rest, limit) == Prompt(k0, answers, limit)
      decreases |rest|
    {
      if rest == [] {
        return k, rest, false;
      }
      k, rest := rest[0], rest[1..];
    }
    ok := true;
  }

  /** Why a run stops before clustering. `NoAnswer` stands for the endless
      re-prompting the source falls into when its input ends. */
  datatype Failure = NoData | NoAnswer

  datatype Setup = Ready(k: int) | Failed(why: Failure)

  /** Lines 43-62 of main.c given the number `n` of points read: `k` is
      re-read until positive, the run aborts when no point was read, and,
      when `k` exceeds `n`, `k` is re-read until it lies in `1 .. n`. The
      clusters are only set up with such a `k`. */
  function PreRun(k0: int, answers: seq<int>, n: int): (s: Setup)
    ensures s.Ready? ==> 1 <= s.k <= n
    ensures n <= 0 ==> !s.Ready?
    ensures s == Failed(NoData) <==> n <= 0 && Prompt(k0, answers, Unbounded).Some?
    ensures Prompt(k0, answers, Unbounded).None? ==> s == Failed(NoAnswer)
  {
    PromptResult(k0, answers, Unbounded);
    match Prompt(k0, answers, Unbounded)
    case None => Failed(NoAnswer)
    case Some((k, rest)) =>
      if n <= 0 then Failed(NoData)
      else if k <= n then Ready(k)
      else
        PromptResult(k, rest, AtMost(n));
        match Prompt(k, rest, AtMost(n))
        case None => Failed(NoAnswer)
        case Some((k', _)) => Ready(k')
  }

  // ---------------------------------------------------------------------
  // The iteration (main.c lines 96-111)

  /** The copy loop at the top of the loop body: every centroid is saved
      into `old_clusters` and every member count is reset to 0. */
  method Snapshot(clusters: ClusterSet) returns (oldClusters: array<Point>)
    requires clusters.Valid()
    modifies clusters.size
    ensures clusters.Valid() && fresh(oldClusters)
    ensures oldClusters[..] == clusters.centroid[..]
    ensures forall c :: 0 <= c < clusters.k ==> clusters.size[c] == 0
  {
    var k := clusters.k;
    oldClusters := new Point[k];
    var j := 0;
    while j < k
      invariant 0 <= j <= k
      invariant clusters.Valid()
      invariant forall c :: 0 <= c < j ==> oldClusters[c] == clusters.centroid[c]
      invariant forall c :: 0 <= c < j ==> clusters.size[c] == 0
    {
      oldClusters[j] := clusters.centroid[j];
      clusters.size[j] := 0;
      j := j + 1;
    }
  }

  /** The first half of the loop body: snapshot and reset, then assign. */
  method SnapshotAndAssign(clusters: ClusterSet, points: array<Point>, n: nat)
    returns (oldClusters: array<Point>)
    requires clusters.Valid() && clusters.k > 0
    requires n <= points.Length && n <= clusters.capacity
    modifies clusters.size, clusters.members
    ensures clusters.Valid() && fresh(oldClusters)
    ensures oldClusters[..] == clusters.centroid[..]
    ensures clusters.Rows() == AssignedRows(points[..n], clusters.centroid[..])
  {
    oldClusters := Snapshot(clusters);
    ghost var ps := points[..n];
    ghost var cs := clusters.centroid[..];
    forall c | 0 <= c < clusters.k
      ensures clusters.size[c] + |Members(ps, cs, c)| <= clusters.capacity
    {
    }
    clusters.Assign(points, n);
    forall c | 0 <= c < clusters.k
      ensures clusters.Rows()[c] == AssignedRows(ps, cs)[c]
    {
      assert clusters.Row(c) == [] + Members(ps, cs, c);
    }
  }

  /** One pass of the loop body: snapshot and reset, assign, update, and
      test for change against the snapshot. */
  method Iteration(clusters: ClusterSet, points: array<Point>, n: nat)
    returns (changed: bool, ghost previous: seq<Point>)
    requires clusters.Valid() && clusters.k > 0
    requires n <= points.Length && n <= clusters.capacity
    requires points != clusters.centroid
    modifies clusters.size, clusters.members, clusters.centroid
    ensures clusters.Valid()
    ensures previous == old(clusters.centroid[..])
    ensures clusters.centroid[..] == Step(points[..n], previous)
    ensures clusters.Rows() == AssignedRows(points[..n], previous)
    ensures changed == Changed(clusters.centroid[..], previous)
  {
    var oldClusters := SnapshotAndAssign(clusters, points, n);
    previous := oldClusters[..];
    ghost var rows := clusters.Rows();
    clusters.Update();
    changed := clusters.CentroidsChanged(oldClusters);
    ghost var ps := points[..n];
    forall c | 0 <= c < clusters.k
      ensures clusters.centroid[c] == Step(ps, previous)[c]
    {
      assert clusters.Row(c) == rows[c];
    }
  }

  /** `e` with `i` more iterations counted. */
  function Later(e: LoopExit, i: nat): LoopExit
  {
    e.(iterations := e.iterations + i)
  }

  /** The `for` loop over `MAX_ITERATIONS` with its early exit: the final
      centroids, the membership of the last assignment, the number of
      iterations and whether the loop stopped on convergence are those
      `Iterate` describes. */
  method RunLoop(clusters: ClusterSet, points: array<Point>, n: nat)
    returns (iterations: nat, converged: bool)
    requires clusters.Valid() && clusters.k > 0
    requires n <= points.Length && n <= clusters.capacity
    requires points != clusters.centroid
    modifies clusters.size, clusters.members, clusters.centroid
    ensures clusters.Valid()
    ensures var e := Iterate(points[..n], old(clusters.centroid[..]), MaxIterations);
      && clusters.centroid[..] == e.centroids
      && clusters.Rows() == AssignedRows(points[..n], e.previous)
      && iterations == e.iterations && converged == e.converged
  {
    ghost var ps := points[..n];
    ghost var goal := Iterate(ps, clusters.centroid[..], MaxIterations);
    ghost var previous: seq<Point> := [];
    iterations, converged := 0, false;
    var i := 0;
    while i < MaxIterations
      invariant 0 <= i <= MaxIterations && iterations == i
      invariant clusters.Valid() && points[..n] == ps
      invariant i < MaxIterations ==>
        goal == Later(Iterate(ps, clusters.centroid[..], MaxIterations - i), i)
      invariant i == MaxIterations ==>
        goal == LoopExit(clusters.centroid[..], previous, MaxIterations, false) &&
        clusters.Rows() == AssignedRows(ps, previous)
    {
      var changed;
      changed, previous := Iteration(clusters, points, n);
      iterations := i + 1;
      if !changed {
        converged := true;
        break;
      }
      i := i + 1;
    }
  }

  // ---------------------------------------------------------------------
  // The whole run

  datatype Outcome = Clustered(lines: seq<Labelled>) | Aborted(why: Failure)

  /** `main` from reading `k` to `write_clusters`: `k0` and `answers` are
      the numbers typed for `k`, `lines` the scanned lines of the input
      file and `rand(i)` the `i`-th `rand()` value. A run that clusters
      writes every point read, in file order, with the label of the
      cluster whose centroid (as it stood before the last update) is
      nearest. */
  method KMeans(k0: int, answers: seq<int>, lines: seq<Scan>, rand: nat -> nat)
    returns (outcome: Outcome)
    ensures var ps := Kept(lines);
      match PreRun(k0, answers, |ps|)
      case Failed(why) => outcome == Aborted(why)
      case Ready(k) =>
        var e := Iterate(ps, InitialCentroids(ps, rand, k), MaxIterations);
        outcome == Clustered(Labels(ps, e.previous))
  {
    PromptResult(k0, answers, Unbounded);
    var k, rest, ok := ReadClusterCount(k0, answers, Unbounded);
    PromptResult(k, rest, AtMost(|Kept(lines)|));
    if !ok {
      return Aborted(NoAnswer);
    }
    var points, numPoints := ReadPoints(lines, k);
    if numPoints <= 0 {
      return Aborted(NoData);
    }
    if numPoints < k {
      k, rest, ok := ReadClusterCount(k, rest, AtMost(numPoints));
      if !ok {
        return Aborted(NoAnswer);
      }
    }
    var out := Cluster(points, numPoints, k, rand);
    return Clustered(out);
  }

  /** main.c from the allocation of the clusters to `write_clusters`:
      random initialisation, the iteration, and the labelling of every
      point read. */
  method Cluster(points: array<Point>, n: nat, k: nat, rand: nat -> nat)
    returns (out: seq<Labelled>)
    requires 0 < n <= points.Length && 0 < k
    ensures var ps := points[..n];
      out == Labels(ps, Iterate(ps, InitialCentroids(ps, rand, k), MaxIterations).previous)
  {
    var clusters := new ClusterSet.Initialize(points, n, k, rand);
    out := RunAndWrite(clusters, points, n);
  }

  /** main.c lines 96-113: the iteration followed by `write_clusters`. */
  method RunAndWrite(clusters: ClusterSet, points: array<Point>, n: nat)
    returns (out: seq<Labelled>)
    requires clusters.Valid() && clusters.k > 0
    requires n <= points.Length && n <= clusters.capacity
    requires points != clusters.centroid
    modifies clusters.size, clusters.members, clusters.centroid
    ensures var ps := points[..n];
      out == Labels(ps, Iterate(ps, old(clusters.centroid[..]), MaxIterations).previous)
  {
    ghost var e := Iterate(points[..n], clusters.centroid[..], MaxIterations);
    var iterations, converged := RunLoop(clusters, points, n);
    out := WriteLabels(clusters, points, n, e.previous);
  }

  /** `write_clusters` after an iteration whose last assignment was made
      against the centroids `cs`: every point read, in order, labelled by
      its nearest centroid in `cs`. */
  method WriteLabels(clusters: ClusterSet, points: array<Point>, n: nat, ghost cs: seq<Point>)
    returns (out: seq<Labelled>)
    requires clusters.Valid() && clusters.k > 0 && |cs| == clusters.k
    requires n <= points.Length
    requires clusters.Rows() == AssignedRows(points[..n], cs)
    ensures out == Labels(points[..n], cs)
  {
    out := clusters.WriteClusters(points, n);
    ghost var ps := points[..n];
    OutputIsLabels(ps, cs, |ps|);
    assert ps[..|ps|] == ps;
  }
}
