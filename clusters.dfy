/** The array of `Cluster` structs of kmeans.c and the operations that
    update it in place: `initialize_clusters`, `assign_points_to_clusters`,
    `update_centroids`, `centroids_changed` and the search in
    `write_clusters`. Cluster `c`'s three fields are kept in three parallel
    arrays: `centroid[c]`, `size[c]` (the struct's `num_points`) and row `c`
    of `members` (its `points` buffer, which holds `capacity` points). */
module Clusters {
  import opened Geometry
  import opened Lloyd

  class ClusterSet {
    const k: nat
    const capacity: nat
    const centroid: array<Point>
    const size: array<int>
    const members: array2<Point>

    ghost predicate Valid()
      reads size
    {
      centroid.Length == k && size.Length == k &&
      members.Length0 == k && members.Length1 == capacity &&
      forall c :: 0 <= c < k ==> 0 <= size[c] <= capacity
    }

    /** The members cluster `c` currently holds, in storage order. */
    ghost function Row(c: int): (r: seq<Point>)
      reads size, members
      requires Valid() && 0 <= c < k
      ensures |r| == size[c]
      ensures forall t :: 0 <= t < size[c] ==> r[t] == members[c, t]
    {
      var n := size[c];
      seq(n, t reads members requires 0 <= t < n <= members.Length1 => members[c, t])
    }

    /** The member lists of all clusters. */
    ghost function Rows(): (rows: seq<seq<Point>>)
      reads size, members
      requires Valid()
      ensures |rows| == k
      ensures forall c :: 0 <= c < k ==> rows[c] == Row(c)
    {
      seq(k, c reads size, members requires 0 <= c < k && Valid() => Row(c))
    }

    /** `initialize_clusters` on the `k` freshly allocated clusters: each
        gets the centroid `points[rand(i) % n]`, no members, and a buffer
        for `n` points. `rand(i)` is the value of the `i`-th `rand()` call. */
    constructor Initialize(points: array<Point>, n: nat, k: nat, rand: nat -> nat)
      requires 0 < n <= points.Length
      ensures Valid() && this.k == k && capacity == n
      ensures fresh(centroid) && fresh(size) && fresh(members)
      ensures centroid[..] == InitialCentroids(points[..n], rand, k)
      ensures forall c :: 0 <= c < k ==> size[c] == 0
    {
      this.k := k;
      capacity := n;
      var cen := new Point[k];
      var sz := new int[k];
      var mem := new Point[k, n];
      var i := 0;
      while i < k
        invariant 0 <= i <= k
        invariant forall c :: 0 <= c < i ==> cen[c] == points[rand(c) % n] && sz[c] == 0
      {
        var randomIndex := rand(i) % n;
        cen[i] := points[randomIndex];
        sz[i] := 0;
        i := i + 1;
      }
      centroid, size, members := cen, sz, mem;
      new;
      assert centroid[..] == InitialCentroids(points[..n], rand, k);
    }

    /** `assign_points_to_clusters`: every point `points[i]`, `i < n`, is
        appended to the buffer of the cluster whose centroid is nearest
        (the lowest index on ties). The source writes past a buffer when a
        cluster receives more points than it has room for; the requires
        excludes that. */
    method Assign(points: array<Point>, n: nat)
      requires Valid() && k > 0 && n <= points.Length
      requires forall c :: 0 <= c < k ==>
        size[c] + |Members(points[..n], centroid[..], c)| <= capacity
      modifies size, members
      ensures Valid()
      ensures forall c :: 0 <= c < k ==>
        Row(c) == old(Row(c)) + Members(points[..n], centroid[..], c)
    {
      ghost var cs := centroid[..];
      ghost var ps := points[..n];
      ghost var before := Rows();
      assert ps[..0] == [];
      ExtendNothing(before, cs);
      var i := 0;
      while i < n
        invariant 0 <= i <= n
        invariant Valid()
        invariant Rows() == Extend(before, ps[..i], cs)
        invariant forall c :: 0 <= c < k ==> |before[c]| + |Members(ps, cs, c)| <= capacity
      {
        ghost var c := Nearest(ps[i], cs);
        assert ps[..i + 1] == ps[..i] + [ps[i]];
        ExtendStep(before, ps[..i], ps[i], cs);
        RoomForPoint(before, ps, cs, i, capacity);
        assert size[c] == |Row(c)| == |Rows()[c]|;
        AssignPoint(points[i]);
        i := i + 1;
      }
      assert ps[..n] == ps;
    }

    /** One pass of the outer loop of `assign_points_to_clusters`: `p` is
        appended to the buffer of its nearest cluster. */
    method AssignPoint(p: Point)
      requires Valid() && k > 0
      requires size[Nearest(p, centroid[..])] < capacity
      modifies size, members
      ensures Valid()
      ensures Rows() == old(Rows())[Nearest(p, centroid[..]) := old(Row(Nearest(p, centroid[..]))) + [p]]
    {
      var clusterIndex := NearestCentroid(p);
      Append(clusterIndex, p);
    }

    /** `clusters[c].points[clusters[c].num_points++] = p`. */
    method Append(c: int, p: Point)
      requires Valid() && 0 <= c < k && size[c] < capacity
      modifies size, members
      ensures Valid()
      ensures Rows() == old(Rows())[c := old(Row(c)) + [p]]
    {
      var slot := size[c];
      size[c] := slot + 1;
      members[c, slot] := p;
      assert Row(c) == old(Row(c)) + [p];
      forall d | 0 <= d < k && d != c
        ensures Row(d) == old(Row(d))
      {
      }
    }

    /** The inner loop of `assign_points_to_clusters`: the running minimum
        starts at `INFINITY` and is replaced only by a strictly smaller
        distance, so the first centroid at minimum distance wins. */
    method NearestCentroid(p: Point) returns (clusterIndex: int)
      requires Valid() && k > 0
      ensures clusterIndex == Nearest(p, centroid[..])
    {
      ghost var cs := centroid[..];
      var minDistance := Infinity;
      clusterIndex := 0;
      var j := 0;
      while j < k
        invariant 0 <= j <= k && 0 <= clusterIndex < k
        invariant j == 0 ==> minDistance == Infinity && clusterIndex == 0
        invariant j > 0 ==> clusterIndex == Nearest(p, cs[..j]) &&
                            minDistance == Finite(Dist2(p, cs[clusterIndex]))
      {
        var dist := Dist2(p, centroid[j]);
        assert cs[..j + 1][..j] == cs[..j];
        if Below(dist, minDistance) {
          minDistance := Finite(dist);
          clusterIndex := j;
        }
        j := j + 1;
      }
      assert cs[..k] == cs;
    }

    /** `update_centroids`: every non-empty cluster moves its centroid to
        the truncated mean of its members; an empty one keeps it. */
    method Update()
      requires Valid()
      modifies centroid
      ensures Valid()
      ensures forall c :: 0 <= c < k ==> centroid[c] == Updated(old(centroid[c]), Row(c))
    {
      var i := 0;
      while i < k
        invariant 0 <= i <= k
        invariant forall c :: 0 <= c < i ==> centroid[c] == Updated(old(centroid[c]), Row(c))
        invariant forall c :: i <= c < k ==> centroid[c] == old(centroid[c])
      {
        ghost var row := Row(i);
        var sumX, sumY := 0, 0;
        var j := 0;
        while j < size[i]
          invariant 0 <= j <= size[i]
          invariant sumX == SumX(row[..j]) && sumY == SumY(row[..j])
        {
          assert row[..j + 1][..j] == row[..j];
          sumX := sumX + members[i, j].x;
          sumY := sumY + members[i, j].y;
          j := j + 1;
        }
        assert row[..size[i]] == row;
        if size[i] > 0 {
          var meanX := TruncDiv(sumX, size[i]);
          var meanY := TruncDiv(sumY, size[i]);
          centroid[i] := Point(meanX, meanY);
        }
        i := i + 1;
      }
    }

    /** `centroids_changed`: true exactly when some centroid differs from
        its snapshot in either coordinate. */
    method CentroidsChanged(previous: array<Point>) returns (changed: bool)
      requires Valid() && previous.Length == k
      ensures changed == Changed(centroid[..], previous[..])
      ensures !changed <==> centroid[..] == previous[..]
    {
      var i := 0;
      while i < k
        invariant 0 <= i <= k
        invariant forall c :: 0 <= c < i ==> centroid[c] == previous[c]
      {
        if centroid[i].x != previous[i].x || centroid[i].y != previous[i].y {
          return true;
        }
        i := i + 1;
      }
      assert centroid[..] == previous[..];
      return false;
    }

    /** The middle loop of `write_clusters` for one point `p`: search the
        clusters in order, writing a line for each one whose buffer holds
        `p`. */
    method WritePoint(p: Point, before: seq<Labelled>) returns (out: seq<Labelled>)
      requires Valid()
      ensures out == before + LinesFor(p, Rows(), k)
    {
      ghost var rows := Rows();
      out := before;
      var i := 0;
      while i < k
        invariant 0 <= i <= k
        invariant out == before + LinesFor(p, rows, i)
      {
        out := SearchCluster(i, p, out);
        i := i + 1;
      }
    }

    /** The innermost loop of `write_clusters`: scan cluster `i`'s buffer
        and write one line for `p` at the first slot that holds it. */
    method SearchCluster(i: int, p: Point, before: seq<Labelled>) returns (out: seq<Labelled>)
      requires Valid() && 0 <= i < k
      ensures out == before + (if p in Row(i) then [Labelled(p, i + 1)] else [])
    {
      out := before;
      var l := 0;
      while l < size[i]
        invariant 0 <= l <= size[i]
        invariant p !in Row(i)[..l]
      {
        if members[i, l] == p {
          out := out + [Labelled(p, i + 1)];
          break;
        }
        l := l + 1;
      }
    }

    /** The search of `write_clusters`: for every point in order, look
        through the clusters in order and, within a cluster, stop at the
        first member equal to the point, emitting the point with the
        cluster's 1-based label. */
    method WriteClusters(points: array<Point>, n: nat) returns (out: seq<Labelled>)
      requires Valid() && n <= points.Length
      ensures out == Output(points[..n], Rows())
    {
      ghost var ps := points[..n];
      ghost var rows := Rows();
      out := [];
      var j := 0;
      while j < n
        invariant 0 <= j <= n
        invariant out == Output(ps[..j], rows)
      {
        out := WritePoint(points[j], out);
        assert ps[..j + 1][..j] == ps[..j];
        j := j + 1;
      }
      assert ps[..n] == ps;
    }
  }

  /** The rows `before` with the members of an assignment of `ps` appended. */
  ghost function Extend(before: seq<seq<Point>>, ps: seq<Point>, cs: seq<Point>): (rows: seq<seq<Point>>)
    requires |cs| > 0
    ensures |rows| == |before|
  {
    seq(|before|, c requires 0 <= c < |before| => before[c] + Members(ps, cs, c))
  }

  lemma ExtendNothing(before: seq<seq<Point>>, cs: seq<Point>)
    requires |cs| > 0
    ensures Extend(before, [], cs) == before
  {
    var a := Extend(before, [], cs);
    forall c | 0 <= c < |before|
      ensures a[c] == before[c]
    {
      assert a[c] == before[c] + [];
    }
  }

  /** Assigning one more point `q` appends it to its nearest cluster only. */
  lemma ExtendStep(before: seq<seq<Point>>, pre: seq<Point>, q: Point, cs: seq<Point>)
    requires |cs| > 0 && Nearest(q, cs) < |before|
    ensures Extend(before, pre + [q], cs)
         == Extend(before, pre, cs)[Nearest(q, cs) := Extend(before, pre, cs)[Nearest(q, cs)] + [q]]
  {
    var n := Nearest(q, cs);
    var a := Extend(before, pre + [q], cs);
    var b := Extend(before, pre, cs);
    var b' := b[n := b[n] + [q]];
    assert (pre + [q])[..|pre|] == pre;
    forall c | 0 <= c < |before|
      ensures a[c] == b'[c]
    {
      var extra := if n == c then [q] else [];
      assert Members(pre + [q], cs, c) == Members(pre, cs, c) + extra;
      assert a[c] == before[c] + (Members(pre, cs, c) + extra);
      assert b'[c] == (before[c] + Members(pre, cs, c)) + extra;
    }
  }

  /** Assigning one more point extends only its nearest cluster. */
  lemma AssignStep(ps: seq<Point>, cs: seq<Point>, i: nat)
    requires |cs| > 0 && i < |ps|
    ensures forall c :: (Members(ps[..i + 1], cs, c)
      == Members(ps[..i], cs, c) + (if Nearest(ps[i], cs) == c then [ps[i]] else []))
  {
    assert ps[..i + 1][..i] == ps[..i];
  }

  /** While the points before `i` are being assigned, the nearest cluster
      of point `i` still has a free slot. */
  lemma RoomForPoint(before: seq<seq<Point>>, ps: seq<Point>, cs: seq<Point>, i: nat, capacity: int)
    requires |cs| > 0 && i < |ps| && Nearest(ps[i], cs) < |before|
    requires forall c :: 0 <= c < |before| ==> |before[c]| + |Members(ps, cs, c)| <= capacity
    ensures |Extend(before, ps[..i], cs)[Nearest(ps[i], cs)]| < capacity
  {
    var c := Nearest(ps[i], cs);
    AssignStep(ps, cs, i);
    MembersPrefix(ps, cs, c, i + 1);
  }

  /** A prefix of the points gives each cluster no more members than all
      of them. */
  lemma MembersPrefix(ps: seq<Point>, cs: seq<Point>, c: int, m: nat)
    requires |cs| > 0 && m <= |ps|
    ensures |Members(ps[..m], cs, c)| <= |Members(ps, cs, c)|
  {
    assert ps == ps[..m] + ps[m..];
    MembersAppend(ps[..m], ps[m..], cs, c);
  }
}
