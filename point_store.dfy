/** Point ingestion (`read_file_to_get_points` in kmeans.c): every piece
    `fgets` reads into its 256-byte buffer (a file line, or up to 255
    characters of a longer one) is scanned for two numbers; a piece is kept
    when both were read and neither is NaN, and the kept points are stored, in file
    order, in a buffer that grows by `k` slots at a time. */
module PointStore {
  import opened Geometry

  /** One number as `%lf` reads it. */
  datatype Value = Num(v: int) | NaN

  /** What `sscanf(line, "%lf %lf", &x, &y)` leaves behind for one `fgets`
      read (at most 255 characters, so a longer file line gives several):
      its return value (the number of conversions, or EOF) and the two
      targets. A target that was not converted holds an arbitrary value. */
  datatype Scan = Scan(matched: int, x: Value, y: Value)

  /** The two guards of the reading loop: at least two conversions, and
      neither coordinate NaN. */
  predicate Accepted(line: Scan)
  {
    !(line.matched < 2) && !(line.x.NaN? || line.y.NaN?)
  }

  function PointOf(line: Scan): Point
    requires Accepted(line)
  {
    Point(line.x.v, line.y.v)
  }

  /** The points a sequence of lines yields, in file order. */
  function Kept(lines: seq<Scan>): (ps: seq<Point>)
    ensures |ps| <= |lines|
  {
    if lines == [] then []
    else
      var last := lines[|lines| - 1];
      Kept(lines[..|lines| - 1]) + (if Accepted(last) then [PointOf(last)] else [])
  }

  /** Reading two files one after the other yields the points of the first
      followed by those of the second: nothing is reordered. */
  lemma {:induction false} KeptAppend(a: seq<Scan>, b: seq<Scan>)
    ensures Kept(a + b) == Kept(a) + Kept(b)
    decreases |b|
  {
    if b == [] {
      assert a + b == a;
    } else {
      var b' := b[..|b| - 1];
      assert (a + b)[..|a + b| - 1] == a + b';
      KeptAppend(a, b');
    }
  }

  /** A point is stored exactly when some scan converted at least two
      values, neither of them NaN, and those values are its coordinates. */
  lemma {:induction false} KeptMember(lines: seq<Scan>, p: Point)
    ensures p in Kept(lines) <==>
            exists i :: 0 <= i < |lines| && lines[i].matched >= 2 &&
                        lines[i].x == Num(p.x) && lines[i].y == Num(p.y)
    decreases |lines|
  {
    if lines != [] {
      var init, last := lines[..|lines| - 1], lines[|lines| - 1];
      KeptMember(init, p);
      assert Kept(lines) == Kept(init) + (if Accepted(last) then [PointOf(last)] else []);
      assert Accepted(last) && PointOf(last) == p <==>
             last.matched >= 2 && last.x == Num(p.x) && last.y == Num(p.y);
      if p in Kept(init) {
        var i :| 0 <= i < |init| && init[i].matched >= 2 &&
                 init[i].x == Num(p.x) && init[i].y == Num(p.y);
        assert lines[i] == init[i];
      }
      if i :| 0 <= i < |lines| && lines[i].matched >= 2 &&
              lines[i].x == Num(p.x) && lines[i].y == Num(p.y) {
        if i < |init| {
          assert init[i] == lines[i];
        }
      }
    }
  }

  /** The number of stored points is the number of accepted lines. */
  function AcceptedCount(lines: seq<Scan>): nat
  {
    if lines == [] then 0
    else AcceptedCount(lines[..|lines| - 1]) + (if Accepted(lines[|lines| - 1]) then 1 else 0)
  }

  lemma {:induction false} KeptLength(lines: seq<Scan>)
    ensures |Kept(lines)| == AcceptedCount(lines)
    decreases |lines|
  {
    if lines != [] {
      KeptLength(lines[..|lines| - 1]);
    }
  }

  /** The buffer sizes the reader goes through: a multiple of `k` that
      leaves room for the next point and wastes fewer than `k` slots. */
  predicate RoomForNext(capacity: int, count: int, k: int)
    requires k >= 1
  {
    capacity % k == 0 && count < capacity <= count + k
  }

  /** `RoomForNext` fixes the capacity: it is the one multiple of `k` in
      `count + 1 .. count + k`, whatever order the stores came in. */
  lemma RoomForNextUnique(c1: int, c2: int, count: int, k: int)
    requires k >= 1
    requires RoomForNext(c1, count, k) && RoomForNext(c2, count, k)
    ensures c1 == c2
  {
    if c1 < c2 {
      ModGap(c1, c2, k);
    } else if c2 < c1 {
      ModGap(c2, c1, k);
    }
  }

  /** The only multiple of `k` strictly between `-k` and `k` is zero. */
  lemma SmallMultiple(z: int, k: int)
    requires k >= 1 && -k < z * k < k
    ensures z == 0
  {
    if z >= 1 {
      MulMonotone(1, z, k);
    } else if z <= -1 {
      MulMonotone(z, -1, k);
    }
  }

  /** Quotient and remainder are the only pair with `a == q * k + r` and
      `0 <= r < k`. */
  lemma DivModUnique(a: int, k: int, q: int, r: int)
    requires k >= 1 && a == q * k + r && 0 <= r < k
    ensures a / k == q && a % k == r
  {
    var q', r' := a / k, a % k;
    assert a == q' * k + r';
    assert (q - q') * k == r' - r;
    SmallMultiple(q - q', k);
  }

  /** Two distinct multiples of `k` are at least `k` apart. */
  lemma ModGap(a: int, b: int, k: int)
    requires k >= 1 && a < b && a % k == 0 && b % k == 0
    ensures b - a >= k
  {
    var qa, qb := a / k, b / k;
    assert a == qa * k;
    assert b == qb * k;
    assert (qb - qa) * k == b - a;
    if qb - qa < 1 {
      MulMonotone(qb - qa, 0, k);
    } else {
      MulMonotone(1, qb - qa, k);
    }
  }

  /** Adding `k` keeps a multiple of `k` a multiple of `k`. */
  lemma ModAddK(c: int, k: int)
    requires k >= 1 && c % k == 0
    ensures (c + k) % k == 0
  {
    var q := c / k;
    assert c == q * k;
    assert c + k == (q + 1) * k + 0;
    DivModUnique(c + k, k, q + 1, 0);
  }

  /** `read_file_to_get_points`: scans the lines in order, stores each
      accepted point at `count`, and after a store that makes `count` a
      multiple of `k`, reallocates the buffer to `count + k` slots. The
      array bounds check on the store is the source's "buffer always has
      room" property; the returned buffer still has room for one more. */
  method ReadPoints(lines: seq<Scan>, k: int) returns (points: array<Point>, count: nat)
    requires k >= 1
    ensures fresh(points)
    ensures count == |Kept(lines)| <= points.Length
    ensures points[..count] == Kept(lines)
    ensures RoomForNext(points.Length, count, k)
  {
    count := 0;
    points := new Point[k];
    var i := 0;
    while i < |lines|
      invariant 0 <= i <= |lines|
      invariant fresh(points)
      invariant RoomForNext(points.Length, count, k)
      invariant points[..count] == Kept(lines[..i])
    {
      var line := lines[i];
      assert lines[..i + 1][..i] == lines[..i];
      i := i + 1;
      if line.matched < 2 {
        continue;
      }
      if line.x.NaN? || line.y.NaN? {
        continue;
      }
      points[count] := Point(line.x.v, line.y.v);
      count := count + 1;
      if count % k == 0 {
        ModAddK(count, k);
        var grown := new Point[count + k];
        forall t | 0 <= t < count {
          grown[t] := points[t];
        }
        points := grown;
      }
    }
    assert lines[..i] == lines;
  }
}
