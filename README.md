# k-means clustering of 2-D points, modelled in Dafny

This project models the engine of a small C program that runs Lloyd's
k-means algorithm on 2-D points. The engine is in `kmeans.c`:

- `read_file_to_get_points` keeps the well-formed lines of the input file in a buffer that grows `k` slots at a time.
- `initialize_clusters` gives each of the `k` clusters a random input point as its centroid and an empty member buffer.
- `assign_points_to_clusters` appends every point to the cluster with the nearest centroid. Ties go to the lowest index, because the comparison is a strict `<` against a running minimum that starts at `INFINITY`.
- `update_centroids` moves every non-empty cluster to the mean of its members, truncated to `int`. An empty cluster keeps its centroid.
- `centroids_changed` compares every centroid with its snapshot.
- `write_clusters` writes every input point, in input order, with the 1-based index of the cluster that holds it.

`main` in `main.c` wraps the engine:

- It re-reads `k` until it is positive.
- It aborts when no point was read.
- It re-reads `k` until it lies in `1 .. num_points`.
- It runs the loop up to `MAX_ITERATIONS` times: snapshot the centroids, reset the member counts, assign, update, stop when nothing changed.
- It writes the labels.
- `is_valid_txt_file` accepts only paths ending in `.txt`.

Layout:

- `geometry.dfy` (module `Geometry`):
  - the `Point` value;
  - the squared distance `Dist2`;
  - C's truncating conversion of a quotient to `int`, `TruncDiv`.
- `point_store.dfy` (module `PointStore`): the line filter, as the function `Kept`, and the reading method `ReadPoints`.
  - The method keeps the source's `count`/buffer pair and reallocates the buffer.
  - It is proved to store exactly `Kept(lines)`.
  - It is proved to keep the buffer at the one multiple of `k` that leaves room for the next point.
- `lloyd.dfy` (module `Lloyd`): the value-level meaning of a run. It defines:
  - `Nearest`;
  - the member lists `Members`;
  - one assign-and-update round `Step`;
  - the loop `Iterate`;
  - the expected labelling `Labels`.

  It also holds the lemmas about them:
  - argmin with lowest-index tie-break;
  - every point in exactly one cluster;
  - input order kept;
  - empty clusters stable;
  - means inside the members' bounding box;
  - the loop exit conditions and the fixed point;
  - the output being exactly one correct label per point.
- `clusters.dfy` (module `Clusters`): the array of `Cluster` structs as the class `ClusterSet`.
  - The class holds three parallel arrays: `centroid`, `size` (`num_points`) and the `k × num_points` member buffer `members`.
  - It has one method per engine function, each proved against the functions of `Lloyd`.
- `driver.dfy` (module `Driver`):
  - the suffix test;
  - the `k` prompt loops over a sequence of typed answers;
  - the pre-run checks;
  - the iteration loop (`RunLoop`);
  - the whole run `KMeans`, whose result is tied to `Labels` of `Iterate` on the points read.
- `scenarios.dfy` (module `Scenarios`): three concrete inputs worked through the model.

Modelling decisions:

- **Coordinates are integers.** The distance is the squared Euclidean distance. For exact values `sqrt` is monotone, so the nearest centroid and the tie-break are unchanged (see `Geometry.Dist2` under "Left out" for rounding). The running-minimum start value `INFINITY` is the `Infinity` case of `Geometry.Distance`.
- **`rand()` is a parameter.** It is a function `rand: nat -> nat`; `rand(i)` is the `i`-th value returned. The source's index `rand() % num_points` is kept as written.
- **`sscanf` is a parameter.** Each line's result is a `Scan(matched, x, y)`, where a number is `Num(v)` or `NaN`.
- **The numbers typed for `k` are a sequence.** The source loops forever once its input ends, because `scanf` on end of input leaves `k` unchanged. The model reports that case as `NoAnswer`.
- **Means are truncated.** Take points `(0,0), (0,1), (10,10), (10,11)` with centroids `(0,0)` and `(10,10)`.
  - The exact means of the two clusters would be `(0, 0.5)` and `(10, 10.5)`.
  - `update_centroids` stores the means through `int mean_x`/`mean_y` (kmeans.c:124-125), so the centroids truncate back to `(0,0)` and `(10,10)`. The loop then stops after its first iteration.
  - `Scenarios.TruncatingRunExample` proves that outcome.

## Model

| member | source | states |
|---|---|---|
| Geometry.Dist2 | kmeans.c:86-88 | the distance measure is never negative |
| Geometry.TruncDiv | kmeans.c:124-125 | the conversion of a quotient to `int` truncates toward zero: for a non-negative dividend the result is the floor, for a negative one the ceiling |
| Geometry.TruncDivWithin | kmeans.c:124-125 | a truncated quotient of a dividend between `lo*n` and `hi*n` lies between `lo` and `hi` |
| Geometry.TruncDivExact | kmeans.c:124-125 | dividing `n*v` by `n` gives back `v` exactly |
| PointStore.Kept | kmeans.c:32-52 | the lines yield at most one point each |
| PointStore.KeptAppend | kmeans.c:32-52 | the points of two runs of lines are those of the first followed by those of the second (file order is kept) |
| PointStore.KeptMember | kmeans.c:38-52 | a point is stored exactly when some scan returned at least 2 and converted both coordinates to exactly that point's non-NaN values; this pins down the two guards of kmeans.c:38-47 |
| PointStore.KeptLength | kmeans.c:38-52 | the number of stored points is the number of accepted lines |
| PointStore.RoomForNextUnique | kmeans.c:55-56 | the buffer invariant fixes the capacity: it is the one multiple of `k` in `count+1 .. count+k` |
| PointStore.ReadPoints | kmeans.c:21-66 | the buffer's first `count` slots are exactly the accepted points in file order; capacity is a multiple of `k` with `count < capacity <= count + k`, so every store is in bounds |
| Lloyd.InitialCentroids | kmeans.c:71-73 | there are `k` starting centroids, each one of the input points |
| Lloyd.Nearest | kmeans.c:94-104 | the chosen cluster index is in range |
| Lloyd.NearestIsClosest | kmeans.c:94-104 | the chosen centroid is at minimum distance, and every lower index is strictly farther (lowest index wins ties) |
| Lloyd.NearestUnique | kmeans.c:94-104 | conversely, an index at minimum distance with every lower index strictly farther is the one chosen |
| Lloyd.Members | kmeans.c:93-109 | a cluster never holds more points than were assigned |
| Lloyd.MembersMember | kmeans.c:93-109 | a point is a member of cluster `c` exactly when it is an input point whose nearest centroid is `c` |
| Lloyd.MembersAppend | kmeans.c:106-108 | assigning two runs of points one after the other gives each cluster the first run's members followed by the second's (input order kept) |
| Lloyd.TotalMembersStep | kmeans.c:106-108 | one more point adds exactly one member over all clusters whose index is below `m`, when its nearest is one of them |
| Lloyd.AssignmentComplete | kmeans.c:93-109 | the member counts of all clusters add up to the number of points |
| Lloyd.Step | kmeans.c:113-130 | one round gives one centroid per cluster |
| Lloyd.Mean | kmeans.c:115-127 | each coordinate of the new centroid is the members' coordinate sum divided by their count, truncated toward zero |
| Lloyd.Updated | kmeans.c:123-128 | a cluster with no members keeps its centroid; for a non-empty one each new coordinate `u` is the member sum divided by the count with truncation toward zero: `u * n <= sum < u * n + n` with `u >= 0` for a non-negative sum, and `u * n - n < sum <= u * n` with `u <= 0` for a negative one |
| Lloyd.EmptyClusterStable | kmeans.c:123-128 | a cluster no point is nearest to has no members and keeps its centroid |
| Lloyd.SumBounds | kmeans.c:115-121 | the coordinate sums of a cluster lie between `count*lo` and `count*hi` when every member lies in the box `lo..hi` |
| Lloyd.MeanWithin | kmeans.c:123-127 | the new centroid of a non-empty cluster lies in the bounding box of its members |
| Lloyd.MeanOfCoincident | kmeans.c:123-127 | a cluster whose members all sit at one point moves its centroid exactly there |
| Lloyd.Changed | kmeans.c:133-141 | the coordinate-wise test reports a change exactly when the centroid sequences differ |
| Lloyd.Iterate | main.c:96-111 | the loop ends with one centroid per cluster and one snapshot per cluster |
| Lloyd.IterateExit | main.c:96-111 | the loop runs between 1 and `MAX_ITERATIONS` iterations; without convergence it used them all; the final centroids are one round from the last snapshot; it reports convergence exactly when that round changed nothing, and then the centroids are a fixed point |
| Lloyd.FixedPoint | main.c:104-110 | after a round that changes nothing, another round assigns every point to the same cluster and again changes nothing |
| Lloyd.LinesFor | kmeans.c:155-162 | a point produces at most one line per cluster searched |
| Lloyd.Output | kmeans.c:153-163 | the search writes, point by point in input order, at most one line per point and cluster |
| Lloyd.Labels | kmeans.c:153-159 | the labelling has one line per input point |
| Lloyd.LabelsAt | kmeans.c:153-159 | line `j` is input point `j` with label one plus its nearest cluster, a value in `1..k` |
| Lloyd.InAssignedRow | kmeans.c:155-157 | an input point is found in cluster `c`'s members exactly when `c` is its nearest cluster |
| Lloyd.LinesForAssigned | kmeans.c:155-162 | the search over clusters `0..i-1` writes one line for a point whose nearest cluster is below `i`, and none otherwise |
| Lloyd.OutputIsLabels | kmeans.c:153-164 | searching the members of an assignment of `all` writes each of the first `m` points exactly once, in input order, with its cluster's 1-based label |
| Clusters.ClusterSet.Initialize | kmeans.c:69-83 | the centroids are the points `points[rand(i) % n]`; every cluster has zero members and a buffer of `n` slots |
| Clusters.ClusterSet.Assign | kmeans.c:91-110 | each cluster's buffer ends as its old contents followed by the points whose nearest centroid it is, in input order; nothing else changes |
| Clusters.ClusterSet.AssignPoint | kmeans.c:106-108 | one point is appended to its nearest cluster's buffer, and every other buffer is unchanged |
| Clusters.ClusterSet.Append | kmeans.c:107-108 | the point is written at slot `num_points` and the count grows by one, leaving the other clusters alone |
| Clusters.ClusterSet.NearestCentroid | kmeans.c:94-104 | the running-minimum loop from `INFINITY` returns exactly `Nearest` of the point and the centroids |
| Clusters.ClusterSet.Update | kmeans.c:113-130 | each centroid becomes the truncated mean of its members, or stays put when it has none |
| Clusters.ClusterSet.CentroidsChanged | kmeans.c:133-141 | the early-exit loop returns false exactly when every centroid equals its snapshot |
| Clusters.ClusterSet.WriteClusters | kmeans.c:153-164 | the outer loop writes, for every point in order, one line per cluster whose buffer holds it |
| Clusters.ClusterSet.WritePoint | kmeans.c:155-163 | the loop over the clusters appends one line for each cluster, in index order, whose buffer holds the point |
| Clusters.ClusterSet.SearchCluster | kmeans.c:156-162 | the innermost loop with its `break` appends one line labelled `i + 1` exactly when cluster `i`'s buffer holds the point, and nothing otherwise |
| Clusters.ExtendStep | kmeans.c:106-108 | appending one more point changes only its nearest cluster's member list |
| Clusters.AssignStep | kmeans.c:106-108 | one more point adds itself to its nearest cluster's members and to no other |
| Clusters.RoomForPoint | kmeans.c:77 | while points are assigned, the nearest cluster of the next point still has a free slot of its `num_points`-sized buffer |
| Driver.IsTxtFile | main.c:132-133 | a path passes exactly when it is a non-empty name followed by `.txt` |
| Driver.TxtFileAccepted | main.c:132-133 | every non-empty name followed by `.txt` is accepted |
| Driver.Prompt | main.c:45-48 | a prompt loop that ends yields an acceptable value and reads no more answers than there are |
| Driver.PromptResult | main.c:45-48 | a prompt loop stops on the first acceptable value among `k` and the answers: when it read `used` answers, `k` and the first `used - 1` answers were unacceptable and the value is answer `used`; exactly the rest stays unread; it fails exactly when none is acceptable |
| Driver.ReadClusterCount | main.c:45-48 | the `while` loop re-reading `k` ends exactly when the prompt succeeds, with that value and the unread answers |
| Driver.PreRun | main.c:43-62 | clustering starts only with `1 <= k <= num_points`; the run aborts with no data exactly when no point was read after a valid first `k` |
| Driver.Snapshot | main.c:98-102 | the snapshot holds the current centroids and every member count is reset to 0 |
| Driver.SnapshotAndAssign | main.c:98-104 | after the reset and the assignment, each cluster's buffer holds exactly its members against the snapshot centroids |
| Driver.Iteration | main.c:97-110 | one pass gives new centroids one round from the snapshot, buffers matching that snapshot, and the change flag of the convergence test |
| Driver.RunLoop | main.c:96-111 | the `for` loop with its `break` ends in the state `Iterate` describes: centroids, last membership, iteration count and convergence |
| Driver.KMeans | main.c:39-113 | a run aborts for no data or for running out of answers as the pre-run checks decide; otherwise it writes every kept point, in file order, labelled by its nearest centroid as they stood before the final update |
| Driver.Cluster | main.c:93-113 | from random initialisation to the output, the labels are those of `Iterate` started at the random centroids |
| Driver.RunAndWrite | main.c:96-113 | the iteration followed by `write_clusters` produces the labels of the last snapshot |
| Driver.WriteLabels | main.c:113 | `write_clusters` after an assignment against centroids `cs` labels every point read, in order, by its nearest centroid in `cs` |
| Scenarios.TieBreakExample | kmeans.c:98-103 | point `(0,0)` with centroids `(1,0)` and `(-1,0)` goes to cluster 0 |
| Scenarios.ParsingExample | kmeans.c:35-52 | lines `1 2`, an unparsable line, `3 4` and `NaN 5` give exactly the points `(1,2)` and `(3,4)` |
| Scenarios.TruncatingRunExample | kmeans.c:123-127 | for `(0,0),(0,1),(10,10),(10,11)` from centroids `(0,0),(10,10)`, truncation leaves the centroids in place and the loop stops after one iteration |

## Left out

- File and console I/O are not modelled. This covers `fopen`, `fgets`, `fclose`, `printf`, `fprintf`, `perror` and the prompts. The input file is the sequence of `sscanf` results, one per `fgets` read into the 256-byte buffer. Each read takes at most 255 characters, so a file line longer than that is scanned as two or more pieces, each of which may yield a point of its own; the typed numbers for `k` are a sequence of integers.
- `sscanf` and `isnan` are foreign calls. Their result for a line is a parameter (`Scan`).
- `srand`, `time` and `rand` are not modelled. The value the `i`-th call of `rand()` returns is the parameter `rand(i)`.
- Floating point is not modelled; coordinates are integers. A `double` sum can lose precision, overflow or become infinite, and none of these happens in the model.
- Geometry.Dist2: is the squared distance. It does not model `sqrt(pow(...))`, which orders distances the same way only for exact values. A `double` square root can round two different squared distances above 2^52 to the same value; the source then keeps the lower index, while `Nearest` picks the strictly nearer centroid.
- Geometry.TruncDiv: does not model the range of C's `int`. The mean is converted through an `int` at kmeans.c:124-125, and a quotient outside `INT_MIN .. INT_MAX` is undefined behaviour in C. The model's coordinates are unbounded.
- Clusters.ClusterSet.Update: inherits the unbounded conversion of `Geometry.TruncDiv`, so it does not capture centroids bounded to 32 bits.
- The failure paths of `malloc`, `realloc` and `exit` are not modelled, and neither are the `free` calls and `freeCentroidMemory`. Memory is managed by Dafny.
- `get_file_path` and the file-existence half of `is_valid_txt_file` are prompting and I/O. Only the suffix test is modelled.
- The `yes`/`no` prompt, `get_user_centroids` and `initialize_custom_clusters` are not modelled. The last has no body in the source, so a run always uses random initialisation.
- main.c calls `initialize_random_clusters`, while kmeans.c defines the function as `initialize_clusters`. The model uses the kmeans.c body.
- The printing of the initial centroids in `initialize_clusters` and the `%-7.2f %-7.2f %d` text of `write_clusters` are not modelled. The output is the sequence of (point, label) pairs.
- Driver.Snapshot: copies only the centroids into the snapshot. The source copies whole structs, but the convergence test reads only the centroids.
- Clusters.ClusterSet.Assign: requires each cluster to have room for its new members. The source does not check this and would write past a buffer. The model only calls `Assign` after resetting the counts to zero, and then the room is always there, because each buffer holds `num_points` points.
- Driver.ReadClusterCount: returns `ok == false` when the answers run out. In the source, `scanf` at end of input leaves `k` unchanged and the loop never ends. A non-numeric answer also hangs the source: `scanf("%d")` leaves it unread and `k` unchanged, so every later prompt fails on it again. Answers are modelled as `seq<int>`, so such an answer cannot be written down.
