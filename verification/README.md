# scaling-unicity: the unicity engine in Dafny

This project models the core of the scaling-unicity engine. The engine
estimates how identifiable the users of a synthetic mobile-phone population
are from a few of their space-time points. A point is an hour `t` at an
antenna `x`, encoded as the column `t * n + x`. Users are built as walks on
the antenna network (`gen_cluster`). The resampler then gives each user a
random activity and random points inside its cluster. The result is a
triplet payload `(data, rows, cols, shape, rand_acts)` in which every user
owns a contiguous segment.

The payload is cut into chunks of `cs` users (`chunkify_mat_list`) and
turned into sparse matrices (`sparsify_mat_list`). It is then multiplied
against probe matrices (`get_random_points`, `vstack_multiply`). A probe is
`k` of a sampled user's own points. A population row shares all of them
exactly when `floor(dot / k) == 1`. `begin_unicity_series` grows the
population one resampled block at a time and adds every block's match
counts forward into each later step. It reports, per step and per `k`, the
share of probes matched by exactly one user.

The raw-log side is modelled as well:
- `read_lines` and `numbarator` turn one call log into a trace.
- `winner_takes_all` breaks ties between antennas.
- `chunckit`, `get_bool_array` and the `lcm` behind `get_rand_iterator` are
  small helpers.
- `get_p2u` and `check_unique` test uniqueness directly on traces.
- `get_geo` expands tower adjacency into antenna adjacency.

Randomness is never simulated. Every numpy or `random` draw is an explicit
input: a draw the generator could have produced gives the program's
result, and any other draw gives `Err(InvalidDraw)`. Python exceptions
become the `Err` cases of a `Result`:
- a failed `assert`;
- `ZeroDivisionError`;
- `KeyError`;
- an index error;
- numpy's "sample larger than population";
- shape mismatches, and an array shape with a negative dimension;
- `p=` weights that are not a distribution, or that give fewer items a
  positive weight than are drawn without replacement;
- unpacking mismatches.

Modules, one per file:

| file | module | models |
|---|---|---|
| common.dfy | Common | `Result`, sums, prefix sums, Python's floor division and modulo |
| spacetime.dfy | SpaceTime | `get_user_track`, `generate_user_indices` |
| pointindex.dfy | PointIndex | `get_p2u`, `check_unique` |
| payload.dfy | Payloads | the triplet payload and its user segments |
| chunks.dfy | Chunks | `chunkify_mat_list` |
| sparse.dfy | Sparse | `csr_matrix`, `sparsify_mat_list`, `vstack`, `vstack_multiply` |
| geo.dfy | Geo | `find_neighbors`, the tower expansion of `get_geo` |
| cluster.dfy | Cluster | `gen_cluster`, `create_cluster_array` |
| resampler.dfy | Resampler | `resampler`, `resampler_non_sparse_matrix` |
| sample.dfy | Sampling | `get_sample`, `get_random_points` |
| fullmatch.dfy | FullMatch | the `floor(dot / k)` full-match test and its column sums |
| series.dfy | Series | `pop_list` and the forward accumulation of `begin_unicity_series` |
| seriesfacts.dfy | SeriesFacts | what the accumulated counts mean |
| rawlog.dfy | RawLog | `chunckit`, `get_bool_array`, `read_lines` |
| winner.dfy | Winner | `winner_takes_all` |
| numbarator.dfy | Numbarator | the grouping and encoding of `numbarator` |
| trackfix.dfy | TrackRepair | `numbarator`'s scan as evidently intended |
| lcm.dfy | Ties | `lcm`, `target_lcm`, `get_rand_iterator` |

`library/.ipynb_checkpoints/unicity_utils-checkpoint.py` holds an older
copy of `get_sample`, `get_random_points` and `begin_unicity_series`. Its
algorithm is the same as in `library/unicity_utils.py`, so it is modelled
once, and the table cites both files. Its two calls to `resampler` pass
three arguments, at lines 83 and 108. The resampler at
`library/.ipynb_checkpoints/model_source-checkpoint.py:71` takes four, so
the model follows the four-argument call of `library/unicity_utils.py`.

## Model

| member | source | states |
|---|---|---|
| SpaceTime.GetUserTrack | library/.ipynb_checkpoints/dataformat_utils-checkpoint.py:95-102 | Splitting a trace gives one hour and one antenna per index, and each pair re-encodes to its index. With a positive antenna count every antenna lies in `[0, lants)`. A zero antenna count fails on a nonempty trace. |
| SpaceTime.GenerateUserIndices | library/.ipynb_checkpoints/dataformat_utils-checkpoint.py:112-113 | Encoding is elementwise `t * lants + x` for equal lengths. A length-one `t` or `x` is broadcast: the result has the other array's length and pairs its single entry with every entry of the other. Arrays of other unequal lengths fail. |
| SpaceTime.TrackRoundTrip | library/.ipynb_checkpoints/dataformat_utils-checkpoint.py:107 | For any nonzero antenna count, re-encoding the split of a trace gives the trace back: `generate_user_indices` reverses `get_user_track`. |
| SpaceTime.DecodeEncode | library/.ipynb_checkpoints/dataformat_utils-checkpoint.py:100-101 | Floor division and modulo by `lants` recover the hour and antenna of an encoded point whose antenna is in range. |
| SpaceTime.EncodeInjective | library/.ipynb_checkpoints/dataformat_utils-checkpoint.py:112-113 | With antennas in range, two points share an index only if they share hour and antenna. |
| PointIndex.AddTrace | library/.ipynb_checkpoints/dataformat_utils-checkpoint.py:69-72 | One trace's pass adds the trace's points as keys. It adds the user to exactly those points' lists and changes nothing else. |
| PointIndex.GetP2U | library/.ipynb_checkpoints/dataformat_utils-checkpoint.py:56-73 | The keys are exactly the points of some trace. A user is listed under a point exactly when that user's trace holds it. |
| PointIndex.CheckUnique | library/unicity_utils.py:235-237 | Fails exactly when a queried point is not a key. Otherwise it returns 1 when exactly one member of `pop` is listed under every queried point, and 0 otherwise. |
| PointIndex.CheckUniqueAgainstTraces | library/unicity_utils.py:235-237 | Against the index of the traces themselves, `check_unique` is 1 exactly when one member of `pop` has visited every queried point. |
| Payloads.FromSegments | library/.ipynb_checkpoints/model_source-checkpoint.py:109-117 | Any list of segments lays out as a well-formed payload: one activity per row, and exactly as many column entries as the activities add up to, so `cumsum(rand_acts)` ends at the length of `cols`. |
| Payloads.SegmentBounds | library/.ipynb_checkpoints/dataformat_utils-checkpoint.py:277 | `cumsum(rand_acts)[u]` is the activity total before `u` plus `rand_acts[u]`, and it never passes the end of the column array. |
| Payloads.PieceSlice | library/.ipynb_checkpoints/dataformat_utils-checkpoint.py:298-299 | The slice ending at `cumsum(rand_acts)[u]` with `rand_acts[u]` entries lies between the running totals before and through `u`. |
| Payloads.SlicesTile | library/.ipynb_checkpoints/dataformat_utils-checkpoint.py:298-299 | The users' slices, read in order, tile the column array. |
| Payloads.LabelsOfSegment | library/.ipynb_checkpoints/model_source-checkpoint.py:116 | Every entry of user `u`'s segment carries row index `u`. |
| Payloads.SegmentsRoundTrip | library/.ipynb_checkpoints/model_source-checkpoint.py:109-117 | Reading a well-formed payload's segments and laying them out again reproduces the payload. |
| Payloads.SegsOfSegments | library/.ipynb_checkpoints/model_source-checkpoint.py:109-117 | Laying segments out and reading them back gives the same segments. |
| Payloads.InBoundsSegments | library/.ipynb_checkpoints/model_source-checkpoint.py:101-102 | A laid-out payload fits its width exactly when every segment's columns do. |
| Chunks.Chunkify | library/.ipynb_checkpoints/dataformat_utils-checkpoint.py:257-302 | A zero chunk size divides by zero. Otherwise it fails its assertion exactly when `cs` does not divide the row count. On success there are `n // cs` chunks that cover all `n` rows. |
| Chunks.ChunkCount | library/.ipynb_checkpoints/dataformat_utils-checkpoint.py:275-278 | When `cs` divides `n`, `n // cs` chunks of `cs` rows cover exactly `n` rows. |
| Chunks.ChunkContents | library/.ipynb_checkpoints/dataformat_utils-checkpoint.py:284-301 | Chunk `k` is the layout of users `k*cs .. k*cs + cs - 1`: their column slices, their activities and local row indices `0 .. cs-1`. |
| Chunks.WindowRow | library/.ipynb_checkpoints/dataformat_utils-checkpoint.py:285-299 | Local row `j` of a chunk starting at user `lo` is global user `lo + j`. It has the same activity and the same columns. |
| Chunks.ChunkifyRoundTrip | library/.ipynb_checkpoints/dataformat_utils-checkpoint.py:257-302 | Every chunk is well formed, and stacking the chunks back gives the original payload: nothing is lost or reordered. |
| Sparse.Sparsify | library/.ipynb_checkpoints/dataformat_utils-checkpoint.py:224-225 | `csr_matrix` succeeds exactly when the triplet arrays have equal lengths and every index fits the shape. The result has that shape. |
| Sparse.SegmentEntries | library/.ipynb_checkpoints/dataformat_utils-checkpoint.py:224-225 | Read as csr triplets, a laid-out payload holds at `(u, c)` the number of times user `u`'s segment lists column `c`. Duplicate triplets add up. |
| Sparse.SparsifySegments | library/.ipynb_checkpoints/dataformat_utils-checkpoint.py:222-226 | An in-bounds laid-out payload becomes exactly the incidence matrix of its segments. |
| Sparse.SparsifyMatList | library/.ipynb_checkpoints/dataformat_utils-checkpoint.py:222-226 | One matrix per payload, in order. The list fails exactly when some payload cannot be converted. |
| Sparse.VStackIncidence | library/.ipynb_checkpoints/dataformat_utils-checkpoint.py:253 | Stacking the incidence matrices of consecutive groups of users gives the incidence matrix of all of them. |
| Sparse.StackThenMultiply | library/.ipynb_checkpoints/dataformat_utils-checkpoint.py:252-253 | Multiplying each block and stacking the products equals stacking the blocks and multiplying once. |
| Sparse.VStackMultiply | library/.ipynb_checkpoints/dataformat_utils-checkpoint.py:247-254 | Keeps exactly the keys of the sample dictionary. Each value is the vertical stack of the blocks times that key's matrix. It fails exactly when some shapes disagree, or when there are no blocks to stack. |
| Geo.FindNeighbors | library/.ipynb_checkpoints/geoloc_utils-checkpoint.py:28-31 | A vertex's neighbours are taken from the `indices` array. |
| Geo.NeighborListsTile | library/.ipynb_checkpoints/geoloc_utils-checkpoint.py:28-31 | Read in vertex order, the neighbour lists are exactly the `indices` array, each list being the slice `indptr` selects. |
| Geo.TowerOf | library/.ipynb_checkpoints/geoloc_utils-checkpoint.py:55-57 | Every antenna row belongs to one tower, and that tower has the row's coordinates. |
| Geo.TowersGroupByCoords | library/.ipynb_checkpoints/geoloc_utils-checkpoint.py:55-57 | Two rows share a tower exactly when they share coordinates, and every tower holds at least one row. |
| Geo.AntInTower | library/.ipynb_checkpoints/geoloc_utils-checkpoint.py:55-57 | A tower's antenna list holds exactly the rows in that tower. |
| Geo.UnionOfTowers | library/.ipynb_checkpoints/geoloc_utils-checkpoint.py:64-67 | The union holds exactly the antennas of the listed towers. |
| Geo.TowerLinks | library/.ipynb_checkpoints/geoloc_utils-checkpoint.py:62-69 | An antenna gets an entry exactly when its tower has a neighbour tower. Its entry holds exactly the antennas of the neighbour towers. |
| Geo.GetGeo | library/.ipynb_checkpoints/geoloc_utils-checkpoint.py:52-70 | Towers come from the coordinates, and the triangulation is given as neighbour lists. The map then links each antenna of a tower with neighbours to every antenna of those neighbour towers, and to nothing else. |
| Geo.GeoSymmetric | library/.ipynb_checkpoints/geoloc_utils-checkpoint.py:45-48 | Over a symmetric, irreflexive tower adjacency, the antenna relation is symmetric. |
| Geo.GeoIrreflexive | library/.ipynb_checkpoints/geoloc_utils-checkpoint.py:45-48 | Over an irreflexive tower adjacency, no antenna is a neighbour of itself or of an antenna with the same coordinates. |
| Cluster.ExtendWalk | library/.ipynb_checkpoints/model_source-checkpoint.py:26-27 | Adding an unvisited pending antenna keeps the walk distinct and connected, and keeps every pending choice a neighbour of the walk. |
| Cluster.RestartWalk | library/.ipynb_checkpoints/model_source-checkpoint.py:22-25 | A restart from a fresh key, then a step to one of its neighbours, starts a valid walk again. |
| Cluster.GrowCluster | library/.ipynb_checkpoints/model_source-checkpoint.py:20-27 | When the loop ends, it has exactly `size` distinct antennas, each one after the first a neighbour of an earlier one. |
| Cluster.GenCluster | library/.ipynb_checkpoints/model_source-checkpoint.py:16-31 | The output is the shuffle of a connected walk of `size` distinct antennas. An empty network fails. |
| Cluster.WalkReproduced | library/.ipynb_checkpoints/model_source-checkpoint.py:20-27 | Completeness of the loop: every connected walk of distinct antennas is produced by the draws that name its antennas in order. |
| Cluster.ClusterReachable | library/.ipynb_checkpoints/model_source-checkpoint.py:16-31 | Completeness: a connected walk of `size` distinct antennas, all keys of the network except perhaps the last, is an output of `gen_cluster`. Soundness is GenCluster's contract. |
| Cluster.ClusterRows | library/.ipynb_checkpoints/model_source-checkpoint.py:46-47 | The loop succeeds exactly when every user's `gen_cluster` does, and then row `u` is user `u`'s `gen_cluster` result. |
| Cluster.CreateClusterArray | library/.ipynb_checkpoints/model_source-checkpoint.py:34-48 | A negative `nusers` or `size` fails as a negative array dimension. Otherwise it succeeds exactly when every user's `gen_cluster` does. Row `u` is then that user's result, a cluster of `size` antennas, and an empty network fails. |
| Resampler.Support | library/.ipynb_checkpoints/model_source-checkpoint.py:112 | The items of positive weight, increasing: each is in range with a positive weight, and every positive-weight item is listed. |
| Resampler.DistributionSupported | library/.ipynb_checkpoints/model_source-checkpoint.py:114 | Weights numpy accepts give some item a positive weight, so a draw with replacement always exists. |
| Resampler.ChoiceCheck | library/.ipynb_checkpoints/model_source-checkpoint.py:104-114 | `np.random.choice` accepts its arguments exactly when `p` has the population's length, is a distribution, and without replacement gives at least `size` items a positive weight. Each refusal has numpy's error, in numpy's order. |
| Resampler.HoursExist | library/.ipynb_checkpoints/model_source-checkpoint.py:112 | A draw of `a` distinct hours of positive weight exists exactly when `a` is at most the number of positive weights, which is when numpy does not refuse. |
| Resampler.UserColumns | library/.ipynb_checkpoints/model_source-checkpoint.py:112-115 | A user's columns are `t * n + x` for its drawn distinct hours `t` of positive weight and drawn antennas `x` of positive frequency in its cluster row. It succeeds exactly when both `choice` calls accept their arguments and the draws are ones they could make. A refused call fails with its error, and `fbar` must be as long as the row. |
| Resampler.Resample | library/.ipynb_checkpoints/model_source-checkpoint.py:92-118 | Too few clusters fails the assertion, and a refused activity draw fails with its error. A result has `nusers` rows and `n * len(time)` columns. |
| Resampler.ResampleSucceeds | library/.ipynb_checkpoints/model_source-checkpoint.py:98-117 | The resampler succeeds exactly when there are enough clusters, every `choice` call accepts its arguments, and every draw is one it could make. A success needs `act` to be a distribution and, with any user, `time` and `fbar` too, `fbar` as long as a cluster, and every activity at most the number of hours of positive weight. |
| Resampler.ResampleShape | library/.ipynb_checkpoints/model_source-checkpoint.py:98-107 | Every activity lies in `[size, size + len(act))` and has a positive weight in `act`. `cols` and `rows` have `sum(rand_acts)` entries. |
| Resampler.ResampleUser | library/.ipynb_checkpoints/model_source-checkpoint.py:109-117 | User `u`'s segment holds, in order, the drawn hours at the drawn antennas of its own cluster row. |
| Resampler.ResampleInBounds | library/.ipynb_checkpoints/model_source-checkpoint.py:112-115 | With clustered antennas below `n`, every column is below `n * len(time)` and each user's columns are distinct. |
| Resampler.ResampleDecodes | library/.ipynb_checkpoints/model_source-checkpoint.py:112-115 | `get_user_track` of a resampled user returns exactly the hours and antennas that were drawn. |
| Resampler.NonSparseAgrees | library/.ipynb_checkpoints/model_source-checkpoint.py:54-68 | Given the same draws, the dictionary resampler succeeds whenever the sparse one does, and each user's list equals that user's sparse segment. With at least one user they fail together. With none, only the sparse one calls `choice` on `act`, so only it can refuse bad weights. |
| Sampling.GetSample | library/unicity_utils.py:40-62 | Asking for more rows than exist fails. Otherwise it succeeds exactly when the drawn rows are distinct and in range. The result has `sample_size` rows, the original width and activities `rand_acts[pop]`. |
| Sampling.SampleInBounds | library/.ipynb_checkpoints/unicity_utils-checkpoint.py:29-50 | Sample rows copy chosen users' columns, so a sample of a payload whose columns fit its width fits it too. |
| Sampling.SampleRow | library/unicity_utils.py:55-61 | Sample row `s` holds exactly the columns of user `pop[s]`. |
| Sampling.SampleEveryone | library/unicity_utils.py:40-62 | Drawing every user in order reproduces the payload. |
| Sampling.ProbePoints | library/unicity_utils.py:202-211 | A user's probe for `k` has `k` points, all of them its own, and they are distinct when its points are. |
| Sampling.ProbeMatrixEntries | library/unicity_utils.py:213-217 | Entry `(c, uid)` of the probe matrix counts `uid`'s probe points equal to `c`. So column `uid` holds exactly `k` ones. |
| Sampling.GetRandomPoints | library/unicity_utils.py:190-218 | One matrix per entry of `pl`, keyed by that entry. With a repeated entry the program fails: its arrays overrun, or the final unpack meets eight values instead of four. The model reports the failure first, as an unpack error. |
| Sampling.KeyedBy | library/.ipynb_checkpoints/unicity_utils-checkpoint.py:172-177 | The returned dictionary has exactly the entries of `pl` as keys, each mapped to its own matrix. |
| Sampling.RandomPointsSucceed | library/unicity_utils.py:190-218 | For an in-bounds sample it fails only on a repeated entry of `pl` or a draw numpy could not make. |
| FullMatch.FullMatchTest | library/unicity_utils.py:155-157 | For a probe of `k` distinct points, `floor(dot / k)` is 1 exactly when the trace holds all `k` points, and 0 otherwise. |
| FullMatch.ColumnFullMatches | library/unicity_utils.py:155-158 | The floor-and-sum fails only for `k == 0`, and then it divides by zero. Otherwise it gives one count per probe column. |
| FullMatch.FullMatchesCountHolders | library/unicity_utils.py:155-158 | For distinct-point population rows, a probe column's sum counts exactly the population users that hold every probe point. |
| Series.PopList | library/unicity_utils.py:118-119 | `pop_list` is `step, 2*step, ...`. A zero step fails. |
| Series.PopListCovers | library/unicity_utils.py:118 | The entries are all the multiples of `step` before `max_size + step`, for either sign of `step`. |
| Series.PopListDescends | library/.ipynb_checkpoints/unicity_utils-checkpoint.py:85-86 | With a negative step, every entry lies above `max_size + step` and the next multiple would not. |
| Series.PopListReaches | library/unicity_utils.py:118 | With positive step and size, the last entry is at least `max_size` and below `max_size + step`. |
| Series.AccumulateStep | library/unicity_utils.py:149-159 | Adding block `i`'s counts to step `j` keeps the invariant. Step `j` then holds the sums over blocks `0..i`. |
| Series.OuterStep | library/unicity_utils.py:161-163 | After block `i`, step `i` has all its blocks. Its unicity row can be written and is final. |
| Series.AddBlock | library/unicity_utils.py:149-159 | The inner loop succeeds exactly when every later step's counts are defined. Then every step `j >= i` holds the sums over blocks `0..i`. |
| Series.Accumulate | library/unicity_utils.py:135-163 | Forward accumulation: the loop succeeds exactly when every block-step count exists. Row `i` is then the share of probes whose sum over blocks `0..i` is exactly 1. |
| Series.OuterIteration | library/unicity_utils.py:139-163 | One outer step keeps the loop invariant: block `i` is added to every later step and step `i`'s row is final. A failure leaves some step from `i` on undefined, or divides by a zero sample size. |
| SeriesFacts.AccHolders | library/.ipynb_checkpoints/unicity_utils-checkpoint.py:116-126 | Adding block after block, a probe's running count is the number of its holders summed over the blocks added so far. |
| Series.PopulationGrows | library/unicity_utils.py:115-118 | With blocks of `step` users, blocks `0..i` hold `(i + 1) * step` users. |
| Series.BeginUnicitySeries | library/unicity_utils.py:115-168 | A negative step fails as a negative array dimension and a zero step divides by zero. An empty `pl` fails when there are rows to label. Otherwise it succeeds exactly when every block has `step` users and every count is defined. Row `i` is then labelled by the number of users in blocks `0..i`, and its entry for each `k` is the unicity of that step's accumulated counts. |
| SeriesFacts.ColHolders | library/.ipynb_checkpoints/unicity_utils-checkpoint.py:116-118 | Every block `b <= j` is matched against the same probe of step `j`, which depends on step `j`'s draws alone. Each block's count is its holders of that probe. |
| SeriesFacts.BlockStack | library/unicity_utils.py:146-147 | A block's sparsified chunks, stacked again, are the incidence matrix of the block's users. |
| SeriesFacts.BlockCounts | library/unicity_utils.py:149-159 | A block's count for a probe is the number of the block's users that hold every probe point. |
| SeriesFacts.ContributionHolders | library/unicity_utils.py:149-159 | The probe for step `j` depends only on step `j`'s draws. Block `i`'s contribution to it counts the block's users holding the probe. |
| SeriesFacts.TotalHolders | library/unicity_utils.py:135-163 | The accumulated count of a probe is the number of holders summed over blocks `0..j`. |
| SeriesFacts.OwnerHolds | library/.ipynb_checkpoints/unicity_utils-checkpoint.py:106-110 | The probe's owner is a user of block 0 that holds the probe. |
| SeriesFacts.SelfMatch | library/unicity_utils.py:140-150 | Block 0 is both probe source and scanned, so every probe's accumulated count is at least 1. |
| SeriesFacts.UnicityBounds | library/unicity_utils.py:161-163 | Unicity lies in `[0, 1]`. It is 1 exactly when every count is 1, and 0 exactly when none is. |
| RawLog.Chunckit | library/.ipynb_checkpoints/read_arrays-checkpoint.py:293-302 | A zero group count divides by zero, and a negative one makes no group. |
| RawLog.ChunckitGroups | library/.ipynb_checkpoints/read_arrays-checkpoint.py:293-302 | `n` groups. All but the last have `len // n` items, and the last also takes `len % n`. Read in order they are the list again. |
| RawLog.SetTrueCells | library/.ipynb_checkpoints/read_arrays-checkpoint.py:268 | Setting positions fails exactly when one is out of range. A cell ends `True` exactly when it was `True` or some position names it, counting negative positions from the end. |
| RawLog.BoolArrayCells | library/.ipynb_checkpoints/read_arrays-checkpoint.py:266-269 | The grid has `ant_len * date_len` cells and exists exactly when every index fits. A cell is `True` exactly when the trace names it. |
| RawLog.ReadLines | library/.ipynb_checkpoints/read_arrays-checkpoint.py:70-78 | `(-1, -1)` exactly when `line[:13]` is not a listed hour. A listed hour with an unlisted antenna raises. Otherwise the result is the first positions of the hour and of `line[20:-1]`. |
| RawLog.LineRoundTrip | library/.ipynb_checkpoints/read_arrays-checkpoint.py:70-78 | A line made of a listed hour, seven characters, a listed antenna and a line end reads back as those positions. |
| Winner.TallyCounts | library/.ipynb_checkpoints/read_arrays-checkpoint.py:117-126 | The tally lists exactly the values of `choices`, each with its number of occurrences. |
| Winner.Leaders | library/.ipynb_checkpoints/read_arrays-checkpoint.py:130-141 | The leading run after the descending sort holds exactly the most frequent choices, so the `-1` padding never leads. |
| Winner.WinnerTakesAll | library/.ipynb_checkpoints/read_arrays-checkpoint.py:114-145 | A single choice is returned as it is, and an empty list fails. Otherwise a draw succeeds exactly when it is a most frequent choice, and that choice is returned. |
| Winner.EveryLeaderReachable | library/.ipynb_checkpoints/read_arrays-checkpoint.py:145 | Every most frequent choice is an outcome of some draw. |
| Numbarator.Points | library/.ipynb_checkpoints/read_arrays-checkpoint.py:151-157 | The points are exactly the readable lines whose hour is in the table, and each is within both tables. The first unreadable line stops everything. |
| Numbarator.PermuteSorts | library/.ipynb_checkpoints/read_arrays-checkpoint.py:162-164 | Reordering by the hour argsort keeps the points and sorts them by hour. |
| Numbarator.SentinelFlush | library/.ipynb_checkpoints/read_arrays-checkpoint.py:166-179 | The `(0, 0)` point closes the last run only when the last hour is not 0. When it is 0, nothing at all is emitted. |
| Numbarator.TrackPicks | library/.ipynb_checkpoints/read_arrays-checkpoint.py:162-179 | The scan equals the reference definition: one most-frequent pick per distinct hour, the first hour primed with the first antenna. Nothing is emitted when the last hour is 0. |
| Numbarator.ReferenceFacts | library/.ipynb_checkpoints/read_arrays-checkpoint.py:167-179 | One pair per distinct hour, hours strictly increasing, each pair a point of the log. Each antenna is most frequent on its hour's ballot. |
| Numbarator.TrackProperties | library/.ipynb_checkpoints/read_arrays-checkpoint.py:162-179 | The kept pairs have strictly increasing hours and are points of the log. Unless nothing is kept, every hour of the log is kept. |
| Numbarator.HourTrack | library/.ipynb_checkpoints/read_arrays-checkpoint.py:149-179 | The pairs kept from the lines. An unreadable line's error is passed on. |
| Numbarator.NumbaratorDecodes | library/.ipynb_checkpoints/read_arrays-checkpoint.py:181-187 | Each index `total_ants * hour + antenna` decodes back to its pair, and the indices strictly increase. |
| TrackRepair.IntendedTrackFacts | library/.ipynb_checkpoints/read_arrays-checkpoint.py:162-179 | The corrected scan keeps one pair per distinct hour of the log, every hour present and hours strictly increasing. Each pair is a point whose antenna is most frequent at its hour. |
| TrackRepair.HourZeroDropped | library/.ipynb_checkpoints/read_arrays-checkpoint.py:166 | A log whose only record is at hour 0 gives an empty trace. The corrected scan keeps the record. |
| TrackRepair.FirstAntennaTwice | library/.ipynb_checkpoints/read_arrays-checkpoint.py:167-173 | The primed first antenna breaks a tie: the other antenna of a two-way tie cannot be drawn. The corrected scan can draw it. |
| Ties.Lcm | library/.ipynb_checkpoints/read_arrays-checkpoint.py:52-55 | `lcm(a, b)` is 0 exactly when an argument is 0. |
| Ties.LcmMultiple | library/.ipynb_checkpoints/read_arrays-checkpoint.py:52-55 | For nonzero arguments, `lcm` is a multiple of both. |
| Ties.LcmDividesCommon | library/.ipynb_checkpoints/read_arrays-checkpoint.py:52-55 | For nonzero arguments, `lcm` divides every common multiple. |
| Ties.GcdDivides | library/.ipynb_checkpoints/read_arrays-checkpoint.py:54 | The gcd of two numbers, not both zero, is positive and divides both. |
| Ties.TargetLcmLeast | library/.ipynb_checkpoints/read_arrays-checkpoint.py:56-58 | The target is the least common multiple of `1 .. max_ties - 1`. Every such tie count divides it, and it divides all their common multiples. |
| Ties.RandIterator | library/.ipynb_checkpoints/read_arrays-checkpoint.py:50-59 | A negative size is rejected. Otherwise the stream is exactly the `itsize` draws, each in `[0, target_lcm)`. Every tie count `k` below `max_ties` divides `target_lcm`, and each draw lies in one of its `target_lcm / k` whole rounds of `k` remainders. |
| Ties.DrawsSplitEvenly | library/.ipynb_checkpoints/read_arrays-checkpoint.py:56-59 | Every tie count `k < max_ties` divides `target_lcm`. So every value of `[0, target_lcm)` is one remainder below `k` in one of `target_lcm / k` whole rounds. |
| Ties.RoundsSplit | library/.ipynb_checkpoints/read_arrays-checkpoint.py:56-59 | For a multiple `t` of `k`, the values below `t` and the pairs (round below `t / k`, remainder below `k`) correspond one to one. With `DrawsSplitEvenly`, a uniform draw below `target_lcm` taken modulo `k` favours no tied antenna. |
| Ties.TieDrawsEven | library/.ipynb_checkpoints/read_arrays-checkpoint.py:50-59 | Each of the stream's `itsize` draws, split by a tie count `k < max_ties`, is one remainder below `k` in one of the `target_lcm / k` whole rounds of the range. |

## Left out

- Randomness: seeds, `np.random.permutation(nsteps)` and every draw are inputs. A statistical claim, such as unicity falling with population size, is not stated.
- Resampler.ChoiceCheck: weights are exact reals, so a sum counts as 1 only when it is exactly 1, while numpy accepts a float sum within a small tolerance of 1. Which draws are possible is modelled; how likely each one is, is not.
- Integer widths: the program stores `pop_list` as `int32` and activities and indices in narrow numpy types. The model uses unbounded integers and does not model wrap-around.
- Unicity is an exact rational, not a float64.
- The `lcm` division `abs(a * b) / gcd(a, b)` is a float division followed by `int`. It is modelled as exact integer division, which agrees while the product fits a double's mantissa.
- The Delaunay triangulation is foreign code. Its `vertex_neighbor_vertices` arrays are an input.
- Geo.GetGeo: towers are numbered in order of first appearance, not in pandas' sorted-key order. Only the numbering differs, and the antenna map does not depend on it.
- Reading the geography file, pickles, `np.save`/`np.load` and the call-log files are not part of this model. Lines arrive as a sequence of strings.
- pandas DataFrame building, the CSV autosave, `fprint` logging and tqdm. The one pandas error on the path, the length mismatch of `set_index` on an empty `pl`, is modelled.
- Series.BeginUnicitySeries: the resampled blocks (one `create_cluster_array` plus `resampler` per step) are inputs of the run. Their construction is modelled separately by Cluster and Resampler. A block with another number of users than `step` fails as an `InvalidDraw`.
- Cluster.GenCluster: the loop may run forever when no component of the network has `size` antennas. The model ends it when the draw stream runs out, with `Err(DrawsExhausted)`.
- Numbarator.Track: `np.argsort` is not stable, so the order of equal hours is the `order` input. It is checked to sort the points by hour.
- Winner.WinnerTakesAll: the unstable sort of tied counts makes the order of the leading run unspecified, so the draw is the value picked.
- Sampling.GetRandomPoints: with a repeated `pl` entry the program may fail earlier, on an index past an array's end or a broadcast of mismatched slices, rather than at the final unpack. The model reports every such failure as one unpack error and does not tell the kinds apart.
- Ties.RandIterator: `winner_takes_all` does not consume this stream. It draws with `np.random.choice` directly, which the model takes as the picked value.
- `get_input_dists`, `get_u2p`, `get_ant_array`, `get_flist`, `get_date_array`, directory creation, the `extract_*` and run scripts, multiprocessing workers and curve fitting are outside the engine.
- csr storage internals (`indptr` ordering, dtype, canonical form): matrices are their dense values, with duplicate triplets summed.

## Findings

| source | as written | input that shows it | evidently intended | confidence | as-written member | corrected member |
|---|---|---|---|---|---|---|
| library/.ipynb_checkpoints/read_arrays-checkpoint.py:166-177 | The scan ends with a `(0, 0)` point, which closes the open run only when its hour differs from 0. | A log whose every kept record is at hour 0 (date position 0), e.g. the single point `(0, x)`, gives an empty trace. | The last run is flushed whatever its hour, so the trace is `[(0, x)]`. | medium, not executed | TrackRepair.HourZeroDropped | TrackRepair.IntendedTrackFacts |
| library/.ipynb_checkpoints/read_arrays-checkpoint.py:167-173 | `choices` starts as `[ants[0]]` and the loop visits point 0 again, so the first hour counts its first antenna twice. | Points `(1, x), (1, y)` with `x != y`: the first ballot is `[x, x, y]`, so `y` can never be picked although the hour is a tie. | Each record votes once, giving the ballot `[x, y]` in which both antennas lead. | medium, not executed | TrackRepair.FirstAntennaTwice | TrackRepair.IntendedTrackFacts |

The as-written scan, Numbarator.Track, stays the model of `numbarator`.
TrackRepair.IntendedTrack is the corrected scan. Nothing else in this
model consumes a track.
