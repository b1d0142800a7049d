# SEG-Y viewer backend: amplitude normaliser, metadata summary and drill telemetry

This project models the two computational pieces of the backend of a 3D
seismic viewer, and proves properties of them.

* **Slice normalisation and metadata summary** (`backend/segy_processing.py`).
  `normalize` takes an amplitude array. An array with no values comes back
  unchanged. Otherwise it computes the 1st and 99th percentiles of all values
  (numpy's default linear interpolation), clips every value to that window
  and rescales it into [0, 1]. When the two percentiles coincide the divisor
  is 1.0. `get_segy_metadata` summarises a file that segyio has opened. It
  reports the trace count, the number of inlines and crosslines, the first 50
  line numbers of each axis, the number of samples, and a sample rate taken
  from the first two sample times when there are two. The inline and
  crossline slice endpoints look a line up in segyio's accessor and normalise
  the 2D array they get back.
* **Drill-state store and subscriber registry** (`backend/app.py`). The
  server keeps one drill state `{path, bit, md}` and a list of connected
  websocket clients. An update overwrites `bit` and `md` whenever they are
  present (not null), and `path` only when it is a non-empty list. The new
  state is then broadcast to every client, and the clients whose send failed
  are removed from the list. A new connection is appended to the list and
  greeted with the current state. A disconnect removes the client, and does
  nothing if it is already gone.

Modules:

* `Wrappers` (wrappers.dfy): `Option` and `Result`.
* `Percentile` (percentile.dfy): `np.percentile` with its default method. It
  reads the ranks of a sorted copy of the data. The model builds that copy by
  insertion sort, proved sorted and a permutation; `SortedUnique` shows that
  any sorted permutation has the same ranks, so how numpy finds them (a
  partition) does not matter. Then it interpolates linearly at virtual index
  (n - 1) * q / 100. The model carries that index as the integer
  k = (n - 1) * q, so its whole part is k / 100 and its fraction is
  (k % 100) / 100.
* `SegyProcessing` (segy_processing.dfy): `Normalize` on a 2D array
  `seq<seq<real>>`, the metadata summary, and the two slice endpoints. What
  segyio exposes about an open file is the input record `SegyView`. Its
  line-number lists are `Option`s, because the source falls back to an empty
  list when the attribute is missing. Its inline and crossline accessors are
  maps from line number to 2D array.
* `DrillApp` (drill_app.dfy): the merge function and the client-list
  functions (`RemoveFirst` is `list.remove` with the `ValueError` ignored;
  `Failed` and `Survivors` split a client list by per-client send outcome).
  The class `DrillHub` holds the two module-level globals as fields `state`
  and `clients`. Its methods `Subscribe`, `Disconnect`, `Prune`, `Broadcast`
  and `UpdateDrill` change them in place. The outcome of each `send_json`
  is an input flag, one per client.

Modelling decisions:

* Amplitudes are exact reals. Python's `int()` on a float truncates toward
  zero; that is written out as `TruncateToInt`.
* A client is an identity (`ClientId`). Each accepted websocket is a new
  object, so it is never already in the list. `Subscribe` therefore requires
  `c !in clients`, and the class invariant `Valid()` says the list has no
  duplicates. With no duplicates, removing each stale client's first
  occurrence is the same as keeping the clients whose send succeeded, in
  their original order. `PruneFailed` proves this.
* `normalize` calls `np.percentile(arr, [1, 99])` on all values of the
  array. This interpolates linearly between ranks, and it does not leave out
  NaN or infinite values. The model takes every value as given.
* All SEG-Y decoding is done by the segyio library: binary and trace
  headers, sample formats and the inline/crossline geometry. segyio is not
  part of this model.
* In `ws_drill`, the body of the `try` is only the `asyncio.sleep` keep-alive
  loop (backend/app.py:127-131). It never reads from the socket, and
  `asyncio.sleep` cannot raise `WebSocketDisconnect`. So the `except` branch
  at backend/app.py:132-136 is unreachable as written. A client that goes
  away stays listed until a broadcast to it fails and it is pruned.
  `DrillHub.Disconnect` models that branch as written.

## Model

| member | source | states |
|---|---|---|
| Percentile.SortReals | backend/segy_processing.py:58 | the sorted copy numpy takes is sorted and has exactly the input's elements (same multiset, same length) |
| Percentile.Insert | backend/segy_processing.py:58 | inserting into a sorted sequence keeps it sorted and adds exactly one copy of the element |
| Percentile.SortedUnique | backend/segy_processing.py:58 | two sorted sequences with the same multiset of elements are equal, so the sorted copy is unique |
| Percentile.Interpolate | backend/segy_processing.py:58 | the value at a scaled rank lies between the smallest and largest element, is at least the element at the rank's whole part and at most the next element, and is that element when the fraction is zero |
| Percentile.InterpolateMonotone | backend/segy_processing.py:58 | a larger rank never gives a smaller interpolated value |
| Percentile.Lerp | backend/segy_processing.py:58 | numpy's interpolation step stays between the two neighbouring ranks, giving the lower one at fraction 0 and the upper one at fraction 1 |
| Percentile.ScaledRank | backend/segy_processing.py:58 | numpy's virtual index (n - 1) * q / 100, times 100, lies in [0, (n - 1) * 100]; the 0th percentile has rank 0 and the 100th the last rank |
| Percentile.Percentile | backend/segy_processing.py:58 | `np.percentile` lies between the smallest and largest value; the 0th percentile is the minimum and the 100th the maximum |
| Percentile.PercentileInRange | backend/segy_processing.py:58 | every percentile is at least some data value and at most some data value |
| Percentile.PercentileMonotone | backend/segy_processing.py:58 | q1 <= q2 implies percentile q1 <= percentile q2, so p1 <= p99 |
| Percentile.PercentileOrderFree | backend/segy_processing.py:58 | the percentile depends only on the multiset of values, not on their order |
| Percentile.PercentileConstant | backend/segy_processing.py:58 | every percentile of constant data is that constant |
| SegyProcessing.Flatten | backend/segy_processing.py:56 | the flattened values are empty exactly when every row is empty (numpy's `size == 0`) |
| SegyProcessing.FlatPosition | backend/segy_processing.py:58 | every flattened value sits at some position (i, j) of the array |
| SegyProcessing.FlattenCovers | backend/segy_processing.py:58 | every value of the array is among the flattened values the percentiles are taken over |
| SegyProcessing.PercentileWindow | backend/segy_processing.py:58 | the window [p1, p99] is ordered, p1 is at least some data value and p99 at most some data value |
| SegyProcessing.Span | backend/segy_processing.py:59 | the divisor is never zero; it is 1.0 for a point window and p99 - p1 otherwise |
| SegyProcessing.Clip | backend/segy_processing.py:60 | `np.clip` lands inside an ordered window, returns values already inside it, and returns the nearer end for values outside |
| SegyProcessing.Rescale | backend/segy_processing.py:60-61 | each output lies in [0,1]; inputs at or below p1 give 0, inputs at or above p99 give 1 unless p1 == p99, a point window gives 0, and inside the window the map is (v - p1) / (p99 - p1) |
| SegyProcessing.RescaleMonotone | backend/segy_processing.py:60-61 | clipping then rescaling preserves the order of inputs |
| SegyProcessing.RescaleRow | backend/segy_processing.py:60-61 | one row is rescaled elementwise and keeps its length |
| SegyProcessing.RescaleSlice | backend/segy_processing.py:60-61 | every row is rescaled and the number of rows is kept |
| SegyProcessing.Normalize | backend/segy_processing.py:52-61 | same shape as the input; an array with no values is returned unchanged; every output lies in [0,1]; otherwise the output is the elementwise rescale through the 1st/99th percentile window |
| SegyProcessing.NormalizeClipsFirst | backend/segy_processing.py:60-61 | clipping happens before rescaling: values <= p1 become exactly 0, values >= p99 become exactly 1 when p1 < p99 |
| SegyProcessing.NormalizeDegenerate | backend/segy_processing.py:59-61 | when p1 == p99 every output is 0 |
| SegyProcessing.NormalizeConstant | backend/segy_processing.py:58-61 | a constant non-empty array normalises to all zeros |
| SegyProcessing.NormalizeMonotone | backend/segy_processing.py:60-61 | if one input value is at most another, so is its output |
| SegyProcessing.NormalizeReachesBounds | backend/segy_processing.py:58-61 | unless the window is a point, some output is 0 and some output is 1 |
| SegyProcessing.LinesOrEmpty | backend/segy_processing.py:40-41 | a missing `ilines`/`xlines` attribute counts as the empty list |
| SegyProcessing.Preview | backend/segy_processing.py:45-46 | the listed line numbers are an order-preserving prefix of the full list, of length min(50, n) |
| SegyProcessing.TruncateToInt | backend/segy_processing.py:48 | Python's `int()` on a float: the result is within 1 of the value and rounds toward zero on both signs |
| SegyProcessing.SampleRate | backend/segy_processing.py:47-48 | a rate exists exactly when there is more than one sample, and it is the truncated difference of the first two sample times |
| SegyProcessing.GetSegyMetadata | backend/segy_processing.py:37-49 | path and trace count are passed through; the line counts are full lengths; the listed lines are the first min(50, n); samples_per_trace is the sample count; the sample rate is as in SampleRate |
| SegyProcessing.NormalizedLine | backend/segy_processing.py:74-75 | a known line number gives its array normalised, an unknown one an error |
| SegyProcessing.GetInlineSlice | backend/segy_processing.py:64-76 | no inline accessor and an unknown inline are errors; a result is `Normalize` of that inline's 2D array, so it has the line's shape with values in [0,1] |
| SegyProcessing.GetCrosslineSlice | backend/segy_processing.py:79-91 | no crossline accessor and an unknown crossline are errors; a result is `Normalize` of that crossline's 2D array, so it has the line's shape with values in [0,1] |
| DrillApp.Merge | backend/app.py:86-96 | `bit` is replaced iff the payload's bit is present; `md` is replaced iff present, 0.0 included; `path` is replaced iff non-empty; otherwise each field is unchanged |
| DrillApp.MergeIdempotent | backend/app.py:91-96 | applying the same update twice equals applying it once |
| DrillApp.MergeNothing | backend/app.py:91-96 | an update with no bit, no md and no non-empty path leaves the state unchanged |
| DrillApp.MergeLaterWins | backend/app.py:91-96 | a later update overrides an earlier one in exactly the fields it carries |
| DrillApp.IndexOf | backend/app.py:114 | the index `list.remove` deletes holds the element and no earlier position does |
| DrillApp.RemoveFirst | backend/app.py:113-116 | removing a client that is not listed changes nothing; otherwise exactly its first occurrence is cut out |
| DrillApp.RemoveFirstIsWithout | backend/app.py:133-136 | on a list without duplicates, `remove` takes out every occurrence and keeps the others in order |
| DrillApp.Without | backend/app.py:112-116 | removing the stale clients never lengthens the list; which clients remain is stated by WithoutMembers |
| DrillApp.WithoutMembers | backend/app.py:112-116 | what remains after removal is exactly what was listed and not removed |
| DrillApp.WithoutAbsent | backend/app.py:113-116 | removing only clients that are not listed leaves the list unchanged |
| DrillApp.WithoutThenOne | backend/app.py:112-116 | removing the stale clients one by one equals removing all of them |
| DrillApp.WithoutNoDuplicates | backend/app.py:112-116 | removal keeps a duplicate-free list duplicate-free |
| DrillApp.Failed | backend/app.py:106-111 | `stale_clients` is never longer than the client list, and is empty when every send succeeded |
| DrillApp.Survivors | backend/app.py:106-116 | survivors and stale clients together account for every client; when every send succeeded, every client survives |
| DrillApp.FailedMembers | backend/app.py:106-111 | a client is stale exactly when one of its sends failed |
| DrillApp.SurvivorsMembers | backend/app.py:106-116 | on a duplicate-free list a client survives exactly when its own send succeeded |
| DrillApp.PruneFailed | backend/app.py:106-116 | removing the stale clients leaves exactly the clients whose send succeeded, in their original order |
| DrillApp.CollectStale | backend/app.py:106-111 | the first broadcast loop collects exactly the failed clients, in list order |
| DrillApp.DrillHub.constructor | backend/app.py:29-35 | the server starts with no clients and the state {path: [], bit: None, md: 0.0} |
| DrillApp.DrillHub.Subscribe | backend/app.py:121-125 | the new client is appended at the end, the state is unchanged, and the greeting carries the current state |
| DrillApp.DrillHub.Disconnect | backend/app.py:132-136 | the client is no longer listed; the others keep their order; an absent client is a no-op |
| DrillApp.DrillHub.Prune | backend/app.py:112-116 | the list loses exactly the stale clients, and stale clients that are already gone are ignored |
| DrillApp.DrillHub.Broadcast | backend/app.py:102-116 | with no clients nothing is sent or changed; otherwise the state message is sent and the list becomes the successful clients in order; the state is unchanged |
| DrillApp.DrillHub.UpdateDrill | backend/app.py:76-99 | the state becomes the merge of the old state and the payload; with clients, the message broadcast carries that merged state (merge happens before the broadcast), with none no message is sent; the response is the stored state; the client list is pruned as by Broadcast |

## Left out

- segyio itself: opening the file, header and trace decoding, the inline and crossline geometry, and slice extraction. These are foreign-library behaviour. Their results are the inputs in `SegyView`.
- The "segyio not installed" fallback branches of `get_segy_metadata`, `get_inline_slice` and `get_crossline_slice`. They depend on the Python environment, not on data.
- The `float32` cast of slices before normalising, and all floating-point rounding: the model computes with exact reals and makes no claim about bit-exact float results. NaN and infinite amplitudes are not modelled either.
- SegyProcessing.GetSegyMetadata: the unit of segyio's sample times is not modelled. The model takes the times as given and truncates their difference, just as the source does.
- `save_and_parse_segy`: writing the upload to disk and creating the data directory. This is file I/O.
- HTTP routing, status codes, CORS middleware, the `latest.sgy` existence check and the health endpoint. This is transport.
- `frontend/main.js`. It is UI code.
- Async networking. `websocket.accept`, `send_json` and the `asyncio.sleep` keep-alive loop are not modelled. Each send is only a success or failure flag, supplied by the caller.
- Interleavings of coroutines during a broadcast (a client disconnecting between two awaited sends). Each method is modelled as one atomic step. `Prune` still tolerates stale clients that are already gone.
- Only one value shape per payload field: a `Point` triple for `bit`, a real for `md`, and a list of points for `path`. A truthy path of another JSON type is not modelled.
- DrillApp.DrillHub.Subscribe: requires the connection not to be listed yet. Each accepted websocket is a fresh object, so this always holds in the source. With duplicates, `list.remove` would not match the positional filter.
